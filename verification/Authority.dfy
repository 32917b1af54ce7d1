/** The authority of a request target: user information, host and port. */
module Authorities {
  import opened Wrappers
  import opened Ascii
  import opened Numerals
  import opened UriSyntax

  const UINT16_MAX: nat := 0xFFFF

  datatype Authority = Authority(userinfo: Option<string>, host: string, port: Option<nat>)

  function PortValue(digits: string, acc: nat): Option<nat> {
    if digits == "" then Some(acc)
    else if !IsDigit(digits[0]) || acc * 10 + HexDecode(digits[0]) > UINT16_MAX then None
    else PortValue(digits[1..], acc * 10 + HexDecode(digits[0]))
  }

  /** A colon without digits is no port. */
  function ParsePort(s: string): Option<Option<nat>> {
    if |s| <= 1 then Some(None)
    else
      match PortValue(s[1..], 0)
      case None => None
      case Some(v) => Some(Some(v))
  }

  function ParseAuthority(s: string): Option<Authority> {
    var at := Find(s, '@', 0);
    var userinfo := if at < |s| then Some(s[..at]) else None;
    var start := if at < |s| then at + 1 else 0;
    var colon := Find(s, ':', if at < |s| then at else 0);
    if userinfo.Some? && !IsText(userinfo.value, InUserinfo) then None
    else
      var host := s[start..colon];
      match ParsePort(s[colon..])
      case None => None
      case Some(port) => if IsText(host, InHost) then Some(Authority(userinfo, host, port)) else None
  }

  function PrintAuthority(a: Authority): string {
    (if a.userinfo.Some? then a.userinfo.value + "@" else "") + a.host
    + (if a.port.Some? then ":" + Decimal(a.port.value) else "")
  }

  predicate AuthorityOk(a: Authority) {
    && (a.userinfo.Some? ==> IsText(a.userinfo.value, InUserinfo)) && IsText(a.host, InHost)
    && (a.port.Some? ==> a.port.value <= UINT16_MAX)
  }

  /** A character that is neither allowed nor part of an encoding does not occur in a text. */
  lemma {:induction false} TextExcludes(s: string, place: Place, c: char)
    requires IsText(s, place) && !IsAllowed(c, place) && c != '%' && !IsHexDigit(c)
    ensures c !in s
    decreases |s|
  {
    if s != "" {
      if IsAllowed(s[0], place) {
        TextExcludes(s[1..], place, c);
        assert s == [s[0]] + s[1..];
      } else {
        TextExcludes(s[3..], place, c);
        assert s == s[..3] + s[3..];
      }
    }
  }

  lemma {:induction false} PortPrinted(n: nat, rest: string)
    requires n <= UINT16_MAX
    ensures PortValue(Decimal(n) + rest, 0) == PortValue(rest, n)
  {
    if n < 10 {
      var text := [DecimalDigit(n)] + rest;
      assert text[1..] == rest;
    } else {
      var high, d := Decimal(n / 10), DecimalDigit(n % 10);
      PortPrinted(n / 10, [d] + rest);
      assert Decimal(n) == high + [d] && n / 10 * 10 + HexDecode(d) == n && IsDigit(d);
      hide Decimal, HexDecode, DecimalDigit, IsDigit;
      Associate(high, [d], rest);
      assert ([d] + rest)[1..] == rest;
    }
  }

  lemma PrintedPort(port: Option<nat>)
    requires port.Some? ==> port.value <= UINT16_MAX
    ensures ParsePort(if port.Some? then ":" + Decimal(port.value) else "") == Some(port)
  {
    if port.Some? {
      var text := ":" + Decimal(port.value);
      assert text[1..] == Decimal(port.value) == Decimal(port.value) + "";
      PortPrinted(port.value, "");
    }
  }

  lemma CutInThree(a: string, c: char, b: string, d: string)
    ensures var s := a + [c] + b + d;
      && |s| == |a| + 1 + |b| + |d| && s[..|a|] == a && s[|a|] == c
      && s[|a| + 1..|a| + 1 + |b|] == b && s[|a| + 1 + |b|..] == d
  {
  }

  /** Cuts an authority at its marks. */
  lemma CutWithUser(u: string, h: string, end: string, s: string)
    requires '@' !in u && ':' !in h && (end == "" || end[0] == ':')
    requires |s| == |u| + 1 + |h| + |end| && s[..|u|] == u && s[|u|] == '@'
    requires s[|u| + 1..|u| + 1 + |h|] == h && s[|u| + 1 + |h|..] == end
    ensures Find(s, '@', 0) == |u| && Find(s, ':', |u|) == |u| + 1 + |h|
  {
    hide Find;
    forall j | 0 <= j < |u| ensures s[j] != '@' {
      assert s[..|u|][j] == u[j];
    }
    FindAt(s, '@', 0, |u|);
    forall j | |u| < j < |u| + 1 + |h| ensures s[j] != ':' {
      assert s[|u| + 1..|u| + 1 + |h|][j - |u| - 1] == h[j - |u| - 1];
    }
    if end != "" {
      assert s[|u| + 1 + |h|..][0] == end[0];
    }
    FindAt(s, ':', |u|, |u| + 1 + |h|);
  }

  lemma CutWithoutUser(h: string, end: string)
    requires '@' !in h && ':' !in h && '@' !in end && (end == "" || end[0] == ':')
    ensures var s := h + end;
      Find(s, '@', 0) == |s| && Find(s, ':', 0) == |h| && s[0..|h|] == h && s[|h|..] == end
  {
    hide Find;
    var s := h + end;
    assert forall j :: 0 <= j < |h| ==> s[j] == h[j];
    assert forall j :: |h| <= j < |s| ==> s[j] == end[j - |h|];
    FindAt(s, '@', 0, |s|);
    FindAt(s, ':', 0, |h|);
  }

  /** Printing a well-formed authority and reading it again gives it back. */
  lemma ReadsBack(a: Authority)
    requires AuthorityOk(a)
    ensures ParseAuthority(PrintAuthority(a)) == Some(a)
  {
    hide IsText, Decimal, ParsePort, Find;
    var end := if a.port.Some? then ":" + Decimal(a.port.value) else "";
    PrintedPort(a.port);
    HostExcludes(a);
    PortExcludes(a.port);
    if a.userinfo.Some? {
      ReadsBackWithUser(a, end);
    } else {
      ReadsBackWithoutUser(a, end);
      assert "" + a.host == a.host;
    }
  }

  lemma ReadsBackWithoutUser(a: Authority, end: string)
    requires AuthorityOk(a) && a.userinfo.None? && ParsePort(end) == Some(a.port) && (end == "" || end[0] == ':')
    requires '@' !in a.host && ':' !in a.host && '@' !in end
    ensures ParseAuthority(a.host + end) == Some(a)
  {
    hide IsText, ParsePort, Find;
    CutWithoutUser(a.host, end);
  }

  lemma ReadsBackWithUser(a: Authority, end: string)
    requires AuthorityOk(a) && a.userinfo.Some? && ParsePort(end) == Some(a.port) && (end == "" || end[0] == ':')
    requires '@' !in a.userinfo.value && ':' !in a.host
    ensures ParseAuthority(a.userinfo.value + "@" + a.host + end) == Some(a)
  {
    hide IsText, ParsePort, Find;
    CutInThree(a.userinfo.value, '@', a.host, end);
    CutWithUser(a.userinfo.value, a.host, end, a.userinfo.value + "@" + a.host + end);
  }

  lemma HostExcludes(a: Authority)
    requires AuthorityOk(a)
    ensures '@' !in a.host && ':' !in a.host && (a.userinfo.Some? ==> '@' !in a.userinfo.value)
  {
    TextExcludes(a.host, InHost, '@');
    TextExcludes(a.host, InHost, ':');
    if a.userinfo.Some? {
      TextExcludes(a.userinfo.value, InUserinfo, '@');
    }
  }

  lemma PortExcludes(port: Option<nat>)
    ensures '@' !in (if port.Some? then ":" + Decimal(port.value) else "")
  {
  }

  /** What is read is well formed, and only the port may be spelled differently from the printed form. */
  lemma ReadsOk(s: string)
    requires ParseAuthority(s).Some?
    ensures var a := ParseAuthority(s).value;
      && AuthorityOk(a)
      && var text := s[Find(s, ':', if a.userinfo.Some? then |a.userinfo.value| else 0)..];
      ParsePort(text) == Some(a.port) && s == PrintAuthority(a.(port := None)) + text
  {
    hide IsText, Decimal, ParsePort;
    var a := ParseAuthority(s).value;
    var at := Find(s, '@', 0);
    var start := if at < |s| then at + 1 else 0;
    var colon := Find(s, ':', if at < |s| then at else 0);
    PortBound(s[colon..]);
    hide Find;
    if at < |s| {
      assert PrintAuthority(a.(port := None)) == s[..at] + "@" + s[start..colon];
      assert s == s[..at] + "@" + s[start..colon] + s[colon..];
    } else {
      assert PrintAuthority(a.(port := None)) == s[start..colon];
      assert s == s[start..colon] + s[colon..];
    }
  }

  lemma PortBound(text: string)
    ensures ParsePort(text).Some? && ParsePort(text).value.Some? ==> ParsePort(text).value.value <= UINT16_MAX
  {
    if |text| > 1 {
      PortValueBound(text[1..], 0);
    }
  }

  lemma {:induction false} PortValueBound(digits: string, acc: nat)
    requires acc <= UINT16_MAX
    ensures PortValue(digits, acc).Some? ==> PortValue(digits, acc).value <= UINT16_MAX
    decreases |digits|
  {
    if digits != "" && IsDigit(digits[0]) && acc * 10 + HexDecode(digits[0]) <= UINT16_MAX {
      PortValueBound(digits[1..], acc * 10 + HexDecode(digits[0]));
    }
  }

  /** Printing what was read and reading it again changes nothing. */
  lemma Normalises(s: string)
    requires ParseAuthority(s).Some?
    ensures ParseAuthority(PrintAuthority(ParseAuthority(s).value)) == ParseAuthority(s)
  {
    ReadsOk(s);
    ReadsBack(ParseAuthority(s).value);
  }
}
