/** Exactly which authorities and absolute targets are read, described by their texts. */
module UriExactness {
  import opened Wrappers
  import opened Ascii
  import opened Numerals
  import opened UriSyntax
  import opened Authorities
  import opened Uris

  lemma {:induction false} PortSnoc(s: string, c: char, acc: nat)
    ensures var v := PortValue(s, acc);
      && (v.None? ==> PortValue(s + [c], acc).None?)
      && (v.Some? ==>
            PortValue(s + [c], acc) ==
            if IsDigit(c) && v.value * 10 + HexDecode(c) <= UINT16_MAX then Some(v.value * 10 + HexDecode(c)) else None)
    decreases |s|
  {
    if s == "" {
      assert s + [c] == [c] && [c][1..] == "";
    } else {
      assert (s + [c])[1..] == s[1..] + [c];
      PortSnoc(s[1..], c, acc * 10 + HexDecode(s[0]));
    }
  }

  /** A port is any spelling of a number below 65536. */
  lemma {:induction false} PortExact(s: string)
    ensures PortValue(s, 0) ==
      if IsDecimalText(s) && BaseValue(10, s) <= UINT16_MAX then Some(BaseValue(10, s)) else None
    decreases |s|
  {
    if s != "" {
      var high, c := s[..|s| - 1], s[|s| - 1];
      assert s == high + [c];
      PortSnoc(high, c, 0);
      PortExact(high);
      hide HexDecode, PortValue;
      assert IsDecimalText(s) <==> IsDecimalText(high) && IsDigit(c);
    }
  }

  /** The text behind the host: nothing, a colon alone, or a colon and the port. */
  predicate PortSpelled(text: string, port: Option<nat>) {
    if text == "" || text == ":" then port == None
    else
      && text[0] == ':' && IsDecimalText(text[1..])
      && port == Some(BaseValue(10, text[1..])) && port.value <= UINT16_MAX
  }

  lemma PortTextExact(text: string, port: Option<nat>)
    requires text == "" || text[0] == ':'
    ensures ParsePort(text) == Some(port) <==> PortSpelled(text, port)
  {
    if |text| > 1 {
      PortExact(text[1..]);
    }
  }

  lemma PortTextPlain(text: string, port: Option<nat>, c: char)
    requires PortSpelled(text, port) && c != ':' && !IsDigit(c)
    ensures c !in text
  {
    if text != "" {
      assert text == [text[0]] + text[1..];
    }
  }

  ghost predicate IsAuthority(s: string, a: Authority) {
    exists text | PortSpelled(text, a.port) :: AuthorityOk(a) && s == PrintAuthority(a.(port := None)) + text
  }

  lemma AuthorityReads(a: Authority, text: string)
    requires AuthorityOk(a) && PortSpelled(text, a.port)
    ensures ParseAuthority(PrintAuthority(a.(port := None)) + text) == Some(a)
  {
    PortTextExact(text, a.port);
    PortTextPlain(text, a.port, '@');
    HostExcludes(a);
    hide IsText, ParsePort, Find;
    if a.userinfo.Some? {
      ReadsBackWithUser(a, text);
      assert PrintAuthority(a.(port := None)) == a.userinfo.value + "@" + a.host;
    } else {
      ReadsBackWithoutUser(a, text);
      assert PrintAuthority(a.(port := None)) == a.host;
    }
  }

  /** A text is read as an authority exactly when it is its user information, host and some spelling of its port. */
  lemma AuthorityExact(s: string, a: Authority)
    ensures ParseAuthority(s) == Some(a) <==> IsAuthority(s, a)
  {
    hide ParseAuthority, AuthorityOk, PrintAuthority, PortSpelled;
    if ParseAuthority(s) == Some(a) {
      ReadsOk(s);
      var text := s[Find(s, ':', if a.userinfo.Some? then |a.userinfo.value| else 0)..];
      PortTextExact(text, a.port);
    }
    forall text | PortSpelled(text, a.port) && AuthorityOk(a) && s == PrintAuthority(a.(port := None)) + text
      ensures ParseAuthority(s) == Some(a)
    {
      AuthorityReads(a, text);
    }
  }

  // Absolute targets

  /** No character that could end an authority. */
  predicate NoEnd(s: string) {
    '/' !in s && '?' !in s && '#' !in s
  }

  lemma AuthorityHasNoEnd(s: string)
    requires ParseAuthority(s).Some?
    ensures NoEnd(s)
  {
    var a := ParseAuthority(s).value;
    AuthorityExact(s, a);
    var text :| PortSpelled(text, a.port) && AuthorityOk(a) && s == PrintAuthority(a.(port := None)) + text;
    Excluded(a, text, '/');
    Excluded(a, text, '?');
    Excluded(a, text, '#');
  }

  lemma Excluded(a: Authority, text: string, c: char)
    requires AuthorityOk(a) && PortSpelled(text, a.port) && c in {'/', '?', '#'}
    ensures c !in PrintAuthority(a.(port := None)) + text
  {
    PortTextPlain(text, a.port, c);
    TextExcludes(a.host, InHost, c);
    if a.userinfo.Some? {
      TextExcludes(a.userinfo.value, InUserinfo, c);
    }
    hide IsText, PortSpelled;
  }

  /** Where the authority ends is found by looking for a slash first.  So a target without a path is cut in the
      right place exactly when no slash, and without a query no question mark, comes later. */
  predicate CutRight(t: Target) {
    t.path.Some? || ('/' !in Render(t) && (t.query.Some? || '?' !in Render(t)))
  }

  lemma {:induction false} SchemeFound(scheme: string, rest: string, from: nat)
    requires from <= |scheme| && ':' !in scheme
    ensures SchemeEnd(scheme + "://" + rest, from) == |scheme|
    decreases |scheme| - from
  {
    var str := scheme + "://" + rest;
    if from < |scheme| {
      assert str[from] == scheme[from] != ':';
      assert str[from..from + 3][0] == str[from];
      SchemeFound(scheme, rest, from + 1);
    } else {
      assert str[from..from + 3] == "://";
    }
  }

  lemma SchemeHasNoColon(scheme: string)
    requires SchemeOk(scheme)
    ensures ':' !in scheme
  {
    assert forall k :: 0 <= k < |scheme| ==> scheme[k] != ':';
  }

  lemma FindIn(front: string, mid: string, rest: string, c: char)
    requires c !in mid
    ensures var str, start := front + mid + rest, |front|;
      Find(str, c, start) == start + |mid| + Find(rest, c, 0)
  {
    var str, start := front + mid + rest, |front|;
    var k := Find(rest, c, 0);
    forall j | start <= j < start + |mid| + k ensures str[j] != c {
      if j < start + |mid| {
        assert str[j] == mid[j - start];
      } else {
        assert str[j] == rest[j - start - |mid|];
      }
    }
    if k < |rest| {
      assert str[start + |mid| + k] == rest[k];
    }
    FindAt(str, c, start, start + |mid| + k);
  }

  lemma FindNone(s: string, c: char)
    ensures Find(s, c, 0) == |s| <==> c !in s
    ensures Find(s, c, 0) == 0 <==> s == "" || s[0] == c
  {
  }

  lemma EndFound(front: string, mid: string, t: Target)
    requires NoEnd(mid) && IsTarget(t)
    ensures AuthorityEnd(front + mid + Render(t), |front|) == |front| + |mid| <==> CutRight(t)
  {
    var rest := Render(t);
    FindIn(front, mid, rest, '/');
    FindIn(front, mid, rest, '?');
    FindIn(front, mid, rest, '#');
    FindNone(rest, '/');
    FindNone(rest, '?');
    FindNone(rest, '#');
    RestStart(t);
    hide Find, Render;
  }

  lemma RestStart(t: Target)
    requires IsTarget(t)
    ensures var rest := Render(t);
      && (t.path.Some? ==> rest != "" && rest[0] == '/')
      && (t.path.None? && t.query.Some? ==> rest != "" && rest[0] == '?')
      && (t.path.None? && t.query.None? && t.fragment.Some? ==> rest != "" && rest[0] == '#')
      && (t.path.None? && t.query.None? && t.fragment.None? ==> rest == "")
  {
    hide IsText;
  }

  lemma CutTexts(scheme: string, mid: string, rest: string)
    ensures var str, front := scheme + "://" + mid + rest, scheme + "://";
      && str == front + mid + rest && |front| == |scheme| + 3
      && str[..|scheme|] == scheme && str[|front|..|front| + |mid|] == mid && str[|front| + |mid|..] == rest
      && str == scheme + "://" + (mid + rest)
  {
    var front := scheme + "://";
    Associate(front, mid, rest);
    Associate(scheme, "://", mid + rest);
    Cut(scheme, "://" + (mid + rest));
    Cut(front + mid, rest);
  }

  /** An absolute target is taken apart as it was put together exactly when the authority is cut in the right
      place; otherwise it is refused. */
  lemma AbsoluteExact(scheme: string, mid: string, t: Target)
    requires SchemeOk(scheme) && ParseAuthority(mid).Some? && IsTarget(t)
    ensures var str := scheme + "://" + mid + Render(t);
      && HasSchemeMark(str) && SchemeText(str) == scheme
      && (CutRight(t) ==> AuthorityText(str) == mid && Split(RestText(str)) == Some(t))
      && (!CutRight(t) ==> ParseAuthority(AuthorityText(str)).None?)
  {
    hide ParseAuthority, SchemeOk, SchemeEnd, AuthorityEnd, Split, IsTarget, Render, CutRight, NoEnd;
    var rest, front := Render(t), scheme + "://";
    var str := front + mid + rest;
    CutTexts(scheme, mid, rest);
    AuthorityHasNoEnd(mid);
    SchemeHasNoColon(scheme);
    SchemeFound(scheme, mid + rest, 0);
    EndFound(front, mid, t);
    if CutRight(t) {
      SplitExact(rest, t);
    } else {
      WrongCut(front, mid, rest, t);
    }
  }

  /** An authority cut too late holds the mark of a query or a fragment. */
  lemma WrongCut(front: string, mid: string, rest: string, t: Target)
    requires NoEnd(mid) && IsTarget(t) && rest == Render(t) && !CutRight(t)
    ensures var str := front + mid + rest;
      ParseAuthority(str[|front|..AuthorityEnd(str, |front|)]).None?
  {
    var str := front + mid + rest;
    var end := AuthorityEnd(str, |front|);
    FindIn(front, mid, rest, '/');
    FindIn(front, mid, rest, '?');
    FindIn(front, mid, rest, '#');
    FindNone(rest, '/');
    FindNone(rest, '?');
    RestStart(t);
    hide Find, Render, ParseAuthority, IsTarget;
    assert end > |front| + |mid|;
    var cut := str[|front|..end];
    assert cut[|mid|] == rest[0];
    assert rest[0] in cut;
    if ParseAuthority(cut).Some? {
      AuthorityHasNoEnd(cut);
    }
  }

  /** So every absolute target without a path is refused whose query holds a slash. */
  lemma SlashInQueryRefused(scheme: string, mid: string, query: string)
    requires SchemeOk(scheme) && ParseAuthority(mid).Some? && IsText(query, InQuery) && '/' in query
    ensures var str := scheme + "://" + mid + ("?" + query);
      HasSchemeMark(str) && ParseAuthority(AuthorityText(str)).None?
  {
    hide ParseAuthority, SchemeOk, IsText, HasSchemeMark, AuthorityText;
    var t := Target(None, Some(query), None);
    assert Render(t) == "?" + query;
    AbsoluteExact(scheme, mid, t);
  }
}
