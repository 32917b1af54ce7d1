/**
 The textual form of IPv6 addresses (section 2.2 of RFC 4291): what the parser computes as a fold over
 the text, and the grammar it accepts.
 */
module Ipv6Text {
  import opened Wrappers
  import opened Ascii
  import opened Numerals

  const ADDRESS: nat := 16

  function Zeros(n: nat): (z: seq<Byte>)
    ensures |z| == n && forall k :: 0 <= k < n ==> z[k] == 0
  {
    seq(n, _ => 0)
  }

  /** A group of up to four hexadecimal digits as two bytes. */
  function TokenBytes(t: string): (b: seq<Byte>)
    requires IsHexText(t) && |t| <= 4
    ensures |b| == 2
  {
    [HexValue(t) / 256, HexValue(t) % 256]
  }

  // Dotted decimal

  /** Octets read so far, the last of them unfinished while `saw` holds or not begun while it does not. */
  function Quad(rest: string, out: seq<Byte>, saw: bool): (r: Option<seq<Byte>>)
    requires 1 <= |out| <= 4
    ensures r.Some? ==> |r.value| == 4
    decreases |rest|
  {
    var last := out[|out| - 1];
    var octets := if saw then |out| else |out| - 1;
    if rest == "" then (if octets < 4 then None else Some(out))
    else if IsDigit(rest[0]) then
      var nu := last * 10 + HexDecode(rest[0]);
      if (saw && last == 0) || nu > 255 || (!saw && octets + 1 > 4) then None
      else Quad(rest[1..], out[..|out| - 1] + [nu], true)
    else if rest[0] == '.' && saw && octets != 4 then Quad(rest[1..], out + [0], false)
    else None
  }

  function ParseQuad(text: string): Option<seq<Byte>> {
    Quad(text, [0], false)
  }

  function PrintQuad(b: seq<Byte>): string {
    if |b| == 0 then ""
    else if |b| == 1 then Decimal(b[0])
    else PrintQuad(b[..|b| - 1]) + "." + Decimal(b[|b| - 1])
  }

  /** The text that leads to a state of the dotted-decimal loop. */
  function QuadRead(out: seq<Byte>, saw: bool): string
    requires out != []
  {
    (if |out| == 1 then "" else PrintQuad(out[..|out| - 1]) + ".")
    + (if saw then Decimal(out[|out| - 1]) else "")
  }

  lemma ReadDigit(out: seq<Byte>, saw: bool, c: char)
    requires out != [] && IsDigit(c) && (saw <==> out[|out| - 1] != 0) && out[|out| - 1] * 10 + HexDecode(c) < 256
    ensures var nu := out[|out| - 1] * 10 + HexDecode(c);
      QuadRead(out[..|out| - 1] + [nu], true) == QuadRead(out, saw) + [c]
  {
    hide PrintQuad, Decimal, HexDecode;
    var last := out[|out| - 1];
    var nu := last * 10 + HexDecode(c);
    var next := out[..|out| - 1] + [nu];
    assert next[..|next| - 1] == out[..|out| - 1];
    DecimalSnoc(last, c);
    assert Decimal(nu) == (if saw then Decimal(last) else "") + [c];
  }

  lemma DecimalSnoc(n: nat, c: char)
    requires IsDigit(c)
    ensures Decimal(n * 10 + HexDecode(c)) == (if n == 0 then "" else Decimal(n)) + [c]
  {
    var d := HexDecode(c);
    assert (n * 10 + d) / 10 == n && (n * 10 + d) % 10 == d && DecimalDigit(d) == c;
  }

  lemma ReadDot(out: seq<Byte>)
    requires out != []
    ensures QuadRead(out + [0], false) == QuadRead(out, true) + "."
  {
    assert (out + [0])[..|out|] == out;
  }

  lemma {:induction false} QuadSound(rest: string, out: seq<Byte>, saw: bool)
    requires 1 <= |out| <= 4 && (!saw ==> out[|out| - 1] == 0)
    requires Quad(rest, out, saw).Some?
    ensures QuadRead(out, saw) + rest == PrintQuad(Quad(rest, out, saw).value)
    decreases |rest|
  {
    hide QuadRead, PrintQuad, Decimal;
    if rest == "" {
      ReadAll(out);
      assert QuadRead(out, saw) + rest == QuadRead(out, saw);
    } else {
      assert rest == [rest[0]] + rest[1..];
      var last := out[|out| - 1];
      if IsDigit(rest[0]) {
        var nu := last * 10 + HexDecode(rest[0]);
        QuadSound(rest[1..], out[..|out| - 1] + [nu], true);
        ReadDigit(out, saw, rest[0]);
      } else {
        QuadSound(rest[1..], out + [0], false);
        ReadDot(out);
      }
    }
  }

  lemma ReadAll(out: seq<Byte>)
    requires out != []
    ensures QuadRead(out, true) == PrintQuad(out)
  {
    hide Decimal;
  }

  lemma {:induction false} QuadDigits(v: nat, rest: string, out: seq<Byte>)
    requires v < 256 && |out| <= 3
    ensures Quad(Decimal(v) + rest, out + [0], false) == Quad(rest, out + [v], true)
  {
    if v < 10 {
      var text := [DecimalDigit(v)] + rest;
      assert text[1..] == rest;
      assert (out + [0])[..|out|] == out;
    } else {
      var high, d := Decimal(v / 10), DecimalDigit(v % 10);
      var text := [d] + rest;
      assert Decimal(v) == high + [d] && IsDigit(d) && v / 10 * 10 + HexDecode(d) == v;
      hide Decimal, HexDecode, DecimalDigit;
      QuadDigits(v / 10, text, out);
      Associate(high, [d], rest);
      assert (out + [v / 10])[..|out|] == out;
      assert Quad(text, out + [v / 10], true) == Quad(text[1..], out + [v], true);
      assert text[1..] == rest;
    }
  }

  lemma QuadDot(rest: string, out: seq<Byte>)
    requires 1 <= |out| <= 3
    ensures Quad("." + rest, out, true) == Quad(rest, out + [0], false)
  {
    assert ("." + rest)[1..] == rest;
  }

  /** The dotted-decimal parser accepts exactly the canonical form of four octets. */
  lemma QuadExact(text: string, b: seq<Byte>)
    ensures ParseQuad(text) == Some(b) <==> |b| == 4 && text == PrintQuad(b)
  {
    if ParseQuad(text).Some? {
      QuadSound(text, [0], false);
      assert QuadRead([0], false) + text == text;
    }
    if |b| == 4 && text == PrintQuad(b) {
      ParsePrintedQuad(b);
    }
  }

  lemma ParsePrintedQuad(b: seq<Byte>)
    requires |b| == 4
    ensures PrintQuad(b) == Decimal(b[0]) + "." + Decimal(b[1]) + "." + Decimal(b[2]) + "." + Decimal(b[3])
    ensures ParseQuad(PrintQuad(b)) == Some(b)
  {
    hide Quad, Decimal;
    assert b[..2][..1] == b[..1] && b[..3][..2] == b[..2];
    assert PrintQuad(b[..2]) == Decimal(b[0]) + "." + Decimal(b[1]);
    assert PrintQuad(b[..3]) == PrintQuad(b[..2]) + "." + Decimal(b[2]);
    var three := Decimal(b[3]);
    var two := Decimal(b[2]) + ("." + three);
    var one := Decimal(b[1]) + ("." + two);
    RegroupQuad(Decimal(b[0]), Decimal(b[1]), Decimal(b[2]), three);
    assert PrintQuad(b) == Decimal(b[0]) + ("." + one);
    assert PrintQuad(b) == PrintQuad(b) + "";
    assert b[..0] + [0] == [0] && b[..0] + [b[0]] == b[..1] && b[..1] + [b[1]] == b[..2];
    assert b[..2] + [b[2]] == b[..3] && b[..3] + [b[3]] == b;
    QuadDigits(b[0], "." + one, b[..0]);
    QuadDot(one, b[..1]);
    QuadDigits(b[1], "." + two, b[..1]);
    QuadDot(two, b[..2]);
    QuadDigits(b[2], "." + three, b[..2]);
    QuadDot(three, b[..3]);
    QuadDigits(b[3], "", b[..3]);
    assert three + "" == three;
    QuadEnd(b);
  }

  lemma RegroupQuad(a: string, b: string, c: string, d: string)
    ensures a + "." + b + "." + c + "." + d == a + ("." + (b + ("." + (c + ("." + d)))))
  {
  }

  lemma QuadEnd(b: seq<Byte>)
    requires |b| == 4
    ensures Quad("", b, true) == Some(b)
  {
  }

  // Colon-separated groups

  /** Fills the gap with zero bytes. */
  function Expand(out: seq<Byte>, gap: Option<nat>): (r: Option<seq<Byte>>)
    requires gap.Some? ==> gap.value <= |out|
    ensures r.Some? ==> |r.value| == ADDRESS
  {
    if gap.None? then (if |out| == ADDRESS then Some(out) else None)
    else if |out| >= ADDRESS then None
    else Some(out[..gap.value] + Zeros(ADDRESS - |out|) + out[gap.value..])
  }

  function Finish(out: seq<Byte>, gap: Option<nat>, tok: string): (r: Option<seq<Byte>>)
    requires gap.Some? ==> gap.value <= |out|
    requires IsHexText(tok) && |tok| <= 4
    ensures r.Some? ==> |r.value| == ADDRESS
  {
    if tok == "" then Expand(out, gap)
    else if |out| + 2 > ADDRESS then None
    else Expand(out + TokenBytes(tok), gap)
  }

  /** The loop of the parser: `rest` is unread, `tok` the digits of the group being read. */
  function Scan(rest: string, out: seq<Byte>, gap: Option<nat>, tok: string): (r: Option<seq<Byte>>)
    requires gap.Some? ==> gap.value <= |out|
    requires IsHexText(tok) && |tok| <= 4
    ensures r.Some? ==> |r.value| == ADDRESS
    decreases |rest|
  {
    if rest == "" then Finish(out, gap, tok)
    else
      var c := rest[0];
      if IsXdigit(c) then (if |tok| == 4 then None else Scan(rest[1..], out, gap, tok + [c]))
      else if c == ':' then
        if tok == "" then (if gap.Some? then None else Scan(rest[1..], out, Some(|out|), ""))
        else if rest[1..] == "" || |out| + 2 > ADDRESS then None
        else Scan(rest[1..], out + TokenBytes(tok), gap, "")
      else if c == '.' && |out| + 4 <= ADDRESS && ParseQuad(tok + rest).Some? then
        Finish(out + ParseQuad(tok + rest).value, gap, "")
      else None
  }

  function Parse(text: string): (r: Option<seq<Byte>>)
    ensures r.Some? ==> |r.value| == ADDRESS
  {
    if text == "" then None
    else if text[0] == ':' then
      if |text| == 1 || text[1] != ':' then None else Scan(text[1..], [], None, "")
    else Scan(text, [], None, "")
  }

  // The grammar

  predicate IsGroup(e: string) {
    IsHexText(e) && 1 <= |e| <= 4
  }

  predicate IsQuad(e: string) {
    ParseQuad(e).Some?
  }

  predicate AreGroups(es: seq<string>) {
    forall k :: 0 <= k < |es| ==> IsGroup(es[k])
  }

  /** Groups, the last of which may instead be in dotted decimal. */
  predicate AreElements(es: seq<string>) {
    es == [] || (AreGroups(es[..|es| - 1]) && (IsGroup(es[|es| - 1]) || IsQuad(es[|es| - 1])))
  }

  function ElementBytes(e: string): seq<Byte>
    requires IsGroup(e) || IsQuad(e)
  {
    if IsGroup(e) then TokenBytes(e) else ParseQuad(e).value
  }

  lemma ElementsTail(es: seq<string>)
    requires AreElements(es) && es != []
    ensures (IsGroup(es[0]) || IsQuad(es[0])) && AreElements(es[1..]) && (|es| > 1 ==> IsGroup(es[0]))
  {
    if |es| > 1 {
      assert es[..|es| - 1][0] == es[0];
      forall k | 0 <= k < |es| - 2 ensures IsGroup(es[1..][k]) {
        assert es[..|es| - 1][k + 1] == es[k + 1];
      }
    }
  }

  function Bytes(es: seq<string>): seq<Byte>
    requires AreElements(es)
    decreases |es|
  {
    if es == [] then []
    else
      ElementsTail(es);
      ElementBytes(es[0]) + Bytes(es[1..])
  }

  function Join(es: seq<string>): string {
    if es == [] then "" else if |es| == 1 then es[0] else es[0] + ":" + Join(es[1..])
  }

  /** The text of groups around at most one gap, and the sixteen bytes it stands for. */
  predicate Denotes(text: string, left: seq<string>, right: Option<seq<string>>, r: seq<Byte>) {
    if right.None? then AreElements(left) && text == Join(left) && r == Bytes(left) && |r| == ADDRESS
    else
      && AreGroups(left) && AreElements(right.value) && AreElements(left)
      && text == Join(left) + "::" + Join(right.value)
      && var n := |Bytes(left)| + |Bytes(right.value)|;
      n < ADDRESS && r == Bytes(left) + Zeros(ADDRESS - n) + Bytes(right.value)
  }

  // Every text of the grammar is accepted

  lemma {:induction false} ScanToken(t: string, rest: string, out: seq<Byte>, gap: Option<nat>, tok: string)
    requires gap.Some? ==> gap.value <= |out|
    requires IsHexText(tok) && IsHexText(t) && |tok| + |t| <= 4
    ensures IsHexText(tok + t)
    ensures Scan(t + rest, out, gap, tok) == Scan(rest, out, gap, tok + t)
    decreases |t|
  {
    if t == "" {
      assert t + rest == rest && tok + t == tok;
    } else {
      var text := t + rest;
      assert text[1..] == t[1..] + rest;
      assert tok + [t[0]] + t[1..] == tok + t;
      ScanToken(t[1..], rest, out, gap, tok + [t[0]]);
    }
  }

  lemma ScanGroup(e: string, rest: string, out: seq<Byte>, gap: Option<nat>)
    requires gap.Some? ==> gap.value <= |out|
    requires IsGroup(e) && rest != "" && |out| + 2 <= ADDRESS
    ensures Scan(e + (":" + rest), out, gap, "") == Scan(rest, out + TokenBytes(e), gap, "")
  {
    ScanToken(e, ":" + rest, out, gap, "");
    assert "" + e == e && (":" + rest)[1..] == rest;
  }

  lemma ScanQuad(e: string, out: seq<Byte>, gap: Option<nat>)
    requires gap.Some? ==> gap.value <= |out|
    requires IsQuad(e) && |out| + 4 <= ADDRESS
    ensures Scan(e, out, gap, "") == Expand(out + ParseQuad(e).value, gap)
  {
    var first, rest := QuadSplit(e);
    hide ParseQuad, Expand, HexValue;
    ScanToken(first, rest, out, gap, "");
    assert "" + first == first;
    assert ParseQuad(first + rest) == ParseQuad(e);
    ScanDot(rest, out, gap, first);
  }

  lemma ScanDot(rest: string, out: seq<Byte>, gap: Option<nat>, tok: string)
    requires gap.Some? ==> gap.value <= |out|
    requires IsHexText(tok) && |tok| <= 4 && rest != "" && rest[0] == '.'
    requires |out| + 4 <= ADDRESS && ParseQuad(tok + rest).Some?
    ensures Scan(rest, out, gap, tok) == Expand(out + ParseQuad(tok + rest).value, gap)
  {
    hide ParseQuad, Expand;
  }

  lemma QuadSplit(e: string) returns (first: string, rest: string)
    requires IsQuad(e)
    ensures e == first + rest && rest != "" && rest[0] == '.' && IsHexText(first) && 1 <= |first| <= 3
  {
    var b := ParseQuad(e).value;
    QuadExact(e, b);
    ParsePrintedQuad(b);
    hide ParseQuad, PrintQuad, Decimal, IsHexText;
    OctetDigits(b[0]);
    first := Decimal(b[0]);
    rest := e[|first|..];
    RegroupQuad(first, Decimal(b[1]), Decimal(b[2]), Decimal(b[3]));
  }

  lemma OctetDigits(v: Byte)
    ensures IsHexText(Decimal(v)) && 1 <= |Decimal(v)| <= 3
  {
    if v >= 10 {
      assert |Decimal(v / 10)| <= 2;
    }
  }

  lemma ElementsJoin(es: seq<string>)
    requires AreElements(es) && es != []
    ensures Join(es) != ""
  {
    ElementsTail(es);
    if IsQuad(es[0]) {
      assert ParseQuad("").None?;
    }
  }

  lemma {:induction false} ScanElements(es: seq<string>, out: seq<Byte>, gap: Option<nat>)
    requires gap.Some? ==> gap.value <= |out|
    requires AreElements(es) && |out| + |Bytes(es)| <= ADDRESS
    ensures Scan(Join(es), out, gap, "") == Expand(out + Bytes(es), gap)
    decreases |es|
  {
    hide Scan, Expand, AreElements, IsGroup, IsQuad, IsHexText, ElementBytes, Bytes, Join;
    if es == [] {
      ScanNothing(out, gap);
      assert out + [] == out;
    } else {
      BytesFirst(es);
      JoinFirst(es);
      if |es| == 1 {
        ScanElement(es[0], out, gap);
      } else {
        ElementsTail(es);
        ScanGroup(es[0], Join(es[1..]), out, gap);
        ScanElements(es[1..], out + ElementBytes(es[0]), gap);
        assert out + ElementBytes(es[0]) + Bytes(es[1..]) == out + Bytes(es);
      }
    }
  }

  lemma ScanNothing(out: seq<Byte>, gap: Option<nat>)
    requires gap.Some? ==> gap.value <= |out|
    ensures Scan("", out, gap, "") == Expand(out, gap) && Join([]) == "" && AreElements([]) && Bytes([]) == []
  {
  }

  lemma JoinFirst(es: seq<string>)
    requires AreElements(es) && es != []
    ensures Join(es) != "" && (|es| == 1 ==> Join(es) == es[0])
    ensures |es| > 1 ==> Join(es) == es[0] + (":" + Join(es[1..])) && Join(es[1..]) != ""
  {
    hide IsGroup, IsQuad, AreElements, Join;
    ElementsJoin(es);
    ElementsTail(es);
    JoinUnfold(es);
    if |es| > 1 {
      ElementsJoin(es[1..]);
    }
  }

  lemma JoinUnfold(es: seq<string>)
    requires es != []
    ensures Join(es) == if |es| == 1 then es[0] else es[0] + (":" + Join(es[1..]))
  {
  }

  lemma BytesFirst(es: seq<string>)
    requires AreElements(es) && es != []
    ensures AreElements(es[1..]) && (IsGroup(es[0]) || IsQuad(es[0]))
    ensures Bytes(es) == ElementBytes(es[0]) + Bytes(es[1..]) && (|es| == 1 ==> Bytes(es) == ElementBytes(es[0]))
    ensures IsGroup(es[0]) ==> ElementBytes(es[0]) == TokenBytes(es[0]) && |ElementBytes(es[0])| == 2
    ensures |ElementBytes(es[0])| == if IsGroup(es[0]) then 2 else 4
  {
    ElementsTail(es);
    assert |es| == 1 ==> Bytes(es[1..]) == [];
  }

  lemma ScanElement(e: string, out: seq<Byte>, gap: Option<nat>)
    requires gap.Some? ==> gap.value <= |out|
    requires (IsGroup(e) || IsQuad(e)) && |out| + |ElementBytes(e)| <= ADDRESS
    ensures Scan(e, out, gap, "") == Expand(out + ElementBytes(e), gap)
  {
    if IsGroup(e) {
      hide Expand, ParseQuad;
      ScanToken(e, "", out, gap, "");
      assert e + "" == e && "" + e == e;
    } else {
      ScanQuad(e, out, gap);
    }
  }

  function Lead(es: seq<string>): string {
    if es == [] then "" else es[0] + ":" + Lead(es[1..])
  }

  lemma {:induction false} LeadJoin(es: seq<string>)
    requires es != []
    ensures Lead(es) == Join(es) + ":"
  {
    if |es| > 1 {
      LeadJoin(es[1..]);
    }
  }

  lemma {:induction false} GroupBytes(es: seq<string>)
    requires AreGroups(es)
    ensures AreElements(es) && |Bytes(es)| == 2 * |es|
  {
    if es != [] {
      GroupBytes(es[1..]);
      BytesFirst(es);
    }
  }

  lemma LeadUnfold(es: seq<string>, rest: string)
    ensures Lead(es) + rest == if es == [] then rest else es[0] + (":" + (Lead(es[1..]) + rest))
  {
  }

  lemma {:induction false} ScanLead(left: seq<string>, rest: string, out: seq<Byte>, gap: Option<nat>)
    requires gap.Some? ==> gap.value <= |out|
    requires AreGroups(left) && rest != "" && |out| + 2 * |left| <= ADDRESS
    ensures AreElements(left)
    ensures Scan(Lead(left) + rest, out, gap, "") == Scan(rest, out + Bytes(left), gap, "")
    decreases |left|
  {
    GroupBytes(left);
    hide Scan, IsGroup, IsQuad, IsHexText, ElementBytes, Bytes, AreElements, Lead, TokenBytes;
    if left == [] {
      ScanNothing(out, gap);
      LeadUnfold(left, rest);
      assert out + [] == out;
    } else {
      var tail := Lead(left[1..]) + rest;
      BytesFirst(left);
      LeadUnfold(left, rest);
      ScanGroup(left[0], tail, out, gap);
      ScanLead(left[1..], rest, out + ElementBytes(left[0]), gap);
      Associate(out, ElementBytes(left[0]), Bytes(left[1..]));
    }
  }

  lemma ScanGap(rest: string, out: seq<Byte>)
    ensures Scan(":" + rest, out, None, "") == Scan(rest, out, Some(|out|), "")
  {
    assert (":" + rest)[1..] == rest;
  }

  lemma StartsWithDigit(e: string)
    requires IsGroup(e) || IsQuad(e)
    ensures e != "" && IsXdigit(e[0])
  {
    if IsQuad(e) {
      var first, rest := QuadSplit(e);
    }
  }

  lemma JoinStart(es: seq<string>)
    requires AreElements(es) && es != []
    ensures Join(es) != "" && IsXdigit(Join(es)[0])
  {
    BytesFirst(es);
    StartsWithDigit(es[0]);
    JoinFirst(es);
  }

  lemma Complete(text: string, left: seq<string>, right: Option<seq<string>>, r: seq<Byte>)
    requires Denotes(text, left, right, r)
    ensures Parse(text) == Some(r)
  {
    hide Scan, IsGroup, IsQuad, IsHexText, ElementBytes, Bytes, AreElements, Join;
    if right.None? {
      ScanNothing([], None);
      JoinStart(left);
      ScanElements(left, [], None);
      assert [] + Bytes(left) == r;
    } else {
      var groups := right.value;
      GroupBytes(left);
      if left == [] {
        ScanNothing([], None);
        assert text == "::" + Join(groups) && text[1..] == ":" + Join(groups);
        ScanGap(Join(groups), []);
        ScanElements(groups, [], Some(0));
        assert [] + Bytes(groups) == Bytes(groups);
        assert r == Zeros(ADDRESS - |Bytes(groups)|) + Bytes(groups);
      } else {
        JoinStart(left);
        LeadJoin(left);
        assert text == Lead(left) + (":" + Join(groups));
        ScanLead(left, ":" + Join(groups), [], None);
        assert [] + Bytes(left) == Bytes(left);
        ScanGap(Join(groups), Bytes(left));
        ScanElements(groups, Bytes(left), Some(|Bytes(left)|));
        assert (Bytes(left) + Bytes(groups))[..|Bytes(left)|] == Bytes(left);
        assert (Bytes(left) + Bytes(groups))[|Bytes(left)|..] == Bytes(groups);
      }
    }
  }

  // Every accepted text is of the grammar

  /** The elements still to come, including the group being read. */
  predicate Continues(text: string, out: seq<Byte>, gap: Option<nat>, left: seq<string>, right: Option<seq<string>>,
                      r: seq<Byte>)
    requires gap.Some? ==> gap.value <= |out|
  {
    if right.None? then
      AreElements(left) && text == Join(left) && Expand(out + Bytes(left), gap) == Some(r)
    else
      && gap.None? && AreGroups(left) && AreElements(left) && AreElements(right.value)
      && text == Lead(left) + ":" + Join(right.value)
      && Expand(out + Bytes(left) + Bytes(right.value), Some(|out| + |Bytes(left)|)) == Some(r)
  }

  lemma OneElement(e: string, out: seq<Byte>, gap: Option<nat>, r: seq<Byte>)
    requires gap.Some? ==> gap.value <= |out|
    requires (IsGroup(e) || IsQuad(e)) && Expand(out + ElementBytes(e), gap) == Some(r)
    ensures Continues(e, out, gap, [e], None, r)
  {
    BytesFirst([e]);
  }

  lemma OneMoreGroup(e: string, text: string, out: seq<Byte>, gap: Option<nat>, left: seq<string>,
                     right: Option<seq<string>>, r: seq<Byte>)
    requires gap.Some? ==> gap.value <= |out|
    requires IsGroup(e) && text != "" && Continues(text, out + TokenBytes(e), gap, left, right, r)
    ensures Continues(e + (":" + text), out, gap, [e] + left, right, r)
  {
    var all := [e] + left;
    assert all[1..] == left;
    OneMoreElement(e, left, right.Some?);
    hide IsGroup, Expand, IsQuad, IsHexText, TokenBytes, AreElements, AreGroups, Join, Lead, Bytes, ElementBytes;
    BytesFirst(all);
    assert out + TokenBytes(e) + Bytes(left) == out + Bytes(all);
    if right.None? {
      NoBytes();
      JoinFirst(all);
    } else {
      LeadFirst(e, left);
      Regroup(e, Lead(left), Join(right.value));
      assert |out + TokenBytes(e)| + |Bytes(left)| == |out| + |Bytes(all)|;
    }
  }

  lemma Regroup(e: string, a: string, b: string)
    ensures e + (":" + (a + ":" + b)) == e + (":" + a) + ":" + b
  {
  }

  lemma OneMoreElement(e: string, left: seq<string>, groups: bool)
    requires IsGroup(e) && AreElements(left) && (groups ==> AreGroups(left))
    ensures AreElements([e] + left) && (groups ==> AreGroups([e] + left))
  {
    hide IsGroup, IsQuad;
    var all := [e] + left;
    if left != [] {
      assert all[..|all| - 1] == [e] + left[..|left| - 1] && all[|all| - 1] == left[|left| - 1];
    }
  }

  lemma LeadFirst(e: string, left: seq<string>)
    ensures Lead([e] + left) == e + (":" + Lead(left))
  {
    assert ([e] + left)[1..] == left;
  }

  lemma NoBytes()
    ensures AreElements([]) && Bytes([]) == [] && Join([]) == "" && Lead([]) == ""
  {
  }

  lemma {:induction false} ScanSound(rest: string, out: seq<Byte>, gap: Option<nat>, tok: string)
    returns (left: seq<string>, right: Option<seq<string>>)
    requires gap.Some? ==> gap.value <= |out|
    requires IsHexText(tok) && |tok| <= 4 && Scan(rest, out, gap, tok).Some?
    ensures Continues(tok + rest, out, gap, left, right, Scan(rest, out, gap, tok).value)
    decreases |rest|
  {
    hide Continues, Expand, ParseQuad, TokenBytes, HexValue, Bytes, AreElements, Join, Lead;
    right := None;
    if rest == "" {
      assert tok + rest == tok;
      left := if tok == "" then [] else [tok];
      EndSound(out, gap, tok, Scan(rest, out, gap, tok).value);
      return;
    }
    var c, text := rest[0], rest[1..];
    assert rest == [c] + text;
    if IsXdigit(c) {
      left, right := ScanSound(text, out, gap, tok + [c]);
      assert tok + [c] + text == tok + rest;
    } else if c == ':' && tok == "" {
      left, right := ScanSound(text, out, Some(|out|), "");
      assert "" + text == text;
      GapSound(text, out, left, right, Scan(text, out, Some(|out|), "").value);
      assert tok + rest == ":" + text;
      left, right := [], Some(left);
    } else if c == ':' {
      left, right := ScanSound(text, out + TokenBytes(tok), gap, "");
      assert "" + text == text && tok + rest == tok + (":" + text);
      OneMoreGroup(tok, text, out, gap, left, right, Scan(rest, out, gap, tok).value);
      left := [tok] + left;
    } else {
      left := [tok + rest];
      QuadIsLast(tok + rest, out, gap, Scan(rest, out, gap, tok).value);
    }
  }

  lemma EndSound(out: seq<Byte>, gap: Option<nat>, tok: string, r: seq<Byte>)
    requires gap.Some? ==> gap.value <= |out|
    requires IsHexText(tok) && |tok| <= 4 && Finish(out, gap, tok) == Some(r)
    ensures Continues(tok, out, gap, if tok == "" then [] else [tok], None, r)
  {
    if tok == "" {
      NoBytes();
      assert out + [] == out;
    } else {
      OneElement(tok, out, gap, r);
    }
  }

  lemma GapSound(text: string, out: seq<Byte>, left: seq<string>, right: Option<seq<string>>, r: seq<Byte>)
    requires Continues(text, out, Some(|out|), left, right, r)
    ensures Continues(":" + text, out, None, [], Some(left), r)
  {
    assert out + Bytes([]) == out;
    assert Lead([]) + ":" + Join(left) == ":" + text;
  }

  /** A dotted tail is the last element. */
  lemma QuadIsLast(e: string, out: seq<Byte>, gap: Option<nat>, r: seq<Byte>)
    requires gap.Some? ==> gap.value <= |out|
    requires IsQuad(e) && Expand(out + ParseQuad(e).value, gap) == Some(r)
    ensures Continues(e, out, gap, [e], None, r)
  {
    var first, rest := QuadSplit(e);
    assert e[|first|] == '.';
    OneElement(e, out, gap, r);
  }

  lemma Sound(text: string) returns (left: seq<string>, right: Option<seq<string>>)
    requires Parse(text).Some?
    ensures Denotes(text, left, right, Parse(text).value)
  {
    hide Scan, Continues, Denotes;
    var r := Parse(text).value;
    var rest := if text[0] == ':' then text[1..] else text;
    left, right := ScanSound(rest, [], None, "");
    assert "" + rest == rest;
    if right.None? {
      SoundWithoutGap(rest, left, r);
    } else {
      LeadBeforeGap(left, right.value, rest, r);
      assert text[0] == ':' ==> text == ":" + rest;
    }
  }

  lemma SoundWithoutGap(text: string, left: seq<string>, r: seq<Byte>)
    requires Continues(text, [], None, left, None, r)
    ensures Denotes(text, left, None, r) && text != "" && text[0] != ':'
  {
    hide IsGroup, IsQuad, IsHexText, ElementBytes, Bytes, AreElements, Join;
    NoBytes();
    assert [] + Bytes(left) == Bytes(left);
    JoinStart(left);
  }

  /** The bytes around a gap, and the first character of the text before it. */
  lemma LeadBeforeGap(left: seq<string>, right: seq<string>, rest: string, r: seq<Byte>)
    requires Continues(rest, [], None, left, Some(right), r)
    ensures rest != "" && (left == [] <==> rest[0] == ':')
    ensures Denotes(if left == [] then ":" + rest else rest, left, Some(right), r)
  {
    hide IsGroup, IsQuad, IsHexText, ElementBytes, Bytes, AreElements, Join;
    var all := Bytes(left) + Bytes(right);
    assert [] + Bytes(left) + Bytes(right) == all;
    assert all[..|Bytes(left)|] == Bytes(left) && all[|Bytes(left)|..] == Bytes(right);
    NoBytes();
    if left != [] {
      BytesFirst(left);
      StartsWithDigit(left[0]);
      LeadJoin(left);
    }
  }

  /** The parser accepts exactly the texts of the grammar, with the bytes they stand for. */
  lemma ParseExact(text: string, r: seq<Byte>)
    ensures Parse(text) == Some(r) <==> exists left, right :: Denotes(text, left, right, r)
  {
    if Parse(text) == Some(r) {
      var left, right := Sound(text);
    }
    if left, right :| Denotes(text, left, right, r) {
      Complete(text, left, right, r);
    }
  }
}
