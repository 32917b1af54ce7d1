/**
 The texts the parser takes, as trees of their concrete syntax: every way of writing white space, escapes,
 numbers and nesting.  Behind the digits of a fraction or an exponent stands one character more.
 */
module JsonGrammar {
  import opened Wrappers
  import opened Ascii
  import opened Numerals
  import opened JsonSyntax

  datatype Piece = Plain(c: char) | Escaped(c: char) | Unicode(digits: string)

  datatype Power = Power(mark: char, sign: string, digits: string, after: char)

  datatype Tail = Whole | Fraction(digits: string, after: char, exponent: Option<Power>) | Scientific(power: Power)

  datatype Numeral = Numeral(minus: bool, digits: string, tail: Tail)

  datatype Doc = Doc(lead: string, body: Body, trail: string)

  datatype Body =
    | NullBody
    | BoolBody(truth: bool)
    | NumberBody(numeral: Numeral)
    | StringBody(pieces: seq<Piece>)
    | ListBody(items: seq<Doc>, inner: string)
    | RecordBody(members: seq<Member>, inner: string)

  datatype Member = Member(lead: string, key: seq<Piece>, trail: string, value: Doc)

  predicate Blank(s: string) {
    forall k :: 0 <= k < |s| ==> IsSpace(s[k])
  }

  predicate PieceOk(p: Piece) {
    match p
    case Plain(c) => c > 0x1f as char && c != '"' && c != '\\'
    case Escaped(c) => IsEscape(c)
    case Unicode(digits) => IsXdigits(digits)
  }

  predicate PiecesOk(ps: seq<Piece>) {
    forall k :: 0 <= k < |ps| ==> PieceOk(ps[k])
  }

  predicate Digits(s: string) {
    s != "" && forall k :: 0 <= k < |s| ==> IsDigit(s[k])
  }

  predicate PowerOk(p: Power) {
    && (p.mark == 'e' || p.mark == 'E')
    && (p.sign == "" || p.sign == "+" || p.sign == "-")
    && Digits(p.digits) && !IsDigit(p.after)
  }

  predicate TailOk(t: Tail) {
    match t
    case Whole => true
    case Fraction(digits, after, exponent) =>
      Digits(digits) && !IsDigit(after) && (exponent.Some? ==> PowerOk(exponent.value))
    case Scientific(power) => PowerOk(power)
  }

  predicate NumeralOk(n: Numeral) {
    Digits(n.digits) && (n.digits[0] == '0' ==> |n.digits| == 1) && TailOk(n.tail)
  }

  predicate DocOk(d: Doc)
    decreases d
  {
    Blank(d.lead) && Blank(d.trail) && BodyOk(d.body)
  }

  predicate BodyOk(b: Body)
    decreases b
  {
    match b
    case NullBody => true
    case BoolBody(_) => true
    case NumberBody(numeral) => NumeralOk(numeral)
    case StringBody(pieces) => PiecesOk(pieces)
    case ListBody(items, inner) => Blank(inner) && ItemsOk(items)
    case RecordBody(members, inner) => Blank(inner) && MembersOk(members)
  }

  predicate ItemsOk(items: seq<Doc>)
    decreases items
  {
    items == [] || (DocOk(items[0]) && ItemsOk(items[1..]))
  }

  predicate MembersOk(members: seq<Member>)
    decreases members
  {
    members == [] || (MemberOk(members[0]) && MembersOk(members[1..]))
  }

  predicate MemberOk(m: Member)
    decreases m
  {
    Blank(m.lead) && Blank(m.trail) && PiecesOk(m.key) && DocOk(m.value)
  }

  // The text of a document

  function PrintPiece(p: Piece): string {
    match p
    case Plain(c) => [c]
    case Escaped(c) => ['\\', c]
    case Unicode(digits) => "\\u" + digits
  }

  function PrintPieces(ps: seq<Piece>): string {
    if ps == [] then "" else PrintPiece(ps[0]) + PrintPieces(ps[1..])
  }

  function Quoted(ps: seq<Piece>): string {
    "\"" + PrintPieces(ps) + "\""
  }

  function PrintPower(p: Power): string {
    [p.mark] + p.sign + p.digits + [p.after]
  }

  function PrintTail(t: Tail): string {
    match t
    case Whole => ""
    case Fraction(digits, after, exponent) =>
      "." + digits + [after] + if exponent.Some? then PrintPower(exponent.value) else ""
    case Scientific(power) => PrintPower(power)
  }

  function Signed(n: Numeral): string {
    (if n.minus then "-" else "") + n.digits
  }

  function PrintNumeral(n: Numeral): string {
    Signed(n) + PrintTail(n.tail)
  }

  function Print(d: Doc): string
    decreases d
  {
    d.lead + PrintBody(d.body) + d.trail
  }

  function PrintBody(b: Body): string
    decreases b
  {
    match b
    case NullBody => "null"
    case BoolBody(truth) => if truth then "true" else "false"
    case NumberBody(numeral) => PrintNumeral(numeral)
    case StringBody(pieces) => Quoted(pieces)
    case ListBody(items, inner) => "[" + (if items == [] then inner else PrintItems(items)) + "]"
    case RecordBody(members, inner) => "{" + (if members == [] then inner else PrintMembers(members)) + "}"
  }

  function PrintItems(items: seq<Doc>): string
    decreases items
  {
    if items == [] then ""
    else if |items| == 1 then Print(items[0])
    else Print(items[0]) + "," + PrintItems(items[1..])
  }

  function PrintMembers(members: seq<Member>): string
    decreases members
  {
    if members == [] then ""
    else if |members| == 1 then PrintMember(members[0])
    else PrintMember(members[0]) + "," + PrintMembers(members[1..])
  }

  function PrintMember(m: Member): string
    decreases m
  {
    m.lead + Quoted(m.key) + m.trail + ":" + Print(m.value)
  }

  // What a document means

  /** The bytes of a string; a lead surrogate directly before a trail surrogate makes one code point. */
  function Decoded(ps: seq<Piece>): string
    requires PiecesOk(ps)
  {
    if ps == [] then ""
    else
      match ps[0]
      case Plain(c) => [c] + Decoded(ps[1..])
      case Escaped(c) => [Unescape(c)] + Decoded(ps[1..])
      case Unicode(digits) =>
        if |ps| > 1 && ps[1].Unicode? && IsLead(CodePoint(digits)) && IsTrail(CodePoint(ps[1].digits)) then
          Utf8(Combine(CodePoint(digits), CodePoint(ps[1].digits))) + Decoded(ps[2..])
        else Utf8(CodePoint(digits)) + Decoded(ps[1..])
  }

  /** Up to nine characters without fraction and exponent make an integer, and its sign is lost with its digits.
      The exponent of a fraction is never read: the character before it hides it. */
  function NumeralMeaning(n: Numeral): Json {
    match n.tail
    case Whole => if |Signed(n)| <= 9 then Int(if n.minus then 0 else BaseValue(10, n.digits)) else Double(Signed(n))
    case Fraction(digits, _, _) => Double(Signed(n) + "." + digits)
    case Scientific(power) => Double(Signed(n) + [power.mark] + power.sign + power.digits)
  }

  function Meaning(d: Doc): Json
    requires DocOk(d)
    decreases d
  {
    MeaningOf(d.body)
  }

  function MeaningOf(b: Body): Json
    requires BodyOk(b)
    decreases b
  {
    match b
    case NullBody => Null
    case BoolBody(truth) => Bool(truth)
    case NumberBody(numeral) => NumeralMeaning(numeral)
    case StringBody(pieces) => Str(Decoded(pieces))
    case ListBody(items, _) => Arr(MeaningOfItems(items))
    case RecordBody(members, _) => Obj(MeaningOfMembers(members, map[]))
  }

  function MeaningOfItems(items: seq<Doc>): (js: seq<Json>)
    requires ItemsOk(items)
    ensures |js| == |items|
    decreases items
  {
    if items == [] then [] else [Meaning(items[0])] + MeaningOfItems(items[1..])
  }

  /** Members are added in order, so of two with the same key the later one stays. */
  function MeaningOfMembers(members: seq<Member>, acc: map<string, Json>): map<string, Json>
    requires MembersOk(members)
    decreases members
  {
    if members == [] then acc
    else
      assert MemberOk(members[0]);
      MeaningOfMembers(members[1..], acc[Decoded(members[0].key) := Meaning(members[0].value)])
  }

  /** The nesting below a document fits a budget of levels. */
  predicate Fits(d: Doc, levels: int)
    decreases d
  {
    levels >= 0 && BodyFits(d.body, levels)
  }

  predicate BodyFits(b: Body, levels: int)
    decreases b
  {
    match b
    case ListBody(items, _) => ItemsFit(items, levels - 1)
    case RecordBody(members, _) => MembersFit(members, levels - 1)
    case _ => true
  }

  predicate ItemsFit(items: seq<Doc>, levels: int)
    decreases items
  {
    items == [] || (Fits(items[0], levels) && ItemsFit(items[1..], levels))
  }

  predicate MembersFit(members: seq<Member>, levels: int)
    decreases members
  {
    members == [] || (MemberFits(members[0], levels) && MembersFit(members[1..], levels))
  }

  predicate MemberFits(m: Member, levels: int)
    decreases m
  {
    Fits(m.value, levels)
  }

  /** The escapes of one letter, as section 7 of RFC 8259 lists them. */
  lemma EscapesListed(c: char)
    ensures IsEscape(c) <==> c in "\"\\/bfnrt"
    ensures Unescape('b') == '\U{8}' && Unescape('f') == '\U{c}' && Unescape('n') == '\U{a}'
    ensures Unescape('r') == '\U{d}' && Unescape('t') == '\U{9}'
    ensures Unescape('"') == '"' && Unescape('\\') == '\\' && Unescape('/') == '/'
  {
    assert "\"\\/bfnrt" == ['"', '\\', '/', 'b', 'f', 'n', 'r', 't'];
  }

  // White space and strings

  lemma {:induction false} TrimBlank(s: string, rest: string)
    requires Blank(s)
    ensures Trim(s + rest) == Trim(rest)
  {
    if s == "" {
      assert s + rest == rest;
    } else {
      assert (s + rest)[1..] == s[1..] + rest;
      TrimBlank(s[1..], rest);
    }
  }

  lemma TokenAfter(s: string, c: char, rest: string)
    requires Blank(s) && !IsSpace(c)
    ensures Trim(s + ([c] + rest)) == [c] + rest && Token(s + ([c] + rest)) == Done(c, rest)
  {
    TrimBlank(s, [c] + rest);
    assert ([c] + rest)[1..] == rest;
  }

  /** The bytes that come of a code point already read and the pieces behind it. */
  function DecodedAfter(last: int, ps: seq<Piece>): string
    requires -1 <= last < 0x10000 && PiecesOk(ps)
  {
    if ps != [] && ps[0].Unicode? && IsLead(last) && IsTrail(CodePoint(ps[0].digits)) then
      Utf8(Combine(last, CodePoint(ps[0].digits))) + Decoded(ps[1..])
    else Utf8(last) + Decoded(ps)
  }

  /** Reading a printed string gives its bytes, whatever is escaped. */
  lemma {:induction false} ReadPieces(ps: seq<Piece>, rest: string, out: string, last: int)
    requires PiecesOk(ps) && -1 <= last < 0x10000
    ensures JsonSyntax.StringBody(PrintPieces(ps) + ("\"" + rest), out, last)
         == Done(out + DecodedAfter(last, ps), rest)
    decreases |ps|
  {
    hide Utf8, CodePoint, IsXdigits, Unescape, IsEscape, IsLead, IsTrail, Combine, Decoded, DecodedAfter;
    var text := PrintPieces(ps) + ("\"" + rest);
    if ps == [] {
      assert text == "\"" + rest && text[1..] == rest;
      NothingDecoded(last);
    } else {
      var next := PrintPieces(ps[1..]) + ("\"" + rest);
      assert text == PrintPiece(ps[0]) + next;
      ReadPiece(ps[0], next, out, last);
      match ps[0] {
        case Plain(c) =>
          ReadPieces(ps[1..], rest, out + Utf8(last) + [c], -1);
          Regroup(out, Utf8(last), [c], Decoded(ps[1..]));
        case Escaped(c) =>
          ReadPieces(ps[1..], rest, out + Utf8(last) + [Unescape(c)], -1);
          Regroup(out, Utf8(last), [Unescape(c)], Decoded(ps[1..]));
        case Unicode(digits) =>
          var cp := CodePoint(digits);
          if IsLead(last) && IsTrail(cp) {
            ReadPieces(ps[1..], rest, out + Utf8(Combine(last, cp)), -1);
            Regroup(out, "", Utf8(Combine(last, cp)), Decoded(ps[1..]));
          } else {
            ReadPieces(ps[1..], rest, out + Utf8(last), cp);
            Regroup(out, Utf8(last), "", Decoded(ps));
          }
      }
      DecodedStep(ps, last);
    }
  }

  lemma NothingDecoded(last: int)
    requires -1 <= last < 0x10000
    ensures DecodedAfter(last, []) == Utf8(last)
  {
  }

  lemma Regroup(a: string, b: string, c: string, d: string)
    ensures a + b + c + d == a + (b + (c + d)) && "" + d == d && "" + (c + d) == c + d && a + "" == a
    ensures a + b + d == a + (b + d) && a + c + d == a + (c + d)
  {
  }

  lemma DecodedStep(ps: seq<Piece>, last: int)
    requires PiecesOk(ps) && -1 <= last < 0x10000 && ps != []
    ensures DecodedAfter(-1, ps[1..]) == Decoded(ps[1..])
    ensures ps[0].Plain? ==> DecodedAfter(last, ps) == Utf8(last) + ([ps[0].c] + Decoded(ps[1..]))
    ensures ps[0].Escaped? ==> DecodedAfter(last, ps) == Utf8(last) + ([Unescape(ps[0].c)] + Decoded(ps[1..]))
    ensures ps[0].Unicode? ==>
              var cp := CodePoint(ps[0].digits);
              && (IsLead(last) && IsTrail(cp) ==> DecodedAfter(last, ps) == Utf8(Combine(last, cp)) + Decoded(ps[1..]))
              && (!(IsLead(last) && IsTrail(cp)) ==> DecodedAfter(last, ps) == Utf8(last) + DecodedAfter(cp, ps[1..]))
              && DecodedAfter(cp, ps[1..]) == Decoded(ps)
  {
    hide CodePoint, IsXdigits, Combine, IsTrail, Unescape;
    assert |ps| > 1 ==> ps[1..][0] == ps[1] && ps[1..][1..] == ps[2..];
    assert Utf8(-1) == "";
    assert "" + Decoded(ps[1..]) == Decoded(ps[1..]);
  }

  /** The string still to be read once a piece has been. */
  function AfterPiece(p: Piece, next: string, out: string, last: int): Parsed<string>
    requires PieceOk(p) && -1 <= last < 0x10000
  {
    match p
    case Plain(c) => JsonSyntax.StringBody(next, out + Utf8(last) + [c], -1)
    case Escaped(c) => JsonSyntax.StringBody(next, out + Utf8(last) + [Unescape(c)], -1)
    case Unicode(digits) =>
      if IsLead(last) && IsTrail(CodePoint(digits)) then
        JsonSyntax.StringBody(next, out + Utf8(Combine(last, CodePoint(digits))), -1)
      else JsonSyntax.StringBody(next, out + Utf8(last), CodePoint(digits))
  }

  lemma ReadPiece(p: Piece, next: string, out: string, last: int)
    requires PieceOk(p) && -1 <= last < 0x10000
    ensures JsonSyntax.StringBody(PrintPiece(p) + next, out, last) == AfterPiece(p, next, out, last)
  {
    hide Utf8, CodePoint, Unescape, IsLead, IsTrail, Combine;
    var text := PrintPiece(p) + next;
    match p {
      case Plain(c) =>
        assert text[1..] == next;
      case Escaped(c) =>
        assert text[1..][1..] == next && c != 'u';
      case Unicode(digits) =>
        assert text[1..] == ['u'] + digits + next;
        assert text[1..][1..5] == digits && text[1..][5..] == next;
    }
  }
}
