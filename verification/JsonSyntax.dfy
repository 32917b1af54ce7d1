/** What the JSON parser computes, as functions of the text that is still unread. */
module JsonSyntax {
  import opened Wrappers
  import opened Ascii

  const MAX_DEPTH: nat := 20

  // A number that does not fit the integer path is what strtod makes of its numeral.
  datatype Json =
    | Null
    | Bool(truth: bool)
    | Int(n: nat)
    | Double(numeral: string)
    | Str(s: string)
    | Arr(items: seq<Json>)
    | Obj(entries: map<string, Json>)

  // The last one stands for reading behind the terminating NUL, which has no defined result.
  datatype Error =
    | UnexpectedEnd | UnexpectedEndInString | Unescaped(c: char) | BadUnicode | InvalidEscape(c: char)
    | LeadingZero | InvalidNumber(c: char) | DigitRequired | Expected(word: string) | TooDeep
    | ExpectedKey(c: char) | ExpectedColon(c: char) | ExpectedComma(c: char) | ExpectedValue(c: char)
    | Trailing(c: char) | PastEnd

  datatype Parsed<+T> = Done(value: T, rest: string) | Fail(error: Error)

  const NUL: char := 0 as char

  /** The character at the front; a string ends in NUL. */
  function Front(rest: string): char {
    if rest == "" then NUL else rest[0]
  }

  predicate IsSpace(c: char) {
    c == ' ' || c == '\r' || c == '\n' || c == '\t'
  }

  function Trim(rest: string): (r: string)
    ensures |r| <= |rest| && !IsSpace(Front(r))
  {
    if rest != "" && IsSpace(rest[0]) then Trim(rest[1..]) else rest
  }

  function Token(rest: string): (r: Parsed<char>)
    ensures r.Done? ==> |r.rest| < |rest|
  {
    var t := Trim(rest);
    if t == "" then Fail(UnexpectedEnd) else Done(t[0], t[1..])
  }

  // Strings

  function Chars(codes: seq<nat>): (s: string)
    requires forall k :: 0 <= k < |codes| ==> codes[k] < 256
    ensures |s| == |codes|
  {
    seq(|codes|, k requires 0 <= k < |codes| => codes[k] as char)
  }

  /** The UTF-8 bytes of a code point; -1 stands for none. */
  function Utf8(pt: int): string
    requires -1 <= pt <= 0x10FFFF
  {
    if pt < 0 then ""
    else if pt < 0x80 then Chars([pt])
    else if pt < 0x800 then Chars([pt / 64 + 0xC0, pt % 64 + 0x80])
    else if pt < 0x10000 then Chars([pt / 4096 + 0xE0, pt / 64 % 64 + 0x80, pt % 64 + 0x80])
    else Chars([pt / 262144 + 0xF0, pt / 4096 % 64 + 0x80, pt / 64 % 64 + 0x80, pt % 64 + 0x80])
  }

  predicate IsContinuation(c: char) {
    0x80 <= c as int < 0xC0
  }

  predicate IsSurrogate(pt: int) { IsLead(pt) || IsTrail(pt) }

  /** The code point of a UTF-8 sequence (section 3 of RFC 3629): shortest form only, no surrogates, nothing
      behind it. */
  function DecodeUtf8(s: string): Option<nat> {
    if |s| == 1 && s[0] as int < 0x80 then Some(s[0] as int)
    else if |s| == 2 && 0xC2 <= s[0] as int < 0xE0 && IsContinuation(s[1]) then
      Some((s[0] as int - 0xC0) * 64 + (s[1] as int - 0x80))
    else if |s| == 3 && 0xE0 <= s[0] as int < 0xF0 && IsContinuation(s[1]) && IsContinuation(s[2]) then
      var pt := (s[0] as int - 0xE0) * 4096 + (s[1] as int - 0x80) * 64 + (s[2] as int - 0x80);
      if pt >= 0x800 && !IsSurrogate(pt) then Some(pt) else None
    else if |s| == 4 && 0xF0 <= s[0] as int < 0xF5
            && IsContinuation(s[1]) && IsContinuation(s[2]) && IsContinuation(s[3]) then
      var pt := (s[0] as int - 0xF0) * 262144 + (s[1] as int - 0x80) * 4096 + (s[2] as int - 0x80) * 64
                + (s[3] as int - 0x80);
      if 0x10000 <= pt <= 0x10FFFF then Some(pt) else None
    else None
  }

  /** The encoding of a code point decodes to it, except that a surrogate has an encoding here and none in the
      standard. */
  lemma Utf8Decodes(pt: nat)
    requires pt <= 0x10FFFF
    ensures DecodeUtf8(Utf8(pt)) == if IsSurrogate(pt) then None else Some(pt)
  {
    if 0x800 <= pt < 0x10000 {
      ThreeBytes(pt);
    } else if 0x10000 <= pt {
      FourBytes(pt);
    }
  }

  lemma ThreeBytes(pt: nat)
    requires 0x800 <= pt < 0x10000
    ensures DecodeUtf8(Utf8(pt)) == if IsSurrogate(pt) then None else Some(pt)
  {
    SixBits(pt);
    var s := Chars([pt / 4096 + 0xE0, pt / 64 % 64 + 0x80, pt % 64 + 0x80]);
    assert Utf8(pt) == s;
    assert s[0] as int == pt / 4096 + 0xE0 && s[1] as int == pt / 64 % 64 + 0x80 && s[2] as int == pt % 64 + 0x80;
    hide Chars, Utf8;
  }

  lemma FourBytes(pt: nat)
    requires 0x10000 <= pt <= 0x10FFFF
    ensures DecodeUtf8(Utf8(pt)) == Some(pt)
  {
    SixBits(pt);
    var s := Chars([pt / 262144 + 0xF0, pt / 4096 % 64 + 0x80, pt / 64 % 64 + 0x80, pt % 64 + 0x80]);
    assert Utf8(pt) == s;
    assert s[0] as int == pt / 262144 + 0xF0 && s[1] as int == pt / 4096 % 64 + 0x80;
    assert s[2] as int == pt / 64 % 64 + 0x80 && s[3] as int == pt % 64 + 0x80;
    hide Chars, Utf8;
  }

  lemma SixBits(pt: nat)
    ensures pt == pt / 4096 * 4096 + pt / 64 % 64 * 64 + pt % 64
    ensures pt == pt / 262144 * 262144 + pt / 4096 % 64 * 4096 + pt / 64 % 64 * 64 + pt % 64
  {
    var a := pt / 64;
    var b := a / 64;
    var c := b / 64;
    assert b == pt / 4096 && c == pt / 262144;
    assert pt == a * 64 + pt % 64 && a == b * 64 + a % 64 && b == c * 64 + b % 64;
  }

  predicate IsXdigits(t: string) {
    |t| == 4 && forall k :: 0 <= k < 4 ==> IsXdigit(t[k])
  }

  function CodePoint(t: string): (cp: nat)
    requires IsXdigits(t)
    ensures cp < 0x10000
  {
    ((XdigitValue(t[0]) * 16 + XdigitValue(t[1])) * 16 + XdigitValue(t[2])) * 16 + XdigitValue(t[3])
  }

  predicate IsLead(cp: int) { 0xD800 <= cp <= 0xDBFF }

  predicate IsTrail(cp: int) { 0xDC00 <= cp <= 0xDFFF }

  function Combine(lead: int, trail: int): (cp: nat)
    requires IsLead(lead) && IsTrail(trail)
    ensures 0x10000 <= cp <= 0x10FFFF
  {
    (lead - 0xD800) * 1024 + (trail - 0xDC00) + 0x10000
  }

  predicate IsEscape(c: char) {
    c == 'b' || c == 'f' || c == 'n' || c == 'r' || c == 't' || c == '"' || c == '\\' || c == '/'
  }

  function Unescape(c: char): char
    requires IsEscape(c)
  {
    if c == 'b' then 8 as char
    else if c == 'f' then 12 as char
    else if c == 'n' then '\n'
    else if c == 'r' then '\r'
    else if c == 't' then '\t'
    else c
  }

  /** The body of a string after its opening quote; `last` is a code point read but not yet written, or -1. */
  function StringBody(rest: string, out: string, last: int): (r: Parsed<string>)
    requires -1 <= last < 0x10000
    ensures r.Done? ==> |r.rest| < |rest|
    decreases |rest|
  {
    if rest == "" then Fail(UnexpectedEndInString)
    else
      var ch, next := rest[0], rest[1..];
      if ch == '"' then Done(out + Utf8(last), next)
      else if ch <= 0x1f as char then Fail(Unescaped(ch))
      else if ch != '\\' then StringBody(next, out + Utf8(last) + [ch], -1)
      else if next == "" then Fail(UnexpectedEndInString)
      else if next[0] == 'u' then
        if |next| < 5 || !IsXdigits(next[1..5]) then Fail(BadUnicode)
        else
          var cp := CodePoint(next[1..5]);
          if IsLead(last) && IsTrail(cp) then StringBody(next[5..], out + Utf8(Combine(last, cp)), -1)
          else StringBody(next[5..], out + Utf8(last), cp)
      else if IsEscape(next[0]) then StringBody(next[1..], out + Utf8(last) + [Unescape(next[0])], -1)
      else Fail(InvalidEscape(next[0]))
  }

  // Numbers

  function SkipDigits(rest: string): (r: string)
    ensures |r| <= |rest| && !IsDigit(Front(r))
    ensures rest != "" && IsDigit(rest[0]) ==> |r| < |rest|
  {
    if rest != "" && IsDigit(rest[0]) then SkipDigits(rest[1..]) else rest
  }

  /** The number at the front of a text that starts with digits, zero if none does. */
  function AtoiLike(rest: string, acc: nat): nat {
    if rest == "" || !IsDigit(rest[0]) then acc else AtoiLike(rest[1..], acc * 10 + HexDecode(rest[0]))
  }

  /** Digits and the character behind them, which is consumed as well. */
  function SkipPastDigits(rest: string): (r: Parsed<()>)
    ensures r.Done? ==> |r.rest| < |rest|
  {
    if !IsDigit(Front(rest)) then Fail(DigitRequired)
    else if SkipDigits(rest) == "" then Fail(PastEnd)
    else Done((), SkipDigits(rest)[1..])
  }

  /** What strtod leaves of a text that starts with a sign or digit (section 7.22.1.3 of C11): the exponent is
      read only when it has a digit. */
  function FloatEnd(s: string): (r: string)
    ensures |r| <= |s|
  {
    var point := SkipDigits(if Front(s) == '-' then s[1..] else s);
    var mark := if Front(point) == '.' then SkipDigits(point[1..]) else point;
    if Front(mark) != 'e' && Front(mark) != 'E' then mark
    else
      var sign := mark[1..];
      var power := if Front(sign) == '+' || Front(sign) == '-' then sign[1..] else sign;
      if IsDigit(Front(power)) then SkipDigits(power) else mark
  }

  /** The numeral strtod reads. */
  function FloatText(s: string): string {
    s[..|s| - |FloatEnd(s)|]
  }

  function Exponent(rest: string, numeral: string): (r: Parsed<Json>)
    ensures r.Done? ==> |r.rest| <= |rest|
  {
    if Front(rest) == 'e' || Front(rest) == 'E' then
      var sign := rest[1..];
      match SkipPastDigits(if Front(sign) == '+' || Front(sign) == '-' then sign[1..] else sign)
      case Fail(e) => Fail(e)
      case Done(_, next) => Done(Double(numeral), next)
    else Done(Double(numeral), rest)
  }

  /** At most nine characters without fraction or exponent make an integer. */
  function NumberEnd(rest: string, text: string): (r: Parsed<Json>)
    ensures r.Done? ==> |r.rest| <= |rest|
  {
    var c := Front(rest);
    if c != '.' && c != 'e' && c != 'E' && |text| - |rest| <= 9 then Done(Int(AtoiLike(text, 0)), rest)
    else if c == '.' then
      match SkipPastDigits(rest[1..])
      case Fail(e) => Fail(e)
      case Done(_, next) => Exponent(next, FloatText(text))
    else Exponent(rest, FloatText(text))
  }

  function Number(text: string): (r: Parsed<Json>)
    ensures r.Done? ==> |r.rest| < |text|
  {
    var digits := if Front(text) == '-' then text[1..] else text;
    if Front(digits) == '0' then
      if IsDigit(Front(digits[1..])) then Fail(LeadingZero) else NumberEnd(digits[1..], text)
    else if IsDigit(Front(digits)) then NumberEnd(SkipDigits(digits), text)
    else Fail(InvalidNumber(Front(digits)))
  }

  // Values

  function Expect(rest: string, word: string, value: Json): (r: Parsed<Json>)
    requires word != ""
    ensures r.Done? ==> |r.rest| < |rest|
  {
    if word <= rest then Done(value, rest[|word|..]) else Fail(Expected(word))
  }

  function Value(rest: string, depth: nat): (r: Parsed<Json>)
    ensures r.Done? ==> |r.rest| < |rest|
    decreases |rest|, 1
  {
    if depth > MAX_DEPTH then Fail(TooDeep)
    else
      match Token(rest)
      case Fail(e) => Fail(e)
      case Done(ch, next) =>
        if ch == '-' || IsDigit(ch) then Number(Trim(rest))
        else if ch == 't' then Expect(Trim(rest), "true", Bool(true))
        else if ch == 'f' then Expect(Trim(rest), "false", Bool(false))
        else if ch == 'n' then Expect(Trim(rest), "null", Null)
        else if ch == '"' then
          match StringBody(next, "", -1) {
            case Fail(e) => Fail(e)
            case Done(s, last) => Done(Str(s), last)
          }
        else if ch == '{' then
          ObjectBody(next, depth)
        else if ch == '[' then
          ArrayBody(next, depth)
        else Fail(ExpectedValue(ch))
  }

  function ObjectBody(next: string, depth: nat): (r: Parsed<Json>)
    ensures r.Done? ==> |r.rest| < |next|
    decreases |next|, 3
  {
    match Token(next)
    case Fail(e) => Fail(e)
    case Done(c, first) => if c == '}' then Done(Obj(map[]), first) else Members(c, first, depth, map[])
  }

  function ArrayBody(next: string, depth: nat): (r: Parsed<Json>)
    ensures r.Done? ==> |r.rest| < |next|
    decreases |next|, 3
  {
    match Token(next)
    case Fail(e) => Fail(e)
    case Done(c, first) => if c == ']' then Done(Arr([]), first) else Items(Trim(next), depth, [])
  }

  /** The members of an object from `ch` on; a later member replaces an earlier one of the same key. */
  function Members(ch: char, rest: string, depth: nat, acc: map<string, Json>): (r: Parsed<Json>)
    ensures r.Done? ==> |r.rest| < |rest|
    decreases |rest|, 0
  {
    if ch != '"' then Fail(ExpectedKey(ch))
    else
      match StringBody(rest, "", -1)
      case Fail(e) => Fail(e)
      case Done(key, r1) =>
        match Token(r1)
        case Fail(e) => Fail(e)
        case Done(colon, r2) =>
          if colon != ':' then Fail(ExpectedColon(colon))
          else
            match Value(r2, depth + 1)
            case Fail(e) => Fail(e)
            case Done(value, r3) =>
              match Token(r3)
              case Fail(e) => Fail(e)
              case Done(comma, r4) =>
                if comma == '}' then Done(Obj(acc[key := value]), r4)
                else if comma != ',' then Fail(ExpectedComma(comma))
                else
                  match Token(r4)
                  case Fail(e) => Fail(e)
                  case Done(c, r5) => Members(c, r5, depth, acc[key := value])
  }

  function Items(rest: string, depth: nat, acc: seq<Json>): (r: Parsed<Json>)
    ensures r.Done? ==> |r.rest| < |rest|
    decreases |rest|, 2
  {
    match Value(rest, depth + 1)
    case Fail(e) => Fail(e)
    case Done(value, r1) =>
      match Token(r1)
      case Fail(e) => Fail(e)
      case Done(comma, r2) =>
        if comma == ']' then Done(Arr(acc + [value]), r2)
        else if comma != ',' then Fail(ExpectedComma(comma))
        else
          match Token(r2)
          case Fail(e) => Fail(e)
          case Done(_, _) => Items(Trim(r2), depth, acc + [value])
  }

  function Parse(text: string): Parsed<Json> {
    match Value(text, 0)
    case Fail(e) => Fail(e)
    case Done(value, rest) => if Trim(rest) == "" then Done(value, "") else Fail(Trailing(Trim(rest)[0]))
  }
}
