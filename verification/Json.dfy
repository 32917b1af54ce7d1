/** The JSON parser: a cursor over the text and the first error. */
module JsonParsers {
  import opened Wrappers
  import opened Ascii
  import opened JsonSyntax

  class JsonParser {
    const str: string
    var i: nat
    var failed: bool
    var err: Option<JsonSyntax.Error>

    ghost predicate Valid()
      reads this
    {
      i <= |str| && (failed <==> err.Some?)
    }

    /** The cursor is where a result leaves it, or the error of the result has been recorded. */
    ghost predicate Agrees<T>(r: Parsed<T>)
      reads this
    {
      Valid() && if r.Fail? then err == Some(r.error) else !failed && str[i..] == r.rest
    }

    constructor (str: string)
      ensures Valid() && !failed && i == 0 && this.str == str
    {
      this.str, i, failed, err := str, 0, false, None;
    }

    // The character at the cursor; behind the last one there is a NUL.
    function At(k: nat): char {
      if k < |str| then str[k] else NUL
    }

    /** Only the first error is kept. */
    method Error(e: JsonSyntax.Error)
      requires Valid()
      modifies this`failed, this`err
      ensures Valid() && failed && err == if old(failed) then old(err) else Some(e)
    {
      if !failed {
        err := Some(e);
      }
      failed := true;
    }

    method Trim()
      requires Valid()
      modifies this`i
      ensures Valid() && str[i..] == JsonSyntax.Trim(old(str[i..])) && old(i) <= i
    {
      while IsSpace(At(i))
        invariant Valid() && old(i) <= i && JsonSyntax.Trim(str[i..]) == JsonSyntax.Trim(old(str[i..]))
        decreases |str| - i
      {
        assert str[i..][1..] == str[i + 1..];
        i := i + 1;
      }
    }

    method NextToken() returns (c: char)
      requires Valid()
      modifies this
      ensures Valid() && old(i) <= i
      ensures old(failed) ==> failed && err == old(err) && c == NUL
      ensures !old(failed) ==> Agrees(Token(old(str[i..])))
      ensures !old(failed) && Token(old(str[i..])).Done? ==>
                && c == Token(old(str[i..])).value && old(i) < i && str[i - 1] == c
                && str[i - 1..] == JsonSyntax.Trim(old(str[i..]))
      ensures !old(failed) && Token(old(str[i..])).Fail? ==> c == NUL
    {
      Trim();
      if failed {
        return NUL;
      }
      if i == |str| {
        Error(UnexpectedEnd);
        return NUL;
      }
      c := str[i];
      i := i + 1;
    }

    /** Appends the UTF-8 bytes of a code point, nothing for a negative one. */
    method EncodeUtf8(pt: int, out: string) returns (r: string)
      requires -1 <= pt <= 0x10FFFF
      ensures r == out + Utf8(pt)
    {
      if pt < 0 {
        return out;
      }
      if pt < 0x80 {
        r := out + [pt as char];
      } else if pt < 0x800 {
        r := out + [(pt / 64 + 0xC0) as char, (pt % 64 + 0x80) as char];
      } else if pt < 0x10000 {
        r := out + [(pt / 4096 + 0xE0) as char, (pt / 64 % 64 + 0x80) as char, (pt % 64 + 0x80) as char];
      } else {
        r := out + [(pt / 262144 + 0xF0) as char, (pt / 4096 % 64 + 0x80) as char, (pt / 64 % 64 + 0x80) as char,
                    (pt % 64 + 0x80) as char];
      }
    }

    /** Reads the body of a string after its opening quote. */
    method ParseString() returns (out: string)
      requires Valid() && !failed
      modifies this
      ensures Agrees(StringBody(old(str[i..]), "", -1)) && old(i) <= i
      ensures !failed ==> out == StringBody(old(str[i..]), "", -1).value
    {
      out := "";
      var last: int := -1;
      ghost var whole := StringBody(str[i..], "", -1);
      while true
        invariant Valid() && !failed && old(i) <= i && -1 <= last < 0x10000
        invariant StringBody(str[i..], out, last) == whole
        decreases |str| - i
      {
        hide Utf8, CodePoint, Combine, Unescape;
        ghost var rest := str[i..];
        if i == |str| {
          Error(UnexpectedEndInString);
          return;
        }
        var ch := str[i];
        i := i + 1;
        assert rest[1..] == str[i..];
        if ch == '"' {
          out := EncodeUtf8(last, out);
          return;
        }
        if ch <= 0x1f as char {
          Error(Unescaped(ch));
          return;
        }
        if ch != '\\' {
          out := EncodeUtf8(last, out);
          last := -1;
          out := out + [ch];
          continue;
        }
        out, last := ParseEscape(out, last);
        if failed {
          return;
        }
      }
    }

    /** What a backslash begins; the code point of a `\\u` escape is kept back in case a trail surrogate follows. */
    method ParseEscape(written: string, before: int) returns (out: string, last: int)
      requires Valid() && !failed && 0 < i && str[i - 1] == '\\' && -1 <= before < 0x10000
      modifies this
      ensures Valid() && old(i) <= i && -1 <= last < 0x10000
      ensures failed ==> StringBody(old(str[i - 1..]), written, before) == Fail(err.value)
      ensures !failed ==>
                old(i) < i && StringBody(str[i..], out, last) == StringBody(old(str[i - 1..]), written, before)
    {
      hide Utf8, CodePoint, Combine;
      out, last := written, before;
      ghost var rest, next := str[i - 1..], str[i..];
      assert rest[1..] == next;
      if i == |str| {
        Error(UnexpectedEndInString);
        return;
      }
      var ch := str[i];
      i := i + 1;
      if ch == 'u' {
        out, last := ParseUnicode(out, last);
        return;
      }
      assert next[1..] == str[i..];
      out := EncodeUtf8(last, out);
      last := -1;
      match ch {
        case 'b' => out := out + [8 as char];
        case 'f' => out := out + [12 as char];
        case 'n' => out := out + ['\n'];
        case 'r' => out := out + ['\r'];
        case 't' => out := out + ['\t'];
        case '"' => out := out + [ch];
        case '\\' => out := out + [ch];
        case '/' => out := out + [ch];
        case _ => Error(InvalidEscape(ch));
      }
    }

    method ParseUnicode(written: string, before: int) returns (out: string, last: int)
      requires Valid() && !failed && 1 < i && str[i - 2] == '\\' && str[i - 1] == 'u' && -1 <= before < 0x10000
      modifies this
      ensures Valid() && old(i) <= i && -1 <= last < 0x10000
      ensures failed ==> StringBody(old(str[i - 2..]), written, before) == Fail(err.value)
      ensures !failed ==> StringBody(str[i..], out, last) == StringBody(old(str[i - 2..]), written, before)
    {
      hide Utf8, CodePoint, Combine;
      out, last := written, before;
      ghost var rest := str[i - 2..];
      assert rest[1..][0] == 'u' && |rest[1..]| == |str| - i + 1;
      if |str| - i < 4 {
        Error(BadUnicode);
        return;
      }
      var esc := str[i..i + 4];
      assert rest[1..][1..5] == esc && rest[1..][5..] == str[i + 4..];
      var j := 0;
      while j < 4
        invariant 0 <= j <= 4 && forall k :: 0 <= k < j ==> IsXdigit(esc[k])
        invariant Valid() && !failed && i == old(i)
      {
        if !IsXdigit(esc[j]) {
          Error(BadUnicode);
          return;
        }
        j := j + 1;
      }
      var codepoint := CodePoint(esc);
      if IsLead(last) && IsTrail(codepoint) {
        out := EncodeUtf8(Combine(last, codepoint), out);
        last := -1;
      } else {
        out := EncodeUtf8(last, out);
        last := codepoint;
      }
      i := i + 4;
    }

    /** Skips the digits at the cursor. */
    method SkipDigits()
      requires Valid()
      modifies this`i
      ensures Valid() && str[i..] == JsonSyntax.SkipDigits(old(str[i..])) && old(i) <= i
    {
      while IsDigit(At(i))
        invariant Valid() && old(i) <= i && JsonSyntax.SkipDigits(str[i..]) == JsonSyntax.SkipDigits(old(str[i..]))
        decreases |str| - i
      {
        assert str[i..][1..] == str[i + 1..];
        i := i + 1;
      }
    }

    /** Digits of a fraction or exponent: the cursor ends behind the character that is no digit, which does not
        exist when the digits end the text. */
    method SkipPastDigits()
      requires Valid() && !failed
      modifies this
      ensures Agrees(JsonSyntax.SkipPastDigits(old(str[i..]))) && old(i) <= i
    {
      assert Front(str[i..]) == At(i);
      if !IsDigit(At(i)) {
        Error(DigitRequired);
        return;
      }
      SkipDigits();
      if i == |str| {
        Error(PastEnd);
        return;
      }
      assert str[i..][1..] == str[i + 1..];
      i := i + 1;
    }

    /** An integer of at most nine characters, or the text a floating-point number starts at. */
    method ParseNumber() returns (r: Json)
      requires Valid() && !failed
      modifies this
      ensures Agrees(Number(old(str[i..]))) && old(i) <= i
      ensures !failed ==> r == Number(old(str[i..])).value
    {
      r := Null;
      ghost var text := str[i..];
      var start := i;
      assert Front(text) == At(i);
      if At(i) == '-' {
        assert text[1..] == str[i + 1..];
        i := i + 1;
      }
      ghost var digits := str[i..];
      assert Front(digits) == At(i);
      if At(i) == '0' {
        assert digits[1..] == str[i + 1..];
        i := i + 1;
        assert Front(str[i..]) == At(i);
        if IsDigit(At(i)) {
          Error(LeadingZero);
          return;
        }
      } else if '1' <= At(i) <= '9' {
        SkipDigits();
      } else {
        Error(InvalidNumber(At(i)));
        return;
      }
      assert |str[start..]| - |str[i..]| == i - start;
      r := ParseFraction(start);
    }

    method ParseFraction(start: nat) returns (r: Json)
      requires Valid() && !failed && start <= i
      modifies this
      ensures Agrees(NumberEnd(old(str[i..]), str[start..])) && old(i) <= i
      ensures !failed ==> r == NumberEnd(old(str[i..]), str[start..]).value
    {
      r := Double(FloatText(str[start..]));
      ghost var rest := str[i..];
      assert Front(rest) == At(i) && |str[start..]| - |rest| == i - start;
      if At(i) != '.' && At(i) != 'e' && At(i) != 'E' && i - start <= 9 {
        var n := StringToUint64AtoiLike(str[start..]);
        return Int(n);
      }
      if At(i) == '.' {
        assert rest[1..] == str[i + 1..];
        i := i + 1;
        SkipPastDigits();
        if failed {
          return;
        }
      }
      hide Exponent, JsonSyntax.SkipPastDigits;
      ParseExponent(r);
    }

    method ParseExponent(ghost number: Json)
      requires Valid() && !failed && number.Double?
      modifies this
      ensures Agrees(Exponent(old(str[i..]), number.numeral)) && old(i) <= i
      ensures !failed ==> number == Exponent(old(str[i..]), number.numeral).value
    {
      ghost var rest := str[i..];
      assert Front(rest) == At(i);
      if At(i) == 'e' || At(i) == 'E' {
        assert rest[1..] == str[i + 1..];
        i := i + 1;
        ghost var sign := str[i..];
        assert Front(sign) == At(i);
        if At(i) == '+' || At(i) == '-' {
          assert sign[1..] == str[i + 1..];
          i := i + 1;
        }
        SkipPastDigits();
      }
    }

    static method StringToUint64AtoiLike(text: string) returns (num: nat)
      ensures num == AtoiLike(text, 0)
    {
      num := 0;
      var n := text;
      while n != ""
        invariant AtoiLike(n, num) == AtoiLike(text, 0)
        decreases |n|
      {
        if !IsDigit(n[0]) {
          return;
        }
        num := num * 10 + (n[0] as int - '0' as int);
        n := n[1..];
      }
    }

    /** The cursor goes back to the first letter, then over the whole word. */
    method Expect(expected: string, res: Json) returns (r: Json)
      requires Valid() && !failed && 0 < i && expected != ""
      modifies this
      ensures Agrees(JsonSyntax.Expect(old(str[i - 1..]), expected, res)) && old(i) - 1 <= i
      ensures !failed ==> r == res
    {
      i := i - 1;
      if expected <= str[i..] {
        assert str[i..][|expected|..] == str[i + |expected|..];
        i := i + |expected|;
        return res;
      }
      Error(Expected(expected));
      return Null;
    }

    /** A value at the cursor, or nothing if an error was recorded before. */
    method ParseJson(depth: nat) returns (r: Json)
      requires Valid() && depth <= MAX_DEPTH + 1
      modifies this
      ensures Valid()
      ensures old(failed) ==> failed && err == old(err)
      ensures !old(failed) ==> Agrees(Value(old(str[i..]), depth))
      ensures !failed ==> r == Value(old(str[i..]), depth).value && old(i) < i
      decreases MAX_DEPTH + 1 - depth, 1
    {
      hide Number, JsonSyntax.StringBody, Members, Items, JsonSyntax.Trim, Token, ArrayBody, ObjectBody;
      r := Null;
      if depth > MAX_DEPTH {
        Error(TooDeep);
        return;
      }
      var ch := NextToken();
      if failed {
        return;
      }
      if ch == '-' || IsDigit(ch) {
        i := i - 1;
        r := ParseNumber();
      } else if ch == 't' {
        r := Expect("true", Bool(true));
      } else if ch == 'f' {
        r := Expect("false", Bool(false));
      } else if ch == 'n' {
        r := Expect("null", Null);
      } else if ch == '"' {
        var s := ParseString();
        r := Str(s);
      } else if ch == '{' {
        r := ParseObject(depth);
      } else if ch == '[' {
        r := ParseArray(depth);
      } else {
        Error(ExpectedValue(ch));
      }
    }

    /** The items of a list after its opening bracket. */
    method ParseArray(depth: nat) returns (r: Json)
      requires Valid() && !failed && depth <= MAX_DEPTH && 0 < i
      modifies this
      ensures Agrees(ArrayBody(old(str[i..]), depth))
      ensures !failed ==> r == ArrayBody(old(str[i..]), depth).value && old(i) <= i
      decreases MAX_DEPTH + 1 - depth, 0
    {
      hide Value, JsonSyntax.Trim, Token;
      ghost var whole := ArrayBody(str[i..], depth);
      r := Null;
      var data: seq<Json> := [];
      var ch := NextToken();
      if !failed && ch == ']' {
        return Arr([]);
      }
      while true
        invariant Valid() && 0 < i && old(i) <= i
        invariant failed ==> whole == Fail(err.value)
        invariant !failed ==> Items(str[i - 1..], depth, data) == whole
        decreases !failed, |str| - i
      {
        ghost var rest := str[i - 1..];
        i := i - 1;
        var item := ParseJson(depth + 1);
        data := data + [item];
        if failed {
          return;
        }
        ch := NextToken();
        if !failed && ch == ']' {
          return Arr(data);
        }
        if ch != ',' {
          Error(ExpectedComma(ch));
          return;
        }
        ch := NextToken();
      }
    }

    /** The members of an object after its opening brace. */
    method ParseObject(depth: nat) returns (r: Json)
      requires Valid() && !failed && depth <= MAX_DEPTH && 0 < i
      modifies this
      ensures Agrees(ObjectBody(old(str[i..]), depth))
      ensures !failed ==> r == ObjectBody(old(str[i..]), depth).value && old(i) <= i
      decreases MAX_DEPTH + 1 - depth, 0
    {
      hide Value, JsonSyntax.StringBody, JsonSyntax.Trim, Token;
      ghost var whole := ObjectBody(str[i..], depth);
      r := Null;
      var data: map<string, Json> := map[];
      var ch := NextToken();
      if !failed && ch == '}' {
        return Obj(data);
      }
      while true
        invariant Valid() && 0 < i && old(i) <= i
        invariant failed ==> ch == NUL && whole == Fail(err.value)
        invariant !failed ==> Members(ch, str[i..], depth, data) == whole
        decreases !failed, |str| - i
      {
        if ch != '"' {
          Error(ExpectedKey(ch));
          return;
        }
        var key := ParseString();
        if failed {
          return;
        }
        ch := NextToken();
        if ch != ':' {
          Error(ExpectedColon(ch));
          return;
        }
        var value := ParseJson(depth + 1);
        data := data[key := value];
        if failed {
          return;
        }
        ch := NextToken();
        if !failed && ch == '}' {
          return Obj(data);
        }
        if ch != ',' {
          Error(ExpectedComma(ch));
          return;
        }
        ch := NextToken();
      }
    }

    /** A text is one value with white space around it. */
    static method Parse(text: string) returns (r: Parsed<Json>)
      ensures r == JsonSyntax.Parse(text)
    {
      var parser := new JsonParser(text);
      assert text[0..] == text;
      var result := parser.ParseJson(0);
      parser.Trim();
      if parser.failed {
        return Fail(parser.err.value);
      }
      if parser.i != |text| {
        return Fail(Trailing(text[parser.i]));
      }
      return Done(result, "");
    }
  }
}
