/** The numbers of the grammar are read as what they mean. */
module JsonNumbers {
  import opened Wrappers
  import opened Ascii
  import opened Numerals
  import opened JsonSyntax
  import opened JsonGrammar

  /** A character that ends a number. */
  predicate Stops(c: char) {
    !IsDigit(c) && c != '.' && c != 'e' && c != 'E' && c != '+' && c != '-'
  }

  lemma {:induction false} SkipDecimal(s: string, rest: string)
    requires (forall k :: 0 <= k < |s| ==> IsDigit(s[k])) && !IsDigit(Front(rest))
    ensures SkipDigits(s + rest) == rest
  {
    if s == "" {
      assert s + rest == rest;
    } else {
      assert (s + rest)[1..] == s[1..] + rest;
      SkipDecimal(s[1..], rest);
    }
  }

  lemma {:induction false} AtoiSnoc(s: string, c: char, rest: string, acc: nat)
    requires (forall k :: 0 <= k < |s| ==> IsDigit(s[k])) && IsDigit(c)
    ensures AtoiLike(s + ([c] + rest), acc) == AtoiLike(rest, AtoiLike(s, acc) * 10 + HexDecode(c))
  {
    var text := s + ([c] + rest);
    if s == "" {
      assert text == [c] + rest && text[1..] == rest;
    } else {
      assert text[1..] == s[1..] + ([c] + rest);
      AtoiSnoc(s[1..], c, rest, acc * 10 + HexDecode(s[0]));
    }
  }

  lemma {:induction false} AtoiDecimal(n: nat, rest: string)
    ensures AtoiLike(Decimal(n) + rest, 0) == AtoiLike(rest, n)
  {
    if n < 10 {
      var d := DecimalDigit(n);
      AtoiSnoc("", d, rest, 0);
      assert "" + ([d] + rest) == [d] + rest && HexDecode(d) == n;
    } else {
      AtoiDecimal(n / 10, "");
      DecimalSnoc(n);
      var high, d := Decimal(n / 10), DecimalDigit(n % 10);
      hide Decimal, DecimalDigit, HexDecode, IsDigit;
      assert high + "" == high;
      AtoiSnoc(high, d, rest, 0);
      Associate(high, [d], rest);
    }
  }

  lemma DecimalSnoc(n: nat)
    requires n >= 10
    ensures var high, d := Decimal(n / 10), DecimalDigit(n % 10);
      && Decimal(n) == high + [d] && n / 10 * 10 + HexDecode(d) == n && IsDigit(d)
      && (forall k :: 0 <= k < |high| ==> IsDigit(high[k])) && AtoiLike("", n / 10) == n / 10
  {
  }

  lemma {:induction false} DecimalSize(n: nat, digits: nat, bound: nat)
    requires n < bound && bound == Power10(digits) && digits >= 1
    ensures |Decimal(n)| <= digits && (n > 0 ==> Decimal(n)[0] != '0')
    decreases digits
  {
    if n >= 10 {
      DecimalSize(n / 10, digits - 1, Power10(digits - 1));
    }
  }

  function Power10(digits: nat): nat {
    if digits == 0 then 1 else 10 * Power10(digits - 1)
  }

  /** Reading a printed integer gives it back. */
  lemma ReadInteger(n: nat, rest: string)
    requires n < 1_000_000_000 && Stops(Front(rest))
    ensures Number(Decimal(n) + rest) == Done(Int(n), rest)
  {
    var text := Decimal(n) + rest;
    assert Power10(3) == 1000 && Power10(6) == 1_000_000 && Power10(9) == 1_000_000_000;
    DecimalSize(n, 9, 1_000_000_000);
    SkipDecimal(Decimal(n), rest);
    AtoiDecimal(n, rest);
    assert AtoiLike(rest, n) == n;
    assert IsDigit(text[0]);
    if n == 0 {
      assert Decimal(n) == "0" && text[1..] == rest;
    }
    assert |text| - |rest| == |Decimal(n)|;
  }

  /** The sign of a short integer is not read, so a negative one comes out as zero. */
  lemma NegativeReadsZero(n: nat, rest: string)
    requires n < 100_000_000 && Stops(Front(rest))
    ensures Number("-" + Decimal(n) + rest) == Done(Int(0), rest)
  {
    var digits := Decimal(n) + rest;
    var text := "-" + Decimal(n) + rest;
    assert text[1..] == digits;
    assert Power10(2) == 100 && Power10(5) == 100_000 && Power10(8) == 100_000_000;
    DecimalSize(n, 8, 100_000_000);
    SkipDecimal(Decimal(n), rest);
    assert IsDigit(digits[0]);
    if n == 0 {
      assert Decimal(n) == "0" && digits[1..] == rest;
    }
  }

  lemma NumeralStart(n: Numeral)
    requires NumeralOk(n)
    ensures PrintNumeral(n) != "" && (PrintNumeral(n)[0] == '-' || IsDigit(PrintNumeral(n)[0]))
  {
  }

  lemma {:induction false} AtoiPrefix(s: string, rest: string, acc: nat)
    requires (forall k :: 0 <= k < |s| ==> IsDigit(s[k])) && !IsDigit(Front(rest))
    ensures AtoiLike(s + rest, acc) == AtoiLike(s, acc)
  {
    if s == "" {
      assert s + rest == rest;
    } else {
      assert (s + rest)[1..] == s[1..] + rest;
      AtoiPrefix(s[1..], rest, acc * 10 + HexDecode(s[0]));
    }
  }

  lemma {:induction false} AtoiValue(s: string)
    requires forall k :: 0 <= k < |s| ==> IsDigit(s[k])
    ensures AtoiLike(s, 0) == BaseValue(10, s)
    decreases |s|
  {
    if s != "" {
      var high, c := s[..|s| - 1], s[|s| - 1];
      assert s == high + ([c] + "");
      AtoiValue(high);
      AtoiSnoc(high, c, "", 0);
    }
  }

  /** The integer part: what follows it is `rest`. */
  lemma IntegerPart(n: Numeral, rest: string)
    requires NumeralOk(n) && !IsDigit(Front(rest))
    ensures Number(Signed(n) + rest) == NumberEnd(rest, Signed(n) + rest)
    ensures AtoiLike(Signed(n) + rest, 0) == if n.minus then 0 else AtoiLike(n.digits, 0)
  {
    hide NumberEnd;
    var text, digits := Signed(n) + rest, n.digits + rest;
    SkipDecimal(n.digits, rest);
    if n.minus {
      assert text[1..] == digits;
    } else {
      assert text == digits;
      AtoiPrefix(n.digits, rest, 0);
    }
    assert digits[0] == n.digits[0];
    if digits[0] == '0' {
      assert digits[1..] == rest;
    }
  }

  /** The same for strtod. */
  lemma FloatPoint(n: Numeral, rest: string)
    requires NumeralOk(n) && !IsDigit(Front(rest))
    ensures var text := Signed(n) + rest;
      SkipDigits(if Front(text) == '-' then text[1..] else text) == rest
  {
    var text, digits := Signed(n) + rest, n.digits + rest;
    SkipDecimal(n.digits, rest);
    if n.minus {
      assert text[1..] == digits;
    } else {
      assert text == digits;
    }
  }

  lemma FloatPrefix(a: string, rest: string)
    requires FloatEnd(a + rest) == rest
    ensures FloatText(a + rest) == a
  {
    hide FloatEnd;
    Cut(a, rest);
  }

  lemma PastDigits(digits: string, after: char, rest: string)
    requires Digits(digits) && !IsDigit(after)
    ensures SkipPastDigits(digits + ([after] + rest)) == Done((), rest)
    ensures SkipDigits(digits + ([after] + rest)) == [after] + rest && IsDigit(Front(digits + ([after] + rest)))
  {
    var text := [after] + rest;
    SkipDecimal(digits, text);
    assert text[1..] == rest;
  }

  /** Behind the mark of an exponent. */
  lemma PowerText(p: Power, rest: string)
    requires PowerOk(p)
    ensures var text := PrintPower(p) + rest;
      var sign := text[1..];
      && text[0] == p.mark
      && (if Front(sign) == '+' || Front(sign) == '-' then sign[1..] else sign) == p.digits + ([p.after] + rest)
  {
    var text := PrintPower(p) + rest;
    var digits := p.digits + ([p.after] + rest);
    assert text == [p.mark] + (p.sign + digits) && text[1..] == p.sign + digits;
    if p.sign == "" {
      assert p.sign + digits == digits && digits[0] == p.digits[0];
    } else {
      assert (p.sign + digits)[1..] == digits;
    }
  }

  lemma ReadPower(p: Power, rest: string, numeral: string)
    requires PowerOk(p)
    ensures Exponent(PrintPower(p) + rest, numeral) == Done(Double(numeral), rest)
  {
    PowerText(p, rest);
    hide PrintPower, SkipPastDigits;
    PastDigits(p.digits, p.after, rest);
  }

  lemma ReadWhole(n: Numeral, rest: string)
    requires NumeralOk(n) && n.tail.Whole? && (rest == "" || Stops(rest[0]))
    ensures Number(Signed(n) + rest) == Done(NumeralMeaning(n), rest)
  {
    hide Number, Signed, AtoiLike;
    AtoiValue(n.digits);
    IntegerPart(n, rest);
    FloatPoint(n, rest);
    FloatPrefix(Signed(n), rest);
  }

  lemma ReadScientific(n: Numeral, rest: string)
    requires NumeralOk(n) && n.tail.Scientific?
    ensures Number(Signed(n) + (PrintPower(n.tail.power) + rest)) == Done(NumeralMeaning(n), rest)
  {
    hide Number, Signed, AtoiLike, SkipDigits, Exponent;
    var p := n.tail.power;
    var tail := PrintPower(p) + rest;
    PowerText(p, rest);
    PastDigits(p.digits, p.after, rest);
    hide PrintPower;
    IntegerPart(n, tail);
    FloatPoint(n, tail);
    ReadPower(p, rest, FloatText(Signed(n) + tail));
    PowerEnds(Signed(n), p, rest);
  }

  lemma PowerEnds(a: string, p: Power, rest: string)
    requires FloatEnd(a + (PrintPower(p) + rest)) == [p.after] + rest
    ensures FloatText(a + (PrintPower(p) + rest)) == a + [p.mark] + p.sign + p.digits
  {
    hide FloatEnd;
    var numeral := a + [p.mark] + p.sign + p.digits;
    assert a + (PrintPower(p) + rest) == numeral + ([p.after] + rest);
    FloatPrefix(numeral, [p.after] + rest);
  }

  // What stands behind the digits of a fraction.
  function AfterFraction(exponent: Option<Power>, rest: string): string {
    (if exponent.Some? then PrintPower(exponent.value) else "") + rest
  }

  /** The character behind the digits of a fraction keeps strtod from reading an exponent. */
  lemma FractionEnds(n: Numeral, rest: string)
    requires NumeralOk(n) && n.tail.Fraction? && (rest == "" || Stops(rest[0]))
    ensures var text := n.tail.digits + ([n.tail.after] + AfterFraction(n.tail.exponent, rest));
      FloatText(Signed(n) + ("." + text)) == Signed(n) + "." + n.tail.digits
  {
    var after := AfterFraction(n.tail.exponent, rest);
    var end := [n.tail.after] + after;
    var text := n.tail.digits + end;
    assert Front(after) == 'e' || Front(after) == 'E' || Front(after) == NUL || Stops(Front(after));
    hide AfterFraction, Signed, SkipDigits;
    PastDigits(n.tail.digits, n.tail.after, after);
    FloatPoint(n, "." + text);
    assert ("." + text)[1..] == text && end[1..] == after;
    assert FloatEnd(Signed(n) + ("." + text)) == end;
    assert Signed(n) + ("." + text) == (Signed(n) + "." + n.tail.digits) + end;
    FloatPrefix(Signed(n) + "." + n.tail.digits, end);
  }

  lemma ReadFraction(n: Numeral, rest: string)
    requires NumeralOk(n) && n.tail.Fraction? && (rest == "" || Stops(rest[0]))
    ensures var text := n.tail.digits + ([n.tail.after] + AfterFraction(n.tail.exponent, rest));
      Number(Signed(n) + ("." + text)) == Done(NumeralMeaning(n), rest)
  {
    var after := AfterFraction(n.tail.exponent, rest);
    var text := n.tail.digits + ([n.tail.after] + after);
    var numeral := FloatText(Signed(n) + ("." + text));
    FractionEnds(n, rest);
    if n.tail.exponent.Some? {
      ReadPower(n.tail.exponent.value, rest, numeral);
    } else {
      assert after == rest;
    }
    assert Exponent(after, numeral) == Done(Double(numeral), rest);
    hide Number, Signed, AtoiLike, SkipDigits, Exponent, FloatText, AfterFraction, SkipPastDigits;
    IntegerPart(n, "." + text);
    PastDigits(n.tail.digits, n.tail.after, after);
    assert ("." + text)[1..] == text;
  }

  /** Every number is read as what it means, when what stands behind it cannot belong to it. */
  lemma ReadNumeral(n: Numeral, rest: string)
    requires NumeralOk(n) && (rest == "" || Stops(rest[0]))
    ensures Number(PrintNumeral(n) + rest) == Done(NumeralMeaning(n), rest)
  {
    hide NumeralOk, NumeralMeaning, Signed, Number;
    Associate(Signed(n), PrintTail(n.tail), rest);
    match n.tail {
      case Whole =>
        assert PrintNumeral(n) + rest == Signed(n) + rest;
        ReadWhole(n, rest);
      case Scientific(_) =>
        ReadScientific(n, rest);
      case Fraction(digits, after, exponent) =>
        var text := digits + ([after] + AfterFraction(exponent, rest));
        assert PrintTail(n.tail) + rest == "." + text;
        ReadFraction(n, rest);
    }
  }
}
