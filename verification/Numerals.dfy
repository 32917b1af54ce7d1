/**
 Printing and reading of 64-bit numbers.  Readers wrap like the source's `uint64_t` and give up
 where it notices an overflow.
 */
module Numerals {
  import opened Wrappers
  import opened Ascii

  const U64: nat := 0x1_0000_0000_0000_0000

  function HexDigit(d: nat): char
    requires d < 16
  {
    "0123456789ABCDEF"[d]
  }

  function DecimalDigit(d: nat): char
    requires d < 10
  {
    "0123456789"[d]
  }

  function Hex(n: nat): (s: string)
    ensures |s| >= 1
  {
    if n < 16 then [HexDigit(n)] else Hex(n / 16) + [HexDigit(n % 16)]
  }

  function Decimal(n: nat): (s: string)
    ensures |s| >= 1 && forall k :: 0 <= k < |s| ==> IsDigit(s[k])
  {
    if n < 10 then [DecimalDigit(n)] else Decimal(n / 10) + [DecimalDigit(n % 10)]
  }

  function Reverse(s: string): string {
    if s == "" then "" else Reverse(s[1..]) + [s[0]]
  }

  lemma ReverseSnoc(s: string, c: char)
    ensures Reverse(s + [c]) == [c] + Reverse(s)
  {
    if s != "" {
      assert (s + [c])[1..] == s[1..] + [c];
      ReverseSnoc(s[1..], c);
    }
  }

  /** The digits of a number still to be collected, which are none for zero. */
  function HexRest(n: nat): string { if n == 0 then "" else Hex(n) }

  lemma HexStep(n: nat)
    requires n != 0
    ensures HexRest(n) == HexRest(n / 16) + [HexDigit(n % 16)]
  {
    hide HexDigit;
  }

  /** Collects digits from the least significant one, then reverses them. */
  method Uint64ToHexstring(number: nat) returns (r: string)
    ensures r == Hex(number)
  {
    var n, s := number, "";
    if n == 0 {
      s := [HexDigit(n)];
    }
    HexOfZero();
    assert HexRest(n) + Reverse("") == HexRest(n);
    hide HexDigit, Hex, HexRest, Reverse;
    while n != 0
      invariant number == 0 ==> s == [HexDigit(0)] && n == 0
      invariant number != 0 ==> HexRest(number) == HexRest(n) + Reverse(s)
    {
      var digit, rest := HexDigit(n % 16), n / 16;
      HexStep(n);
      ReverseSnoc(s, digit);
      Associate(HexRest(rest), [digit], Reverse(s));
      s := s + [digit];
      n := rest;
    }
    r := Backwards(s);
    HexOfRest(number, r);
  }

  lemma HexOfZero()
    ensures Hex(0) == Reverse([HexDigit(0)]) && Reverse("") == ""
  {
    assert [HexDigit(0)][1..] == "";
  }

  lemma HexOfRest(n: nat, r: string)
    requires n != 0 ==> HexRest(n) == HexRest(0) + r
    ensures n != 0 ==> Hex(n) == r
  {
    hide Hex;
  }

  /** The digits of a number still to be collected, which are none for zero. */
  function DecimalRest(n: nat): string { if n == 0 then "" else Decimal(n) }

  lemma DecimalStep(n: nat)
    requires n != 0
    ensures DecimalRest(n) == DecimalRest(n / 10) + [DecimalDigit(n % 10)]
  {
    hide DecimalDigit;
  }

  method Uint64ToString(number: nat) returns (r: string)
    ensures r == Decimal(number)
  {
    var n, s := number, "";
    if n == 0 {
      s := [DecimalDigit(n)];
    }
    DecimalOfZero();
    assert DecimalRest(n) + Reverse("") == DecimalRest(n);
    hide DecimalDigit, Decimal, DecimalRest, Reverse;
    while n != 0
      invariant number == 0 ==> s == [DecimalDigit(0)] && n == 0
      invariant number != 0 ==> DecimalRest(number) == DecimalRest(n) + Reverse(s)
    {
      var digit, rest := DecimalDigit(n % 10), n / 10;
      DecimalStep(n);
      ReverseSnoc(s, digit);
      Associate(DecimalRest(rest), [digit], Reverse(s));
      s := s + [digit];
      n := rest;
    }
    r := Backwards(s);
    DecimalOfRest(number, r);
  }

  lemma DecimalOfZero()
    ensures Decimal(0) == Reverse([DecimalDigit(0)]) && Reverse("") == ""
  {
    assert [DecimalDigit(0)][1..] == "";
  }

  lemma DecimalOfRest(n: nat, r: string)
    requires n != 0 ==> DecimalRest(n) == DecimalRest(0) + r
    ensures n != 0 ==> Decimal(n) == r
  {
    hide Decimal;
  }

  method Backwards(s: string) returns (r: string)
    ensures r == Reverse(s)
  {
    r := "";
    var k := |s|;
    while k > 0
      invariant 0 <= k <= |s|
      invariant r == Reverse(s[k..])
    {
      k := k - 1;
      assert s[k..][1..] == s[k + 1..];
      ReverseParts(s[k..], s[k]);
      r := r + [s[k]];
    }
    assert s[0..] == s;
  }

  lemma ReverseParts(s: string, c: char)
    requires s != "" && s[0] == c
    ensures Reverse(s) == Reverse(s[1..]) + [c]
  {
  }

  // What reading digits of base `base` from `n` does to an accumulated number.
  function ReadDigits(base: nat, acc: nat, n: string): Option<nat>
    requires base == 10 || base == 16
    decreases |n|
  {
    if n == "" then Some(acc)
    else if !(if base == 10 then IsDigit(n[0]) else IsHexDigit(n[0])) then None
    else
      var shifted := acc * base % U64;
      if shifted < acc then None
      else ReadDigits(base, (shifted + HexDecode(n[0])) % U64, n[1..])
  }

  method StringToUint64(text: string) returns (r: Option<nat>)
    ensures r == ReadDigits(10, 0, text)
  {
    var n, num: nat := text, 0;
    while n != ""
      invariant ReadDigits(10, 0, text) == ReadDigits(10, num, n)
      decreases |n|
    {
      if !IsDigit(n[0]) {
        return None;
      }
      var ofc := num;
      num := num * 10 % U64;
      if num < ofc {
        return None;
      }
      num := (num + (n[0] as int - '0' as int)) % U64;
      n := n[1..];
    }
    return Some(num);
  }

  function ReadHex(text: string): Option<nat> {
    if text == "" then None else ReadDigits(16, 0, text)
  }

  method HexstringToUint64(text: string) returns (r: Option<nat>)
    ensures r == ReadHex(text)
  {
    if text == "" {
      return None;
    }
    var n, num: nat := text, 0;
    while n != ""
      invariant ReadDigits(16, 0, text) == ReadDigits(16, num, n)
      decreases |n|
    {
      if !IsHexDigit(n[0]) {
        return None;
      }
      var ofc := num;
      num := num * 16 % U64;
      if num < ofc {
        return None;
      }
      num := (num + HexDecode(n[0])) % U64;
      n := n[1..];
    }
    return Some(num);
  }

  lemma {:induction false} ReadDigitsSnoc(base: nat, acc: nat, s: string, c: char)
    requires base == 10 || base == 16
    requires ReadDigits(base, acc, s).Some?
    ensures ReadDigits(base, acc, s + [c]) == ReadDigits(base, ReadDigits(base, acc, s).value, [c])
    decreases |s|
  {
    if s == "" {
      assert s + [c] == [c];
    } else {
      assert (s + [c])[1..] == s[1..] + [c];
      ReadDigitsSnoc(base, (acc * base % U64 + HexDecode(s[0])) % U64, s[1..], c);
    }
  }

  lemma DigitsRead(d: nat)
    requires d < 16
    ensures HexDecode(HexDigit(d)) == d && IsXdigit(HexDigit(d)) && IsHexDigit(HexDigit(d))
    ensures d < 10 ==> HexDecode(DecimalDigit(d)) == d && IsDigit(DecimalDigit(d))
  {
  }

  lemma {:induction false} ReadDigitsBound(acc: nat, text: string)
    requires acc < U64
    ensures ReadDigits(16, acc, text).Some? ==> ReadDigits(16, acc, text).value < U64
    decreases |text|
  {
    if text != "" {
      ReadDigitsBound((acc * 16 % U64 + HexDecode(text[0])) % U64, text[1..]);
    }
  }

  // Hexadecimal text and what it denotes

  predicate IsHexText(t: string) {
    forall k :: 0 <= k < |t| ==> IsXdigit(t[k])
  }

  function HexValue(t: string): (v: nat)
    requires IsHexText(t)
    ensures (|t| <= 1 ==> v < 16) && (|t| <= 2 ==> v < 256) && (|t| <= 3 ==> v < 4096) && (|t| <= 4 ==> v < 65536)
  {
    if t == "" then 0 else 16 * HexValue(t[..|t| - 1]) + XdigitValue(t[|t| - 1])
  }

  lemma {:induction false} HexText(n: nat)
    ensures IsHexText(Hex(n)) && HexValue(Hex(n)) == n
  {
    DigitsRead(n % 16);
    hide HexDigit, HexDecode, IsXdigit;
    if n >= 16 {
      HexText(n / 16);
      assert Hex(n)[..|Hex(n)| - 1] == Hex(n / 16);
    } else {
      assert HexValue(Hex(n)[..0]) == 0;
    }
  }

  /** Hexadecimal text is read as what it denotes exactly when that fits 64 bits. */
  lemma {:induction false} HexReadExactly(t: string)
    requires IsHexText(t)
    ensures ReadDigits(16, 0, t) == Some(HexValue(t)) <==> HexValue(t) < U64
    decreases |t|
  {
    ReadDigitsBound(0, t);
    if t != "" {
      var high, c := t[..|t| - 1], t[|t| - 1];
      assert t == high + [c];
      HexReadExactly(high);
      if HexValue(high) < U64 {
        ReadDigitsSnoc(16, 0, high, c);
        if HexValue(t) < U64 {
          LastDigit(16, HexValue(high), HexDecode(c), c);
        }
      }
    }
  }

  /** Reading undoes printing for every 64-bit number. */
  lemma {:induction false} ReadPrintedHex(n: nat)
    requires n < U64
    ensures ReadHex(Hex(n)) == Some(n)
  {
    DigitsRead(n % 16);
    assert n < 16 ==> Hex(n) == [HexDigit(n)];
    assert n >= 16 ==> Hex(n) == Hex(n / 16) + [HexDigit(n % 16)];
    hide Hex, HexDecode, HexDigit, IsXdigit, IsHexDigit, ReadDigits;
    if n >= 16 {
      ReadPrintedHex(n / 16);
      ReadDigitsSnoc(16, 0, Hex(n / 16), HexDigit(n % 16));
      LastDigit(16, n / 16, n % 16, HexDigit(n % 16));
    } else {
      LastDigit(16, 0, n, HexDigit(n));
    }
  }

  lemma {:induction false} ReadPrintedDecimal(n: nat)
    requires n < U64
    ensures ReadDigits(10, 0, Decimal(n)) == Some(n)
  {
    DigitsRead(n % 10);
    hide HexDecode, DecimalDigit, IsDigit, ReadDigits;
    if n >= 10 {
      ReadPrintedDecimal(n / 10);
      ReadDigitsSnoc(10, 0, Decimal(n / 10), DecimalDigit(n % 10));
      LastDigit(10, n / 10, n % 10, DecimalDigit(n % 10));
    } else {
      LastDigit(10, 0, n, DecimalDigit(n));
    }
  }

  lemma LastDigit(base: nat, high: nat, d: nat, c: char)
    requires base == 10 || base == 16
    requires d < base && high * base + d < U64
    requires HexDecode(c) == d && (if base == 10 then IsDigit(c) else IsHexDigit(c))
    ensures ReadDigits(base, high, [c]) == Some(high * base + d)
  {
    hide HexDecode, IsDigit, IsHexDigit;
    assert [c][1..] == "";
    if base == 10 {
      assert high * 10 % U64 == high * 10;
    } else {
      assert high * 16 % U64 == high * 16;
    }
  }

  // What reading comes to on any text

  predicate IsDigitOf(base: nat, c: char) {
    if base == 10 then IsDigit(c) else IsHexDigit(c)
  }

  /** The number digits denote, however large. */
  function BaseValue(base: nat, t: string): nat {
    if t == "" then 0 else BaseValue(base, t[..|t| - 1]) * base + HexDecode(t[|t| - 1])
  }

  /** No further digit makes the wrapped number smaller by shifting it. */
  ghost predicate NeverShrinks(base: nat, t: string) {
    forall k | 0 <= k < |t| :: BaseValue(base, t[..k]) * base % U64 >= BaseValue(base, t[..k]) % U64
  }

  lemma {:induction false} ReadDigitsFails(base: nat, acc: nat, s: string, c: char)
    requires base == 10 || base == 16
    requires ReadDigits(base, acc, s).None?
    ensures ReadDigits(base, acc, s + [c]).None?
    decreases |s|
  {
    assert (s + [c])[1..] == s[1..] + [c];
    if IsDigitOf(base, s[0]) && acc * base % U64 >= acc {
      ReadDigitsFails(base, (acc * base % U64 + HexDecode(s[0])) % U64, s[1..], c);
    }
  }

  lemma ShiftWrapped(base: nat, v: nat, d: nat)
    requires base == 10 || base == 16
    ensures v % U64 * base % U64 == v * base % U64 && (v * base % U64 + d) % U64 == (v * base + d) % U64
  {
    var q, m := v / U64, v % U64;
    assert v * base == m * base + q * base * U64;
    AddWraps(m * base, q * base);
    var w := v * base;
    AddWraps(w % U64 + d, w / U64);
    assert w + d == w % U64 + d + w / U64 * U64;
  }

  lemma {:induction false} AddWraps(a: nat, q: nat)
    ensures (a + q * U64) % U64 == a % U64
    decreases q
  {
    if q > 0 {
      AddWraps(a, q - 1);
      assert a + q * U64 == a + (q - 1) * U64 + U64;
    }
  }

  lemma ReadOne(base: nat, acc: nat, c: char)
    requires base == 10 || base == 16
    ensures ReadDigits(base, acc, [c]) ==
      if IsDigitOf(base, c) && acc * base % U64 >= acc then Some((acc * base % U64 + HexDecode(c)) % U64) else None
  {
    assert [c][1..] == "";
  }

  /** A text reads exactly when it is digits and no shift makes the number smaller; it reads as what it denotes,
      wrapped at 64 bits. */
  lemma {:induction false} ReadExactly(base: nat, t: string)
    requires base == 10 || base == 16
    ensures ReadDigits(base, 0, t) ==
      if (forall k :: 0 <= k < |t| ==> IsDigitOf(base, t[k])) && NeverShrinks(base, t)
      then Some(BaseValue(base, t) % U64) else None
    decreases |t|
  {
    if t != "" {
      var high, c := t[..|t| - 1], t[|t| - 1];
      assert t == high + [c];
      ReadExactly(base, high);
      ShrinksLast(base, high, c);
      ShiftWrapped(base, BaseValue(base, high), HexDecode(c));
      hide ReadDigits, NeverShrinks, HexDecode, IsDigitOf;
      if ReadDigits(base, 0, high).Some? {
        ReadDigitsSnoc(base, 0, high, c);
        ReadOne(base, BaseValue(base, high) % U64, c);
      } else {
        ReadDigitsFails(base, 0, high, c);
      }
    }
  }

  lemma ShrinksLast(base: nat, high: string, c: char)
    ensures NeverShrinks(base, high + [c]) <==>
            NeverShrinks(base, high) && BaseValue(base, high) * base % U64 >= BaseValue(base, high) % U64
  {
    hide BaseValue;
    var t := high + [c];
    assert forall k :: 0 <= k < |high| ==> t[..k] == high[..k];
    assert t[..|high|] == high;
  }

  predicate IsDecimalText(t: string) {
    forall k :: 0 <= k < |t| ==> IsDigit(t[k])
  }

  lemma DecimalLast(high: string, c: char)
    ensures BaseValue(10, high + [c]) == BaseValue(10, high) * 10 + HexDecode(c)
    ensures IsDecimalText(high + [c]) <==> IsDecimalText(high) && IsDigit(c)
    ensures IsDigit(c) ==> HexDecode(c) < 10
  {
    var t := high + [c];
    assert t[..|t| - 1] == high && t[|t| - 1] == c;
    assert forall k :: 0 <= k < |high| ==> t[k] == high[k];
  }

  /** Decimal numbers below 2^64 are read as they are. */
  lemma {:induction false} DecimalReads(t: string)
    requires IsDecimalText(t) && BaseValue(10, t) < U64
    ensures ReadDigits(10, 0, t) == Some(BaseValue(10, t))
    decreases |t|
  {
    if t != "" {
      hide BaseValue, HexDecode, IsDigit, ReadDigits, IsDecimalText;
      var high, c := t[..|t| - 1], t[|t| - 1];
      assert t == high + [c];
      DecimalLast(high, c);
      DecimalReads(high);
      ReadDigitsSnoc(10, 0, high, c);
      LastDigit(10, BaseValue(10, high), HexDecode(c), c);
    }
  }
}
