/** The base64 encoding (section 4 of RFC 4648). */
module Base64 {
  import opened Wrappers

  /** The letter of a six-bit group: upper case, lower case, digits, plus and slash. */
  function ToRadix(d: nat): char
    requires d < 64
  {
    if d < 26 then ('A' as int + d) as char
    else if d < 52 then ('a' as int + d - 26) as char
    else if d < 62 then ('0' as int + d - 52) as char
    else if d == 62 then '+'
    else '/'
  }

  function FromRadix(c: char): (d: Option<nat>)
    ensures d.Some? ==> d.value < 64
  {
    if 'A' <= c <= 'Z' then Some(c as int - 'A' as int)
    else if 'a' <= c <= 'z' then Some(c as int - 'a' as int + 26)
    else if '0' <= c <= '9' then Some(c as int - '0' as int + 52)
    else if c == '+' then Some(62)
    else if c == '/' then Some(63)
    else None
  }

  // What is computed.  The byte behind the end of the text is read for a short tail: `missing` is its value.

  function Triple(a: Byte, b: Byte, c: Byte): (g: seq<nat>)
    ensures |g| == 4 && forall k :: 0 <= k < 4 ==> g[k] < 64
  {
    [a / 4, a % 4 * 16 + b / 16, b % 16 * 4 + c / 64, c % 64]
  }

  function Letters(g: seq<nat>): (t: string)
    requires |g| == 4 && forall k :: 0 <= k < 4 ==> g[k] < 64
    ensures |t| == 4
  {
    [ToRadix(g[0]), ToRadix(g[1]), ToRadix(g[2]), ToRadix(g[3])]
  }

  function Encoded(s: seq<Byte>, missing: Byte): string {
    if s == [] then ""
    else if |s| == 1 then Letters(Triple(s[0], missing, 0))[..2] + "=="
    else if |s| == 2 then Letters(Triple(s[0], s[1], missing))[..3] + "="
    else Letters(Triple(s[0], s[1], s[2])) + Encoded(s[3..], missing)
  }

  /** The one to three bytes of four letters. */
  function Group(t: string): Option<seq<Byte>>
    requires |t| == 4
  {
    var g0, g1 := FromRadix(t[0]), FromRadix(t[1]);
    if g0.None? || g1.None? then None
    else
      var first: seq<Byte> := [g0.value * 4 + g1.value / 16];
      if t[2] == '=' then Some(first)
      else
        var g2 := FromRadix(t[2]);
        if g2.None? then None
        else
          var second: seq<Byte> := first + [g1.value % 16 * 16 + g2.value / 4];
          if t[3] == '=' then Some(second)
          else
            var g3 := FromRadix(t[3]);
            if g3.None? then None else Some(second + [g2.value % 4 * 64 + g3.value])
  }

  function Decoded(t: string): Option<seq<Byte>> {
    if t == "" then Some([])
    else if |t| < 4 then None
    else
      var first := Group(t[..4]);
      var rest := Decoded(t[4..]);
      if first.None? || rest.None? then None else Some(first.value + rest.value)
  }

  lemma RadixUndone(d: nat)
    requires d < 64
    ensures FromRadix(ToRadix(d)) == Some(d) && ToRadix(d) != '='
  {
  }

  /** The four groups are the 24 bits of three bytes, the first byte in front. */
  lemma TripleIsBits(a: Byte, b: Byte, c: Byte)
    ensures var g := Triple(a, b, c);
      a * 65536 + b * 256 + c == g[0] * 262144 + g[1] * 4096 + g[2] * 64 + g[3]
  {
    assert a == a / 4 * 4 + a % 4 && b == b / 16 * 16 + b % 16 && c == c / 64 * 64 + c % 64;
  }

  lemma GroupUndone(a: Byte, b: Byte, c: Byte)
    ensures var t := Letters(Triple(a, b, c));
      && Group(t) == Some([a, b, c])
      && Group(t[..3] + "=") == Some([a, b])
      && Group(t[..2] + "==") == Some([a])
  {
    hide ToRadix, FromRadix;
    var g := Triple(a, b, c);
    RadixUndone(g[0]);
    RadixUndone(g[1]);
    RadixUndone(g[2]);
    RadixUndone(g[3]);
    SixBits(a, b, c);
    var t := Letters(g);
    var two, one := t[..3] + "=", t[..2] + "==";
    assert two[0] == t[0] && two[1] == t[1] && two[2] == t[2] && two[3] == '=';
    assert one[0] == t[0] && one[1] == t[1] && one[2] == '=';
    var x, y, z: seq<Byte> := [a], [b], [c];
    assert x + y == [a, b] && x + y + z == [a, b, c];
  }

  lemma SixBits(a: Byte, b: Byte, c: Byte)
    ensures var g := Triple(a, b, c);
      && g[0] * 4 + g[1] / 16 == a && g[1] % 16 * 16 + g[2] / 4 == b && g[2] % 4 * 64 + g[3] == c
  {
  }

  /** Decoding undoes encoding, whatever stands behind the text. */
  lemma {:induction false} DecodesEncoded(s: seq<Byte>, missing: Byte)
    ensures Decoded(Encoded(s, missing)) == Some(s)
    decreases |s|
  {
    hide Group, Triple, Letters;
    if s == [] {
    } else if |s| == 1 {
      GroupUndone(s[0], missing, 0);
      var t := Encoded(s, missing);
      assert t[..4] == t && t[4..] == "" && [s[0]] + [] == s;
    } else if |s| == 2 {
      GroupUndone(s[0], s[1], missing);
      var t := Encoded(s, missing);
      assert t[..4] == t && t[4..] == "" && [s[0], s[1]] + [] == s;
    } else {
      GroupUndone(s[0], s[1], s[2]);
      DecodesEncoded(s[3..], missing);
      var t := Encoded(s, missing);
      assert t[..4] == Letters(Triple(s[0], s[1], s[2])) && t[4..] == Encoded(s[3..], missing);
      assert [s[0], s[1], s[2]] + s[3..] == s;
    }
  }

  /** The encoding is the standard one, with zero bits behind the text, exactly when the bits read there are
      zero or none are. */
  lemma {:induction false} StandardWhen(s: seq<Byte>, missing: Byte)
    ensures Encoded(s, missing) == Encoded(s, 0) <==>
            |s| % 3 == 0 || (|s| % 3 == 1 && missing < 16) || (|s| % 3 == 2 && missing < 64)
    decreases |s|
  {
    hide Letters, Triple;
    if |s| > 2 {
      StandardWhen(s[3..], missing);
      SamePrefix(Letters(Triple(s[0], s[1], s[2])), Encoded(s[3..], missing), Encoded(s[3..], 0));
    } else if |s| == 2 {
      TailLetters(s[0], s[1], missing);
    } else if |s| == 1 {
      TailLetters(s[0], missing, 0);
    }
  }

  lemma SamePrefix(a: string, b: string, c: string)
    ensures a + b == a + c <==> b == c
  {
    if a + b == a + c {
      assert (a + b)[|a|..] == b && (a + c)[|a|..] == c;
    }
  }

  lemma TailLetters(a: Byte, b: Byte, missing: Byte)
    ensures Letters(Triple(a, b, missing))[..3] + "=" == Letters(Triple(a, b, 0))[..3] + "=" <==> missing < 64
    ensures Letters(Triple(a, b, 0))[..2] + "==" == Letters(Triple(a, 0, 0))[..2] + "==" <==> b < 16
  {
    hide ToRadix, FromRadix;
    var t, u, v := Letters(Triple(a, b, missing)), Letters(Triple(a, b, 0)), Letters(Triple(a, 0, 0));
    RadixUndone(Triple(a, b, missing)[2]);
    RadixUndone(Triple(a, b, 0)[2]);
    RadixUndone(Triple(a, b, 0)[1]);
    RadixUndone(Triple(a, 0, 0)[1]);
    assert (t[..3] + "=")[2] == t[2] && (u[..3] + "=")[2] == u[2];
    assert (u[..2] + "==")[1] == u[1] && (v[..2] + "==")[1] == v[1];
    if missing < 64 {
      assert t[..3] == u[..3];
    }
    if b < 16 {
      assert u[..2] == v[..2];
    }
  }

  /** Three bytes at a time, and padding for the tail. */
  method EncodeString(str: seq<Byte>, missing: Byte) returns (out: string)
    ensures out == Encoded(str, missing)
  {
    out := "";
    var rest := str;
    while rest != []
      invariant Encoded(str, missing) == out + Encoded(rest, missing)
      decreases |rest|
    {
      hide Letters, Triple;
      if |rest| == 2 {
        var letters := Letters(Triple(rest[0], rest[1], missing));
        assert rest[2..] == [];
        out := out + (letters[..3] + "=");
        rest := rest[2..];
      } else if |rest| == 1 {
        var letters := Letters(Triple(rest[0], missing, 0));
        assert rest[1..] == [];
        out := out + (letters[..2] + "==");
        rest := rest[1..];
      } else {
        var letters := Letters(Triple(rest[0], rest[1], rest[2]));
        assert out + (letters + Encoded(rest[3..], missing)) == out + letters + Encoded(rest[3..], missing);
        out := out + letters;
        rest := rest[3..];
      }
    }
  }

  /** Four letters at a time; a remainder is an error. */
  method DecodeString(str: string) returns (r: Option<seq<Byte>>)
    ensures r == Decoded(str)
  {
    var out: seq<Byte>, rest := [], str;
    assert Decoded(str).Some? ==> [] + Decoded(str).value == Decoded(str).value;
    while |rest| >= 4
      invariant var d := Decoded(rest); Decoded(str) == if d.None? then None else Some(out + d.value)
      decreases |rest|
    {
      hide Group;
      var group := Group(rest[..4]);
      if group.None? {
        return None;
      }
      ghost var d := Decoded(rest[4..]);
      assert d.Some? ==> out + (group.value + d.value) == out + group.value + d.value;
      out := out + group.value;
      rest := rest[4..];
    }
    assert out + [] == out;
    if rest != "" {
      return None;
    }
    return Some(out);
  }

  // Exactly what decodes

  /** Four letters and the bytes they stand for.  The bits a short group does not need are not looked at, nor is
      the character behind a first padding. */
  datatype Quad =
    | Full(a: Byte, b: Byte, c: Byte)
    | Two(a: Byte, b: Byte, spare: Byte)
    | One(a: Byte, spare: Byte, last: char)

  function QuadText(q: Quad): (t: string)
    ensures |t| == 4
  {
    match q
    case Full(a, b, c) => Letters(Triple(a, b, c))
    case Two(a, b, spare) => Letters(Triple(a, b, spare))[..3] + "="
    case One(a, spare, last) => Letters(Triple(a, spare, 0))[..2] + "=" + [last]
  }

  function QuadBytes(q: Quad): seq<Byte> {
    match q
    case Full(a, b, c) => [a, b, c]
    case Two(a, b, _) => [a, b]
    case One(a, _, _) => [a]
  }

  function QuadsText(qs: seq<Quad>): string {
    if qs == [] then "" else QuadText(qs[0]) + QuadsText(qs[1..])
  }

  function QuadsBytes(qs: seq<Quad>): seq<Byte> {
    if qs == [] then [] else QuadBytes(qs[0]) + QuadsBytes(qs[1..])
  }

  lemma LetterUndone(c: char)
    requires FromRadix(c).Some?
    ensures ToRadix(FromRadix(c).value) == c
  {
  }

  lemma QuadDecodes(q: Quad)
    ensures Group(QuadText(q)) == Some(QuadBytes(q))
  {
    match q {
      case Full(a, b, c) => GroupUndone(a, b, c);
      case Two(a, b, spare) => GroupUndone(a, b, spare);
      case One(a, spare, last) =>
        GroupUndone(a, spare, 0);
        var t, u := Letters(Triple(a, spare, 0))[..2] + "==", QuadText(q);
        hide ToRadix, FromRadix;
        assert u[0] == t[0] && u[1] == t[1] && u[2] == t[2] == '=';
    }
  }

  lemma Digits4(q: nat, r: nat)
    requires r < 4
    ensures (q * 4 + r) / 4 == q && (q * 4 + r) % 4 == r
  {
  }

  lemma Digits16(q: nat, r: nat)
    requires r < 16
    ensures (q * 16 + r) / 16 == q && (q * 16 + r) % 16 == r
  {
  }

  lemma Digits64(q: nat, r: nat)
    requires r < 64
    ensures (q * 64 + r) / 64 == q && (q * 64 + r) % 64 == r
  {
  }

  lemma Bits(g0: nat, g1: nat, g2: nat, g3: nat)
    requires g0 < 64 && g1 < 64 && g2 < 64 && g3 < 64
    ensures Triple(g0 * 4 + g1 / 16, g1 % 16 * 16 + g2 / 4, g2 % 4 * 64 + g3) == [g0, g1, g2, g3]
  {
    Digits4(g0, g1 / 16);
    Digits16(g1 % 16, g2 / 4);
    Digits64(g2 % 4, g3);
    assert g1 / 16 * 16 + g1 % 16 == g1 && g2 / 4 * 4 + g2 % 4 == g2;
  }

  lemma LettersAre(t: string, g: seq<nat>)
    requires |t| == 4 && |g| == 4 && forall k :: 0 <= k < 4 ==> g[k] < 64
    requires FromRadix(t[0]) == Some(g[0]) && FromRadix(t[1]) == Some(g[1])
    ensures Letters(g)[..2] == t[..2]
    ensures FromRadix(t[2]) == Some(g[2]) ==> Letters(g)[..3] == t[..3]
    ensures FromRadix(t[2]) == Some(g[2]) && FromRadix(t[3]) == Some(g[3]) ==> Letters(g) == t
  {
    LetterUndone(t[0]);
    LetterUndone(t[1]);
    if FromRadix(t[2]) == Some(g[2]) {
      LetterUndone(t[2]);
    }
    if FromRadix(t[3]) == Some(g[3]) {
      LetterUndone(t[3]);
    }
    hide ToRadix, FromRadix;
  }

  lemma QuadOf(t: string) returns (q: Quad)
    requires |t| == 4 && Group(t).Some?
    ensures QuadText(q) == t
  {
    hide ToRadix, FromRadix, Letters, Triple;
    var g0, g1 := FromRadix(t[0]).value, FromRadix(t[1]).value;
    if t[2] == '=' {
      Bits(g0, g1, 0, 0);
      LettersAre(t, [g0, g1, 0, 0]);
      q := One(g0 * 4 + g1 / 16, g1 % 16 * 16, t[3]);
      assert t == t[..2] + "=" + [t[3]];
    } else if t[3] == '=' {
      var g2 := FromRadix(t[2]).value;
      Bits(g0, g1, g2, 0);
      LettersAre(t, [g0, g1, g2, 0]);
      q := Two(g0 * 4 + g1 / 16, g1 % 16 * 16 + g2 / 4, g2 % 4 * 64);
      assert t == t[..3] + "=";
    } else {
      var g2, g3 := FromRadix(t[2]).value, FromRadix(t[3]).value;
      Bits(g0, g1, g2, g3);
      LettersAre(t, [g0, g1, g2, g3]);
      q := Full(g0 * 4 + g1 / 16, g1 % 16 * 16 + g2 / 4, g2 % 4 * 64 + g3);
    }
  }

  lemma {:induction false} QuadsDecode(qs: seq<Quad>)
    ensures Decoded(QuadsText(qs)) == Some(QuadsBytes(qs))
  {
    hide Group, QuadText, QuadBytes;
    if qs != [] {
      QuadDecodes(qs[0]);
      QuadsDecode(qs[1..]);
      Cut(QuadText(qs[0]), QuadsText(qs[1..]));
    }
  }

  lemma {:induction false} QuadsOf(t: string) returns (qs: seq<Quad>)
    requires Decoded(t).Some?
    ensures QuadsText(qs) == t
    decreases |t|
  {
    hide Group, QuadText;
    if t == "" {
      qs := [];
    } else {
      var q := QuadOf(t[..4]);
      qs := QuadsOf(t[4..]);
      assert t == t[..4] + t[4..];
      var all := [q] + qs;
      assert all[1..] == qs;
      qs := all;
    }
  }

  /** A text decodes exactly when it is a row of groups of four, padded or not, and to their bytes. */
  lemma DecodeExact(t: string, s: seq<Byte>)
    ensures Decoded(t) == Some(s) <==> exists qs :: QuadsText(qs) == t && QuadsBytes(qs) == s
  {
    hide Decoded, QuadsText, QuadsBytes;
    if Decoded(t) == Some(s) {
      var qs := QuadsOf(t);
      QuadsDecode(qs);
    }
    forall qs | QuadsText(qs) == t ensures Decoded(t) == Some(QuadsBytes(qs)) {
      QuadsDecode(qs);
    }
  }
}
