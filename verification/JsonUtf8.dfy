/** When the strings the JSON parser produces are UTF-8 (RFC 3629). */
module JsonUtf8 {
  import opened Wrappers
  import opened Ascii
  import opened JsonSyntax
  import opened JsonGrammar
  import opened JsonRoundTrip

  /** The length of a sequence by its first byte, 0 if none begins with it. */
  function SequenceLength(c: char): nat {
    var b := c as int;
    if b < 0x80 then 1
    else if 0xC2 <= b < 0xE0 then 2
    else if 0xE0 <= b < 0xF0 then 3
    else if 0xF0 <= b < 0xF5 then 4
    else 0
  }

  predicate ValidUtf8(s: string) {
    s == "" ||
    var n := SequenceLength(s[0]);
    0 < n <= |s| && DecodeUtf8(s[..n]).Some? && ValidUtf8(s[n..])
  }

  predicate ArePlain(ps: seq<Piece>) {
    forall k :: 0 <= k < |ps| ==> ps[k].Plain?
  }

  function PlainBytes(ps: seq<Piece>): string
    requires ArePlain(ps)
  {
    seq(|ps|, k requires 0 <= k < |ps| => ps[k].c)
  }

  /** The bytes that stand in the text as they are make whole sequences; an escape ends a sequence. */
  predicate PlainValid(ps: seq<Piece>) {
    ps == [] ||
    if !ps[0].Plain? then PlainValid(ps[1..])
    else
      var n := SequenceLength(ps[0].c);
      && 0 < n <= |ps| && ArePlain(ps[..n])
      && DecodeUtf8(PlainBytes(ps[..n])).Some? && PlainValid(ps[n..])
  }

  /** Every surrogate escape stands in a pair: a lead directly before a trail. */
  predicate SurrogatesPaired(ps: seq<Piece>)
    requires PiecesOk(ps)
  {
    ps == [] ||
    if !ps[0].Unicode? || !IsSurrogate(CodePoint(ps[0].digits)) then SurrogatesPaired(ps[1..])
    else
      && |ps| > 1 && ps[1].Unicode?
      && IsLead(CodePoint(ps[0].digits)) && IsTrail(CodePoint(ps[1].digits))
      && SurrogatesPaired(ps[2..])
  }

  /** A sequence in front of anything. */
  lemma ValidBehind(s: string, rest: string)
    requires s != "" && SequenceLength(s[0]) == |s|
    ensures ValidUtf8(s + rest) <==> DecodeUtf8(s).Some? && ValidUtf8(rest)
  {
    hide DecodeUtf8;
    assert (s + rest)[..|s|] == s && (s + rest)[|s|..] == rest;
  }

  lemma EncodedLength(pt: nat)
    requires pt <= 0x10FFFF
    ensures Utf8(pt) != "" && SequenceLength(Utf8(pt)[0]) == |Utf8(pt)| && !IsContinuation(Utf8(pt)[0])
  {
  }

  lemma EncodedValid(pt: nat, rest: string)
    requires pt <= 0x10FFFF
    ensures ValidUtf8(Utf8(pt) + rest) <==> !IsSurrogate(pt) && ValidUtf8(rest)
  {
    EncodedLength(pt);
    Utf8Decodes(pt);
    hide Utf8, SequenceLength;
    ValidBehind(Utf8(pt), rest);
  }

  lemma EscapedValid(c: char, rest: string)
    requires IsEscape(c)
    ensures ValidUtf8([Unescape(c)] + rest) <==> ValidUtf8(rest)
  {
    ValidBehind([Unescape(c)], rest);
  }

  lemma {:induction false} PlainFront(ps: seq<Piece>, n: nat)
    requires PiecesOk(ps) && n <= |ps| && ArePlain(ps[..n])
    ensures Decoded(ps) == PlainBytes(ps[..n]) + Decoded(ps[n..])
    ensures SurrogatesPaired(ps) <==> SurrogatesPaired(ps[n..])
    decreases n
  {
    hide CodePoint, Utf8, Combine, Unescape, IsSurrogate;
    if n == 0 {
      assert ps[0..] == ps;
    } else {
      assert ps[0] == ps[..n][0];
      assert ps[1..][..n - 1] == ps[..n][1..] && ps[1..][n - 1..] == ps[n..];
      PlainFront(ps[1..], n - 1);
      assert PlainBytes(ps[..n]) == [ps[0].c] + PlainBytes(ps[1..][..n - 1]);
    }
  }

  /** An escape never continues a sequence. */
  lemma EscapeStarts(ps: seq<Piece>)
    requires PiecesOk(ps) && ps != [] && !ps[0].Plain?
    ensures Decoded(ps) != "" && !IsContinuation(Decoded(ps)[0])
  {
    if ps[0].Unicode? {
      var cp := CodePoint(ps[0].digits);
      EncodedLength(cp);
      if |ps| > 1 && ps[1].Unicode? && IsLead(cp) && IsTrail(CodePoint(ps[1].digits)) {
        EncodedLength(Combine(cp, CodePoint(ps[1].digits)));
      }
    }
  }

  /** A sequence has nothing but continuations behind its first byte. */
  lemma Interrupted(s: string, k: nat)
    requires 1 <= k < |s| && !IsContinuation(s[k])
    ensures DecodeUtf8(s).None?
  {
  }

  /** How many of the first `n` pieces are plain before one is not. */
  function PlainRun(ps: seq<Piece>, n: nat): (m: nat)
    ensures m <= n && m <= |ps| && ArePlain(ps[..m])
    ensures m < n && m < |ps| ==> !ps[m].Plain?
  {
    if n == 0 || ps == [] || !ps[0].Plain? then 0
    else
      var m := 1 + PlainRun(ps[1..], n - 1);
      assert forall k :: 1 <= k < m ==> ps[k] == ps[1..][..m - 1][k - 1];
      m
  }

  /** A plain byte begins a sequence only with plain bytes behind it. */
  lemma PlainStep(ps: seq<Piece>)
    requires PiecesOk(ps) && ps != [] && ps[0].Plain?
    ensures var n := SequenceLength(ps[0].c);
      ValidUtf8(Decoded(ps)) <==>
      && 0 < n <= |ps| && ArePlain(ps[..n])
      && DecodeUtf8(PlainBytes(ps[..n])).Some? && ValidUtf8(Decoded(ps[n..]))
  {
    hide DecodeUtf8, Decoded, SequenceLength, IsContinuation, ValidUtf8;
    var n, s := SequenceLength(ps[0].c), Decoded(ps);
    var m := PlainRun(ps, n);
    PlainFront(ps, m);
    assert m > 0 ==> s[0] == ps[..m][0].c;
    FirstByte(ps);
    if m == n && n > 0 {
      ValidBehind(PlainBytes(ps[..n]), Decoded(ps[n..]));
    } else {
      ValidStart(s);
      if 0 < n <= |ps| && m < n {
        NotAllPlain(ps, n, m);
      }
      if m < |ps| && 0 < n <= |s| {
        EscapeStarts(ps[m..]);
        assert s[..n][m] == Decoded(ps[m..])[0];
        Interrupted(s[..n], m);
      } else if m == |ps| {
        assert ps[m..] == [];
        NothingLeft();
        assert |s| == m;
      }
    }
  }

  lemma NotAllPlain(ps: seq<Piece>, n: nat, m: nat)
    requires m < n <= |ps| && !ps[m].Plain?
    ensures !ArePlain(ps[..n])
  {
    assert ps[..n][m] == ps[m];
  }

  lemma FirstByte(ps: seq<Piece>)
    requires PiecesOk(ps) && ps != [] && ps[0].Plain?
    ensures Decoded(ps) != "" && Decoded(ps)[0] == ps[0].c
  {
  }

  lemma NothingLeft()
    ensures Decoded([]) == ""
  {
  }

  lemma ValidStart(s: string)
    requires s != ""
    ensures ValidUtf8(s) ==> 0 < SequenceLength(s[0]) <= |s| && DecodeUtf8(s[..SequenceLength(s[0])]).Some?
  {
  }

  /** A string is UTF-8 exactly when its plain bytes are and no surrogate escape stands alone. */
  lemma {:induction false} DecodedIsUtf8(ps: seq<Piece>)
    requires PiecesOk(ps)
    ensures ValidUtf8(Decoded(ps)) <==> PlainValid(ps) && SurrogatesPaired(ps)
    decreases |ps|
  {
    hide ValidUtf8, DecodeUtf8, Utf8, CodePoint, Combine, SequenceLength;
    if ps == [] {
      ValidNothing();
    } else {
      match ps[0] {
        case Plain(c) =>
          PlainStep(ps);
          var n := SequenceLength(c);
          if 0 < n <= |ps| && ArePlain(ps[..n]) {
            DecodedIsUtf8(ps[n..]);
            PlainFront(ps, n);
          }
        case Escaped(c) =>
          EscapedValid(c, Decoded(ps[1..]));
          DecodedIsUtf8(ps[1..]);
        case Unicode(digits) =>
          UnicodeStep(ps);
          if |ps| > 1 && ps[1].Unicode? && IsLead(CodePoint(digits)) && IsTrail(CodePoint(ps[1].digits)) {
            DecodedIsUtf8(ps[2..]);
            assert ps[1..][1..] == ps[2..];
            assert PlainValid(ps) <==> PlainValid(ps[1..]);
          } else {
            DecodedIsUtf8(ps[1..]);
          }
      }
    }
  }

  lemma ValidNothing()
    ensures ValidUtf8("")
  {
  }

  lemma UnicodeStep(ps: seq<Piece>)
    requires PiecesOk(ps) && ps != [] && ps[0].Unicode?
    ensures var cp := CodePoint(ps[0].digits);
      if |ps| > 1 && ps[1].Unicode? && IsLead(cp) && IsTrail(CodePoint(ps[1].digits))
      then ValidUtf8(Decoded(ps)) <==> ValidUtf8(Decoded(ps[2..]))
      else ValidUtf8(Decoded(ps)) <==> !IsSurrogate(cp) && ValidUtf8(Decoded(ps[1..]))
  {
    hide ValidUtf8, Utf8, CodePoint;
    var cp := CodePoint(ps[0].digits);
    if |ps| > 1 && ps[1].Unicode? && IsLead(cp) && IsTrail(CodePoint(ps[1].digits)) {
      EncodedValid(Combine(cp, CodePoint(ps[1].digits)), Decoded(ps[2..]));
    } else {
      EncodedValid(cp, Decoded(ps[1..]));
    }
  }

  /** A text with a lone surrogate is accepted, and its value is no UTF-8. */
  lemma LoneSurrogate()
    ensures var ps := [Unicode("d800")];
      && Parse("\"\\ud800\"") == Done(Str(Decoded(ps)), "")
      && Decoded(ps) == Chars([0xED, 0xA0, 0x80]) && !ValidUtf8(Decoded(ps))
  {
    var ps := [Unicode("d800")];
    LoneText(ps);
    LoneBytes(ps);
    DecodedIsUtf8(ps);
    hide CodePoint, ValidUtf8, Decoded, Parse, PlainValid;
    assert IsSurrogate(CodePoint(ps[0].digits)) && |ps| == 1;
  }

  lemma LoneBytes(ps: seq<Piece>)
    requires ps == [Unicode("d800")]
    ensures PiecesOk(ps) && CodePoint("d800") == 0xD800 && Decoded(ps) == Chars([0xED, 0xA0, 0x80])
  {
    assert CodePoint("d800") == 0xD800;
    hide CodePoint;
    assert ps[1..] == [] && Decoded(ps[1..]) == "";
    assert Decoded(ps) == Utf8(0xD800) + "";
  }

  lemma LoneText(ps: seq<Piece>)
    requires ps == [Unicode("d800")]
    ensures PiecesOk(ps) && Parse("\"\\ud800\"") == Done(Str(Decoded(ps)), "")
  {
    var d := Doc("", StringBody(ps), "");
    RoundTrip(d);
    hide Parse, Decoded;
    assert PrintPieces(ps[1..]) == "";
    assert PrintPieces(ps) == "\\ud800";
    assert Print(d) == "\"\\ud800\"";
  }
}
