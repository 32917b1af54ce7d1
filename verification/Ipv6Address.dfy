/** The IPv6 parser and printer, over a byte array that the parser expands in place. */
module Ipv6Addresses {
  import opened Wrappers
  import opened Ascii
  import opened Numerals
  import opened Ipv6Text
  import opened Ipv6Printer

  /** Copies front to back; a destination below the source may overlap it. */
  method FtMemcpy(a: array<Byte>, dest: nat, src: nat, length: nat)
    requires dest <= src && src + length <= a.Length
    modifies a
    ensures a[dest..dest + length] == old(a[src..src + length])
    ensures a[..dest] == old(a[..dest]) && a[dest + length..] == old(a[dest + length..])
  {
    if dest == src {
      return;
    }
    var idx := 0;
    while idx < length
      invariant 0 <= idx <= length
      invariant forall k | dest <= k < dest + idx :: a[k] == old(a[k + (src - dest)])
      invariant forall k | 0 <= k < a.Length && !(dest <= k < dest + idx) :: a[k] == old(a[k])
    {
      a[dest + idx] := a[src + idx];
      idx := idx + 1;
    }
  }

  /** Moves a stretch of the array to a place that may overlap it, in either direction. */
  method FtMemmove(a: array<Byte>, dest: nat, src: nat, length: nat)
    requires dest + length <= a.Length && src + length <= a.Length
    modifies a
    ensures a[dest..dest + length] == old(a[src..src + length])
    ensures a[..dest] == old(a[..dest]) && a[dest + length..] == old(a[dest + length..])
  {
    if length == 0 || dest == src {
      return;
    }
    if dest < src {
      FtMemcpy(a, dest, src, length);
      return;
    }
    var idx := length;
    while idx > 0
      invariant 0 <= idx <= length
      invariant forall k | dest + idx <= k < dest + length :: a[k] == old(a[k - (dest - src)])
      invariant forall k | 0 <= k < a.Length && !(dest + idx <= k < dest + length) :: a[k] == old(a[k])
    {
      idx := idx - 1;
      a[dest + idx] := a[src + idx];
    }
  }

  method FtMemset(a: array<Byte>, dest: nat, length: nat)
    requires dest + length <= a.Length
    modifies a
    ensures a[dest..dest + length] == Zeros(length)
    ensures a[..dest] == old(a[..dest]) && a[dest + length..] == old(a[dest + length..])
  {
    forall k | dest <= k < dest + length {
      a[k] := 0;
    }
  }

  /** Reads dotted decimal into four bytes of `dst`, which stay as they are when the text is refused. */
  method LocalInetPton4(src: string, dst: array<Byte>, at: nat) returns (ok: bool)
    requires at + 4 <= dst.Length
    modifies dst
    ensures ok == ParseQuad(src).Some?
    ensures ok ==> dst[at..at + 4] == ParseQuad(src).value
    ensures dst[..at] == old(dst[..at]) && dst[at + 4..] == old(dst[at + 4..])
    ensures !ok ==> dst[..] == old(dst[..])
  {
    var tmp := new Byte[4](_ => 0);
    var tp: nat, sawDigit, octets, i := 0, false, 0, 0;
    assert tmp[..1] == [0] && src[0..] == src;
    while i < |src|
      invariant 0 <= i <= |src| && tp < 4 && fresh(tmp) && dst[..] == old(dst[..])
      invariant octets == if sawDigit then tp + 1 else tp
      invariant Quad(src[i..], tmp[..tp + 1], sawDigit) == ParseQuad(src)
    {
      var ch := src[i];
      ghost var out := tmp[..tp + 1];
      assert src[i..][1..] == src[i + 1..] && out[..|out| - 1] == tmp[..tp];
      i := i + 1;
      if IsDigit(ch) {
        var nu := tmp[tp] as int * 10 + HexDecode(ch);
        if sawDigit && tmp[tp] == 0 {
          return false;
        }
        if nu > 255 {
          return false;
        }
        tmp[tp] := nu;
        assert tmp[..tp + 1] == out[..|out| - 1] + [nu];
        if !sawDigit {
          octets := octets + 1;
          sawDigit := true;
        }
      } else if ch == '.' && sawDigit {
        if octets == 4 {
          return false;
        }
        tp := tp + 1;
        tmp[tp] := 0;
        sawDigit := false;
        assert tmp[..tp + 1] == out + [0];
      } else {
        return false;
      }
    }
    if octets < 4 {
      return false;
    }
    forall k | 0 <= k < 4 {
      dst[at + k] := tmp[k];
    }
    assert dst[at..at + 4] == tmp[..4];
    return true;
  }

  method PutGroup(tmp: array<Byte>, tp: nat, val: nat)
    requires tp + 2 <= tmp.Length && val < 0x1_0000
    modifies tmp
    ensures tmp[..tp + 2] == old(tmp[..tp]) + [val / 256, val % 256]
  {
    tmp[tp] := val / 256 % 256;
    tmp[tp + 1] := val % 256;
  }

  /** The value of a hexadecimal digit, or -1. */
  function HexDigitValue(ch: char): (d: int)
    ensures d >= 0 <==> IsXdigit(ch)
    ensures d >= 0 ==> d == XdigitValue(ch)
  {
    if '0' <= ch <= '9' then ch as int - '0' as int
    else if 'a' <= ch <= 'f' then ch as int - 'a' as int + 10
    else if 'A' <= ch <= 'F' then ch as int - 'A' as int + 10
    else -1
  }

  /** Moves what was read behind the gap to the end and fills the gap with zeros, within the array. */
  method ExpandInPlace(tmp: array<Byte>, colonp: nat, tp: nat)
    requires tmp.Length == ADDRESS && colonp <= tp < ADDRESS
    modifies tmp
    ensures Expand(old(tmp[..tp]), Some(colonp)) == Some(tmp[..])
  {
    ghost var was := tmp[..tp];
    var n := tp - colonp;
    FtMemmove(tmp, ADDRESS - n, colonp, n);
    assert tmp[..colonp] == was[..colonp];
    assert tmp[ADDRESS - n..] == tmp[ADDRESS - n..ADDRESS - n + n] == was[colonp..];
    FtMemset(tmp, colonp, ADDRESS - n - colonp);
    assert tmp[colonp..ADDRESS - n] == tmp[colonp..colonp + (ADDRESS - n - colonp)] == Zeros(ADDRESS - |was|);
    assert tmp[ADDRESS - n..] == was[colonp..] && tmp[..colonp] == was[..colonp];
    assert tmp[..] == tmp[..colonp] + tmp[colonp..ADDRESS - n] + tmp[ADDRESS - n..];
  }

  // One step of the loop for each kind of character, `rest` being unread and `tok` the group so far

  lemma OneDigit(rest: string, out: seq<Byte>, gap: Option<nat>, tok: string)
    requires rest != "" && IsHexText(tok) && |tok| <= 4 && IsXdigit(rest[0])
    requires gap.Some? ==> gap.value <= |out|
    ensures |tok| == 4 ==> Scan(rest, out, gap, tok) == None
    ensures |tok| < 4 ==>
              && IsHexText(tok + [rest[0]])
              && HexValue(tok + [rest[0]]) == 16 * HexValue(tok) + XdigitValue(rest[0]) < 0x1_0000
              && Scan(rest, out, gap, tok) == Scan(rest[1..], out, gap, tok + [rest[0]])
  {
    var t := tok + [rest[0]];
    assert t[..|t| - 1] == tok;
    assert IsHexText(t);
  }

  lemma OneColon(rest: string, out: seq<Byte>, gap: Option<nat>, tok: string)
    requires rest != "" && IsHexText(tok) && |tok| <= 4 && rest[0] == ':'
    requires gap.Some? ==> gap.value <= |out|
    ensures IsHexText("") && HexValue("") == 0
    ensures tok == "" ==> Scan(rest, out, gap, tok) == if gap.Some? then None else Scan(rest[1..], out, Some(|out|), "")
    ensures tok != "" ==>
              Scan(rest, out, gap, tok)
              == if rest[1..] == "" || |out| + 2 > ADDRESS then None
                 else Scan(rest[1..], out + [HexValue(tok) / 256, HexValue(tok) % 256], gap, "")
  {
  }

  lemma OneDot(rest: string, out: seq<Byte>, gap: Option<nat>, tok: string)
    requires rest != "" && IsHexText(tok) && |tok| <= 4 && !IsXdigit(rest[0]) && rest[0] != ':'
    requires gap.Some? ==> gap.value <= |out|
    ensures var quad := ParseQuad(tok + rest);
      Scan(rest, out, gap, tok)
      == if rest[0] == '.' && |out| + 4 <= ADDRESS && quad.Some? then Expand(out + quad.value, gap) else None
  {
    hide Expand, ParseQuad;
  }

  lemma AtEnd(out: seq<Byte>, gap: Option<nat>, tok: string)
    requires IsHexText(tok) && |tok| <= 4 && (gap.Some? ==> gap.value <= |out|)
    ensures Scan("", out, gap, tok)
         == if tok == "" then Expand(out, gap)
            else if |out| + 2 > ADDRESS then None else Expand(out + TokenBytes(tok), gap)
  {
  }

  /** The state of the loop: `out` has been stored, the group from `curtok` on is being read. */
  ghost predicate Reading(text: string, curtok: nat, src: nat, colonp: Option<nat>, xdigits: nat, val: nat,
                          out: seq<Byte>)
  {
    && curtok <= src <= |text| && |out| <= ADDRESS && (colonp.Some? ==> colonp.value <= |out|)
    && var tok := text[curtok..src];
    IsHexText(tok) && xdigits == |tok| <= 4 && val == HexValue(tok)
    && Scan(text[src..], out, colonp, tok) == Parse(text)
  }

  lemma ReadDigit(text: string, curtok: nat, src: nat, colonp: Option<nat>, xdigits: nat, val: nat, out: seq<Byte>)
    requires Reading(text, curtok, src, colonp, xdigits, val, out) && src < |text| && IsXdigit(text[src])
    ensures xdigits <= 4 && (xdigits == 4 ==> Parse(text) == None)
    ensures xdigits < 4 ==> val * 16 + XdigitValue(text[src]) < 0x1_0000
    ensures xdigits < 4 ==>
              Reading(text, curtok, src + 1, colonp, xdigits + 1, val * 16 + XdigitValue(text[src]), out)
  {
    hide Scan, Parse, HexValue, IsXdigit, XdigitValue;
    var tok, rest := text[curtok..src], text[src..];
    assert rest[1..] == text[src + 1..] && text[curtok..src + 1] == tok + [text[src]];
    OneDigit(rest, out, colonp, tok);
  }

  lemma ReadColon(text: string, curtok: nat, src: nat, colonp: Option<nat>, xdigits: nat, val: nat, out: seq<Byte>)
    requires Reading(text, curtok, src, colonp, xdigits, val, out) && src < |text| && text[src] == ':'
    ensures xdigits == 0 && colonp.Some? ==> Parse(text) == None
    ensures xdigits == 0 && colonp.None? ==> Reading(text, src + 1, src + 1, Some(|out|), 0, val, out)
    ensures xdigits > 0 && (src + 1 == |text| || |out| + 2 > ADDRESS) ==> Parse(text) == None
    ensures xdigits > 0 && src + 1 < |text| && |out| + 2 <= ADDRESS ==>
              val < 0x1_0000 && Reading(text, src + 1, src + 1, colonp, 0, 0, out + [val / 256, val % 256])
  {
    hide Scan, Parse;
    var tok, rest := text[curtok..src], text[src..];
    assert rest[1..] == text[src + 1..] && text[src + 1..src + 1] == "";
    OneColon(rest, out, colonp, tok);
  }

  lemma ReadOther(text: string, curtok: nat, src: nat, colonp: Option<nat>, xdigits: nat, val: nat, out: seq<Byte>)
    requires Reading(text, curtok, src, colonp, xdigits, val, out)
    requires src < |text| && !IsXdigit(text[src]) && text[src] != ':'
    ensures curtok <= |text|
    ensures var quad := ParseQuad(text[curtok..]);
      Parse(text) == if text[src] == '.' && |out| + 4 <= ADDRESS && quad.Some? then Expand(out + quad.value, colonp)
                     else None
  {
    hide Scan, Parse, Expand, ParseQuad;
    assert text[curtok..] == text[curtok..src] + text[src..];
    OneDot(text[src..], out, colonp, text[curtok..src]);
  }

  lemma ReadEnd(text: string, curtok: nat, colonp: Option<nat>, xdigits: nat, val: nat, out: seq<Byte>)
    requires Reading(text, curtok, |text|, colonp, xdigits, val, out)
    ensures val < 0x1_0000
    ensures Parse(text)
         == if xdigits == 0 then Expand(out, colonp)
            else if |out| + 2 > ADDRESS then None else Expand(out + [val / 256, val % 256], colonp)
  {
    hide Scan, Parse, Expand;
    assert text[|text|..] == "";
    AtEnd(out, colonp, text[curtok..|text|]);
  }

  /** Reads an address, filling a temporary array from the front. */
  method LocalInetPton6(text: string) returns (r: Option<seq<Byte>>)
    ensures r == Parse(text)
  {
    var tmp := new Byte[ADDRESS](_ => 0);
    var tp, src: nat, colonp: Option<nat> := 0, 0, None;
    if text == "" {
      return None;
    }
    if text[0] == ':' {
      src := 1;
      if src == |text| || text[src] != ':' {
        return None;
      }
    }
    var curtok, xdigitsSeen, val := src, 0, 0;
    ghost var out: seq<Byte> := [];
    assert text[curtok..src] == "" && HexValue("") == 0;
    while src < |text|
      invariant 0 <= src <= |text| && 0 <= tp <= ADDRESS && out == tmp[..tp] && (colonp.Some? ==> colonp.value <= tp)
      invariant 0 <= xdigitsSeen && 0 <= val < 0x1_0000
      invariant 0 <= curtok && Reading(text, curtok, src, colonp, xdigitsSeen, val, out)
    {
      hide Parse, Expand, ParseQuad, Reading, IsXdigit, XdigitValue;
      var ch := text[src];
      src := src + 1;
      var digit := HexDigitValue(ch);
      if digit >= 0 {
        ReadDigit(text, curtok, src - 1, colonp, xdigitsSeen, val, out);
        if xdigitsSeen == 4 {
          return None;
        }
        val := val * 16 + digit;
        xdigitsSeen := xdigitsSeen + 1;
        continue;
      }
      if ch == ':' {
        ReadColon(text, curtok, src - 1, colonp, xdigitsSeen, val, out);
        curtok := src;
        if xdigitsSeen == 0 {
          if colonp.Some? {
            return None;
          }
          colonp := Some(tp);
          continue;
        }
        if src == |text| || tp + 2 > ADDRESS {
          return None;
        }
        PutGroup(tmp, tp, val);
        out := out + [val / 256, val % 256];
        tp := tp + 2;
        xdigitsSeen, val := 0, 0;
        continue;
      }
      ReadOther(text, curtok, src - 1, colonp, xdigitsSeen, val, out);
      r := ReadQuadTail(text[curtok..], ch, tmp, tp, colonp);
      return;
    }
    hide Parse, Reading;
    ReadEnd(text, curtok, colonp, xdigitsSeen, val, out);
    r := Conclude(tmp, tp, colonp, xdigitsSeen > 0, val);
  }

  /** Dotted decimal can only be the end of the text. */
  method ReadQuadTail(text: string, ch: char, tmp: array<Byte>, tp: nat, colonp: Option<nat>)
    returns (r: Option<seq<Byte>>)
    requires tmp.Length == ADDRESS && tp <= ADDRESS && (colonp.Some? ==> colonp.value <= tp)
    modifies tmp
    ensures r == if ch == '.' && tp + 4 <= ADDRESS && ParseQuad(text).Some? then
                   Expand(old(tmp[..tp]) + ParseQuad(text).value, colonp) else None
  {
    if ch != '.' || tp + 4 > ADDRESS {
      return None;
    }
    ghost var out := tmp[..tp];
    var ok := LocalInetPton4(text, tmp, tp);
    if !ok {
      return None;
    }
    assert tmp[..tp + 4] == out + tmp[tp..tp + 4];
    r := Conclude(tmp, tp + 4, colonp, false, 0);
  }

  /** The end of the text: the last group, then the gap. */
  method Conclude(tmp: array<Byte>, end: nat, colonp: Option<nat>, group: bool, val: nat) returns (r: Option<seq<Byte>>)
    requires tmp.Length == ADDRESS && end <= ADDRESS && (colonp.Some? ==> colonp.value <= end) && val < 0x1_0000
    modifies tmp
    ensures !group ==> r == Expand(old(tmp[..end]), colonp)
    ensures group ==>
              r == if end + 2 > ADDRESS then None else Expand(old(tmp[..end]) + [val / 256, val % 256], colonp)
  {
    var tp := end;
    if group {
      if tp + 2 > ADDRESS {
        return None;
      }
      PutGroup(tmp, tp, val);
      tp := tp + 2;
    }
    if colonp.Some? {
      if tp == ADDRESS {
        return None;
      }
      ExpandInPlace(tmp, colonp.value, tp);
      tp := ADDRESS;
    }
    if tp != ADDRESS {
      return None;
    }
    assert tmp[..] == tmp[..ADDRESS];
    return Some(tmp[..]);
  }

  /** A run of zero groups is skipped and leaves two colons, one of them perhaps already printed. */
  method SkipRun(b: Address, start: nat) returns (idx: nat)
    requires RunAt(b, start)
    ensures idx == RunEnd(b, start) && start < idx <= 8
  {
    idx := start;
    while idx < 8 && Group(b, idx) == 0
      invariant start <= idx <= 8 && RunEnd(b, idx) == RunEnd(b, start)
      decreases 8 - idx
    {
      idx := idx + 1;
    }
    RunIsLong(b, start);
  }

  lemma PrintOne(b: Address, idx: nat, pdouble: bool, os: string)
    requires idx < 8 && !RunAt(b, idx)
    ensures var digits := Hex(Group(b, idx));
      os + PrintFrom(b, idx, pdouble)
      == if idx < 7 then os + digits + ":" + PrintFrom(b, idx + 1, true)
         else os + digits + PrintFrom(b, idx + 1, pdouble)
  {
    hide Hex, Group;
  }

  /** The printer's loop over the eight groups. */
  method PrintAddress(b: Address) returns (os: string)
    ensures os == Print(b)
  {
    os := "";
    var idx, pdouble := 0, false;
    while idx < 8
      invariant 0 <= idx <= 8 && Print(b) == os + PrintFrom(b, idx, pdouble)
      decreases 8 - idx
    {
      hide Hex, RunEnd, Print, Group;
      ghost var rest := PrintFrom(b, idx, pdouble);
      if Group(b, idx) == 0 && idx != 7 && Group(b, idx + 1) == 0 {
        var end := SkipRun(b, idx);
        var colons := if pdouble then ":" else "::";
        assert rest == colons + PrintFrom(b, end, false);
        Associate(os, colons, PrintFrom(b, end, false));
        os := os + colons;
        idx := end;
        pdouble := false;
        continue;
      }
      var digits := Uint64ToHexstring(Group(b, idx));
      PrintOne(b, idx, pdouble, os);
      os := os + digits;
      if idx < 7 {
        pdouble := true;
        os := os + ":";
      }
      idx := idx + 1;
    }
  }
}
