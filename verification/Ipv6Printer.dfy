/** The printed form of an IPv6 address and when it is read back as the same address. */
module Ipv6Printer {
  import opened Wrappers
  import opened Ascii
  import opened Numerals
  import opened Ipv6Text

  type Address = b: seq<Byte> | |b| == ADDRESS witness Zeros(ADDRESS)

  function Group(b: Address, i: nat): (g: nat)
    requires i < 8
    ensures g < 0x1_0000
  {
    b[2 * i] as int * 256 + b[2 * i + 1] as int
  }

  /** Two zero groups in a row, from here on. */
  predicate RunAt(b: Address, i: nat) {
    i < 7 && Group(b, i) == 0 && Group(b, i + 1) == 0
  }

  function RunEnd(b: Address, i: nat): (e: nat)
    requires i <= 8
    ensures i <= e <= 8 && (e < 8 ==> Group(b, e) != 0) && forall k: nat :: i <= k < e ==> Group(b, k) == 0
    decreases 8 - i
  {
    if i < 8 && Group(b, i) == 0 then RunEnd(b, i + 1) else i
  }

  /** What is printed from group `idx` on; `pdouble` holds right behind a printed colon. */
  function PrintFrom(b: Address, idx: nat, pdouble: bool): string
    decreases 8 - idx
  {
    if idx >= 8 then ""
    else if RunAt(b, idx) then
      assert RunEnd(b, idx) > idx;
      (if pdouble then ":" else "::") + PrintFrom(b, RunEnd(b, idx), false)
    else Hex(Group(b, idx)) + if idx < 7 then ":" + PrintFrom(b, idx + 1, true) else ""
  }

  function Print(b: Address): string {
    PrintFrom(b, 0, false)
  }

  /** The longest possible runs of at least two zero groups, from group `i` on. */
  function RunCount(b: Address, i: nat): nat
    decreases 8 - i
  {
    if i >= 8 then 0
    else (if RunAt(b, i) && (i == 0 || Group(b, i - 1) != 0) then 1 else 0) + RunCount(b, i + 1)
  }

  /** The next group a run begins at, or 8. */
  function NextRun(b: Address, i: nat): (s: nat)
    requires i <= 8
    ensures i <= s <= 8 && (s < 8 ==> RunAt(b, s))
    decreases 8 - i
  {
    if i >= 8 then 8 else if RunAt(b, i) then i else NextRun(b, i + 1)
  }

  function Groups(b: Address, i: nat, j: nat): (es: seq<string>)
    requires i <= j <= 8
    ensures |es| == j - i
    decreases j - i
  {
    if i == j then [] else [Hex(Group(b, i))] + Groups(b, i + 1, j)
  }

  // Printed groups are read back

  lemma HexLength(n: nat)
    ensures n < 65536 ==> |Hex(n)| <= 4
  {
    HexDigits(n);
    HexDigits(n / 16);
    HexDigits(n / 16 / 16);
    HexDigits(n / 16 / 16 / 16);
  }

  lemma HexDigits(n: nat)
    ensures |Hex(n)| == if n < 16 then 1 else 1 + |Hex(n / 16)|
  {
  }

  lemma GroupText(b: Address, i: nat)
    requires i < 8
    ensures IsGroup(Hex(Group(b, i))) && TokenBytes(Hex(Group(b, i))) == b[2 * i..2 * i + 2]
  {
    hide Hex, IsHexText, HexValue;
    HexText(Group(b, i));
    HexLength(Group(b, i));
  }

  lemma {:induction false} GroupsText(b: Address, i: nat, j: nat)
    requires i <= j <= 8
    ensures AreGroups(Groups(b, i, j)) && AreElements(Groups(b, i, j)) && Bytes(Groups(b, i, j)) == b[2 * i..2 * j]
    decreases j - i
  {
    hide Group, Hex, IsHexText, HexValue, TokenBytes, IsGroup, IsQuad;
    var es := Groups(b, i, j);
    if i < j {
      GroupText(b, i);
      GroupsText(b, i + 1, j);
      assert es[1..] == Groups(b, i + 1, j);
      assert AreGroups(es);
      GroupBytes(es);
      BytesFirst(es);
      assert b[2 * i..2 * j] == b[2 * i..2 * i + 2] + b[2 * (i + 1)..2 * j];
    }
  }

  // The shape of the printed form

  /** Up to the next run, groups are printed with a colon behind each. */
  lemma {:induction false} PrintToRun(b: Address, idx: nat, pdouble: bool)
    requires idx < 8
    ensures var s := NextRun(b, idx);
      && (s == 8 ==> PrintFrom(b, idx, pdouble) == Join(Groups(b, idx, 8)))
      && (idx < s < 8 ==> PrintFrom(b, idx, pdouble) == Lead(Groups(b, idx, s)) + PrintFrom(b, s, true))
    decreases 8 - idx
  {
    hide Hex, Group, RunEnd, PrintFrom, Groups, Join, Lead;
    if !RunAt(b, idx) {
      var s := NextRun(b, idx);
      PrintGroup(b, idx, s, pdouble);
      if idx < 7 {
        PrintToRun(b, idx + 1, true);
      }
    }
  }

  lemma PrintGroup(b: Address, idx: nat, s: nat, pdouble: bool)
    requires !RunAt(b, idx) && idx < s <= 8
    ensures var first, es := Hex(Group(b, idx)), Groups(b, idx, s);
      && PrintFrom(b, idx, pdouble) == first + (if idx < 7 then ":" + PrintFrom(b, idx + 1, true) else "")
      && Lead(es) == first + ":" + Lead(Groups(b, idx + 1, s))
      && Join(es) == first + (if idx + 1 < s then ":" + Join(Groups(b, idx + 1, s)) else "")
      && Lead(Groups(b, idx + 1, idx + 1)) == ""
  {
    hide Hex, Group, RunEnd, RunAt;
    var es := Groups(b, idx, s);
    assert es[1..] == Groups(b, idx + 1, s);
  }

  /** The count is decided by the next run, provided `idx` is not inside one. */
  lemma {:induction false} CountFromRun(b: Address, idx: nat)
    requires idx <= 8 && (idx == 0 || idx == 8 || Group(b, idx - 1) != 0 || Group(b, idx) != 0)
    ensures var s := NextRun(b, idx);
      RunCount(b, idx) == if s == 8 then 0 else 1 + RunCount(b, RunEnd(b, s))
    decreases 8 - idx
  {
    if idx < 8 {
      if RunAt(b, idx) {
        CountInRun(b, idx + 1, RunEnd(b, idx));
      } else {
        CountFromRun(b, idx + 1);
      }
    }
  }

  lemma {:induction false} CountInRun(b: Address, i: nat, e: nat)
    requires 0 < i <= e <= 8 && forall k: nat :: i - 1 <= k < e ==> Group(b, k) == 0
    ensures RunCount(b, i) == RunCount(b, e)
    decreases e - i
  {
    if i < e {
      CountInRun(b, i + 1, e);
    }
  }

  // The round trip

  /** Around one run, the printed form is two lists of groups with a gap between them. */
  lemma PrintOneRun(b: Address)
    requires NextRun(b, 0) < 8
    ensures var s := NextRun(b, 0);
      PrintFrom(b, 0, false) == Join(Groups(b, 0, s)) + "::" + PrintFrom(b, RunEnd(b, s), false)
  {
    hide Hex, Group, RunEnd;
    var s := NextRun(b, 0);
    PrintToRun(b, 0, false);
    if s > 0 {
      LeadJoin(Groups(b, 0, s));
    }
  }

  lemma AroundZeros(b: Address, s: nat, e: nat)
    requires s <= e <= 8 && forall k: nat :: s <= k < e ==> Group(b, k) == 0
    ensures b == b[..2 * s] + Zeros(2 * (e - s)) + b[2 * e..]
  {
    forall i | 2 * s <= i < 2 * e ensures b[i] == 0 {
      assert Group(b, i / 2) == 0;
    }
  }

  /** Reading undoes printing for an address with at most one run of zero groups. */
  lemma ReadsBack(b: Address)
    requires RunCount(b, 0) <= 1
    ensures Parse(Print(b)) == Some(b)
  {
    hide Hex, Group, RunEnd, Scan, IsGroup, IsQuad, IsHexText, Bytes, AreElements, Join, Groups, AreGroups, Parse;
    var s := NextRun(b, 0);
    CountFromRun(b, 0);
    if s == 8 {
      PrintToRun(b, 0, false);
      GroupsText(b, 0, 8);
      Complete(Print(b), Groups(b, 0, 8), None, b);
    } else {
      var e := RunEnd(b, s);
      RunIsLong(b, s);
      CountFromRun(b, e);
      PrintOneRun(b);
      if e < 8 {
        PrintToRun(b, e, false);
      } else {
        NoBytes();
      }
      GroupsText(b, 0, s);
      GroupsText(b, e, 8);
      AroundZeros(b, s, e);
      assert b[2 * 0..2 * s] == b[..2 * s] && b[2 * e..2 * 8] == b[2 * e..];
      Complete(Print(b), Groups(b, 0, s), Some(Groups(b, e, 8)), b);
    }
  }

  lemma RunIsLong(b: Address, s: nat)
    requires RunAt(b, s)
    ensures RunEnd(b, s) >= s + 2
  {
    assert RunEnd(b, s) == RunEnd(b, s + 1) == RunEnd(b, s + 2);
  }

  /** No text with a second gap is accepted. */
  lemma TwoGaps(left: seq<string>, middle: seq<string>, rest: string)
    requires AreGroups(left) && AreGroups(middle) && |left| + |middle| <= 8
    ensures Parse((if left == [] then ":" else Lead(left)) + (":" + (Lead(middle) + (":" + rest)))) == None
  {
    hide Scan, IsGroup, IsQuad, Bytes, AreElements, Join;
    var second := Lead(middle) + (":" + rest);
    var text := (if left == [] then ":" else Lead(left)) + (":" + second);
    GroupBytes(left);
    GroupBytes(middle);
    var out := Bytes(left);
    ScanLead(middle, ":" + rest, out, Some(|out|));
    SecondGap(rest, out + Bytes(middle), |out|);
    ScanGap(second, out);
    if left == [] {
      assert text[1..] == ":" + second;
    } else {
      JoinStart(left);
      LeadJoin(left);
      ScanLead(left, ":" + second, [], None);
      assert [] + out == out;
    }
  }

  /** A second run is printed as a second gap. */
  lemma TwoGapsRejected(b: Address)
    requires RunCount(b, 0) >= 2
    ensures Parse(Print(b)) == None
  {
    hide Hex, Group, RunEnd, Scan, IsGroup, IsQuad, AreElements, AreGroups, Parse, Lead, Join, Groups;
    var s := NextRun(b, 0);
    CountFromRun(b, 0);
    var e := RunEnd(b, s);
    RunIsLong(b, s);
    CountFromRun(b, e);
    RunEndsOutside(b, s);
    var s2 := NextRun(b, e);
    PrintToRun(b, e, false);
    PrintOneRun(b);
    GroupsText(b, 0, s);
    GroupsText(b, e, s2);
    var left, middle, rest := Groups(b, 0, s), Groups(b, e, s2), PrintFrom(b, RunEnd(b, s2), false);
    TwoGaps(left, middle, rest);
    var second := Lead(middle) + (":" + rest);
    if s > 0 {
      LeadJoin(left);
    } else {
      assert left == [];
    }
    JoinLead(left, second);
    assert Print(b) == Join(left) + "::" + second;
  }

  lemma JoinLead(left: seq<string>, rest: string)
    ensures Join(left) + "::" + rest == (if left == [] then ":" else Lead(left)) + (":" + rest)
  {
    if left != [] {
      LeadJoin(left);
    }
  }

  lemma SecondGap(rest: string, out: seq<Byte>, gap: nat)
    requires gap <= |out|
    ensures Scan(":" + rest, out, Some(gap), "") == None
  {
  }

  lemma RunEndsOutside(b: Address, s: nat)
    requires s < 8
    ensures var e := RunEnd(b, s);
      e < 8 ==> NextRun(b, e) > e
  {
  }

  /** The printed form is read back exactly when at most one run of zero groups was shortened; otherwise
      it is no address at all. */
  lemma RoundTrip(b: Address)
    ensures Parse(Print(b)) == if RunCount(b, 0) <= 1 then Some(b) else None
  {
    if RunCount(b, 0) <= 1 {
      ReadsBack(b);
    } else {
      TwoGapsRejected(b);
    }
  }
}
