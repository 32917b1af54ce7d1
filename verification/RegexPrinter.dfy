/**
 A printer for node programs.  The compiler undoes it, so it fixes what the compiler must
 produce for each construct; printing what the compiler accepts gives an equivalent pattern.
 */
module RegexPrinter {
  import opened Wrappers
  import opened Ascii
  import opened Numerals
  import opened RegexNodes
  import opened RegexCompiler

  predicate IsSpecial(c: char) { c in {'^', '$', '.', '*', '+', '?', '\\', '[', '{'} }

  function PrintNode(n: Node): string {
    match n
    case Begin => "^"
    case End => "$"
    case Quant(min, max) => "{" + Decimal(min) + "," + Decimal(max) + "}"
    case LQuant(min, max) => "{" + Decimal(min) + "," + Decimal(max) + "}?"
    case QMark => "?"
    case LQMark => "??"
    case Star => "*"
    case LStar => "*?"
    case Plus => "+"
    case LPlus => "+"
    case Dot => "."
    case Char(c) => if IsSpecial(c) then ['\\', c] else [c]
    case Class(s) => "[" + s + "]"
    case NClass(s) => "[^" + s + "]"
    case Digit => "\\d"
    case NDigit => "\\D"
    case Alpha => "\\w"
    case NAlpha => "\\W"
    case Space => "\\s"
    case NSpace => "\\S"
    case _ => ""
  }

  function Print(p: seq<Node>): string {
    if p == [] then "" else PrintNode(p[0]) + Print(p[1..])
  }

  /** The contents can stand between brackets when `rest` follows the closing bracket. */
  ghost predicate BracketPrintable(s: string, used: nat, rest: string) {
    && '\\' !in s && ']' !in s
    && (s != "" ==> used + |s| <= BUFFER_LEN - 1)
    && (forall k :: 0 <= k < |s| && s[k] == '-' ==> DashAccepted(s + "]" + rest, k))
  }

  function UsedAfter(n: Node, used: nat): nat {
    if n.Class? || n.NClass? then used + |n.contents| + 1 else used
  }

  /** What a program must satisfy to be written as a pattern: its kinds are the ones the compiler
      produces, counts are in range and quantifiers placed, bracket contents fit. */
  ghost predicate Printable(p: seq<Node>, quantifiable: bool, used: nat) {
    p != [] &&
    if p[0].NoNode? then p == [NoNode]
    else if IsQuantifier(p[0]) then
      && quantifiable && !p[0].Plus?
      && MinCount(p[0]) <= MaxCount(p[0])
      && (p[0].Quant? || p[0].LQuant? ==> MaxCount(p[0]) <= MAX_QUANTITY)
      && Printable(p[1..], false, used)
    else if p[0].Class? || p[0].NClass? then
      && (p[0].Class? && p[0].contents != "" ==> p[0].contents[0] != '^')
      && BracketPrintable(p[0].contents, used, Print(p[1..]))
      && Printable(p[1..], true, used + |p[0].contents| + 1)
    else
      !p[0].Unset? && Printable(p[1..], IsOneChar(p[0]), used)
  }

  lemma DecimalSplit(n: nat)
    ensures var s := Decimal(n); var last := s[|s| - 1];
      && IsDigit(last) && HexDecode(last) == n % 10
      && (n < 10 ==> s == [last])
      && (n >= 10 ==> s == Decimal(n / 10) + [last])
  {
  }

  ghost predicate Reads(pattern: string, i: nat, s: string) {
    i + |s| <= |pattern| && forall k :: 0 <= k < |s| ==> pattern[i + k] == s[k]
  }

  lemma ReadsSplit(pattern: string, i: nat, s: string, t: string)
    requires Reads(pattern, i, s + t)
    ensures Reads(pattern, i, s) && Reads(pattern, i + |s|, t)
  {
    forall k | 0 <= k < |s| ensures pattern[i + k] == s[k] {
      assert (s + t)[k] == s[k];
    }
    forall k | 0 <= k < |t| ensures pattern[i + |s| + k] == t[k] {
      assert (s + t)[|s| + k] == t[k];
    }
  }

  lemma {:induction false} ReadMinDigits(pattern: string, i: nat, n: nat)
    requires n < WORD && Reads(pattern, i, Decimal(n)) && i + |Decimal(n)| < |pattern|
    ensures var e := i + |Decimal(n)|;
      && (IsDigit(pattern[e]) ==> ReadMin(pattern, i, 0) == ReadMin(pattern, e, n))
      && (pattern[e] == ',' || pattern[e] == '}' ==> ReadMin(pattern, i, 0) == Some(Number(n, e)))
  {
    DecimalSplit(n);
    var s := Decimal(n);
    var last := s[|s| - 1];
    if n >= 10 {
      ReadsSplit(pattern, i, Decimal(n / 10), [last]);
      ReadMinDigits(pattern, i, n / 10);
    }
  }

  lemma {:induction false} ReadMaxDigits(pattern: string, i: nat, n: nat)
    requires n < WORD && Reads(pattern, i, Decimal(n))
    ensures ReadMax(pattern, i, 0) == ReadMax(pattern, i + |Decimal(n)|, n)
    ensures At(pattern, i + |Decimal(n)|) == '}' ==> ReadMax(pattern, i, 0) == Some(Number(n, i + |Decimal(n)|))
  {
    DecimalSplit(n);
    hide HexDecode, IsDigit, Decimal;
    var s := Decimal(n);
    var last := s[|s| - 1];
    if n >= 10 {
      ReadsSplit(pattern, i, Decimal(n / 10), [last]);
      ReadMaxDigits(pattern, i, n / 10);
    }
  }

  lemma {:induction false} ReadPrintedBracket(pattern: string, i: nat, k: nat, s: string, used: nat, rest: string)
    requires BracketPrintable(s, used, rest) && k <= |s|
    requires Reads(pattern, i, s + "]" + rest) && i + |s| + 1 + |rest| == |pattern|
    ensures ReadBracket(pattern, i + k, used + k) == Some(Bracket(s[k..], i + |s|, used + |s|))
    decreases |s| - k
  {
    var t := s + "]" + rest;
    assert t[k] == if k < |s| then s[k] else ']';
    if k == |s| {
      assert s[k..] == "";
    } else {
      ReadPrintedBracket(pattern, i, k + 1, s, used, rest);
      assert s[k..] == [s[k]] + s[k + 1..];
      if s[k] == '-' {
        assert DashAccepted(t, k);
        assert k + 2 < |t| ==> pattern[i + (k + 2)] == t[k + 2];
        assert k + 3 < |t| ==> pattern[i + (k + 3)] == t[k + 3];
      }
    }
  }

  lemma PrintedCountParts(pattern: string, i: nat, a: string, b: string, tail: string)
    requires a != "" && b != "" && tail != ""
    requires Reads(pattern, i, "{" + a + "," + b + tail)
    ensures var e := i + 1 + |a|; var f := e + 1 + |b|;
      && Reads(pattern, i + 1, a) && e < |pattern| && pattern[e] == ','
      && Reads(pattern, e + 1, b) && pattern[e + 1] == b[0] && Reads(pattern, f, tail) && pattern[f] == tail[0]
  {
    ReadsSplit(pattern, i, "{" + a + "," + b, tail);
    ReadsSplit(pattern, i, "{" + a + ",", b);
    ReadsSplit(pattern, i, "{" + a, ",");
    ReadsSplit(pattern, i, "{", a);
    var e := i + 1 + |a|;
    assert pattern[e + 0] == ","[0];
    assert pattern[e + 1 + 0] == b[0];
    assert pattern[e + 1 + |b| + 0] == tail[0];
  }

  lemma StepCountParts(pattern: string, i: nat, e: nat, f: nat, min: nat, max: nat, used: nat)
    requires ReadMin(pattern, i + 1, 0) == Some(Number(min, e)) && pattern[e] == ','
    requires e + 1 < |pattern| && pattern[e + 1] != '}' && ReadMax(pattern, e + 1, 0) == Some(Number(max, f))
    requires min <= max <= MAX_QUANTITY
    ensures StepCount(pattern, i, true, used) ==
            Some(if At(pattern, f + 1) == '?' then Step(LQuant(min, max), f + 2, false, used)
                 else Step(Quant(min, max), f + 1, false, used))
  {
  }

  lemma StepPrintedCount(pattern: string, i: nat, min: nat, max: nat, tail: string, used: nat)
    requires min <= max <= MAX_QUANTITY
    requires tail == "}" || tail == "}?"
    requires Reads(pattern, i, "{" + Decimal(min) + "," + Decimal(max) + tail)
    ensures var f := i + 2 + |Decimal(min)| + |Decimal(max)|;
      && (tail == "}?" ==> At(pattern, f + 1) == '?')
      && StepCount(pattern, i, true, used) ==
            Some(if At(pattern, f + 1) == '?' then Step(LQuant(min, max), f + 2, false, used)
                 else Step(Quant(min, max), f + 1, false, used))
  {
    hide Decimal, ReadMin, ReadMax;
    PrintedCountParts(pattern, i, Decimal(min), Decimal(max), tail);
    var e := i + 1 + |Decimal(min)|;
    ReadMinDigits(pattern, i + 1, min);
    ReadMaxDigits(pattern, e + 1, max);
    var f := e + 1 + |Decimal(max)|;
    assert tail == "}?" ==> pattern[f + 1] == tail[1];
    StepCountParts(pattern, i, e, f, min, max, used);
  }

  lemma PrintedStart(p: seq<Node>, used: nat)
    requires Printable(p, false, used)
    ensures Print(p) == "" || Print(p)[0] != '?'
  {
    assert !IsQuantifier(p[0]);
  }

  lemma StepPrintedBracket(pattern: string, i: nat, n: Node, used: nat, rest: string)
    requires n.Class? || n.NClass?
    requires BracketPrintable(n.contents, used, rest)
    requires n.Class? && n.contents != "" ==> n.contents[0] != '^'
    requires Reads(pattern, i, PrintNode(n)) && Reads(pattern, i + |PrintNode(n)|, rest)
    requires i + |PrintNode(n)| + |rest| == |pattern|
    ensures StepBracket(pattern, i, used) ==
            Some(Step(n, i + |PrintNode(n)|, true, used + |n.contents| + 1))
  {
    hide ReadBracket, Reads, BracketPrintable, PrintNode;
    var c := n.contents;
    var k := if n.Class? then 1 else 2;
    BracketOpens(pattern, i, n);
    ReadsJoin(pattern, i + k, c + "]", rest);
    ReadPrintedBracket(pattern, i + k, 0, c, used, rest);
    assert c[0..] == c;
  }

  lemma BracketOpens(pattern: string, i: nat, n: Node)
    requires n.Class? || n.NClass?
    requires n.Class? && n.contents != "" ==> n.contents[0] != '^'
    requires Reads(pattern, i, PrintNode(n))
    ensures |PrintNode(n)| == |n.contents| + if n.Class? then 2 else 3
    ensures (At(pattern, i + 1) == '^') == n.NClass?
    ensures Reads(pattern, i + if n.Class? then 1 else 2, n.contents + "]")
  {
    hide Reads;
    var c := n.contents;
    if n.Class? {
      assert PrintNode(n) == "[" + c + "]";
      Opened(pattern, i, "[", c);
    } else {
      assert PrintNode(n) == "[^" + c + "]";
      Opened(pattern, i, "[^", c);
      ReadsAt(pattern, i, "[^", 1);
    }
  }

  lemma Opened(pattern: string, i: nat, open: string, c: string)
    requires Reads(pattern, i, open + c + "]")
    ensures Reads(pattern, i, open) && Reads(pattern, i + |open|, c + "]")
    ensures i + |open| < |pattern| && pattern[i + |open|] == if c == "" then ']' else c[0]
  {
    hide Reads;
    Associate(open, c, "]");
    ReadsSplit(pattern, i, open, c + "]");
    ReadsAt(pattern, i + |open|, c + "]", 0);
  }

  lemma ReadsAt(pattern: string, i: nat, s: string, k: nat)
    requires Reads(pattern, i, s) && k < |s|
    ensures i + k < |pattern| && pattern[i + k] == s[k]
  {
  }

  lemma ReadsJoin(pattern: string, i: nat, s: string, t: string)
    requires Reads(pattern, i, s) && Reads(pattern, i + |s|, t)
    ensures Reads(pattern, i, s + t)
  {
    forall k | 0 <= k < |s + t| ensures pattern[i + k] == (s + t)[k] {
      if k >= |s| {
        ReadsAt(pattern, i + |s|, t, k - |s|);
      }
    }
  }

  lemma StepDispatch(pattern: string, i: nat, quantifiable: bool, used: nat, s: string)
    requires i < |pattern| && s != "" && Reads(pattern, i, s)
    ensures s[0] == '[' ==> StepNode(pattern, i, quantifiable, used) == StepBracket(pattern, i, used)
    ensures s[0] == '{' ==> StepNode(pattern, i, quantifiable, used) == StepCount(pattern, i, quantifiable, used)
  {
    hide StepBracket, StepCount, StepEscape, StepQuantifier;
    assert pattern[i + 0] == s[0];
  }

  lemma StepPrintedSimple(pattern: string, i: nat, n: Node, quantifiable: bool, used: nat)
    requires !n.Class? && !n.NClass? && !n.Quant? && !n.LQuant? && !n.NoNode? && !n.Unset? && !n.Plus?
    requires IsQuantifier(n) ==> quantifiable && At(pattern, i + |PrintNode(n)|) != '?'
    requires i < |pattern| && Reads(pattern, i, PrintNode(n))
    ensures StepNode(pattern, i, quantifiable, used) == Some(Step(n, i + |PrintNode(n)|, IsOneChar(n), used))
  {
    hide StepBracket, StepCount, Decimal;
    var s := PrintNode(n);
    assert pattern[i + 0] == s[0];
    assert |s| >= 2 ==> pattern[i + 1] == s[1];
  }

  lemma PrintedNext(pattern: string, i: nat, p: seq<Node>, used: nat)
    requires p != [] && Printable(p[1..], false, used)
    requires Reads(pattern, i + |PrintNode(p[0])|, Print(p[1..]))
    requires i + |PrintNode(p[0])| + |Print(p[1..])| == |pattern|
    ensures At(pattern, i + |PrintNode(p[0])|) != '?'
  {
    PrintedStart(p[1..], used);
    var rest := Print(p[1..]);
    if rest != "" { assert pattern[i + |PrintNode(p[0])| + 0] == rest[0]; }
  }

  lemma StepPrinted(pattern: string, i: nat, p: seq<Node>, quantifiable: bool, used: nat)
    requires Printable(p, quantifiable, used) && !p[0].NoNode?
    requires Reads(pattern, i, PrintNode(p[0])) && i < |pattern|
    requires Reads(pattern, i + |PrintNode(p[0])|, Print(p[1..]))
    requires i + |PrintNode(p[0])| + |Print(p[1..])| == |pattern|
    ensures StepNode(pattern, i, quantifiable, used) ==
            Some(Step(p[0], i + |PrintNode(p[0])|, IsOneChar(p[0]), UsedAfter(p[0], used)))
  {
    hide Print, Decimal, ReadMin, ReadMax, ReadBracket;
    var n, rest := p[0], Print(p[1..]);
    if n.Class? || n.NClass? {
      StepPrintedBracket(pattern, i, n, used, rest);
      StepDispatch(pattern, i, quantifiable, used, PrintNode(n));
    } else if n.Quant? || n.LQuant? {
      var tail := if n.Quant? then "}" else "}?";
      StepPrintedCount(pattern, i, n.min, n.max, tail, used);
      StepDispatch(pattern, i, quantifiable, used, PrintNode(n));
      PrintedNext(pattern, i, p, used);
    } else {
      if IsQuantifier(n) { PrintedNext(pattern, i, p, used); }
      StepPrintedSimple(pattern, i, n, quantifiable, used);
    }
  }

  lemma PrintableTail(p: seq<Node>, quantifiable: bool, used: nat)
    requires Printable(p, quantifiable, used)
    ensures p != []
    ensures p[0].NoNode? ==> p == [NoNode] && Print(p) == ""
    ensures !p[0].NoNode? ==> |PrintNode(p[0])| > 0 && |p| >= 2
                              && Printable(p[1..], IsOneChar(p[0]), UsedAfter(p[0], used))
  {
    if p[0].NoNode? { assert p[1..] == []; }
  }

  /** Compiling the printed form of a program gives the program back. */
  lemma {:induction false} CompilePrinted(pattern: string, i: nat, p: seq<Node>, j: nat, quantifiable: bool, used: nat)
    requires Printable(p, quantifiable, used) && j + |p| <= MAX_NODES
    requires Reads(pattern, i, Print(p)) && i + |Print(p)| == |pattern|
    ensures CompileFrom(pattern, i, j, quantifiable, used) == Some(p)
    decreases |p|
  {
    hide StepNode, PrintNode, Printable;
    PrintableTail(p, quantifiable, used);
    if p[0].NoNode? {
    } else {
      ReadsSplit(pattern, i, PrintNode(p[0]), Print(p[1..]));
      StepPrinted(pattern, i, p, quantifiable, used);
      var s := StepNode(pattern, i, quantifiable, used).value;
      CompilePrinted(pattern, s.next, p[1..], j + 1, s.quantifiable, s.used);
      assert p == [p[0]] + p[1..];
    }
  }

  /** What a bracket ending in `-` demands of the text `t[o..]` behind the closing bracket. */
  predicate FollowsDash(t: string, o: nat) {
    || o >= |t|
    || t[o] == ']'
    || (t[o] == '\\' && (o + 1 >= |t| || IsMeta(t[o + 1])))
    || (if t[o] == '\\' then t[o + 1] else t[o]) >= '-'
  }

  lemma PrintFollowsDash(pattern: string, i: nat, j: nat, quantifiable: bool, used: nat)
    requires j + 1 <= MAX_NODES
    requires CompileFrom(pattern, i, j, quantifiable, used).Some?
    requires NoBareCount(CompileFrom(pattern, i, j, quantifiable, used).value)
    requires FollowsDash(pattern, i)
    ensures FollowsDash(Print(CompileFrom(pattern, i, j, quantifiable, used).value), 0)
  {
    hide ReadBracket, StepCount, Decimal;
    var p := CompileFrom(pattern, i, j, quantifiable, used).value;
    if i >= |pattern| || j + 1 >= MAX_NODES {
      assert Print(p[1..]) == "";
    } else {
      assert p[0] == StepNode(pattern, i, quantifiable, used).value.node;
      assert !p[0].Unset?;
      NodeFollowsDash(pattern, i, quantifiable, used);
      var s := PrintNode(p[0]);
      var t := Print(p);
      assert t == s + Print(p[1..]);
      assert t[0] == s[0];
      assert |s| >= 2 ==> t[1] == s[1];
    }
  }

  lemma NodeFollowsDash(pattern: string, i: nat, quantifiable: bool, used: nat)
    requires i < |pattern| && FollowsDash(pattern, i)
    requires StepNode(pattern, i, quantifiable, used).Some?
    requires !StepNode(pattern, i, quantifiable, used).value.node.Unset?
    ensures var s := PrintNode(StepNode(pattern, i, quantifiable, used).value.node);
      s != "" && FollowsDash(s, 0) && (s[0] == '\\' ==> |s| == 2)
  {
    hide ReadBracket, Decimal, ReadMin, ReadMax;
    match pattern[i]
    case '[' =>
      assert StepNode(pattern, i, quantifiable, used) == StepBracket(pattern, i, used);
      CompiledBracketStart(pattern, i, used);
    case '{' =>
      assert StepNode(pattern, i, quantifiable, used) == StepCount(pattern, i, quantifiable, used);
      CompiledCountStart(pattern, i, quantifiable, used);
    case _ =>
  }

  lemma CompiledBracketStart(pattern: string, i: nat, used: nat)
    requires StepBracket(pattern, i, used).Some?
    ensures PrintNode(StepBracket(pattern, i, used).value.node) != ""
    ensures PrintNode(StepBracket(pattern, i, used).value.node)[0] == '['
  {
  }

  lemma CompiledCountStart(pattern: string, i: nat, quantifiable: bool, used: nat)
    requires StepCount(pattern, i, quantifiable, used).Some?
    ensures var n := StepCount(pattern, i, quantifiable, used).value.node;
      n.Unset? || (PrintNode(n) != "" && PrintNode(n)[0] == '{')
  {
  }

  lemma {:induction false} BracketDashes(pattern: string, i: nat, used: nat)
    requires ReadBracket(pattern, i, used).Some?
    ensures var s := ReadBracket(pattern, i, used).value.contents;
      && (s != "" ==> used + |s| <= BUFFER_LEN - 1)
      && (forall k :: 0 <= k < |s| && s[k] == '-' ==> DashAccepted(pattern, i + k))
    decreases |pattern| - i
  {
    if pattern[i] != ']' {
      BracketDashes(pattern, i + 1, used + 1);
      var s := ReadBracket(pattern, i, used).value.contents;
      var s' := ReadBracket(pattern, i + 1, used + 1).value.contents;
      assert s == [pattern[i]] + s';
      hide DashAccepted;
      forall k | 0 <= k < |s| && s[k] == '-' ensures DashAccepted(pattern, i + k) {
        if k > 0 {
          assert s'[k - 1] == s[k];
          assert DashAccepted(pattern, (i + 1) + (k - 1));
        }
      }
    }
  }

  lemma CompiledBracketIsPrintable(pattern: string, i: nat, used: nat, rest: string)
    requires ReadBracket(pattern, i, used).Some?
    requires var b := ReadBracket(pattern, i, used).value; FollowsDash(pattern, b.close + 1) ==> FollowsDash(rest, 0)
    ensures BracketPrintable(ReadBracket(pattern, i, used).value.contents, used, rest)
  {
    BracketDashes(pattern, i, used);
    var b := ReadBracket(pattern, i, used).value;
    var s := b.contents;
    hide ReadBracket;
    var t := s + "]" + rest;
    forall k | 0 <= k < |s| && s[k] == '-' ensures DashAccepted(t, k) {
      assert DashAccepted(pattern, i + k);
      if k + 2 < |s| {
        assert s[k + 2] == pattern[i + k + 2];
        assert t[k + 2] == s[k + 2];
      } else if k + 2 == |s| {
        assert t[k + 2] == ']';
      } else {
        assert FollowsDash(pattern, b.close + 1);
        if rest != "" { assert t[k + 2] == rest[0]; }
        if |rest| > 1 { assert t[k + 3] == rest[1]; }
      }
    }
  }

  lemma StepShape(pattern: string, i: nat, quantifiable: bool, used: nat)
    requires i < |pattern| && StepNode(pattern, i, quantifiable, used).Some?
    ensures var r := StepNode(pattern, i, quantifiable, used).value;
      && !r.node.Plus?
      && r.used == UsedAfter(r.node, used)
      && (r.node.Quant? || r.node.LQuant? ==> r.node.max <= MAX_QUANTITY)
      && (r.node.Class? || r.node.NClass? ==>
            var o := if r.node.Class? then i + 1 else i + 2;
            && ReadBracket(pattern, o, used).Some?
            && ReadBracket(pattern, o, used).value.contents == r.node.contents
            && ReadBracket(pattern, o, used).value.close + 1 == r.next
            && (r.node.Class? && r.node.contents != "" ==> r.node.contents[0] != '^'))
  {
    hide ReadMin, ReadMax;
  }

  lemma PrintableCons(n: Node, rest: seq<Node>, quantifiable: bool, used: nat)
    requires !n.NoNode? && !n.Unset? && !n.Plus?
    requires IsQuantifier(n) ==> quantifiable && MinCount(n) <= MaxCount(n)
    requires n.Quant? || n.LQuant? ==> n.max <= MAX_QUANTITY
    requires n.Class? || n.NClass? ==> BracketPrintable(n.contents, used, Print(rest))
    requires n.Class? && n.contents != "" ==> n.contents[0] != '^'
    requires Printable(rest, IsOneChar(n), UsedAfter(n, used))
    ensures Printable([n] + rest, quantifiable, used)
  {
    hide Print, BracketPrintable;
    assert ([n] + rest)[1..] == rest;
  }

  lemma PrintableEnd(quantifiable: bool, used: nat)
    ensures Printable([NoNode], quantifiable, used)
  {
  }

  /** Everything the compiler accepts, except a bare `{m}`, can be printed. */
  lemma {:induction false} CompiledIsPrintable(pattern: string, i: nat, j: nat, quantifiable: bool, used: nat)
    requires j + 1 <= MAX_NODES
    requires CompileFrom(pattern, i, j, quantifiable, used).Some?
    requires !HasBareCount(pattern, i, j)
    ensures Printable(CompileFrom(pattern, i, j, quantifiable, used).value, quantifiable, used)
    decreases |pattern| - i
  {
    hide StepNode, TokenEnd, BareCountAt, ReadBracket, Printable, BracketPrintable, Print, FollowsDash;
    if i >= |pattern| || j + 1 >= MAX_NODES {
      PrintableEnd(quantifiable, used);
    } else {
      StepShape(pattern, i, quantifiable, used);
      var s := StepNode(pattern, i, quantifiable, used).value;
      var p := CompileFrom(pattern, i, j, quantifiable, used).value;
      var rest := CompileFrom(pattern, s.next, j + 1, s.quantifiable, s.used).value;
      assert p == [s.node] + rest;
      assert p[0] == s.node;
      StepReadsToken(pattern, i, quantifiable, used);
      BareCountExact(pattern, s.next, j + 1, s.quantifiable, s.used);
      CompiledIsPrintable(pattern, s.next, j + 1, s.quantifiable, s.used);
      if s.node.Class? || s.node.NClass? {
        if FollowsDash(pattern, s.next) {
          PrintFollowsDash(pattern, s.next, j + 1, s.quantifiable, s.used);
        }
        CompiledBracketIsPrintable(pattern, if s.node.Class? then i + 1 else i + 2, used, Print(rest));
      }
      PrintableCons(s.node, rest, quantifiable, used);
    }
  }

  /** Round trip: a printable program of at most 63 nodes is what its printed form compiles to. */
  lemma CompileUndoesPrint(p: seq<Node>)
    requires Printable(p, false, 0) && |p| <= MAX_NODES && p != [NoNode]
    ensures Compiled(Print(p)) == Some(p)
  {
    PrintableTail(p, false, 0);
    CompilePrinted(Print(p), 0, p, 0, false, 0);
  }

  /** Printing what a pattern compiles to gives a pattern that compiles to the same program. */
  lemma PrintingIsFaithful(pattern: string)
    requires Compiled(pattern).Some? && !HasBareCount(pattern, 0, 0)
    ensures Compiled(Print(Compiled(pattern).value)) == Compiled(pattern)
  {
    CompiledIsPrintable(pattern, 0, 0, false, 0);
    CompileUndoesPrint(Compiled(pattern).value);
  }
}
