/**
 The patterns the compiler accepts, as sequences of tokens: every way of writing each construct, and the checks that
 apply to it.  At most 63 tokens are compiled; what is left of a longer pattern is not looked at.
 */
module RegexTokens {
  import opened Wrappers
  import opened Ascii
  import opened Numerals
  import opened RegexNodes
  import opened RegexCompiler
  import opened RegexPrinter

  datatype Token =
    | Single(c: char)
    | Escape(c: char)
    | Brackets(negated: bool, contents: string)
    | Mark(c: char, lzy: bool)
    | Range(min: string, max: string, lzy: bool)
    | Bare(digits: string)

  function Text(t: Token): string {
    match t
    case Single(c) => [c]
    case Escape(c) => ['\\', c]
    case Brackets(negated, contents) => (if negated then "[^" else "[") + contents + "]"
    case Mark(c, lzy) => if lzy then [c, '?'] else [c]
    case Range(min, max, lzy) => "{" + min + "," + max + (if lzy then "}?" else "}")
    case Bare(digits) => "{" + digits + "}"
  }

  function Texts(ts: seq<Token>): string {
    if ts == [] then "" else Text(ts[0]) + Texts(ts[1..])
  }

  /** The value of a count wraps at 64 bits. */
  function CountValue(s: string): nat { BaseValue(10, s) % WORD }

  function NodeOf(t: Token): Node {
    match t
    case Single(c) => if c == '^' then Begin else if c == '$' then End else if c == '.' then Dot else Char(c)
    case Escape(c) =>
      (match c
       case 'd' => Digit case 'D' => NDigit
       case 'w' => Alpha case 'W' => NAlpha
       case 's' => Space case 'S' => NSpace
       case _ => Char(c))
    case Brackets(negated, contents) => if negated then NClass(contents) else Class(contents)
    case Mark(c, lzy) =>
      if c == '*' then (if lzy then LStar else Star)
      else if c == '+' then LPlus
      else if lzy then LQMark else QMark
    case Range(min, max, lzy) =>
      var high := if max == "" then MAX_QUANTITY else CountValue(max);
      if lzy then LQuant(CountValue(min), high) else Quant(CountValue(min), high)
    case Bare(_) => Unset
  }

  function NodesOf(ts: seq<Token>): (nodes: seq<Node>)
    ensures |nodes| == |ts|
  {
    if ts == [] then [] else [NodeOf(ts[0])] + NodesOf(ts[1..])
  }

  /** What stands two places behind a `-` in brackets must not sort below `-`, unless it closes the brackets, is
      missing, or begins a character class. */
  predicate DashOk(x: string) {
    || x == "" || x[0] == ']'
    || (x[0] == '\\' && (|x| == 1 || IsMeta(x[1])))
    || (if x[0] == '\\' then x[1] else x[0]) >= '-'
  }

  /** The token can stand here: `quantifiable` tells whether a quantifier may, `used` is what earlier brackets take
      of the shared buffer, and `rest` is the pattern behind it. */
  ghost predicate TokenOk(t: Token, quantifiable: bool, used: nat, rest: string) {
    match t
    case Single(c) => c !in {'*', '+', '?', '\\', '[', '{'}
    case Escape(_) => true
    case Brackets(negated, contents) =>
      && '\\' !in contents && ']' !in contents
      && (!negated && contents != "" ==> contents[0] != '^')
      && (contents != "" ==> used + |contents| < BUFFER_LEN)
      && (forall k | 0 <= k < |contents| && contents[k] == '-' && k + 2 <= |contents + "]" + rest| ::
            DashOk((contents + "]" + rest)[k + 2..]))
    case Mark(c, lzy) => c in {'*', '+', '?'} && quantifiable && (!lzy ==> rest == "" || rest[0] != '?')
    case Range(min, max, lzy) =>
      && quantifiable && (!lzy ==> rest == "" || rest[0] != '?')
      && min != "" && IsDecimalText(min) && IsDecimalText(max)
      && CountValue(min) <= MAX_QUANTITY
      && (max != "" ==> CountValue(min) <= CountValue(max) <= MAX_QUANTITY)
    case Bare(digits) => quantifiable && digits != "" && IsDecimalText(digits) && CountValue(digits) <= MAX_QUANTITY
  }

  function UsedBy(t: Token, used: nat): nat {
    if t.Brackets? then used + |t.contents| + 1 else used
  }

  predicate Quantifiable(t: Token) {
    t.Escape? || t.Brackets? || (t.Single? && t.c != '^' && t.c != '$')
  }

  ghost predicate TokensOk(ts: seq<Token>, quantifiable: bool, used: nat, tail: string) {
    ts == [] ||
    (TokenOk(ts[0], quantifiable, used, Texts(ts[1..]) + tail)
     && TokensOk(ts[1..], Quantifiable(ts[0]), UsedBy(ts[0], used), tail))
  }

  /** The pattern from its `i`-th character on is this text. */
  ghost predicate Ends(pattern: string, i: nat, s: string) {
    i + |s| == |pattern| && Reads(pattern, i, s)
  }

  lemma EndsSplit(pattern: string, i: nat, s: string, t: string)
    requires Ends(pattern, i, s + t)
    ensures Reads(pattern, i, s) && Ends(pattern, i + |s|, t)
  {
    hide Reads;
    ReadsSplit(pattern, i, s, t);
  }

  lemma EndsJoin(pattern: string, i: nat, s: string, t: string)
    requires Reads(pattern, i, s) && Ends(pattern, i + |s|, t)
    ensures Ends(pattern, i, s + t)
  {
    hide Reads;
    ReadsJoin(pattern, i, s, t);
  }

  lemma EndsSlice(pattern: string, i: nat)
    requires i <= |pattern|
    ensures Ends(pattern, i, pattern[i..])
  {
  }

  lemma EndsFirst(pattern: string, i: nat, s: string)
    requires Ends(pattern, i, s)
    ensures At(pattern, i) == if s == "" then '\0' else s[0]
  {
    if s != "" {
      ReadsAt(pattern, i, s, 0);
    }
  }

  // Counts

  lemma WrapStep(v: nat, d: nat)
    ensures Wrap(10 * (v % WORD) + d) == (10 * v + d) % WORD
  {
    var q, m := v / WORD, v % WORD;
    assert 10 * v + d == 10 * m + d + (10 * q) * WORD;
    ModPlus(10 * m + d, 10 * q);
  }

  lemma ModPlus(a: nat, q: nat)
    ensures (a + q * WORD) % WORD == a % WORD
    decreases q
  {
    if q > 0 {
      ModPlus(a, q - 1);
      assert a + q * WORD == (a + (q - 1) * WORD) + WORD;
    }
  }

  lemma {:induction false} ReadMinText(pattern: string, i: nat, s: string)
    requires s != "" && IsDecimalText(s) && Reads(pattern, i, s) && i + |s| < |pattern|
    ensures var e := i + |s|;
      && (IsDigit(pattern[e]) ==> ReadMin(pattern, i, 0) == ReadMin(pattern, e, CountValue(s)))
      && (pattern[e] == ',' || pattern[e] == '}' ==> ReadMin(pattern, i, 0) == Some(Number(CountValue(s), e)))
    decreases |s|
  {
    var high, c := s[..|s| - 1], s[|s| - 1];
    assert s == high + [c];
    ReadsSplit(pattern, i, high, [c]);
    ReadsAt(pattern, i, s, |s| - 1);
    WrapStep(BaseValue(10, high), HexDecode(c));
    hide HexDecode, Wrap, Reads;
    if high != "" {
      ReadMinText(pattern, i, high);
    } else {
      assert BaseValue(10, high) == 0;
    }
  }

  lemma {:induction false} ReadMaxText(pattern: string, i: nat, s: string)
    requires IsDecimalText(s) && Reads(pattern, i, s)
    ensures ReadMax(pattern, i, 0) == ReadMax(pattern, i + |s|, CountValue(s))
    decreases |s|
  {
    if s != "" {
      var high, c := s[..|s| - 1], s[|s| - 1];
      assert s == high + [c];
      ReadsSplit(pattern, i, high, [c]);
      ReadsAt(pattern, i, s, |s| - 1);
      WrapStep(BaseValue(10, high), HexDecode(c));
      hide HexDecode, Wrap, Reads;
      ReadMaxText(pattern, i, high);
    }
  }

  // A token that can stand is read as its node

  ghost predicate StepIs(pattern: string, i: nat, t: Token, quantifiable: bool, used: nat) {
    i < |pattern| &&
    StepNode(pattern, i, quantifiable, used) == Some(Step(NodeOf(t), i + |Text(t)|, Quantifiable(t), UsedBy(t, used)))
  }

  lemma StepSimple(pattern: string, i: nat, t: Token, quantifiable: bool, used: nat, rest: string)
    requires Ends(pattern, i, Text(t) + rest) && TokenOk(t, quantifiable, used, rest)
    requires t.Single? || t.Escape? || t.Mark?
    ensures StepIs(pattern, i, t, quantifiable, used)
  {
    EndsSplit(pattern, i, Text(t), rest);
    EndsFirst(pattern, i + |Text(t)|, rest);
    ReadsAt(pattern, i, Text(t), 0);
    if t.Escape? || (t.Mark? && t.lzy) {
      ReadsAt(pattern, i, Text(t), 1);
    }
    hide StepBracket, StepCount, Reads, Ends;
  }

  lemma DashesAgree(s: string, rest: string, k: nat)
    requires k < |s|
    ensures var t := s + "]" + rest;
      DashAccepted(t, k) <==> (k + 2 <= |t| ==> DashOk(t[k + 2..]))
  {
    var t := s + "]" + rest;
    if k + 2 < |t| {
      assert t[k + 2..][0] == t[k + 2];
      assert k + 3 < |t| ==> t[k + 2..][1] == t[k + 3];
    }
  }

  lemma BracketsPrint(t: Token, quantifiable: bool, used: nat, rest: string)
    requires TokenOk(t, quantifiable, used, rest) && t.Brackets?
    ensures BracketPrintable(t.contents, used, rest) && PrintNode(NodeOf(t)) == Text(t)
    ensures !t.negated && t.contents != "" ==> t.contents[0] != '^'
    ensures Text(t)[0] == '['
  {
    forall k | 0 <= k < |t.contents| && t.contents[k] == '-'
      ensures DashAccepted(t.contents + "]" + rest, k)
    {
      DashesAgree(t.contents, rest, k);
    }
    hide DashAccepted, DashOk;
  }

  lemma StepBrackets(pattern: string, i: nat, t: Token, quantifiable: bool, used: nat, rest: string)
    requires Ends(pattern, i, Text(t) + rest) && TokenOk(t, quantifiable, used, rest) && t.Brackets?
    ensures StepIs(pattern, i, t, quantifiable, used)
  {
    BracketsPrint(t, quantifiable, used, rest);
    EndsSplit(pattern, i, Text(t), rest);
    ReadsAt(pattern, i, Text(t), 0);
    hide Reads, TokenOk, StepNode, StepBracket, BracketPrintable, PrintNode, Text;
    StepPrintedBracket(pattern, i, NodeOf(t), used, rest);
    StepDispatch(pattern, i, quantifiable, used, Text(t));
  }

  /** The parts of a count in the pattern: where the comma and the closing brace are. */
  lemma RangeParts(pattern: string, i: nat, min: string, max: string, tail: string)
    requires Reads(pattern, i, "{" + min + "," + max + tail) && tail != ""
    ensures var e := i + 1 + |min|; var f := e + 1 + |max|;
      && f < |pattern| && pattern[i] == '{' && pattern[e] == ',' && pattern[f] == tail[0]
      && Reads(pattern, i + 1, min) && Reads(pattern, e + 1, max) && Reads(pattern, f, tail)
  {
    hide Reads;
    ReadsSplit(pattern, i, "{" + min + "," + max, tail);
    ReadsSplit(pattern, i, "{" + min + ",", max);
    ReadsSplit(pattern, i, "{" + min, ",");
    ReadsSplit(pattern, i, "{", min);
    ReadsAt(pattern, i, "{", 0);
    ReadsAt(pattern, i + 1 + |min|, ",", 0);
    ReadsAt(pattern, i + 2 + |min| + |max|, tail, 0);
  }

  lemma StepCountRange(pattern: string, i: nat, e: nat, f: nat, min: nat, max: nat, open: bool, used: nat)
    requires ReadMin(pattern, i + 1, 0) == Some(Number(min, e)) && pattern[e] == ','
    requires e + 1 < |pattern| && (pattern[e + 1] == '}' <==> open)
    requires open ==> f == e + 1 && max == MAX_QUANTITY
    requires !open ==> ReadMax(pattern, e + 1, 0) == Some(Number(max, f))
    requires min <= max <= MAX_QUANTITY
    ensures StepCount(pattern, i, true, used) ==
            Some(if At(pattern, f + 1) == '?' then Step(LQuant(min, max), f + 2, false, used)
                 else Step(Quant(min, max), f + 1, false, used))
  {
    hide ReadMin, ReadMax;
  }

  function RangeTail(t: Token): string
    requires t.Range?
  {
    if t.lzy then "}?" else "}"
  }

  lemma RangeText(t: Token)
    requires t.Range?
    ensures Text(t) == "{" + t.min + "," + t.max + RangeTail(t)
    ensures |Text(t)| == 2 + |t.min| + |t.max| + |RangeTail(t)|
    ensures RangeTail(t)[0] == '}' && |RangeTail(t)| == (if t.lzy then 2 else 1) && (t.lzy ==> RangeTail(t)[1] == '?')
  {
  }

  /** Where the comma and the closing brace of a count are, and what is behind them. */
  lemma RangeFound(pattern: string, i: nat, t: Token, rest: string)
    requires Ends(pattern, i, Text(t) + rest) && t.Range?
    requires IsDecimalText(t.max) && (!t.lzy ==> rest == "" || rest[0] != '?')
    ensures var e := i + 1 + |t.min|;
      var f := e + 1 + |t.max|;
      && f < |pattern| && pattern[i] == '{' && pattern[e] == ',' && pattern[f] == '}'
      && (pattern[e + 1] == '}' <==> t.max == "")
      && Reads(pattern, i + 1, t.min) && Reads(pattern, e + 1, t.max)
      && (At(pattern, f + 1) == '?' <==> t.lzy)
  {
    hide Reads, Ends, Text, RangeTail;
    RangeText(t);
    EndsSplit(pattern, i, Text(t), rest);
    EndsFirst(pattern, i + |Text(t)|, rest);
    RangeParts(pattern, i, t.min, t.max, RangeTail(t));
    var e := i + 1 + |t.min|;
    if t.lzy {
      ReadsAt(pattern, e + 1 + |t.max|, RangeTail(t), 1);
    }
    if t.max != "" {
      ReadsAt(pattern, e + 1, t.max, 0);
    }
  }

  /** What the readers of counts make of them. */
  lemma RangeReads(pattern: string, i: nat, e: nat, f: nat, t: Token)
    requires t.Range? && t.min != "" && IsDecimalText(t.min) && IsDecimalText(t.max)
    requires e == i + 1 + |t.min| && f == e + 1 + |t.max| < |pattern| && pattern[e] == ',' && pattern[f] == '}'
    requires Reads(pattern, i + 1, t.min) && Reads(pattern, e + 1, t.max)
    ensures ReadMin(pattern, i + 1, 0) == Some(Number(CountValue(t.min), e))
    ensures ReadMax(pattern, e + 1, 0) == Some(Number(CountValue(t.max), f))
  {
    hide Reads, CountValue, IsDecimalText;
    ReadMinText(pattern, i + 1, t.min);
    ReadMaxText(pattern, e + 1, t.max);
  }

  lemma StepRange(pattern: string, i: nat, t: Token, quantifiable: bool, used: nat, rest: string)
    requires Ends(pattern, i, Text(t) + rest) && TokenOk(t, quantifiable, used, rest) && t.Range?
    ensures StepIs(pattern, i, t, quantifiable, used)
  {
    hide Reads, Ends, ReadMin, ReadMax, CountValue, StepBracket, StepCount, StepEscape, StepQuantifier, IsDecimalText,
      Text, RangeTail;
    var e := i + 1 + |t.min|;
    var f := e + 1 + |t.max|;
    var high := if t.max == "" then MAX_QUANTITY else CountValue(t.max);
    RangeText(t);
    RangeFound(pattern, i, t, rest);
    RangeReads(pattern, i, e, f, t);
    StepCountRange(pattern, i, e, f, CountValue(t.min), high, t.max == "", used);
  }

  lemma StepBare(pattern: string, i: nat, t: Token, quantifiable: bool, used: nat, rest: string)
    requires Ends(pattern, i, Text(t) + rest) && TokenOk(t, quantifiable, used, rest) && t.Bare?
    ensures StepIs(pattern, i, t, quantifiable, used)
  {
    EndsSplit(pattern, i, Text(t), rest);
    ReadsSplit(pattern, i, "{" + t.digits, "}");
    ReadsSplit(pattern, i, "{", t.digits);
    ReadsAt(pattern, i, "{", 0);
    ReadsAt(pattern, i + 1 + |t.digits|, "}", 0);
    ReadMinText(pattern, i + 1, t.digits);
    hide Reads, ReadMin, ReadMax, CountValue, StepBracket;
  }

  lemma StepToken(pattern: string, i: nat, t: Token, quantifiable: bool, used: nat, rest: string)
    requires Ends(pattern, i, Text(t) + rest) && TokenOk(t, quantifiable, used, rest)
    ensures StepIs(pattern, i, t, quantifiable, used)
  {
    hide StepIs, Ends, TokenOk, Text;
    match t {
      case Brackets(_, _) => StepBrackets(pattern, i, t, quantifiable, used, rest);
      case Range(_, _, _) => StepRange(pattern, i, t, quantifiable, used, rest);
      case Bare(_) => StepBare(pattern, i, t, quantifiable, used, rest);
      case _ => StepSimple(pattern, i, t, quantifiable, used, rest);
    }
  }

  /** Tokens are compiled to their nodes, up to the end or to the last free entry. */
  lemma {:induction false} CompileTokens(pattern: string, i: nat, ts: seq<Token>, j: nat, quantifiable: bool, used: nat,
                                         tail: string)
    requires Ends(pattern, i, Texts(ts) + tail) && TokensOk(ts, quantifiable, used, tail)
    requires j + |ts| + 1 <= MAX_NODES && (tail == "" || j + |ts| + 1 == MAX_NODES)
    ensures CompileFrom(pattern, i, j, quantifiable, used) == Some(NodesOf(ts) + [NoNode])
    decreases |ts|
  {
    hide StepNode, Ends, TokenOk, Text;
    if ts == [] {
      assert Texts(ts) + tail == tail;
      assert i + |tail| == |pattern| by { EndsLength(pattern, i, tail); }
      assert NodesOf(ts) + [NoNode] == [NoNode];
    } else {
      var rest := Texts(ts[1..]) + tail;
      Associate(Text(ts[0]), Texts(ts[1..]), tail);
      StepToken(pattern, i, ts[0], quantifiable, used, rest);
      EndsSplit(pattern, i, Text(ts[0]), rest);
      CompileTokens(pattern, i + |Text(ts[0])|, ts[1..], j + 1, Quantifiable(ts[0]), UsedBy(ts[0], used), tail);
      Associate([NodeOf(ts[0])], NodesOf(ts[1..]), [NoNode]);
    }
  }

  lemma EndsLength(pattern: string, i: nat, s: string)
    requires Ends(pattern, i, s)
    ensures i + |s| == |pattern|
  {
  }

  // What is read is a token

  /** The step reads this token, which can stand there. */
  ghost predicate Reading(pattern: string, i: nat, quantifiable: bool, used: nat, t: Token) {
    && i < |pattern| && i + |Text(t)| <= |pattern|
    && Reads(pattern, i, Text(t))
    && TokenOk(t, quantifiable, used, pattern[i + |Text(t)|..])
    && StepIs(pattern, i, t, quantifiable, used)
  }

  lemma SplitSimple(pattern: string, i: nat, quantifiable: bool, used: nat) returns (t: Token)
    requires i < |pattern| && StepNode(pattern, i, quantifiable, used).Some? && pattern[i] != '[' && pattern[i] != '{'
    ensures Reading(pattern, i, quantifiable, used, t)
  {
    var c := pattern[i];
    if c == '\\' {
      t := Escape(pattern[i + 1]);
    } else if c in {'*', '+', '?'} {
      t := Mark(c, At(pattern, i + 1) == '?');
    } else {
      t := Single(c);
    }
    hide StepBracket, StepCount;
  }

  lemma PatternCut(pattern: string, i: nat, j: nat, s: string)
    requires i <= j <= |pattern| && s == pattern[i..j]
    ensures Reads(pattern, i, s) && |s| == j - i
  {
  }

  lemma SplitBrackets(pattern: string, i: nat, quantifiable: bool, used: nat) returns (t: Token)
    requires i < |pattern| && pattern[i] == '[' && StepBracket(pattern, i, used).Some?
    ensures Reading(pattern, i, quantifiable, used, t)
  {
    hide Reads, StepNode, StepBracket, ReadBracket, Text, TokenOk, NodeOf;
    t := BracketsTaken(pattern, i, used);
    BracketsTexts(pattern, i, used, t, quantifiable);
    BracketStep(pattern, i, quantifiable, used);
  }

  lemma BracketStep(pattern: string, i: nat, quantifiable: bool, used: nat)
    requires i < |pattern| && pattern[i] == '['
    ensures StepNode(pattern, i, quantifiable, used) == StepBracket(pattern, i, used)
  {
    hide StepBracket, StepCount, StepEscape, StepQuantifier;
  }

  lemma BracketsTaken(pattern: string, i: nat, used: nat) returns (t: Token)
    requires i < |pattern| && StepBracket(pattern, i, used).Some?
    ensures t.Brackets? && (t.negated <==> At(pattern, i + 1) == '^')
    ensures var o := if t.negated then i + 2 else i + 1;
      var b := ReadBracket(pattern, o, used);
      && b.Some? && t.contents == b.value.contents
      && StepBracket(pattern, i, used) ==
         Some(Step(NodeOf(t), b.value.close + 1, true, used + |t.contents| + 1))
  {
    var negated := At(pattern, i + 1) == '^';
    t := Brackets(negated, ReadBracket(pattern, if negated then i + 2 else i + 1, used).value.contents);
  }

  lemma BracketsTexts(pattern: string, i: nat, used: nat, t: Token, quantifiable: bool)
    requires i < |pattern| && pattern[i] == '[' && t.Brackets? && (t.negated <==> At(pattern, i + 1) == '^')
    requires var b := ReadBracket(pattern, if t.negated then i + 2 else i + 1, used);
      b.Some? && t.contents == b.value.contents
    ensures var close := ReadBracket(pattern, if t.negated then i + 2 else i + 1, used).value.close;
      && Reads(pattern, i, Text(t)) && i + |Text(t)| == close + 1 <= |pattern|
      && TokenOk(t, quantifiable, used, pattern[close + 1..])
  {
    hide ReadBracket, Reads, BracketPrintable, Text, TokenOk, FollowsDash;
    var o := if t.negated then i + 2 else i + 1;
    var b := ReadBracket(pattern, o, used).value;
    BracketsRead(pattern, i, o, b.close, t);
    FollowsClose(pattern, b.close + 1);
    CompiledBracketIsPrintable(pattern, o, used, pattern[b.close + 1..]);
    assert !t.negated && b.contents != "" ==> b.contents[0] == pattern[i + 1];
    BracketsStand(t, quantifiable, used, pattern[b.close + 1..]);
  }

  lemma FollowsClose(pattern: string, o: nat)
    requires o <= |pattern|
    ensures FollowsDash(pattern, o) <==> FollowsDash(pattern[o..], 0)
  {
  }

  lemma BracketsRead(pattern: string, i: nat, o: nat, close: nat, t: Token)
    requires t.Brackets? && i < |pattern| && pattern[i] == '[' && (t.negated ==> At(pattern, i + 1) == '^')
    requires o == (if t.negated then i + 2 else i + 1) && o <= close < |pattern| && pattern[close] == ']'
    requires t.contents == pattern[o..close]
    ensures Reads(pattern, i, Text(t)) && |Text(t)| == close + 1 - i
  {
    var s := Text(t);
    forall k | 0 <= k < |s| ensures pattern[i + k] == s[k] {
      if o - i <= k < close - i {
        assert s[k] == t.contents[k - (o - i)] == pattern[i + k];
      }
    }
  }

  lemma BracketsStand(t: Token, quantifiable: bool, used: nat, rest: string)
    requires t.Brackets? && BracketPrintable(t.contents, used, rest)
    requires !t.negated && t.contents != "" ==> t.contents[0] != '^'
    ensures TokenOk(t, quantifiable, used, rest)
  {
    forall k | 0 <= k < |t.contents| && t.contents[k] == '-' && k + 2 <= |t.contents + "]" + rest|
      ensures DashOk((t.contents + "]" + rest)[k + 2..])
    {
      DashesAgree(t.contents, rest, k);
    }
    hide DashOk, DashAccepted;
  }

  lemma CountsRead(pattern: string, i: nat, e: nat, value: nat, digits: string)
    requires ReadMin(pattern, i, 0) == Some(Number(value, e)) && i < e && digits == pattern[i..e]
    ensures digits != "" && IsDecimalText(digits) && CountValue(digits) == value && Reads(pattern, i, digits)
  {
    MinIsDigits(pattern, i, 0);
    PatternCut(pattern, i, e, digits);
    assert IsDecimalText(digits);
    ReadMinText(pattern, i, digits);
  }

  lemma MaxRead(pattern: string, i: nat, f: nat, value: nat, digits: string)
    requires ReadMax(pattern, i, 0) == Some(Number(value, f)) && i <= f && digits == pattern[i..f]
    ensures IsDecimalText(digits) && CountValue(digits) == value && Reads(pattern, i, digits)
  {
    MaxIsDigits(pattern, i, 0);
    PatternCut(pattern, i, f, digits);
    assert IsDecimalText(digits);
    ReadMaxText(pattern, i, digits);
    assert ReadMax(pattern, f, CountValue(digits)) == Some(Number(CountValue(digits), f));
  }

  lemma BareRead(pattern: string, i: nat, e: nat, digits: string)
    requires i < |pattern| && pattern[i] == '{' && i + 1 <= e < |pattern| && pattern[e] == '}'
    requires digits == pattern[i + 1..e]
    ensures Reads(pattern, i, Text(Bare(digits))) && |Text(Bare(digits))| == e + 1 - i
  {
    var s := Text(Bare(digits));
    forall k | 0 <= k < |s| ensures pattern[i + k] == s[k] {
      if 1 <= k < e - i {
        assert s[k] == digits[k - 1] == pattern[i + k];
      }
    }
  }

  lemma RangeRead(pattern: string, i: nat, e: nat, f: nat, t: Token)
    requires t.Range? && i < |pattern| && pattern[i] == '{' && i + 1 <= e < f < |pattern|
    requires pattern[e] == ',' && pattern[f] == '}' && t.min == pattern[i + 1..e] && t.max == pattern[e + 1..f]
    requires t.lzy ==> At(pattern, f + 1) == '?'
    ensures Reads(pattern, i, Text(t)) && |Text(t)| == f - i + if t.lzy then 2 else 1
  {
    var s := Text(t);
    forall k | 0 <= k < |s| ensures pattern[i + k] == s[k] {
      if 1 <= k < e - i {
        assert s[k] == t.min[k - 1];
      } else if e + 1 - i <= k < f - i {
        assert s[k] == t.max[k - (e + 1 - i)];
      }
    }
  }

  /** What an accepted count satisfies. */
  lemma CountShape(pattern: string, i: nat, quantifiable: bool, used: nat)
    requires StepCount(pattern, i, quantifiable, used).Some?
    ensures quantifiable && ReadMin(pattern, i + 1, 0).Some? && ReadMin(pattern, i + 1, 0).value.value <= MAX_QUANTITY
    ensures var min := ReadMin(pattern, i + 1, 0).value;
      && (pattern[min.next] == '}' ==>
            StepCount(pattern, i, quantifiable, used) == Some(Step(Unset, min.next + 1, false, used)))
      && (pattern[min.next] == ',' ==>
            && min.next + 1 < |pattern|
            && (pattern[min.next + 1] != '}' ==>
                  var max := ReadMax(pattern, min.next + 1, 0);
                  max.Some? && min.value <= max.value.value <= MAX_QUANTITY))
  {
    hide ReadMin, ReadMax;
  }

  lemma SplitCount(pattern: string, i: nat, quantifiable: bool, used: nat) returns (t: Token)
    requires i < |pattern| && pattern[i] == '{' && StepCount(pattern, i, quantifiable, used).Some?
    ensures Reading(pattern, i, quantifiable, used, t)
  {
    hide ReadMin, ReadMax, Reads, CountValue, IsDecimalText, Text, StepBracket, StepCount, StepEscape, StepQuantifier;
    CountShape(pattern, i, quantifiable, used);
    var min := ReadMin(pattern, i + 1, 0).value;
    if pattern[min.next] == '}' {
      var digits := pattern[i + 1..min.next];
      CountsRead(pattern, i + 1, min.next, min.value, digits);
      t := Bare(digits);
      BareRead(pattern, i, min.next, digits);
    } else {
      t := SplitRange(pattern, i, quantifiable, used);
    }
  }

  lemma SplitRange(pattern: string, i: nat, quantifiable: bool, used: nat) returns (t: Token)
    requires i < |pattern| && pattern[i] == '{' && StepCount(pattern, i, quantifiable, used).Some?
    requires ReadMin(pattern, i + 1, 0).Some? && pattern[ReadMin(pattern, i + 1, 0).value.next] == ','
    ensures Reading(pattern, i, quantifiable, used, t)
  {
    hide ReadMin, ReadMax, Reads, CountValue, IsDecimalText, Text, StepBracket, StepCount, StepEscape, StepQuantifier;
    CountShape(pattern, i, quantifiable, used);
    var min := ReadMin(pattern, i + 1, 0).value;
    var e := min.next;
    var open := pattern[e + 1] == '}';
    var max := if open then Number(MAX_QUANTITY, e + 1) else ReadMax(pattern, e + 1, 0).value;
    t := Range(pattern[i + 1..e], pattern[e + 1..max.next], At(pattern, max.next + 1) == '?');
    RangeTexts(pattern, i, e, min.value, max, open, t);
    StepCountRange(pattern, i, e, max.next, min.value, max.value, open, used);
  }

  lemma RangeTexts(pattern: string, i: nat, e: nat, min: nat, max: Number, open: bool, t: Token)
    requires i < |pattern| && pattern[i] == '{' && i + 1 < e
    requires ReadMin(pattern, i + 1, 0) == Some(Number(min, e)) && pattern[e] == ','
    requires e + 1 < |pattern| && (open <==> pattern[e + 1] == '}') && min <= max.value <= MAX_QUANTITY
    requires open ==> max == Number(MAX_QUANTITY, e + 1)
    requires !open ==> ReadMax(pattern, e + 1, 0) == Some(max)
    requires e + 1 <= max.next < |pattern| && pattern[max.next] == '}'
    requires t == Range(pattern[i + 1..e], pattern[e + 1..max.next], At(pattern, max.next + 1) == '?')
    ensures Reads(pattern, i, Text(t)) && |Text(t)| == max.next - i + if t.lzy then 2 else 1
    ensures i + |Text(t)| <= |pattern| && TokenOk(t, true, 0, pattern[i + |Text(t)|..])
    ensures NodeOf(t) == if t.lzy then LQuant(min, max.value) else Quant(min, max.value)
  {
    hide ReadMin, ReadMax, Reads, CountValue, IsDecimalText, Text;
    CountsRead(pattern, i + 1, e, min, t.min);
    if open {
      NoDigits();
    } else {
      MaxRead(pattern, e + 1, max.next, max.value, t.max);
    }
    assert t.max == "" <==> open;
    RangeRead(pattern, i, e, max.next, t);
    var end := i + |Text(t)|;
    var rest := pattern[end..];
    assert rest != "" ==> rest[0] == pattern[end] == At(pattern, end);
    assert !t.lzy ==> end == max.next + 1;
    RangeStands(t, rest, min, max.value);
  }

  lemma NoDigits()
    ensures IsDecimalText("")
  {
  }

  lemma RangeStands(t: Token, rest: string, min: nat, max: nat)
    requires t.Range? && (!t.lzy ==> rest == "" || rest[0] != '?')
    requires t.min != "" && IsDecimalText(t.min) && IsDecimalText(t.max) && CountValue(t.min) == min
    requires max == if t.max == "" then MAX_QUANTITY else CountValue(t.max)
    requires min <= max <= MAX_QUANTITY
    ensures TokenOk(t, true, 0, rest) && NodeOf(t) == if t.lzy then LQuant(min, max) else Quant(min, max)
  {
    hide CountValue, IsDecimalText;
  }

  lemma SplitStep(pattern: string, i: nat, quantifiable: bool, used: nat) returns (t: Token)
    requires i < |pattern| && StepNode(pattern, i, quantifiable, used).Some?
    ensures Reading(pattern, i, quantifiable, used, t)
  {
    hide Reading;
    if pattern[i] == '[' {
      t := SplitBrackets(pattern, i, quantifiable, used);
    } else if pattern[i] == '{' {
      t := SplitCount(pattern, i, quantifiable, used);
    } else {
      t := SplitSimple(pattern, i, quantifiable, used);
    }
  }

  lemma TextLonger(t: Token)
    ensures |Text(t)| > 0
  {
  }

  /** What is compiled is a sequence of tokens, and what is left when the table is full. */
  lemma {:induction false} SplitPattern(pattern: string, i: nat, j: nat, quantifiable: bool, used: nat)
    returns (ts: seq<Token>, tail: string)
    requires i <= |pattern| && j + 1 <= MAX_NODES && CompileFrom(pattern, i, j, quantifiable, used).Some?
    ensures Ends(pattern, i, Texts(ts) + tail) && TokensOk(ts, quantifiable, used, tail)
    ensures j + |ts| + 1 <= MAX_NODES && (tail == "" || j + |ts| + 1 == MAX_NODES)
    decreases |pattern| - i
  {
    hide StepNode, Ends, TokenOk, Text, Reads;
    if i >= |pattern| || j + 1 >= MAX_NODES {
      ts, tail := [], pattern[i..];
      assert Texts([]) + tail == tail;
      EndsSlice(pattern, i);
    } else {
      var t := SplitStep(pattern, i, quantifiable, used);
      TextLonger(t);
      var next := i + |Text(t)|;
      ts, tail := SplitPattern(pattern, next, j + 1, Quantifiable(t), UsedBy(t, used));
      EndsJoin(pattern, i, Text(t), Texts(ts) + tail);
      Associate(Text(t), Texts(ts), tail);
      EndsAll(pattern, next, Texts(ts) + tail);
      var all := [t] + ts;
      assert all[1..] == ts;
      ts := all;
    }
  }

  lemma EndsAll(pattern: string, i: nat, s: string)
    requires Ends(pattern, i, s)
    ensures i <= |pattern| && s == pattern[i..]
  {
    assert forall k :: 0 <= k < |s| ==> s[k] == pattern[i + k] == pattern[i..][k];
  }

  lemma WholePattern(pattern: string, s: string)
    ensures Ends(pattern, 0, s) <==> pattern == s
  {
  }

  /** The pattern is these tokens, all of it or its first 63, and they compile to this program. */
  ghost predicate Denotes(pattern: string, p: seq<Node>, ts: seq<Token>, tail: string) {
    && pattern != "" && pattern == Texts(ts) + tail
    && |ts| + 1 <= MAX_NODES && (tail == "" || |ts| + 1 == MAX_NODES)
    && TokensOk(ts, false, 0, tail)
    && p == NodesOf(ts) + [NoNode]
  }

  /** Exactly which patterns compile, and to what. */
  lemma CompileExact(pattern: string, p: seq<Node>)
    ensures Compiled(pattern) == Some(p) <==> exists ts, tail :: Denotes(pattern, p, ts, tail)
  {
    hide CompileFrom, TokensOk, Ends, Texts, NodesOf;
    if Compiled(pattern) == Some(p) {
      var ts, tail := SplitPattern(pattern, 0, 0, false, 0);
      WholePattern(pattern, Texts(ts) + tail);
      CompileTokens(pattern, 0, ts, 0, false, 0, tail);
      assert Denotes(pattern, p, ts, tail);
    }
    forall ts, tail | Denotes(pattern, p, ts, tail) ensures Compiled(pattern) == Some(p) {
      WholePattern(pattern, Texts(ts) + tail);
      CompileTokens(pattern, 0, ts, 0, false, 0, tail);
    }
  }

  /** The check of a range looks past its upper end: a range out of order is taken, and one in order can be
      refused for the character behind it. */
  lemma RangeOrderUnchecked()
    ensures Compiled("[z-a]") == Some([Class("z-a"), NoNode])
    ensures Compiled("[a-z!]") == None
  {
    var taken := [Brackets(false, "z-a")];
    assert Text(taken[0]) == "[z-a]" && taken[1..] == [];
    assert Texts(taken) == "[z-a]" && Texts(taken) + "" == "[z-a]";
    assert ("z-a" + "]" + "")[3..] == "]";
    assert TokenOk(taken[0], false, 0, "");
    assert NodesOf(taken) == [Class("z-a")] && NodesOf(taken) + [NoNode] == [Class("z-a"), NoNode];
    assert Denotes("[z-a]", [Class("z-a"), NoNode], taken, "");
    CompileExact("[z-a]", [Class("z-a"), NoNode]);
    RefusedRange();
  }

  lemma RefusedRange()
    ensures Compiled("[a-z!]") == None
  {
    var pattern := "[a-z!]";
    assert !DashAccepted(pattern, 2);
    assert ReadBracket(pattern, 2, 1) == None;
    assert ReadBracket(pattern, 1, 0) == None;
    assert StepNode(pattern, 0, false, 0) == None;
  }
}
