/**
 What the compiler does to a pattern, one node at a time.  Reading `pattern[i]` at or past the
 end yields NUL, as the terminator of a C string does.
 */
module RegexCompiler {
  import opened Wrappers
  import opened Ascii
  import opened RegexNodes

  // An `unsigned long` wraps at this bound.
  const WORD: nat := 0x1_0000_0000_0000_0000

  function At(pattern: string, i: nat): char {
    if i < |pattern| then pattern[i] else '\0'
  }

  predicate IsMeta(c: char) { c in {'s', 'S', 'w', 'W', 'd', 'D'} }

  datatype Bracket = Bracket(contents: string, close: nat, used: nat)

  /** The check behind a `-` inside brackets: the character two places on (one more when it is escaped)
      must not sort below `-`, unless it closes the bracket, is missing, or is a character class. */
  predicate DashAccepted(pattern: string, i: nat) {
    || i + 2 >= |pattern|
    || pattern[i + 2] == ']'
    || (pattern[i + 2] == '\\' && (i + 3 >= |pattern| || IsMeta(pattern[i + 3])))
    || (if pattern[i + 2] == '\\' then pattern[i + 3] else pattern[i + 2]) >= '-'
  }

  /** Bracket contents from `i` up to the closing `]`; `used` counts bytes of the shared buffer. */
  function ReadBracket(pattern: string, i: nat, used: nat): (r: Option<Bracket>)
    ensures r.Some? ==> i <= r.value.close < |pattern| && r.value.contents == pattern[i..r.value.close]
    ensures r.Some? ==> '\\' !in r.value.contents && ']' !in r.value.contents && pattern[r.value.close] == ']'
    ensures r.Some? ==> r.value.used == used + |r.value.contents|
    decreases |pattern| - i
  {
    if i >= |pattern| then None
    else if pattern[i] == ']' then Some(Bracket("", i, used))
    else if pattern[i] == '\\' || used > BUFFER_LEN - 2 then None
    else if pattern[i] == '-' && !DashAccepted(pattern, i) then None
    else
      match ReadBracket(pattern, i + 1, used + 1)
      case None => None
      case Some(b) => Some(Bracket([pattern[i]] + b.contents, b.close, b.used))
  }

  function Wrap(n: nat): nat { if n < WORD then n else n % WORD }

  datatype Number = Number(value: nat, next: nat)

  /** The lower bound of a count: digits, at least one, up to a `,` or `}`. */
  function ReadMin(pattern: string, i: nat, value: nat): (r: Option<Number>)
    ensures r.Some? ==> i < r.value.next < |pattern| && (pattern[r.value.next] == ',' || pattern[r.value.next] == '}')
    decreases |pattern| - i
  {
    if i >= |pattern| || !IsDigit(pattern[i]) then None
    else
      var v := Wrap(10 * value + HexDecode(pattern[i]));
      if At(pattern, i + 1) == ',' || At(pattern, i + 1) == '}' then Some(Number(v, i + 1))
      else ReadMin(pattern, i + 1, v)
  }

  /** The upper bound of a count: digits up to a `}`. */
  function ReadMax(pattern: string, i: nat, value: nat): (r: Option<Number>)
    ensures r.Some? ==> i <= r.value.next < |pattern| && pattern[r.value.next] == '}'
    decreases |pattern| - i
  {
    if At(pattern, i) == '}' then Some(Number(value, i))
    else if i >= |pattern| || !IsDigit(pattern[i]) then None
    else ReadMax(pattern, i + 1, Wrap(10 * value + HexDecode(pattern[i])))
  }

  datatype Step = Step(node: Node, next: nat, quantifiable: bool, used: nat)

  function StepQuantifier(pattern: string, i: nat, quantifiable: bool, used: nat,
                      greedy: Node, lzy: Node): Option<Step> {
    if !quantifiable then None
    else if At(pattern, i + 1) == '?' then Some(Step(lzy, i + 2, false, used))
    else Some(Step(greedy, i + 1, false, used))
  }

  function StepEscape(pattern: string, i: nat, used: nat): Option<Step> {
    if i + 1 >= |pattern| then None
    else
      var node := match pattern[i + 1]
        case 'd' => Digit
        case 'D' => NDigit
        case 'w' => Alpha
        case 'W' => NAlpha
        case 's' => Space
        case 'S' => NSpace
        case c => Char(c);
      Some(Step(node, i + 2, true, used))
  }

  function StepBracket(pattern: string, i: nat, used: nat): Option<Step> {
    var negated := At(pattern, i + 1) == '^';
    match ReadBracket(pattern, if negated then i + 2 else i + 1, used)
    case None => None
    case Some(b) =>
      Some(Step(if negated then NClass(b.contents) else Class(b.contents), b.close + 1, true, b.used + 1))
  }

  function StepCount(pattern: string, i: nat, quantifiable: bool, used: nat): Option<Step> {
    if !quantifiable then None
    else
      match ReadMin(pattern, i + 1, 0)
      case None => None
      case Some(min) =>
        if min.value > MAX_QUANTITY then None
        else if pattern[min.next] == '}' then Some(Step(Unset, min.next + 1, false, used))
        else if min.next + 1 >= |pattern| then None
        else
          var max := if pattern[min.next + 1] == '}' then Some(Number(MAX_QUANTITY, min.next + 1))
                     else ReadMax(pattern, min.next + 1, 0);
          match max
          case None => None
          case Some(m) =>
            if m.value > MAX_QUANTITY || m.value < min.value then None
            else if At(pattern, m.next + 1) == '?' then Some(Step(LQuant(min.value, m.value), m.next + 2, false, used))
            else Some(Step(Quant(min.value, m.value), m.next + 1, false, used))
  }

  /** One iteration of the compiler's loop at pattern position `i`. */
  function StepNode(pattern: string, i: nat, quantifiable: bool, used: nat): (r: Option<Step>)
    requires i < |pattern|
    ensures r.Some? ==> r.value.next > i
    ensures r.Some? && IsQuantifier(r.value.node) ==> quantifiable && MinCount(r.value.node) <= MaxCount(r.value.node)
    ensures r.Some? ==> (r.value.quantifiable <==> IsOneChar(r.value.node))
    ensures r.Some? ==> PlainClasses(r.value.node) && !r.value.node.NoNode?
  {
    match pattern[i]
    case '^' => Some(Step(Begin, i + 1, false, used))
    case '$' => Some(Step(End, i + 1, false, used))
    case '.' => Some(Step(Dot, i + 1, true, used))
    case '*' => StepQuantifier(pattern, i, quantifiable, used, Star, LStar)
    case '+' => StepQuantifier(pattern, i, quantifiable, used, LPlus, LPlus)
    case '?' => StepQuantifier(pattern, i, quantifiable, used, QMark, LQMark)
    case '\\' => StepEscape(pattern, i, used)
    case '[' => StepBracket(pattern, i, used)
    case '{' => StepCount(pattern, i, quantifiable, used)
    case c => Some(Step(Char(c), i + 1, true, used))
  }

  /** The nodes compiled from position `i` on, when `j` entries are already filled.  At most 63 are
      filled; what is left of a longer pattern is dropped. */
  function CompileFrom(pattern: string, i: nat, j: nat, quantifiable: bool, used: nat): (r: Option<seq<Node>>)
    requires j + 1 <= MAX_NODES
    ensures r.Some? ==> 1 <= |r.value| <= MAX_NODES - j
    decreases |pattern| - i
  {
    if i >= |pattern| || j + 1 >= MAX_NODES then Some([NoNode])
    else
      match StepNode(pattern, i, quantifiable, used)
      case None => None
      case Some(s) =>
        match CompileFrom(pattern, s.next, j + 1, s.quantifiable, s.used)
        case None => None
        case Some(rest) => Some([s.node] + rest)
  }

  function Compiled(pattern: string): Option<seq<Node>> {
    if pattern == "" then None else CompileFrom(pattern, 0, 0, false, 0)
  }

  predicate NoBareCount(p: seq<Node>) { forall k :: 0 <= k < |p| ==> !p[k].Unset? }

  lemma {:induction false} CompileFromShape(pattern: string, i: nat, j: nat, quantifiable: bool, used: nat)
    requires j + 1 <= MAX_NODES
    requires CompileFrom(pattern, i, j, quantifiable, used).Some?
    ensures var p := CompileFrom(pattern, i, j, quantifiable, used).value;
      && p[|p| - 1].NoNode?
      && (forall k :: 0 <= k < |p| - 1 ==> !p[k].NoNode?)
      && (forall k :: 0 <= k < |p| ==> PlainClasses(p[k]))
      && (IsQuantifier(p[0]) ==> quantifiable && MinCount(p[0]) <= MaxCount(p[0]))
      && (forall k :: 1 <= k < |p| && IsQuantifier(p[k]) ==> QuantifierPlaced(p, k))
    decreases |pattern| - i
  {
    if i >= |pattern| || j + 1 >= MAX_NODES {
    } else {
      var s := StepNode(pattern, i, quantifiable, used).value;
      CompileFromShape(pattern, s.next, j + 1, s.quantifiable, s.used);
      var rest := CompileFrom(pattern, s.next, j + 1, s.quantifiable, s.used).value;
      var p := [s.node] + rest;
      assert CompileFrom(pattern, i, j, quantifiable, used).value == p;
      forall k | 1 <= k < |p|
        ensures PlainClasses(p[k]) && (IsQuantifier(p[k]) ==> QuantifierPlaced(p, k))
      {
        assert p[k] == rest[k - 1];
        if k > 1 {
          assert p[k - 1] == rest[k - 2];
          assert IsQuantifier(rest[k - 1]) ==> QuantifierPlaced(rest, k - 1);
        }
      }
    }
  }

  // Bare counts, as a reader of the pattern sees them

  /** A count that closes before any comma. */
  predicate BareCountAt(pattern: string, i: nat)
    requires i < |pattern|
  {
    pattern[i] == '{' && Find(pattern, '}', i + 1) < Find(pattern, ',', i + 1)
  }

  /** Where what begins at `i` ends: an escape, a bracket, a count and its laziness, or one character. */
  function TokenEnd(pattern: string, i: nat): (end: nat)
    requires i < |pattern|
    ensures end > i
  {
    match pattern[i]
    case '\\' => i + 2
    case '[' =>
      var start := if At(pattern, i + 1) == '^' then i + 2 else i + 1;
      Find(pattern, ']', start) + 1
    case '{' =>
      var close := Find(pattern, '}', i + 1);
      if !BareCountAt(pattern, i) && At(pattern, close + 1) == '?' then close + 2 else close + 1
    case c => if c in {'*', '+', '?'} && At(pattern, i + 1) == '?' then i + 2 else i + 1
  }

  /** A bare count begins within the 63 first tokens from `i` on, of which `j` are counted. */
  predicate HasBareCount(pattern: string, i: nat, j: nat)
    decreases |pattern| - i
  {
    && i < |pattern| && j + 1 < MAX_NODES
    && (BareCountAt(pattern, i) || HasBareCount(pattern, TokenEnd(pattern, i), j + 1))
  }

  lemma {:induction false} MinIsDigits(pattern: string, i: nat, value: nat)
    requires ReadMin(pattern, i, value).Some?
    ensures forall k :: i <= k < ReadMin(pattern, i, value).value.next ==> IsDigit(pattern[k])
    decreases |pattern| - i
  {
    if At(pattern, i + 1) != ',' && At(pattern, i + 1) != '}' {
      MinIsDigits(pattern, i + 1, Wrap(10 * value + HexDecode(pattern[i])));
    }
  }

  lemma {:induction false} MaxIsDigits(pattern: string, i: nat, value: nat)
    requires ReadMax(pattern, i, value).Some?
    ensures forall k :: i <= k < ReadMax(pattern, i, value).value.next ==> IsDigit(pattern[k])
    decreases |pattern| - i
  {
    if At(pattern, i) != '}' {
      MaxIsDigits(pattern, i + 1, Wrap(10 * value + HexDecode(pattern[i])));
    }
  }

  lemma BracketEnds(pattern: string, i: nat, used: nat)
    requires ReadBracket(pattern, i, used).Some?
    ensures Find(pattern, ']', i) == ReadBracket(pattern, i, used).value.close
  {
    var b := ReadBracket(pattern, i, used).value;
    forall k | i <= k < b.close ensures pattern[k] != ']' { assert b.contents[k - i] == pattern[k]; }
    FindAt(pattern, ']', i, b.close);
  }

  lemma CountEnds(pattern: string, i: nat, quantifiable: bool, used: nat)
    requires i < |pattern| && pattern[i] == '{' && StepCount(pattern, i, quantifiable, used).Some?
    ensures var r := StepCount(pattern, i, quantifiable, used).value;
      (r.node.Unset? <==> BareCountAt(pattern, i)) && r.next == TokenEnd(pattern, i)
  {
    hide ReadMin, ReadMax, Find, IsDigit;
    MinIsDigits(pattern, i + 1, 0);
    var min := ReadMin(pattern, i + 1, 0).value;
    NoMarks(pattern, i + 1, min.next);
    if pattern[min.next] == '}' {
      FindAt(pattern, '}', i + 1, min.next);
    } else if pattern[min.next + 1] == '}' {
      FindAt(pattern, '}', i + 1, min.next + 1);
    } else {
      MaxIsDigits(pattern, min.next + 1, 0);
      var max := ReadMax(pattern, min.next + 1, 0).value;
      NoMarks(pattern, min.next + 1, max.next);
      FindAt(pattern, '}', i + 1, max.next);
    }
  }

  lemma NoMarks(pattern: string, i: nat, j: nat)
    requires i <= j <= |pattern| && forall k :: i <= k < j ==> IsDigit(pattern[k])
    ensures forall k :: i <= k < j ==> pattern[k] != ',' && pattern[k] != '}'
  {
  }

  /** An accepted step reads exactly one token, and leaves its node unset exactly at a bare count. */
  lemma StepReadsToken(pattern: string, i: nat, quantifiable: bool, used: nat)
    requires i < |pattern| && StepNode(pattern, i, quantifiable, used).Some?
    ensures var r := StepNode(pattern, i, quantifiable, used).value;
      (r.node.Unset? <==> BareCountAt(pattern, i)) && r.next == TokenEnd(pattern, i)
  {
    hide ReadMin, ReadMax, ReadBracket;
    if pattern[i] == '[' {
      BracketEnds(pattern, if At(pattern, i + 1) == '^' then i + 2 else i + 1, used);
    } else if pattern[i] == '{' {
      CountEnds(pattern, i, quantifiable, used);
    }
  }

  lemma {:induction false} BareCountExact(pattern: string, i: nat, j: nat, quantifiable: bool, used: nat)
    requires j + 1 <= MAX_NODES
    requires CompileFrom(pattern, i, j, quantifiable, used).Some?
    ensures NoBareCount(CompileFrom(pattern, i, j, quantifiable, used).value) <==> !HasBareCount(pattern, i, j)
    decreases |pattern| - i
  {
    hide StepNode, BareCountAt, TokenEnd;
    if i < |pattern| && j + 1 < MAX_NODES {
      StepReadsToken(pattern, i, quantifiable, used);
      var s := StepNode(pattern, i, quantifiable, used).value;
      BareCountExact(pattern, s.next, j + 1, s.quantifiable, s.used);
      var rest := CompileFrom(pattern, s.next, j + 1, s.quantifiable, s.used).value;
      var p := [s.node] + rest;
      assert CompileFrom(pattern, i, j, quantifiable, used).value == p;
      assert p[0] == s.node && p[1..] == rest;
      assert NoBareCount(p) <==> !s.node.Unset? && NoBareCount(rest) by {
        if !s.node.Unset? && NoBareCount(rest) {
          forall k | 0 <= k < |p| ensures !p[k].Unset? { assert k > 0 ==> p[k] == rest[k - 1]; }
        }
        if NoBareCount(p) {
          forall k | 0 <= k < |rest| ensures !rest[k].Unset? { assert p[k + 1] == rest[k]; }
        }
      }
    }
  }

  /** An accepted pattern compiles to a well-formed program exactly when it has no bare count. */
  lemma CompiledIsWellFormed(pattern: string)
    requires Compiled(pattern).Some?
    ensures WellFormed(Compiled(pattern).value) <==> !HasBareCount(pattern, 0, 0)
  {
    CompileFromShape(pattern, 0, 0, false, 0);
    BareCountExact(pattern, 0, 0, false, 0);
  }

  /** A bare count is accepted, and its node has no kind. */
  lemma BareCountAccepted()
    ensures Compiled("a{2}") == Some([Char('a'), Unset, NoNode]) && HasBareCount("a{2}", 0, 0)
  {
    var pattern := "a{2}";
    assert ReadMin(pattern, 2, 0) == Some(Number(2, 3));
    assert StepNode(pattern, 1, true, 0) == Some(Step(Unset, 4, false, 0));
    assert CompileFrom(pattern, 4, 2, false, 0) == Some([NoNode]);
    assert CompileFrom(pattern, 1, 1, true, 0) == Some([Unset] + [NoNode]);
    assert StepNode(pattern, 0, false, 0) == Some(Step(Char('a'), 1, true, 0));
    assert CompileFrom(pattern, 0, 0, false, 0) == Some([Char('a')] + ([Unset] + [NoNode]));
    assert [Char('a')] + ([Unset] + [NoNode]) == [Char('a'), Unset, NoNode];
    assert ([Char('a'), Unset, NoNode])[1].Unset?;
    BareCountExact(pattern, 0, 0, false, 0);
  }

  /** No accepted pattern compiles to the greedy plus. */
  lemma {:induction false} PlusIsNeverGreedy(pattern: string, i: nat, j: nat, quantifiable: bool, used: nat)
    requires j + 1 <= MAX_NODES
    requires CompileFrom(pattern, i, j, quantifiable, used).Some?
    ensures Plus !in CompileFrom(pattern, i, j, quantifiable, used).value
    decreases |pattern| - i
  {
    if i < |pattern| && j + 1 < MAX_NODES {
      var s := StepNode(pattern, i, quantifiable, used).value;
      assert !s.node.Plus? by { hide ReadMin, ReadMax, ReadBracket; }
      hide StepNode;
      PlusIsNeverGreedy(pattern, s.next, j + 1, s.quantifiable, s.used);
    }
  }
}
