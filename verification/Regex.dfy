/**
 The regular expression object: a table of 64 nodes that `Compile` fills and `Match` runs.
 The bytes a bracket expression keeps in the shared buffer are modelled as a value held by its
 node; `index` counts them.
 */
module RegexEngine {
  import opened Wrappers
  import opened Ascii
  import opened RegexNodes
  import opened RegexSemantics
  import opened RegexCompiler
  import opened RegexMatcher

  datatype Found = Found(start: nat, end: nat)

  /** `found` is the leftmost match of program `p` in `text`, ended where the preferred derivation ends.
      A leading `^` allows only the start of the text.  An empty text is never matched. */
  ghost predicate LeftmostAnswer(p: seq<Node>, text: string, found: Option<Found>)
    requires WellFormed(p)
  {
    if text == "" then found == None
    else if p[0].Begin? then
      match found
      case None => NoDerivation(p, text, 1, 0)
      case Some(f) => f.start == 0 && Answer(p, text, 1, 0, Some(f.end))
    else
      match found
      case None => forall s: nat | s <= |text| :: NoDerivation(p, text, 0, s)
      case Some(f) =>
        && f.start <= |text|
        && Answer(p, text, 0, f.start, Some(f.end))
        && forall s: nat | s < f.start :: NoDerivation(p, text, 0, s)
  }

  lemma LeftmostAnswerIsUnique(p: seq<Node>, text: string, a: Option<Found>, b: Option<Found>)
    requires WellFormed(p) && LeftmostAnswer(p, text, a) && LeftmostAnswer(p, text, b)
    ensures a == b
  {
    if text != "" {
      var n := if p[0].Begin? then 1 else 0;
      if a.Some? { AnswerExcludes(p, text, n, a.value.start, a.value.end); }
      if b.Some? { AnswerExcludes(p, text, n, b.value.start, b.value.end); }
      if a.Some? && b.Some? {
        AnswerIsUnique(p, text, n, a.value.start, Some(a.value.end), Some(b.value.end));
      }
    }
  }

  lemma AnswerExcludes(p: seq<Node>, text: string, n: nat, i: nat, j: nat)
    requires WellFormed(p) && n < |p| && i <= |text|
    requires Answer(p, text, n, i, Some(j))
    ensures !NoDerivation(p, text, n, i)
  {
    var c :| Preferred(p, text, n, i, c, j);
  }

  lemma NoQuantifierAfter(p: seq<Node>, k: nat)
    requires WellFormed(p) && k < |p|
    requires k == 0 || !IsOneChar(p[k - 1])
    ensures !IsQuantifier(p[k])
  {
    assert IsQuantifier(p[k]) ==> QuantifierPlaced(p, k);
  }

  /** `+` is the lazy plus, as `+?` is: on two letters it matches one. */
  lemma PlusIsLazy()
    ensures Compiled("a+") == Compiled("a+?") == Some([Char('a'), LPlus, NoNode])
    ensures WellFormed([Char('a'), LPlus, NoNode])
    ensures LeftmostAnswer([Char('a'), LPlus, NoNode], "aa", Some(Found(0, 1)))
  {
    var p := [Char('a'), LPlus, NoNode];
    PlusCompiled("a+");
    PlusCompiled("a+?");
    hide Compiled, Answer;
    assert QuantifierPlaced(p, 1);
    LazyPlusTakesOne(p);
  }

  lemma LazyPlusTakesOne(p: seq<Node>)
    requires p == [Char('a'), LPlus, NoNode] && WellFormed(p)
    ensures Answer(p, "aa", 0, 0, Some(1))
  {
    assert Derives(p, "aa", 2, 1, [], 1);
    assert Preferred(p, "aa", 2, 1, [], 1);
    assert AllMatch(p[0], "aa", 0, 1);
    assert Repeats(p, "aa", 0, 0, 1);
    ChooseCount(p, "aa", 0, 0, 1, 1);
  }

  lemma PlusCompiled(pattern: string)
    requires pattern == "a+" || pattern == "a+?"
    ensures Compiled(pattern) == Some([Char('a'), LPlus, NoNode])
  {
    assert StepNode(pattern, 0, false, 0) == Some(Step(Char('a'), 1, true, 0));
    assert StepNode(pattern, 1, true, 0) == Some(Step(LPlus, |pattern|, false, 0));
    assert CompileFrom(pattern, |pattern|, 2, false, 0) == Some([NoNode]);
    assert CompileFrom(pattern, 1, 1, true, 0) == Some([LPlus] + [NoNode]);
    assert CompileFrom(pattern, 0, 0, false, 0) == Some([Char('a')] + ([LPlus] + [NoNode]));
    assert [Char('a')] + ([LPlus] + [NoNode]) == [Char('a'), LPlus, NoNode];
  }

  class Regex {
    const nodes: array<Node>

    // What the last successful Compile left at the front of the table.
    ghost var program: seq<Node>

    ghost predicate Valid()
      reads this, nodes
    {
      nodes.Length == MAX_NODES && program <= nodes[..]
    }

    constructor ()
      ensures Valid() && program == [] && fresh(nodes)
    {
      nodes := new Node[MAX_NODES](_ => Unset);
      program := [];
    }

    /** Skips the digits of a count's lower bound. */
    static method ParseMin(pattern: string, start: nat) returns (r: Option<Number>)
      ensures r == ReadMin(pattern, start, 0)
    {
      var i: nat, value: nat := start, 0;
      while true
        invariant ReadMin(pattern, start, 0) == ReadMin(pattern, i, value)
        decreases |pattern| - i
      {
        if i >= |pattern| || pattern[i] < '0' || pattern[i] > '9' {
          return None;
        }
        value := Wrap(10 * value + HexDecode(pattern[i]));
        i := i + 1;
        if At(pattern, i) == ',' || At(pattern, i) == '}' {
          return Some(Number(value, i));
        }
      }
    }

    static method ParseMax(pattern: string, start: nat) returns (r: Option<Number>)
      ensures r == ReadMax(pattern, start, 0)
    {
      var i: nat, value: nat := start, 0;
      while At(pattern, i) != '}'
        invariant ReadMax(pattern, start, 0) == ReadMax(pattern, i, value)
        decreases |pattern| - i
      {
        if i >= |pattern| || pattern[i] < '0' || pattern[i] > '9' {
          return None;
        }
        value := Wrap(10 * value + HexDecode(pattern[i]));
        i := i + 1;
      }
      return Some(Number(value, i));
    }

    static method ParseBracket(pattern: string, start: nat, used: nat) returns (r: Option<Bracket>)
      ensures r == ReadBracket(pattern, start, used)
    {
      var i: nat, index: nat := start, used;
      var contents := "";
      assert forall b: string :: "" + b == b;
      while i < |pattern| && pattern[i] != ']'
        invariant start <= i
        invariant ReadBracket(pattern, start, used) ==
                  match ReadBracket(pattern, i, index)
                  case None => None
                  case Some(b) => Some(Bracket(contents + b.contents, b.close, b.used))
        decreases |pattern| - i
      {
        if pattern[i] == '\\' {
          return None;
        }
        if index > BUFFER_LEN - 2 {
          return None;
        }
        if pattern[i] == '-' && !DashAccepted(pattern, i) {
          return None;
        }
        ghost var before := contents;
        contents, index := contents + [pattern[i]], index + 1;
        assert forall b: string :: before + ([pattern[i]] + b) == contents + b;
        i := i + 1;
      }
      if i >= |pattern| {
        return None;
      }
      assert contents + "" == contents;
      return Some(Bracket(contents, i, index));
    }

    /** One round of the compiler's loop. */
    static method CompileNode(pattern: string, i: nat, quantifiable: bool, index: nat) returns (r: Option<Step>)
      requires i < |pattern|
      ensures r == StepNode(pattern, i, quantifiable, index)
    {
      hide ReadMin, ReadMax, ReadBracket;
      var node, next, q, used := Unset, i + 1, false, index;
      match pattern[i] {
        case '^' => node := Begin;
        case '$' => node := End;
        case '.' => node, q := Dot, true;
        case '*' =>
          if !quantifiable { return None; }
          if At(pattern, i + 1) == '?' { node, next := LStar, i + 2; } else { node := Star; }
        case '+' =>
          if !quantifiable { return None; }
          if At(pattern, i + 1) == '?' { node, next := LPlus, i + 2; } else { node := LPlus; }
        case '?' =>
          if !quantifiable { return None; }
          if At(pattern, i + 1) == '?' { node, next := LQMark, i + 2; } else { node := QMark; }
        case '\\' =>
          if i + 1 >= |pattern| { return None; }
          q, next := true, i + 2;
          match pattern[i + 1] {
            case 'd' => node := Digit;
            case 'D' => node := NDigit;
            case 'w' => node := Alpha;
            case 'W' => node := NAlpha;
            case 's' => node := Space;
            case 'S' => node := NSpace;
            case c => node := Char(c);
          }
        case '[' =>
          q := true;
          var negated := At(pattern, i + 1) == '^';
          var b := ParseBracket(pattern, if negated then i + 2 else i + 1, index);
          if b.None? { return None; }
          node := if negated then NClass(b.value.contents) else Class(b.value.contents);
          next, used := b.value.close + 1, b.value.used + 1;
        case '{' =>
          if !quantifiable { return None; }
          var min := ParseMin(pattern, i + 1);
          if min.None? || min.value.value > MAX_QUANTITY { return None; }
          next := min.value.next + 1;
          if pattern[min.value.next] == ',' {
            if next >= |pattern| { return None; }
            var max := Some(Number(MAX_QUANTITY, next));
            if pattern[next] != '}' {
              max := ParseMax(pattern, next);
              if max.None? || max.value.value > MAX_QUANTITY || max.value.value < min.value.value { return None; }
            }
            next := max.value.next + 1;
            if At(pattern, next) == '?' {
              node, next := LQuant(min.value.value, max.value.value), next + 1;
            } else {
              node := Quant(min.value.value, max.value.value);
            }
          }
        case c => node, q := Char(c), true;
      }
      return Some(Step(node, next, q, used));
    }

    method Compile(pattern: string) returns (ok: bool)
      requires Valid()
      modifies this, nodes
      ensures Valid()
      ensures ok <==> Compiled(pattern).Some?
      ensures ok ==> program == Compiled(pattern).value
      ensures ok ==> (WellFormed(program) <==> !HasBareCount(pattern, 0, 0))
      ensures !ok ==> program == []
    {
      program := [];
      if pattern == "" {
        return false;
      }
      var i: nat, j: nat, index: nat, quantifiable := 0, 0, 0, false;
      ghost var all := CompileFrom(pattern, 0, 0, false, 0);
      assert all.Some? ==> nodes[..0] + all.value == all.value;
      while i < |pattern| && j + 1 < MAX_NODES
        invariant Valid() && program == []
        invariant 0 <= j < MAX_NODES
        invariant Compiled(pattern) ==
                  match CompileFrom(pattern, i, j, quantifiable, index)
                  case None => None
                  case Some(rest) => Some(nodes[..j] + rest)
        decreases |pattern| - i
      {
        hide StepNode;
        ghost var filled := nodes[..j];
        var step := CompileNode(pattern, i, quantifiable, index);
        if step.None? {
          return false;
        }
        nodes[j] := step.value.node;
        assert nodes[..j + 1] == filled + [step.value.node];
        ghost var rest :=
          CompileFrom(pattern, step.value.next, j + 1, step.value.quantifiable, step.value.used);
        if rest.Some? {
          Associate(filled, [step.value.node], rest.value);
        }
        i, j, quantifiable, index := step.value.next, j + 1, step.value.quantifiable, step.value.used;
      }
      nodes[j] := NoNode;
      assert nodes[..j + 1] == nodes[..j] + [NoNode];
      program := nodes[..j + 1];
      hide WellFormed, HasBareCount;
      CompiledIsWellFormed(pattern);
      return true;
    }

    method Match(text: string) returns (found: Option<Found>)
      requires Valid() && WellFormed(program)
      ensures LeftmostAnswer(program, text, found)
    {
      if text == "" {
        return None;
      }
      if nodes[0].Begin? {
        NoQuantifierAfter(program, 1);
        var end := MatchPattern(nodes, program, 1, text, 0);
        return if end.Some? then Some(Found(0, end.value)) else None;
      }
      NoQuantifierAfter(program, 0);
      var start := 0;
      while start <= |text|
        invariant forall s: nat | s < start && s <= |text| :: NoDerivation(program, text, 0, s)
      {
        var end := MatchPattern(nodes, program, 0, text, start);
        if end.Some? {
          return Some(Found(start, end.value));
        }
        start := start + 1;
      }
      return None;
    }
  }
}
