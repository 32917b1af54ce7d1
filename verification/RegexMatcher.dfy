/**
 The backtracking matchers.  `text` and `nodes` positions replace the source's pointers:
 position `|text|` is one past the last character, as `tend` is there.
 */
module RegexMatcher {
  import opened Wrappers
  import opened Ascii
  import opened RegexNodes
  import opened RegexSemantics

  lemma InClassUnfold(c: char, s: string)
    requires s != ""
    ensures |s| >= 3 && s[1] == '-' ==> (InClass(c, s) <==> c == s[0] || s[0] <= c <= s[2] || InClass(c, s[2..]))
    ensures !(|s| >= 3 && s[1] == '-') ==> (InClass(c, s) <==> c == s[0] || InClass(c, s[1..]))
  {
    if |s| >= 3 && s[1] == '-' {
      assert Item(s[0], s[0]) in Items(s) && Item(s[0], s[2]) in Items(s);
      if InClass(c, s[2..]) {
        var it :| it in Items(s[2..]) && it.lo <= c <= it.hi;
        assert it in Items(s);
      }
    } else {
      assert Item(s[0], s[0]) in Items(s);
      if InClass(c, s[1..]) {
        var it :| it in Items(s[1..]) && it.lo <= c <= it.hi;
        assert it in Items(s);
      }
    }
  }

  method MatchCharacterClass(c: char, s: string) returns (r: bool)
    requires '\\' !in s
    ensures r <==> InClass(c, s)
  {
    var p := 0;
    while p < |s|
      invariant 0 <= p <= |s|
      invariant InClass(c, s) <==> InClass(c, s[p..])
    {
      InClassUnfold(c, s[p..]);
      if c == s[p] {
        return true;
      }
      ghost var start := p;
      p := p + 1;
      assert s[start..][1..] == s[p..];
      if p == |s| || s[p] != '-' || p + 1 == |s| {
        continue;
      }
      if s[p - 1] <= c && c <= s[p + 1] {
        return true;
      }
      assert s[start..][2..] == s[p + 1..];
      p := p + 1;
    }
    assert s[p..] == "";
    return false;
  }

  method MatchOne(n: Node, c: char) returns (r: bool)
    requires PlainClasses(n)
    ensures r <==> OneMatches(n, c)
  {
    match n {
      case Char(ch) => r := ch == c;
      case Dot => r := c != '\n' && c != '\r';
      case Class(s) => r := MatchCharacterClass(c, s);
      case NClass(s) => r := MatchCharacterClass(c, s); r := !r;
      case Digit => r := IsDigit(c);
      case NDigit => r := !IsDigit(c);
      case Alpha => r := IsAlnum(c);
      case NAlpha => r := !IsAlnum(c);
      case Space => r := IsSpace(c);
      case NSpace => r := !IsSpace(c);
      case _ => r := false;
    }
  }

  /** Where a scan over a repeated node stops, no larger count is possible. */
  lemma CountBound(p: seq<Node>, text: string, n: nat, i: nat, t: nat)
    requires n + 1 < |p| && IsQuantifier(p[n + 1]) && i <= t <= |text|
    requires t - i == MaxCount(p[n + 1]) || t == |text| || !OneMatches(p[n], text[t])
    ensures forall k: nat | Repeats(p, text, n, i, k) :: k <= t - i
  {
  }

  /** Greedy repetition: take as many as allowed, then give back one at a time. */
  method MatchQuantity(nodes: array<Node>, ghost p: seq<Node>, n: nat, text: string, i: nat, min: nat, max: nat)
    returns (end: Option<nat>)
    requires WellFormed(p) && p <= nodes[..] && n + 2 < |p| && i <= |text| && !p[n].NoNode?
    requires IsQuantifier(p[n + 1]) && !IsLazy(p[n + 1])
    requires min == MinCount(p[n + 1]) && max == MaxCount(p[n + 1])
    ensures Answer(p, text, n, i, end)
    decreases |p| - n, 0
  {
    var t: int, left := i, max;
    while left > 0 && t < |text|
      invariant i <= t <= |text| && t - i == max - left && left >= 0
      invariant AllMatch(p[n], text, i, t)
    {
      var one := MatchOne(nodes[n], text[t]);
      if !one {
        break;
      }
      t, left := t + 1, left - 1;
    }
    ghost var most := t - i;
    CountBound(p, text, n, i, t);
    while t >= i + min
      invariant i - 1 <= t <= i + most
      invariant t >= i + min - 1 || t == i + most
      invariant forall k: nat | Repeats(p, text, n, i, k) && i + k > t :: NoDerivation(p, text, n + 2, i + k)
    {
      end := MatchPattern(nodes, p, n + 2, text, t);
      if end.Some? {
        ChooseCount(p, text, n, i, t - i, end.value);
        return;
      }
      t := t - 1;
    }
    NoCount(p, text, n, i);
    return None;
  }

  /** Lazy repetition: take as few as allowed, then add one at a time. */
  method MatchQuantityLazy(nodes: array<Node>, ghost p: seq<Node>, n: nat, text: string, i: nat, min: nat, max: nat)
    returns (end: Option<nat>)
    requires WellFormed(p) && p <= nodes[..] && n + 2 < |p| && i <= |text| && !p[n].NoNode?
    requires IsQuantifier(p[n + 1]) && IsLazy(p[n + 1])
    requires min == MinCount(p[n + 1]) <= max == MaxCount(p[n + 1])
    ensures Answer(p, text, n, i, end)
    decreases |p| - n, 0
  {
    var t, need := i, min;
    var left := max - min;
    while need > 0 && t < |text|
      invariant i <= t <= |text| && t - i == min - need && need >= 0
      invariant AllMatch(p[n], text, i, t)
    {
      var one := MatchOne(nodes[n], text[t]);
      if !one {
        break;
      }
      t, need := t + 1, need - 1;
    }
    if need > 0 {
      assert t == |text| || !OneMatches(p[n], text[t]);
      assert forall k: nat :: !Repeats(p, text, n, i, k);
      NoCount(p, text, n, i);
      return None;
    }
    end := MatchPattern(nodes, p, n + 2, text, t);
    if end.Some? {
      ChooseCount(p, text, n, i, t - i, end.value);
      return;
    }
    while left > 0 && t < |text|
      invariant i + min <= t <= |text| && t - i == max - left && left >= 0
      invariant AllMatch(p[n], text, i, t)
      invariant forall k: nat | Repeats(p, text, n, i, k) && i + k <= t :: NoDerivation(p, text, n + 2, i + k)
    {
      var one := MatchOne(nodes[n], text[t]);
      if !one {
        break;
      }
      t, left := t + 1, left - 1;
      end := MatchPattern(nodes, p, n + 2, text, t);
      if end.Some? {
        ChooseCount(p, text, n, i, t - i, end.value);
        return;
      }
    }
    CountBound(p, text, n, i, t);
    NoCount(p, text, n, i);
    return None;
  }

  method MatchPattern(nodes: array<Node>, ghost p: seq<Node>, n0: nat, text: string, i: nat) returns (end: Option<nat>)
    requires WellFormed(p) && p <= nodes[..] && n0 < |p| && i <= |text|
    requires !IsQuantifier(p[n0])
    ensures Answer(p, text, n0, i, end)
    decreases |p| - n0, 1
  {
    var n: nat, t: nat := n0, i;
    while true
      invariant n0 <= n < |p| && t <= |text| && !IsQuantifier(p[n])
      invariant forall r :: Answer(p, text, n, t, r) ==> Answer(p, text, n0, i, r)
      decreases |p| - n
    {
      if nodes[n].NoNode? {
        assert Preferred(p, text, n, t, [], t);
        return Some(t);
      }
      if nodes[n].End? && nodes[n + 1].NoNode? {
        assert t == |text| ==> Preferred(p, text, n, t, [], t);
        return if t == |text| then Some(t) else None;
      }
      if IsQuantifier(nodes[n + 1]) {
        assert QuantifierPlaced(p, n + 1);
        match nodes[n + 1] {
          case QMark => end := MatchQuantity(nodes, p, n, text, t, 0, 1);
          case LQMark => end := MatchQuantityLazy(nodes, p, n, text, t, 0, 1);
          case Quant(min, max) => end := MatchQuantity(nodes, p, n, text, t, min, max);
          case LQuant(min, max) => end := MatchQuantityLazy(nodes, p, n, text, t, min, max);
          case Star => end := MatchQuantity(nodes, p, n, text, t, 0, MAX_PLUS_STAR);
          case LStar => end := MatchQuantityLazy(nodes, p, n, text, t, 0, MAX_PLUS_STAR);
          case Plus => end := MatchQuantity(nodes, p, n, text, t, 1, MAX_PLUS_STAR);
          case LPlus => end := MatchQuantityLazy(nodes, p, n, text, t, 1, MAX_PLUS_STAR);
        }
        return;
      }
      if t == |text| {
        return None;
      }
      var one := MatchOne(nodes[n], text[t]);
      if !one {
        return None;
      }
      forall r | Answer(p, text, n + 1, t + 1, r)
        ensures Answer(p, text, n, t, r)
      {
        SingleStep(p, text, n, t, r);
      }
      n, t := n + 1, t + 1;
    }
  }
}
