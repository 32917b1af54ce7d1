/**
 The declarative meaning of matching a node program against a text: which derivations there
 are, and which of them the greedy and lazy quantifiers prefer.
 */
module RegexSemantics {
  import opened Wrappers
  import opened Ascii
  import opened RegexNodes

  /** A range `lo-hi` of a bracket expression; a single character is `lo == hi`. */
  datatype Item = Item(lo: char, hi: char)

  /** The ranges a bracket expression denotes.  Both ends of a range also stand for themselves,
      and the upper end is read again as the possible start of the next range. */
  ghost function Items(s: string): set<Item> {
    if s == "" then {}
    else if |s| >= 3 && s[1] == '-' then {Item(s[0], s[0]), Item(s[0], s[2])} + Items(s[2..])
    else {Item(s[0], s[0])} + Items(s[1..])
  }

  ghost predicate InClass(c: char, s: string) {
    exists it :: it in Items(s) && it.lo <= c <= it.hi
  }

  ghost predicate OneMatches(n: Node, c: char) {
    match n
    case Char(ch) => ch == c
    case Dot => c != '\n' && c != '\r'
    case Class(s) => InClass(c, s)
    case NClass(s) => !InClass(c, s)
    case Digit => IsDigit(c)
    case NDigit => !IsDigit(c)
    case Alpha => IsAlnum(c)
    case NAlpha => !IsAlnum(c)
    case Space => IsSpace(c)
    case NSpace => !IsSpace(c)
    case _ => false
  }

  ghost predicate AllMatch(n: Node, text: string, i: nat, j: nat)
    requires i <= j <= |text|
  {
    forall k :: i <= k < j ==> OneMatches(n, text[k])
  }

  /** The quantifier after node `n` may repeat that node `k` times starting at `text[i]`. */
  ghost predicate Repeats(p: seq<Node>, text: string, n: nat, i: nat, k: nat)
    requires n + 1 < |p| && IsQuantifier(p[n + 1])
  {
    MinCount(p[n + 1]) <= k <= MaxCount(p[n + 1]) && i + k <= |text| && AllMatch(p[n], text, i, i + k)
  }

  /** Program `p` from node `n` on matches `text[i..j]` when its quantifiers, in order,
      repeat their node `counts` times. */
  ghost predicate Derives(p: seq<Node>, text: string, n: nat, i: nat, counts: seq<nat>, j: nat)
    requires WellFormed(p) && n < |p| && i <= |text|
    decreases |p| - n
  {
    if p[n].NoNode? then
      counts == [] && j == i
    else if p[n].End? && p[n + 1].NoNode? then
      counts == [] && j == i == |text|
    else if IsQuantifier(p[n + 1]) then
      && counts != []
      && Repeats(p, text, n, i, counts[0])
      && Derives(p, text, n + 2, i + counts[0], counts[1..], j)
    else
      i < |text| && OneMatches(p[n], text[i]) && Derives(p, text, n + 1, i + 1, counts, j)
  }

  /** `a` is at least as good a choice of counts as `b`: at the first quantifier where they differ,
      a greedy one takes the larger count and a lazy one the smaller. */
  ghost predicate Prefers(p: seq<Node>, n: nat, a: seq<nat>, b: seq<nat>)
    requires WellFormed(p) && n < |p|
    decreases |p| - n
  {
    if p[n].NoNode? || (p[n].End? && p[n + 1].NoNode?) then
      true
    else if IsQuantifier(p[n + 1]) then
      && a != [] && b != []
      && (if a[0] == b[0] then Prefers(p, n + 2, a[1..], b[1..])
          else if IsLazy(p[n + 1]) then a[0] < b[0]
          else a[0] > b[0])
    else
      Prefers(p, n + 1, a, b)
  }

  ghost predicate NoDerivation(p: seq<Node>, text: string, n: nat, i: nat)
    requires WellFormed(p) && n < |p| && i <= |text|
  {
    forall counts, j :: !Derives(p, text, n, i, counts, j)
  }

  ghost predicate Preferred(p: seq<Node>, text: string, n: nat, i: nat, counts: seq<nat>, j: nat)
    requires WellFormed(p) && n < |p| && i <= |text|
  {
    && Derives(p, text, n, i, counts, j)
    && forall counts', j' :: Derives(p, text, n, i, counts', j') ==> Prefers(p, n, counts, counts')
  }

  /** `end` is what a correct matcher answers from node `n` at position `i`: nothing when no derivation
      exists, and otherwise the end of the preferred one. */
  ghost predicate Answer(p: seq<Node>, text: string, n: nat, i: nat, end: Option<nat>)
    requires WellFormed(p) && n < |p| && i <= |text|
  {
    match end
    case None => NoDerivation(p, text, n, i)
    case Some(j) => exists counts :: Preferred(p, text, n, i, counts, j)
  }

  lemma {:induction false} DerivationEnds(p: seq<Node>, text: string, n: nat, i: nat, counts: seq<nat>, j: nat)
    requires WellFormed(p) && n < |p| && i <= |text|
    requires Derives(p, text, n, i, counts, j)
    ensures i <= j <= |text|
    decreases |p| - n
  {
    if p[n].NoNode? || (p[n].End? && p[n + 1].NoNode?) {
    } else if IsQuantifier(p[n + 1]) {
      DerivationEnds(p, text, n + 2, i + counts[0], counts[1..], j);
    } else {
      DerivationEnds(p, text, n + 1, i + 1, counts, j);
    }
  }

  /** Preference decides between any two different derivations, so the preferred one is unique. */
  lemma {:induction false} PreferenceIsStrict(p: seq<Node>, text: string, n: nat, i: nat,
                                              a: seq<nat>, j: nat, b: seq<nat>, k: nat)
    requires WellFormed(p) && n < |p| && i <= |text|
    requires Derives(p, text, n, i, a, j) && Derives(p, text, n, i, b, k)
    requires Prefers(p, n, a, b) && Prefers(p, n, b, a)
    ensures a == b && j == k
    decreases |p| - n
  {
    if p[n].NoNode? || (p[n].End? && p[n + 1].NoNode?) {
    } else if IsQuantifier(p[n + 1]) {
      PreferenceIsStrict(p, text, n + 2, i + a[0], a[1..], j, b[1..], k);
      assert a == [a[0]] + a[1..] && b == [b[0]] + b[1..];
    } else {
      PreferenceIsStrict(p, text, n + 1, i + 1, a, j, b, k);
    }
  }

  lemma AnswerIsUnique(p: seq<Node>, text: string, n: nat, i: nat, r: Option<nat>, s: Option<nat>)
    requires WellFormed(p) && n < |p| && i <= |text|
    requires Answer(p, text, n, i, r) && Answer(p, text, n, i, s)
    ensures r == s
  {
    if r.Some? && s.Some? {
      var a :| Preferred(p, text, n, i, a, r.value);
      var b :| Preferred(p, text, n, i, b, s.value);
      PreferenceIsStrict(p, text, n, i, a, r.value, b, s.value);
    }
  }

  /** One step over a plain one-character node neither adds nor removes derivations. */
  lemma SingleStep(p: seq<Node>, text: string, n: nat, i: nat, r: Option<nat>)
    requires WellFormed(p) && n + 1 < |p| && i < |text|
    requires !p[n].NoNode? && !(p[n].End? && p[n + 1].NoNode?) && !IsQuantifier(p[n + 1])
    requires OneMatches(p[n], text[i])
    requires Answer(p, text, n + 1, i + 1, r)
    ensures Answer(p, text, n, i, r)
  {
    if r.Some? {
      var a :| Preferred(p, text, n + 1, i + 1, a, r.value);
      assert Preferred(p, text, n, i, a, r.value);
    }
  }

  /** Choosing `k` repetitions is right when the rest matches after them and every count the
      quantifier would rather take leaves the rest without a match. */
  lemma ChooseCount(p: seq<Node>, text: string, n: nat, i: nat, k: nat, r: nat)
    requires WellFormed(p) && n + 2 < |p|
    requires IsQuantifier(p[n + 1]) && !p[n].NoNode? && Repeats(p, text, n, i, k)
    requires Answer(p, text, n + 2, i + k, Some(r))
    requires forall k': nat | Repeats(p, text, n, i, k') && (if IsLazy(p[n + 1]) then k' < k else k' > k) ::
               NoDerivation(p, text, n + 2, i + k')
    ensures Answer(p, text, n, i, Some(r))
  {
    var a :| Preferred(p, text, n + 2, i + k, a, r);
    var counts := [k] + a;
    assert counts[1..] == a;
    forall counts', j' | Derives(p, text, n, i, counts', j')
      ensures Prefers(p, n, counts, counts')
    {
      assert Derives(p, text, n + 2, i + counts'[0], counts'[1..], j');
    }
    assert Preferred(p, text, n, i, counts, r);
  }

  lemma NoCount(p: seq<Node>, text: string, n: nat, i: nat)
    requires WellFormed(p) && n + 2 < |p| && i <= |text|
    requires IsQuantifier(p[n + 1]) && !p[n].NoNode?
    requires forall k': nat | Repeats(p, text, n, i, k') :: NoDerivation(p, text, n + 2, i + k')
    ensures Answer(p, text, n, i, None)
  {
  }
}
