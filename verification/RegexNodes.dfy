/**
 Node programs of the regular-expression engine.  A program is what the compiler produces:
 one-character nodes, each optionally followed by a quantifier node, closed by a `NoNode`.
 */
module RegexNodes {
  import opened Ascii

  const MAX_NODES: nat := 64
  const BUFFER_LEN: nat := 128
  const MAX_QUANTITY: nat := 1024
  const MAX_PLUS_STAR: nat := 40000

  // `Unset` is an entry whose kind was never assigned, which is what a bare `{m}` leaves behind.
  datatype Node =
    | NoNode | Begin | End | Unset
    | Quant(min: nat, max: nat) | LQuant(min: nat, max: nat)
    | QMark | LQMark | Star | LStar | Plus | LPlus
    | Dot | Char(ch: char) | Class(contents: string) | NClass(contents: string)
    | Digit | NDigit | Alpha | NAlpha | Space | NSpace

  predicate IsSpace(c: char) { c in {' ', '\t', '\n', '\r', '\U{c}', '\U{b}'} }

  predicate IsAlnum(c: char) { c == '_' || 'a' <= c <= 'z' || 'A' <= c <= 'Z' || IsDigit(c) }

  predicate IsQuantifier(n: Node) {
    n.Quant? || n.LQuant? || n.QMark? || n.LQMark? || n.Star? || n.LStar? || n.Plus? || n.LPlus?
  }

  predicate IsLazy(n: Node) { n.LQuant? || n.LQMark? || n.LStar? || n.LPlus? }

  predicate IsOneChar(n: Node) {
    n.Dot? || n.Char? || n.Class? || n.NClass? || n.Digit? || n.NDigit?
    || n.Alpha? || n.NAlpha? || n.Space? || n.NSpace?
  }

  function MinCount(q: Node): nat
    requires IsQuantifier(q)
  {
    match q
    case Quant(m, _) => m
    case LQuant(m, _) => m
    case Plus => 1
    case LPlus => 1
    case _ => 0
  }

  function MaxCount(q: Node): nat
    requires IsQuantifier(q)
  {
    match q
    case Quant(_, m) => m
    case LQuant(_, m) => m
    case QMark => 1
    case LQMark => 1
    case _ => MAX_PLUS_STAR
  }

  /** A bracket expression holds no escape: the compiler rejects every backslash inside brackets. */
  predicate PlainClasses(n: Node) {
    (n.Class? || n.NClass?) ==> '\\' !in n.contents
  }

  /** Closed by its only `NoNode`, every kind assigned, each quantifier directly after a one-character node. */
  ghost predicate WellFormed(p: seq<Node>) {
    && 1 <= |p| <= MAX_NODES
    && p[|p| - 1].NoNode?
    && (forall k :: 0 <= k < |p| - 1 ==> !p[k].NoNode?)
    && (forall k :: 0 <= k < |p| ==> !p[k].Unset? && PlainClasses(p[k]))
    && (forall k :: 0 <= k < |p| && IsQuantifier(p[k]) ==> QuantifierPlaced(p, k))
  }

  predicate QuantifierPlaced(p: seq<Node>, k: nat)
    requires k < |p| && IsQuantifier(p[k])
  {
    k > 0 && IsOneChar(p[k - 1]) && MinCount(p[k]) <= MaxCount(p[k])
  }
}
