/**
 * The nodes of a Huffman code tree and the walk from a node along a
 * path of decimal digits. A node is either a leaf bound to one symbol and
 * its count, or an internal merge node with exactly two children; the
 * tag replaces the source's `'\0'` key on internal nodes.
 */
module CodeTree {
  import opened JavaInt

  datatype Option<T> = None | Some(value: T)

  datatype Node =
    | Leaf(key: char, weight: Int32)
    | Internal(weight: Int32, left: Node, right: Node)

  /** One decoded digit of a bit string: 0 turns left, any other digit right. */
  type Digit = d: int | 0 <= d <= 9

  /** The symbols on the leaves, with multiplicity. */
  function Symbols(t: Node): multiset<char>
  {
    match t
    case Leaf(k, _) => multiset{k}
    case Internal(_, l, r) => Symbols(l) + Symbols(r)
  }

  /** The exact (unbounded) sum of the leaf counts below `t`. */
  function LeafSum(t: Node): int
  {
    match t
    case Leaf(_, w) => w
    case Internal(_, l, r) => LeafSum(l) + LeafSum(r)
  }

  /** Every internal node weighs the Java `int` sum of its children. */
  ghost predicate WellWeighted(t: Node)
  {
    match t
    case Leaf(_, _) => true
    case Internal(w, l, r) => w == Add(l.weight, r.weight) && WellWeighted(l) && WellWeighted(r)
  }

  /** Every internal node's left child is no heavier than its right child. */
  ghost predicate LighterLeft(t: Node)
  {
    match t
    case Leaf(_, _) => true
    case Internal(_, l, r) => l.weight <= r.weight && LighterLeft(l) && LighterLeft(r)
  }

  /** Every leaf holds a symbol of `f` and weighs that symbol's count. */
  ghost predicate LeafWeightsFrom(t: Node, f: map<char, Int32>)
  {
    match t
    case Leaf(k, w) => k in f && w == f[k]
    case Internal(_, l, r) => LeafWeightsFrom(l, f) && LeafWeightsFrom(r, f)
  }

  /** No symbol sits on two leaves. */
  ghost predicate UniqueSymbols(t: Node)
  {
    forall c | c in Symbols(t) :: Symbols(t)[c] == 1
  }

  /**
   * The node reached from `t` by one step per digit (0 left, otherwise
   * right); `None` when the path runs on past a leaf.
   */
  function Walk(t: Node, path: seq<Digit>): Option<Node>
  {
    if path == [] then Some(t)
    else match t
      case Leaf(_, _) => None
      case Internal(_, l, r) => Walk(if path[0] == 0 then l else r, path[1..])
  }

  /** The symbol of the leaf that `path` leads to, if it leads to a leaf. */
  function KeyAt(t: Node, path: seq<Digit>): Option<char>
  {
    match Walk(t, path)
    case Some(Leaf(k, _)) => Some(k)
    case _ => None
  }

  /** Walking `p + q` is walking `p`, then walking `q` from where `p` ended. */
  lemma {:induction false} WalkAppend(t: Node, p: seq<Digit>, q: seq<Digit>)
    ensures Walk(t, p + q) == match Walk(t, p) case None => None case Some(m) => Walk(m, q)
    decreases p
  {
    if p != [] {
      assert p + q != [] && (p + q)[0] == p[0] && (p + q)[1..] == p[1..] + q;
      match t
      case Leaf(_, _) =>
      case Internal(_, l, r) =>
        WalkAppend(if p[0] == 0 then l else r, p[1..], q);
    } else {
      assert p + q == q;
    }
  }

  /** A walk never reaches anything outside `t`: a leaf reached carries a symbol of `t`. */
  lemma {:induction false} KeyAtInSymbols(t: Node, path: seq<Digit>)
    requires KeyAt(t, path).Some?
    ensures KeyAt(t, path).value in Symbols(t)
    decreases path
  {
    if path != [] {
      match t
      case Internal(_, l, r) => KeyAtInSymbols(if path[0] == 0 then l else r, path[1..]);
    }
  }

  /** A leaf reached by a walk weighs its symbol's count. */
  lemma {:induction false} WalkedLeafWeight(t: Node, f: map<char, Int32>, path: seq<Digit>)
    requires LeafWeightsFrom(t, f)
    requires Walk(t, path).Some? && Walk(t, path).value.Leaf?
    ensures Walk(t, path).value.key in f
    ensures Walk(t, path).value.weight == f[Walk(t, path).value.key]
    decreases path
  {
    if path != [] {
      match t
      case Internal(_, l, r) => WalkedLeafWeight(if path[0] == 0 then l else r, f, path[1..]);
    }
  }

  /** A node's weight is its leaves' total, wrapped to a Java `int`. */
  lemma {:induction false} WeightIsWrappedLeafSum(t: Node)
    requires WellWeighted(t)
    ensures t.weight == Wrap(LeafSum(t))
  {
    match t
    case Leaf(_, w) =>
      WrapInRange(w);
    case Internal(_, l, r) =>
      WeightIsWrappedLeafSum(l);
      WeightIsWrappedLeafSum(r);
      WrapAdd(LeafSum(l), LeafSum(r));
  }

  /** Every tree has at least one leaf; an internal node has at least two. */
  lemma {:induction false} SymbolsCount(t: Node)
    ensures |Symbols(t)| >= 1
    ensures t.Internal? ==> |Symbols(t)| >= 2
  {
    match t
    case Leaf(_, _) =>
    case Internal(_, l, r) => SymbolsCount(l); SymbolsCount(r);
  }
}
