/**
 * The min-priority "forest" of trees the construction works on. The
 * source uses an external `Heap<Node>` ordered by a comparator on the
 * node priority; here it is a class whose state is the multiset of trees
 * it holds, and whose `Delete` hands back some lightest tree (which one,
 * among trees of equal weight, is left open as the heap leaves it open).
 */
module Forests {
  import opened CodeTree

  /** The construction's comparator: `x` comes first only when strictly lighter. */
  function Compare(x: Node, y: Node): (r: int)
    ensures r == -1 || r == 1
    ensures r < 0 <==> x.weight < y.weight
  {
    if x.weight < y.weight then -1 else 1
  }

  /** No tree of `ms` comes before `t` under the comparator. */
  predicate Lightest(t: Node, ms: multiset<Node>)
  {
    forall m | m in ms :: Compare(m, t) > 0
  }

  /** A non-empty forest always has a tree the heap may hand out first. */
  lemma LightestExists(ms: multiset<Node>)
    requires ms != multiset{}
    ensures exists t :: t in ms && Lightest(t, ms)
    decreases |ms|
  {
    var x :| x in ms;
    var rest := ms - multiset{x};
    if rest == multiset{} {
      assert ms == multiset{x};
      assert Lightest(x, ms);
    } else {
      LightestExists(rest);
      var y :| y in rest && Lightest(y, rest);
      var t := if y.weight < x.weight then y else x;
      assert ms == rest + multiset{x};
      assert t in ms && Lightest(t, ms);
    }
  }

  /** All leaf symbols of the forest, with multiplicity. */
  ghost function ForestSymbols(ms: multiset<Node>): multiset<char>
  {
    if ms == multiset{} then multiset{}
    else var t :| t in ms; Symbols(t) + ForestSymbols(ms - multiset{t})
  }

  /** The exact sum of all leaf counts in the forest. */
  ghost function ForestSum(ms: multiset<Node>): int
  {
    if ms == multiset{} then 0
    else var t :| t in ms; LeafSum(t) + ForestSum(ms - multiset{t})
  }

  /** Taking any one tree out of the forest takes out exactly its symbols. */
  lemma ForestSymbolsRemove(ms: multiset<Node>, u: Node)
    requires u in ms
    ensures ForestSymbols(ms) == Symbols(u) + ForestSymbols(ms - multiset{u})
    decreases ms
  {
    var t :| t in ms && ForestSymbols(ms) == Symbols(t) + ForestSymbols(ms - multiset{t});
    if t != u {
      var withoutT, withoutU := ms - multiset{t}, ms - multiset{u};
      var withoutBoth := withoutT - multiset{u};
      RemovalsCommute(ms, t, u);
      ForestSymbolsRemove(withoutT, u);
      ForestSymbolsRemove(withoutU, t);
      assert ForestSymbols(withoutT) == Symbols(u) + ForestSymbols(withoutBoth);
      assert ForestSymbols(withoutU) == Symbols(t) + ForestSymbols(withoutBoth);
      UnionSwap(Symbols(t), Symbols(u), ForestSymbols(withoutBoth));
    }
  }

  /** Taking any one tree out of the forest takes out exactly its leaf total. */
  lemma ForestSumRemove(ms: multiset<Node>, u: Node)
    requires u in ms
    ensures ForestSum(ms) == LeafSum(u) + ForestSum(ms - multiset{u})
    decreases ms
  {
    var t :| t in ms && ForestSum(ms) == LeafSum(t) + ForestSum(ms - multiset{t});
    if t != u {
      var withoutT, withoutU := ms - multiset{t}, ms - multiset{u};
      var withoutBoth := withoutT - multiset{u};
      RemovalsCommute(ms, t, u);
      ForestSumRemove(withoutT, u);
      ForestSumRemove(withoutU, t);
      assert ForestSum(withoutT) == LeafSum(u) + ForestSum(withoutBoth);
      assert ForestSum(withoutU) == LeafSum(t) + ForestSum(withoutBoth);
    }
  }

  /** Proof hint: removing two trees in either order leaves the same forest. */
  lemma RemovalsCommute(ms: multiset<Node>, t: Node, u: Node)
    ensures ms - multiset{t} - multiset{u} == ms - multiset{u} - multiset{t}
  {
  }

  /** Proof hint: multiset union lets its first two operands trade places. */
  lemma UnionSwap(a: multiset<char>, b: multiset<char>, c: multiset<char>)
    ensures a + (b + c) == b + (a + c)
  {
  }

  /** Proof hint: multiset union is associative. */
  lemma UnionAssoc(a: multiset<char>, b: multiset<char>, c: multiset<char>)
    ensures a + (b + c) == (a + b) + c
  {
  }

  /** The priority queue of trees (the source's `PriorityQueue<Node>`). */
  class Forest {
    var trees: multiset<Node>

    constructor ()
      ensures trees == multiset{}
    {
      trees := multiset{};
    }

    method Size() returns (n: nat)
      ensures n == |trees|
    {
      n := |trees|;
    }

    method Insert(t: Node)
      modifies this
      ensures trees == old(trees) + multiset{t}
    {
      trees := trees + multiset{t};
    }

    /** Removes and returns a lightest tree. */
    method Delete() returns (t: Node)
      requires trees != multiset{}
      modifies this
      ensures t in old(trees) && Lightest(t, old(trees))
      ensures trees == old(trees) - multiset{t}
    {
      LightestExists(trees);
      t :| t in trees && Lightest(t, trees);
      trees := trees - multiset{t};
    }
  }
}
