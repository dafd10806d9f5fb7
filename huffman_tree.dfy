/**
 * The Huffman code tree: construction from a frequency table by greedy
 * merging of the two lightest trees, decoding of one code word and
 * lookup of one symbol's code word.
 */
module Huffman {
  import opened JavaInt
  import opened CodeTree
  import opened Forests

  /**
   * The source's checked exceptions, the parse failure of a non-digit,
   * and the null dereference of a walk that runs on past a leaf (only the
   * decoder as written raises the last one).
   */
  datatype Error =
    | DecodeError(bits: string)
    | EncodeError(ch: char)
    | NumberFormatError(digit: char)
    | NullDereference

  datatype Result<T> = Success(value: T) | Failure(error: Error)

  // ---------------------------------------------------------------------
  // The frequency table (symbol -> count) and its total.

  /** The sum of the counts of the symbols `ks`. */
  ghost function SumOver(f: map<char, Int32>, ks: set<char>): int
    requires ks <= f.Keys
    decreases ks
  {
    if ks == {} then 0
    else var c :| c in ks; f[c] + SumOver(f, ks - {c})
  }

  /** The sum of all counts of the table. */
  ghost function Total(f: map<char, Int32>): int
  {
    SumOver(f, f.Keys)
  }

  /** Taking any one symbol out of `ks` takes exactly its count out of the sum. */
  lemma SumOverRemove(f: map<char, Int32>, ks: set<char>, c: char)
    requires ks <= f.Keys && c in ks
    ensures SumOver(f, ks) == f[c] + SumOver(f, ks - {c})
    decreases ks
  {
    var d :| d in ks && SumOver(f, ks) == f[d] + SumOver(f, ks - {d});
    if d != c {
      assert ks - {d} - {c} == ks - {c} - {d};
      SumOverRemove(f, ks - {d}, c);
      SumOverRemove(f, ks - {c}, d);
    }
  }

  // ---------------------------------------------------------------------
  // Bit strings. The decoder reads each character as a decimal digit.

  predicate IsDigit(ch: char)
  {
    '0' <= ch <= '9'
  }

  predicate AllDigits(s: string)
  {
    forall i | 0 <= i < |s| :: IsDigit(s[i])
  }

  /** A code word as the encoder writes it: only `'0'` and `'1'`. */
  predicate IsCode(s: string)
  {
    forall i | 0 <= i < |s| :: s[i] == '0' || s[i] == '1'
  }

  function DigitValue(ch: char): Digit
    requires IsDigit(ch)
  {
    ch as int - '0' as int
  }

  /** The path a string of digits spells. */
  function DigitsOf(s: string): (ds: seq<Digit>)
    requires AllDigits(s)
  {
    seq(|s|, i requires 0 <= i < |s| => DigitValue(s[i]))
  }

  /** The position of the first character that is not a digit. */
  function FirstNonDigit(s: string): (k: nat)
    requires !AllDigits(s)
    ensures k < |s| && !IsDigit(s[k])
    ensures AllDigits(s[..k])
  {
    if !IsDigit(s[0]) then 0
    else
      assert !AllDigits(s[1..]) by {
        var j :| 0 <= j < |s| && !IsDigit(s[j]);
        assert j != 0 && !IsDigit(s[1..][j - 1]);
      }
      1 + FirstNonDigit(s[1..])
  }

  /** The first loop of the decoder: each character parsed as one digit. */
  function ParsePath(bits: string): (r: Result<seq<Digit>>)
    ensures r.Success? <==> AllDigits(bits)
    ensures r.Success? ==> |r.value| == |bits|
    ensures r.Success? ==> forall i | 0 <= i < |bits| :: r.value[i] == bits[i] as int - '0' as int
    ensures r.Failure? ==>
      exists k | 0 <= k < |bits| :: r.error == NumberFormatError(bits[k]) && !IsDigit(bits[k]) && AllDigits(bits[..k])
  {
    if AllDigits(bits) then Success(DigitsOf(bits))
    else Failure(NumberFormatError(bits[FirstNonDigit(bits)]))
  }

  /**
   * What decoding `bits` from `root` yields: the key of the leaf the path
   * ends on, or a DecodeError when it ends on an internal node or runs
   * on past a leaf.
   */
  function Decode(root: Node, bits: string): (r: Result<char>)
    ensures r.Success? ==> AllDigits(bits) && r.value in Symbols(root)
    ensures r.Failure? ==>
      || (AllDigits(bits) && r.error == DecodeError(bits))
      || (!AllDigits(bits) && r.error.NumberFormatError?)
  {
    match ParsePath(bits)
    case Failure(e) => Failure(e)
    case Success(path) =>
      match KeyAt(root, path)
      case Some(c) => KeyAtInSymbols(root, path); Success(c)
      case None => Failure(DecodeError(bits))
  }

  // ---------------------------------------------------------------------
  // Encoding: the depth-first search for a symbol's leaf.

  /**
   * Searches `n` for a leaf holding `c`, left subtree first, extending
   * `path` by `'0'` on a left turn and `'1'` on a right turn.
   */
  function LookHelper(c: char, n: Node, path: string): (r: Option<string>)
    ensures r.Some? <==> c in Symbols(n)
    ensures r.Some? ==>
      && |path| <= |r.value| && r.value[..|path|] == path
      && IsCode(r.value[|path|..])
      && KeyAt(n, DigitsOf(r.value[|path|..])) == Some(c)
  {
    match n
    case Leaf(k, _) => if c == k then Some(path) else None
    case Internal(_, l, rt) =>
      match LookHelper(c, l, path + "0")
      case Some(p) =>
        TurnFound(c, n, path, '0', p);
        Some(p)
      case None =>
        var found := LookHelper(c, rt, path + "1");
        if found.Some? then TurnFound(c, n, path, '1', found.value); found else found
  }

  /** A path found in the child a turn picks, extended by that turn, is a path found in `n`. */
  lemma TurnFound(c: char, n: Node, path: string, turn: char, p: string)
    requires n.Internal? && (turn == '0' || turn == '1')
    requires |path| + 1 <= |p| && p[..|path| + 1] == path + [turn]
    requires IsCode(p[|path| + 1..])
    requires KeyAt(if turn == '0' then n.left else n.right, DigitsOf(p[|path| + 1..])) == Some(c)
    ensures p[..|path|] == path && IsCode(p[|path|..])
    ensures KeyAt(n, DigitsOf(p[|path|..])) == Some(c)
  {
    var code := p[|path|..];
    assert code[0] == p[..|path| + 1][|path|] == turn;
    assert code[1..] == p[|path| + 1..];
    assert p[..|path|] == p[..|path| + 1][..|path|];
    StepDown(n, code);
  }

  /** Walking a non-empty code word from an internal node is walking its tail from the child its first character picks. */
  lemma StepDown(n: Node, code: string)
    requires n.Internal? && |code| > 0 && IsCode(code)
    ensures KeyAt(n, DigitsOf(code)) == KeyAt(if code[0] == '0' then n.left else n.right, DigitsOf(code[1..]))
  {
    assert DigitsOf(code)[1..] == DigitsOf(code[1..]);
  }

  // ---------------------------------------------------------------------
  // The tree.

  /** The shape every tree in the construction's forest keeps. */
  ghost predicate GrownFrom(t: Node, f: map<char, Int32>)
  {
    LeafWeightsFrom(t, f) && WellWeighted(t) && LighterLeft(t)
  }

  /**
   * The invariant of the loop that seeds the forest: the trees hold one
   * leaf per symbol already taken out of `s`, weighing its count.
   */
  ghost predicate Seeding(trees: multiset<Node>, f: map<char, Int32>, s: set<char>)
  {
    && s <= f.Keys
    && ForestSymbols(trees) + multiset(s) == multiset(f.Keys)
    && ForestSum(trees) + SumOver(f, s) == Total(f)
    && forall t | t in trees :: GrownFrom(t, f)
  }

  /**
   * The invariant of the merge loop: the forest is not empty, its leaves
   * carry each symbol of the table exactly once, and its leaf counts add
   * up to the table's total.
   */
  ghost predicate Merging(trees: multiset<Node>, f: map<char, Int32>)
  {
    && trees != multiset{}
    && ForestSymbols(trees) == multiset(f.Keys)
    && ForestSum(trees) == Total(f)
    && forall t | t in trees :: GrownFrom(t, f)
  }

  /** Inserting the leaf of one more symbol keeps the seeding invariant. */
  lemma SeedStep(trees: multiset<Node>, f: map<char, Int32>, s: set<char>, c: char)
    requires Seeding(trees, f, s) && c in s
    ensures Seeding(trees + multiset{Leaf(c, f[c])}, f, s - {c})
  {
    var leaf := Leaf(c, f[c]);
    var after := trees + multiset{leaf};
    assert after - multiset{leaf} == trees;
    SeedKeepsSymbols(trees, f, s, c);
    ForestSumRemove(after, leaf);
    SumOverRemove(f, s, c);
    assert forall t | t in after :: GrownFrom(t, f);
  }

  lemma SeedKeepsSymbols(trees: multiset<Node>, f: map<char, Int32>, s: set<char>, c: char)
    requires c in s && c in f
    ensures ForestSymbols(trees + multiset{Leaf(c, f[c])}) + multiset(s - {c}) == ForestSymbols(trees) + multiset(s)
  {
    var leaf := Leaf(c, f[c]);
    var after := trees + multiset{leaf};
    assert after - multiset{leaf} == trees;
    ForestSymbolsRemove(after, leaf);
    assert multiset(s) == multiset(s - {c}) + multiset{c};
    UnionSwap(multiset{c}, ForestSymbols(trees), multiset(s - {c}));
  }

  /** Once every symbol has its leaf, the merge loop's invariant holds. */
  lemma SeedingDone(trees: multiset<Node>, f: map<char, Int32>)
    requires Seeding(trees, f, {}) && |f| > 0
    ensures Merging(trees, f)
  {
    var c :| c in f.Keys;
    assert c in multiset(f.Keys);
  }

  /** The forest after one merge step: `n1` and `n2` replaced by their merge, `n1` on the left. */
  function Merged(trees: multiset<Node>, n1: Node, n2: Node): multiset<Node>
  {
    trees - multiset{n1} - multiset{n2} + multiset{Internal(Add(n1.weight, n2.weight), n1, n2)}
  }

  /**
   * Taking out the two lightest trees `n1` and `n2`, in that order, and
   * putting back their merge keeps the merge loop's invariant; the forest
   * shrinks by one.
   */
  lemma MergeStep(trees: multiset<Node>, f: map<char, Int32>, n1: Node, n2: Node)
    requires Merging(trees, f)
    requires n1 in trees && Lightest(n1, trees)
    requires n2 in trees - multiset{n1}
    ensures Merging(Merged(trees, n1, n2), f)
    ensures |Merged(trees, n1, n2)| == |trees| - 1
  {
    MergeKeepsSymbols(trees, n1, n2);
    MergeKeepsSum(trees, n1, n2);
    MergeKeepsShape(trees, f, n1, n2);
  }

  lemma MergeKeepsSymbols(trees: multiset<Node>, n1: Node, n2: Node)
    requires n1 in trees && n2 in trees - multiset{n1}
    ensures ForestSymbols(Merged(trees, n1, n2)) == ForestSymbols(trees)
  {
    var rest := trees - multiset{n1} - multiset{n2};
    var combined := Internal(Add(n1.weight, n2.weight), n1, n2);
    var after := rest + multiset{combined};
    assert after - multiset{combined} == rest;
    assert after == Merged(trees, n1, n2);
    ForestSymbolsRemove(trees, n1);
    ForestSymbolsRemove(trees - multiset{n1}, n2);
    ForestSymbolsRemove(after, combined);
    UnionAssoc(Symbols(n1), Symbols(n2), ForestSymbols(rest));
  }

  lemma MergeKeepsSum(trees: multiset<Node>, n1: Node, n2: Node)
    requires n1 in trees && n2 in trees - multiset{n1}
    ensures ForestSum(Merged(trees, n1, n2)) == ForestSum(trees)
  {
    var rest := trees - multiset{n1} - multiset{n2};
    var combined := Internal(Add(n1.weight, n2.weight), n1, n2);
    var after := rest + multiset{combined};
    assert after - multiset{combined} == rest;
    assert after == Merged(trees, n1, n2);
    ForestSumRemove(trees, n1);
    ForestSumRemove(trees - multiset{n1}, n2);
    ForestSumRemove(after, combined);
  }

  lemma MergeKeepsShape(trees: multiset<Node>, f: map<char, Int32>, n1: Node, n2: Node)
    requires forall t | t in trees :: GrownFrom(t, f)
    requires n1 in trees && Lightest(n1, trees)
    requires n2 in trees - multiset{n1}
    ensures forall t | t in Merged(trees, n1, n2) :: GrownFrom(t, f)
  {
    var combined := Internal(Add(n1.weight, n2.weight), n1, n2);
    assert Compare(n2, n1) > 0;
    assert GrownFrom(combined, f);
    forall t | t in Merged(trees, n1, n2) ensures GrownFrom(t, f) {
      if t != combined {
        assert t in trees;
      }
    }
  }

  /** When one tree is left it carries the whole table. */
  lemma MergingDone(trees: multiset<Node>, f: map<char, Int32>, top: Node)
    requires Merging(trees, f) && |trees| == 1 && top in trees
    ensures Symbols(top) == multiset(f.Keys) && GrownFrom(top, f)
    ensures LeafSum(top) == Total(f) && top.weight == Wrap(Total(f))
  {
    assert |trees - multiset{top}| == 0;
    ForestSymbolsRemove(trees, top);
    ForestSumRemove(trees, top);
    WeightIsWrappedLeafSum(top);
  }

  /**
   * The construction's first loop: a leaf `(c, f[c])` goes into the
   * forest for each symbol `c` of the table, in the set's own order.
   */
  method PlantLeaves(forest: Forest, f: map<char, Int32>)
    requires forest.trees == multiset{} && |f| > 0
    modifies forest
    ensures Merging(forest.trees, f)
    ensures |forest.trees| == |f|
    ensures forall t | t in forest.trees :: t.Leaf? && t.key in f && t.weight == f[t.key]
    ensures forall c | c in f :: Leaf(c, f[c]) in forest.trees
  {
    var s := f.Keys;
    while s != {}
      invariant Seeding(forest.trees, f, s)
      invariant |forest.trees| + |s| == |f|
      invariant forall t | t in forest.trees :: t.Leaf? && t.key in f && t.weight == f[t.key]
      invariant forall c | c in f.Keys - s :: Leaf(c, f[c]) in forest.trees
      decreases s
    {
      var c :| c in s;
      SeedStep(forest.trees, f, s, c);
      forest.Insert(Leaf(c, f[c]));
      s := s - {c};
    }
    SeedingDone(forest.trees, f);
  }

  /**
   * The construction's second loop: while more than one tree remains,
   * the two lightest are taken out and their merge, the first one on the
   * left, is put back; the last tree is taken out and returned.
   */
  method MergeLightest(forest: Forest, f: map<char, Int32>) returns (top: Node)
    requires Merging(forest.trees, f)
    modifies forest
    ensures Symbols(top) == multiset(f.Keys) && GrownFrom(top, f)
    ensures LeafSum(top) == Total(f) && top.weight == Wrap(Total(f))
    ensures forest.trees == multiset{}
  {
    var size := forest.Size();
    while size != 1
      invariant size == |forest.trees|
      invariant Merging(forest.trees, f)
      decreases size
    {
      ghost var before := forest.trees;
      var n1 := forest.Delete();
      var n2 := forest.Delete();
      forest.Insert(Internal(Add(n1.weight, n2.weight), n1, n2));
      MergeStep(before, f, n1, n2);
      size := forest.Size();
    }
    ghost var last := forest.trees;
    top := forest.Delete();
    MergingDone(last, f, top);
  }

  class HuffmanTree {
    var root: Node
    /** The frequency table the tree was built from. */
    ghost var Freqs: map<char, Int32>

    ghost predicate Valid()
      reads this
    {
      && Symbols(root) == multiset(Freqs.Keys)
      && GrownFrom(root, Freqs)
      && LeafSum(root) == Total(Freqs)
    }

    /**
     * Builds the tree: one leaf per symbol of the table, then, while more
     * than one tree remains, merges the two lightest into an internal node
     * (the first taken out on the left) and puts it back.
     */
    constructor (charFreqs: map<char, Int32>)
      requires |charFreqs| > 0
      ensures Freqs == charFreqs && Valid()
      ensures root.weight == Wrap(Total(charFreqs))
    {
      var forest := new Forest();
      PlantLeaves(forest, charFreqs);
      var top := MergeLightest(forest, charFreqs);
      root := top;
      Freqs := charFreqs;
    }

    /**
     * Decodes one code word: the key of the leaf reached by going left on
     * digit 0 and right on any other digit, one step per character.
     */
    method DecodeChar(bits: string) returns (r: Result<char>)
      ensures r == Decode(root, bits)
    {
      var path: seq<Digit> := [];
      for i := 0 to |bits|
        invariant AllDigits(bits[..i]) && path == DigitsOf(bits[..i])
      {
        if !IsDigit(bits[i]) {
          assert FirstNonDigit(bits) == i;
          return Failure(NumberFormatError(bits[i]));
        }
        path := path + [DigitValue(bits[i])];
        assert bits[..i + 1] == bits[..i] + [bits[i]];
      }
      assert bits[..|bits|] == bits;

      var curr := root;
      for i := 0 to |path|
        invariant Walk(root, path) == Walk(curr, path[i..])
      {
        match curr
        case Leaf(_, _) =>
          return Failure(DecodeError(bits));
        case Internal(_, left, right) =>
          assert path[i..][1..] == path[i + 1..];
          curr := if path[i] == 0 then left else right;
      }
      match curr
      case Leaf(k, _) =>
        r := Success(k);
      case Internal(_, _, _) =>
        r := Failure(DecodeError(bits));
    }

    /**
     * The code word of `ch`: the root-to-leaf path of the first leaf
     * holding it, or an EncodeError when no leaf does.
     */
    function Lookup(ch: char): (r: Result<string>)
      reads this
      ensures r.Success? <==> ch in Symbols(root)
      ensures r.Failure? ==> r.error == EncodeError(ch)
      ensures r.Success? ==> IsCode(r.value) && KeyAt(root, DigitsOf(r.value)) == Some(ch)
    {
      match LookHelper(ch, root, "")
      case None => Failure(EncodeError(ch))
      case Some(p) =>
        assert p[0..] == p;
        Success(p)
    }
  }

  // ---------------------------------------------------------------------
  // What encoding and decoding promise.

  /** `p` is a prefix of `q`. */
  predicate IsPrefix(p: string, q: string)
  {
    |p| <= |q| && q[..|p|] == p
  }

  /** Every symbol on a leaf decodes back from its code word. */
  lemma RoundTrip(tree: HuffmanTree, c: char)
    requires c in Symbols(tree.root)
    ensures tree.Lookup(c).Success?
    ensures Decode(tree.root, tree.Lookup(c).value) == Success(c)
  {
  }

  /** Two code words that both reach a leaf are equal when one is a prefix of the other. */
  lemma {:induction false} LeafPathsPrefixFree(t: Node, p: string, q: string)
    requires IsCode(p) && IsCode(q) && IsPrefix(p, q)
    requires KeyAt(t, DigitsOf(p)).Some? && KeyAt(t, DigitsOf(q)).Some?
    ensures p == q
  {
    var rest := q[|p|..];
    assert q == p + rest;
    assert DigitsOf(q) == DigitsOf(p) + DigitsOf(rest);
    WalkAppend(t, DigitsOf(p), DigitsOf(rest));
    assert |DigitsOf(rest)| == |rest|;
  }

  /** The code words of two different symbols are never prefixes of each other. */
  lemma PrefixFree(tree: HuffmanTree, c1: char, c2: char)
    requires c1 in Symbols(tree.root) && c2 in Symbols(tree.root) && c1 != c2
    ensures !IsPrefix(tree.Lookup(c1).value, tree.Lookup(c2).value)
  {
    var p, q := tree.Lookup(c1).value, tree.Lookup(c2).value;
    if IsPrefix(p, q) {
      LeafPathsPrefixFree(tree.root, p, q);
      assert false;
    }
  }

  /** In a tree where no symbol sits on two leaves, a symbol has one code word only. */
  lemma {:induction false} CodeUnique(t: Node, p: string, q: string, c: char)
    requires UniqueSymbols(t) && IsCode(p) && IsCode(q)
    requires KeyAt(t, DigitsOf(p)) == Some(c) && KeyAt(t, DigitsOf(q)) == Some(c)
    ensures p == q
    decreases t
  {
    match t
    case Leaf(_, _) =>
      assert DigitsOf(p) == [] && DigitsOf(q) == [];
    case Internal(_, l, r) =>
      assert p != [] && q != [];
      StepDown(t, p);
      StepDown(t, q);
      var tp := if p[0] == '0' then l else r;
      var tq := if q[0] == '0' then l else r;
      KeyAtInSymbols(tp, DigitsOf(p[1..]));
      KeyAtInSymbols(tq, DigitsOf(q[1..]));
      assert p[0] == q[0] by {
        assert Symbols(t)[c] == Symbols(l)[c] + Symbols(r)[c];
      }
      assert UniqueSymbols(tp) by {
        forall d | d in Symbols(tp) ensures Symbols(tp)[d] == 1 {
          assert Symbols(t)[d] == Symbols(l)[d] + Symbols(r)[d];
        }
      }
      CodeUnique(tp, p[1..], q[1..], c);
      assert p == [p[0]] + p[1..] && q == [q[0]] + q[1..];
  }

  /**
   * Decoding then encoding: a 0/1 string that decodes to `c` is exactly
   * `c`'s code word, when every symbol sits on one leaf only.
   */
  lemma DecodeThenLookup(tree: HuffmanTree, bits: string, c: char)
    requires UniqueSymbols(tree.root) && IsCode(bits)
    requires Decode(tree.root, bits) == Success(c)
    ensures tree.Lookup(c) == Success(bits)
  {
    KeyAtInSymbols(tree.root, DigitsOf(bits));
    CodeUnique(tree.root, tree.Lookup(c).value, bits, c);
  }

  /** A proper prefix of a code word stops on an internal node and fails to decode. */
  lemma DecodeShortFails(root: Node, code: string, k: nat)
    requires AllDigits(code) && KeyAt(root, DigitsOf(code)).Some? && k < |code|
    ensures Decode(root, code[..k]) == Failure(DecodeError(code[..k]))
  {
    var p, rest := code[..k], code[k..];
    assert code == p + rest;
    assert DigitsOf(code) == DigitsOf(p) + DigitsOf(rest);
    WalkAppend(root, DigitsOf(p), DigitsOf(rest));
    assert DigitsOf(rest) != [];
  }

  /** A code word followed by more digits runs past its leaf and fails to decode. */
  lemma DecodeLongFails(root: Node, code: string, extra: string)
    requires AllDigits(code) && KeyAt(root, DigitsOf(code)).Some?
    requires AllDigits(extra) && extra != []
    ensures Decode(root, code + extra) == Failure(DecodeError(code + extra))
  {
    assert DigitsOf(code + extra) == DigitsOf(code) + DigitsOf(extra);
    WalkAppend(root, DigitsOf(code), DigitsOf(extra));
    assert DigitsOf(extra) != [];
  }

  /**
   * One step of the decoder: from an internal node, a leading digit 0
   * continues in the left subtree and any other digit in the right one.
   */
  lemma DecodeTurn(w: Int32, l: Node, r: Node, ch: char, rest: string, c: char)
    requires IsDigit(ch) && AllDigits(rest)
    ensures Decode(Internal(w, l, r), [ch] + rest) == Success(c)
        <==> Decode(if ch == '0' then l else r, rest) == Success(c)
  {
    var bits := [ch] + rest;
    assert AllDigits(bits);
    assert DigitsOf(bits)[0] == DigitValue(ch);
    assert DigitsOf(bits)[1..] == DigitsOf(rest);
  }

  /** No symbol of a built tree sits on two leaves, and the leaves hold exactly the table's symbols. */
  lemma BuiltAlphabet(tree: HuffmanTree)
    requires tree.Valid()
    ensures UniqueSymbols(tree.root)
    ensures forall c :: c in Symbols(tree.root) <==> c in tree.Freqs
    ensures |Symbols(tree.root)| == |tree.Freqs|
  {
  }

  /** The leaf a symbol's code word leads to carries that symbol's count. */
  lemma CodeLeadsToCount(tree: HuffmanTree, c: char)
    requires tree.Valid() && c in tree.Freqs
    ensures tree.Lookup(c).Success?
    ensures Walk(tree.root, DigitsOf(tree.Lookup(c).value)) == Some(Leaf(c, tree.Freqs[c]))
  {
    WalkedLeafWeight(tree.root, tree.Freqs, DigitsOf(tree.Lookup(c).value));
  }

  /**
   * The root weighs the table's total, wrapped to a Java `int`; the exact
   * total when that fits.
   */
  lemma RootWeight(tree: HuffmanTree)
    requires tree.Valid()
    ensures tree.root.weight == Wrap(Total(tree.Freqs))
    ensures -0x8000_0000 <= Total(tree.Freqs) < 0x8000_0000 ==> tree.root.weight == Total(tree.Freqs)
  {
    WeightIsWrappedLeafSum(tree.root);
    if -0x8000_0000 <= Total(tree.Freqs) < 0x8000_0000 {
      WrapInRange(Total(tree.Freqs));
    }
  }

  /** A table of one symbol gives a single leaf, whose code word is empty. */
  lemma SingleSymbol(tree: HuffmanTree, c: char)
    requires tree.Valid() && tree.Freqs.Keys == {c}
    ensures tree.root == Leaf(c, tree.Freqs[c])
    ensures tree.Lookup(c) == Success("")
    ensures Decode(tree.root, "") == Success(c)
  {
    SymbolsCount(tree.root);
    assert |Symbols(tree.root)| == 1;
  }

  /** With two or more symbols the empty string lands on the root, an internal node. */
  lemma EmptyCodeFails(tree: HuffmanTree)
    requires tree.Valid() && |tree.Freqs| >= 2
    ensures Decode(tree.root, "") == Failure(DecodeError(""))
  {
    assert |Symbols(tree.root)| >= 2;
    if tree.root.Leaf? {
      assert false;
    }
  }

  // ---------------------------------------------------------------------
  // The decoder as written. It tells a leaf from an internal node by its
  // key, and internal nodes carry '\0', so a leaf holding '\0' is refused
  // too; and a walk that runs on past a leaf steps onto a null child and
  // dereferences it instead of raising a decode error.

  /** The key the source stores in a node: internal nodes carry '\0'. */
  function SourceKey(n: Node): char
  {
    match n
    case Leaf(k, _) => k
    case Internal(_, _, _) => '\0'
  }

  /** `decodeChar` as written. */
  function DecodeAsWritten(root: Node, bits: string): (r: Result<char>)
    ensures r.Success? ==> r.value != '\0' && r == Decode(root, bits)
  {
    match ParsePath(bits)
    case Failure(e) => Failure(e)
    case Success(path) =>
      match Walk(root, path)
      case None => Failure(NullDereference)
      case Some(n) => if SourceKey(n) == '\0' then Failure(DecodeError(bits)) else Success(SourceKey(n))
  }

  /** As written, the code word of a '\0' symbol does not decode back to it. */
  lemma SentinelBreaksRoundTrip(tree: HuffmanTree)
    requires '\0' in Symbols(tree.root)
    ensures tree.Lookup('\0').Success?
    ensures DecodeAsWritten(tree.root, tree.Lookup('\0').value) == Failure(DecodeError(tree.Lookup('\0').value))
    ensures Decode(tree.root, tree.Lookup('\0').value) == Success('\0')
  {
  }

  /** As written, a code word followed by more digits dereferences null rather than failing to decode. */
  lemma OverrunDereferencesNull(tree: HuffmanTree, c: char, extra: string)
    requires c in Symbols(tree.root) && AllDigits(extra) && extra != []
    ensures tree.Lookup(c).Success?
    ensures DecodeAsWritten(tree.root, tree.Lookup(c).value + extra) == Failure(NullDereference)
    ensures Decode(tree.root, tree.Lookup(c).value + extra) == Failure(DecodeError(tree.Lookup(c).value + extra))
  {
    var code := tree.Lookup(c).value;
    DecodeLongFails(tree.root, code, extra);
    assert DigitsOf(code + extra) == DigitsOf(code) + DigitsOf(extra);
    WalkAppend(tree.root, DigitsOf(code), DigitsOf(extra));
  }

  /** Away from a '\0' symbol and from walks past a leaf, the two decoders agree. */
  lemma DecodersAgree(root: Node, bits: string)
    requires Decode(root, bits) != Success('\0')
    requires ParsePath(bits).Success? ==> Walk(root, ParsePath(bits).value).Some?
    ensures DecodeAsWritten(root, bits) == Decode(root, bits)
  {
  }
}
