/** How many nodes a height needs, and what that means for the fixed stacks of lib/avl.c. */
module AvlHeight {
  import opened AvlTree
  import opened AvlSteps
  import opened AvlNodes

  ghost function Fib(n: nat): nat {
    if n < 2 then n else Fib(n - 1) + Fib(n - 2)
  }

  lemma {:induction false} FibGrows(m: nat, n: nat)
    requires m <= n
    ensures Fib(m) <= Fib(n)
    decreases n - m
  {
    if m < n {
      assert Fib(m) <= Fib(m + 1);
      FibGrows(m + 1, n);
    }
  }

  /** A balanced tree of height h has at least Fib(h + 2) - 1 nodes. */
  lemma {:induction false} HeightNeedsNodes<N>(t: Tree<N>)
    requires Avl(t)
    ensures NeedsNodes(Height(t), Size(t))
  {
    if t.Branch? {
      ChildAvl(t, false);
      HeightNeedsNodes(t.left);
      HeightNeedsNodes(t.right);
      TwoNeedNodes(Size(t.left), Size(t.right), Height(t.left), Height(t.right), Height(t));
    }
  }

  ghost predicate NeedsNodes(h: nat, n: nat) {
    n + 1 >= Fib(h + 2)
  }

  lemma {:induction false} TwoNeedNodes(m: nat, n: nat, a: nat, b: nat, h: nat)
    requires NeedsNodes(a, m) && NeedsNodes(b, n) && h == 1 + Max(a, b) && -1 <= a - b <= 1
    ensures NeedsNodes(h, m + n + 1)
  {
    assert Fib(h + 2) == Fib(h + 1) + Fib(h);
    FibGrows(h, if a >= b then b + 2 else a + 2);
  }

  // ---- trees with as few nodes as possible ----

  /** The entries are the items `f(lo), f(lo + 1), ...`, numbered from `lo` on. */
  ghost predicate Runs(s: seq<Entry<int>>, lo: int, f: int -> Item) {
    forall i :: 0 <= i < |s| ==> s[i] == Entry(lo + i, f(lo + i))
  }

  ghost predicate LeftHeavy(t: Tree<int>) {
    t.Branch? ==> Height(t) == Height(t.left) + 1 && LeftHeavy(t.left)
  }

  /** A balanced tree of height `h` with Fib(h + 2) - 1 nodes, taller on the left, of the items from
      `f(lo)` on. */
  ghost predicate Sparse(t: Tree<int>, h: nat, lo: int, f: int -> Item) {
    Avl(t) && Height(t) == h && Size(t) + 1 == Fib(h + 2) && LeftHeavy(t) && Runs(Flat(t), lo, f)
  }

  /** The bound is exact. */
  lemma {:induction false} Sparsest(h: nat, lo: int, f: int -> Item) returns (t: Tree<int>)
    ensures Sparse(t, h, lo, f)
  {
    if h < 2 {
      t := if h == 0 then Leaf else Branch(Leaf, lo, f(lo), 0, Leaf);
      SparseBase(h, lo, f);
    } else {
      var l := Sparsest(h - 1, lo, f);
      var r := Sparsest(h - 2, lo + Size(l) + 1, f);
      t := Branch(l, lo + Size(l), f(lo + Size(l)), -1, r);
      SparseJoin(l, r, h, lo, f);
    }
  }

  lemma {:induction false} SparseBase(h: nat, lo: int, f: int -> Item)
    requires h < 2
    ensures Sparse(if h == 0 then Leaf else Branch(Leaf, lo, f(lo), 0, Leaf), h, lo, f)
  {
    assert Fib(2) == 1 && Fib(3) == 2;
    assert Flat(Branch(Leaf, lo, f(lo), 0, Leaf)) == [Entry(lo, f(lo))];
    assert Flat<int>(Leaf) == [];
  }

  lemma {:induction false} SparseJoin(l: Tree<int>, r: Tree<int>, h: nat, lo: int, f: int -> Item)
    requires h >= 2 && Sparse(l, h - 1, lo, f) && Sparse(r, h - 2, lo + Size(l) + 1, f)
    ensures Sparse(Branch(l, lo + Size(l), f(lo + Size(l)), -1, r), h, lo, f)
  {
    var n := lo + Size(l);
    var t := Branch(l, n, f(n), -1, r);
    assert Size(t) + 1 == Fib(h + 2) by { assert Fib(h + 2) == Fib(h + 1) + Fib(h); }
    assert Runs(Flat(t), lo, f) by {
      FlatSize(l);
      RunsJoin(Flat(l), Flat(r), lo, f);
      assert Flat(t) == Flat(l) + [Entry(n, f(n))] + Flat(r);
    }
  }

  lemma {:induction false} RunsJoin(a: seq<Entry<int>>, b: seq<Entry<int>>, lo: int, f: int -> Item)
    requires Runs(a, lo, f) && Runs(b, lo + |a| + 1, f)
    ensures Runs(a + [Entry(lo + |a|, f(lo + |a|))] + b, lo, f)
  {
  }

  /** The items with indices from `lo` up to, but not with, `hi` rise. */
  ghost predicate Rising(cmp: Comparison, f: int -> Item, lo: int, hi: int) {
    forall i, j :: lo <= i < j < hi ==> cmp(f(i), f(j)) < 0
  }

  lemma {:induction false} RunsWellFormed(cmp: Comparison, t: Tree<int>, lo: int, f: int -> Item)
    requires Avl(t) && Runs(Flat(t), lo, f) && Rising(cmp, f, lo, lo + Size(t))
    ensures WellFormed(cmp, t)
  {
    FlatSize(t);
    FlatNodes(t);
  }

  /** A search for something below every item runs down the left edge. */
  lemma {:induction false} LeftEdge(cmp: Comparison, t: Tree<int>, x: Item)
    requires LeftHeavy(t) && forall i :: 0 <= i < |Flat(t)| ==> cmp(x, Flat(t)[i].item) < 0
    ensures Lookup(cmp, t, x).Leaf? && |SearchPath(cmp, t, x)| == Height(t)
  {
    if t.Branch? {
      var s, n := Flat(t), |Flat(t.left)|;
      assert s[n].item == t.item;
      forall i | 0 <= i < n ensures cmp(x, Flat(t.left)[i].item) < 0 { assert Flat(t.left)[i] == s[i]; }
      LeftEdge(cmp, t.left, x);
    }
  }

  lemma FibValues()
    ensures Fib(34) == 5702887 && Fib(35) == 9227465
  {
    assert Fib(10) == 55 && Fib(11) == 89;
    assert Fib(20) == 6765 && Fib(21) == 10946;
    assert Fib(28) == 317811 && Fib(29) == 514229;
  }

  /** Fewer than 9,227,464 nodes fit in AVL_MAX_HEIGHT levels; fewer than 5,702,886 in one level less. */
  lemma {:induction false} NodesBoundHeight<N>(t: Tree<N>)
    requires Avl(t)
    ensures Size(t) < 9227464 ==> Height(t) <= AVL_MAX_HEIGHT
    ensures Size(t) < 5702886 ==> Height(t) <= AVL_MAX_HEIGHT - 1
  {
    HeightNeedsNodes(t);
    FibValues();
    if Height(t) >= 32 { FibGrows(34, Height(t) + 2); }
    if Height(t) >= 33 { FibGrows(35, Height(t) + 2); }
  }

  /** No larger count forces either bound. */
  lemma {:induction false} BoundsAreExact(cmp: Comparison, f: int -> Item, h: nat) returns (t: Tree<int>)
    requires AVL_MAX_HEIGHT <= h <= AVL_MAX_HEIGHT + 1 && Rising(cmp, f, 0, Fib(h + 2) - 1)
    ensures WellFormed(cmp, t) && Height(t) == h && Size(t) == if h == AVL_MAX_HEIGHT then 5702886 else 9227464
  {
    t := Sparsest(h, 0, f);
    FibValues();
    RunsWellFormed(cmp, t, 0, f);
  }

  /** A well-formed table of every height for which deleting a missing item writes one stack entry
      more than the height: at height 32, with 5,702,886 nodes, 33 entries into stacks of 32. */
  lemma {:induction false} DeleteOverflows(cmp: Comparison, f: int -> Item, h: nat) returns (t: Tree<int>)
    requires h >= AVL_MAX_HEIGHT && Rising(cmp, f, -1, Fib(h + 2) - 1)
    ensures WellFormed(cmp, t) && Height(t) == h && Size(t) + 1 == Fib(h + 2)
    ensures Lookup(cmp, t, f(-1)).Leaf? && StackUse(cmp, t, f(-1)) == h + 1 > AVL_MAX_HEIGHT
  {
    t := Sparsest(h, 0, f);
    RunsWellFormed(cmp, t, 0, f);
    FlatSize(t);
    LeftEdge(cmp, t, f(-1));
  }

  /** The cache of `avl_probe` suffices for every table of height at most 32, and for taller ones
      whose search path has no longer run of zero factors. */
  lemma {:induction false} ProbeFits<N>(cmp: Comparison, t: Tree<N>, x: Item)
    requires Height(t) <= AVL_MAX_HEIGHT
    ensures Cached(cmp, t, x, 0) <= AVL_MAX_HEIGHT
  {
    CachedBound(cmp, t, x, 0);
  }

  /** At height 32 the stacks of `avl_delete` overflow exactly when the item is missing and
      its search runs down 32 nodes; at height 31 or less they never do. */
  lemma {:induction false} DeleteFits<N>(cmp: Comparison, t: Tree<N>, x: Item)
    requires Height(t) <= AVL_MAX_HEIGHT
    ensures StackUse(cmp, t, x) <= AVL_MAX_HEIGHT <==> |SearchPath(cmp, t, x)| < AVL_MAX_HEIGHT
    ensures Lookup(cmp, t, x).Branch? || Height(t) < AVL_MAX_HEIGHT ==> StackUse(cmp, t, x) <= AVL_MAX_HEIGHT
  {
    StackUseBound(cmp, t, x);
    SearchPathBound(cmp, t, x);
  }
}
