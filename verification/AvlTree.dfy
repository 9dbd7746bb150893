/** Balanced search trees as values, with the textbook insertion and deletion.
    A tree records the balance factor its nodes store; the reference operations never
    read it, they look only at heights. */
module AvlTree {

  /** What `avl_data` points at; only the comparison function looks inside. */
  type Item(0, ==, !new)

  type Comparison = (Item, Item) -> int

  ghost predicate TotalOrder(cmp: Comparison) {
    && (forall a, b :: cmp(a, b) < 0 <==> cmp(b, a) > 0)
    && (forall a, b, c :: cmp(a, b) <= 0 && cmp(b, c) <= 0 ==> cmp(a, c) <= 0)
  }

  lemma OrderFacts(cmp: Comparison, a: Item, b: Item, c: Item)
    requires TotalOrder(cmp)
    ensures cmp(a, a) == 0
    ensures cmp(a, b) == 0 ==> cmp(b, a) == 0
    ensures cmp(a, b) < 0 && cmp(b, c) <= 0 ==> cmp(a, c) < 0
    ensures cmp(a, b) <= 0 && cmp(b, c) < 0 ==> cmp(a, c) < 0
    ensures cmp(a, b) == 0 && cmp(b, c) > 0 ==> cmp(a, c) > 0
    ensures cmp(a, b) > 0 && cmp(b, c) > 0 ==> cmp(a, c) > 0
  {
    assert cmp(a, a) < 0 <==> cmp(a, a) > 0;
    assert cmp(a, b) < 0 <==> cmp(b, a) > 0;
    assert cmp(b, a) < 0 <==> cmp(a, b) > 0;
    assert cmp(b, c) < 0 <==> cmp(c, b) > 0;
    assert cmp(c, b) < 0 <==> cmp(b, c) > 0;
    assert cmp(a, c) < 0 <==> cmp(c, a) > 0;
    assert cmp(c, a) < 0 <==> cmp(a, c) > 0;
    assert cmp(c, a) <= 0 && cmp(a, b) <= 0 ==> cmp(c, b) <= 0;
    assert cmp(b, c) <= 0 && cmp(c, a) <= 0 ==> cmp(b, a) <= 0;
    assert cmp(c, b) <= 0 && cmp(b, a) <= 0 ==> cmp(c, a) <= 0;
    assert cmp(a, c) <= 0 && cmp(c, b) <= 0 ==> cmp(a, b) <= 0;
    assert cmp(b, a) <= 0 && cmp(a, c) <= 0 ==> cmp(b, c) <= 0;
  }

  datatype Tree<N> = Leaf | Branch(left: Tree<N>, node: N, item: Item, balance: int, right: Tree<N>)

  ghost function Nodes<N>(t: Tree<N>): set<N> {
    match t
    case Leaf => {}
    case Branch(l, n, _, _, r) => Nodes(l) + {n} + Nodes(r)
  }

  datatype Entry<N> = Entry(node: N, item: Item)

  /** The entries in order. */
  ghost function Flat<N>(t: Tree<N>): seq<Entry<N>> {
    match t
    case Leaf => []
    case Branch(l, n, x, _, r) => Flat(l) + [Entry(n, x)] + Flat(r)
  }

  ghost predicate Distinct<N>(t: Tree<N>) {
    match t
    case Leaf => true
    case Branch(l, n, _, _, r) =>
      Distinct(l) && Distinct(r) && Nodes(l) !! Nodes(r) && n !in Nodes(l) && n !in Nodes(r)
  }

  ghost function Size<N>(t: Tree<N>): nat {
    if t.Leaf? then 0 else 1 + Size(t.left) + Size(t.right)
  }

  ghost function Max(a: nat, b: nat): nat {
    if a >= b then a else b
  }

  ghost function Height<N>(t: Tree<N>): nat {
    if t.Leaf? then 0 else 1 + Max(Height(t.left), Height(t.right))
  }

  /** Every stored factor is right height minus left height and lies in -1..1. */
  ghost predicate Avl<N>(t: Tree<N>) {
    t.Branch? ==>
      && t.balance == Height(t.right) - Height(t.left)
      && -1 <= t.balance <= 1
      && Avl(t.left) && Avl(t.right)
  }

  ghost predicate Sorted<N>(cmp: Comparison, s: seq<Entry<N>>) {
    forall i, j :: 0 <= i < j < |s| ==> cmp(s[i].item, s[j].item) < 0
  }

  /** `avl_link[d]`, with `d` false for 0 and true for 1. */
  ghost function Child<N>(t: Tree<N>, d: bool): Tree<N>
    requires t.Branch?
  {
    if d then t.right else t.left
  }

  /** A branch with `near` on side `d` and `far` on the other. */
  ghost function Join<N>(d: bool, near: Tree<N>, n: N, x: Item, b: int, far: Tree<N>): Tree<N> {
    if d then Branch(far, n, x, b, near) else Branch(near, n, x, b, far)
  }

  // ---- textbook operations, written with heights only ----

  /** A branch that stores its true balance factor. */
  ghost function Make<N>(d: bool, near: Tree<N>, n: N, x: Item, far: Tree<N>): Tree<N> {
    Join(d, near, n, x, if d then Height(near) - Height(far) else Height(far) - Height(near), far)
  }

  ghost function RotateSingle<N>(d: bool, heavy: Tree<N>, n: N, x: Item, light: Tree<N>): Tree<N>
    requires heavy.Branch?
  {
    Make(d, Child(heavy, d), heavy.node, heavy.item, Make(d, Child(heavy, !d), n, x, light))
  }

  ghost function RotateDouble<N>(d: bool, heavy: Tree<N>, n: N, x: Item, light: Tree<N>): Tree<N>
    requires heavy.Branch? && Child(heavy, !d).Branch?
  {
    var w := Child(heavy, !d);
    Make(d, Make(d, Child(heavy, d), heavy.node, heavy.item, Child(w, d)), w.node, w.item,
         Make(d, Child(w, !d), n, x, light))
  }

  /** Joins two trees, rotating once when `near` is more than one level higher. */
  ghost function Lean<N>(d: bool, near: Tree<N>, n: N, x: Item, far: Tree<N>): Tree<N> {
    if Height(near) <= Height(far) + 1 then Make(d, near, n, x, far)
    else if Height(Child(near, d)) >= Height(Child(near, !d)) then RotateSingle(d, near, n, x, far)
    else RotateDouble(d, near, n, x, far)
  }

  ghost function Rebalance<N>(l: Tree<N>, n: N, x: Item, r: Tree<N>): Tree<N> {
    if Height(l) >= Height(r) then Lean(false, l, n, x, r) else Lean(true, r, n, x, l)
  }

  ghost function Insert<N>(cmp: Comparison, t: Tree<N>, n: N, x: Item): Tree<N> {
    match t
    case Leaf => Branch(Leaf, n, x, 0, Leaf)
    case Branch(l, m, y, _, r) =>
      if cmp(x, y) < 0 then Rebalance(Insert(cmp, l, n, x), m, y, r)
      else if cmp(x, y) > 0 then Rebalance(l, m, y, Insert(cmp, r, n, x))
      else t
  }

  /** Whether textbook insertion has to rotate at some node. */
  ghost predicate Rotates<N>(cmp: Comparison, t: Tree<N>, n: N, x: Item) {
    t.Branch? && cmp(x, t.item) != 0 &&
    var d := cmp(x, t.item) > 0;
    Height(Insert(cmp, Child(t, d), n, x)) > Height(Child(t, !d)) + 1 || Rotates(cmp, Child(t, d), n, x)
  }

  /** The leftmost node of a nonempty tree. */
  ghost function Least<N>(t: Tree<N>): (N, Item)
    requires t.Branch?
  {
    if t.left.Leaf? then (t.node, t.item) else Least(t.left)
  }

  ghost function RemoveLeast<N>(t: Tree<N>): Tree<N>
    requires t.Branch?
  {
    if t.left.Leaf? then t.right else Rebalance(RemoveLeast(t.left), t.node, t.item, t.right)
  }

  ghost function RemoveRoot<N>(t: Tree<N>): Tree<N>
    requires t.Branch?
  {
    if t.right.Leaf? then t.left
    else Rebalance(t.left, Least(t.right).0, Least(t.right).1, RemoveLeast(t.right))
  }

  ghost function Delete<N>(cmp: Comparison, t: Tree<N>, x: Item): Tree<N> {
    match t
    case Leaf => Leaf
    case Branch(l, m, y, _, r) =>
      if cmp(x, y) < 0 then Rebalance(Delete(cmp, l, x), m, y, r)
      else if cmp(x, y) > 0 then Rebalance(l, m, y, Delete(cmp, r, x))
      else RemoveRoot(t)
  }

  /** The subtree whose root compares equal to `x`, or `Leaf`. */
  ghost function Lookup<N>(cmp: Comparison, t: Tree<N>, x: Item): Tree<N> {
    match t
    case Leaf => Leaf
    case Branch(l, _, y, _, r) =>
      if cmp(x, y) < 0 then Lookup(cmp, l, x)
      else if cmp(x, y) > 0 then Lookup(cmp, r, x)
      else t
  }

  // ---- rebalancing ----

  lemma {:induction false} MakeAvl<N>(d: bool, near: Tree<N>, n: N, x: Item, far: Tree<N>)
    requires Avl(near) && Avl(far) && -1 <= Height(far) - Height(near) <= 1
    ensures Avl(Make(d, near, n, x, far))
    ensures Height(Make(d, near, n, x, far)) == 1 + Max(Height(near), Height(far))
  {
  }

  lemma {:induction false} ChildAvl<N>(t: Tree<N>, d: bool)
    requires Avl(t) && t.Branch?
    ensures Avl(Child(t, d)) && Avl(Child(t, !d))
    ensures Height(Child(t, d)) - Height(Child(t, !d)) == if d then t.balance else -t.balance
    ensures Height(t) == 1 + Max(Height(Child(t, d)), Height(Child(t, !d)))
  {
  }

  lemma {:induction false} SingleAvl<N>(d: bool, near: Tree<N>, n: N, x: Item, far: Tree<N>)
    requires Avl(near) && Avl(far) && Height(near) == Height(far) + 2
    requires Height(Child(near, d)) >= Height(Child(near, !d))
    ensures Avl(RotateSingle(d, near, n, x, far))
    ensures Height(RotateSingle(d, near, n, x, far)) == if near.balance == 0 then Height(near) + 1 else Height(near)
  {
    ChildAvl(near, d);
    MakeAvl(d, Child(near, !d), n, x, far);
    MakeAvl(d, Child(near, d), near.node, near.item, Make(d, Child(near, !d), n, x, far));
  }

  lemma {:induction false} JoinThreeAvl<N>(d: bool, a: Tree<N>, n: N, x: Item, b: Tree<N>, m: N, y: Item,
                                           c: Tree<N>, k: N, z: Item, e: Tree<N>)
    requires Avl(a) && Avl(b) && Avl(c) && Avl(e) && Height(a) == Height(e)
    requires Height(a) - 1 <= Height(b) <= Height(a) && Height(a) - 1 <= Height(c) <= Height(a)
    ensures Avl(Make(d, Make(d, a, n, x, b), m, y, Make(d, c, k, z, e)))
    ensures Height(Make(d, Make(d, a, n, x, b), m, y, Make(d, c, k, z, e))) == Height(a) + 2
  {
    MakeAvl(d, a, n, x, b);
    MakeAvl(d, c, k, z, e);
    MakeAvl(d, Make(d, a, n, x, b), m, y, Make(d, c, k, z, e));
  }

  lemma {:induction false} DoubleAvl<N>(d: bool, near: Tree<N>, n: N, x: Item, far: Tree<N>)
    requires Avl(near) && Avl(far) && Height(near) == Height(far) + 2
    requires Height(Child(near, d)) < Height(Child(near, !d))
    ensures Avl(RotateDouble(d, near, n, x, far))
    ensures Height(RotateDouble(d, near, n, x, far)) == Height(near)
  {
    var w := Child(near, !d);
    ChildAvl(near, d);
    ChildAvl(w, d);
    JoinThreeAvl(d, Child(near, d), near.node, near.item, Child(w, d), w.node, w.item, Child(w, !d), n, x, far);
  }

  /** Leaning a tree that is at most two levels higher gives a balanced tree, one level
      shorter than the unrepaired join exactly when the heavy side was itself uneven. */
  lemma {:induction false} LeanAvl<N>(d: bool, near: Tree<N>, n: N, x: Item, far: Tree<N>)
    requires Avl(near) && Avl(far) && Height(far) <= Height(near) <= Height(far) + 2
    ensures Avl(Lean(d, near, n, x, far))
    ensures Height(Lean(d, near, n, x, far)) ==
            if Height(near) <= Height(far) + 1 || near.balance == 0 then Height(near) + 1 else Height(near)
  {
    if Height(near) <= Height(far) + 1 {
      MakeAvl(d, near, n, x, far);
    } else if Height(Child(near, d)) >= Height(Child(near, !d)) {
      SingleAvl(d, near, n, x, far);
    } else {
      ChildAvl(near, d);
      DoubleAvl(d, near, n, x, far);
    }
  }

  // ---- in-order sequence ----

  lemma {:induction false} FlatMake<N>(d: bool, near: Tree<N>, n: N, x: Item, far: Tree<N>)
    ensures Flat(Make(d, near, n, x, far)) ==
            if d then Flat(far) + [Entry(n, x)] + Flat(near) else Flat(near) + [Entry(n, x)] + Flat(far)
  {
  }

  lemma {:induction false} FlatSingle<N>(d: bool, near: Tree<N>, n: N, x: Item, far: Tree<N>)
    requires near.Branch?
    ensures Flat(RotateSingle(d, near, n, x, far)) == Flat(Make(d, near, n, x, far))
  {
    FlatMake(d, near, n, x, far);
    FlatMake(d, Child(near, !d), n, x, far);
    FlatMake(d, Child(near, d), near.node, near.item, Make(d, Child(near, !d), n, x, far));
    if d {
      assert (Flat(far) + [Entry(n, x)] + Flat(near.left)) + [Entry(near.node, near.item)] + Flat(near.right)
          == Flat(far) + [Entry(n, x)] + (Flat(near.left) + [Entry(near.node, near.item)] + Flat(near.right));
    } else {
      assert Flat(near.left) + [Entry(near.node, near.item)] + (Flat(near.right) + [Entry(n, x)] + Flat(far))
          == (Flat(near.left) + [Entry(near.node, near.item)] + Flat(near.right)) + [Entry(n, x)] + Flat(far);
    }
  }

  lemma {:induction false} FlatLean<N>(d: bool, near: Tree<N>, n: N, x: Item, far: Tree<N>)
    ensures Flat(Lean(d, near, n, x, far)) == Flat(Make(d, near, n, x, far))
  {
    if Height(near) <= Height(far) + 1 {
    } else if Height(Child(near, d)) >= Height(Child(near, !d)) {
      FlatSingle(d, near, n, x, far);
    } else {
      var w := Child(near, !d);
      var inner := Make(d, Child(near, d), near.node, near.item, Child(w, d));
      FlatDouble(d, near, n, x, far);
    }
  }

  /** A double rotation is a single rotation of the heavy side and then one of the whole. */
  lemma {:induction false} FlatDouble<N>(d: bool, near: Tree<N>, n: N, x: Item, far: Tree<N>)
    requires near.Branch? && Child(near, !d).Branch?
    ensures Flat(RotateDouble(d, near, n, x, far)) == Flat(Make(d, near, n, x, far))
  {
    var w := Child(near, !d);
    var turned := RotateSingle(!d, w, near.node, near.item, Child(near, d));
    FlatSingle(!d, w, near.node, near.item, Child(near, d));
    FlatSingle(d, turned, n, x, far);
    FlatMake(d, turned, n, x, far);
    FlatMake(d, near, n, x, far);
    FlatMake(!d, w, near.node, near.item, Child(near, d));
    assert RotateSingle(d, turned, n, x, far) == RotateDouble(d, near, n, x, far);
  }

  lemma {:induction false} FlatRebalance<N>(l: Tree<N>, n: N, x: Item, r: Tree<N>)
    ensures Flat(Rebalance(l, n, x, r)) == Flat(l) + [Entry(n, x)] + Flat(r)
  {
    if Height(l) >= Height(r) {
      FlatLean(false, l, n, x, r);
      FlatMake(false, l, n, x, r);
    } else {
      FlatLean(true, r, n, x, l);
      FlatMake(true, r, n, x, l);
    }
  }

  lemma {:induction false} RebalanceAvl<N>(l: Tree<N>, n: N, x: Item, r: Tree<N>)
    requires Avl(l) && Avl(r) && -2 <= Height(r) - Height(l) <= 2
    ensures Avl(Rebalance(l, n, x, r))
    ensures Max(Height(l), Height(r)) <= Height(Rebalance(l, n, x, r)) <= Max(Height(l), Height(r)) + 1
    ensures -1 <= Height(r) - Height(l) <= 1 ==>
              Height(Rebalance(l, n, x, r)) == Max(Height(l), Height(r)) + 1
  {
    if Height(l) >= Height(r) { LeanAvl(false, l, n, x, r); } else { LeanAvl(true, r, n, x, l); }
  }

  lemma SpliceIn<T>(a: seq<T>, e: T, b: seq<T>, i: nat, x: T)
    requires i <= |a| + 1 + |b|
    ensures i <= |a| ==> (a[..i] + [x] + a[i..]) + [e] + b == (a + [e] + b)[..i] + [x] + (a + [e] + b)[i..]
    ensures i > |a| ==> var j := i - |a| - 1;
              a + [e] + (b[..j] + [x] + b[j..]) == (a + [e] + b)[..i] + [x] + (a + [e] + b)[i..]
  {
  }

  lemma SpliceOut<T>(a: seq<T>, e: T, b: seq<T>, i: nat)
    requires i < |a| + 1 + |b|
    ensures i < |a| ==> (a[..i] + a[i + 1..]) + [e] + b == (a + [e] + b)[..i] + (a + [e] + b)[i + 1..]
    ensures i > |a| ==> var j := i - |a| - 1;
              a + [e] + (b[..j] + b[j + 1..]) == (a + [e] + b)[..i] + (a + [e] + b)[i + 1..]
  {
  }

  lemma {:induction false} FlatSize<N>(t: Tree<N>)
    ensures |Flat(t)| == Size(t)
  {
    if t.Branch? { FlatSize(t.left); FlatSize(t.right); }
  }

  // ---- insertion ----

  /** How many entries the descent for `x` leaves on its left. */
  ghost function Place<N>(cmp: Comparison, t: Tree<N>, x: Item): nat {
    if t.Leaf? then 0
    else if cmp(x, t.item) < 0 then Place(cmp, t.left, x)
    else Size(t.left) + 1 + Place(cmp, t.right, x)
  }

  lemma {:induction false} InsertAvl<N>(cmp: Comparison, t: Tree<N>, n: N, x: Item)
    requires Avl(t)
    ensures Avl(Insert(cmp, t, n, x))
    ensures Height(t) <= Height(Insert(cmp, t, n, x)) <= Height(t) + 1
  {
    if t.Branch? {
      if cmp(x, t.item) < 0 {
        InsertAvl(cmp, t.left, n, x);
        RebalanceAvl(Insert(cmp, t.left, n, x), t.node, t.item, t.right);
      } else if cmp(x, t.item) > 0 {
        InsertAvl(cmp, t.right, n, x);
        RebalanceAvl(t.left, t.node, t.item, Insert(cmp, t.right, n, x));
      }
    }
  }

  lemma {:induction false} PlaceInRange<N>(cmp: Comparison, t: Tree<N>, x: Item)
    ensures Place(cmp, t, x) <= Size(t) == |Flat(t)|
  {
    FlatSize(t);
    if t.Branch? { PlaceInRange(cmp, t.left, x); PlaceInRange(cmp, t.right, x); }
  }

  /** Inserting an absent item adds one entry at its place and moves nothing else. */
  lemma {:induction false} InsertFlat<N>(cmp: Comparison, t: Tree<N>, n: N, x: Item)
    requires Lookup(cmp, t, x).Leaf?
    ensures Place(cmp, t, x) <= |Flat(t)|
    ensures Flat(Insert(cmp, t, n, x)) ==
            Flat(t)[..Place(cmp, t, x)] + [Entry(n, x)] + Flat(t)[Place(cmp, t, x)..]
  {
    PlaceInRange(cmp, t, x);
    if t.Branch? {
      FlatSize(t.left);
      PlaceInRange(cmp, t.left, x);
      SpliceIn(Flat(t.left), Entry(t.node, t.item), Flat(t.right), Place(cmp, t, x), Entry(n, x));
      if cmp(x, t.item) < 0 {
        InsertFlat(cmp, t.left, n, x);
        FlatRebalance(Insert(cmp, t.left, n, x), t.node, t.item, t.right);
      } else {
        InsertFlat(cmp, t.right, n, x);
        FlatRebalance(t.left, t.node, t.item, Insert(cmp, t.right, n, x));
      }
    }
  }

  /** A sorted sequence splits at the place of an absent `x`. */
  lemma {:induction false} PlaceSplits<N>(cmp: Comparison, t: Tree<N>, x: Item)
    requires TotalOrder(cmp) && Sorted(cmp, Flat(t)) && Lookup(cmp, t, x).Leaf?
    ensures Place(cmp, t, x) <= |Flat(t)|
    ensures forall i :: 0 <= i < Place(cmp, t, x) ==> cmp(Flat(t)[i].item, x) < 0
    ensures forall i :: Place(cmp, t, x) <= i < |Flat(t)| ==> cmp(x, Flat(t)[i].item) < 0
  {
    PlaceInRange(cmp, t, x);
    if t.Branch? {
      SortedParts(cmp, t);
      FlatSize(t.left);
      PlaceInRange(cmp, t.left, x);
      PlaceInRange(cmp, t.right, x);
      var s, k := Flat(t), |Flat(t.left)|;
      if cmp(x, t.item) < 0 {
        PlaceSplits(cmp, t.left, x);
        forall i | k < i < |s| ensures cmp(x, s[i].item) < 0 {
          assert cmp(s[k].item, s[i].item) < 0;
          OrderFacts(cmp, x, t.item, s[i].item);
        }
      } else {
        PlaceSplits(cmp, t.right, x);
        OrderFacts(cmp, x, t.item, t.item);
        forall i | 0 <= i < k ensures cmp(s[i].item, x) < 0 {
          assert cmp(s[i].item, s[k].item) < 0;
          OrderFacts(cmp, s[i].item, t.item, x);
        }
      }
    }
  }

  lemma {:induction false} SortedParts<N>(cmp: Comparison, t: Tree<N>)
    requires t.Branch? && Sorted(cmp, Flat(t))
    ensures Sorted(cmp, Flat(t.left)) && Sorted(cmp, Flat(t.right))
  {
    var s, k := Flat(t), |Flat(t.left)|;
    forall i, j | 0 <= i < j < k ensures cmp(Flat(t.left)[i].item, Flat(t.left)[j].item) < 0 {
      assert s[i] == Flat(t.left)[i] && s[j] == Flat(t.left)[j];
    }
    forall i, j | 0 <= i < j < |Flat(t.right)| ensures cmp(Flat(t.right)[i].item, Flat(t.right)[j].item) < 0 {
      assert s[k + 1 + i] == Flat(t.right)[i] && s[k + 1 + j] == Flat(t.right)[j];
    }
  }

  // ---- deletion ----

  lemma {:induction false} RemoveLeastAvl<N>(t: Tree<N>)
    requires Avl(t) && t.Branch?
    ensures Avl(RemoveLeast(t))
    ensures Height(t) - 1 <= Height(RemoveLeast(t)) <= Height(t)
  {
    if t.left.Branch? {
      RemoveLeastAvl(t.left);
      RebalanceAvl(RemoveLeast(t.left), t.node, t.item, t.right);
    }
  }

  lemma {:induction false} DeleteAvl<N>(cmp: Comparison, t: Tree<N>, x: Item)
    requires Avl(t)
    ensures Avl(Delete(cmp, t, x))
    ensures Height(t) - 1 <= Height(Delete(cmp, t, x)) <= Height(t)
  {
    if t.Branch? {
      if cmp(x, t.item) < 0 {
        DeleteAvl(cmp, t.left, x);
        RebalanceAvl(Delete(cmp, t.left, x), t.node, t.item, t.right);
      } else if cmp(x, t.item) > 0 {
        DeleteAvl(cmp, t.right, x);
        RebalanceAvl(t.left, t.node, t.item, Delete(cmp, t.right, x));
      } else if t.right.Branch? {
        RemoveLeastAvl(t.right);
        RebalanceAvl(t.left, Least(t.right).0, Least(t.right).1, RemoveLeast(t.right));
      }
    }
  }

  lemma {:induction false} FlatRemoveLeast<N>(t: Tree<N>)
    requires t.Branch?
    ensures Flat(t) == [Entry(Least(t).0, Least(t).1)] + Flat(RemoveLeast(t))
  {
    if t.left.Branch? {
      FlatRemoveLeast(t.left);
      FlatRebalance(RemoveLeast(t.left), t.node, t.item, t.right);
    }
  }

  /** The position of the entry that compares equal to `x`. */
  ghost function Rank<N>(cmp: Comparison, t: Tree<N>, x: Item): nat
    requires Lookup(cmp, t, x).Branch?
  {
    if cmp(x, t.item) < 0 then Rank(cmp, t.left, x)
    else if cmp(x, t.item) > 0 then Size(t.left) + 1 + Rank(cmp, t.right, x)
    else Size(t.left)
  }

  lemma {:induction false} RankEntry<N>(cmp: Comparison, t: Tree<N>, x: Item)
    requires Lookup(cmp, t, x).Branch?
    ensures Rank(cmp, t, x) < |Flat(t)|
    ensures var f := Lookup(cmp, t, x); Flat(t)[Rank(cmp, t, x)] == Entry(f.node, f.item) && cmp(x, f.item) == 0
  {
    FlatSize(t.left);
    if cmp(x, t.item) < 0 {
      RankEntry(cmp, t.left, x);
    } else if cmp(x, t.item) > 0 {
      RankEntry(cmp, t.right, x);
    }
  }

  /** Deleting a held item removes its entry and moves nothing else. */
  lemma {:induction false} DeleteFlat<N>(cmp: Comparison, t: Tree<N>, x: Item)
    requires Lookup(cmp, t, x).Branch?
    ensures Rank(cmp, t, x) < |Flat(t)|
    ensures Flat(Delete(cmp, t, x)) == Flat(t)[..Rank(cmp, t, x)] + Flat(t)[Rank(cmp, t, x) + 1..]
  {
    var a, e, b := Flat(t.left), Entry(t.node, t.item), Flat(t.right);
    FlatSize(t.left);
    if cmp(x, t.item) < 0 {
      var l := Delete(cmp, t.left, x);
      DeleteFlat(cmp, t.left, x);
      FlatRebalance(l, t.node, t.item, t.right);
      SpliceOut(a, e, b, Rank(cmp, t.left, x));
    } else if cmp(x, t.item) > 0 {
      var r := Delete(cmp, t.right, x);
      DeleteFlat(cmp, t.right, x);
      FlatRebalance(t.left, t.node, t.item, r);
      SpliceOut(a, e, b, |a| + 1 + Rank(cmp, t.right, x));
    } else {
      DeleteRootFlat(cmp, t, x);
    }
  }

  lemma {:induction false} DeleteRootFlat<N>(cmp: Comparison, t: Tree<N>, x: Item)
    requires t.Branch? && cmp(x, t.item) == 0
    ensures Flat(Delete(cmp, t, x)) == Flat(t.left) + Flat(t.right)
    ensures Size(t.left) < |Flat(t)|
    ensures Flat(t)[..Size(t.left)] == Flat(t.left) && Flat(t)[Size(t.left) + 1..] == Flat(t.right)
  {
    FlatSize(t.left);
    Around(Flat(t.left), Entry(t.node, t.item), Flat(t.right));
    if t.right.Branch? { SuccessorFlat(t.left, t.right); }
  }

  lemma {:induction false} Around<T>(a: seq<T>, e: T, b: seq<T>)
    ensures (a + [e] + b)[..|a|] == a && (a + [e] + b)[|a| + 1..] == b
  {
  }

  lemma {:induction false} SuccessorFlat<N>(l: Tree<N>, r: Tree<N>)
    requires r.Branch?
    ensures Flat(Rebalance(l, Least(r).0, Least(r).1, RemoveLeast(r))) == Flat(l) + Flat(r)
  {
    FlatRemoveLeast(r);
    FlatRebalance(l, Least(r).0, Least(r).1, RemoveLeast(r));
    Regroup(Flat(l), [Entry(Least(r).0, Least(r).1)], Flat(RemoveLeast(r)));
  }

  lemma {:induction false} Regroup<T>(a: seq<T>, b: seq<T>, c: seq<T>)
    ensures a + b + c == a + (b + c)
  {
  }

  // ---- node identity ----

  ghost function NodeSet<N>(s: seq<Entry<N>>): set<N> {
    set i | 0 <= i < |s| :: s[i].node
  }

  ghost predicate Unique<N>(s: seq<Entry<N>>) {
    forall i, j :: 0 <= i < j < |s| ==> s[i].node != s[j].node
  }

  lemma NodeSetConcat<N>(a: seq<Entry<N>>, e: Entry<N>, b: seq<Entry<N>>)
    ensures NodeSet(a + [e] + b) == NodeSet(a) + {e.node} + NodeSet(b)
  {
    var s := a + [e] + b;
    forall n ensures n in NodeSet(s) <==> n in NodeSet(a) + {e.node} + NodeSet(b) {
      if n in NodeSet(a) { var i :| 0 <= i < |a| && a[i].node == n; assert s[i].node == n; }
      if n == e.node { assert s[|a|].node == n; }
      if n in NodeSet(b) { var i :| 0 <= i < |b| && b[i].node == n; assert s[|a| + 1 + i].node == n; }
      if n in NodeSet(s) {
        var i :| 0 <= i < |s| && s[i].node == n;
        if i < |a| { assert a[i].node == n; }
        if i > |a| { assert b[i - |a| - 1].node == n; }
      }
    }
  }

  lemma UniqueConcat<N>(a: seq<Entry<N>>, e: Entry<N>, b: seq<Entry<N>>)
    ensures Unique(a + [e] + b) <==>
            && Unique(a) && Unique(b) && NodeSet(a) !! NodeSet(b)
            && e.node !in NodeSet(a) && e.node !in NodeSet(b)
  {
    var s := a + [e] + b;
    assert s[|a|] == e;
    if Unique(s) {
      forall i, j | 0 <= i < j < |b| ensures b[i].node != b[j].node {
        assert s[|a| + 1 + i].node != s[|a| + 1 + j].node;
      }
      forall i, j | 0 <= i < j < |a| ensures a[i].node != a[j].node {
        assert s[i].node != s[j].node;
      }
      forall n | n in NodeSet(a) ensures n !in NodeSet(b) {
        var i :| 0 <= i < |a| && a[i].node == n;
        forall j | 0 <= j < |b| ensures b[j].node != n {
          assert s[i].node != s[|a| + 1 + j].node;
        }
      }
      forall i | 0 <= i < |a| ensures a[i].node != e.node {
        assert s[i].node != s[|a|].node;
      }
      forall j | 0 <= j < |b| ensures b[j].node != e.node {
        assert s[|a|].node != s[|a| + 1 + j].node;
      }
    } else if Unique(a) && Unique(b) {
      var i, j :| 0 <= i < j < |s| && s[i].node == s[j].node;
      if i < |a| { assert a[i].node in NodeSet(a); }
      if j > |a| { assert b[j - |a| - 1].node in NodeSet(b); }
    }
  }

  /** The nodes of a tree, and whether they are pairwise different, can be read off in order. */
  lemma {:induction false} FlatNodes<N>(t: Tree<N>)
    ensures Nodes(t) == NodeSet(Flat(t))
    ensures Distinct(t) <==> Unique(Flat(t))
  {
    if t.Branch? {
      FlatNodes(t.left);
      FlatNodes(t.right);
      NodeSetConcat(Flat(t.left), Entry(t.node, t.item), Flat(t.right));
      UniqueConcat(Flat(t.left), Entry(t.node, t.item), Flat(t.right));
    }
  }

  /** Search order, exact factors in -1..1, and no node twice. */
  ghost predicate WellFormed<N>(cmp: Comparison, t: Tree<N>) {
    Avl(t) && Sorted(cmp, Flat(t)) && Distinct(t)
  }

  /** `Lookup` finds an entry equal to `x` exactly when the table has one. */
  lemma {:induction false} LookupComplete<N>(cmp: Comparison, t: Tree<N>, x: Item)
    requires TotalOrder(cmp) && Sorted(cmp, Flat(t))
    ensures Lookup(cmp, t, x).Branch? <==> exists i :: 0 <= i < |Flat(t)| && cmp(x, Flat(t)[i].item) == 0
    ensures Lookup(cmp, t, x).Branch? ==>
              var f := Lookup(cmp, t, x); Entry(f.node, f.item) in Flat(t) && cmp(x, f.item) == 0
  {
    if Lookup(cmp, t, x).Branch? {
      RankEntry(cmp, t, x);
    } else {
      PlaceSplits(cmp, t, x);
      forall i | 0 <= i < |Flat(t)| ensures cmp(x, Flat(t)[i].item) != 0 {
        OrderFacts(cmp, Flat(t)[i].item, x, x);
      }
    }
  }

  lemma SeqInsert<N>(cmp: Comparison, s: seq<Entry<N>>, k: nat, e: Entry<N>)
    requires k <= |s| && Sorted(cmp, s) && Unique(s) && e.node !in NodeSet(s)
    requires forall i :: 0 <= i < k ==> cmp(s[i].item, e.item) < 0
    requires forall i :: k <= i < |s| ==> cmp(e.item, s[i].item) < 0
    ensures var s' := s[..k] + [e] + s[k..];
            Sorted(cmp, s') && Unique(s') && NodeSet(s') == NodeSet(s) + {e.node}
  {
    SplitNodes(s, k);
    NodeSetConcat(s[..k], e, s[k..]);
    UniqueConcat(s[..k], e, s[k..]);
  }

  lemma SeqRemove<N>(cmp: Comparison, s: seq<Entry<N>>, k: nat)
    requires k < |s| && Sorted(cmp, s) && Unique(s)
    ensures var s' := s[..k] + s[k + 1..];
            Sorted(cmp, s') && Unique(s') && NodeSet(s') == NodeSet(s) - {s[k].node}
  {
    var s' := s[..k] + s[k + 1..];
    assert s == s[..k] + [s[k]] + s[k + 1..];
    NodeSetConcat(s[..k], s[k], s[k + 1..]);
    UniqueConcat(s[..k], s[k], s[k + 1..]);
    assert s'[..k] == s[..k] && s'[k..] == s[k + 1..];
    SplitNodes(s', k);
    JoinUnique(s[..k], s[k + 1..]);
  }

  /** Textbook insertion of an absent item adds exactly the one entry and keeps the table
      well formed. */
  lemma {:induction false} InsertWellFormed<N>(cmp: Comparison, t: Tree<N>, n: N, x: Item)
    requires TotalOrder(cmp) && WellFormed(cmp, t) && Lookup(cmp, t, x).Leaf? && n !in Nodes(t)
    ensures WellFormed(cmp, Insert(cmp, t, n, x))
    ensures Nodes(Insert(cmp, t, n, x)) == Nodes(t) + {n}
    ensures Size(Insert(cmp, t, n, x)) == Size(t) + 1
  {
    InsertAvl(cmp, t, n, x);
    InsertFlat(cmp, t, n, x);
    PlaceSplits(cmp, t, x);
    EntryAdded(cmp, t, Insert(cmp, t, n, x), Place(cmp, t, x), Entry(n, x));
  }

  /** A balanced tree with one entry more, at its place. */
  lemma {:induction false} EntryAdded<N>(cmp: Comparison, t: Tree<N>, t': Tree<N>, k: nat, e: Entry<N>)
    requires WellFormed(cmp, t) && Avl(t') && k <= |Flat(t)| && e.node !in Nodes(t)
    requires Flat(t') == Flat(t)[..k] + [e] + Flat(t)[k..]
    requires forall i :: 0 <= i < k ==> cmp(Flat(t)[i].item, e.item) < 0
    requires forall i :: k <= i < |Flat(t)| ==> cmp(e.item, Flat(t)[i].item) < 0
    ensures WellFormed(cmp, t') && Nodes(t') == Nodes(t) + {e.node} && Size(t') == Size(t) + 1
  {
    FlatNodes(t);
    FlatNodes(t');
    FlatSize(t);
    FlatSize(t');
    SeqInsert(cmp, Flat(t), k, e);
  }

  /** A balanced tree with one entry less. */
  lemma {:induction false} EntryRemoved<N>(cmp: Comparison, t: Tree<N>, t': Tree<N>, k: nat)
    requires WellFormed(cmp, t) && Avl(t') && k < |Flat(t)| && Flat(t') == Flat(t)[..k] + Flat(t)[k + 1..]
    ensures WellFormed(cmp, t') && Size(t') == Size(t) - 1
    ensures Flat(t)[k].node in Nodes(t) && Nodes(t') == Nodes(t) - {Flat(t)[k].node}
  {
    FlatNodes(t);
    FlatNodes(t');
    FlatSize(t);
    FlatSize(t');
    SeqRemove(cmp, Flat(t), k);
  }

  lemma SplitNodes<N>(s: seq<Entry<N>>, k: nat)
    requires k <= |s|
    ensures NodeSet(s) == NodeSet(s[..k]) + NodeSet(s[k..])
    ensures Unique(s) ==> Unique(s[..k]) && Unique(s[k..]) && NodeSet(s[..k]) !! NodeSet(s[k..])
  {
    forall n | n in NodeSet(s) ensures n in NodeSet(s[..k]) + NodeSet(s[k..]) {
      var i :| 0 <= i < |s| && s[i].node == n;
      if i < k { assert s[..k][i].node == n; } else { assert s[k..][i - k].node == n; }
    }
    forall n | n in NodeSet(s[k..]) ensures n in NodeSet(s) {
      var i :| 0 <= i < |s| - k && s[k..][i].node == n;
      assert s[k + i].node == n;
    }
  }

  lemma JoinUnique<N>(a: seq<Entry<N>>, b: seq<Entry<N>>)
    requires Unique(a) && Unique(b) && NodeSet(a) !! NodeSet(b)
    ensures Unique(a + b)
  {
    forall i, j | 0 <= i < j < |a + b| ensures (a + b)[i].node != (a + b)[j].node {
      if i < |a| <= j {
        assert a[i].node in NodeSet(a) && b[j - |a|].node in NodeSet(b);
      }
    }
  }

  /** Textbook deletion of a held item removes exactly its entry and keeps the table well formed. */
  lemma {:induction false} DeleteWellFormed<N>(cmp: Comparison, t: Tree<N>, x: Item)
    requires TotalOrder(cmp) && WellFormed(cmp, t) && Lookup(cmp, t, x).Branch?
    ensures WellFormed(cmp, Delete(cmp, t, x))
    ensures Lookup(cmp, t, x).node in Nodes(t)
    ensures Nodes(Delete(cmp, t, x)) == Nodes(t) - {Lookup(cmp, t, x).node}
    ensures Size(Delete(cmp, t, x)) == Size(t) - 1
  {
    DeleteAvl(cmp, t, x);
    RankEntry(cmp, t, x);
    DeleteFlat(cmp, t, x);
    EntryRemoved(cmp, t, Delete(cmp, t, x), Rank(cmp, t, x));
  }
}
