/** The repairs that `avl_probe` and `avl_delete` make from stored balance factors, as
    functions on trees, and why they give the textbook result. */
module AvlSteps {
  import opened AvlTree

  /** A position is the list of link indices from the root down. */
  type Path = seq<bool>

  ghost predicate On<N>(t: Tree<N>, p: Path) {
    p == [] || (t.Branch? && On(Child(t, p[0]), p[1..]))
  }

  ghost function Sub<N>(t: Tree<N>, p: Path): Tree<N>
    requires On(t, p)
  {
    if p == [] then t else Sub(Child(t, p[0]), p[1..])
  }

  ghost function WithChild<N>(t: Tree<N>, d: bool, c: Tree<N>): Tree<N>
    requires t.Branch?
  {
    Join(d, c, t.node, t.item, t.balance, Child(t, !d))
  }

  ghost function Replace<N>(t: Tree<N>, p: Path, s: Tree<N>): Tree<N>
    requires On(t, p)
  {
    if p == [] then s else WithChild(t, p[0], Replace(Child(t, p[0]), p[1..], s))
  }

  lemma {:induction false} SubReplace<N>(t: Tree<N>, p: Path, s: Tree<N>)
    requires On(t, p)
    ensures On(Replace(t, p, s), p) && Sub(Replace(t, p, s), p) == s
    ensures forall u :: Replace(Replace(t, p, s), p, u) == Replace(t, p, u)
  {
    if p != [] { SubReplace(Child(t, p[0]), p[1..], s); }
  }

  /** One more step down. */
  lemma {:induction false} StepDown<N>(t: Tree<N>, p: Path, d: bool)
    requires On(t, p) && Sub(t, p).Branch?
    ensures On(t, p + [d]) && Sub(t, p + [d]) == Child(Sub(t, p), d)
    ensures forall s :: Replace(t, p + [d], s) == Replace(t, p, WithChild(Sub(t, p), d, s))
  {
    if p != [] {
      assert (p + [d])[1..] == p[1..] + [d];
      StepDown(Child(t, p[0]), p[1..], d);
    }
  }

  lemma {:induction false} OnSplit<N>(t: Tree<N>, p: Path, q: Path)
    requires On(t, p)
    ensures On(t, p + q) <==> On(Sub(t, p), q)
    ensures On(t, p + q) ==> Sub(t, p + q) == Sub(Sub(t, p), q)
    ensures On(t, p + q) ==> forall s :: Replace(t, p + q, s) == Replace(t, p, Replace(Sub(t, p), q, s))
  {
    if p == [] {
      assert p + q == q;
    } else {
      assert (p + q)[1..] == p[1..] + q;
      OnSplit(Child(t, p[0]), p[1..], q);
    }
  }

  ghost function Sgn(d: bool): int {
    if d then 1 else -1
  }

  // ---- rotations with the factors the code stores ----

  ghost function SingleAt<N>(d: bool, t: Tree<N>, ub: int, vb: int): Tree<N>
    requires t.Branch? && Child(t, d).Branch?
  {
    var x := Child(t, d);
    Join(d, Child(x, d), x.node, x.item, ub, Join(d, Child(x, !d), t.node, t.item, vb, Child(t, !d)))
  }

  ghost function DoubleAt<N>(d: bool, t: Tree<N>): Tree<N>
    requires t.Branch? && Child(t, d).Branch? && Child(Child(t, d), !d).Branch?
  {
    var x := Child(t, d);
    var w := Child(x, !d);
    Join(d,
         Join(d, Child(x, d), x.node, x.item, if w.balance == Sgn(d) || w.balance == 0 then 0 else Sgn(d), Child(w, d)),
         w.node, w.item, 0,
         Join(d, Child(w, !d), t.node, t.item, if w.balance == Sgn(d) then -Sgn(d) else 0, Child(t, !d)))
  }

  /** A node whose side `d` is two levels too high. */
  ghost predicate Tall<N>(d: bool, t: Tree<N>) {
    && t.Branch?
    && Avl(Child(t, d)) && Avl(Child(t, !d))
    && Height(Child(t, d)) == Height(Child(t, !d)) + 2
  }

  lemma {:induction false} SingleAtIsLean<N>(d: bool, t: Tree<N>)
    requires Tall(d, t) && Child(t, d).balance != -Sgn(d)
    ensures var x := Child(t, d);
            var tilt := if x.balance == 0 then Sgn(d) else 0;
            SingleAt(d, t, -tilt, tilt) == Lean(d, x, t.node, t.item, Child(t, !d))
  {
    var x, o := Child(t, d), Child(t, !d);
    var b, tilt := Child(x, !d), if x.balance == 0 then Sgn(d) else 0;
    ChildAvl(x, d);
    MakeAvl(d, b, t.node, t.item, o);
    MakeIs(d, b, t.node, t.item, o, tilt);
    MakeIs(d, Child(x, d), x.node, x.item, Join(d, b, t.node, t.item, tilt, o), -tilt);
  }

  lemma {:induction false} MakeIs<N>(d: bool, near: Tree<N>, n: N, x: Item, far: Tree<N>, b: int)
    requires b == if d then Height(near) - Height(far) else Height(far) - Height(near)
    ensures Make(d, near, n, x, far) == Join(d, near, n, x, b, far)
  {
  }

  lemma {:induction false} JoinThreeStored<N>(d: bool, a: Tree<N>, n: N, x: Item, b: Tree<N>, m: N, y: Item,
                                              c: Tree<N>, k: N, z: Item, e: Tree<N>, wb: int)
    requires Height(a) == Height(e) == Max(Height(b), Height(c)) && -1 <= wb <= 1
    requires Height(b) - Height(c) == wb * Sgn(d)
    ensures Make(d, Make(d, a, n, x, b), m, y, Make(d, c, k, z, e)) ==
            Join(d, Join(d, a, n, x, if wb == Sgn(d) || wb == 0 then 0 else Sgn(d), b), m, y, 0,
                 Join(d, c, k, z, if wb == Sgn(d) then -Sgn(d) else 0, e))
  {
  }

  lemma {:induction false} DoubleAtIsLean<N>(d: bool, t: Tree<N>)
    requires Tall(d, t) && Child(t, d).balance == -Sgn(d)
    ensures Child(Child(t, d), !d).Branch?
    ensures DoubleAt(d, t) == Lean(d, Child(t, d), t.node, t.item, Child(t, !d))
  {
    var x := Child(t, d);
    ChildAvl(x, d);
    var w := Child(x, !d);
    ChildAvl(w, d);
    JoinThreeStored(d, Child(x, d), x.node, x.item, Child(w, d), w.node, w.item,
                    Child(w, !d), t.node, t.item, Child(t, !d), w.balance);
  }

  // ---- insertion: one pass from the last node with a nonzero factor ----

  /** The links the descent for `x` follows, down to an empty link or an equal item. */
  ghost function SearchPath<N>(cmp: Comparison, t: Tree<N>, x: Item): Path {
    if t.Leaf? || cmp(x, t.item) == 0 then []
    else [cmp(x, t.item) > 0] + SearchPath(cmp, Child(t, cmp(x, t.item) > 0), x)
  }

  /** Every node on `p` stores factor 0. */
  ghost predicate Calm<N>(t: Tree<N>, p: Path) {
    p == [] || (t.Branch? && t.balance == 0 && Calm(Child(t, p[0]), p[1..]))
  }

  /** Hangs `new` at the end of `p` and steps every factor along `p`, rotating nothing. */
  ghost function Bump<N>(t: Tree<N>, p: Path, new': Tree<N>): Tree<N>
    requires On(t, p)
  {
    if p == [] then new'
    else Join(p[0], Bump(Child(t, p[0]), p[1..], new'), t.node, t.item, t.balance + Sgn(p[0]), Child(t, !p[0]))
  }

  ghost predicate CanRepair<N>(t: Tree<N>) {
    t.Branch? && (t.balance == 2 || t.balance == -2) ==>
      var d := t.balance == 2;
      Child(t, d).Branch? && (Child(t, d).balance != Sgn(d) ==> Child(Child(t, d), !d).Branch?)
  }

  /** What `avl_probe` does at its top node once the factors are stepped. */
  ghost function Repair<N>(t: Tree<N>): Tree<N>
    requires CanRepair(t)
  {
    if t.Branch? && (t.balance == 2 || t.balance == -2) then
      var d := t.balance == 2;
      if Child(t, d).balance == Sgn(d) then SingleAt(d, t, 0, 0) else DoubleAt(d, t)
    else t
  }

  lemma {:induction false} SearchPathOn<N>(cmp: Comparison, t: Tree<N>, x: Item)
    ensures On(t, SearchPath(cmp, t, x))
    ensures Sub(t, SearchPath(cmp, t, x)) == Lookup(cmp, t, x)
  {
    if t.Branch? && cmp(x, t.item) != 0 { SearchPathOn(cmp, Child(t, cmp(x, t.item) > 0), x); }
  }

  /** Along a calm path the stepped tree already is the textbook result, one level higher. */
  lemma {:induction false} CalmInsert<N>(cmp: Comparison, t: Tree<N>, n: N, x: Item)
    requires Avl(t) && Lookup(cmp, t, x).Leaf? && Calm(t, SearchPath(cmp, t, x))
    ensures On(t, SearchPath(cmp, t, x))
    ensures Insert(cmp, t, n, x) == Bump(t, SearchPath(cmp, t, x), Branch(Leaf, n, x, 0, Leaf))
    ensures Height(Insert(cmp, t, n, x)) == Height(t) + 1
    ensures Avl(Insert(cmp, t, n, x))
    ensures t.Branch? ==> Insert(cmp, t, n, x).balance == Sgn(cmp(x, t.item) > 0)
  {
    SearchPathOn(cmp, t, x);
    InsertAvl(cmp, t, n, x);
    if t.Branch? {
      CalmInsert(cmp, Child(t, cmp(x, t.item) > 0), n, x);
    }
  }

  ghost function InsertedAt<N>(t: Tree<N>, p: Path, n: N, x: Item): Tree<N>
    requires On(t, p)
  {
    Bump(t, p, Branch(Leaf, n, x, 0, Leaf))
  }

  /** At a node with a nonzero factor above a calm path, one repair gives the textbook
      result and the height does not change. */
  lemma {:induction false} SteepInsert<N>(cmp: Comparison, t: Tree<N>, n: N, x: Item)
    requires Avl(t) && t.Branch? && t.balance != 0 && Lookup(cmp, t, x).Leaf?
    requires Calm(Child(t, cmp(x, t.item) > 0), SearchPath(cmp, t, x)[1..])
    ensures On(t, SearchPath(cmp, t, x))
    ensures CanRepair(InsertedAt(t, SearchPath(cmp, t, x), n, x))
    ensures Insert(cmp, t, n, x) == Repair(InsertedAt(t, SearchPath(cmp, t, x), n, x))
    ensures Height(Insert(cmp, t, n, x)) == Height(t)
  {
    var d := cmp(x, t.item) > 0;
    var c, o := Child(t, d), Child(t, !d);
    SearchPathOn(cmp, t, x);
    CalmInsert(cmp, c, n, x);
    ChildAvl(t, d);
    var c' := Insert(cmp, c, n, x);
    assert InsertedAt(t, SearchPath(cmp, t, x), n, x) == Join(d, c', t.node, t.item, t.balance + Sgn(d), o);
    SteepRejoin(t, d, c');
  }

  /** A subtree that grew by one level, below a nonzero factor. */
  lemma {:induction false} SteepRejoin<N>(t: Tree<N>, d: bool, c': Tree<N>)
    requires Avl(t) && t.Branch? && t.balance != 0 && Avl(c') && Height(c') == Height(Child(t, d)) + 1
    requires t.balance == Sgn(d) ==> c'.balance == 1 || c'.balance == -1
    ensures var s := Join(d, c', t.node, t.item, t.balance + Sgn(d), Child(t, !d));
            CanRepair(s) && Rejoin(t, d, c') == Repair(s) && Height(Rejoin(t, d, c')) == Height(t)
  {
    ChildAvl(t, d);
    var o := Child(t, !d);
    var s := Join(d, c', t.node, t.item, t.balance + Sgn(d), o);
    if t.balance == Sgn(d) {
      assert Tall(d, s);
      LeanAvl(d, c', t.node, t.item, o);
      if c'.balance == Sgn(d) { SingleAtIsLean(d, s); } else { DoubleAtIsLean(d, s); }
    } else {
      MakeAvl(d, c', t.node, t.item, o);
      MakeAvl(!d, o, t.node, t.item, c');
    }
  }

  ghost function Rejoin<N>(t: Tree<N>, d: bool, c: Tree<N>): Tree<N>
    requires t.Branch?
  {
    if d then Rebalance(t.left, t.node, t.item, c) else Rebalance(c, t.node, t.item, t.right)
  }

  /** A child of unchanged height needs no repair above it. */
  lemma {:induction false} RejoinSameHeight<N>(t: Tree<N>, d: bool, c: Tree<N>)
    requires Avl(t) && t.Branch? && Avl(c) && Height(c) == Height(Child(t, d))
    ensures Rejoin(t, d, c) == WithChild(t, d, c)
    ensures Height(Rejoin(t, d, c)) == Height(t)
  {
    ChildAvl(t, d);
    MakeAvl(d, c, t.node, t.item, Child(t, !d));
    MakeAvl(!d, Child(t, !d), t.node, t.item, c);
  }

  /** If the subtree at depth `k` keeps its height, no ancestor changes. */
  lemma {:induction false} InsertBelow<N>(cmp: Comparison, t: Tree<N>, n: N, x: Item, k: nat)
    requires Avl(t) && Lookup(cmp, t, x).Leaf? && k <= |SearchPath(cmp, t, x)|
    ensures On(t, SearchPath(cmp, t, x)[..k])
    ensures var s := Sub(t, SearchPath(cmp, t, x)[..k]);
            && Avl(s) && Lookup(cmp, s, x).Leaf? && SearchPath(cmp, s, x) == SearchPath(cmp, t, x)[k..]
            && (Height(Insert(cmp, s, n, x)) == Height(s) ==>
                  && Insert(cmp, t, n, x) == Replace(t, SearchPath(cmp, t, x)[..k], Insert(cmp, s, n, x))
                  && Height(Insert(cmp, t, n, x)) == Height(t))
  {
    if k > 0 {
      var p := SearchPath(cmp, t, x);
      var d := cmp(x, t.item) > 0;
      InsertChild(cmp, t, n, x);
      InsertBelow(cmp, Child(t, d), n, x, k - 1);
      var q := SearchPath(cmp, Child(t, d), x)[..k - 1];
      PathStep(t, d, p, k, q, Insert(cmp, Sub(Child(t, d), q), n, x));
    } else {
      assert SearchPath(cmp, t, x)[..0] == [];
    }
  }

  lemma {:induction false} PathStep<N>(t: Tree<N>, d: bool, p: Path, k: nat, q: Path, s: Tree<N>)
    requires t.Branch? && 0 < k <= |p| && p[0] == d && q == p[1..][..k - 1] && On(Child(t, d), q)
    ensures On(t, p[..k]) && Sub(t, p[..k]) == Sub(Child(t, d), q) && p[k..] == p[1..][k - 1..]
    ensures Replace(t, p[..k], s) == WithChild(t, d, Replace(Child(t, d), q, s))
  {
    assert p[..k][1..] == q;
  }

  /** Insertion one level down. */
  lemma {:induction false} InsertChild<N>(cmp: Comparison, t: Tree<N>, n: N, x: Item)
    requires Avl(t) && t.Branch? && Lookup(cmp, t, x).Leaf?
    ensures var d := cmp(x, t.item) > 0;
            var c := Child(t, d);
            && Avl(c) && Lookup(cmp, c, x).Leaf? && SearchPath(cmp, t, x) == [d] + SearchPath(cmp, c, x)
            && (Height(Insert(cmp, c, n, x)) == Height(c) ==>
                  && Insert(cmp, t, n, x) == WithChild(t, d, Insert(cmp, c, n, x))
                  && Height(Insert(cmp, t, n, x)) == Height(t))
  {
    var d := cmp(x, t.item) > 0;
    var c := Child(t, d);
    InsertAvl(cmp, c, n, x);
    assert Insert(cmp, t, n, x) == Rejoin(t, d, Insert(cmp, c, n, x));
    if Height(Insert(cmp, c, n, x)) == Height(c) { RejoinSameHeight(t, d, Insert(cmp, c, n, x)); }
  }

  /** The split that `avl_probe` finds: `k` is the depth of the last node with a nonzero
      factor, or 0. */
  ghost predicate LastSteep<N>(t: Tree<N>, p: Path, k: nat)
    requires On(t, p)
  {
    && k <= |p| && On(t, p[..k])
    && (k == 0 || (Sub(t, p[..k]).Branch? && Sub(t, p[..k]).balance != 0))
    && (k < |p| ==> Sub(t, p[..k]).Branch? && Calm(Child(Sub(t, p[..k]), p[k]), p[k + 1..]))
  }

  /** Stepping factors from that node down and repairing once there is textbook insertion. */
  lemma {:induction false} OnePassInsert<N>(cmp: Comparison, t: Tree<N>, n: N, x: Item, k: nat)
    requires Avl(t) && Lookup(cmp, t, x).Leaf?
    requires On(t, SearchPath(cmp, t, x)) && LastSteep(t, SearchPath(cmp, t, x), k)
    ensures On(Sub(t, SearchPath(cmp, t, x)[..k]), SearchPath(cmp, t, x)[k..])
    ensures var p := SearchPath(cmp, t, x);
            var s := InsertedAt(Sub(t, p[..k]), p[k..], n, x);
            CanRepair(s) && Insert(cmp, t, n, x) == Replace(t, p[..k], Repair(s))
  {
    var p := SearchPath(cmp, t, x);
    InsertBelow(cmp, t, n, x, k);
    var y := Sub(t, p[..k]);
    SearchPathOn(cmp, y, x);
    if y.Branch? && y.balance != 0 {
      SearchPathOn(cmp, t, x);
      SteepInsert(cmp, y, n, x);
    } else {
      assert p[..0] == [];
      CalmInsert(cmp, t, n, x);
    }
  }

  lemma {:induction false} CalmDoesNotRotate<N>(cmp: Comparison, t: Tree<N>, n: N, x: Item)
    requires Avl(t) && Lookup(cmp, t, x).Leaf? && Calm(t, SearchPath(cmp, t, x))
    ensures !Rotates(cmp, t, n, x)
  {
    if t.Branch? {
      var d := cmp(x, t.item) > 0;
      CalmInsert(cmp, Child(t, d), n, x);
      CalmDoesNotRotate(cmp, Child(t, d), n, x);
      ChildAvl(t, d);
    }
  }

  lemma {:induction false} RotatesBelow<N>(cmp: Comparison, t: Tree<N>, n: N, x: Item, k: nat)
    requires Avl(t) && Lookup(cmp, t, x).Leaf? && k <= |SearchPath(cmp, t, x)|
    requires On(t, SearchPath(cmp, t, x)[..k])
    requires var s := Sub(t, SearchPath(cmp, t, x)[..k]);
             Height(Insert(cmp, s, n, x)) == Height(s)
    ensures Rotates(cmp, t, n, x) == Rotates(cmp, Sub(t, SearchPath(cmp, t, x)[..k]), n, x)
  {
    if k > 0 {
      var p := SearchPath(cmp, t, x);
      var d := cmp(x, t.item) > 0;
      assert p[..k][1..] == p[1..][..k - 1];
      InsertBelow(cmp, Child(t, d), n, x, k - 1);
      RotatesBelow(cmp, Child(t, d), n, x, k - 1);
      ChildAvl(t, d);
    }
  }

  /** The factor at the top node reaches 2 or -2 exactly when textbook insertion rotates. */
  lemma {:induction false} OnePassRotates<N>(cmp: Comparison, t: Tree<N>, n: N, x: Item, k: nat)
    requires Avl(t) && Lookup(cmp, t, x).Leaf?
    requires On(t, SearchPath(cmp, t, x)) && LastSteep(t, SearchPath(cmp, t, x), k)
    requires On(Sub(t, SearchPath(cmp, t, x)[..k]), SearchPath(cmp, t, x)[k..])
    ensures var p := SearchPath(cmp, t, x);
            var b := InsertedAt(Sub(t, p[..k]), p[k..], n, x).balance;
            Rotates(cmp, t, n, x) <==> b == 2 || b == -2
  {
    var p := SearchPath(cmp, t, x);
    InsertBelow(cmp, t, n, x, k);
    var y := Sub(t, p[..k]);
    if y.Branch? && y.balance != 0 {
      var d := cmp(x, y.item) > 0;
      SearchPathOn(cmp, t, x);
      SteepInsert(cmp, y, n, x);
      RotatesBelow(cmp, t, n, x, k);
      CalmInsert(cmp, Child(y, d), n, x);
      CalmDoesNotRotate(cmp, Child(y, d), n, x);
      ChildAvl(y, d);
    } else {
      assert p[..0] == [];
      CalmDoesNotRotate(cmp, t, n, x);
      if t.Branch? { ChildAvl(t, cmp(x, t.item) > 0); }
    }
  }

  // ---- deletion: unlink, then climb ----

  ghost function LeftSpine<N>(t: Tree<N>): Path
    requires t.Branch?
  {
    if t.left.Leaf? then [] else [false] + LeftSpine(t.left)
  }

  ghost function DropLeast<N>(t: Tree<N>): Tree<N>
    requires t.Branch?
  {
    if t.left.Leaf? then t.right else t.(left := DropLeast(t.left))
  }

  /** Takes the root out; its in-order successor, if any, takes its place and its factor. */
  ghost function UnlinkRoot<N>(t: Tree<N>): Tree<N>
    requires t.Branch?
  {
    if t.right.Leaf? then t.left
    else Branch(t.left, Least(t.right).0, Least(t.right).1, t.balance, DropLeast(t.right))
  }

  /** Takes the entry equal to `x` out and changes no other factor. */
  ghost function Unlink<N>(cmp: Comparison, t: Tree<N>, x: Item): Tree<N>
    requires Lookup(cmp, t, x).Branch?
  {
    if cmp(x, t.item) < 0 then t.(left := Unlink(cmp, t.left, x))
    else if cmp(x, t.item) > 0 then t.(right := Unlink(cmp, t.right, x))
    else UnlinkRoot(t)
  }

  /** Where the unlinked tree is one level short: the links on the stack after unlinking. */
  ghost function ShortPath<N>(cmp: Comparison, t: Tree<N>, x: Item): Path
    requires Lookup(cmp, t, x).Branch?
  {
    if cmp(x, t.item) < 0 then [false] + ShortPath(cmp, t.left, x)
    else if cmp(x, t.item) > 0 then [true] + ShortPath(cmp, t.right, x)
    else if t.right.Leaf? then []
    else [true] + LeftSpine(t.right)
  }

  /** The height that the stored factors imply when the subtree at `p` lost one level. */
  ghost function ImpliedHeight<N>(t: Tree<N>, p: Path): nat
    requires On(t, p)
  {
    if p == [] then Height(t) + 1
    else 1 + Max(ImpliedHeight(Child(t, p[0]), p[1..]), Height(Child(t, !p[0])))
  }

  /** The subtree at `p` is exactly one level shorter than the factors above it say, and
      every other factor is exact. */
  ghost predicate Short<N>(t: Tree<N>, p: Path) {
    if p == [] then Avl(t)
    else
      && t.Branch? && On(t, p)
      && Short(Child(t, p[0]), p[1..]) && Avl(Child(t, !p[0]))
      && t.balance == Sgn(p[0]) * (ImpliedHeight(Child(t, p[0]), p[1..]) - Height(Child(t, !p[0])))
      && -1 <= t.balance <= 1
  }

  ghost predicate CanSettle<N>(d: bool, t: Tree<N>) {
    && t.Branch?
    && (t.balance == -Sgn(d) ==>
          Child(t, !d).Branch? && (Child(t, !d).balance == Sgn(d) ==> Child(Child(t, !d), d).Branch?))
  }

  /** One turn of the climb at a node whose link `d` got shorter: the repaired subtree, and
      whether it is shorter than before (`false` is the loop's `break`). */
  ghost function Settle<N>(d: bool, t: Tree<N>): (Tree<N>, bool)
    requires CanSettle(d, t)
  {
    var b := t.balance - Sgn(d);
    if b == -Sgn(d) then (t.(balance := b), false)
    else if b == -2 * Sgn(d) then
      if Child(t, !d).balance == Sgn(d) then (DoubleAt(!d, t), true)
      else if Child(t, !d).balance == 0 then (SingleAt(!d, t, Sgn(d), -Sgn(d)), false)
      else (SingleAt(!d, t, 0, 0), true)
    else (t.(balance := b), true)
  }

  /** The whole climb from the bottom of `p`. */
  ghost function Climb<N>(t: Tree<N>, p: Path): (Tree<N>, bool) {
    if p == [] then (t, true)
    else if t.Leaf? then (t, true)
    else
      var (c, shorter) := Climb(Child(t, p[0]), p[1..]);
      var s := WithChild(t, p[0], c);
      if shorter && CanSettle(p[0], s) then Settle(p[0], s) else (s, false)
  }

  /** What the definition says of the node just above the short subtree. */
  lemma {:induction false} ShortTop<N>(t: Tree<N>, d: bool)
    requires Short(t, [d])
    ensures t.Branch? && Avl(Child(t, d)) && Avl(Child(t, !d)) && -1 <= t.balance <= 1
    ensures Height(Child(t, d)) + 1 - Height(Child(t, !d)) == if d then t.balance else -t.balance
    ensures On(t, [d]) && ImpliedHeight(t, [d]) == 1 + Max(Height(Child(t, d)) + 1, Height(Child(t, !d)))
  {
    assert [d][1..] == [];
    assert ImpliedHeight(Child(t, d), []) == Height(Child(t, d)) + 1;
  }

  /** One turn is textbook rebalancing, and `break` means the old height is back. */
  lemma {:induction false} SettleIsRejoin<N>(t: Tree<N>, d: bool)
    requires Short(t, [d])
    ensures t.Branch? && CanSettle(d, t)
    ensures Settle(d, t).0 == Rejoin(t, d, Child(t, d))
    ensures Avl(Settle(d, t).0)
    ensures Height(Settle(d, t).0) == ImpliedHeight(t, [d]) - (if Settle(d, t).1 then 1 else 0)
  {
    ShortTop(t, d);
    if t.balance == -Sgn(d) { SettleTurns(t, d); } else { SettleStays(t, d); }
  }

  lemma {:induction false} SettleTurns<N>(t: Tree<N>, d: bool)
    requires Tall(!d, t) && t.balance == -Sgn(d)
    ensures CanSettle(d, t)
    ensures Settle(d, t).0 == Rejoin(t, d, Child(t, d))
    ensures Avl(Settle(d, t).0)
    ensures Height(Settle(d, t).0) == 1 + Height(Child(t, !d)) - (if Settle(d, t).1 then 1 else 0)
  {
    var c, o := Child(t, d), Child(t, !d);
    ChildAvl(o, !d);
    LeanAvl(!d, o, t.node, t.item, c);
    if o.balance == Sgn(d) { DoubleAtIsLean(!d, t); } else { SingleAtIsLean(!d, t); }
  }

  lemma {:induction false} SettleStays<N>(t: Tree<N>, d: bool)
    requires t.Branch? && Avl(Child(t, d)) && Avl(Child(t, !d)) && -1 <= t.balance <= 1 && t.balance != -Sgn(d)
    requires Height(Child(t, d)) + 1 - Height(Child(t, !d)) == if d then t.balance else -t.balance
    ensures CanSettle(d, t)
    ensures Settle(d, t).0 == Rejoin(t, d, Child(t, d))
    ensures Avl(Settle(d, t).0)
    ensures Height(Settle(d, t).0) == 2 + Height(Child(t, d)) - (if Settle(d, t).1 then 1 else 0)
  {
    var c, o := Child(t, d), Child(t, !d);
    MakeAvl(d, c, t.node, t.item, o);
    MakeAvl(!d, o, t.node, t.item, c);
  }

  lemma {:induction false} ShortOn<N>(t: Tree<N>, p: Path)
    requires Short(t, p)
    ensures On(t, p) && Avl(Sub(t, p))
  {
    if p != [] { ShortOn(Child(t, p[0]), p[1..]); }
  }

  /** Just above the short subtree, only that one factor is off. */
  lemma {:induction false} ShortAtBottom<N>(t: Tree<N>, p: Path, d: bool)
    requires Short(t, p + [d])
    ensures On(t, p) && Sub(t, p).Branch? && Short(Sub(t, p), [d])
  {
    if p == [] {
      assert p + [d] == [d];
    } else {
      assert (p + [d])[1..] == p[1..] + [d];
      ShortAtBottom(Child(t, p[0]), p[1..], d);
    }
  }

  /** Replacing the subtree at `p` by one whose height is what the factors imply, or one less. */
  lemma {:induction false} ShortReplace<N>(t: Tree<N>, p: Path, d: bool, s: Tree<N>)
    requires Short(t, p + [d]) && On(t, p) && On(t, p + [d]) && On(Sub(t, p), [d]) && Avl(s)
    ensures Height(s) == ImpliedHeight(Sub(t, p), [d]) - 1 ==>
              && Short(Replace(t, p, s), p)
              && On(Replace(t, p, s), p)
              && ImpliedHeight(Replace(t, p, s), p) == ImpliedHeight(t, p + [d])
    ensures Height(s) == ImpliedHeight(Sub(t, p), [d]) ==>
              Avl(Replace(t, p, s)) && Height(Replace(t, p, s)) == ImpliedHeight(t, p + [d])
  {
    if p == [] {
      assert p + [d] == [d];
    } else {
      assert (p + [d])[1..] == p[1..] + [d];
      SubReplace(t, p, s);
      ShortReplace(Child(t, p[0]), p[1..], d, s);
    }
  }

  /** The recursive climb unwinds from its bottom, one turn at a time. */
  lemma {:induction false} ClimbStep<N>(t: Tree<N>, p: Path, d: bool)
    requires On(t, p) && Sub(t, p).Branch? && CanSettle(d, Sub(t, p))
    ensures var (s, shorter) := Settle(d, Sub(t, p));
            Climb(t, p + [d]) == if shorter then Climb(Replace(t, p, s), p) else (Replace(t, p, s), false)
  {
    if p == [] {
      assert p + [d] == [d];
      assert Climb(Child(t, d), []) == (Child(t, d), true);
      assert WithChild(t, d, Child(t, d)) == t;
    } else {
      assert (p + [d])[1..] == p[1..] + [d];
      ClimbStep(Child(t, p[0]), p[1..], d);
    }
  }

  /** After one turn the invariant of the climb holds one level up; after a `break`
      every factor in the tree is exact. */
  lemma {:induction false} ClimbTurn<N>(t: Tree<N>, p: Path, d: bool)
    requires Short(t, p + [d])
    ensures On(t, p) && CanSettle(d, Sub(t, p))
    ensures var (s, shorter) := Settle(d, Sub(t, p));
            && RootsAvl(s)
            && Climb(t, p + [d]) == (if shorter then Climb(Replace(t, p, s), p) else (Replace(t, p, s), false))
            && (shorter ==> Short(Replace(t, p, s), p))
            && (!shorter ==> Avl(Replace(t, p, s)))
  {
    ShortAtBottom(t, p, d);
    ShortOn(t, p + [d]);
    SettleIsRejoin(Sub(t, p), d);
    ClimbStep(t, p, d);
    ShortReplace(t, p, d, Settle(d, Sub(t, p)).0);
  }

  ghost predicate RootsAvl<N>(t: Tree<N>) { t.Branch? && Avl(t) }

  lemma {:induction false} ShortOne<N>(t: Tree<N>, d: bool)
    requires t.Branch? && Avl(Child(t, d)) && Avl(Child(t, !d)) && -1 <= t.balance <= 1
    requires Height(Child(t, d)) + 1 - Height(Child(t, !d)) == if d then t.balance else -t.balance
    ensures Short(t, [d]) && ImpliedHeight(t, [d]) == 1 + Max(Height(Child(t, d)) + 1, Height(Child(t, !d)))
  {
    assert [d][1..] == [];
    assert ImpliedHeight(Child(t, d), []) == Height(Child(t, d)) + 1;
  }

  lemma {:induction false} RejoinShorter<N>(t: Tree<N>, d: bool, c: Tree<N>)
    requires Avl(t) && t.Branch? && Avl(c) && Height(c) == Height(Child(t, d)) - 1
    ensures CanSettle(d, WithChild(t, d, c))
    ensures Settle(d, WithChild(t, d, c)).0 == Rejoin(t, d, c)
    ensures Settle(d, WithChild(t, d, c)).1 == (Height(Rejoin(t, d, c)) < Height(t))
  {
    ChildAvl(t, d);
    var s := WithChild(t, d, c);
    assert Child(s, d) == c && Child(s, !d) == Child(t, !d) && s.balance == t.balance;
    ShortOne(s, d);
    SettleIsRejoin(s, d);
    assert Rejoin(s, d, c) == Rejoin(t, d, c);
  }

  /** What holds of the climb in a subtree holds of it one level up. */
  lemma {:induction false} ClimbParent<N>(t: Tree<N>, d: bool, u: Tree<N>, p: Path, c: Tree<N>)
    requires Avl(t) && t.Branch? && On(u, p) && Short(u, p) && ImpliedHeight(u, p) == Height(Child(t, d))
    requires Avl(c) && Height(Child(t, d)) - 1 <= Height(c) <= Height(Child(t, d))
    requires Climb(u, p) == (c, Height(c) < Height(Child(t, d)))
    ensures On(WithChild(t, d, u), [d] + p) && Short(WithChild(t, d, u), [d] + p)
    ensures ImpliedHeight(WithChild(t, d, u), [d] + p) == Height(t)
    ensures Climb(WithChild(t, d, u), [d] + p) == (Rejoin(t, d, c), Height(Rejoin(t, d, c)) < Height(t))
  {
    ShortParent(t, d, u, p);
    assert ([d] + p)[1..] == p;
    var s := WithChild(t, d, u);
    assert Child(s, d) == u && WithChild(s, d, c) == WithChild(t, d, c);
    if Height(c) < Height(Child(t, d)) { RejoinShorter(t, d, c); } else { RejoinSameHeight(t, d, c); }
  }

  lemma {:induction false} ShortParent<N>(t: Tree<N>, d: bool, u: Tree<N>, p: Path)
    requires Avl(t) && t.Branch? && On(u, p) && Short(u, p) && ImpliedHeight(u, p) == Height(Child(t, d))
    ensures On(WithChild(t, d, u), [d] + p) && Short(WithChild(t, d, u), [d] + p)
    ensures ImpliedHeight(WithChild(t, d, u), [d] + p) == Height(t)
  {
    assert ([d] + p)[1..] == p;
    ChildAvl(t, d);
  }

  lemma {:induction false} DropLeastClimb<N>(t: Tree<N>)
    requires Avl(t) && t.Branch?
    ensures Climb(DropLeast(t), LeftSpine(t)) == (RemoveLeast(t), Height(RemoveLeast(t)) < Height(t))
    ensures Short(DropLeast(t), LeftSpine(t)) && On(DropLeast(t), LeftSpine(t))
    ensures ImpliedHeight(DropLeast(t), LeftSpine(t)) == Height(t)
  {
    if t.left.Branch? {
      DropLeastClimb(t.left);
      RemoveLeastAvl(t.left);
      ClimbParent(t, false, DropLeast(t.left), LeftSpine(t.left), RemoveLeast(t.left));
    }
  }

  /** Unlinking and then climbing is textbook deletion. */
  lemma {:induction false} ClimbDelete<N>(cmp: Comparison, t: Tree<N>, x: Item)
    requires Avl(t) && Lookup(cmp, t, x).Branch?
    ensures var u, p := Unlink(cmp, t, x), ShortPath(cmp, t, x);
            && Climb(u, p) == (Delete(cmp, t, x), Height(Delete(cmp, t, x)) < Height(t))
            && On(u, p) && Short(u, p) && ImpliedHeight(u, p) == Height(t)
  {
    var c := cmp(x, t.item);
    if c != 0 {
      var d := c > 0;
      ClimbDelete(cmp, Child(t, d), x);
      DeleteAvl(cmp, Child(t, d), x);
      ClimbParent(t, d, Unlink(cmp, Child(t, d), x), ShortPath(cmp, Child(t, d), x), Delete(cmp, Child(t, d), x));
    } else if t.right.Branch? {
      DropLeastClimb(t.right);
      RemoveLeastAvl(t.right);
      var s := t.(node := Least(t.right).0, item := Least(t.right).1);
      ClimbParent(s, true, DropLeast(t.right), LeftSpine(t.right), RemoveLeast(t.right));
    }
  }

  // ---- the descents ----

  /** `pos` is a stretch of the search for `x`, and `k` is the depth of the last node passed
      that stores a nonzero factor (0 when there is none). */
  ghost predicate Descending<N>(cmp: Comparison, t: Tree<N>, x: Item, pos: Path, k: nat) {
    && On(t, pos)
    && SearchPath(cmp, t, x) == pos + SearchPath(cmp, Sub(t, pos), x)
    && Lookup(cmp, t, x) == Lookup(cmp, Sub(t, pos), x)
    && |pos| + Height(Sub(t, pos)) <= Height(t)
    && LastSteep(t, pos, k)
  }

  lemma {:induction false} CalmExtend<N>(t: Tree<N>, p: Path, d: bool)
    requires Calm(t, p) && On(t, p) && Sub(t, p).Branch? && Sub(t, p).balance == 0
    ensures Calm(t, p + [d])
  {
    if p == [] {
      assert p + [d] == [d];
    } else {
      assert (p + [d])[1..] == p[1..] + [d];
      CalmExtend(Child(t, p[0]), p[1..], d);
    }
  }

  lemma {:induction false} LastSteepExtend<N>(t: Tree<N>, pos: Path, k: nat, d: bool)
    requires On(t, pos) && LastSteep(t, pos, k) && Sub(t, pos).Branch? && On(t, pos + [d])
    ensures LastSteep(t, pos + [d], if Sub(t, pos).balance != 0 then |pos| else k)
  {
    Longer(pos, |pos|, d);
    Longer(pos, k, d);
    if Sub(t, pos).balance == 0 && k < |pos| {
      SteepCalm(t, pos, k, d);
    } else {
      assert pos[..|pos|] == pos;
    }
  }

  lemma {:induction false} Longer(pos: Path, k: nat, d: bool)
    requires k <= |pos|
    ensures (pos + [d])[..k] == pos[..k]
    ensures if k < |pos| then (pos + [d])[k] == pos[k] && (pos + [d])[k + 1..] == pos[k + 1..] + [d]
            else (pos + [d])[k] == d && (pos + [d])[k + 1..] == []
  {
  }

  lemma {:induction false} SteepCalm<N>(t: Tree<N>, pos: Path, k: nat, d: bool)
    requires On(t, pos) && LastSteep(t, pos, k) && k < |pos| && Sub(t, pos).Branch? && Sub(t, pos).balance == 0
    ensures Calm(Child(Sub(t, pos[..k]), pos[k]), pos[k + 1..] + [d])
  {
    var c, q := Child(Sub(t, pos[..k]), pos[k]), pos[k + 1..];
    assert On(c, q) && Sub(c, q) == Sub(t, pos) by {
      StepDown(t, pos[..k], pos[k]);
      assert pos[..k] + [pos[k]] == pos[..k + 1];
      assert pos[..k + 1] + q == pos;
      OnSplit(t, pos[..k + 1], q);
    }
    CalmExtend(c, q, d);
  }

  lemma {:induction false} DescendStep<N>(cmp: Comparison, t: Tree<N>, x: Item, pos: Path, k: nat)
    requires Descending(cmp, t, x, pos, k) && Sub(t, pos).Branch? && cmp(x, Sub(t, pos).item) != 0
    ensures var s := Sub(t, pos);
            var d := cmp(x, s.item) > 0;
            && Descending(cmp, t, x, pos + [d], if s.balance != 0 then |pos| else k)
            && Sub(t, pos + [d]) == Child(s, d)
  {
    var s := Sub(t, pos);
    var d := cmp(x, s.item) > 0;
    StepDown(t, pos, d);
    LastSteepExtend(t, pos, k, d);
    assert pos + ([d] + SearchPath(cmp, Child(s, d), x)) == (pos + [d]) + SearchPath(cmp, Child(s, d), x);
  }

  // ---- stepping the factors one node at a time ----

  /** The first `j` nodes on `p` have their factor stepped. */
  ghost function BumpFirst<N>(t: Tree<N>, p: Path, j: nat): Tree<N>
    requires On(t, p) && j <= |p|
  {
    if j == 0 then t
    else Join(p[0], BumpFirst(Child(t, p[0]), p[1..], j - 1), t.node, t.item, t.balance + Sgn(p[0]), Child(t, !p[0]))
  }

  lemma {:induction false} BumpAll<N>(t: Tree<N>, p: Path, new': Tree<N>)
    requires On(t, p)
    ensures On(Replace(t, p, new'), p) && BumpFirst(Replace(t, p, new'), p, |p|) == Bump(t, p, new')
  {
    SubReplace(t, p, new');
    if p != [] { BumpAll(Child(t, p[0]), p[1..], new'); }
  }

  lemma {:induction false} OnPrefix<N>(t: Tree<N>, p: Path, j: nat)
    requires On(t, p) && j <= |p|
    ensures On(t, p[..j]) && (j < |p| ==> Sub(t, p[..j]).Branch?)
  {
    if j > 0 {
      assert p[..j][1..] == p[1..][..j - 1];
      OnPrefix(Child(t, p[0]), p[1..], j - 1);
    }
  }

  lemma {:induction false} BumpNext<N>(t: Tree<N>, p: Path, j: nat)
    requires On(t, p) && j < |p|
    ensures On(t, p[..j]) && Sub(t, p[..j]).Branch?
    ensures var u := BumpFirst(t, p, j);
            && On(u, p[..j]) && Sub(u, p[..j]) == Sub(t, p[..j])
            && BumpFirst(t, p, j + 1) ==
                 Replace(u, p[..j], Sub(u, p[..j]).(balance := Sub(u, p[..j]).balance + Sgn(p[j])))
  {
    OnPrefix(t, p, j);
    if j > 0 {
      assert p[..j][1..] == p[1..][..j - 1];
      BumpNext(Child(t, p[0]), p[1..], j - 1);
    }
  }

  // ---- the positions a deletion uses ----

  /** The links from a deleted root down to where the tree got shorter. */
  ghost function RootShortPath<N>(t: Tree<N>): Path
    requires t.Branch?
  {
    if t.right.Leaf? then [] else [true] + LeftSpine(t.right)
  }

  lemma {:induction false} UnlinkAt<N>(cmp: Comparison, t: Tree<N>, x: Item)
    requires Lookup(cmp, t, x).Branch?
    ensures On(t, SearchPath(cmp, t, x)) && Sub(t, SearchPath(cmp, t, x)) == Lookup(cmp, t, x)
    ensures Unlink(cmp, t, x) == Replace(t, SearchPath(cmp, t, x), UnlinkRoot(Lookup(cmp, t, x)))
    ensures ShortPath(cmp, t, x) == SearchPath(cmp, t, x) + RootShortPath(Lookup(cmp, t, x))
  {
    SearchPathOn(cmp, t, x);
    if cmp(x, t.item) != 0 {
      var d := cmp(x, t.item) > 0;
      var c := Child(t, d);
      UnlinkAt(cmp, c, x);
      assert [d] + (SearchPath(cmp, c, x) + RootShortPath(Lookup(cmp, c, x)))
          == ([d] + SearchPath(cmp, c, x)) + RootShortPath(Lookup(cmp, c, x));
    } else {
      assert [] + RootShortPath(t) == RootShortPath(t);
    }
  }

  lemma {:induction false} SearchPathBound<N>(cmp: Comparison, t: Tree<N>, x: Item)
    ensures |SearchPath(cmp, t, x)| + Height(Lookup(cmp, t, x)) <= Height(t)
  {
    if t.Branch? && cmp(x, t.item) != 0 { SearchPathBound(cmp, Child(t, cmp(x, t.item) > 0), x); }
  }

  /** How many entries `avl_probe` caches at most, `k` being cached on arrival: a nonzero factor starts
      over. */
  ghost function Cached<N>(cmp: Comparison, t: Tree<N>, x: Item, k: nat): nat {
    if t.Leaf? || cmp(x, t.item) == 0 then 0
    else
      var n := if t.balance != 0 then 1 else k + 1;
      Max(n, Cached(cmp, Child(t, cmp(x, t.item) > 0), x, n))
  }

  lemma {:induction false} CachedBound<N>(cmp: Comparison, t: Tree<N>, x: Item, k: nat)
    ensures Cached(cmp, t, x, k) <= k + |SearchPath(cmp, t, x)| <= k + Height(t)
  {
    SearchPathBound(cmp, t, x);
    if t.Branch? && cmp(x, t.item) != 0 {
      CachedBound(cmp, Child(t, cmp(x, t.item) > 0), x, if t.balance != 0 then 1 else k + 1);
    }
  }

  /** Along zero factors the cache grows by one entry a node, and a nonzero factor forgets what came
      before it. */
  lemma {:induction false} CachedRuns<N>(cmp: Comparison, t: Tree<N>, x: Item, k: nat)
    ensures Calm(t, SearchPath(cmp, t, x)) && SearchPath(cmp, t, x) != [] ==>
              Cached(cmp, t, x, k) == k + |SearchPath(cmp, t, x)|
    ensures t.Branch? && t.balance != 0 ==> Cached(cmp, t, x, k) == Cached(cmp, t, x, 0)
  {
    if t.Branch? && cmp(x, t.item) != 0 && t.balance == 0 {
      CachedRuns(cmp, Child(t, cmp(x, t.item) > 0), x, k + 1);
    }
  }

  lemma {:induction false} LeftSpineBound<N>(t: Tree<N>)
    requires t.Branch?
    ensures |LeftSpine(t)| < Height(t)
  {
    if t.left.Branch? { LeftSpineBound(t.left); }
  }

  /** How many stack entries `avl_delete` writes: one for the header and one for every node
      it passes, including the nodes down to the successor of a node it finds. */
  ghost function StackUse<N>(cmp: Comparison, t: Tree<N>, x: Item): nat {
    1 + |SearchPath(cmp, t, x)|
    + (if Lookup(cmp, t, x).Branch? then |RootShortPath(Lookup(cmp, t, x))| else 0)
  }

  /** Finding the item uses no more entries than the height; missing it can use one more,
      and does exactly when the search runs down a longest path. */
  lemma {:induction false} StackUseBound<N>(cmp: Comparison, t: Tree<N>, x: Item)
    ensures Lookup(cmp, t, x).Branch? ==> StackUse(cmp, t, x) <= Height(t)
    ensures Lookup(cmp, t, x).Leaf? ==> StackUse(cmp, t, x) <= Height(t) + 1
    ensures StackUse(cmp, t, x) == Height(t) + 1 <==> |SearchPath(cmp, t, x)| == Height(t)
  {
    SearchPathBound(cmp, t, x);
    var f := Lookup(cmp, t, x);
    if f.Branch? && f.right.Branch? { LeftSpineBound(f.right); }
  }
}
