/** The steps of `avl_probe`. */
module AvlProbe {
  import opened AvlTree
  import opened AvlSteps
  import opened AvlNodes

  /** The node whose link the position `pos` of `t` hangs on. */
  ghost function Holder(header: Node, t: Tree<Node>, pos: Path): Node
    requires On(t, pos)
  {
    if pos == [] then header
    else
      OnPrefix(t, pos, |pos| - 1);
      Sub(t, pos[..|pos| - 1]).node
  }

  /** A state of `avl_probe`'s descent for `x`: `q` holds the link `dir` that `p` hangs on,
      `y` is the last node passed with a nonzero factor (or the root), at depth `top`, and
      `z` is its holder. */
  datatype Descent = Descent(p: Node?, q: Node, dir: bool, y: Node?, z: Node)

  ghost predicate At(cmp: Comparison, header: Node, t: Tree<Node>, x: Item, pos: Path, top: nat, s: Descent) {
    && Descending(cmp, t, x, pos, top)
    && s.p == Root(Sub(t, pos)) && s.q == Holder(header, t, pos)
    && s.dir == (if pos == [] then false else pos[|pos| - 1])
    && s.y == Root(Sub(t, pos[..top])) && s.z == Holder(header, t, pos[..top])
  }

  lemma {:induction false} AtStart(cmp: Comparison, header: Node, t: Tree<Node>, x: Item)
    ensures At(cmp, header, t, x, [], 0, Descent(Root(t), header, false, Root(t), header))
  {
    assert [] + SearchPath(cmp, t, x) == SearchPath(cmp, t, x);
  }

  lemma {:induction false} AtNext(cmp: Comparison, header: Node, t: Tree<Node>, x: Item, pos: Path, top: nat,
                                  s: Descent)
    requires At(cmp, header, t, x, pos, top, s) && s.p != null && cmp(x, Sub(t, pos).item) != 0
    ensures var u := Sub(t, pos);
            var d := cmp(x, u.item) > 0;
            && On(t, pos + [d]) && Sub(t, pos + [d]) == Child(u, d)
            && if u.balance != 0
               then At(cmp, header, t, x, pos + [d], |pos|, Descent(Root(Child(u, d)), s.p, d, s.p, s.q))
            else At(cmp, header, t, x, pos + [d], top, Descent(Root(Child(u, d)), s.p, d, s.y, s.z))
  {
    var d := cmp(x, Sub(t, pos).item) > 0;
    DescendStep(cmp, t, x, pos, top);
    assert (pos + [d])[..|pos|] == pos;
    assert (pos + [d])[..top] == pos[..top];
  }

  /** What the descent reads at its current node. */
  lemma {:induction false} AtNode(m: Store, cmp: Comparison, header: Node, t: Tree<Node>, x: Item, pos: Path,
                                  top: nat, s: Descent)
    requires Linked(m, t) && At(cmp, header, t, x, pos, top, s)
    ensures |pos| <= Height(t) && top <= |pos|
    ensures s.p == null ==> Lookup(cmp, t, x).Leaf?
    ensures s.p != null ==>
              var u := Sub(t, pos);
              && |pos| < Height(t) && s.p == u.node && s.p in Nodes(t) && s.p in m
              && m[s.p] == Cell(Root(u.left), Root(u.right), u.item, u.balance)
              && (cmp(x, u.item) == 0 ==> Lookup(cmp, t, x) == u)
  {
    if s.p != null { NodeAt(m, t, pos); }
  }

  /** What the descent keeps about the cache: `da[..k]` are the links followed from `y` down, and
      there is room for those still to come. */
  ghost predicate Caching(cmp: Comparison, t: Tree<Node>, x: Item, pos: Path, top: nat, da: seq<bool>, k: nat)
    requires On(t, pos)
  {
    k + top == |pos| && k <= |da| && da[..k] == pos[top..] && Cached(cmp, Sub(t, pos), x, k) <= |da|
  }

  lemma {:induction false} CachingNext(cmp: Comparison, t: Tree<Node>, x: Item, pos: Path, top: nat, da: seq<bool>,
                                       k: nat)
    requires On(t, pos) && Caching(cmp, t, x, pos, top, da, k)
    requires Sub(t, pos).Branch? && cmp(x, Sub(t, pos).item) != 0
    requires On(t, pos + [cmp(x, Sub(t, pos).item) > 0])
    requires Sub(t, pos + [cmp(x, Sub(t, pos).item) > 0]) == Child(Sub(t, pos), cmp(x, Sub(t, pos).item) > 0)
    ensures var u := Sub(t, pos);
            var d := cmp(x, u.item) > 0;
            var n := if u.balance != 0 then 0 else k;
            && n < |da|
            && Caching(cmp, t, x, pos + [d], if u.balance != 0 then |pos| else top, da[n := d], n + 1)
  {
    var u := Sub(t, pos);
    var d := cmp(x, u.item) > 0;
    var n := if u.balance != 0 then 0 else k;
    assert n < |da|;
    assert da[n := d][..n + 1] == da[..n] + [d];
    if u.balance != 0 {
      assert (pos + [d])[|pos|..] == [d];
    } else {
      assert (pos + [d])[top..] == pos[top..] + [d];
    }
  }

  /** Where one step of the descent leads. */
  lemma {:induction false} Followed(m: Store, cmp: Comparison, header: Node, t: Tree<Node>, x: Item, pos: Path,
                                    top: nat,
                                    s: Descent, da: seq<bool>, k: nat)
    requires At(cmp, header, t, x, pos, top, s) && Linked(m, t) && Caching(cmp, t, x, pos, top, da, k)
    requires s.p != null && s.p in m && cmp(x, m[s.p].data) != 0
    ensures var c := m[s.p];
            var d, steep := cmp(x, c.data) > 0, c.balance != 0;
            var n, top' := if steep then 0 else k, if steep then |pos| else top;
            var s' := Descent(if d then c.link1 else c.link0, s.p, d,
                              if steep then s.p else s.y, if steep then s.q else s.z);
            && n < |da| && At(cmp, header, t, x, pos + [d], top', s')
            && Caching(cmp, t, x, pos + [d], top', da[n := d], n + 1)
  {
    var u := Sub(t, pos);
    assert u.Branch? && m[s.p] == Cell(Root(u.left), Root(u.right), u.item, u.balance) by {
      AtNode(m, cmp, header, t, x, pos, top, s);
    }
    AtNext(cmp, header, t, x, pos, top, s);
    CachingNext(cmp, t, x, pos, top, da, k);
  }

  /** One turn of the descent: from `p` down the link that the comparison `cmp` says. */
  method Follow(compare: Comparison, header: Node, x: Item, s: Descent, cmp: int, da: array<bool>, k: nat,
                ghost m: Store, ghost t: Tree<Node>, ghost pos: Path, ghost top: nat)
    returns (s': Descent, k': nat, ghost pos': Path, ghost top': nat)
    requires At(compare, header, t, x, pos, top, s) && Linked(m, t)
    requires s.p != null && s.p in m && m[s.p] == s.p.Contents() && cmp == compare(x, s.p.data) != 0
    requires Caching(compare, t, x, pos, top, da[..], k)
    modifies da
    ensures At(compare, header, t, x, pos', top', s') && |pos'| == |pos| + 1
    ensures Caching(compare, t, x, pos', top', da[..], k')
  {
    Followed(m, compare, header, t, x, pos, top, s, da[..], k);
    var dir := cmp > 0;
    var y, z, n := s.y, s.z, k;
    top' := top;
    if s.p.balance != 0 {
      z, y, n := s.q, s.p, 0;
      top' := |pos|;
    }
    ghost var was := da[..];
    da[n] := dir;
    assert da[..] == was[n := dir];
    k' := n + 1;
    s' := Descent(s.p.Link(dir), s.p, dir, y, z);
    pos' := pos + [dir];
  }

  /** The descent of `avl_probe`. */
  method Descend(compare: Comparison, header: Node, x: Item, da: array<bool>, ghost ns: set<Node>, ghost t: Tree<Node>)
    returns (s: Descent, k: nat, ghost pos: Path, ghost top: nat)
    requires Nodes(t) <= ns && Linked(Snap(ns), t) && header.link0 == Root(t)
    requires Cached(compare, t, x, 0) <= da.Length
    modifies da
    ensures At(compare, header, t, x, pos, top, s)
    ensures s.p == Root(Lookup(compare, t, x)) && Snap(ns) == old(Snap(ns))
    ensures k + top == |pos| && k <= da.Length && da[..k] == pos[top..]
  {
    ghost var m := Snap(ns);
    pos, top, k := [], 0, 0;
    s := Descent(header.link0, header, false, header.link0, header);
    AtStart(compare, header, t, x);
    while s.p != null
      invariant At(compare, header, t, x, pos, top, s) && Snap(ns) == m
      invariant Caching(compare, t, x, pos, top, da[..], k)
      decreases Height(t) - |pos|
    {
      AtNode(m, compare, header, t, x, pos, top, s);
      assert m[s.p] == s.p.Contents();
      var cmp := compare(x, s.p.data);
      if cmp == 0 {
        return;
      }
      s, k, pos, top := Follow(compare, header, x, s, cmp, da, k, m, t, pos, top);
    }
    AtNode(m, compare, header, t, x, pos, top, s);
  }

  // ---- hanging and re-hanging links ----

  /** Giving the node at `p` a new subtree on link `d` rewrites the recorded tree at `p + [d]`. */
  lemma {:induction false} RehangLinked(m: Store, m': Store, t: Tree<Node>, p: Path, d: bool, s: Tree<Node>)
    requires On(t, p + [d]) && On(t, p) && Sub(t, p).Branch? && Distinct(t) && Linked(m, t)
    requires Linked(m', s) && Sub(t, p).node in m && Sub(t, p).node in m'
    requires m'[Sub(t, p).node] == Put(m[Sub(t, p).node], d, Root(s))
    requires Agree(m, m', Nodes(t) - Nodes(Sub(t, p + [d])) - {Sub(t, p).node})
    ensures Linked(m', Replace(t, p + [d], s))
  {
    var h := Sub(t, p);
    StepDown(t, p, d);
    SubNodes(t, p);
    LinkedSub(m, t, p);
    DistinctChild(h, d);
    LinkedChild(m, h, d);
    LinkedAgree(m, m', Child(h, !d));
    LinkedJoin(m', d, s, h.node, h.item, h.balance, Child(h, !d));
    LinkedReplace(m, m', t, p, WithChild(h, d, s));
  }

  /** `q->avl_link[dir] = item`, then clears the new node. */
  method HangLeaf(q: Node, d: bool, n: Node, ghost ns: set<Node>, ghost t: Tree<Node>, ghost p: Path)
    requires Nodes(t) <= ns && n in ns && n !in Nodes(t) && Distinct(t) && Linked(Snap(ns), t)
    requires On(t, p) && Sub(t, p).Branch? && Sub(t, p).node == q && On(t, p + [d]) && Sub(t, p + [d]).Leaf?
    modifies q, n
    ensures Linked(Snap(ns), Replace(t, p + [d], Branch(Leaf, n, n.data, 0, Leaf)))
  {
    ghost var m := Snap(ns);
    assert q in Nodes(t) && q in ns by { NodeAt(m, t, p); }
    q.SetLink(d, n);
    n.link0, n.link1 := null, null;
    n.balance := 0;
    assert Agree(m, Snap(ns), ns - {q, n});
    RehangLinked(m, Snap(ns), t, p, d, Branch(Leaf, n, n.data, 0, Leaf));
  }

  // ---- stepping factors ----

  lemma {:induction false} BumpFirstNodes(t: Tree<Node>, p: Path, j: nat)
    requires On(t, p) && j <= |p| && Distinct(t)
    ensures Nodes(BumpFirst(t, p, j)) == Nodes(t) && Distinct(BumpFirst(t, p, j))
  {
    if j > 0 { BumpFirstNodes(Child(t, p[0]), p[1..], j - 1); }
  }

  /** In a tree without repeated nodes, no ancestor is the node itself. */
  lemma {:induction false} AncestorDiffers(t: Tree<Node>, p: Path, j: nat)
    requires On(t, p) && Distinct(t) && Sub(t, p).Branch? && j < |p|
    ensures On(t, p[..j]) && Sub(t, p[..j]).Branch? && Sub(t, p[..j]).node != Sub(t, p).node
  {
    OnPrefix(t, p, j);
    if j == 0 {
      SubNodes(Child(t, p[0]), p[1..]);
    } else {
      assert p[..j][1..] == p[1..][..j - 1];
      AncestorDiffers(Child(t, p[0]), p[1..], j - 1);
    }
  }

  lemma {:induction false} BumpLinked(m: Store, m': Store, t: Tree<Node>, p: Path, j: nat)
    requires On(t, p) && j < |p| && Distinct(t) && Linked(m, BumpFirst(t, p, j))
    requires On(t, p[..j]) && Sub(t, p[..j]).Branch?
    requires var n := Sub(t, p[..j]).node;
             && n in m && n in m' && Agree(m, m', Nodes(t) - {n})
             && m'[n] == m[n].(balance := m[n].balance + Sgn(p[j]))
    ensures Linked(m', BumpFirst(t, p, j + 1))
  {
    var u := BumpFirst(t, p, j);
    BumpFirstNodes(t, p, j);
    BumpNext(t, p, j);
    var s := Sub(u, p[..j]);
    SubNodes(u, p[..j]);
    LinkedSub(m, u, p[..j]);
    LinkedAgree(m, m', s.left);
    LinkedAgree(m, m', s.right);
    LinkedReplace(m, m', u, p[..j], s.(balance := s.balance + Sgn(p[j])));
  }

  /** The node reached after `j` steps down `p`, and the one after. */
  lemma {:induction false} BumpRead(m: Store, t: Tree<Node>, p: Path, j: nat)
    requires On(t, p) && j < |p| && Distinct(t) && Linked(m, BumpFirst(t, p, j)) && Sub(t, p).Branch?
    ensures On(t, p[..j]) && Sub(t, p[..j]).Branch? && On(t, p[..j + 1])
    ensures var s := Sub(t, p[..j]);
            && s.node in Nodes(t) && s.node in m && s.node != Sub(t, p).node && Sub(t, p[..j + 1]).Branch?
            && (if p[j] then m[s.node].link1 else m[s.node].link0) == Root(Sub(t, p[..j + 1]))
  {
    BumpNext(t, p, j);
    BumpFirstNodes(t, p, j);
    NodeAt(m, BumpFirst(t, p, j), p[..j]);
    AncestorDiffers(t, p, j);
    StepDown(t, p[..j], p[j]);
    assert p[..j] + [p[j]] == p[..j + 1];
    if j + 1 < |p| { AncestorDiffers(t, p, j + 1); } else { assert p[..j + 1] == p; }
  }

  method StepFactor(p: Node, d: bool)
    modifies p
    ensures p.Contents() == old(p.Contents()).(balance := old(p.balance) + Sgn(d))
  {
    if d == false {
      p.balance := p.balance - 1;
    } else {
      p.balance := p.balance + 1;
    }
  }

  /** `for (p = y, k = 0; p != n; p = p->avl_link[da[k]], k++)` with the factor steps. */
  method StepFactors(y: Node, n: Node, da: array<bool>, ghost ns: set<Node>, ghost t: Tree<Node>, ghost r: Path)
    requires Nodes(t) <= ns && Distinct(t) && Linked(Snap(ns), t)
    requires t.Branch? && t.node == y && On(t, r) && Sub(t, r).Branch? && Sub(t, r).node == n
    requires |r| <= da.Length && da[..|r|] == r
    modifies Nodes(t)
    ensures Linked(Snap(ns), BumpFirst(t, r, |r|))
    ensures Agree(old(Snap(ns)), Snap(ns), ns - Nodes(t))
  {
    ghost var m0 := Snap(ns);
    var p, k := y, 0;
    assert r[..0] == [] && r[..|r|] == r;
    while p != n
      invariant k <= |r| && On(t, r[..k]) && p == Root(Sub(t, r[..k]))
      invariant Linked(Snap(ns), BumpFirst(t, r, k))
      invariant Agree(m0, Snap(ns), ns - Nodes(t))
      decreases |r| - k
    {
      BumpRead(Snap(ns), t, r, k);
      assert da[k] == r[k];
      p := StepOn(p, da[k], ns, t, r, k);
      k := k + 1;
    }
    if k < |r| { AncestorDiffers(t, r, k); }
  }

  /** Steps the factor of `p`, node `k` of the path, and moves down. */
  method StepOn(p: Node, d: bool, ghost ns: set<Node>, ghost t: Tree<Node>, ghost r: Path, ghost k: nat)
    returns (q: Node)
    requires Nodes(t) <= ns && Distinct(t) && On(t, r) && Sub(t, r).Branch? && k < |r| && d == r[k]
    requires On(t, r[..k]) && p == Root(Sub(t, r[..k])) && Linked(Snap(ns), BumpFirst(t, r, k))
    modifies Nodes(t)
    ensures On(t, r[..k + 1]) && q == Root(Sub(t, r[..k + 1])) && Linked(Snap(ns), BumpFirst(t, r, k + 1))
    ensures Agree(old(Snap(ns)), Snap(ns), ns - Nodes(t))
  {
    ghost var m := Snap(ns);
    BumpRead(m, t, r, k);
    StepFactor(p, d);
    assert Agree(m, Snap(ns), ns - {p});
    BumpLinked(m, Snap(ns), t, r, k);
    q := p.Link(d);
  }

  // ---- the repair at the top node ----

  /** The rotations of `avl_probe` at `y`; `rotated` is false on its early return. */
  method RepairTop(y: Node, ghost ns: set<Node>, ghost t: Tree<Node>) returns (w: Node, rotated: bool)
    requires t.Branch? && t.node == y && CanRepair(t)
    requires Nodes(t) <= ns && Distinct(t) && Linked(Snap(ns), t)
    modifies Nodes(t)
    ensures rotated <==> t.balance == -2 || t.balance == 2
    ensures w == Root(Repair(t)) && Linked(Snap(ns), Repair(t))
    ensures Agree(old(Snap(ns)), Snap(ns), ns - Nodes(t))
  {
    ghost var m := Snap(ns);
    assert m[y] == y.Contents();
    if y.balance == -2 {
      LinkedChild(m, t, false);
      LinkedChild(m, t.left, false);
      SingleApart(t, false);
      var x := y.link0;
      assert m[x] == x.Contents();
      if x.balance == -1 {
        w := RotateOnce(y, false, 0, 0, ns, t);
      } else {
        DoubleApart(t, false);
        w := RotateTwice(y, false, ns, t);
      }
      rotated := true;
    } else if y.balance == 2 {
      LinkedChild(m, t, true);
      LinkedChild(m, t.right, true);
      SingleApart(t, true);
      var x := y.link1;
      assert m[x] == x.Contents();
      if x.balance == 1 {
        w := RotateOnce(y, true, 0, 0, ns, t);
      } else {
        DoubleApart(t, true);
        w := RotateTwice(y, true, ns, t);
      }
      rotated := true;
    } else {
      w, rotated := y, false;
    }
  }

  lemma {:induction false} SingleNodes(d: bool, t: Tree<Node>, ub: int, vb: int)
    requires t.Branch? && Child(t, d).Branch?
    ensures Nodes(SingleAt(d, t, ub, vb)) == Nodes(t)
  {
    var x := Child(t, d);
    JoinNodes(d, x, t.node, t.item, t.balance, Child(t, !d));
    JoinNodes(d, Child(x, d), x.node, x.item, x.balance, Child(x, !d));
    JoinNodes(d, Child(x, !d), t.node, t.item, vb, Child(t, !d));
    JoinNodes(d, Child(x, d), x.node, x.item, ub, Join(d, Child(x, !d), t.node, t.item, vb, Child(t, !d)));
  }

  lemma {:induction false} JoinNodes(d: bool, near: Tree<Node>, n: Node, x: Item, b: int, far: Tree<Node>)
    ensures Nodes(Join(d, near, n, x, b, far)) == Nodes(near) + {n} + Nodes(far)
  {
  }

  lemma {:induction false} DoubleNodes(d: bool, t: Tree<Node>)
    requires t.Branch? && Child(t, d).Branch? && Child(Child(t, d), !d).Branch?
    ensures Nodes(DoubleAt(d, t)) == Nodes(t)
  {
    var x := Child(t, d);
    var w := Child(x, !d);
    var a, b := Child(DoubleAt(d, t), d), Child(DoubleAt(d, t), !d);
    JoinNodes(d, x, t.node, t.item, t.balance, Child(t, !d));
    JoinNodes(d, Child(x, d), x.node, x.item, x.balance, w);
    JoinNodes(d, Child(w, d), w.node, w.item, w.balance, Child(w, !d));
    JoinNodes(d, Child(x, d), x.node, x.item, a.balance, Child(w, d));
    JoinNodes(d, Child(w, !d), t.node, t.item, b.balance, Child(t, !d));
    JoinNodes(d, a, w.node, w.item, 0, b);
  }

  lemma {:induction false} RepairNodes(t: Tree<Node>)
    requires CanRepair(t)
    ensures Nodes(Repair(t)) == Nodes(t)
  {
    if t.Branch? && (t.balance == 2 || t.balance == -2) {
      var d := t.balance == 2;
      if Child(t, d).balance == Sgn(d) { SingleNodes(d, t, 0, 0); } else { DoubleNodes(d, t); }
    }
  }

  lemma {:induction false} EntriesLinked(m: Store, t: Tree<Node>)
    requires Linked(m, t)
    ensures forall i :: 0 <= i < |Flat(t)| ==> Flat(t)[i].node in m && m[Flat(t)[i].node].data == Flat(t)[i].item
  {
    if t.Branch? { EntriesLinked(m, t.left); EntriesLinked(m, t.right); }
  }

  /** A node of the table holds an item that the table finds, so a new item's node is new. */
  lemma {:induction false} AbsentIsNew(cmp: Comparison, m: Store, t: Tree<Node>, n: Node)
    requires TotalOrder(cmp) && WellFormed(cmp, t) && Linked(m, t) && n in m && Lookup(cmp, t, m[n].data).Leaf?
    ensures n !in Nodes(t)
  {
    FlatNodes(t);
    EntriesLinked(m, t);
    LookupComplete(cmp, t, m[n].data);
    OrderFacts(cmp, m[n].data, m[n].data, m[n].data);
  }

  /** Positions of a tree seen from its header. */
  lemma {:induction false} UnderHeader(t: Tree<Node>, p: Path)
    requires t.Branch? && On(t.left, p)
    ensures On(t, [false] + p) && Sub(t, [false] + p) == Sub(t.left, p)
    ensures forall s :: Replace(t, [false] + p, s) == t.(left := Replace(t.left, p, s))
  {
    assert ([false] + p)[1..] == p;
  }

  /** The holder of a subtree is outside it, and its link 0 tells which side the subtree is on. */
  lemma {:induction false} HolderSide(m: Store, t: Tree<Node>, zp: Path, d: bool)
    requires On(t, zp) && Sub(t, zp).Branch? && On(t, zp + [d]) && Sub(t, zp + [d]).Branch?
    requires Distinct(t) && Linked(m, t)
    ensures var z, y := Sub(t, zp).node, Sub(t, zp + [d]).node;
            && z in Nodes(t) && z in m && z !in Nodes(Sub(t, zp + [d])) && Nodes(Sub(t, zp + [d])) <= Nodes(t)
            && (d <==> y != m[z].link0)
            && Distinct(Sub(t, zp + [d])) && Linked(m, Sub(t, zp + [d]))
  {
    StepDown(t, zp, d);
    NodeAt(m, t, zp);
    SubNodes(t, zp);
    SubNodes(t, zp + [d]);
    LinkedSub(m, t, zp + [d]);
    DistinctChild(Sub(t, zp), d);
  }

  /** Re-hanging a rebuilt subtree `s` on the holder of the one it replaces. */
  lemma {:induction false} RehungLinked(m: Store, m': Store, t: Tree<Node>, zp: Path, d: bool, s: Tree<Node>)
    requires On(t, zp) && Sub(t, zp).Branch? && On(t, zp + [d]) && Sub(t, zp + [d]).Branch?
    requires Distinct(t) && Linked(m, t) && Nodes(s) <= Nodes(Sub(t, zp + [d]))
    requires Linked(m', s) && Agree(m, m', Nodes(t) - Nodes(Sub(t, zp + [d])))
    ensures var z := Sub(t, zp).node;
            z in m' && Linked(m'[z := Put(m'[z], d, Root(s))], Replace(t, zp + [d], s))
  {
    var z := Sub(t, zp).node;
    HolderSide(m, t, zp, d);
    LinkedAgree(m', m'[z := Put(m'[z], d, Root(s))], s);
    RehangLinked(m, m'[z := Put(m'[z], d, Root(s))], t, zp, d, s);
  }

  /** Steps the factors from `y` down to the new node and repairs at `y`. */
  method StepAndRepair(y: Node, n: Node, da: array<bool>, ghost ns: set<Node>, ghost t: Tree<Node>, ghost r: Path)
    returns (w: Node, rotated: bool)
    requires Nodes(t) <= ns && Distinct(t) && Linked(Snap(ns), t)
    requires t.Branch? && t.node == y && On(t, r) && Sub(t, r).Branch? && Sub(t, r).node == n
    requires |r| <= da.Length && da[..|r|] == r && CanRepair(BumpFirst(t, r, |r|))
    modifies Nodes(t)
    ensures var s := BumpFirst(t, r, |r|);
            && s.Branch? && w == Root(Repair(s)) && Linked(Snap(ns), Repair(s))
            && (rotated <==> s.balance == 2 || s.balance == -2)
    ensures Agree(old(Snap(ns)), Snap(ns), ns - Nodes(t))
  {
    StepFactors(y, n, da, ns, t, r);
    BumpFirstNodes(t, r, |r|);
    w, rotated := RepairTop(y, ns, BumpFirst(t, r, |r|));
  }

  /** Everything `avl_probe` does once the new node hangs in place: steps the factors from
      `y` down, repairs at `y`, and re-hangs the repaired subtree `s` on `z`. */
  method Resettle(y: Node, z: Node, n: Node, da: array<bool>, ghost ns: set<Node>, ghost t: Tree<Node>,
                  ghost zp: Path, ghost d: bool, ghost u: Tree<Node>, ghost r: Path, ghost s: Tree<Node>)
    returns (rotated: bool)
    requires Nodes(t) <= ns && Distinct(t) && Linked(Snap(ns), t)
    requires On(t, zp) && Sub(t, zp).Branch? && Sub(t, zp).node == z
    requires On(t, zp + [d]) && Sub(t, zp + [d]) == u && u.Branch? && u.node == y
    requires On(u, r) && Sub(u, r).Branch? && Sub(u, r).node == n
    requires |r| <= da.Length && da[..|r|] == r && s == BumpFirst(u, r, |r|) && CanRepair(s)
    modifies Nodes(t)
    ensures Linked(Snap(ns), Replace(t, zp + [d], Repair(s)))
    ensures rotated <==> s.balance == 2 || s.balance == -2
  {
    ghost var m := Snap(ns);
    assert z in ns && z in Nodes(t) && z !in Nodes(u) && Nodes(u) <= Nodes(t) && Distinct(u) && Linked(m, u)
      && (d <==> y != z.link0) by { HolderSide(m, t, zp, d); }
    assert Nodes(s) == Nodes(u) by { BumpFirstNodes(u, r, |r|); }
    var w: Node;
    w, rotated := StepAndRepair(y, n, da, ns, u, r);
    ghost var m' := Snap(ns);
    if rotated {
      RepairNodes(s);
      Hang(z, y != z.link0, w, ns);
      RehungLinked(m, m', t, zp, d, Repair(s));
    } else {
      LinkedReplace(m, m', t, zp + [d], s);
    }
  }

  // ---- positions used by an insertion ----

  /** The position of the link that holds `pos`, counted from the header. */
  ghost function HolderPath(pos: Path): Path {
    ([false] + pos)[..|pos|]
  }

  ghost function HolderLink(pos: Path): bool {
    ([false] + pos)[|pos|]
  }

  lemma {:induction false} HolderPaths(t: Tree<Node>, pos: Path)
    requires t.Branch? && On(t.left, pos)
    ensures HolderPath(pos) + [HolderLink(pos)] == [false] + pos
    ensures On(t, [false] + pos) && Sub(t, [false] + pos) == Sub(t.left, pos)
    ensures On(t, HolderPath(pos)) && Sub(t, HolderPath(pos)).Branch?
    ensures Sub(t, HolderPath(pos)).node == Holder(t.node, t.left, pos)
  {
    UnderHeader(t, pos);
    if pos != [] {
      var p := pos[..|pos| - 1];
      OnPrefix(t.left, pos, |pos| - 1);
      assert HolderPath(pos) == [false] + p;
      UnderHeader(t, p);
    }
  }

  /** The tree with `leaf` hung at `pos`, seen from an ancestor position. */
  lemma {:induction false} HungBelow(t: Tree<Node>, pos: Path, top: nat, leaf: Tree<Node>)
    requires On(t, pos) && top <= |pos|
    ensures On(t, pos[..top]) && On(Sub(t, pos[..top]), pos[top..])
    ensures var u := Replace(Sub(t, pos[..top]), pos[top..], leaf);
            && Replace(t, pos, leaf) == Replace(t, pos[..top], u)
            && On(Replace(t, pos, leaf), pos[..top]) && Sub(Replace(t, pos, leaf), pos[..top]) == u
            && On(u, pos[top..]) && Sub(u, pos[top..]) == leaf
    ensures forall v :: Replace(Replace(t, pos, leaf), pos[..top], v) == Replace(t, pos[..top], v)
  {
    OnPrefix(t, pos, top);
    assert pos[..top] + pos[top..] == pos;
    OnSplit(t, pos[..top], pos[top..]);
    var u := Replace(Sub(t, pos[..top]), pos[top..], leaf);
    SubReplace(t, pos[..top], u);
    SubReplace(Sub(t, pos[..top]), pos[top..], leaf);
  }

  lemma {:induction false} HungHolder(t: Tree<Node>, header: Node, pos: Path, top: nat, leaf: Tree<Node>)
    requires On(t, pos) && top < |pos|
    ensures On(t, pos[..top]) && On(Replace(t, pos, leaf), pos[..top])
    ensures Holder(header, Replace(t, pos, leaf), pos[..top]) == Holder(header, t, pos[..top])
  {
    HungBelow(t, pos, top, leaf);
    if top > 0 {
      var p := pos[..top][..top - 1];
      assert p == pos[..top - 1];
      HungBelow(t, pos, top - 1, leaf);
      OnPrefix(t, pos, top - 1);
    }
  }

  lemma {:induction false} HungNodes(t: Tree<Node>, p: Path, n: Node, x: Item)
    requires On(t, p) && Sub(t, p).Leaf? && Distinct(t) && n !in Nodes(t)
    ensures Nodes(Replace(t, p, Branch(Leaf, n, x, 0, Leaf))) == Nodes(t) + {n}
    ensures Distinct(Replace(t, p, Branch(Leaf, n, x, 0, Leaf)))
  {
    ReplaceNodes(t, p, Branch(Leaf, n, x, 0, Leaf));
  }

  /** What `avl_probe` leaves: the stepped and repaired subtree in place of the old one at
      depth `top` of the search path. */
  ghost function Inserted(t: Tree<Node>, pos: Path, top: nat, n: Node, x: Item): Tree<Node>
    requires On(t, pos) && top <= |pos| && On(t, pos[..top]) && On(Sub(t, pos[..top]), pos[top..])
    requires CanRepair(InsertedAt(Sub(t, pos[..top]), pos[top..], n, x))
  {
    Replace(t, pos[..top], Repair(InsertedAt(Sub(t, pos[..top]), pos[top..], n, x)))
  }

  /** The part of `avl_probe` that starts at the repair's top node `y`, once the new node `n`
      hangs at the end of the search path. */
  method SettleNew(header: Node, y: Node, z: Node, n: Node, da: array<bool>,
                   ghost ns: set<Node>, ghost t: Tree<Node>, ghost pos: Path, ghost top: nat)
    returns (rotated: bool)
    requires t.Branch? && t.node == header && Distinct(t) && Nodes(t) <= ns
    requires On(t.left, pos) && Sub(t.left, pos).Leaf? && top < |pos| && n in ns && n !in Nodes(t)
    requires On(t.left, pos[..top]) && On(Sub(t.left, pos[..top]), pos[top..])
    requires CanRepair(InsertedAt(Sub(t.left, pos[..top]), pos[top..], n, n.data))
    requires Linked(Snap(ns), t.(left := Replace(t.left, pos, Branch(Leaf, n, n.data, 0, Leaf))))
    requires y == Root(Sub(t.left, pos[..top])) && z == Holder(header, t.left, pos[..top])
    requires |pos| - top <= da.Length && da[..|pos| - top] == pos[top..]
    modifies Nodes(t), n
    ensures Linked(Snap(ns), t.(left := Inserted(t.left, pos, top, n, n.data)))
    ensures rotated <==> var b := InsertedAt(Sub(t.left, pos[..top]), pos[top..], n, n.data).balance;
                         b == 2 || b == -2
  {
    ghost var leaf := Branch(Leaf, n, n.data, 0, Leaf);
    ghost var t1 := t.(left := Replace(t.left, pos, leaf));
    ghost var u := Replace(Sub(t.left, pos[..top]), pos[top..], leaf);
    ghost var s := InsertedAt(Sub(t.left, pos[..top]), pos[top..], n, n.data);
    HungNodes(t.left, pos, n, n.data);
    HungBelow(t.left, pos, top, leaf);
    HungHolder(t.left, header, pos, top, leaf);
    HolderPaths(t1, pos[..top]);
    UnderHeader(t1, pos[..top]);
    BumpAll(Sub(t.left, pos[..top]), pos[top..], leaf);
    rotated := Resettle(y, z, n, da, ns, t1, HolderPath(pos[..top]), HolderLink(pos[..top]), u, pos[top..], s);
  }

  /** Hangs the new node at the end of the search path and settles the factors above it. */
  method HangAndSettle(header: Node, n: Node, s: Descent, da: array<bool>, compare: Comparison,
                       ghost ns: set<Node>, ghost t: Tree<Node>, ghost pos: Path, ghost top: nat)
    returns (rotated: bool)
    requires t.Branch? && t.node == header && Distinct(t) && Nodes(t) <= ns && Linked(Snap(ns), t)
    requires n in ns && n !in Nodes(t)
    requires At(compare, header, t.left, n.data, pos, top, s) && s.p == null
    requires On(Sub(t.left, pos[..top]), pos[top..])
    requires CanRepair(InsertedAt(Sub(t.left, pos[..top]), pos[top..], n, n.data))
    requires |pos| - top <= da.Length && da[..|pos| - top] == pos[top..]
    modifies Nodes(t), n
    ensures Linked(Snap(ns), t.(left := Inserted(t.left, pos, top, n, n.data)))
    ensures rotated <==> var b := InsertedAt(Sub(t.left, pos[..top]), pos[top..], n, n.data).balance;
                         b == 2 || b == -2
  {
    HolderPaths(t, pos);
    UnderHeader(t, pos);
    SubNodes(t, HolderPath(pos));
    assert pos[..|pos|] == pos;
    HangLeaf(s.q, s.dir, n, ns, t, HolderPath(pos));
    if s.y == null {
      assert pos == [] && pos[..top] == [] && pos[top..] == [];
      return false;
    }
    assert top < |pos|;
    rotated := SettleNew(header, s.y, s.z, n, da, ns, t, pos, top);
  }

  /** A failed descent followed the whole search path, and the new item's node is new. */
  lemma {:induction false} ProbeFacts(cmp: Comparison, header: Node, m: Store, t: Tree<Node>, n: Node,
                                      pos: Path, top: nat, s: Descent)
    requires TotalOrder(cmp) && WellFormed(cmp, t) && Linked(m, t) && n in m
    requires At(cmp, header, t, m[n].data, pos, top, s) && s.p == null && Lookup(cmp, t, m[n].data).Leaf?
    ensures pos == SearchPath(cmp, t, m[n].data) && On(t, pos) && LastSteep(t, pos, top)
    ensures n !in Nodes(t)
  {
    AbsentIsNew(cmp, m, t, n);
  }

  /** `avl_probe` after a descent that ended at an empty link. */
  method InsertNew(header: Node, n: Node, s: Descent, da: array<bool>, compare: Comparison,
                   ghost ns: set<Node>, ghost t: Tree<Node>, ghost pos: Path, ghost top: nat)
    returns (rotated: bool)
    requires t.Branch? && t.node == header && header !in Nodes(t.left) && t.right.Leaf?
    requires Nodes(t) <= ns && Linked(Snap(ns), t) && n in ns && n != header
    requires TotalOrder(compare) && WellFormed(compare, t.left)
    requires At(compare, header, t.left, n.data, pos, top, s) && s.p == null && Lookup(compare, t.left, n.data).Leaf?
    requires |pos| - top <= da.Length && da[..|pos| - top] == pos[top..]
    modifies Nodes(t), n
    ensures n !in Nodes(t.left) && Nodes(Insert(compare, t.left, n, n.data)) == Nodes(t.left) + {n}
    ensures WellFormed(compare, Insert(compare, t.left, n, n.data))
    ensures Size(Insert(compare, t.left, n, n.data)) == Size(t.left) + 1
    ensures Linked(Snap(ns), t.(left := Insert(compare, t.left, n, n.data)))
    ensures rotated <==> Rotates(compare, t.left, n, n.data)
  {
    ProbeFacts(compare, header, Snap(ns), t.left, n, pos, top, s);
    OnePassInsert(compare, t.left, n, n.data, top);
    OnePassRotates(compare, t.left, n, n.data, top);
    InsertWellFormed(compare, t.left, n, n.data);
    rotated := HangAndSettle(header, n, s, da, compare, ns, t, pos, top);
  }
}
