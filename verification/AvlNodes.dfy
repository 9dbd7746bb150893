/** The pointer-based table of lib/avl.c. */
module AvlNodes {
  import opened AvlTree
  import opened AvlSteps

  const AVL_MAX_HEIGHT: nat := 32

  class Node {
    var link0: Node?
    var link1: Node?
    /** The table functions never change what a node points at. */
    const data: Item
    var balance: int

    /** `avl_link[d]` */
    function Link(d: bool): Node?
      reads this
    {
      if d then link1 else link0
    }

    ghost function Contents(): Cell
      reads this
    {
      Cell(link0, link1, data, balance)
    }

    method SetLink(d: bool, n: Node?)
      modifies this
      ensures Contents() == Put(old(Contents()), d, n)
    {
      if d { link1 := n; } else { link0 := n; }
    }

    constructor (x: Item)
      ensures data == x && link0 == null && link1 == null && balance == 0
    {
      data := x;
      link0, link1, balance := null, null, 0;
    }
  }

  ghost function Root(t: Tree<Node>): Node? {
    if t.Leaf? then null else t.node
  }

  /** The contents of one node. */
  datatype Cell = Cell(link0: Node?, link1: Node?, data: Item, balance: int)

  ghost function Put(c: Cell, d: bool, n: Node?): Cell {
    if d then c.(link1 := n) else c.(link0 := n)
  }

  type Store = map<Node, Cell>

  /** The current contents of the nodes in `ns`. */
  ghost function Snap(ns: set<Node>): Store
    reads ns
  {
    map n | n in ns :: n.Contents()
  }

  /** In `m`, the nodes of `t` hold exactly what `t` records. */
  ghost predicate Linked(m: Store, t: Tree<Node>) {
    t.Branch? ==>
      && t.node in m && m[t.node] == Cell(Root(t.left), Root(t.right), t.item, t.balance)
      && Linked(m, t.left) && Linked(m, t.right)
  }

  ghost predicate Agree(m: Store, m': Store, ns: set<Node>) {
    forall n :: n in ns && n in m ==> n in m' && m'[n] == m[n]
  }

  lemma {:induction false} LinkedAgree(m: Store, m': Store, t: Tree<Node>)
    requires Linked(m, t) && Agree(m, m', Nodes(t))
    ensures Linked(m', t)
  {
    if t.Branch? { LinkedAgree(m, m', t.left); LinkedAgree(m, m', t.right); }
  }

  lemma {:induction false} SubNodes(t: Tree<Node>, p: Path)
    requires On(t, p)
    ensures Nodes(Sub(t, p)) <= Nodes(t)
    ensures Distinct(t) ==> Distinct(Sub(t, p))
  {
    if p != [] { SubNodes(Child(t, p[0]), p[1..]); }
  }

  lemma {:induction false} LinkedSub(m: Store, t: Tree<Node>, p: Path)
    requires On(t, p) && Linked(m, t)
    ensures Linked(m, Sub(t, p))
  {
    if p != [] { LinkedSub(m, Child(t, p[0]), p[1..]); }
  }

  /** Rewriting only nodes of the subtree at `p`, with its root in place, rewrites the
      recorded tree at `p` and nowhere else. */
  lemma {:induction false} LinkedReplace(m: Store, m': Store, t: Tree<Node>, p: Path, s: Tree<Node>)
    requires On(t, p) && Distinct(t) && Linked(m, t)
    requires Linked(m', s) && Root(s) == Root(Sub(t, p))
    requires Agree(m, m', Nodes(t) - Nodes(Sub(t, p)))
    ensures Linked(m', Replace(t, p, s))
  {
    if p != [] {
      var c, o := Child(t, p[0]), Child(t, !p[0]);
      SubNodes(c, p[1..]);
      LinkedReplace(m, m', c, p[1..], s);
      LinkedAgree(m, m', o);
    }
  }

  lemma {:induction false} ReplaceNodes(t: Tree<Node>, p: Path, s: Tree<Node>)
    requires On(t, p) && Distinct(t) && Distinct(s)
    requires Nodes(s) !! (Nodes(t) - Nodes(Sub(t, p)))
    ensures Distinct(Replace(t, p, s))
    ensures Nodes(Replace(t, p, s)) == (Nodes(t) - Nodes(Sub(t, p))) + Nodes(s)
  {
    if p != [] {
      SubNodes(Child(t, p[0]), p[1..]);
      ReplaceNodes(Child(t, p[0]), p[1..], s);
    }
  }

  // ---- rotations ----

  lemma {:induction false} DistinctChild(t: Tree<Node>, d: bool)
    requires t.Branch? && Distinct(t)
    ensures Nodes(t) == Nodes(Child(t, d)) + {t.node} + Nodes(Child(t, !d))
    ensures Nodes(Child(t, d)) !! Nodes(Child(t, !d))
    ensures t.node !in Nodes(Child(t, d)) && t.node !in Nodes(Child(t, !d))
    ensures Distinct(Child(t, d)) && Distinct(Child(t, !d))
  {
  }

  lemma {:induction false} LinkedChild(m: Store, t: Tree<Node>, d: bool)
    requires t.Branch? && Linked(m, t)
    ensures t.node in m && m[t.node].data == t.item && m[t.node].balance == t.balance
    ensures m[t.node] == Put(Put(m[t.node], d, Root(Child(t, d))), !d, Root(Child(t, !d)))
    ensures Linked(m, Child(t, d)) && Linked(m, Child(t, !d))
  {
  }

  /** A branch is linked when its node holds the two roots and both sides are linked. */
  lemma {:induction false} LinkedJoin(m: Store, d: bool, near: Tree<Node>, n: Node, x: Item, b: int, far: Tree<Node>)
    requires Linked(m, near) && Linked(m, far)
    requires n in m && m[n] == Put(Put(Cell(null, null, x, b), d, Root(near)), !d, Root(far))
    ensures Linked(m, Join(d, near, n, x, b, far))
  {
  }

  lemma {:induction false} SingleApart(t: Tree<Node>, d: bool)
    requires t.Branch? && Child(t, d).Branch? && Distinct(t)
    ensures var y, x := t.node, Child(t, d).node;
            && x != y && {x, y} <= Nodes(t)
            && Nodes(Child(Child(t, d), d)) <= Nodes(t) - {x, y}
            && Nodes(Child(Child(t, d), !d)) <= Nodes(t) - {x, y}
            && Nodes(Child(t, !d)) <= Nodes(t) - {x, y}
  {
    DistinctChild(t, d);
    DistinctChild(Child(t, d), d);
  }

  lemma {:induction false} SingleLinked(m: Store, m': Store, d: bool, t: Tree<Node>, ub: int, vb: int)
    requires t.Branch? && Child(t, d).Branch? && Distinct(t) && Linked(m, t)
    requires var y, x := t.node, Child(t, d).node;
             && x in m && y in m && x in m' && y in m'
             && Agree(m, m', Nodes(t) - {x, y})
             && m'[y] == Put(m[y], d, Root(Child(Child(t, d), !d))).(balance := vb)
             && m'[x] == Put(m[x], !d, y).(balance := ub)
    ensures Linked(m', SingleAt(d, t, ub, vb))
  {
    var x := Child(t, d);
    SingleApart(t, d);
    LinkedChild(m, t, d);
    LinkedChild(m, x, d);
    LinkedAgree(m, m', Child(x, d));
    LinkedAgree(m, m', Child(x, !d));
    LinkedAgree(m, m', Child(t, !d));
    LinkedJoin(m', d, Child(x, !d), t.node, t.item, vb, Child(t, !d));
    LinkedJoin(m', d, Child(x, d), x.node, x.item, ub, Join(d, Child(x, !d), t.node, t.item, vb, Child(t, !d)));
  }

  lemma {:induction false} DoubleApart(t: Tree<Node>, d: bool)
    requires t.Branch? && Child(t, d).Branch? && Child(Child(t, d), !d).Branch? && Distinct(t)
    ensures var y, x, w := t.node, Child(t, d).node, Child(Child(t, d), !d).node;
            && x != y && w != x && w != y && {w, x, y} <= Nodes(t)
            && Nodes(Child(Child(t, d), d)) <= Nodes(t) - {w, x, y}
            && Nodes(Child(Child(Child(t, d), !d), d)) <= Nodes(t) - {w, x, y}
            && Nodes(Child(Child(Child(t, d), !d), !d)) <= Nodes(t) - {w, x, y}
            && Nodes(Child(t, !d)) <= Nodes(t) - {w, x, y}
  {
    var x := Child(t, d);
    SingleApart(t, d);
    DistinctChild(t, d);
    DistinctChild(x, !d);
    DistinctChild(Child(x, !d), d);
  }

  /** The near half of a double rotation, and the far half. */
  ghost function NearHalf(d: bool, t: Tree<Node>): Tree<Node>
    requires t.Branch? && Child(t, d).Branch? && Child(Child(t, d), !d).Branch?
  {
    var x, w := Child(t, d), Child(Child(t, d), !d);
    Join(d, Child(x, d), x.node, x.item, if w.balance == Sgn(d) || w.balance == 0 then 0 else Sgn(d), Child(w, d))
  }

  ghost function FarHalf(d: bool, t: Tree<Node>): Tree<Node>
    requires t.Branch? && Child(t, d).Branch? && Child(Child(t, d), !d).Branch?
  {
    var w := Child(Child(t, d), !d);
    Join(d, Child(w, !d), t.node, t.item, if w.balance == Sgn(d) then -Sgn(d) else 0, Child(t, !d))
  }

  /** What the writes of a double rotation leave in the three nodes. */
  ghost predicate Doubled(m: Store, m': Store, d: bool, t: Tree<Node>)
    requires t.Branch? && Child(t, d).Branch? && Child(Child(t, d), !d).Branch?
  {
    var x, w := Child(t, d), Child(Child(t, d), !d);
    && w.node in m && x.node in m && t.node in m && w.node in m' && x.node in m' && t.node in m'
    && Agree(m, m', Nodes(t) - {w.node, x.node, t.node})
    && m'[t.node] == Put(m[t.node], d, Root(Child(w, !d))).(balance := FarHalf(d, t).balance)
    && m'[x.node] == Put(m[x.node], !d, Root(Child(w, d))).(balance := NearHalf(d, t).balance)
    && m'[w.node] == Put(Put(m[w.node], d, x.node), !d, t.node).(balance := 0)
  }

  lemma {:induction false} DoubleLinked(m: Store, m': Store, d: bool, t: Tree<Node>)
    requires t.Branch? && Child(t, d).Branch? && Child(Child(t, d), !d).Branch?
    requires Distinct(t) && Linked(m, t) && Doubled(m, m', d, t)
    ensures Linked(m', DoubleAt(d, t))
  {
    var x, w := Child(t, d), Child(Child(t, d), !d);
    assert m[w.node].data == w.item by {
      LinkedChild(m, t, d);
      LinkedChild(m, x, d);
      LinkedChild(m, w, d);
    }
    NearLinked(m, m', d, t);
    FarLinked(m, m', d, t);
    LinkedJoin(m', d, NearHalf(d, t), w.node, w.item, 0, FarHalf(d, t));
  }

  lemma {:induction false} NearLinked(m: Store, m': Store, d: bool, t: Tree<Node>)
    requires t.Branch? && Child(t, d).Branch? && Child(Child(t, d), !d).Branch?
    requires Distinct(t) && Linked(m, t) && Doubled(m, m', d, t)
    ensures Linked(m', NearHalf(d, t))
  {
    var x, w := Child(t, d), Child(Child(t, d), !d);
    DoubleApart(t, d);
    LinkedChild(m, t, d);
    LinkedChild(m, x, d);
    LinkedChild(m, w, d);
    LinkedAgree(m, m', Child(x, d));
    LinkedAgree(m, m', Child(w, d));
    LinkedJoin(m', d, Child(x, d), x.node, x.item, NearHalf(d, t).balance, Child(w, d));
  }

  lemma {:induction false} FarLinked(m: Store, m': Store, d: bool, t: Tree<Node>)
    requires t.Branch? && Child(t, d).Branch? && Child(Child(t, d), !d).Branch?
    requires Distinct(t) && Linked(m, t) && Doubled(m, m', d, t)
    ensures Linked(m', FarHalf(d, t))
  {
    var x, w := Child(t, d), Child(Child(t, d), !d);
    DoubleApart(t, d);
    LinkedChild(m, t, d);
    LinkedChild(m, x, d);
    LinkedChild(m, w, d);
    LinkedAgree(m, m', Child(w, !d));
    LinkedAgree(m, m', Child(t, !d));
    LinkedJoin(m', d, Child(w, !d), t.node, t.item, FarHalf(d, t).balance, Child(t, !d));
  }

  /** Hang x's inner subtree under y and y under x. */
  method TurnOnce(y: Node, x: Node, d: bool, ub: int, vb: int)
    requires x != y
    modifies x, y
    ensures y.Contents() == Put(old(y.Contents()), d, old(x.Link(!d))).(balance := vb)
    ensures x.Contents() == Put(old(x.Contents()), !d, y).(balance := ub)
  {
    y.SetLink(d, x.Link(!d));
    x.SetLink(!d, y);
    x.balance := ub;
    y.balance := vb;
  }

  /** Single rotation towards `!d` at `y`. */
  method RotateOnce(y: Node, d: bool, ub: int, vb: int, ghost ns: set<Node>, ghost t: Tree<Node>) returns (w: Node)
    requires t.Branch? && Child(t, d).Branch? && t.node == y
    requires Nodes(t) <= ns && Distinct(t) && Linked(Snap(ns), t)
    modifies y, Child(t, d).node
    ensures w == Child(t, d).node
    ensures Linked(Snap(ns), SingleAt(d, t, ub, vb))
    ensures Agree(old(Snap(ns)), Snap(ns), ns - Nodes(t))
  {
    ghost var m := Snap(ns);
    ghost var x := Child(t, d);
    assert y.Link(d) == x.node && x.node.Link(!d) == Root(Child(x, !d)) by {
      SingleApart(t, d);
      LinkedChild(m, t, d);
      LinkedChild(m, x, d);
    }
    assert x.node != y && x.node in ns by { SingleApart(t, d); }
    w := y.Link(d);
    TurnOnce(y, w, d, ub, vb);
    assert Agree(m, Snap(ns), ns - {w, y});
    SingleLinked(m, Snap(ns), d, t, ub, vb);
  }

  /** The link and factor writes of a double rotation; `w` is x's inner child. */
  method TurnTwice(y: Node, x: Node, w: Node, d: bool)
    requires x != y && w != x && w != y
    modifies w, x, y
    ensures y.Contents() == Put(old(y.Contents()), d, old(w.Link(!d)))
                              .(balance := if old(w.balance) == Sgn(d) then -Sgn(d) else 0)
    ensures x.Contents() == Put(old(x.Contents()), !d, old(w.Link(d)))
                              .(balance := if old(w.balance) == Sgn(d) || old(w.balance) == 0 then 0 else Sgn(d))
    ensures w.Contents() == Put(Put(old(w.Contents()), d, x), !d, y).(balance := 0)
  {
    x.SetLink(!d, w.Link(d));
    w.SetLink(d, x);
    y.SetLink(d, w.Link(!d));
    w.SetLink(!d, y);
    var b := if d then 1 else -1;
    if w.balance == b {
      x.balance, y.balance := 0, -b;
    } else if w.balance == 0 {
      x.balance, y.balance := 0, 0;
    } else {
      x.balance, y.balance := b, 0;
    }
    w.balance := 0;
  }

  /** Double rotation towards `!d` at `y`. */
  method RotateTwice(y: Node, d: bool, ghost ns: set<Node>, ghost t: Tree<Node>) returns (w: Node)
    requires t.Branch? && Child(t, d).Branch? && Child(Child(t, d), !d).Branch? && t.node == y
    requires Nodes(t) <= ns && Distinct(t) && Linked(Snap(ns), t)
    modifies y, Child(t, d).node, Child(Child(t, d), !d).node
    ensures w == Child(Child(t, d), !d).node
    ensures Linked(Snap(ns), DoubleAt(d, t))
    ensures Agree(old(Snap(ns)), Snap(ns), ns - Nodes(t))
  {
    ghost var m := Snap(ns);
    ghost var xt := Child(t, d);
    ghost var wt := Child(xt, !d);
    DoubleApart(t, d);
    assert y.Link(d) == xt.node && xt.node.Link(!d) == wt.node && wt.node.balance == wt.balance by {
      LinkedChild(m, t, d);
      LinkedChild(m, xt, d);
      LinkedChild(m, wt, d);
    }
    assert wt.node.Link(d) == Root(Child(wt, d)) && wt.node.Link(!d) == Root(Child(wt, !d)) by {
      LinkedChild(m, t, d);
      LinkedChild(m, xt, d);
      LinkedChild(m, wt, d);
    }
    var x := y.Link(d);
    w := x.Link(!d);
    TurnTwice(y, x, w, d);
    assert Agree(m, Snap(ns), ns - {w, x, y});
    DoubleLinked(m, Snap(ns), d, t);
  }

  /** One link write, seen as an update of the whole store. */
  method Hang(z: Node, d: bool, v: Node?, ghost ns: set<Node>)
    requires z in ns
    modifies z
    ensures Snap(ns) == old(Snap(ns))[z := Put(old(Snap(ns))[z], d, v)]
  {
    ghost var m := Snap(ns);
    z.SetLink(d, v);
    assert z.Contents() == Put(m[z], d, v);
  }

  /** What reading through a node at `pos` sees. */
  lemma {:induction false} NodeAt(m: Store, t: Tree<Node>, pos: Path)
    requires On(t, pos) && Linked(m, t) && Sub(t, pos).Branch?
    ensures var s := Sub(t, pos);
            && s.node in Nodes(t) && s.node in m
            && m[s.node] == Cell(Root(s.left), Root(s.right), s.item, s.balance)
  {
    SubNodes(t, pos);
    LinkedSub(m, t, pos);
  }
}
