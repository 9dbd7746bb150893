/** The steps of `avl_delete`. */
module AvlDelete {
  import opened AvlTree
  import opened AvlSteps
  import opened AvlNodes
  import opened AvlProbe

  /** The stack holds the links of `path` and the nodes they leave from in `t`. */
  ghost predicate Stacked(pa: seq<Node?>, da: seq<bool>, t: Tree<Node>, path: Path) {
    && On(t, path) && |path| <= |pa| && |path| <= |da| && da[..|path|] == path
    && forall i :: 0 <= i < |path| ==> StackedAt(pa, t, path, i)
  }

  ghost predicate StackedAt(pa: seq<Node?>, t: Tree<Node>, path: Path, i: nat)
    requires i < |path| <= |pa|
  {
    On(t, path[..i]) && pa[i] == Root(Sub(t, path[..i]))
  }

  /** Pushing one more entry. */
  lemma {:induction false} StackPush(pa: seq<Node?>, da: seq<bool>, t: Tree<Node>, path: Path, d: bool)
    requires Stacked(pa, da, t, path) && Sub(t, path).Branch? && |path| < |pa| && |path| < |da|
    ensures Stacked(pa[|path| := Sub(t, path).node], da[|path| := d], t, path + [d])
    ensures Sub(t, path + [d]) == Child(Sub(t, path), d)
  {
    StepDown(t, path, d);
    var pa', da', q := pa[|path| := Sub(t, path).node], da[|path| := d], path + [d];
    assert da'[..|q|] == q;
    forall i | 0 <= i < |q| ensures StackedAt(pa', t, q, i) {
      if i < |path| { assert q[..i] == path[..i] && StackedAt(pa, t, path, i); } else { assert q[..i] == path; }
    }
  }

  /** `path`, counted from the header, is a stretch of the search for `x`. */
  ghost predicate Tracing(cmp: Comparison, t: Tree<Node>, x: Item, path: Path)
    requires t.Branch?
  {
    && On(t, path)
    && (path != [] ==>
          && path[0] == false
          && SearchPath(cmp, t.left, x) == path[1..] + SearchPath(cmp, Sub(t, path), x)
          && Lookup(cmp, t.left, x) == Lookup(cmp, Sub(t, path), x))
  }

  ghost predicate Follows(cmp: Comparison, t: Tree<Node>, x: Item, path: Path, c: int)
    requires On(t, path) && Sub(t, path).Branch?
  {
    if path == [] then c == -1 else c == cmp(x, Sub(t, path).item)
  }

  lemma {:induction false} TraceStep(cmp: Comparison, t: Tree<Node>, x: Item, path: Path, c: int)
    requires t.Branch? && Tracing(cmp, t, x, path) && Sub(t, path).Branch? && Follows(cmp, t, x, path, c) && c != 0
    ensures Tracing(cmp, t, x, path + [c > 0]) && Sub(t, path + [c > 0]) == Child(Sub(t, path), c > 0)
    ensures |path| <= |SearchPath(cmp, t.left, x)|
  {
    var d := c > 0;
    StepDown(t, path, d);
    if path == [] {
      assert (path + [d])[1..] == [];
      assert [] + SearchPath(cmp, t.left, x) == SearchPath(cmp, t.left, x);
    } else {
      var s := Sub(t, path);
      assert (path + [d])[1..] == path[1..] + [d];
      assert path[1..] + ([d] + SearchPath(cmp, Child(s, d), x)) == (path[1..] + [d]) + SearchPath(cmp, Child(s, d), x);
    }
  }

  lemma {:induction false} TraceEnd(cmp: Comparison, t: Tree<Node>, x: Item, path: Path)
    requires t.Branch? && Tracing(cmp, t, x, path) && path != []
    ensures Sub(t, path).Leaf? ==> Lookup(cmp, t.left, x).Leaf?
    ensures Sub(t, path).Branch? && cmp(x, Sub(t, path).item) == 0 ==>
              path == [false] + SearchPath(cmp, t.left, x) && Sub(t, path) == Lookup(cmp, t.left, x)
  {
    assert path == [false] + path[1..];
  }

  /** `pa[k] = p; da[k] = dir`. */
  method Push(p: Node, dir: bool, pa: array<Node?>, da: array<bool>, k: nat, ghost t: Tree<Node>, ghost path: Path)
    requires pa.Length == da.Length && k == |path| < pa.Length && Stacked(pa[..], da[..], t, path)
    requires Sub(t, path).Branch? && Sub(t, path).node == p
    modifies pa, da
    ensures Stacked(pa[..], da[..], t, path + [dir]) && Sub(t, path + [dir]) == Child(Sub(t, path), dir)
  {
    StackPush(pa[..], da[..], t, path, dir);
    pa[k] := p;
    da[k] := dir;
  }

  /** The descent of `avl_delete`: pushes every node from the header down to the holder of
      the node found, or fails at an empty link. */
  method Trace(compare: Comparison, header: Node, x: Item, pa: array<Node?>, da: array<bool>,
               ghost ns: set<Node>, ghost t: Tree<Node>)
    returns (p: Node?, k: nat)
    requires t.Branch? && t.node == header && Nodes(t) <= ns && Linked(Snap(ns), t)
    requires pa.Length == da.Length && 1 + |SearchPath(compare, t.left, x)| <= pa.Length
    modifies pa, da
    ensures p == Root(Lookup(compare, t.left, x)) && Snap(ns) == old(Snap(ns))
    ensures p != null ==> var path := [false] + SearchPath(compare, t.left, x);
                          k == |path| && Stacked(pa[..], da[..], t, path) && Sub(t, path) == Lookup(compare, t.left, x)
  {
    ghost var m, path := Snap(ns), [];
    k, p := 0, header;
    var cmp := -1;
    while cmp != 0
      invariant p != null && k == |path| && Stacked(pa[..], da[..], t, path) && p == Root(Sub(t, path))
      invariant Tracing(compare, t, x, path) && Follows(compare, t, x, path, cmp)
      invariant Snap(ns) == m
      decreases |SearchPath(compare, t.left, x)| + 1 - |path|
    {
      var dir := cmp > 0;
      TraceStep(compare, t, x, path, cmp);
      NodeAt(m, t, path);
      assert m[p] == p.Contents();
      Push(p, dir, pa, da, k, t, path);
      k := k + 1;
      p := p.Link(dir);
      path := path + [dir];
      TraceEnd(compare, t, x, path);
      if p == null {
        return;
      }
      NodeAt(m, t, path);
      assert m[p] == p.Contents();
      cmp := compare(x, p.data);
    }
    TraceEnd(compare, t, x, path);
  }

  // ---- unlinking ----

  lemma {:induction false} LeftSpineAt(t: Tree<Node>, i: nat)
    requires t.Branch? && i <= |LeftSpine(t)|
    ensures var p := LeftSpine(t);
            && On(t, p[..i]) && Sub(t, p[..i]).Branch?
            && (i < |p| <==> Sub(t, p[..i]).left.Branch?)
            && (i < |p| ==> p[i] == false && On(t, p[..i + 1]) && Sub(t, p[..i + 1]) == Sub(t, p[..i]).left)
  {
    var p := LeftSpine(t);
    if i > 0 {
      assert p[..i][1..] == p[1..][..i - 1];
      LeftSpineAt(t.left, i - 1);
      if i < |p| { assert p[..i + 1][1..] == p[1..][..i]; }
    } else if i < |p| {
      assert p[..1][1..] == [];
    }
  }

  /** The least node sits at the end of the left spine; dropping it hangs its right subtree there. */
  lemma {:induction false} LeastAt(t: Tree<Node>)
    requires t.Branch?
    ensures var p := LeftSpine(t);
            && On(t, p) && Sub(t, p).Branch? && Sub(t, p).left.Leaf?
            && Least(t) == (Sub(t, p).node, Sub(t, p).item)
            && DropLeast(t) == Replace(t, p, Sub(t, p).right)
  {
    if t.left.Branch? {
      LeastAt(t.left);
      assert LeftSpine(t)[1..] == LeftSpine(t.left);
    }
  }

  lemma {:induction false} DropLeastNodes(t: Tree<Node>)
    requires t.Branch? && Distinct(t)
    ensures Least(t).0 in Nodes(t) && Nodes(DropLeast(t)) == Nodes(t) - {Least(t).0}
    ensures Distinct(DropLeast(t))
  {
    if t.left.Branch? { DropLeastNodes(t.left); }
  }

  lemma {:induction false} UnlinkRootNodes(t: Tree<Node>)
    requires t.Branch? && Distinct(t)
    ensures Nodes(UnlinkRoot(t)) == Nodes(t) - {t.node} && Distinct(UnlinkRoot(t))
  {
    if t.right.Branch? { DropLeastNodes(t.right); }
  }

  /** The successor is the right child. */
  lemma {:induction false} SpliceNear(m: Store, m': Store, t: Tree<Node>)
    requires t.Branch? && t.right.Branch? && t.right.left.Leaf? && Distinct(t) && Linked(m, t)
    requires var r := t.right.node;
             && r in m && r in m' && Agree(m, m', Nodes(t) - {r})
             && m'[r] == m[r].(link0 := Root(t.left), balance := t.balance)
    ensures Linked(m', UnlinkRoot(t))
  {
    LinkedAgree(m, m', t.left);
    LinkedAgree(m, m', t.right.right);
  }

  /** The successor is further down, under `r`. */
  lemma {:induction false} SpliceFar(m: Store, m': Store, t: Tree<Node>, q: Path)
    requires t.Branch? && t.right.Branch? && Distinct(t) && Linked(m, t)
    requires LeftSpine(t.right) == q + [false] && On(t.right, q) && Sub(t.right, q).Branch?
    requires Sub(t.right, q).left.Branch?
    requires var r, s := Sub(t.right, q).node, Sub(t.right, q).left;
             && r in m && r in m' && s.node in m && s.node in m' && Agree(m, m', Nodes(t) - {r, s.node})
             && m'[r] == m[r].(link0 := Root(s.right))
             && m'[s.node] == Cell(Root(t.left), t.right.node, s.item, t.balance)
    ensures Linked(m', UnlinkRoot(t))
  {
    var u := t.right;
    LeastAt(u);
    StepDown(u, q, false);
    var s := Sub(u, q).left;
    SubNodes(u, q);
    SubNodes(u, q + [false]);
    DistinctChild(Sub(u, q), false);
    LinkedSub(m, u, q + [false]);
    LinkedAgree(m, m', s.right);
    RehangLinked(m, m', u, q, false, s.right);
    LinkedAgree(m, m', t.left);
    SubReplaceRoot(u, q, s.right);
  }

  lemma {:induction false} SubReplaceRoot(t: Tree<Node>, q: Path, s: Tree<Node>)
    requires On(t, q) && Sub(t, q).Branch? && On(t, q + [false])
    ensures Root(Replace(t, q + [false], s)) == Root(t)
  {
    assert (q + [false]) != [];
  }

  // ---- the stack after unlinking ----

  /** Replacing a subtree moves no node above it. */
  lemma {:induction false} RootKept(t: Tree<Node>, p: Path, i: nat, s: Tree<Node>)
    requires On(t, p) && i < |p|
    ensures On(t, p[..i]) && On(Replace(t, p, s), p[..i])
    ensures Root(Sub(Replace(t, p, s), p[..i])) == Root(Sub(t, p[..i]))
  {
    HungBelow(t, p, i, s);
  }

  /** Entries above the deleted node are still right; a successor entry and the spine
      entries below it complete the stack. */
  lemma {:induction false} StackedUnlinked(pa: seq<Node?>, da: seq<bool>, pa': seq<Node?>, da': seq<bool>,
                                           t: Tree<Node>, path: Path, u: Tree<Node>)
    requires Stacked(pa, da, t, path) && Sub(t, path) == u && u.Branch?
    requires |pa'| == |pa| == |da| == |da'| && |path| + |RootShortPath(u)| <= |pa|
    requires pa'[..|path|] == pa[..|path|] && da'[..|path|] == da[..|path|]
    requires u.right.Branch? ==> Promoted(pa', da', |path|, u)
    ensures On(t, path) && Stacked(pa', da', Replace(t, path, UnlinkRoot(u)), path + RootShortPath(u))
  {
    var t', q := Replace(t, path, UnlinkRoot(u)), path + RootShortPath(u);
    assert On(t', q) by {
      SubReplace(t, path, UnlinkRoot(u));
      UnlinkRootOn(u);
      OnSplit(t', path, RootShortPath(u));
    }
    forall i | 0 <= i < |q| ensures EntryAt(pa', da', t', q, i) {
      if i < |path| {
        UpperEntry(pa, da, pa', da', t, path, u, i);
      } else {
        SpineEntry(pa', da', t, path, u, i - |path|);
      }
    }
    EntriesStacked(pa', da', t', q);
  }

  ghost predicate EntryAt(pa: seq<Node?>, da: seq<bool>, t: Tree<Node>, q: Path, i: nat)
    requires i < |q| <= |pa| && |q| <= |da|
  {
    da[i] == q[i] && StackedAt(pa, t, q, i)
  }

  lemma {:induction false} EntriesStacked(pa: seq<Node?>, da: seq<bool>, t: Tree<Node>, q: Path)
    requires On(t, q) && |q| <= |pa| && |q| <= |da| && forall i :: 0 <= i < |q| ==> EntryAt(pa, da, t, q, i)
    ensures Stacked(pa, da, t, q)
  {
    forall i | 0 <= i < |q| ensures da[i] == q[i] && StackedAt(pa, t, q, i) { assert EntryAt(pa, da, t, q, i); }
    assert da[..|q|] == q;
  }

  lemma {:induction false} SpineEntry(pa: seq<Node?>, da: seq<bool>, t: Tree<Node>, path: Path, u: Tree<Node>, j: nat)
    requires On(t, path) && u.Branch? && j < |RootShortPath(u)| && |path| + |RootShortPath(u)| <= |pa| == |da|
    requires u.right.Branch? ==> Promoted(pa, da, |path|, u)
    ensures EntryAt(pa, da, Replace(t, path, UnlinkRoot(u)), path + RootShortPath(u), |path| + j)
  {
    LowerEntry(t, path, u, j);
    PromotedEntry(pa, da, |path|, u, j);
  }

  lemma {:induction false} UpperEntry(pa: seq<Node?>, da: seq<bool>, pa': seq<Node?>, da': seq<bool>,
                                      t: Tree<Node>, path: Path, u: Tree<Node>, i: nat)
    requires Stacked(pa, da, t, path) && u.Branch? && i < |path|
    requires |pa'| == |pa| == |da| == |da'| && |path| + |RootShortPath(u)| <= |pa|
    requires pa'[..|path|] == pa[..|path|] && da'[..|path|] == da[..|path|]
    ensures EntryAt(pa', da', Replace(t, path, UnlinkRoot(u)), path + RootShortPath(u), i)
  {
    var q := path + RootShortPath(u);
    assert q[..i] == path[..i] && q[i] == path[i] && StackedAt(pa, t, path, i);
    assert pa'[i] == pa'[..|path|][i] && da'[i] == da'[..|path|][i];
    assert pa[i] == pa[..|path|][i] && da[i] == da[..|path|][i];
    RootKept(t, path, i, UnlinkRoot(u));
  }

  /** What the stack holds for the nodes on the way down to where the unlinked tree is short. */
  lemma {:induction false} PromotedEntry(pa: seq<Node?>, da: seq<bool>, k: nat, u: Tree<Node>, j: nat)
    requires u.Branch? && j < |RootShortPath(u)| && k + |RootShortPath(u)| <= |pa| == |da|
    requires u.right.Branch? ==> Promoted(pa, da, k, u)
    ensures On(UnlinkRoot(u), RootShortPath(u)[..j])
    ensures da[k + j] == RootShortPath(u)[j] && pa[k + j] == Root(Sub(UnlinkRoot(u), RootShortPath(u)[..j]))
  {
    UnlinkRootAt(u, j);
    if j > 0 { SpineEntryAt(pa, da, k + 1, u.right, j - 1); }
  }

  lemma {:induction false} SpineEntryAt(pa: seq<Node?>, da: seq<bool>, k0: nat, u: Tree<Node>, i: nat)
    requires u.Branch? && SpineStacked(pa, da, k0, u, |LeftSpine(u)|) && i < |LeftSpine(u)|
    ensures On(u, LeftSpine(u)[..i]) && pa[k0 + i] == Root(Sub(u, LeftSpine(u)[..i])) && da[k0 + i] == false
  {
    assert SpineAt(pa, da, k0, u, i);
  }

  /** The nodes of the unlinked subtree, seen from the whole tree. */
  lemma {:induction false} LowerEntry(t: Tree<Node>, path: Path, u: Tree<Node>, j: nat)
    requires On(t, path) && u.Branch? && j < |RootShortPath(u)|
    ensures var t', q := Replace(t, path, UnlinkRoot(u)), path + RootShortPath(u);
            && On(UnlinkRoot(u), RootShortPath(u)[..j]) && q[..|path| + j] == path + RootShortPath(u)[..j]
            && On(t', q[..|path| + j]) && Sub(t', q[..|path| + j]) == Sub(UnlinkRoot(u), RootShortPath(u)[..j])
  {
    var t', q := Replace(t, path, UnlinkRoot(u)), path + RootShortPath(u);
    SubReplace(t, path, UnlinkRoot(u));
    UnlinkRootOn(u);
    OnPrefix(UnlinkRoot(u), RootShortPath(u), j);
    assert q[..|path| + j] == path + RootShortPath(u)[..j];
    OnSplit(t', path, RootShortPath(u)[..j]);
  }

  lemma {:induction false} UnlinkRootOn(u: Tree<Node>)
    requires u.Branch?
    ensures On(UnlinkRoot(u), RootShortPath(u))
  {
    if u.right.Branch? {
      LeastAt(u.right);
      SubReplace(u.right, LeftSpine(u.right), Sub(u.right, LeftSpine(u.right)).right);
      assert RootShortPath(u)[1..] == LeftSpine(u.right);
    }
  }

  /** The nodes on the way down to where the unlinked tree is short. */
  lemma {:induction false} UnlinkRootAt(u: Tree<Node>, j: nat)
    requires u.Branch? && j < |RootShortPath(u)|
    ensures On(UnlinkRoot(u), RootShortPath(u)[..j])
    ensures u.right.Branch? && RootShortPath(u)[j] == (j == 0)
    ensures j == 0 ==> Root(Sub(UnlinkRoot(u), RootShortPath(u)[..j])) == Least(u.right).0
    ensures j > 0 ==>
              && On(u.right, LeftSpine(u.right)[..j - 1])
              && Root(Sub(UnlinkRoot(u), RootShortPath(u)[..j])) == Root(Sub(u.right, LeftSpine(u.right)[..j - 1]))
  {
    UnlinkRootOn(u);
    OnPrefix(UnlinkRoot(u), RootShortPath(u), j);
    if j > 0 {
      LeastAt(u.right);
      LeftSpineAt(u.right, j - 1);
      assert RootShortPath(u)[..j][1..] == LeftSpine(u.right)[..j - 1];
      RootKept(u.right, LeftSpine(u.right), j - 1, Sub(u.right, LeftSpine(u.right)).right);
    } else {
      assert RootShortPath(u)[..0] == [];
    }
  }

  /** The first `i` nodes of the left spine of `u` are pushed above `k0` older entries. */
  ghost predicate SpineStacked(pa: seq<Node?>, da: seq<bool>, k0: nat, u: Tree<Node>, i: nat) {
    && u.Branch? && i <= |LeftSpine(u)| && |pa| == |da| && k0 + i <= |pa|
    && forall j :: 0 <= j < i ==> SpineAt(pa, da, k0, u, j)
  }

  ghost predicate SpineAt(pa: seq<Node?>, da: seq<bool>, k0: nat, u: Tree<Node>, j: nat)
    requires u.Branch? && j < |LeftSpine(u)| && |pa| == |da| && k0 + j < |pa|
  {
    && On(u, LeftSpine(u)[..j])
    && pa[k0 + j] == Root(Sub(u, LeftSpine(u)[..j])) && da[k0 + j] == false
  }

  lemma {:induction false} SpinePush(pa: seq<Node?>, da: seq<bool>, k0: nat, u: Tree<Node>, i: nat)
    requires SpineStacked(pa, da, k0, u, i) && i < |LeftSpine(u)| && k0 + i < |pa|
    ensures On(u, LeftSpine(u)[..i])
    ensures SpineStacked(pa[k0 + i := Root(Sub(u, LeftSpine(u)[..i]))], da[k0 + i := false], k0, u, i + 1)
  {
    LeftSpineAt(u, i);
    var pa', da' := pa[k0 + i := Root(Sub(u, LeftSpine(u)[..i]))], da[k0 + i := false];
    forall j | 0 <= j < i + 1 ensures SpineAt(pa', da', k0, u, j) {
      assert j < i ==> SpineAt(pa, da, k0, u, j);
    }
  }

  /** What the walk down the spine reads. */
  lemma {:induction false} SpineRead(m: Store, u: Tree<Node>, i: nat)
    requires u.Branch? && Linked(m, u) && i < |LeftSpine(u)|
    ensures var q := LeftSpine(u);
            && On(u, q[..i]) && On(u, q[..i + 1]) && Sub(u, q[..i]).Branch? && Sub(u, q[..i + 1]).Branch?
            && var r, s := Sub(u, q[..i]).node, Sub(u, q[..i + 1]).node;
               && {r, s} <= Nodes(u) && r in m && s in m && m[r].link0 == s
               && (m[s].link0 == null <==> i + 1 == |q|)
  {
    LeftSpineAt(u, i);
    LeftSpineAt(u, i + 1);
    NodeAt(m, u, LeftSpine(u)[..i]);
    NodeAt(m, u, LeftSpine(u)[..i + 1]);
  }

  /** `da[k] = 0; pa[k] = r` on the way down the spine. */
  method PushSpine(r: Node, pa: array<Node?>, da: array<bool>, k: nat, ghost k0: nat, ghost u: Tree<Node>, ghost i: nat)
    requires pa.Length == da.Length && SpineStacked(pa[..], da[..], k0, u, i) && k == k0 + i < pa.Length
    requires i < |LeftSpine(u)| && On(u, LeftSpine(u)[..i]) && r == Root(Sub(u, LeftSpine(u)[..i]))
    modifies pa, da
    ensures SpineStacked(pa[..], da[..], k0, u, i + 1)
    ensures pa[..k0] == old(pa[..k0]) && da[..k0] == old(da[..k0])
  {
    SpinePush(pa[..], da[..], k0, u, i);
    da[k] := false;
    pa[k] := r;
  }

  /** The `for (;;)` loop: pushes the left spine of the right subtree and stops at its least
      node `s`, whose holder is `r`. */
  method FindSuccessor(r0: Node, pa: array<Node?>, da: array<bool>, k0: nat, ghost ns: set<Node>, ghost u: Tree<Node>)
    returns (r: Node, s: Node, k: nat)
    requires u.Branch? && u.left.Branch? && u.node == r0 && Nodes(u) <= ns && Linked(Snap(ns), u)
    requires pa.Length == da.Length && k0 + |LeftSpine(u)| <= pa.Length
    modifies pa, da
    ensures Snap(ns) == old(Snap(ns))
    ensures var q := LeftSpine(u);
            && k == k0 + |q| && |q| > 0 && On(u, q) && On(u, q[..|q| - 1])
            && r == Root(Sub(u, q[..|q| - 1])) && s == Root(Sub(u, q))
            && SpineStacked(pa[..], da[..], k0, u, |q|)
    ensures pa[..k0] == old(pa[..k0]) && da[..k0] == old(da[..k0])
  {
    ghost var m, q := Snap(ns), LeftSpine(u);
    ghost var i := 0;
    k, r := k0, r0;
    while true
      invariant k == k0 + i && i < |q| && On(u, q[..i]) && r == Root(Sub(u, q[..i]))
      invariant SpineStacked(pa[..], da[..], k0, u, i)
      invariant pa[..k0] == old(pa[..k0]) && da[..k0] == old(da[..k0])
      invariant Snap(ns) == m
      decreases |q| - i
    {
      SpineRead(m, u, i);
      assert m[r] == r.Contents();
      PushSpine(r, pa, da, k, k0, u, i);
      k := k + 1;
      s := r.link0;
      assert m[s] == s.Contents();
      i := i + 1;
      if s.link0 == null {
        assert q[..i] == q;
        return;
      }
      r := s;
    }
  }

  /** The successor entry and the spine entries are in place above `k` older ones. */
  ghost predicate Promoted(pa: seq<Node?>, da: seq<bool>, k: nat, u: Tree<Node>) {
    && u.Branch? && u.right.Branch? && k < |pa| && k < |da|
    && pa[k] == Least(u.right).0 && da[k] == true
    && SpineStacked(pa, da, k + 1, u.right, |LeftSpine(u.right)|)
  }

  /** `r->avl_link[0] == NULL`: the right child itself takes the place of `p`. */
  method PromoteNear(p: Node, r: Node, ghost ns: set<Node>, ghost u: Tree<Node>)
    requires u.Branch? && u.node == p && u.right.Branch? && u.right.node == r && u.right.left.Leaf?
    requires Distinct(u) && Nodes(u) <= ns && Linked(Snap(ns), u)
    modifies r
    ensures Linked(Snap(ns), UnlinkRoot(u)) && r == Root(UnlinkRoot(u))
    ensures Agree(old(Snap(ns)), Snap(ns), ns - Nodes(u))
  {
    ghost var m := Snap(ns);
    assert r in Nodes(u) && r != p;
    assert m[p] == p.Contents() && m[r] == r.Contents();
    r.link0 := p.link0;
    r.balance := p.balance;
    assert Agree(m, Snap(ns), ns - {r});
    SpliceNear(m, Snap(ns), u);
  }

  /** The successor `s`, held by `r`, takes the place of `p`. */
  method PromoteFar(p: Node, r: Node, s: Node, ghost ns: set<Node>, ghost u: Tree<Node>, ghost q: Path)
    requires u.Branch? && u.node == p && u.right.Branch? && Distinct(u) && Nodes(u) <= ns && Linked(Snap(ns), u)
    requires LeftSpine(u.right) == q + [false] && On(u.right, q) && Sub(u.right, q).Branch?
    requires Sub(u.right, q).node == r && Sub(u.right, q).left.Branch? && Sub(u.right, q).left.node == s
    modifies r, s
    ensures Linked(Snap(ns), UnlinkRoot(u)) && s == Root(UnlinkRoot(u))
    ensures Agree(old(Snap(ns)), Snap(ns), ns - Nodes(u))
  {
    ghost var m := Snap(ns);
    PromoteRead(m, u, q);
    assert m[p] == p.Contents() && m[r] == r.Contents() && m[s] == s.Contents();
    s.link0 := p.link0;
    r.link0 := s.link1;
    s.link1 := p.link1;
    s.balance := p.balance;
    assert Agree(m, Snap(ns), ns - {r, s});
    SpliceFar(m, Snap(ns), u, q);
  }

  lemma {:induction false} PromoteRead(m: Store, u: Tree<Node>, q: Path)
    requires u.Branch? && u.right.Branch? && Distinct(u) && Linked(m, u)
    requires LeftSpine(u.right) == q + [false] && On(u.right, q) && Sub(u.right, q).Branch?
    requires Sub(u.right, q).left.Branch?
    ensures var r, s := Sub(u.right, q).node, Sub(u.right, q).left;
            && {r, s.node} <= Nodes(u) && r != u.node && s.node != u.node && r != s.node
            && r in m && s.node in m && u.node in m
            && m[s.node].link1 == Root(s.right) && m[s.node].data == s.item
            && Root(UnlinkRoot(u)) == s.node
  {
    NodeAt(m, u.right, q);
    SubNodes(u.right, q);
    LinkedSub(m, u.right, q);
    LeastAt(u.right);
    StepDown(u.right, q, false);
    DistinctChild(Sub(u.right, q), false);
  }

  lemma {:induction false} PromotedPush(pa: seq<Node?>, da: seq<bool>, k: nat, u: Tree<Node>)
    requires u.Branch? && u.right.Branch? && SpineStacked(pa, da, k + 1, u.right, |LeftSpine(u.right)|)
    ensures Promoted(pa[k := Least(u.right).0], da[k := true], k, u)
  {
    var pa', da', n, k1 := pa[k := Least(u.right).0], da[k := true], |LeftSpine(u.right)|, k + 1;
    forall j | 0 <= j < n ensures SpineAt(pa', da', k1, u.right, j) {
      assert SpineAt(pa, da, k1, u.right, j);
    }
  }

  /** The last two nodes of the spine are the holder of the successor and the successor. */
  lemma {:induction false} SpineEnd(u: Tree<Node>)
    requires u.Branch? && u.left.Branch?
    ensures var q := LeftSpine(u)[..|LeftSpine(u)| - 1];
            && LeftSpine(u) == q + [false] && On(u, q) && Sub(u, q).Branch? && Sub(u, q).left.Branch?
            && On(u, LeftSpine(u)) && Root(Sub(u, LeftSpine(u))) == Sub(u, q).left.node
  {
    var p := LeftSpine(u);
    LeftSpineAt(u, |p| - 1);
    assert p == p[..|p| - 1] + [p[|p| - 1]];
    assert p[..|p|] == p;
  }

  /** Everything between finding a node with a right child and re-hanging its place. */
  method Promote(p: Node, pa: array<Node?>, da: array<bool>, k: nat, ghost ns: set<Node>, ghost u: Tree<Node>)
    returns (v: Node, k': nat)
    requires u.Branch? && u.node == p && u.right.Branch? && Distinct(u) && Nodes(u) <= ns && Linked(Snap(ns), u)
    requires pa.Length == da.Length && k + |RootShortPath(u)| <= pa.Length
    modifies pa, da, Nodes(u)
    ensures Linked(Snap(ns), UnlinkRoot(u)) && v == Root(UnlinkRoot(u))
    ensures Agree(old(Snap(ns)), Snap(ns), ns - Nodes(u))
    ensures k' == k + |RootShortPath(u)| && Promoted(pa[..], da[..], k, u)
    ensures pa[..k] == old(pa[..k]) && da[..k] == old(da[..k])
  {
    assert Snap(ns)[p] == p.Contents();
    var r := p.link1;
    assert Snap(ns)[r] == r.Contents();
    if r.link0 == null {
      PromoteNear(p, r, ns, u);
      v, k' := r, k + 1;
    } else {
      v, k' := PromoteDeep(p, r, pa, da, k, ns, u);
    }
    assert v == Least(u.right).0 && SpineStacked(pa[..], da[..], k + 1, u.right, |LeftSpine(u.right)|);
    PushTop(v, pa, da, k, u);
  }

  /** `da[k] = 1; pa[k] = v`, where the spine below is on the stack. */
  method PushTop(v: Node, pa: array<Node?>, da: array<bool>, k: nat, ghost u: Tree<Node>)
    requires pa.Length == da.Length && k < pa.Length && u.Branch? && u.right.Branch? && v == Least(u.right).0
    requires SpineStacked(pa[..], da[..], k + 1, u.right, |LeftSpine(u.right)|)
    modifies pa, da
    ensures Promoted(pa[..], da[..], k, u) && pa[..k] == old(pa[..k]) && da[..k] == old(da[..k])
  {
    PromotedPush(pa[..], da[..], k, u);
    da[k] := true;
    pa[k] := v;
  }

  method PromoteDeep(p: Node, r0: Node, pa: array<Node?>, da: array<bool>, j: nat, ghost ns: set<Node>,
                     ghost u: Tree<Node>)
    returns (s: Node, k: nat)
    requires u.Branch? && u.node == p && u.right.Branch? && u.right.node == r0 && u.right.left.Branch?
    requires Distinct(u) && Nodes(u) <= ns && Linked(Snap(ns), u)
    requires pa.Length == da.Length && j + |RootShortPath(u)| <= pa.Length
    modifies pa, da, Nodes(u)
    ensures Linked(Snap(ns), UnlinkRoot(u)) && s == Root(UnlinkRoot(u))
    ensures Agree(old(Snap(ns)), Snap(ns), ns - Nodes(u))
    ensures k == j + |RootShortPath(u)| && SpineStacked(pa[..], da[..], j + 1, u.right, |LeftSpine(u.right)|)
    ensures pa[..j] == old(pa[..j]) && da[..j] == old(da[..j])
  {
    ghost var pa0, da0 := pa[..], da[..];
    var r: Node;
    ghost var q: Path;
    r, s, k, q := FindHolder(r0, pa, da, j + 1, ns, u.right);
    Shorter(pa[..], pa0, j);
    Shorter(da[..], da0, j);
    assert {r, s} <= Nodes(u) by { PromoteRead(Snap(ns), u, q); }
    PromoteFar(p, r, s, ns, u, q);
  }

  lemma {:induction false} Shorter<T>(a: seq<T>, b: seq<T>, j: nat)
    requires j < |a| && j < |b| && a[..j + 1] == b[..j + 1]
    ensures a[..j] == b[..j]
  {
    assert a[..j] == a[..j + 1][..j] && b[..j] == b[..j + 1][..j];
  }

  /** The successor and its holder, which lies at `q` of the right subtree. */
  method FindHolder(r0: Node, pa: array<Node?>, da: array<bool>, k0: nat, ghost ns: set<Node>, ghost u: Tree<Node>)
    returns (r: Node, s: Node, k: nat, ghost q: Path)
    requires u.Branch? && u.left.Branch? && u.node == r0 && Nodes(u) <= ns && Linked(Snap(ns), u)
    requires pa.Length == da.Length && k0 + |LeftSpine(u)| <= pa.Length
    modifies pa, da
    ensures Snap(ns) == old(Snap(ns)) && k == k0 + |LeftSpine(u)|
    ensures LeftSpine(u) == q + [false] && On(u, q) && Sub(u, q).Branch? && Sub(u, q).node == r
    ensures Sub(u, q).left.Branch? && Sub(u, q).left.node == s
    ensures SpineStacked(pa[..], da[..], k0, u, |LeftSpine(u)|)
    ensures pa[..k0] == old(pa[..k0]) && da[..k0] == old(da[..k0])
  {
    SpineEnd(u);
    q := LeftSpine(u)[..|LeftSpine(u)| - 1];
    r, s, k := FindSuccessor(r0, pa, da, k0, ns, u);
  }

  lemma {:induction false} StackTop(pa: seq<Node?>, da: seq<bool>, t: Tree<Node>, path: Path)
    requires Stacked(pa, da, t, path) && path != []
    ensures var k := |path| - 1;
            && path == path[..k] + [path[k]] && da[k] == path[k]
            && On(t, path[..k]) && Sub(t, path[..k]).Branch? && pa[k] == Sub(t, path[..k]).node
            && Stacked(pa, da, t, path[..k])
  {
    var k := |path| - 1;
    OnPrefix(t, path, k);
    assert path == path[..k] + [path[k]];
    assert da[k] == da[..|path|][k];
    assert da[..k] == da[..|path|][..k];
    assert StackedAt(pa, t, path, k);
    forall i | 0 <= i < k ensures StackedAt(pa, t, path[..k], i) {
      assert path[..k][..i] == path[..i] && StackedAt(pa, t, path, i);
    }
  }

  /** The three cases of `avl_delete`: `v` is what takes the place of `p`. */
  method Succeed(p: Node, pa: array<Node?>, da: array<bool>, k: nat, ghost ns: set<Node>, ghost u: Tree<Node>)
    returns (v: Node?, k': nat)
    requires u.Branch? && u.node == p && Distinct(u) && Nodes(u) <= ns && Linked(Snap(ns), u)
    requires pa.Length == da.Length && k + |RootShortPath(u)| <= pa.Length
    modifies pa, da, Nodes(u)
    ensures Linked(Snap(ns), UnlinkRoot(u)) && v == Root(UnlinkRoot(u))
    ensures Agree(old(Snap(ns)), Snap(ns), ns - Nodes(u))
    ensures k' == k + |RootShortPath(u)| && (u.right.Branch? ==> Promoted(pa[..], da[..], k, u))
    ensures pa[..k] == old(pa[..k]) && da[..k] == old(da[..k])
  {
    assert Snap(ns)[p] == p.Contents();
    if p.link1 == null {
      v, k' := p.link0, k;
    } else {
      v, k' := Promote(p, pa, da, k, ns, u);
    }
  }

  /** Takes `p` out of the table; `pa[k - 1]->avl_link[da[k - 1]]` gets what takes its place. */
  method Unhook(p: Node, pa: array<Node?>, da: array<bool>, k: nat,
                ghost ns: set<Node>, ghost t: Tree<Node>, ghost path: Path, ghost u: Tree<Node>)
    returns (k': nat)
    requires Nodes(t) <= ns && Distinct(t) && Linked(Snap(ns), t)
    requires pa.Length == da.Length && Stacked(pa[..], da[..], t, path) && path != [] && k == |path|
    requires Sub(t, path) == u && u.Branch? && u.node == p && |path| + |RootShortPath(u)| <= pa.Length
    modifies pa, da, Nodes(t)
    ensures Linked(Snap(ns), Replace(t, path, UnlinkRoot(u)))
    ensures k' == |path + RootShortPath(u)|
    ensures Stacked(pa[..], da[..], Replace(t, path, UnlinkRoot(u)), path + RootShortPath(u))
  {
    ghost var m, zp, d := Snap(ns), path[..k - 1], path[k - 1];
    assert path == zp + [d] && da[k - 1] == d && On(t, zp) && Sub(t, zp).Branch? && pa[k - 1] == Sub(t, zp).node by {
      StackTop(pa[..], da[..], t, path);
    }
    assert pa[k - 1] in Nodes(t) && Nodes(u) <= Nodes(t) && Distinct(u) && Linked(m, u) by {
      HolderSide(m, t, zp, d);
    }
    ghost var pa0, da0 := pa[..], da[..];
    var v: Node?;
    v, k' := Succeed(p, pa, da, k, ns, u);
    ghost var m' := Snap(ns);
    assert pa[k - 1] == pa[..k][k - 1] && da[k - 1] == da[..k][k - 1];
    var z := pa[k - 1];
    Hang(z, da[k - 1], v, ns);
    assert Linked(Snap(ns), Replace(t, path, UnlinkRoot(u))) by {
      UnlinkRootNodes(u);
      RehungLinked(m, m', t, zp, d, UnlinkRoot(u));
    }
    assert Stacked(pa[..], da[..], Replace(t, path, UnlinkRoot(u)), path + RootShortPath(u)) by {
      StackedUnlinked(pa0, da0, pa[..], da[..], t, path, u);
    }
  }

  // ---- the climb ----

  /** `y->avl_balance++` or `--`: link `d` of `y` got shorter. */
  method Shift(y: Node, d: bool, ghost ns: set<Node>, ghost u: Tree<Node>)
    requires u.Branch? && u.node == y && Distinct(u) && Nodes(u) <= ns && Linked(Snap(ns), u)
    modifies y
    ensures Linked(Snap(ns), u.(balance := u.balance - Sgn(d))) && y.balance == u.balance - Sgn(d)
    ensures Agree(old(Snap(ns)), Snap(ns), ns - {y})
  {
    ghost var m := Snap(ns);
    assert m[y] == y.Contents();
    if d {
      y.balance := y.balance - 1;
    } else {
      y.balance := y.balance + 1;
    }
    LinkedAgree(m, Snap(ns), u.left);
    LinkedAgree(m, Snap(ns), u.right);
  }

  /** The rotation at `y` when its other side `e` is two levels too high. */
  method Tilt(y: Node, e: bool, ghost ns: set<Node>, ghost u: Tree<Node>) returns (w: Node, shorter: bool)
    requires u.Branch? && u.node == y && Child(u, e).Branch?
    requires Child(u, e).balance == -Sgn(e) ==> Child(Child(u, e), !e).Branch?
    requires Distinct(u) && Nodes(u) <= ns && Linked(Snap(ns), u)
    modifies Nodes(u)
    ensures var v := if Child(u, e).balance == -Sgn(e) then DoubleAt(e, u)
                     else if Child(u, e).balance == 0 then SingleAt(e, u, -Sgn(e), Sgn(e))
                     else SingleAt(e, u, 0, 0);
            Linked(Snap(ns), v) && w == Root(v) && Nodes(v) == Nodes(u)
    ensures shorter <==> Child(u, e).balance != 0
    ensures Agree(old(Snap(ns)), Snap(ns), ns - Nodes(u))
  {
    ghost var m := Snap(ns);
    SingleApart(u, e);
    LinkedChild(m, u, e);
    LinkedChild(m, Child(u, e), e);
    var x := y.Link(e);
    assert m[x] == x.Contents();
    var tilt := if e then 1 else -1;
    if x.balance == -tilt {
      DoubleApart(u, e);
      DoubleNodes(e, u);
      w := RotateTwice(y, e, ns, u);
      shorter := true;
    } else if x.balance == 0 {
      SingleNodes(e, u, -tilt, tilt);
      w := RotateOnce(y, e, -tilt, tilt, ns, u);
      shorter := false;
    } else {
      SingleNodes(e, u, 0, 0);
      w := RotateOnce(y, e, 0, 0, ns, u);
      shorter := true;
    }
  }

  /** One turn of the climb at `y`, up to re-hanging a rotated subtree. */
  method SettleNode(y: Node, d: bool, ghost ns: set<Node>, ghost u: Tree<Node>)
    returns (w: Node, rotated: bool, shorter: bool)
    requires u.Branch? && u.node == y && CanSettle(d, u)
    requires Distinct(u) && Nodes(u) <= ns && Linked(Snap(ns), u)
    modifies Nodes(u)
    ensures var (v, sh) := Settle(d, u);
            Linked(Snap(ns), v) && w == Root(v) && Nodes(v) == Nodes(u) && shorter == sh
    ensures !rotated ==> w == y
    ensures Agree(old(Snap(ns)), Snap(ns), ns - Nodes(u))
  {
    Shift(y, d, ns, u);
    ghost var u' := u.(balance := u.balance - Sgn(d));
    w, rotated := y, false;
    if d == false {
      if y.balance == 1 {
        shorter := false;
      } else if y.balance == 2 {
        w, shorter := Tilt(y, true, ns, u');
        rotated := true;
      } else {
        shorter := true;
      }
    } else {
      if y.balance == -1 {
        shorter := false;
      } else if y.balance == -2 {
        w, shorter := Tilt(y, false, ns, u');
        rotated := true;
      } else {
        shorter := true;
      }
    }
  }

  lemma {:induction false} JoinDistinct(d: bool, near: Tree<Node>, n: Node, x: Item, b: int, far: Tree<Node>)
    requires Distinct(near) && Distinct(far) && Nodes(near) !! Nodes(far) && n !in Nodes(near) && n !in Nodes(far)
    ensures Distinct(Join(d, near, n, x, b, far))
    ensures Nodes(Join(d, near, n, x, b, far)) == Nodes(near) + {n} + Nodes(far)
  {
  }

  lemma {:induction false} SingleDistinct(d: bool, t: Tree<Node>, ub: int, vb: int)
    requires t.Branch? && Child(t, d).Branch? && Distinct(t)
    ensures Distinct(SingleAt(d, t, ub, vb))
  {
    var x := Child(t, d);
    DistinctChild(t, d);
    DistinctChild(x, d);
    JoinDistinct(d, Child(x, !d), t.node, t.item, vb, Child(t, !d));
    JoinDistinct(d, Child(x, d), x.node, x.item, ub, Join(d, Child(x, !d), t.node, t.item, vb, Child(t, !d)));
  }

  lemma {:induction false} DoubleDistinct(d: bool, t: Tree<Node>)
    requires t.Branch? && Child(t, d).Branch? && Child(Child(t, d), !d).Branch? && Distinct(t)
    ensures Distinct(DoubleAt(d, t))
  {
    var x := Child(t, d);
    var w := Child(x, !d);
    var a, b := Child(DoubleAt(d, t), d), Child(DoubleAt(d, t), !d);
    DistinctChild(t, d);
    DistinctChild(x, d);
    DistinctChild(w, d);
    JoinDistinct(d, Child(x, d), x.node, x.item, a.balance, Child(w, d));
    JoinDistinct(d, Child(w, !d), t.node, t.item, b.balance, Child(t, !d));
    JoinDistinct(d, a, w.node, w.item, 0, b);
  }

  lemma {:induction false} SettleDistinct(d: bool, t: Tree<Node>)
    requires CanSettle(d, t) && Distinct(t)
    ensures Distinct(Settle(d, t).0)
  {
    if t.balance == -Sgn(d) {
      if Child(t, !d).balance == Sgn(d) { DoubleDistinct(!d, t); }
      else if Child(t, !d).balance == 0 { SingleDistinct(!d, t, Sgn(d), -Sgn(d)); }
      else { SingleDistinct(!d, t, 0, 0); }
    }
  }

  /** One turn of the climb at `y`, whose holder is `h`. */
  method SettleAt(y: Node, h: Node, hd: bool, d: bool, ghost ns: set<Node>, ghost t: Tree<Node>, ghost hp: Path,
                  ghost u: Tree<Node>)
    returns (shorter: bool)
    requires Nodes(t) <= ns && Distinct(t) && Linked(Snap(ns), t)
    requires On(t, hp) && Sub(t, hp).Branch? && Sub(t, hp).node == h
    requires On(t, hp + [hd]) && Sub(t, hp + [hd]) == u && u.Branch? && u.node == y && CanSettle(d, u)
    modifies Nodes(t)
    ensures Linked(Snap(ns), Replace(t, hp + [hd], Settle(d, u).0)) && shorter == Settle(d, u).1
    ensures Nodes(Settle(d, u).0) == Nodes(u)
  {
    ghost var m := Snap(ns);
    assert h in ns && h in Nodes(t) && h !in Nodes(u) && Nodes(u) <= Nodes(t) && Distinct(u) && Linked(m, u) by {
      HolderSide(m, t, hp, hd);
    }
    var w: Node, rotated: bool;
    w, rotated, shorter := SettleNode(y, d, ns, u);
    ghost var m' := Snap(ns);
    if rotated {
      Hang(h, hd, w, ns);
      RehungLinked(m, m', t, hp, hd, Settle(d, u).0);
    } else {
      LinkedReplace(m, m', t, hp + [hd], Settle(d, u).0);
    }
  }

  /** A stack below position `k` is not disturbed by what is replaced there. */
  lemma {:induction false} StackedReplace(pa: seq<Node?>, da: seq<bool>, t: Tree<Node>, path: Path, s: Tree<Node>)
    requires Stacked(pa, da, t, path)
    ensures On(t, path) && Stacked(pa, da, Replace(t, path, s), path)
  {
    SubReplace(t, path, s);
    var t' := Replace(t, path, s);
    forall i | 0 <= i < |path| ensures StackedAt(pa, t', path, i) {
      assert StackedAt(pa, t, path, i);
      RootKept(t, path, i, s);
    }
  }

  /** The climb's invariant: the links `path` are on the stack, the tree below the header is
      short exactly at their end, and finishing the climb gives `goal`. */
  ghost predicate Climbing(pa: seq<Node?>, da: seq<bool>, t: Tree<Node>, path: Path, goal: Tree<Node>) {
    && t.Branch? && path != [] && path[0] == false
    && Stacked(pa, da, t, path)
    && Short(t.left, path[1..]) && Climb(t.left, path[1..]).0 == goal
  }

  lemma {:induction false} ClimbOnce(pa: seq<Node?>, da: seq<bool>, t: Tree<Node>, path: Path, goal: Tree<Node>)
    requires Climbing(pa, da, t, path, goal) && |path| > 1
    ensures var k := |path| - 1;
            && On(t, path[..k]) && Sub(t, path[..k]).Branch? && CanSettle(path[k], Sub(t, path[..k]))
            && var (s, shorter) := Settle(path[k], Sub(t, path[..k]));
               && Replace(t, path[..k], s) == t.(left := Replace(t, path[..k], s).left)
               && (shorter ==> Climbing(pa, da, Replace(t, path[..k], s), path[..k], goal))
               && (!shorter ==> Replace(t, path[..k], s).left == goal)
  {
    var k := |path| - 1;
    StackTop(pa, da, t, path);
    var p, d := path[1..k], path[k];
    assert path[1..] == p + [d];
    ClimbTurn(t.left, p, d);
    assert path[..k] == [false] + p;
    UnderHeader(t, p);
    StackedReplace(pa, da, t, path[..k], Settle(d, Sub(t, path[..k])).0);
  }

  /** One turn of the climb at stack entry `k`. */
  method TurnAt(pa: array<Node?>, da: array<bool>, k: nat,
                ghost ns: set<Node>, ghost t: Tree<Node>, ghost path: Path, ghost goal: Tree<Node>)
    returns (shorter: bool, ghost t': Tree<Node>)
    requires Nodes(t) <= ns && Distinct(t) && Linked(Snap(ns), t)
    requires 0 < k == |path| - 1 && Climbing(pa[..], da[..], t, path, goal)
    modifies Nodes(t)
    ensures Nodes(t') == Nodes(t) && Distinct(t') && Linked(Snap(ns), t')
    ensures t'.Branch? && t' == t.(left := t'.left)
    ensures shorter ==> Climbing(pa[..], da[..], t', path[..k], goal)
    ensures !shorter ==> t'.left == goal
  {
    ClimbOnce(pa[..], da[..], t, path, goal);
    ghost var u, d, hp := Sub(t, path[..k]), path[k], path[..k][..k - 1];
    assert da[k] == d && path[..k] == hp + [da[k - 1]] && pa[k] == u.node
        && On(t, hp) && Sub(t, hp).Branch? && pa[k - 1] == Sub(t, hp).node by {
      StackTop(pa[..], da[..], t, path);
      StackTop(pa[..], da[..], t, path[..k]);
    }
    shorter := SettleAt(pa[k], pa[k - 1], da[k - 1], da[k], ns, t, hp, u);
    t' := Replace(t, path[..k], Settle(d, u).0);
    assert Nodes(t') == Nodes(t) && Distinct(t') by {
      SubNodes(t, path[..k]);
      SettleDistinct(d, u);
      ReplaceNodes(t, path[..k], Settle(d, u).0);
    }
  }

  /** `while (--k > 0)`: repairs upward from the stack and stops at the first `break`. */
  method ClimbUp(pa: array<Node?>, da: array<bool>, k0: nat,
                 ghost ns: set<Node>, ghost t: Tree<Node>, ghost path: Path, ghost goal: Tree<Node>)
    requires Nodes(t) <= ns && Distinct(t) && Linked(Snap(ns), t)
    requires k0 == |path| && Climbing(pa[..], da[..], t, path, goal)
    modifies Nodes(t)
    ensures Linked(Snap(ns), t.(left := goal))
  {
    var k := k0;
    ghost var cur, rest := t, path;
    while k > 1
      invariant k == |rest| && Climbing(pa[..], da[..], cur, rest, goal)
      invariant Distinct(cur) && Nodes(cur) == Nodes(t) && cur == t.(left := cur.left) && Linked(Snap(ns), cur)
    {
      k := k - 1;
      var shorter;
      shorter, cur := TurnAt(pa, da, k, ns, cur, rest, goal);
      if !shorter {
        return;
      }
      rest := rest[..k];
    }
    assert rest[1..] == [];
  }

  /** Unlinking the node found leaves the climb's invariant, with textbook deletion as goal. */
  lemma {:induction false} UnlinkedClimbing(cmp: Comparison, t: Tree<Node>, x: Item, pa: seq<Node?>, da: seq<bool>)
    requires t.Branch? && Distinct(t) && Avl(t.left) && Lookup(cmp, t.left, x).Branch?
    requires var path, u := [false] + SearchPath(cmp, t.left, x), Lookup(cmp, t.left, x);
             On(t, path) && Stacked(pa, da, Replace(t, path, UnlinkRoot(u)), path + RootShortPath(u))
    ensures var path, u := [false] + SearchPath(cmp, t.left, x), Lookup(cmp, t.left, x);
            var t' := Replace(t, path, UnlinkRoot(u));
            && t'.Branch? && t' == t.(left := t'.left) && Distinct(t') && Nodes(t') <= Nodes(t)
            && Climbing(pa, da, t', path + RootShortPath(u), Delete(cmp, t.left, x))
  {
    var sp, u := SearchPath(cmp, t.left, x), Lookup(cmp, t.left, x);
    var path, q := [false] + sp, [false] + sp + RootShortPath(u);
    UnlinkAt(cmp, t.left, x);
    UnderHeader(t, sp);
    var t' := Replace(t, path, UnlinkRoot(u));
    assert Distinct(t') && Nodes(t') <= Nodes(t) by {
      SubNodes(t, path);
      UnlinkRootNodes(u);
      ReplaceNodes(t, path, UnlinkRoot(u));
    }
    assert q[1..] == sp + RootShortPath(u);
    assert Short(t'.left, q[1..]) && Climb(t'.left, q[1..]).0 == Delete(cmp, t.left, x) by {
      ClimbDelete(cmp, t.left, x);
    }
  }

  /** `avl_delete` once the descent has found `p`. */
  method RemoveFound(p: Node, pa: array<Node?>, da: array<bool>, k: nat, compare: Comparison, ghost x: Item,
                     ghost ns: set<Node>, ghost t: Tree<Node>)
    requires t.Branch? && Distinct(t) && Avl(t.left) && Nodes(t) <= ns && Linked(Snap(ns), t)
    requires var path, u := [false] + SearchPath(compare, t.left, x), Lookup(compare, t.left, x);
             && u.Branch? && u.node == p && On(t, path) && Sub(t, path) == u
             && k == |path| && pa.Length == da.Length && |path| + |RootShortPath(u)| <= pa.Length
             && Stacked(pa[..], da[..], t, path)
    modifies pa, da, Nodes(t)
    ensures Linked(Snap(ns), t.(left := Delete(compare, t.left, x)))
  {
    ghost var path, u := [false] + SearchPath(compare, t.left, x), Lookup(compare, t.left, x);
    var k' := Unhook(p, pa, da, k, ns, t, path, u);
    UnlinkedClimbing(compare, t, x, pa[..], da[..]);
    ClimbUp(pa, da, k', ns, Replace(t, path, UnlinkRoot(u)), path + RootShortPath(u), Delete(compare, t.left, x));
  }
}
