/** `avl_find`, `avl_probe` and `avl_delete` on a table of linked nodes. */
module AvlTable {
  import opened AvlTree
  import opened AvlSteps
  import opened AvlNodes
  import opened AvlProbe
  import opened AvlDelete

  /** Unsigned 32-bit increment. */
  function NextGeneration(g: nat): (r: nat)
    ensures r != g && (r == g + 1 || r == 0)
  {
    if g + 1 < 0x1_0000_0000 then g + 1 else 0
  }

  class Table {
    /** Stands for `(struct avl_node *) &tree->avl_root`: its link 0 is the root. */
    const header: Node
    const compare: Comparison
    var count: nat
    var generation: nat
    ghost var tree: Tree<Node>

    ghost function All(): set<Node>
      reads this
    {
      Nodes(tree) + {header}
    }

    /** The table's tree hung under its header. */
    ghost function Full(): Tree<Node>
      reads this, header
    {
      Branch(tree, header, header.data, header.balance, Leaf)
    }

    ghost predicate Valid()
      reads this, All()
    {
      && TotalOrder(compare) && WellFormed(compare, tree) && count == Size(tree)
      && header !in Nodes(tree)
      && Linked(Snap(All()), Full())
    }

    constructor (cmp: Comparison, sentinel: Node)
      requires TotalOrder(cmp)
      modifies sentinel
      ensures Valid() && tree == Leaf && count == 0 && compare == cmp && header == sentinel
      ensures generation == 0
    {
      header, compare, count, generation, tree := sentinel, cmp, 0, 0, Leaf;
      new;
      sentinel.link0, sentinel.link1 := null, null;
    }

    /** The node that holds an item equal to `x`, or null, in no more steps than the height. */
    method Find(x: Item) returns (p: Node?, ghost steps: nat)
      requires Valid()
      ensures p == Root(Lookup(compare, tree, x))
      ensures p == null <==> forall e :: e in Flat(tree) ==> compare(x, e.item) != 0
      ensures p != null ==> p in Nodes(tree) && compare(x, p.data) == 0
      ensures steps <= Height(tree)
    {
      ghost var m, pos := Snap(All()), [];
      LookupComplete(compare, tree, x);
      p := header.link0;
      steps := 0;
      while p != null
        invariant On(tree, pos) && p == Root(Sub(tree, pos))
        invariant Lookup(compare, tree, x) == Lookup(compare, Sub(tree, pos), x)
        invariant |pos| == steps && steps + Height(Sub(tree, pos)) <= Height(tree)
        decreases Height(tree) - steps
      {
        NodeAt(m, tree, pos);
        var cmp := compare(x, p.data);
        if cmp == 0 {
          return;
        }
        StepDown(tree, pos, cmp > 0);
        p := p.Link(cmp > 0);
        pos, steps := pos + [cmp > 0], steps + 1;
      }
    }

    /** The table read as one store that also has `ns`. */
    lemma {:induction false} ValidStore(ns: set<Node>)
      requires Valid() && All() <= ns
      ensures Linked(Snap(ns), Full()) && Linked(Snap(ns), tree)
    {
      LinkedAgree(Snap(All()), Snap(ns), Full());
    }

    lemma {:induction false} Revalidate(ns: set<Node>, full: Tree<Node>)
      requires TotalOrder(compare) && WellFormed(compare, tree) && count == Size(tree) && header !in Nodes(tree)
      requires full.Branch? && full.left == tree && full.node == header && full.right.Leaf?
      requires All() <= ns && Linked(Snap(ns), full)
      ensures Valid()
    {
      assert Snap(ns)[header] == header.Contents();
      LinkedAgree(Snap(ns), Snap(All()), full);
    }

    /** Counts the new node, and the generation if the table was rotated. */
    method Record(rotated: bool, ghost ns: set<Node>, ghost full: Tree<Node>)
      requires TotalOrder(compare) && full.Branch? && full.node == header && full.right.Leaf?
      requires WellFormed(compare, full.left) && Size(full.left) == count + 1
      requires header !in Nodes(full.left) && Nodes(full.left) + {header} == ns && Linked(Snap(ns), full)
      modifies this`count, this`generation, this`tree
      ensures Valid() && tree == full.left && count == old(count) + 1
      ensures generation == if rotated then NextGeneration(old(generation)) else old(generation)
    {
      count := count + 1;
      if rotated {
        generation := NextGeneration(generation);
      }
      tree := full.left;
      Revalidate(ns, full);
    }

    /** `avl_probe`: the node that already holds an equal item, with nothing changed; or
        `item` itself, with the table what textbook insertion gives. The generation number
        steps exactly when that insertion rotates. */
    method Probe(item: Node) returns (slot: Node)
      requires Valid() && item != header && Cached(compare, tree, item.data, 0) <= AVL_MAX_HEIGHT
      modifies this`count, this`generation, this`tree, All(), item
      ensures Valid()
      ensures old(Lookup(compare, tree, item.data)).Branch? ==>
                && slot == old(Lookup(compare, tree, item.data)).node
                && tree == old(tree) && count == old(count) && generation == old(generation)
                && Snap(All()) == old(Snap(All())) && item.Contents() == old(item.Contents())
      ensures old(Lookup(compare, tree, item.data)).Leaf? ==>
                && slot == item && item !in old(Nodes(tree))
                && tree == Insert(compare, old(tree), item, item.data)
                && Nodes(tree) == old(Nodes(tree)) + {item} && count == old(count) + 1
      ensures old(Lookup(compare, tree, item.data)).Leaf? ==>
                generation == if Rotates(compare, old(tree), item, item.data) then NextGeneration(old(generation))
                              else old(generation)
      ensures generation != old(generation) <==>
                old(Lookup(compare, tree, item.data)).Leaf? && Rotates(compare, old(tree), item, item.data)
    {
      var da := new bool[AVL_MAX_HEIGHT];
      ghost var ns, full := All() + {item}, Full();
      ValidStore(ns);
      assert Nodes(full) == All();
      var s, k, pos, top := Descend(compare, header, item.data, da, ns, tree);
      if s.p != null {
        assert Snap(ns)[item] == item.Contents();
        assert Snap(All()) == map n | n in All() :: Snap(ns)[n];
        Revalidate(ns, full);
        return s.p;
      }
      slot := item;
      Add(item, s, da, pos, top);
    }

    /** `avl_probe` once the descent has ended at an empty link. */
    method Add(item: Node, s: Descent, da: array<bool>, ghost pos: Path, ghost top: nat)
      requires Valid() && item != header && Lookup(compare, tree, item.data).Leaf?
      requires At(compare, header, tree, item.data, pos, top, s) && s.p == null
      requires |pos| - top <= da.Length && da[..|pos| - top] == pos[top..]
      modifies this`count, this`generation, this`tree, All(), item
      ensures Valid() && item !in old(Nodes(tree)) && tree == Insert(compare, old(tree), item, item.data)
      ensures Nodes(tree) == old(Nodes(tree)) + {item} && count == old(count) + 1
      ensures generation == if Rotates(compare, old(tree), item, item.data) then NextGeneration(old(generation))
                            else old(generation)
    {
      ghost var ns, full := All() + {item}, Full();
      ValidStore(ns);
      assert Nodes(full) == All();
      var rotated := InsertNew(header, item, s, da, compare, ns, full, pos, top);
      Record(rotated, ns, full.(left := Insert(compare, full.left, item, item.data)));
    }

    /** Counts the node out; every deletion steps the generation. */
    method Forget(ghost ns: set<Node>, ghost full: Tree<Node>, ghost x: Item)
      requires full.Branch? && full.node == header && full.right.Leaf? && header !in Nodes(full.left)
      requires TotalOrder(compare) && WellFormed(compare, full.left) && Lookup(compare, full.left, x).Branch?
      requires count == Size(full.left) && Nodes(full.left) + {header} == ns
      requires Linked(Snap(ns), full.(left := AvlTree.Delete(compare, full.left, x)))
      modifies this`count, this`generation, this`tree
      ensures Valid() && tree == AvlTree.Delete(compare, full.left, x)
      ensures Nodes(tree) == Nodes(full.left) - {Lookup(compare, full.left, x).node}
      ensures Lookup(compare, full.left, x).node in Nodes(full.left)
      ensures count == old(count) - 1 && generation == NextGeneration(old(generation))
    {
      DeleteWellFormed(compare, full.left, x);
      count := count - 1;
      generation := NextGeneration(generation);
      tree := AvlTree.Delete(compare, full.left, x);
      Revalidate(ns, full.(left := tree));
    }

    /** `avl_delete`: null with nothing changed when no item equals `x`; otherwise the node
        that held it, with the table what textbook deletion gives. The stacks must have room
        for the header and every node passed. */
    method Delete(x: Item) returns (p: Node?)
      requires Valid() && StackUse(compare, tree, x) <= AVL_MAX_HEIGHT
      modifies this`count, this`generation, this`tree, All()
      ensures Valid()
      ensures p == Root(old(Lookup(compare, tree, x)))
      ensures p == null ==>
                && tree == old(tree) && count == old(count) && generation == old(generation)
                && Snap(All()) == old(Snap(All()))
      ensures p != null ==>
                && p in old(Nodes(tree)) && tree == AvlTree.Delete(compare, old(tree), x)
                && Nodes(tree) == old(Nodes(tree)) - {p} && count == old(count) - 1
                && generation == NextGeneration(old(generation))
    {
      var pa, da := new Node?[AVL_MAX_HEIGHT], new bool[AVL_MAX_HEIGHT];
      ghost var ns, full := All(), Full();
      assert Nodes(full) == ns;
      var k;
      p, k := Trace(compare, header, x, pa, da, ns, full);
      if p == null {
        Revalidate(ns, full);
        return;
      }
      RemoveFound(p, pa, da, k, compare, x, ns, full);
      Forget(ns, full, x);
    }
  }
}
