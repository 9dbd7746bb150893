/** `mm_malloc`, `mm_bestfit` and `mm_free` over a chain of pools that share one memory. */
module PoolHeap {
  import opened PoolList
  import opened PoolMemory

  /** What freeing block `i` can read: its own header and up to two on the right, one on the left. */
  ghost predicate Around(m: Memory, s: seq<Block>, i: nat) {
    && i < |s| && HeldAt(m, s, i) && s[i].addr != NULL
    && (i > 0 ==> HeldAt(m, s, i - 1) && s[i - 1].addr != NULL && s[i - 1].addr != s[i].addr)
    && (i + 1 < |s| ==> HeldAt(m, s, i + 1) && s[i + 1].addr != NULL && s[i + 1].addr != s[i].addr)
    && (i + 2 < |s| ==>
          && HeldAt(m, s, i + 2) && s[i + 2].addr != NULL
          && s[i + 2].addr != s[i + 1].addr && s[i + 2].addr != s[i].addr)
    && (0 < i && i + 1 < |s| ==> s[i + 1].addr != s[i - 1].addr)
    && (0 < i && i + 2 < |s| ==> s[i + 2].addr != s[i - 1].addr)
  }

  lemma {:induction false} AroundHolds(m: Memory, s: seq<Block>, i: nat, base: int, end: int)
    requires 0 < base && Tiles(s, base, end) && Held(m, s) && i < |s|
    ensures Around(m, s, i)
  {
    StartsAfter(s, base, end, i);
    if i > 0 { StartsAfter(s, base, end, i - 1); Ordered(s, base, end, i - 1, i); }
    if i + 1 < |s| { StartsAfter(s, base, end, i + 1); Ordered(s, base, end, i, i + 1); }
    if i + 2 < |s| {
      StartsAfter(s, base, end, i + 2);
      Ordered(s, base, end, i + 1, i + 2);
      Ordered(s, base, end, i, i + 2);
    }
    if 0 < i && i + 1 < |s| { Ordered(s, base, end, i - 1, i + 1); }
    if 0 < i && i + 2 < |s| { Ordered(s, base, end, i - 1, i + 2); }
  }

  /** Both neighbours idle and a block beyond: the branch at mm/mm.c:91-98. */
  ghost predicate Pinched(s: seq<Block>, i: nat) {
    0 < i && i + 2 < |s| && !s[i - 1].busy && !s[i + 1].busy
  }

  /** Only headers with these addresses differ. */
  ghost predicate Touches(m: Memory, m': Memory, as': set<int>) {
    forall a :: a !in as' ==> Same(m, m', a)
  }

  ghost function Segment(s: seq<Block>, lo: nat, hi: nat): set<int> {
    set k | lo <= k <= hi && k < |s| :: s[k].addr
  }

  /** What the branches of `mm_free` write for block `i`. */
  ghost predicate FreeEffect(m: Memory, m': Memory, s: seq<Block>, i: nat, relink: bool)
    requires i < |s|
  {
    var lo, hi := LeftOf(s, i), RightOf(s, i);
    && Touches(m, m', Segment(s, lo, hi))
    && s[lo].addr in m'
    && m'[s[lo].addr] == Header(s[lo].addr + HDR, MergedBlock(s, i).size, false, Before(s, lo), After(s, hi - 1))
    && (hi < |s| ==>
          && s[hi].addr in m'
          && m'[s[hi].addr] == if Pinched(s, i) && !relink then HeaderOf(s, hi)
                               else HeaderOf(s, hi).(pre := s[lo].addr))
  }

  lemma {:induction false} EffectOutside(m: Memory, m': Memory, s: seq<Block>, i: nat, relink: bool, base: int,
                                         end: int)
    requires Tiles(s, base, end) && i < |s| && FreeEffect(m, m', s, i, relink)
    ensures Outside(m, m', base, end)
  {
    var lo, hi := LeftOf(s, i), RightOf(s, i);
    forall a | a in m && !(base <= a < end) ensures a in m' && m'[a] == m[a] {
      forall j | lo <= j <= hi && j < |s| ensures s[j].addr != a {
        StartsAfter(s, base, end, j);
        EndsBefore(s, base, end, j);
      }
      assert Same(m, m', a);
    }
  }

  lemma {:induction false} EffectMerges(m: Memory, m': Memory, s: seq<Block>, i: nat, relink: bool, base: int, end: int)
    requires Tiles(s, base, end) && i < |s| && FreeEffect(m, m', s, i, relink) && (relink || !Pinched(s, i))
    ensures Merges(m, m', s, i)
  {
    var lo, hi := LeftOf(s, i), RightOf(s, i);
    forall k | 0 <= k < |s| && (k < lo || k > hi) ensures Same(m, m', s[k].addr) {
      forall j | lo <= j <= hi && j < |s| ensures s[j].addr != s[k].addr { AddrsDiffer(s, base, end, j, k); }
    }
  }

  /** The link that line 97 leaves stale, written. */
  ghost function Mended(m: Memory, s: seq<Block>, i: nat): Memory
    requires Pinched(s, i) && s[i + 2].addr in m
  {
    m[s[i + 2].addr := m[s[i + 2].addr].(pre := s[i - 1].addr)]
  }

  /** A header that links back to a block no longer in the list is not what the list records. */
  lemma {:induction false} StaleNotHeld(m: Memory, s: seq<Block>, i: nat, base: int, end: int)
    requires Tiles(s, base, end) && Separated(s) && Pinched(s, i)
    requires s[i + 2].addr in m && m[s[i + 2].addr].pre == s[i + 1].addr
    ensures !Held(m, Freed(s, i))
  {
    FreedIsLocal(s, i);
    var t := Freed(s, i);
    assert t[i] == s[i + 2] && t[i - 1] == MergedBlock(s, i);
    AddrsDiffer(s, base, end, i - 1, i + 1);
    assert !HeldAt(m, t, i);
  }

  /** With the link written, the list is recorded; as written, it is one link short exactly
      when the block is pinched. */
  lemma {:induction false} EffectHeld(m: Memory, m': Memory, s: seq<Block>, i: nat, relink: bool, base: int, end: int)
    requires Wellformed(s, base, end) && Held(m, s) && i < |s| && FreeEffect(m, m', s, i, relink)
    ensures Held(m', Freed(s, i)) <==> relink || !Pinched(s, i)
    ensures Pinched(s, i) && !relink ==>
              s[i + 2].addr in m' && m'[s[i + 2].addr].pre == s[i + 1].addr && Held(Mended(m', s, i), Freed(s, i))
  {
    if relink || !Pinched(s, i) {
      EffectMerges(m, m', s, i, relink, base, end);
      MergesHeld(m, m', s, i);
    } else {
      StaleNotHeld(m', s, i, base, end);
      var m2 := Mended(m', s, i);
      AddrsDiffer(s, base, end, i - 1, i + 2);
      assert FreeEffect(m, m2, s, i, true);
      EffectMerges(m, m2, s, i, true, base, end);
      MergesHeld(m, m2, s, i);
    }
  }

  /** The candidate after looking at the first `k` blocks: the first of the smallest that fit. */
  ghost predicate BestSoFar(s: seq<Block>, size: int, k: nat, best: int, b: nat) {
    && k <= |s|
    && if best == NULL then forall j :: 0 <= j < k ==> !Fits(s[j], size)
       else
         && b < k && best == s[b].addr && Fits(s[b], size)
         && (forall j :: 0 <= j < k && Fits(s[j], size) ==> s[b].size <= s[j].size)
         && (forall j :: 0 <= j < b && Fits(s[j], size) ==> s[b].size < s[j].size)
  }

  ghost predicate Found(s: seq<Block>, size: int, best: int, b: nat) {
    && (best == NULL <==> forall i :: 0 <= i < |s| ==> !Fits(s[i], size))
    && (best != NULL ==> Best(s, size, b) && best == s[b].addr)
  }

  lemma {:induction false} FoundAtEnd(s: seq<Block>, size: int, best: int, b: nat)
    requires s != [] && (BestSoFar(s, size, |s| - 1, best, b) || BestSoFar(s, size, |s|, best, b))
    requires !Fits(s[|s| - 1], size)
    ensures Found(s, size, best, b)
  {
  }

  lemma {:induction false} CarveDistinct(s: seq<Block>, i: nat, size: int, base: int, end: int)
    requires Tiles(s, base, end) && i < |s| && Fits(s[i], size) && size >= 0
    ensures s[i].addr + HDR + size != s[i].addr
    ensures i + 1 < |s| ==> s[i + 1].addr != s[i].addr && s[i + 1].addr != s[i].addr + HDR + size
  {
    if i + 1 < |s| { Ordered(s, base, end, i, i + 1); }
  }

  class Heap {
    var mem: Memory

    constructor ()
      ensures mem == map[]
    {
      mem := map[];
    }

    /** busy <--> this <--> busy, or this first */
    method FreeAlone(a: int, ghost s: seq<Block>, ghost i: nat) returns (gain: int)
      requires Around(mem, s, i) && s[i].addr == a && LeftOf(s, i) == i && RightOf(s, i) == i + 1
      modifies this`mem
      ensures a in mem && mem[a] == Header(a + HDR, s[i].size, false, Before(s, i), After(s, i))
      ensures i + 1 < |s| ==> s[i + 1].addr in mem && mem[s[i + 1].addr] == HeaderOf(s, i + 1)
      ensures Touches(old(mem), mem, {a}) && gain == s[i].size
    {
      mem := mem[a := mem[a].(busy := false)];
      gain := mem[a].thissize;
    }

    /** idle <--> this <--> busy */
    method FreeLeft(a: int, ghost s: seq<Block>, ghost i: nat) returns (gain: int)
      requires Around(mem, s, i) && s[i].addr == a && 0 < i && i + 1 < |s| && !s[i - 1].busy && s[i + 1].busy
      modifies this`mem
      ensures var b, c := s[i - 1].addr, s[i + 1].addr;
              && b in mem && mem[b] == Header(b + HDR, s[i - 1].size + s[i].size + HDR, false, Before(s, i - 1), c)
              && c in mem && mem[c] == HeaderOf(s, i + 1).(pre := b)
              && Touches(old(mem), mem, {a, b, c})
      ensures gain == s[i].size + HDR
    {
      var p := mem[a];
      gain := p.thissize + HDR;
      mem := mem[p.pre := mem[p.pre].(next := p.next)];
      mem := mem[p.next := mem[p.next].(pre := p.pre)];
      mem := mem[p.pre := mem[p.pre].(busy := false)];
      mem := mem[p.pre := mem[p.pre].(thissize := mem[p.pre].thissize + p.thissize + HDR)];
    }

    /** this <--> idle, with a busy block or nothing before */
    method FreeRight(a: int, ghost s: seq<Block>, ghost i: nat) returns (gain: int)
      requires Around(mem, s, i) && s[i].addr == a && i + 1 < |s| && !s[i + 1].busy
      modifies this`mem
      ensures a in mem
      ensures mem[a] == Header(a + HDR, s[i].size + s[i + 1].size + HDR, false, Before(s, i), After(s, i + 1))
      ensures i + 2 < |s| ==> var c := s[i + 2].addr; c in mem && mem[c] == HeaderOf(s, i + 2).(pre := a)
      ensures Touches(old(mem), mem, if i + 2 < |s| then {a, s[i + 2].addr} else {a})
      ensures gain == s[i].size + HDR
    {
      var p := mem[a];
      gain := p.thissize + HDR;
      mem := mem[a := p.(thissize := p.thissize + mem[p.next].thissize + HDR, busy := false)];
      if mem[p.next].next != NULL {
        var c := mem[p.next].next;
        mem := mem[a := mem[a].(next := c)];
        mem := mem[c := mem[c].(pre := a)];
      } else {
        mem := mem[a := mem[a].(next := NULL)];
      }
    }

    /** idle <--> this <--> idle. Line 97 writes `precord->next->pre`; with `relink` the link
        of the block beyond is written instead. */
    method FreeBoth(a: int, relink: bool, ghost s: seq<Block>, ghost i: nat) returns (gain: int)
      requires Around(mem, s, i) && s[i].addr == a && 0 < i && i + 1 < |s| && !s[i - 1].busy && !s[i + 1].busy
      modifies this`mem
      ensures var b, n := s[i - 1].addr, s[i + 1].addr;
              && b in mem
              && mem[b] == Header(b + HDR, s[i - 1].size + s[i].size + s[i + 1].size + 2 * HDR, false,
                                  Before(s, i - 1), After(s, i + 1))
              && Touches(old(mem), mem, if i + 2 < |s| then {a, b, n, s[i + 2].addr} else {a, b, n})
      ensures i + 2 < |s| ==>
                var c := s[i + 2].addr;
                c in mem && mem[c] == if relink then HeaderOf(s, i + 2).(pre := s[i - 1].addr) else HeaderOf(s, i + 2)
      ensures gain == s[i].size + 2 * HDR
    {
      var p := mem[a];
      var n := mem[p.next];
      gain := p.thissize + HDR * 2;
      mem := mem[p.pre := mem[p.pre].(thissize := mem[p.pre].thissize + p.thissize + n.thissize + HDR * 2)];
      if n.next != NULL {
        mem := mem[p.pre := mem[p.pre].(next := n.next)];
        if relink {
          mem := mem[n.next := mem[n.next].(pre := p.pre)];
        } else {
          mem := mem[p.next := mem[p.next].(pre := p.pre)];
        }
      } else {
        mem := mem[p.pre := mem[p.pre].(next := NULL)];
      }
    }

    /** The branches of `mm_free`. */
    method Merge(a: int, relink: bool, ghost s: seq<Block>, ghost i: nat) returns (gain: int)
      requires Around(mem, s, i) && s[i].addr == a && Separated(s) && s[i].busy && !s[|s| - 1].busy
      modifies this`mem
      ensures FreeEffect(old(mem), mem, s, i, relink)
      ensures gain == s[i].size + HDR * (RightOf(s, i) - LeftOf(s, i) - 1)
    {
      ghost var lo, hi := LeftOf(s, i), RightOf(s, i);
      ghost var seg := Segment(s, lo, hi);
      assert s[lo].addr in seg && s[i].addr in seg;
      assert (i + 1 < |s| ==> s[i + 1].addr in seg) && (hi < |s| ==> s[hi].addr in seg);
      var p := mem[a];
      if p.pre != NULL && p.next != NULL {
        if mem[p.next].busy {
          if mem[p.pre].busy {
            gain := FreeAlone(a, s, i);
          } else {
            gain := FreeLeft(a, s, i);
          }
        } else {
          if mem[p.pre].busy {
            gain := FreeRight(a, s, i);
          } else {
            gain := FreeBoth(a, relink, s, i);
          }
        }
      } else if p.next != NULL && p.pre == NULL {
        if mem[p.next].busy {
          gain := FreeAlone(a, s, i);
        } else {
          gain := FreeRight(a, s, i);
        }
      } else {
        // this --> NULL: the last block is never live
        assert false;
      }
    }

    /** `mm_free` of live block `i`, up to the pool's own counter, which grows by `gain`. With
        line 97 as written the list is recorded exactly when the block is not pinched; when
        it is, one back link is stale. */
    method Release(a: int, relink: bool, ghost s: seq<Block>, ghost i: nat, ghost base: int, ghost end: int)
      returns (gain: int)
      requires 0 < base && Wellformed(s, base, end) && Held(mem, s) && i < |s| && s[i].busy && s[i].addr == a
      modifies this`mem
      ensures Held(mem, Freed(s, i)) <==> relink || !Pinched(s, i)
      ensures Pinched(s, i) && !relink ==>
                s[i + 2].addr in mem && mem[s[i + 2].addr].pre == s[i + 1].addr && Held(Mended(mem, s, i), Freed(s, i))
      ensures Outside(old(mem), mem, base, end)
      ensures gain == IdleSum(Freed(s, i)) - IdleSum(s)
    {
      AroundHolds(mem, s, i, base, end);
      FreedSums(s, i);
      ghost var m := mem;
      gain := Merge(a, relink, s, i);
      EffectOutside(m, mem, s, i, relink, base, end);
      EffectHeld(m, mem, s, i, relink, base, end);
    }

    /** The search loop of `mm_bestfit`. */
    method Search(head: int, size: int, ghost s: seq<Block>, ghost base: int, ghost end: int)
      returns (best: int, ghost at: nat)
      requires 0 < base && Tiles(s, base, end) && Held(mem, s) && head == base
      ensures best == NULL <==> forall i :: 0 <= i < |s| ==> !Fits(s[i], size)
      ensures Found(s, size, best, at)
    {
      var pthis := head;
      ghost var k := 0;
      best, at := NULL, 0;
      while pthis != NULL
        invariant k <= |s| && pthis == (if k < |s| then s[k].addr else NULL)
        invariant BestSoFar(s, size, k, best, at)
        invariant k == |s| ==> !Fits(s[|s| - 1], size)
        decreases |s| - k
      {
        assert HeldAt(mem, s, k);
        StartsAfter(s, base, end, k);
        var h := mem[pthis];
        if !h.busy {
          if h.next == NULL {
            assert k == |s| - 1 by { if k < |s| - 1 { StartsAfter(s, base, end, k + 1); } }
            if h.thissize >= size + HDR {
              best, at := pthis, k;
              assert Found(s, size, best, at);
            } else {
              FoundAtEnd(s, size, best, at);
            }
            return;
          } else if h.thissize >= size + HDR {
            if best == NULL {
              best, at := pthis, k;
            } else {
              assert HeldAt(mem, s, at);
              if mem[best].thissize > h.thissize {
                best, at := pthis, k;
              }
            }
          }
        }
        if k < |s| - 1 { StartsAfter(s, base, end, k + 1); }
        pthis := h.next;
        k := k + 1;
      }
      assert k == |s| by { if k < |s| { StartsAfter(s, base, end, k); } }
      FoundAtEnd(s, size, best, at);
    }

    /** The split of `mm_bestfit`. */
    method Carve(best: int, size: int, ghost s: seq<Block>, ghost i: nat, ghost base: int, ghost end: int)
      returns (p: int)
      requires 0 < base && Tiles(s, base, end) && Held(mem, s) && i < |s| && Fits(s[i], size) && size >= 0
      requires best == s[i].addr
      modifies this`mem
      ensures Held(mem, Split(s, i, size)) && Outside(old(mem), mem, base, end) && p == s[i].addr + HDR
    {
      ghost var m := mem;
      assert HeldAt(mem, s, i);
      if i + 1 < |s| {
        assert HeldAt(mem, s, i + 1);
      }
      CarvedHeld(mem, s, i, size, base, end);
      var h := mem[best];
      var pset := h.pthisaddr + size;
      mem := mem[best := h.(busy := true, next := pset)];
      mem := mem[pset := Header(pset + HDR, h.thissize - size - HDR, false, best, h.next)];
      if h.next != NULL {
        mem := mem[h.next := mem[h.next].(pre := pset)];
      }
      mem := mem[best := mem[best].(thissize := size)];
      p := mem[best].pthisaddr;
      CarveDistinct(s, i, size, base, end);
      assert mem == Carved(m, best, size);
    }
  }

  // ---- the pinched branch is reached ----

  ghost function Row(n: nat): seq<Block> {
    [Block(100, 10, true), Block(130, 10, true), Block(160, 10, true), Block(190, 10, true)][..if n < 4 then n else 4]
    + [Block(100 + 30 * (if n < 4 then n else 4), 980 - 30 * (if n < 4 then n else 4), false)]
  }

  lemma {:induction false} RowStep(n: nat)
    requires n < 4
    ensures Step(Row(n), Alloc(10), Row(n + 1))
  {
    var s := Row(n);
    assert |s| == n + 1 && s[n] == Block(100 + 30 * n, 980 - 30 * n, false);
    assert Best(s, 10, n);
    assert Row(n + 1) == Split(s, n, 10);
  }

  lemma {:induction false} ReleaseStep(s: seq<Block>, i: nat, s': seq<Block>)
    requires i < |s| && s[i].busy && Separated(s)
    requires s' == s[..LeftOf(s, i)] + [MergedBlock(s, i)] + s[RightOf(s, i)..]
    ensures Step(s, Release(s[i].addr), s')
  {
    FreedIsLocal(s, i);
  }

  const AFTER_FIRST := [Block(100, 10, false), Block(130, 10, true), Block(160, 10, true),
                        Block(190, 10, true), Block(220, 860, false)]
  const AFTER_THIRD := [Block(100, 10, false), Block(130, 10, true), Block(160, 10, false),
                        Block(190, 10, true), Block(220, 860, false)]

  lemma {:induction false} FirstRelease()
    ensures Step(Row(4), Release(100), AFTER_FIRST)
  {
    var s := Row(4);
    assert s[0] == Block(100, 10, true) && s[1] == Block(130, 10, true);
    assert s[1..] == AFTER_FIRST[1..];
    ReleaseStep(s, 0, AFTER_FIRST);
  }

  lemma {:induction false} SecondRelease()
    ensures Step(AFTER_FIRST, Release(160), AFTER_THIRD)
  {
    var t := AFTER_FIRST;
    assert t[1].busy && t[2] == Block(160, 10, true) && t[3].busy;
    assert t[..2] + [Block(160, 10, false)] + t[3..] == AFTER_THIRD;
    ReleaseStep(t, 2, AFTER_THIRD);
  }

  lemma {:induction false} TwoReleases()
    ensures Run(Row(4), [Release(100), Release(160)], AFTER_THIRD)
  {
    FirstRelease();
    SecondRelease();
    RunStep(AFTER_FIRST, Release(160), AFTER_THIRD, [], AFTER_THIRD);
    assert [Release(160)] + [] == [Release(160)];
    RunStep(Row(4), Release(100), AFTER_FIRST, [Release(160)], AFTER_THIRD);
    assert [Release(100)] + [Release(160)] == [Release(100), Release(160)];
  }

  lemma {:induction false} RowRun(n: nat, ops: seq<Op>, s: seq<Block>) returns (all: seq<Op>)
    requires n <= 4 && Run(Row(n), ops, s)
    ensures Run(Row(0), all, s)
  {
    if n == 0 {
      all := ops;
    } else {
      RowStep(n - 1);
      RunStep(Row(n - 1), Alloc(10), Row(n), ops, s);
      all := RowRun(n - 1, [Alloc(10)] + ops, s);
    }
  }

  /** Four allocations and the release of the first and the third leave the second pinched,
      so freeing it as written breaks the back link of the fourth. */
  lemma {:induction false} PinchedIsReached()
    ensures exists s: seq<Block>, ops: seq<Op> ::
              Run([Block(100, 980, false)], ops, s) && Pinched(s, 1) && s[1].busy
  {
    TwoReleases();
    var ops := RowRun(4, [Release(100), Release(160)], AFTER_THIRD);
    assert Row(0) == [Block(100, 980, false)];
    assert Pinched(AFTER_THIRD, 1);
  }

  lemma {:induction false} RunStep(s: seq<Block>, op: Op, m: seq<Block>, ops: seq<Op>, s': seq<Block>)
    requires Step(s, op, m) && Run(m, ops, s')
    ensures Run(s, [op] + ops, s')
  {
    assert ([op] + ops)[1..] == ops;
  }
}
