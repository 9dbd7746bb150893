/** A chain of pools (`struct mmpoolinfor`), tried in order, over one memory. */
module PoolChain {
  import opened PoolList
  import opened PoolMemory
  import opened PoolHeap

  /** `phead`, `poolsize` and `valiable`; `ppoolnext` is the next element of the chain. */
  datatype PoolInfo = PoolInfo(phead: int, poolsize: int, valiable: int)

  ghost function TotalValiable(pools: seq<PoolInfo>): int {
    if pools == [] then 0 else pools[0].valiable + TotalValiable(pools[1..])
  }

  ghost function TotalIdle(lists: seq<seq<Block>>): int {
    if lists == [] then 0 else IdleSum(lists[0]) + TotalIdle(lists[1..])
  }

  lemma {:induction false} TotalValiableUpdate(pools: seq<PoolInfo>, j: nat, p: PoolInfo)
    requires j < |pools|
    ensures TotalValiable(pools[j := p]) == TotalValiable(pools) + p.valiable - pools[j].valiable
  {
    if j == 0 {
      assert pools[0 := p][1..] == pools[1..];
    } else {
      assert pools[j := p][1..] == pools[1..][j - 1 := p];
      TotalValiableUpdate(pools[1..], j - 1, p);
    }
  }

  lemma {:induction false} TotalIdleUpdate(lists: seq<seq<Block>>, j: nat, s: seq<Block>)
    requires j < |lists|
    ensures TotalIdle(lists[j := s]) == TotalIdle(lists) + IdleSum(s) - IdleSum(lists[j])
  {
    if j == 0 {
      assert lists[0 := s][1..] == lists[1..];
    } else {
      assert lists[j := s][1..] == lists[1..][j - 1 := s];
      TotalIdleUpdate(lists[1..], j - 1, s);
    }
  }

  ghost predicate PoolOk(m: Memory, p: PoolInfo, s: seq<Block>) {
    && 0 < p.phead && Wellformed(s, p.phead, p.phead + p.poolsize) && Held(m, s)
  }

  ghost predicate Apart(p: PoolInfo, q: PoolInfo) {
    p.phead + p.poolsize <= q.phead || q.phead + q.poolsize <= p.phead
  }

  ghost predicate ChainOk(m: Memory, pools: seq<PoolInfo>, lists: seq<seq<Block>>) {
    && |pools| == |lists|
    && (forall j :: 0 <= j < |pools| ==> PoolAt(m, pools, lists, j))
    && (forall i, j :: 0 <= i < j < |pools| ==> Apart(pools[i], pools[j]))
  }

  ghost predicate PoolAt(m: Memory, pools: seq<PoolInfo>, lists: seq<seq<Block>>, j: int)
    requires 0 <= j < |pools| == |lists|
  {
    PoolOk(m, pools[j], lists[j])
  }

  /** A change inside one pool does not disturb another. */
  lemma {:induction false} PoolKept(m: Memory, m': Memory, p: PoolInfo, q: PoolInfo, s: seq<Block>)
    requires PoolOk(m, p, s) && Apart(p, q) && Outside(m, m', q.phead, q.phead + q.poolsize)
    ensures PoolOk(m', p, s)
  {
    forall k | 0 <= k < |s| ensures HeldAt(m', s, k) {
      assert HeldAt(m, s, k);
      StartsAfter(s, p.phead, p.phead + p.poolsize, k);
      EndsBefore(s, p.phead, p.phead + p.poolsize, k);
    }
  }

  /** Rewriting one pool's list and counter leaves a well-formed chain. */
  lemma {:induction false} ChainUpdate(m: Memory, m': Memory, pools: seq<PoolInfo>, lists: seq<seq<Block>>, j: nat,
                                       s: seq<Block>)
    requires ChainOk(m, pools, lists) && j < |pools| && PoolOk(m', pools[j], s)
    requires Outside(m, m', pools[j].phead, pools[j].phead + pools[j].poolsize)
    ensures ChainOk(m', pools, lists[j := s])
  {
    var lists' := lists[j := s];
    forall k | 0 <= k < |pools| ensures PoolAt(m', pools, lists', k) {
      if k != j {
        assert PoolAt(m, pools, lists, k);
        assert if k < j then Apart(pools[k], pools[j]) else Apart(pools[j], pools[k]);
        PoolKept(m, m', pools[k], pools[j], lists[k]);
      }
    }
  }

  /** The counter plays no part in the shape of the chain. */
  lemma {:induction false} CounterFree(m: Memory, pools: seq<PoolInfo>, lists: seq<seq<Block>>, j: nat, v: int)
    requires ChainOk(m, pools, lists) && j < |pools|
    ensures ChainOk(m, pools[j := pools[j].(valiable := v)], lists)
  {
    var pools' := pools[j := pools[j].(valiable := v)];
    forall k | 0 <= k < |pools'| ensures PoolAt(m, pools', lists, k) {
      assert PoolAt(m, pools, lists, k);
    }
    forall i, k | 0 <= i < k < |pools'| ensures Apart(pools'[i], pools'[k]) {
      assert Apart(pools[i], pools[k]);
    }
  }

  lemma {:induction false} IdleBound(s: seq<Block>, i: nat)
    requires i < |s| && !s[i].busy && forall k :: 0 <= k < |s| ==> s[k].size >= 0
    ensures s[i].size <= IdleSum(s)
  {
    SumsAt(s, i);
    IdleNonNegative(s[..i]);
    IdleNonNegative(s[i + 1..]);
  }

  lemma {:induction false} IdleNonNegative(s: seq<Block>)
    requires forall k :: 0 <= k < |s| ==> s[k].size >= 0
    ensures IdleSum(s) >= 0
  {
    if s != [] { IdleNonNegative(s[1..]); }
  }

  /** The guard of `mm_malloc` passes over a pool only when no block of it fits. */
  lemma {:induction false} GuardSkipsOnlyFull(p: PoolInfo, s: seq<Block>, size: int)
    requires Tiles(s, p.phead, p.phead + p.poolsize) && IdleSum(s) <= p.valiable < size + HDR
    ensures forall i :: 0 <= i < |s| ==> !Fits(s[i], size)
  {
    forall i | 0 <= i < |s| ensures !Fits(s[i], size) {
      if !s[i].busy { IdleBound(s, i); }
    }
  }

  lemma {:induction false} PassedOver(m: Memory, pools: seq<PoolInfo>, lists: seq<seq<Block>>, j: nat, size: int)
    requires ChainOk(m, pools, lists) && j < |pools| && Covered(pools, lists, j) && pools[j].valiable < size + HDR
    ensures NoneFits(lists[j], size) && Covered(pools, lists, j + 1)
  {
    assert PoolAt(m, pools, lists, j) && CoveredAt(pools, lists, j);
    GuardSkipsOnlyFull(pools[j], lists[j], size);
  }

  /** Where a live payload pointer points: block `i` of pool `k`. */
  ghost predicate LiveAt(lists: seq<seq<Block>>, k: nat, i: nat, p: int) {
    k < |lists| && i < |lists[k]| && lists[k][i].busy && lists[k][i].addr + HDR == p
  }

  /** The counters of the pools from `j` on cover their idle bytes. */
  ghost predicate Covered(pools: seq<PoolInfo>, lists: seq<seq<Block>>, j: nat) {
    |pools| == |lists| && forall n :: j <= n < |pools| ==> CoveredAt(pools, lists, n)
  }

  ghost predicate CoveredAt(pools: seq<PoolInfo>, lists: seq<seq<Block>>, n: nat)
    requires n < |pools| == |lists|
  {
    IdleSum(lists[n]) <= pools[n].valiable
  }

  lemma {:induction false} ExactCovers(pools: seq<PoolInfo>, lists: seq<seq<Block>>, j: nat)
    requires Exact(pools, lists)
    ensures Covered(pools, lists, j)
  {
    forall n: nat | j <= n < |pools| ensures CoveredAt(pools, lists, n) { assert ExactAt(pools, lists, n); }
  }

  ghost predicate NoneFits(s: seq<Block>, size: int) {
    forall i :: 0 <= i < |s| ==> !Fits(s[i], size)
  }

  /** The pools with the counter of pool `j` moved. */
  ghost function Counted(pools: seq<PoolInfo>, j: nat, delta: int): seq<PoolInfo>
    requires j < |pools|
  {
    pools[j := pools[j].(valiable := pools[j].valiable + delta)]
  }

  /** Pool `k` gave the front of its best block `i`, and its counter paid for it. */
  ghost predicate Took(pools: seq<PoolInfo>, lists: seq<seq<Block>>, size: int, k: nat, i: nat, p: int,
                       pools': seq<PoolInfo>, lists': seq<seq<Block>>)
    requires k < |pools|
  {
    && k < |lists| && Best(lists[k], size, i) && p == lists[k][i].addr + HDR
    && lists' == lists[k := Split(lists[k], i, size)]
    && pools' == Counted(pools, k, -(size + HDR))
  }

  lemma {:induction false} CommitOk(m: Memory, m': Memory, pools: seq<PoolInfo>, lists: seq<seq<Block>>,
                                    j: nat, k: nat, s: seq<Block>, delta: int)
    requires ChainOk(m, pools, lists) && TotalValiable(pools) == TotalIdle(lists) && j < |pools| && k < |pools|
    requires PoolOk(m', pools[k], s) && Outside(m, m', pools[k].phead, pools[k].phead + pools[k].poolsize)
    requires IdleSum(s) - IdleSum(lists[k]) == delta
    ensures ChainOk(m', Counted(pools, j, delta), lists[k := s])
    ensures TotalValiable(Counted(pools, j, delta)) == TotalIdle(lists[k := s])
  {
    ChainUpdate(m, m', pools, lists, k, s);
    TotalIdleUpdate(lists, k, s);
    CounterFree(m', pools, lists[k := s], j, pools[j].valiable + delta);
    TotalValiableUpdate(pools, j, pools[j].(valiable := pools[j].valiable + delta));
  }

  /** `mm_free(mm_malloc(size))` through the pool that served it restores every list and counter:
      what `Malloc` took, `Free` puts back, and the block is never pinched. */
  lemma {:induction false} MallocThenFree(m: Memory, pools: seq<PoolInfo>, lists: seq<seq<Block>>, size: int,
                                          k: nat, i: nat, p: int, pools': seq<PoolInfo>, lists': seq<seq<Block>>)
    requires ChainOk(m, pools, lists) && k < |pools| && size > 0 && Took(pools, lists, size, k, i, p, pools', lists')
    ensures LiveAt(lists', k, i, p) && !Pinched(lists'[k], i)
    ensures lists'[k := Freed(lists'[k], i)] == lists
    ensures Counted(pools', k, IdleSum(Freed(lists'[k], i)) - IdleSum(lists'[k])) == pools
  {
    var s := lists[k];
    assert PoolAt(m, pools, lists, k);
    SplitBack(s, i, size, pools[k].phead, pools[k].phead + pools[k].poolsize);
    var t := Split(s, i, size);
    assert lists'[k] == t;
    assert lists[k := t][k := s] == lists;
    CountedBack(pools, k, size + HDR);
  }

  lemma {:induction false} SplitBack(s: seq<Block>, i: nat, size: int, base: int, end: int)
    requires Wellformed(s, base, end) && size > 0 && Best(s, size, i)
    ensures var t := Split(s, i, size);
            && i < |t| && t[i].busy && t[i].addr == s[i].addr && !Pinched(t, i)
            && Freed(t, i) == s && IdleSum(s) - IdleSum(t) == size + HDR
  {
    SplitWellformed(s, i, size, base, end);
    SplitSums(s, i, size);
    SplitThenFree(s, i, size);
    var t := Split(s, i, size);
    assert i > 0 ==> t[i - 1] == s[i - 1] && SeparatedAt(s, i - 1);
  }

  lemma {:induction false} CountedBack(pools: seq<PoolInfo>, k: nat, paid: int)
    requires k < |pools|
    ensures Counted(Counted(pools, k, -paid), k, paid) == pools
  {}

  /** Every counter says how much is idle in its own pool. */
  ghost predicate Exact(pools: seq<PoolInfo>, lists: seq<seq<Block>>) {
    |pools| == |lists| && forall n :: 0 <= n < |pools| ==> ExactAt(pools, lists, n)
  }

  ghost predicate ExactAt(pools: seq<PoolInfo>, lists: seq<seq<Block>>, n: nat)
    requires n < |pools| == |lists|
  {
    pools[n].valiable == IdleSum(lists[n])
  }

  /** Allocation keeps every counter exact. */
  lemma {:induction false} MallocKeepsExact(pools: seq<PoolInfo>, lists: seq<seq<Block>>, size: int, k: nat, i: nat,
                                            p: int,
                                            pools': seq<PoolInfo>, lists': seq<seq<Block>>)
    requires Exact(pools, lists) && k < |pools| && Took(pools, lists, size, k, i, p, pools', lists')
    ensures Exact(pools', lists')
  {
    SplitSums(lists[k], i, size);
    forall n | 0 <= n < |pools| ensures ExactAt(pools', lists', n) { assert ExactAt(pools, lists, n); }
  }

  /** A free through pool `j` of block `i` of pool `k` keeps every counter exact exactly when `j` owns the block. */
  lemma {:induction false} FreeKeepsExact(pools: seq<PoolInfo>, lists: seq<seq<Block>>, j: nat, k: nat, i: nat)
    requires Exact(pools, lists) && j < |pools| && k < |lists| && i < |lists[k]|
    requires Separated(lists[k]) && lists[k][i].busy && lists[k][i].size > 0
    ensures var s := Freed(lists[k], i);
            Exact(Counted(pools, j, IdleSum(s) - IdleSum(lists[k])), lists[k := s]) <==> j == k
  {
    var s := Freed(lists[k], i);
    var gain := IdleSum(s) - IdleSum(lists[k]);
    FreedSums(lists[k], i);
    assert gain > 0;
    var pools', lists' := Counted(pools, j, gain), lists[k := s];
    assert ExactAt(pools, lists, j) && ExactAt(pools, lists, k);
    if j == k {
      forall n | 0 <= n < |pools| ensures ExactAt(pools', lists', n) { assert ExactAt(pools, lists, n); }
    } else {
      assert !ExactAt(pools', lists', k);
    }
  }

  /** The totals move together whether or not pool `j` owns the block, and the chain is valid
      exactly when pool `k`'s memory records its new list. */
  lemma {:induction false} FreeTotals(m: Memory, m': Memory, pools: seq<PoolInfo>, lists: seq<seq<Block>>,
                                      j: nat, k: nat, i: nat, gain: int, recorded: bool)
    requires ChainOk(m, pools, lists) && TotalValiable(pools) == TotalIdle(lists) && j < |pools| && k < |pools|
    requires i < |lists[k]|
    requires Outside(m, m', pools[k].phead, pools[k].phead + pools[k].poolsize)
    requires Wellformed(Freed(lists[k], i), pools[k].phead, pools[k].phead + pools[k].poolsize)
    requires Held(m', Freed(lists[k], i)) <==> recorded
    requires gain == IdleSum(Freed(lists[k], i)) - IdleSum(lists[k])
    ensures TotalValiable(Counted(pools, j, gain)) == TotalIdle(lists[k := Freed(lists[k], i)])
    ensures ChainOk(m', Counted(pools, j, gain), lists[k := Freed(lists[k], i)]) <==> recorded
  {
    var s := Freed(lists[k], i);
    assert PoolAt(m, pools, lists, k);
    if recorded {
      CommitOk(m, m', pools, lists, j, k, s, gain);
    } else {
      TotalIdleUpdate(lists, k, s);
      TotalValiableUpdate(pools, j, pools[j].(valiable := pools[j].valiable + gain));
      assert !PoolAt(m', Counted(pools, j, gain), lists[k := s], k);
    }
  }

  class Chain {
    const heap: Heap
    var pools: seq<PoolInfo>
    ghost var lists: seq<seq<Block>>

    /** Every pool is recorded and well formed, and the counters together say how much is idle. */
    ghost predicate Valid()
      reads this, heap
    {
      ChainOk(heap.mem, pools, lists) && TotalValiable(pools) == TotalIdle(lists)
    }

    constructor ()
      ensures Valid() && pools == [] && fresh(heap)
    {
      heap := new Heap();
      pools, lists := [], [];
    }

    /** `mm_inipool` on fresh memory, then `mm_appendpool` at the end of the chain. */
    method AddPool(base: int, size: int)
      requires Valid() && 0 < base && HDR <= size
      requires forall j :: 0 <= j < |pools| ==> Apart(pools[j], PoolInfo(base, size, size - HDR))
      modifies this, heap
      ensures Valid() && pools == old(pools) + [PoolInfo(base, size, size - HDR)]
      ensures lists == old(lists) + [[Block(base, size - HDR, false)]]
    {
      ghost var m, s := heap.mem, [Block(base, size - HDR, false)];
      heap.mem := heap.mem[base := Header(base + HDR, size - HDR, false, NULL, NULL)];
      var p := PoolInfo(base, size, size - HDR);
      assert HeldAt(heap.mem, s, 0);
      forall j | 0 <= j < |pools| ensures PoolOk(heap.mem, pools[j], lists[j]) {
        assert PoolAt(m, pools, lists, j) && Apart(pools[j], p);
        PoolKept(m, heap.mem, pools[j], p, lists[j]);
      }
      TotalsAppend(pools, p);
      TotalIdleAppend(lists, s);
      pools := pools + [p];
      lists := lists + [s];
    }

    /** `mm_malloc` from pool `j` on: pools whose counter is too small are passed over, and the
        first other pool, `k`, decides. While counters cover the idle bytes, a pool passed over could
        not have served the request; while they are exact, a pool that decides and fails holds enough
        idle bytes, but not in one block. */
    method Malloc(j: nat, size: int) returns (p: int, ghost k: nat, ghost i: nat)
      requires Valid() && j <= |pools|
      modifies this`pools, this`lists, heap
      ensures Valid()
      ensures j <= k <= |old(pools)| && (size <= 0 ==> p == NULL && k == |old(pools)|)
      ensures forall n :: j <= n < k ==> size <= 0 || old(pools)[n].valiable < size + HDR
      ensures k < |old(pools)| ==> old(pools)[k].valiable >= size + HDR
      ensures size > 0 && Covered(old(pools), old(lists), j) ==>
                forall n :: j <= n < k ==> NoneFits(old(lists)[n], size)
      ensures Exact(old(pools), old(lists)) && p == NULL && k < |old(pools)| ==>
                IdleSum(old(lists)[k]) >= size + HDR
      ensures p == NULL ==>
                && pools == old(pools) && lists == old(lists) && heap.mem == old(heap.mem)
                && (k < |old(pools)| ==> NoneFits(old(lists)[k], size))
      ensures p != NULL ==> k < |old(pools)| && Took(old(pools), old(lists), size, k, i, p, pools, lists)
      decreases |pools| - j
    {
      if j == |pools| {
        return NULL, j, 0;
      }
      if pools[j].valiable >= size + HDR && size > 0 {
        k := j;
        ghost var was, before := pools, lists;
        p, i := BestFit(j, size);
        assert Exact(was, before) ==> ExactAt(was, before, j);
      } else {
        if size > 0 && Covered(pools, lists, j) { PassedOver(heap.mem, pools, lists, j, size); }
        p, k, i := Malloc(j + 1, size);
      }
    }

    /** `mm_bestfit` on pool `j`. */
    method BestFit(j: nat, size: int) returns (p: int, ghost i: nat)
      requires Valid() && j < |pools| && size > 0
      modifies this`pools, this`lists, heap
      ensures Valid()
      ensures p == NULL <==> NoneFits(old(lists)[j], size)
      ensures p == NULL ==> pools == old(pools) && lists == old(lists) && heap.mem == old(heap.mem)
      ensures p != NULL ==> Took(old(pools), old(lists), size, j, i, p, pools, lists)
    {
      ghost var m, s := heap.mem, lists[j];
      ghost var base, end := pools[j].phead, pools[j].phead + pools[j].poolsize;
      assert PoolAt(m, pools, lists, j);
      var best: int;
      best, i := heap.Search(pools[j].phead, size, s, base, end);
      if best == NULL {
        return NULL, i;
      }
      p := heap.Carve(best, size, s, i, base, end);
      SplitWellformed(s, i, size, base, end);
      SplitSums(s, i, size);
      StartsAfter(s, base, end, i);
      Commit(m, j, j, Split(s, i, size), -(size + HDR));
    }

    /** `mm_free` of `p` through pool `j`: either a live payload, block `i` of pool `k`, or
        (`live` false) a pointer whose header does not point back at it, which is refused.
        No branch checks that pool `j` owns the block: its counter gets the bytes, and the
        counters still add up. With line 97 as written (`relink` false) the chain stays valid
        exactly when the block is not pinched. */
    method Free(j: nat, p: int, relink: bool, ghost live: bool, ghost k: nat, ghost i: nat) returns (ok: bool)
      requires Valid() && j <= |pools|
      requires if live then LiveAt(lists, k, i, p) else p - HDR in heap.mem && heap.mem[p - HDR].pthisaddr != p
      modifies this`pools, this`lists, heap
      ensures ok <==> live && j < |old(pools)|
      ensures !ok ==> pools == old(pools) && lists == old(lists) && heap.mem == old(heap.mem)
      ensures ok ==>
                && lists == old(lists)[k := Freed(old(lists)[k], i)]
                && pools == Counted(old(pools), j, IdleSum(Freed(old(lists)[k], i)) - IdleSum(old(lists)[k]))
                && TotalValiable(pools) == TotalIdle(lists)
                && (Valid() <==> relink || !Pinched(old(lists)[k], i))
      decreases |pools| - j
    {
      if j == |pools| {
        return false;
      }
      if live {
        LiveHeader(heap.mem, pools, lists, k, i, p);
      }
      if heap.mem[p - HDR].pthisaddr == p {
        FreeLive(j, p, relink, k, i);
        return true;
      } else {
        ok := Free(j + 1, p, relink, live, k, i);
      }
    }

    method FreeLive(j: nat, p: int, relink: bool, ghost k: nat, ghost i: nat)
      requires Valid() && j < |pools| && LiveAt(lists, k, i, p)
      modifies this`pools, this`lists, heap
      ensures lists == old(lists)[k := Freed(old(lists)[k], i)]
      ensures pools == Counted(old(pools), j, IdleSum(Freed(old(lists)[k], i)) - IdleSum(old(lists)[k]))
      ensures TotalValiable(pools) == TotalIdle(lists)
      ensures Valid() <==> relink || !Pinched(old(lists)[k], i)
    {
      ghost var m, s := heap.mem, lists[k];
      ghost var base, end := pools[k].phead, pools[k].phead + pools[k].poolsize;
      LiveHeader(m, pools, lists, k, i, p);
      var gain := heap.Release(p - HDR, relink, s, i, base, end);
      FreedWellformed(s, i, base, end);
      FreeTotals(m, heap.mem, pools, lists, j, k, i, gain, relink || !Pinched(s, i));
      lists := lists[k := Freed(s, i)];
      pools := pools[j := pools[j].(valiable := pools[j].valiable + gain)];
    }

    /** Records a new list for pool `k` and moves the counter of pool `j`. */
    method Commit(ghost m: Memory, j: nat, ghost k: nat, ghost s: seq<Block>, delta: int)
      requires ChainOk(m, pools, lists) && TotalValiable(pools) == TotalIdle(lists) && j < |pools| && k < |pools|
      requires PoolOk(heap.mem, pools[k], s) && Outside(m, heap.mem, pools[k].phead, pools[k].phead + pools[k].poolsize)
      requires IdleSum(s) - IdleSum(lists[k]) == delta
      modifies this`pools, this`lists
      ensures Valid() && lists == old(lists)[k := s] && pools == Counted(old(pools), j, delta)
    {
      CommitOk(m, heap.mem, pools, lists, j, k, s, delta);
      lists := lists[k := s];
      pools := pools[j := pools[j].(valiable := pools[j].valiable + delta)];
    }
  }

  lemma {:induction false} LiveHeader(m: Memory, pools: seq<PoolInfo>, lists: seq<seq<Block>>, k: nat, i: nat, p: int)
    requires ChainOk(m, pools, lists) && LiveAt(lists, k, i, p)
    ensures p - HDR in m && m[p - HDR].pthisaddr == p && PoolOk(m, pools[k], lists[k])
  {
    assert PoolAt(m, pools, lists, k);
    assert HeldAt(m, lists[k], i);
  }

  lemma {:induction false} TotalsAppend(pools: seq<PoolInfo>, p: PoolInfo)
    ensures TotalValiable(pools + [p]) == TotalValiable(pools) + p.valiable
  {
    if pools == [] {
      assert pools + [p] == [p];
    } else {
      assert (pools + [p])[1..] == pools[1..] + [p];
      TotalsAppend(pools[1..], p);
    }
  }

  lemma {:induction false} TotalIdleAppend(lists: seq<seq<Block>>, s: seq<Block>)
    ensures TotalIdle(lists + [s]) == TotalIdle(lists) + IdleSum(s)
  {
    if lists == [] {
      assert lists + [s] == [s];
    } else {
      assert (lists + [s])[1..] == lists[1..] + [s];
      TotalIdleAppend(lists[1..], s);
    }
  }
}
