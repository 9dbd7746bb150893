/** The fixed-block cache of kernel/cache.c, over the same bit operations. */
module Cache {
  import opened Bits

  const NULL: nat := 0

  class Cache {
    const bsize: nat
    const bcnt: nat
    const avaliable: nat
    const bmap: array<bv8>
    /** Address of the block pool. */
    const bpool: nat
    ghost var levels: seq<nat>
    /** Blocks issued and not yet freed. */
    ghost var live: set<nat>

    ghost predicate Valid()
      reads this, bmap
    {
      && 0 < bsize && 0 < bpool && avaliable == bcnt && bcnt <= 8 * bmap.Length
      && Filled(bmap[..], levels)
      && (forall i :: i in live ==> i < bcnt && Taken(levels, i))
    }

    /** The address of block `i`. */
    function Address(i: nat): nat {
      bpool + i * bsize
    }

    /** Blocks lie one after the other from the start of the pool. */
    lemma {:induction false} AddressSteps(i: nat)
      ensures Address(0) == bpool && Address(i + 1) == Address(i) + bsize
    {
      assert (i + 1) * bsize == i * bsize + bsize;
    }

    /** Two blocks do not overlap, and every block lies inside the pool. */
    lemma {:induction false} AddressApart(i: nat, j: nat)
      requires i < bcnt && j < bcnt
      ensures i != j ==> Beside(Address(i), Address(j), bsize)
      ensures bpool <= Address(i) && Address(i) + bsize <= bpool + bcnt * bsize
    {
      BlocksApart(bpool, bsize, i, j);
      BlocksApart(bpool, bsize, j, i);
      BlocksApart(bpool, bsize, i, bcnt);
    }

    /** `kcache_create`: one map bit per block, rounded up to bytes; the memory it gets is at
        `at` and reads as zero. */
    constructor (cpsize: nat, cbsize: nat, at: nat)
      requires 0 < cbsize && 0 < at
      ensures Valid() && live == {} && bsize == cbsize && bcnt == cpsize / cbsize && fresh(bmap)
      ensures bmap.Length == (bcnt + 7) / 8 && bpool == at + bmap.Length && bcnt * bsize <= cpsize
      ensures forall i: nat :: !Taken(levels, i)
    {
      var n := cpsize / cbsize;
      var bmapsize := n / 8 + (if n % 8 == 0 then 0 else 1);
      bsize, bcnt, avaliable, bpool := cbsize, n, n, at + bmapsize;
      bmap := new bv8[bmapsize](_ => 0);
      levels, live := seq(bmapsize, _ => 0), {};
    }

    /** Books block `i` as taken and live once its bit is set. */
    ghost method Note(i: nat)
      requires 0 < bsize && 0 < bpool && avaliable == bcnt && bcnt <= 8 * bmap.Length && i < bcnt
      requires |levels| == bmap.Length
      requires levels[i / 8] == i % 8 && Filled(bmap[..], levels[i / 8 := i % 8 + 1])
      requires forall j :: j in live ==> j < bcnt && Taken(levels, j)
      modifies this`levels, this`live
      ensures Valid() && i !in old(live) && live == old(live) + {i} && !Taken(old(levels), i)
      ensures forall j: nat :: Taken(levels, j) <==> Taken(old(levels), j) || j == i
    {
      var before, after := levels, levels[i / 8 := i % 8 + 1];
      forall j: nat ensures Taken(after, j) <==> Taken(before, j) || j == i { RaiseTaken(before, i, j); }
      assert !Taken(before, i);
      levels := after;
      live := live + {i};
    }

    /** `kcache_malloc`: the first block that is not taken, never a live one; null when all are
        taken. The `c_avaliable` test only matters for a cache of no blocks. */
    method Malloc() returns (p: nat, ghost i: nat)
      requires Valid()
      modifies this`levels, this`live, bmap
      ensures Valid()
      ensures p == NULL <==> forall j :: 0 <= j < bcnt ==> Taken(old(levels), j)
      ensures p == NULL ==> levels == old(levels) && live == old(live)
      ensures p != NULL ==>
                && i < bcnt && p == Address(i) && !Taken(old(levels), i)
                && i !in old(live) && live == old(live) + {i}
                && (forall j :: 0 <= j < i ==> Taken(old(levels), j))
                && (forall j: nat :: Taken(levels, j) <==> Taken(old(levels), j) || j == i)
      ensures p != NULL ==>
                && bpool <= p && p + bsize <= bpool + bcnt * bsize
                && (forall j :: j in old(live) ==> Beside(p, Address(j), bsize))
    {
      i := 0;
      if avaliable == 0 {
        return NULL, i;
      }
      for n := 0 to bcnt
        invariant Valid() && levels == old(levels) && live == old(live)
        invariant forall j :: 0 <= j < n ==> Taken(levels, j)
      {
        var done := TryTake(n);
        if done {
          forall j | j in old(live) ensures Beside(Address(n), Address(j), bsize) { AddressApart(n, j); }
          AddressApart(n, n);
          return Address(n), n;
        }
      }
      return NULL, i;
    }

    /** The loop body of `kcache_malloc`: takes block `n`, those before it being taken, exactly if
        it is free. */
    method TryTake(n: nat) returns (done: bool)
      requires Valid() && n < bcnt && (n > 0 ==> Taken(levels, n - 1))
      modifies this`levels, this`live, bmap
      ensures Valid() && (done <==> !Taken(old(levels), n))
      ensures !done ==> levels == old(levels) && live == old(live)
      ensures done ==>
                && n !in old(live) && live == old(live) + {n}
                && (forall j: nat :: Taken(levels, j) <==> Taken(old(levels), j) || j == n)
    {
      ReadsLevel(bmap[..], levels, n);
      FilledStep(bmap[..], levels, n);
      if n > 0 { Level(levels, n); }
      var d := BitRead(n, bmap[..]);
      done := d == 0;
      if done {
        BitSet(n, bmap);
        Note(n);
      }
    }

    /** `kcache_free` of a live block, by any address inside it: it takes effect exactly when the
        block is the highest one taken in its byte. */
    method Free(p: nat, ghost i: nat)
      requires Valid() && i in live && Address(i) <= p < Address(i) + bsize
      modifies this`levels, this`live, bmap
      ensures Valid() && live == old(live) - {i}
      ensures !Taken(levels, i) <==> old(levels)[i / 8] == i % 8 + 1
      ensures forall j: nat :: j != i ==> (Taken(levels, j) <==> Taken(old(levels), j))
    {
      IndexOf(i, bsize, p - Address(i));
      var n := (p - bpool) / bsize;
      assert FilledAt(bmap[..], levels, n / 8);
      OnesTests(levels[n / 8], n % 8);
      FilledStep(bmap[..], levels, n);
      var done := Test1AndSet(n, bmap);
      if done {
        ghost var before, after := levels, levels[n / 8 := n % 8];
        forall j: nat ensures Taken(after, j) <==> Taken(before, j) && j != n { LowerTaken(before, n, j); }
        levels := after;
      }
      live := live - {n};
    }
  }

  lemma IndexOf(i: nat, b: nat, k: nat)
    requires k < b
    ensures (i * b + k) / b == i
  {
    var p := i * b + k;
    var q := p / b;
    assert b * q <= p < b * q + b;
    MulLe(if q < i then q + 1 else i, i, b);
    MulLe(if i < q then i + 1 else q, q, b);
  }

  /** Two spans of `n` bytes without a byte in common. */
  ghost predicate Beside(a: nat, b: nat, n: nat) {
    a + n <= b || b + n <= a
  }

  lemma {:induction false} BlocksApart(pool: nat, b: nat, i: nat, j: nat)
    ensures i < j ==> pool + i * b + b <= pool + j * b
  {
    if i < j { MulLe(i + 1, j, b); }
  }

  lemma MulLe(x: nat, y: nat, b: nat)
    requires x <= y
    ensures x * b <= y * b
  {
    assert y * b == x * b + (y - x) * b;
  }
}
