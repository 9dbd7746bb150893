/** Page frames: `allocpage` and `freepage` over the bitmap that `startpage` builds. */
module Frames {
  import opened Bits

  class FrameMap {
    /** `memsize / 4096` and `memreserved / 4096`; the map has one byte per frame, of which
        the bit operations use an eighth. */
    const frames: nat
    const reserved: nat
    const pagemap: array<bv8>
    ghost var levels: seq<nat>
    /** Frames issued and not yet freed. */
    ghost var live: set<nat>

    ghost predicate Valid()
      reads this, pagemap
    {
      && 0 < reserved <= frames == pagemap.Length
      && Filled(pagemap[..], levels)
      && (forall f :: 0 <= f < reserved ==> Taken(levels, f))
      && (forall f :: f in live ==> reserved <= f < frames && Taken(levels, f))
    }

    /** The map as `startpage` leaves it: every reserved frame taken, every other free. */
    constructor (n: nat, r: nat)
      requires 0 < r <= n
      ensures Valid() && frames == n && reserved == r && live == {} && fresh(pagemap)
      ensures forall f :: reserved <= f < frames ==> !Taken(levels, f)
    {
      frames, reserved := n, r;
      pagemap := new bv8[n](_ => 0);
      live := {};
      levels := seq(n, _ => 0);
      new;
      for i := 0 to r
        invariant Filled(pagemap[..], levels) && live == {}
        invariant |levels| == n && forall b :: 0 <= b < n ==> levels[b] == LevelAt(b, i)
      {
        FilledStep(pagemap[..], levels, i);
        BitSet(i, pagemap);
        levels := levels[i / 8 := i % 8 + 1];
      }
      forall f | 0 <= f < n ensures Taken(levels, f) <==> f < r { }
    }

    /** Books frame `f` as taken and live once its bit is set. */
    ghost method Note(f: nat)
      requires 0 < reserved <= f < frames == pagemap.Length == |levels|
      requires levels[f / 8] == f % 8 && Filled(pagemap[..], levels[f / 8 := f % 8 + 1])
      requires forall i :: 0 <= i < reserved ==> Taken(levels, i)
      requires forall i :: i in live ==> reserved <= i < frames && Taken(levels, i)
      modifies this`levels, this`live
      ensures Valid() && f !in old(live) && live == old(live) + {f} && !Taken(old(levels), f)
      ensures forall i: nat :: Taken(levels, i) <==> Taken(old(levels), i) || i == f
    {
      var before, after := levels, levels[f / 8 := f % 8 + 1];
      forall j: nat ensures Taken(after, j) <==> Taken(before, j) || j == f { RaiseTaken(before, f, j); }
      assert !Taken(before, f);
      levels := after;
      live := live + {f};
    }

    /** `allocpage`: the first frame past the reserved ones that is not taken, or 0 when all
        are; never a frame that is live. */
    method Alloc() returns (f: nat)
      requires Valid()
      modifies this`levels, this`live, pagemap
      ensures Valid()
      ensures f == 0 <==> forall i :: reserved <= i < frames ==> Taken(old(levels), i)
      ensures f == 0 ==> levels == old(levels) && live == old(live)
      ensures f != 0 ==>
                && reserved <= f < frames && !Taken(old(levels), f) && f !in old(live) && live == old(live) + {f}
                && (forall i :: reserved <= i < f ==> Taken(old(levels), i))
                && (forall i: nat :: Taken(levels, i) <==> Taken(old(levels), i) || i == f)
    {
      for i := reserved to frames
        invariant Valid() && levels == old(levels) && live == old(live)
        invariant forall j :: reserved <= j < i ==> Taken(levels, j)
      {
        var done := TryTake(i);
        if done {
          return i;
        }
      }
      return 0;
    }

    /** Takes frame `f`, the one before it being taken, exactly if it is free. */
    method TryTake(f: nat) returns (done: bool)
      requires Valid() && reserved <= f < frames && Taken(levels, f - 1)
      modifies this`levels, this`live, pagemap
      ensures Valid() && (done <==> !Taken(old(levels), f))
      ensures !done ==> levels == old(levels) && live == old(live)
      ensures done ==>
                && f !in old(live) && live == old(live) + {f}
                && (forall i: nat :: Taken(levels, i) <==> Taken(old(levels), i) || i == f)
    {
      assert FilledAt(pagemap[..], levels, f / 8);
      OnesTests(levels[f / 8], f % 8);
      FilledStep(pagemap[..], levels, f);
      Level(levels, f);
      done := Test0AndSet(f, pagemap);
      if done {
        Note(f);
      }
    }

    /** `freepage` of a live frame: it takes effect exactly when the frame is the highest one
        taken in its byte; otherwise the frame stays taken although nobody holds it. */
    method Free(f: nat)
      requires Valid() && f in live
      modifies this`levels, this`live, pagemap
      ensures Valid() && live == old(live) - {f}
      ensures !Taken(levels, f) <==> old(levels)[f / 8] == f % 8 + 1
      ensures forall i: nat :: i != f ==> (Taken(levels, i) <==> Taken(old(levels), i))
    {
      assert FilledAt(pagemap[..], levels, f / 8);
      OnesTests(levels[f / 8], f % 8);
      FilledStep(pagemap[..], levels, f);
      var done := Test1AndSet(f, pagemap);
      if done {
        ghost var before, after := levels, levels[f / 8 := f % 8];
        forall j: nat ensures Taken(after, j) <==> Taken(before, j) && j != f { LowerTaken(before, f, j); }
        levels := after;
      }
      live := live - {f};
    }
  }

  /** The level of byte `b` once the first `i` bits are set. */
  ghost function LevelAt(b: nat, i: nat): nat {
    if 8 * b + 8 <= i then 8 else if i <= 8 * b then 0 else i - 8 * b
  }

  // ---- counting ----

  /** How many of the frames `lo..n` are not taken. */
  ghost function FreeCount(levels: seq<nat>, lo: nat, n: nat): nat
    decreases n - lo
  {
    if lo >= n then 0 else (if Taken(levels, lo) then 0 else 1) + FreeCount(levels, lo + 1, n)
  }

  lemma {:induction false} FreeCountZero(levels: seq<nat>, lo: nat, n: nat)
    ensures FreeCount(levels, lo, n) == 0 <==> forall i :: lo <= i < n ==> Taken(levels, i)
    decreases n - lo
  {
    if lo < n { FreeCountZero(levels, lo + 1, n); }
  }

  /** Taking one frame leaves one less. */
  lemma {:induction false} FreeCountTake(levels: seq<nat>, levels': seq<nat>, lo: nat, n: nat, f: nat)
    requires forall i: nat :: Taken(levels', i) <==> Taken(levels, i) || i == f
    requires f < n && !Taken(levels, f)
    ensures FreeCount(levels', lo, n) == FreeCount(levels, lo, n) - (if lo <= f then 1 else 0)
    decreases n - lo
  {
    if lo < n { FreeCountTake(levels, levels', lo + 1, n, f); }
  }
}
