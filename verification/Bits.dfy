/** Single-bit operations on a byte buffer, as lib/bits.c has them. */
module Bits {

  /** The bit operations see a byte and an index within it. */
  function Mask(j: nat): bv8
    requires j < 8
  {
    1 << j
  }

  ghost predicate IsSet(b: bv8, j: nat)
    requires j < 8
  {
    b & Mask(j) != 0
  }

  /** `bitread`: the byte shifted down, without masking the bits above. */
  function BitRead(index: nat, buf: seq<bv8>): bv8
    requires index / 8 < |buf|
  {
    buf[index / 8] >> (index % 8)
  }

  /** The documented reading: 1 if the bit is set, else 0. */
  ghost function BitValue(b: bv8, j: nat): bv8
    requires j < 8
  {
    if IsSet(b, j) then 1 else 0
  }

  ghost predicate NothingAbove(b: bv8, j: nat)
    requires j < 8
  {
    forall k :: j < k < 8 ==> !IsSet(b, k)
  }

  /** The unmasked shift is 0 exactly when the bit and all above are clear, 1 exactly when the
      bit is the highest set, and so is the documented value exactly when nothing above is set. */
  lemma {:induction false} ShiftReads(b: bv8, j: nat)
    requires j < 8
    ensures b >> j == 0 <==> !IsSet(b, j) && NothingAbove(b, j)
    ensures b >> j == 1 <==> IsSet(b, j) && NothingAbove(b, j)
    ensures b >> j == BitValue(b, j) <==> NothingAbove(b, j)
  {
    AboveSplits(b, j);
    ShiftList(b, j);
  }

  ghost predicate AboveList(b: bv8, j: nat)
    requires j < 8
  {
    && (j < 1 ==> !IsSet(b, 1)) && (j < 2 ==> !IsSet(b, 2)) && (j < 3 ==> !IsSet(b, 3)) && (j < 4 ==> !IsSet(b, 4))
    && (j < 5 ==> !IsSet(b, 5)) && (j < 6 ==> !IsSet(b, 6)) && (j < 7 ==> !IsSet(b, 7))
  }

  lemma AboveSplits(b: bv8, j: nat)
    requires j < 8
    ensures NothingAbove(b, j) <==> AboveList(b, j)
  {
    if AboveList(b, j) {
      forall k | j < k < 8 ensures !IsSet(b, k) {
        assert k == 1 || k == 2 || k == 3 || k == 4 || k == 5 || k == 6 || k == 7;
      }
    }
  }

  lemma ShiftList(b: bv8, j: nat)
    requires j < 8
    ensures b >> j == 0 <==> !IsSet(b, j) && AboveList(b, j)
    ensures b >> j == 1 <==> IsSet(b, j) && AboveList(b, j)
  {
    if j == 0 {
    } else if j == 1 {
    } else if j == 2 {
    } else if j == 3 {
    } else if j == 4 {
    } else if j == 5 {
    } else if j == 6 {
    } else {
    }
  }

  method BitSet(index: nat, buf: array<bv8>)
    requires index / 8 < buf.Length
    modifies buf
    ensures buf[..] == old(buf[..])[index / 8 := old(buf[index / 8]) | Mask(index % 8)]
  {
    buf[index / 8] := buf[index / 8] | Mask(index % 8);
  }

  method BitClean(index: nat, buf: array<bv8>)
    requires index / 8 < buf.Length
    modifies buf
    ensures buf[..] == old(buf[..])[index / 8 := old(buf[index / 8]) & !Mask(index % 8)]
  {
    buf[index / 8] := buf[index / 8] & !Mask(index % 8);
  }

  /** Sets the bit and says so exactly when it and every bit above it in its byte are clear. */
  method Test0AndSet(index: nat, buf: array<bv8>) returns (done: bool)
    requires index / 8 < buf.Length
    modifies buf
    ensures done <==> !IsSet(old(buf[index / 8]), index % 8) && NothingAbove(old(buf[index / 8]), index % 8)
    ensures buf[..] == if done then old(buf[..])[index / 8 := old(buf[index / 8]) | Mask(index % 8)] else old(buf[..])
  {
    ShiftReads(buf[index / 8], index % 8);
    if BitRead(index, buf[..]) == 0 {
      BitSet(index, buf);
      return true;
    }
    return false;
  }

  /** Clears the bit and says so exactly when it is the highest set bit of its byte. */
  method Test1AndSet(index: nat, buf: array<bv8>) returns (done: bool)
    requires index / 8 < buf.Length
    modifies buf
    ensures done <==> IsSet(old(buf[index / 8]), index % 8) && NothingAbove(old(buf[index / 8]), index % 8)
    ensures buf[..] == if done then old(buf[..])[index / 8 := old(buf[index / 8]) & !Mask(index % 8)] else old(buf[..])
  {
    ShiftReads(buf[index / 8], index % 8);
    if BitRead(index, buf[..]) == 1 {
      BitClean(index, buf);
      return true;
    }
    return false;
  }

  // ---- bytes filled from the bottom ----

  /** 2^k - 1: the lowest `k` bits set. */
  ghost function Ones(k: nat): bv8
    requires k <= 8
  {
    if k == 0 then 0 else if k == 1 then 1 else if k == 2 then 3 else if k == 3 then 7 else if k == 4 then 15
    else if k == 5 then 31 else if k == 6 then 63 else if k == 7 then 127 else 255
  }

  lemma OnesBits(k: nat, j: nat)
    requires k <= 8 && j < 8
    ensures IsSet(Ones(k), j) <==> j < k
  {
    if j == 0 {
    } else if j == 1 {
    } else if j == 2 {
    } else if j == 3 {
    } else if j == 4 {
    } else if j == 5 {
    } else if j == 6 {
    } else {
    }
  }

  lemma OnesNext(k: nat)
    requires k < 8
    ensures Ones(k) | Mask(k) == Ones(k + 1) && Ones(k + 1) & !Mask(k) == Ones(k)
  {
  }

  /** In a byte filled from the bottom, the tests see exactly the fill level. */
  lemma {:induction false} OnesTests(k: nat, j: nat)
    requires k <= 8 && j < 8
    ensures !IsSet(Ones(k), j) && NothingAbove(Ones(k), j) <==> k <= j
    ensures IsSet(Ones(k), j) && NothingAbove(Ones(k), j) <==> k == j + 1
  {
    OnesBits(k, j);
    forall i | j < i < 8 ensures IsSet(Ones(k), i) <==> i < k { OnesBits(k, i); }
    if k > j + 1 { assert IsSet(Ones(k), j + 1); }
  }

  /** Byte `b` of the map is filled to level `levels[b]`. */
  ghost predicate Filled(map': seq<bv8>, levels: seq<nat>) {
    && |map'| == |levels|
    && forall b :: 0 <= b < |levels| ==> FilledAt(map', levels, b)
  }

  ghost predicate FilledAt(map': seq<bv8>, levels: seq<nat>, b: nat)
    requires b < |levels| == |map'|
  {
    levels[b] <= 8 && map'[b] == Ones(levels[b])
  }

  /** An index below its byte's level is taken. */
  ghost predicate Taken(levels: seq<nat>, index: nat) {
    index / 8 < |levels| && index % 8 < levels[index / 8]
  }

  /** Setting the first free bit of a filled byte, or clearing its highest set bit, leaves it filled. */
  lemma {:induction false} FilledStep(map': seq<bv8>, levels: seq<nat>, index: nat)
    requires Filled(map', levels) && index / 8 < |map'|
    ensures levels[index / 8] == index % 8 ==>
              Filled(map'[index / 8 := map'[index / 8] | Mask(index % 8)], levels[index / 8 := index % 8 + 1])
    ensures levels[index / 8] == index % 8 + 1 ==>
              Filled(map'[index / 8 := map'[index / 8] & !Mask(index % 8)], levels[index / 8 := index % 8])
  {
    OnesNext(index % 8);
    assert FilledAt(map', levels, index / 8);
    if levels[index / 8] == index % 8 {
      FilledSet(map', levels, index / 8, map'[index / 8] | Mask(index % 8), index % 8 + 1);
    }
    if levels[index / 8] == index % 8 + 1 {
      FilledSet(map', levels, index / 8, map'[index / 8] & !Mask(index % 8), index % 8);
    }
  }

  lemma {:induction false} FilledSet(map': seq<bv8>, levels: seq<nat>, b: nat, byte: bv8, level: nat)
    requires Filled(map', levels) && b < |levels| && level <= 8 && byte == Ones(level)
    ensures Filled(map'[b := byte], levels[b := level])
  {
    var m, l := map'[b := byte], levels[b := level];
    forall i | 0 <= i < |l| ensures FilledAt(m, l, i) { assert FilledAt(map', levels, i); }
  }

  lemma {:induction false} RaiseTaken(levels: seq<nat>, f: nat, i: nat)
    requires f / 8 < |levels| && levels[f / 8] == f % 8
    ensures Taken(levels[f / 8 := f % 8 + 1], i) <==> Taken(levels, i) || i == f
  {
    if i / 8 == f / 8 && i % 8 == f % 8 { assert i == 8 * (i / 8) + i % 8 && f == 8 * (f / 8) + f % 8; }
  }

  lemma {:induction false} LowerTaken(levels: seq<nat>, f: nat, i: nat)
    requires f / 8 < |levels| && levels[f / 8] == f % 8 + 1
    ensures Taken(levels[f / 8 := f % 8], i) <==> Taken(levels, i) && i != f
  {
    if i / 8 == f / 8 && i % 8 == f % 8 { assert i == 8 * (i / 8) + i % 8 && f == 8 * (f / 8) + f % 8; }
  }

  /** A free index behind a taken one is the first free index of its byte. */
  lemma {:induction false} Level(levels: seq<nat>, f: nat)
    requires 0 < f && f / 8 < |levels| && Taken(levels, f - 1)
    ensures levels[f / 8] <= f % 8 ==> levels[f / 8] == f % 8
  {
    if f % 8 > 0 { assert (f - 1) / 8 == f / 8 && (f - 1) % 8 == f % 8 - 1; }
  }

  /** In a filled map the unmasked read is 0 exactly for an index that is not taken. */
  lemma {:induction false} ReadsLevel(map': seq<bv8>, levels: seq<nat>, index: nat)
    requires Filled(map', levels) && index / 8 < |map'|
    ensures BitRead(index, map') == 0 <==> levels[index / 8] <= index % 8
  {
    assert FilledAt(map', levels, index / 8);
    ShiftReads(map'[index / 8], index % 8);
    OnesTests(levels[index / 8], index % 8);
  }
}
