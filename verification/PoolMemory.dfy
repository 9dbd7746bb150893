/** The headers of mm/mm.c in memory, and how they record a block list. */
module PoolMemory {
  import opened PoolList

  const NULL: int := 0

  /** `struct mmnode`, with links as addresses. */
  datatype Header = Header(pthisaddr: int, thissize: int, busy: bool, pre: int, next: int)

  type Memory = map<int, Header>

  ghost function Before(s: seq<Block>, k: int): int {
    if 0 < k <= |s| then s[k - 1].addr else NULL
  }

  ghost function After(s: seq<Block>, k: int): int {
    if 0 <= k < |s| - 1 then s[k + 1].addr else NULL
  }

  ghost function HeaderOf(s: seq<Block>, k: int): Header
    requires 0 <= k < |s|
  {
    Header(s[k].addr + HDR, s[k].size, s[k].busy, Before(s, k), After(s, k))
  }

  /** Memory holds the headers of the blocks, doubly linked in list order. */
  ghost predicate Held(m: Memory, s: seq<Block>) {
    forall k :: 0 <= k < |s| ==> HeldAt(m, s, k)
  }

  ghost predicate HeldAt(m: Memory, s: seq<Block>, k: int)
    requires 0 <= k < |s|
  {
    s[k].addr in m && m[s[k].addr] == HeaderOf(s, k)
  }

  /** The header at `a` is the same in both memories. */
  ghost predicate Same(m: Memory, m': Memory, a: int) {
    a in m ==> a in m' && m'[a] == m[a]
  }

  /** Nothing outside `base..end` changed. */
  ghost predicate Outside(m: Memory, m': Memory, base: int, end: int) {
    forall a :: a in m && !(base <= a < end) ==> a in m' && m'[a] == m[a]
  }

  lemma {:induction false} AddrsDiffer(s: seq<Block>, base: int, end: int, i: nat, j: nat)
    requires Tiles(s, base, end) && i < |s| && j < |s| && i != j
    ensures s[i].addr != s[j].addr
  {
    if i < j { Ordered(s, base, end, i, j); } else { Ordered(s, base, end, j, i); }
  }

  lemma {:induction false} HeaderBefore(s: seq<Block>, i: nat, mid: seq<Block>, rest: seq<Block>, k: nat)
    requires k < i <= |s| && mid != []
    ensures HeaderOf(s[..i] + mid + rest, k) ==
            if k < i - 1 then HeaderOf(s, k) else HeaderOf(s, k).(next := mid[0].addr)
  {
  }

  lemma {:induction false} HeaderAfter(s: seq<Block>, j: nat, front: seq<Block>, mid: seq<Block>, k: nat)
    requires j <= k < |s| && mid != []
    ensures HeaderOf(front + mid + s[j..], |front| + |mid| + k - j) ==
            if k > j then HeaderOf(s, k) else HeaderOf(s, k).(pre := mid[|mid| - 1].addr)
  {
    var t, n := front + mid + s[j..], |front| + |mid| + k - j;
    assert t[n] == s[k];
    assert k > j ==> t[n - 1] == s[k - 1];
    assert k + 1 < |s| ==> t[n + 1] == s[k + 1];
  }

  /** Replacing blocks `i..j` by `mid`: the headers of `mid` are written, the neighbours are
      relinked to its ends, and every other header is as it was. */
  lemma {:induction false} HeldReplace(m: Memory, m': Memory, s: seq<Block>, i: nat, j: nat, mid: seq<Block>)
    requires Held(m, s) && i < j <= |s| && mid != []
    requires forall k :: (0 <= k < i - 1 || j < k < |s|) ==> Same(m, m', s[k].addr)
    requires i > 0 ==> var a := s[i - 1].addr;
                       a in m' && m'[a] == HeaderOf(s, i - 1).(next := mid[0].addr)
    requires j < |s| ==> var a := s[j].addr;
                         a in m' && m'[a] == HeaderOf(s, j).(pre := mid[|mid| - 1].addr)
    requires forall k :: i <= k < i + |mid| ==> HeldAt(m', s[..i] + mid + s[j..], k)
    ensures Held(m', s[..i] + mid + s[j..])
  {
    var t := s[..i] + mid + s[j..];
    forall k | 0 <= k < |t| ensures HeldAt(m', t, k) {
      if k < i {
        HeaderBefore(s, i, mid, s[j..], k);
        assert HeldAt(m, s, k) && t[k] == s[k];
      } else if k >= i + |mid| {
        var n := k - i - |mid| + j;
        HeaderAfter(s, j, s[..i], mid, n);
        assert HeldAt(m, s, n) && t[k] == s[n];
      }
    }
  }

  // ---- allocation ----

  /** The memory after `mm_bestfit` splits the block at `best`. */
  ghost function Carved(m: Memory, best: int, size: int): Memory
    requires best in m
  {
    var h := m[best];
    var pset := h.pthisaddr + size;
    var m1 := m[best := h.(busy := true, thissize := size, next := pset)]
               [pset := Header(pset + HDR, h.thissize - size - HDR, false, best, h.next)];
    if h.next != NULL && h.next in m1 then m1[h.next := m1[h.next].(pre := pset)] else m1
  }

  lemma {:induction false} CarvedHeld(m: Memory, s: seq<Block>, i: nat, size: int, base: int, end: int)
    requires 0 < base && Tiles(s, base, end) && Held(m, s) && i < |s| && Fits(s[i], size) && size >= 0
    requires s[i].addr in m
    ensures Held(Carved(m, s[i].addr, size), Split(s, i, size))
    ensures Outside(m, Carved(m, s[i].addr, size), base, end)
  {
    var m' := Carved(m, s[i].addr, size);
    var a, b := Block(s[i].addr, size, true), Block(s[i].addr + HDR + size, s[i].size - size - HDR, false);
    var t := s[..i] + [a, b] + s[i + 1..];
    assert HeldAt(m, s, i);
    StartsAfter(s, base, end, i);
    EndsBefore(s, base, end, i);
    forall k | 0 <= k < |s| && k != i ensures s[k].addr != s[i].addr && s[k].addr != b.addr {
      if k < i { Ordered(s, base, end, k, i); } else { Ordered(s, base, end, i, k); }
    }
    if i + 1 < |s| {
      assert HeldAt(m, s, i + 1);
      Ordered(s, base, end, i, i + 1);
      forall k | 0 <= k < |s| && k != i + 1 ensures s[k].addr != s[i + 1].addr { AddrsDiffer(s, base, end, k, i + 1); }
    }
    if i > 0 { assert HeldAt(m, s, i - 1); }
    assert t[i] == a && t[i + 1] == b;
    assert i > 0 ==> t[i - 1] == s[i - 1];
    assert i + 1 < |s| ==> t[i + 2] == s[i + 1];
    assert HeldAt(m', t, i) && HeldAt(m', t, i + 1);
    HeldReplace(m, m', s, i, i + 1, [a, b]);
  }

  // ---- freeing ----

  /** What the free of block `i` must leave in memory: one header for the merged block, the
      block after it linked back to it, and every other listed header as it was. */
  ghost predicate Merges(m: Memory, m': Memory, s: seq<Block>, i: nat)
    requires i < |s|
  {
    var lo, hi := LeftOf(s, i), RightOf(s, i);
    && s[lo].addr in m'
    && m'[s[lo].addr] == Header(s[lo].addr + HDR, MergedBlock(s, i).size, false, Before(s, lo), After(s, hi - 1))
    && (hi < |s| ==> s[hi].addr in m' && m'[s[hi].addr] == HeaderOf(s, hi).(pre := s[lo].addr))
    && (forall k :: 0 <= k < |s| && (k < lo || k > hi) ==> Same(m, m', s[k].addr))
  }

  lemma {:induction false} MergesHeld(m: Memory, m': Memory, s: seq<Block>, i: nat)
    requires Separated(s) && Held(m, s) && i < |s| && Merges(m, m', s, i)
    ensures Held(m', Freed(s, i))
  {
    FreedIsLocal(s, i);
    var lo, hi := LeftOf(s, i), RightOf(s, i);
    var t := s[..lo] + [MergedBlock(s, i)] + s[hi..];
    if lo > 0 { assert HeldAt(m, s, lo - 1) && Same(m, m', s[lo - 1].addr); }
    assert lo > 0 ==> t[lo - 1] == s[lo - 1];
    assert hi < |s| ==> t[lo + 1] == s[hi];
    assert HeldAt(m', t, lo);
    HeldReplace(m, m', s, lo, hi, [MergedBlock(s, i)]);
  }
}
