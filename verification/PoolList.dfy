/** A memory pool as the list of its blocks, in address order. */
module PoolList {

  /** sizeof(struct mmnode): five 32-bit words. */
  const HDR: int := 20

  /** One header and the payload after it. */
  datatype Block = Block(addr: int, size: int, busy: bool)

  ghost function End(b: Block): int { b.addr + HDR + b.size }

  /** The blocks fill `base..end` exactly, each header right after the previous payload. */
  ghost predicate Tiles(s: seq<Block>, base: int, end: int) {
    && s != [] && s[0].addr == base && End(s[|s| - 1]) == end
    && (forall i :: 0 <= i < |s| ==> s[i].size >= 0)
    && (forall i :: 0 <= i < |s| - 1 ==> NextTo(s, i))
  }

  ghost predicate NextTo(s: seq<Block>, i: nat)
    requires i + 1 < |s|
  {
    s[i + 1].addr == End(s[i])
  }

  /** No two neighbours are both idle. */
  ghost predicate Separated(s: seq<Block>) {
    forall i :: 0 <= i < |s| - 1 ==> SeparatedAt(s, i)
  }

  ghost predicate SeparatedAt(s: seq<Block>, i: nat)
    requires i + 1 < |s|
  {
    s[i].busy || s[i + 1].busy
  }

  ghost predicate Wellformed(s: seq<Block>, base: int, end: int) {
    Tiles(s, base, end) && Separated(s) && !s[|s| - 1].busy
  }

  ghost function IdleSum(s: seq<Block>): int {
    if s == [] then 0 else (if s[0].busy then 0 else s[0].size) + IdleSum(s[1..])
  }

  /** The blocks in use, in order. */
  ghost function Live(s: seq<Block>): seq<Block> {
    if s == [] then [] else (if s[0].busy then [s[0]] else []) + Live(s[1..])
  }

  // ---- reference operations ----

  /** Merges every run of idle neighbours into one block. */
  ghost function Coalesce(s: seq<Block>): seq<Block> {
    if s == [] then []
    else
      var rest := Coalesce(s[1..]);
      if !s[0].busy && rest != [] && !rest[0].busy
      then [Block(s[0].addr, s[0].size + HDR + rest[0].size, false)] + rest[1..]
      else [s[0]] + rest
  }

  /** Marks block `i` idle and merges. */
  ghost function Freed(s: seq<Block>, i: nat): seq<Block>
    requires i < |s|
  {
    Coalesce(s[i := s[i].(busy := false)])
  }

  /** Gives the first `size` bytes of block `i` away; a new idle block holds the rest. */
  ghost function Split(s: seq<Block>, i: nat, size: int): seq<Block>
    requires i < |s|
  {
    s[..i] + [Block(s[i].addr, size, true), Block(s[i].addr + HDR + size, s[i].size - size - HDR, false)] + s[i + 1..]
  }

  ghost predicate Fits(b: Block, size: int) {
    !b.busy && b.size >= size + HDR
  }

  /** What `mm_bestfit` picks: the tail if it fits, else the first of the smallest that fit. */
  ghost predicate Best(s: seq<Block>, size: int, i: nat) {
    && i < |s| && Fits(s[i], size)
    && (Fits(s[|s| - 1], size) ==> i == |s| - 1)
    && (i < |s| - 1 ==>
          && (forall j :: 0 <= j < |s| && Fits(s[j], size) ==> s[i].size <= s[j].size)
          && (forall j :: 0 <= j < i && Fits(s[j], size) ==> s[i].size < s[j].size))
  }

  /** There is at most one best block. */
  lemma {:induction false} BestUnique(s: seq<Block>, size: int, i: nat, j: nat)
    requires Best(s, size, i) && Best(s, size, j)
    ensures i == j
  {
  }

  // ---- sums and live blocks ----

  lemma {:induction false} SumsConcat(a: seq<Block>, b: seq<Block>)
    ensures IdleSum(a + b) == IdleSum(a) + IdleSum(b)
    ensures Live(a + b) == Live(a) + Live(b)
  {
    if a == [] {
      assert a + b == b;
    } else {
      assert (a + b)[0] == a[0] && (a + b)[1..] == a[1..] + b;
      SumsConcat(a[1..], b);
      var first := if a[0].busy then [a[0]] else [];
      assert first + (Live(a[1..]) + Live(b)) == first + Live(a[1..]) + Live(b);
    }
  }

  lemma {:induction false} CoalesceHead(s: seq<Block>)
    requires s != []
    ensures Coalesce(s) != [] && Coalesce(s)[0].addr == s[0].addr && Coalesce(s)[0].busy == s[0].busy
  {
  }

  /** Merging keeps the live blocks, the tiling and every byte: a merge turns one header into payload. */
  lemma {:induction false} CoalesceConserves(s: seq<Block>)
    ensures Live(Coalesce(s)) == Live(s)
    ensures IdleSum(Coalesce(s)) == IdleSum(s) + HDR * (|s| - |Coalesce(s)|)
  {
    if s != [] {
      CoalesceConserves(s[1..]);
      var rest := Coalesce(s[1..]);
      if !s[0].busy && rest != [] && !rest[0].busy {
        assert Coalesce(s)[1..] == rest[1..];
      } else {
        assert Coalesce(s)[1..] == rest;
      }
    }
  }

  lemma {:induction false} CoalesceSeparates(s: seq<Block>)
    ensures Separated(Coalesce(s))
  {
    if s != [] {
      CoalesceSeparates(s[1..]);
      var rest, t := Coalesce(s[1..]), Coalesce(s);
      forall i | 0 <= i < |t| - 1 ensures SeparatedAt(t, i) {
        if |t| == |rest| {
          assert SeparatedAt(rest, i);
        } else if i > 0 {
          assert SeparatedAt(rest, i - 1);
        }
      }
    }
  }

  lemma {:induction false} SeparatedTail(s: seq<Block>)
    requires s != [] && Separated(s)
    ensures Separated(s[1..])
  {
    var t := s[1..];
    forall i | 0 <= i < |t| - 1 ensures SeparatedAt(t, i) { assert SeparatedAt(s, i + 1); }
  }

  lemma TilesTail(s: seq<Block>, base: int, end: int)
    requires Tiles(s, base, end) && |s| > 1
    ensures Tiles(s[1..], End(s[0]), end)
  {
    var t := s[1..];
    assert NextTo(s, 0);
    forall i | 0 <= i < |t| - 1 ensures NextTo(t, i) { assert NextTo(s, i + 1); }
  }

  lemma TilesCons(b: Block, s: seq<Block>, end: int)
    requires b.size >= 0 && Tiles(s, End(b), end)
    ensures Tiles([b] + s, b.addr, end)
  {
    var t := [b] + s;
    forall i | 0 <= i < |t| - 1 ensures NextTo(t, i) { assert i > 0 ==> NextTo(s, i - 1); }
  }

  lemma {:induction false} CoalesceTiles(s: seq<Block>, base: int, end: int)
    requires Tiles(s, base, end)
    ensures Tiles(Coalesce(s), base, end)
  {
    if |s| == 1 {
      assert Coalesce(s) == s;
    } else {
      TilesTail(s, base, end);
      CoalesceTiles(s[1..], End(s[0]), end);
      var rest := Coalesce(s[1..]);
      if !s[0].busy && !rest[0].busy {
        assert Coalesce(s) == [Block(s[0].addr, s[0].size + HDR + rest[0].size, false)] + rest[1..];
        TilesMerge(s[0], rest, end);
      } else {
        assert Coalesce(s) == [s[0]] + rest;
        TilesCons(s[0], rest, end);
      }
    }
  }

  lemma {:induction false} CoalesceLast(s: seq<Block>)
    requires s != []
    ensures Coalesce(s) != [] && Coalesce(s)[|Coalesce(s)| - 1].busy == s[|s| - 1].busy
  {
    if |s| > 1 { CoalesceLast(s[1..]); }
  }

  lemma TilesMerge(b: Block, s: seq<Block>, end: int)
    requires b.size >= 0 && Tiles(s, End(b), end)
    ensures Tiles([Block(b.addr, b.size + HDR + s[0].size, false)] + s[1..], b.addr, end)
  {
    var t := [Block(b.addr, b.size + HDR + s[0].size, false)] + s[1..];
    forall i | 0 <= i < |t| - 1 ensures NextTo(t, i) { assert NextTo(s, i); }
  }

  lemma {:induction false} SeparatedIsCoalesced(s: seq<Block>)
    requires Separated(s)
    ensures Coalesce(s) == s
  {
    if s != [] {
      SeparatedTail(s);
      SeparatedIsCoalesced(s[1..]);
      assert |s| > 1 ==> SeparatedAt(s, 0);
      assert s == [s[0]] + s[1..];
    }
  }

  // ---- freeing one block ----

  ghost function LeftOf(s: seq<Block>, i: nat): nat
    requires i < |s|
  {
    if i > 0 && !s[i - 1].busy then i - 1 else i
  }

  ghost function RightOf(s: seq<Block>, i: nat): nat
    requires i < |s|
  {
    if i + 1 < |s| && !s[i + 1].busy then i + 2 else i + 1
  }

  /** The block that the free of block `i` leaves behind. */
  ghost function MergedBlock(s: seq<Block>, i: nat): Block
    requires i < |s|
  {
    Block(s[LeftOf(s, i)].addr,
          s[i].size + (if LeftOf(s, i) < i then s[i - 1].size + HDR else 0)
                    + (if RightOf(s, i) > i + 1 then s[i + 1].size + HDR else 0),
          false)
  }

  /** Block `i` and its idle neighbours replaced by one block. */
  ghost function Joined(s: seq<Block>, i: nat): seq<Block>
    requires i < |s|
  {
    s[..LeftOf(s, i)] + [MergedBlock(s, i)] + s[RightOf(s, i)..]
  }

  /** In a list without idle neighbours, freeing block `i` merges it with at most the block
      before and the block after. */
  lemma {:induction false} FreedIsLocal(s: seq<Block>, i: nat)
    requires i < |s| && Separated(s)
    ensures Freed(s, i) == Joined(s, i)
  {
    if i == 0 {
      FreedFirst(s);
    } else if i == 1 && !s[0].busy {
      FreedJoinsFirst(s);
    } else {
      SeparatedTail(s);
      FreedIsLocal(s[1..], i - 1);
      FreedBeyond(s, i);
      JoinedBeyond(s, i);
    }
  }

  lemma {:induction false} JoinedBeyond(s: seq<Block>, i: nat)
    requires 0 < i < |s| && (i == 1 ==> s[0].busy)
    ensures Joined(s, i) == [s[0]] + Joined(s[1..], i - 1)
  {
    ShiftLocal(s, i);
    Prepend(s, LeftOf(s, i), MergedBlock(s, i), RightOf(s, i));
  }

  lemma {:induction false} FreedFirst(s: seq<Block>)
    requires s != [] && Separated(s)
    ensures Freed(s, 0) == [MergedBlock(s, 0)] + s[RightOf(s, 0)..]
  {
    assert s[0 := s[0].(busy := false)][1..] == s[1..];
    SeparatedTail(s);
    SeparatedIsCoalesced(s[1..]);
  }

  lemma {:induction false} FreedJoinsFirst(s: seq<Block>)
    requires |s| > 1 && Separated(s) && !s[0].busy
    ensures Freed(s, 1) == [MergedBlock(s, 1)] + s[RightOf(s, 1)..]
  {
    var r := s[1..];
    assert s[1 := s[1].(busy := false)][1..] == r[0 := r[0].(busy := false)];
    SeparatedTail(s);
    FreedFirst(r);
    assert s[RightOf(s, 1)..] == r[RightOf(r, 0)..];
  }

  lemma {:induction false} FreedBeyond(s: seq<Block>, i: nat)
    requires 0 < i < |s| && Separated(s) && (i == 1 ==> s[0].busy)
    ensures Freed(s, i) == [s[0]] + Freed(s[1..], i - 1)
  {
    var r, s' := s[1..], s[i := s[i].(busy := false)];
    assert s'[1..] == r[i - 1 := r[i - 1].(busy := false)];
    CoalesceHead(s'[1..]);
    assert SeparatedAt(s, 0);
  }

  lemma ShiftLocal(s: seq<Block>, i: nat)
    requires 0 < i < |s| && (i == 1 ==> s[0].busy)
    ensures LeftOf(s, i) == LeftOf(s[1..], i - 1) + 1
    ensures RightOf(s, i) == RightOf(s[1..], i - 1) + 1
    ensures MergedBlock(s, i) == MergedBlock(s[1..], i - 1)
  {
  }

  lemma Prepend(s: seq<Block>, lo: nat, b: Block, hi: nat)
    requires 0 < lo <= |s| && 0 < hi <= |s|
    ensures [s[0]] + (s[1..][..lo - 1] + [b] + s[1..][hi - 1..]) == s[..lo] + [b] + s[hi..]
  {
  }

  lemma {:induction false} SumsAt(s: seq<Block>, i: nat)
    requires i < |s|
    ensures IdleSum(s) == IdleSum(s[..i]) + (if s[i].busy then 0 else s[i].size) + IdleSum(s[i + 1..])
    ensures Live(s) == Live(s[..i]) + (if s[i].busy then [s[i]] else []) + Live(s[i + 1..])
  {
    assert s == s[..i] + [s[i]] + s[i + 1..];
    SumsConcat(s[..i], [s[i]]);
    SumsConcat(s[..i] + [s[i]], s[i + 1..]);
  }

  /** Freeing takes exactly that block out of the live ones, and recovers its payload and
      the header of every neighbour it swallows. */
  lemma {:induction false} FreedSums(s: seq<Block>, i: nat)
    requires Separated(s) && i < |s| && s[i].busy
    ensures Live(s) == Live(s[..i]) + [s[i]] + Live(s[i + 1..])
    ensures Live(Freed(s, i)) == Live(s[..i]) + Live(s[i + 1..])
    ensures IdleSum(Freed(s, i)) == IdleSum(s) + s[i].size + HDR * (RightOf(s, i) - LeftOf(s, i) - 1)
  {
    var s' := s[i := s[i].(busy := false)];
    CoalesceConserves(s');
    FreedIsLocal(s, i);
    SumsAt(s, i);
    SumsAt(s', i);
    assert s'[..i] == s[..i] && s'[i + 1..] == s[i + 1..];
  }

  lemma {:induction false} FreedWellformed(s: seq<Block>, i: nat, base: int, end: int)
    requires Wellformed(s, base, end) && i < |s| && s[i].busy
    ensures Wellformed(Freed(s, i), base, end)
  {
    var s' := s[i := s[i].(busy := false)];
    forall k | 0 <= k < |s'| - 1 ensures NextTo(s', k) { assert NextTo(s, k); }
    assert Tiles(s', base, end);
    CoalesceTiles(s', base, end);
    CoalesceLast(s');
    CoalesceSeparates(s');
  }

  // ---- allocating ----

  lemma {:induction false} SplitWellformed(s: seq<Block>, i: nat, size: int, base: int, end: int)
    requires Wellformed(s, base, end) && i < |s| && Fits(s[i], size) && size >= 0
    ensures Wellformed(Split(s, i, size), base, end)
  {
    var t := Split(s, i, size);
    forall k | 0 <= k < |t| - 1 ensures NextTo(t, k) && SeparatedAt(t, k) {
      if k < i {
        assert NextTo(s, k) && SeparatedAt(s, k);
      } else if k > i {
        assert NextTo(s, k - 1) && SeparatedAt(s, k - 1);
      }
    }
  }

  lemma {:induction false} SplitSums(s: seq<Block>, i: nat, size: int)
    requires i < |s| && Fits(s[i], size)
    ensures Live(s) == Live(s[..i]) + Live(s[i + 1..])
    ensures Live(Split(s, i, size)) == Live(s[..i]) + [Block(s[i].addr, size, true)] + Live(s[i + 1..])
    ensures IdleSum(Split(s, i, size)) == IdleSum(s) - size - HDR
  {
    var a, b := Block(s[i].addr, size, true), Block(s[i].addr + HDR + size, s[i].size - size - HDR, false);
    SumsAt(s, i);
    assert [a, b] == [a] + [b];
    SumsConcat([a], [b]);
    SumsConcat(s[..i], [a, b]);
    SumsConcat(s[..i] + [a, b], s[i + 1..]);
  }

  /** Freeing what was just allocated restores the list. */
  lemma {:induction false} SplitThenFree(s: seq<Block>, i: nat, size: int)
    requires Separated(s) && i < |s| && Fits(s[i], size)
    ensures Separated(Split(s, i, size)) ==> Freed(Split(s, i, size), i) == s
  {
    var t := Split(s, i, size);
    if Separated(t) {
      FreedIsLocal(t, i);
      assert t[..i] == s[..i] && t[i + 2..] == s[i + 1..];
      assert i > 0 ==> t[i - 1] == s[i - 1] && SeparatedAt(s, i - 1);
      assert s == s[..i] + [s[i]] + s[i + 1..];
    }
  }

  /** Of two separated neighbours one is live. */
  lemma {:induction false} LongHasLive(s: seq<Block>)
    ensures Separated(s) && |s| > 1 ==> Live(s) != []
  {
    if Separated(s) && |s| > 1 {
      assert SeparatedAt(s, 0);
      SumsAt(s, if s[0].busy then 0 else 1);
    }
  }

  /** A well-formed pool with nothing in use is its single initial block. */
  lemma {:induction false} NothingLive(s: seq<Block>, base: int, end: int)
    requires Wellformed(s, base, end) && Live(s) == []
    ensures s == [Block(base, end - base - HDR, false)]
  {
    LongHasLive(s);
  }

  /** Headers and payloads of different blocks do not overlap. */
  lemma {:induction false} Ordered(s: seq<Block>, base: int, end: int, i: nat, j: nat)
    requires Tiles(s, base, end) && i < j < |s|
    ensures base <= s[i].addr && End(s[i]) <= s[j].addr && End(s[j]) <= end
    decreases j - i
  {
    StartsAfter(s, base, end, i);
    EndsBefore(s, base, end, j);
    assert NextTo(s, i);
    if i + 1 < j { Ordered(s, base, end, i + 1, j); }
  }

  lemma {:induction false} StartsAfter(s: seq<Block>, base: int, end: int, i: nat)
    requires Tiles(s, base, end) && i < |s|
    ensures base <= s[i].addr
  {
    if i > 0 {
      StartsAfter(s, base, end, i - 1);
      assert NextTo(s, i - 1);
    }
  }

  lemma {:induction false} EndsBefore(s: seq<Block>, base: int, end: int, i: nat)
    requires Tiles(s, base, end) && i < |s|
    ensures End(s[i]) <= end
    decreases |s| - i
  {
    if i + 1 < |s| {
      EndsBefore(s, base, end, i + 1);
      assert NextTo(s, i);
    }
  }

  // ---- whole runs ----

  datatype Op = Alloc(size: int) | Release(addr: int)

  /** One call on a pool: an allocation takes a best block or fails when none fits; a release
      names a live block. */
  ghost predicate Step(s: seq<Block>, op: Op, s': seq<Block>) {
    match op
    case Alloc(size) =>
      if size > 0 && exists i :: Best(s, size, i) then exists i :: Best(s, size, i) && s' == Split(s, i, size)
      else s' == s
    case Release(a) => exists i :: 0 <= i < |s| && s[i].busy && s[i].addr == a && s' == Freed(s, i)
  }

  ghost predicate Run(s: seq<Block>, ops: seq<Op>, s': seq<Block>)
    decreases |ops|
  {
    if ops == [] then s' == s
    else exists m :: Step(s, ops[0], m) && Run(m, ops[1..], s')
  }

  /** Every reachable pool is tiled, has no idle neighbours and ends with an idle block. */
  lemma {:induction false} RunWellformed(s: seq<Block>, ops: seq<Op>, s': seq<Block>, base: int, end: int)
    requires Wellformed(s, base, end) && Run(s, ops, s')
    ensures Wellformed(s', base, end)
    decreases |ops|
  {
    if ops != [] {
      var m :| Step(s, ops[0], m) && Run(m, ops[1..], s');
      StepWellformed(s, ops[0], m, base, end);
      RunWellformed(m, ops[1..], s', base, end);
    }
  }

  lemma {:induction false} StepWellformed(s: seq<Block>, op: Op, s': seq<Block>, base: int, end: int)
    requires Wellformed(s, base, end) && Step(s, op, s')
    ensures Wellformed(s', base, end)
  {
    match op
    case Alloc(size) =>
      if size > 0 && exists i :: Best(s, size, i) {
        var i :| Best(s, size, i) && s' == Split(s, i, size);
        SplitWellformed(s, i, size, base, end);
      }
    case Release(a) =>
      var i :| 0 <= i < |s| && s[i].busy && s[i].addr == a && s' == Freed(s, i);
      FreedWellformed(s, i, base, end);
  }

  ghost function Releases(order: seq<int>): seq<Op> {
    if order == [] then [] else [Release(order[0])] + Releases(order[1..])
  }

  /** The addresses of the blocks in use. */
  ghost function LiveAddrs(s: seq<Block>): multiset<int> {
    if s == [] then multiset{} else (if s[0].busy then multiset{s[0].addr} else multiset{}) + LiveAddrs(s[1..])
  }

  lemma {:induction false} LiveAddrsConcat(a: seq<Block>, b: seq<Block>)
    ensures LiveAddrs(a + b) == LiveAddrs(a) + LiveAddrs(b)
  {
    if a == [] {
      assert a + b == b;
    } else {
      assert (a + b)[1..] == a[1..] + b;
      LiveAddrsConcat(a[1..], b);
    }
  }

  /** The addresses can be read off the live blocks. */
  lemma {:induction false} LiveAddrsOf(s: seq<Block>)
    ensures LiveAddrs(s) == LiveAddrs(Live(s))
  {
    if s != [] {
      LiveAddrsOf(s[1..]);
      LiveAddrsConcat(if s[0].busy then [s[0]] else [], Live(s[1..]));
      assert [s[0]][1..] == [];
    }
  }

  lemma {:induction false} FindLive(s: seq<Block>, a: int) returns (i: nat)
    requires a in LiveAddrs(s)
    ensures i < |s| && s[i].busy && s[i].addr == a
  {
    if s[0].busy && s[0].addr == a {
      i := 0;
    } else {
      i := FindLive(s[1..], a);
      i := i + 1;
    }
  }

  lemma {:induction false} NoAddrs(s: seq<Block>)
    requires LiveAddrs(s) == multiset{}
    ensures Live(s) == []
  {
    if s != [] {
      assert s[0].addr !in LiveAddrs(s);
      assert LiveAddrs(s[1..]) == multiset{};
      NoAddrs(s[1..]);
    }
  }

  /** Freeing a live block takes its address out of those in use. */
  lemma {:induction false} FreedAddrs(s: seq<Block>, i: nat)
    requires Separated(s) && i < |s| && s[i].busy
    ensures LiveAddrs(s) == LiveAddrs(Freed(s, i)) + multiset{s[i].addr}
  {
    FreedSums(s, i);
    LiveAddrsOf(s);
    LiveAddrsOf(Freed(s, i));
    var a, b := Live(s[..i]), Live(s[i + 1..]);
    LiveAddrsConcat(a, b);
    LiveAddrsConcat(a + [s[i]], b);
    LiveAddrsConcat(a, [s[i]]);
    assert [s[i]][1..] == [];
  }

  lemma {:induction false} Cancel(a: multiset<int>, b: multiset<int>, x: int)
    requires a + multiset{x} == b + multiset{x}
    ensures a == b
  {
    assert a == a + multiset{x} - multiset{x};
    assert b == b + multiset{x} - multiset{x};
  }

  /** Releasing all live blocks is a run in every order, and gives back the initial pool. */
  lemma {:induction false} ReleaseAll(s: seq<Block>, order: seq<int>, base: int, end: int)
    requires Wellformed(s, base, end) && multiset(order) == LiveAddrs(s)
    ensures Run(s, Releases(order), [Block(base, end - base - HDR, false)])
    decreases |order|
  {
    if order == [] {
      NoAddrs(s);
      NothingLive(s, base, end);
    } else {
      assert order == [order[0]] + order[1..];
      assert order[0] in multiset(order);
      var i := FindLive(s, order[0]);
      FreedWellformed(s, i, base, end);
      FreedAddrs(s, i);
      var m := Freed(s, i);
      assert multiset(order) == multiset{order[0]} + multiset(order[1..]);
      Cancel(LiveAddrs(m), multiset(order[1..]), order[0]);
      assert Step(s, Release(order[0]), m);
      ReleaseAll(m, order[1..], base, end);
      assert Releases(order)[1..] == Releases(order[1..]);
    }
  }

  /** A release determines the pool it leaves, so every run of the releases ends there. */
  lemma {:induction false} ReleasesEnd(s: seq<Block>, order: seq<int>, s': seq<Block>, s'': seq<Block>, base: int,
                                       end: int)
    requires Wellformed(s, base, end) && Run(s, Releases(order), s') && Run(s, Releases(order), s'')
    ensures s' == s''
    decreases |order|
  {
    if order != [] {
      var ops := Releases(order);
      assert ops[0] == Release(order[0]) && ops[1..] == Releases(order[1..]);
      var m :| Step(s, ops[0], m) && Run(m, ops[1..], s');
      var n :| Step(s, ops[0], n) && Run(n, ops[1..], s'');
      SameRelease(s, order[0], m, n, base, end);
      StepWellformed(s, ops[0], m, base, end);
      ReleasesEnd(m, order[1..], s', s'', base, end);
    }
  }

  lemma {:induction false} SameRelease(s: seq<Block>, a: int, m: seq<Block>, n: seq<Block>, base: int, end: int)
    requires Wellformed(s, base, end) && Step(s, Release(a), m) && Step(s, Release(a), n)
    ensures m == n
  {
    var i :| 0 <= i < |s| && s[i].busy && s[i].addr == a && m == Freed(s, i);
    var j :| 0 <= j < |s| && s[j].busy && s[j].addr == a && n == Freed(s, j);
    if i < j { Ordered(s, base, end, i, j); }
    if j < i { Ordered(s, base, end, j, i); }
  }

  ghost function LiveSum(s: seq<Block>): int {
    if s == [] then 0 else (if s[0].busy then s[0].size else 0) + LiveSum(s[1..])
  }

  /** Idle bytes, live bytes and headers account for the whole pool. */
  lemma {:induction false} EveryByte(s: seq<Block>, base: int, end: int)
    requires Tiles(s, base, end)
    ensures IdleSum(s) + LiveSum(s) + HDR * |s| == end - base
  {
    if |s| > 1 {
      TilesTail(s, base, end);
      EveryByte(s[1..], End(s[0]), end);
    } else {
      assert s[1..] == [];
    }
  }
}
