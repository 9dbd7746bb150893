/** `allocspace`, `cp2user` and `cpfromuser` over physical memory and the frame map. */
module Paging {
  import opened Bits
  import opened Frames
  import opened PhysMem
  import opened PageTables
  import opened PageNeed
  import opened UserCopy

  class Machine {
    const frames: FrameMap
    var mem: Memory

    /** Frames that are not taken read as zero. */
    ghost predicate Valid()
      reads this, frames, frames.pagemap
    {
      && frames.Valid() && |mem| == frames.frames <= PAGES
      && (forall f :: frames.reserved <= f < |mem| && !Taken(frames.levels, f) ==> mem[f] == ZERO_FRAME)
    }

    /** `cr3` is the directory of an address space whose frames, with their uses, are `owner`. */
    ghost predicate Maps(cr3: nat, owner: Owners)
      reads this, frames
    {
      Space(mem, cr3, owner) && forall f :: f in owner ==> Taken(frames.levels, f)
    }

    ghost function FreeFrames(): nat
      reads frames
    {
      FreeCount(frames.levels, frames.reserved, frames.frames)
    }

    constructor (f: FrameMap, m: Memory)
      requires f.Valid() && |m| == f.frames <= PAGES
      requires forall i :: f.reserved <= i < |m| && !Taken(f.levels, i) ==> m[i] == ZERO_FRAME
      ensures Valid() && frames == f && mem == m
    {
      frames, mem := f, m;
    }

    /** A fresh zeroed frame, or 0 and nothing changed when none is left. */
    method TakeFrame() returns (f: nat)
      requires Valid()
      modifies frames`levels, frames`live, frames.pagemap
      ensures Valid() && (f == 0 <==> old(FreeFrames()) == 0)
      ensures f == 0 ==> frames.levels == old(frames.levels)
      ensures f != 0 ==>
                && frames.reserved <= f < |mem| && mem[f] == ZERO_FRAME
                && !Taken(old(frames.levels), f) && Taken(frames.levels, f)
                && (forall i: nat :: Taken(frames.levels, i) <==> Taken(old(frames.levels), i) || i == f)
                && FreeFrames() == old(FreeFrames()) - 1
    {
      ghost var before := frames.levels;
      FreeCountZero(before, frames.reserved, frames.frames);
      f := frames.Alloc();
      if f != 0 { FreeCountTake(before, frames.levels, frames.reserved, frames.frames, f); }
    }

    /** The first half of the loop body of `allocspace`: a table for directory entry `d`, if it has
        one or a frame is left. The entry is written either way. */
    method EnsureTable(cr3: nat, d: nat, ghost owner: Owners) returns (ghost owner': Owners)
      requires Valid() && Maps(cr3, owner) && d < ENTRIES
      modifies this`mem, frames`levels, frames`live, frames.pagemap
      ensures Valid() && Maps(cr3, owner') && TableStep(old(mem), mem, cr3, d, old(FreeFrames()))
      ensures Booked(owner, owner', old(frames.levels), frames.levels, frames.reserved)
      ensures FreeFrames() == Left(old(FreeFrames()), PageNeed.One(TableOf(old(mem), cr3, d) == 0))
      ensures TableWorded(old(mem), mem, cr3, d)
    {
      owner' := owner;
      var diritem := Entry(mem, cr3, d);
      if PageFromItem(diritem) == 0 {
        var f := TakeFrame();
        ItemRoundTrip(f, 7);
        TableWritten(mem, cr3, owner, d, f);
        DirWords(mem, cr3, owner, d, f, 7);
        mem := mem[cr3 := SetWord(mem[cr3], d, MakeItem(f, 7))];
        if f != 0 { owner' := owner[f := Table(d)]; }
      }
    }

    /** The second half: a frame for page `v`. Without one, a word is written all the same, in the
        page's table or, when it has no table, in frame 0. */
    method EnsurePage(cr3: nat, v: nat, attr: nat, ghost owner: Owners) returns (ghost owner': Owners)
      requires Valid() && Maps(cr3, owner) && v < PAGES && attr < PAGE_SIZE
      requires TableOf(mem, cr3, v / ENTRIES) == 0 ==> FreeFrames() == 0
      modifies this`mem, frames`levels, frames`live, frames.pagemap
      ensures Valid() && Maps(cr3, owner') && PageStep(old(mem), mem, cr3, v, old(FreeFrames()))
      ensures Booked(owner, owner', old(frames.levels), frames.levels, frames.reserved)
      ensures FreeFrames() == Left(old(FreeFrames()), PageNeed.One(PageOf(old(mem), cr3, v) == 0))
      ensures TableOf(old(mem), cr3, v / ENTRIES) == 0 ==> mem[0] == Stray(old(mem)[0], v % ENTRIES, attr)
      ensures PageWorded(old(mem), mem, cr3, v, attr)
    {
      owner' := owner;
      assert TableOk(mem, cr3, owner, v / ENTRIES);
      var t := TableOf(mem, cr3, v / ENTRIES);
      var tableitem := Entry(mem, t, v % ENTRIES);
      if PageFromItem(tableitem) == 0 {
        var f := TakeFrame();
        ItemRoundTrip(f, attr);
        PageWritten(mem, cr3, owner, v, f, attr);
        PageWords(mem, cr3, owner, v, MakeItem(f, attr));
        mem := mem[t := SetWord(mem[t], v % ENTRIES, MakeItem(f, attr))];
        if f != 0 { owner' := owner[f := Data(v)]; }
      }
    }

    /** The loop body of `allocspace`: page `v` gets what it lacks while frames are left. */
    method MapPage(cr3: nat, v: nat, attr: nat, ghost owner: Owners) returns (ghost owner': Owners)
      requires Valid() && Maps(cr3, owner) && v < PAGES && attr < PAGE_SIZE
      modifies this`mem, frames`levels, frames`live, frames.pagemap
      ensures Valid() && Maps(cr3, owner')
      ensures Grown(old(mem), mem, cr3, owner, owner', old(frames.levels), frames.levels, frames.reserved, v, v + 1)
      ensures Dealt(old(mem), mem, cr3, v, old(FreeFrames()), FreeFrames())
      ensures TableOf(old(mem), cr3, v / ENTRIES) == 0 && old(FreeFrames()) == 0 ==>
                mem[0] == Stray(old(mem)[0], v % ENTRIES, attr)
      ensures Worded(old(mem), mem, cr3, attr, v, v + 1)
    {
      ghost var m, l, free := mem, frames.levels, FreeFrames();
      ghost var owner1 := EnsureTable(cr3, v / ENTRIES, owner);
      ghost var m1, l1, free1 := mem, frames.levels, FreeFrames();
      assert (TableOf(m1, cr3, v / ENTRIES) == 0 ==> free1 == 0) && m1[0] == m[0]
          && (TableOf(m, cr3, v / ENTRIES) == 0 && free == 0 ==> TableOf(m1, cr3, v / ENTRIES) == 0) by {
        TableStepTable(m, m1, cr3, v / ENTRIES, free);
      }
      owner' := EnsurePage(cr3, v, attr, owner1);
      BothSteps(m, m1, mem, cr3, owner, owner1, owner', l, l1, frames.levels, frames.reserved, v, attr, free, free1);
    }

    /** What the loop of `allocspace` keeps, before page `v`. */
    ghost predicate Going(m0: Memory, l0: seq<nat>, free0: nat, cr3: nat, owner: Owners, owner': Owners, lo: nat,
                          v: nat, attr: nat)
      requires lo <= v < PAGES
      reads this, frames, frames.pagemap
    {
      && Valid() && Maps(cr3, owner')
      && Grown(m0, mem, cr3, owner, owner', l0, frames.levels, frames.reserved, lo, v)
      && Budget(m0, mem, cr3, lo, v, free0, FreeFrames()) && Worded(m0, mem, cr3, attr, lo, v)
    }

    method MapNext(cr3: nat, v: nat, attr: nat, ghost owner: Owners, ghost owner1: Owners,
                   ghost m0: Memory, ghost l0: seq<nat>, ghost free0: nat, ghost lo: nat) returns (ghost owner': Owners)
      requires lo <= v && v + 1 < PAGES && attr < PAGE_SIZE && Going(m0, l0, free0, cr3, owner, owner1, lo, v, attr)
      modifies this`mem, frames`levels, frames`live, frames.pagemap
      ensures Going(m0, l0, free0, cr3, owner, owner', lo, v + 1, attr)
    {
      ghost var m1, l1, free1 := mem, frames.levels, FreeFrames();
      owner' := MapPage(cr3, v, attr, owner1);
      BudgetNext(m0, m1, mem, cr3, lo, v, v + 1, free0, free1, FreeFrames());
      GrownTrans(m0, m1, mem, cr3, owner, owner1, owner', l0, l1, frames.levels, frames.reserved, lo, v, v + 1);
      WordedTrans(m0, m1, mem, cr3, attr, lo, v, v + 1);
    }

    /** The loop of `allocspace` over pages `lo..end`, both included. */
    method MapRange(cr3: nat, lo: nat, end: nat, attr: nat, ghost owner: Owners) returns (ghost owner': Owners)
      requires Valid() && Maps(cr3, owner) && attr < PAGE_SIZE && lo <= end + 1 < PAGES
      modifies this`mem, frames`levels, frames`live, frames.pagemap
      ensures Going(old(mem), old(frames.levels), old(FreeFrames()), cr3, owner, owner', lo, end + 1, attr)
    {
      owner' := owner;
      var start := lo;
      ghost var m0, l0, free0 := mem, frames.levels, FreeFrames();
      BudgetStart(m0, cr3, lo, free0);
      while start <= end
        invariant lo <= start <= end + 1 && Going(m0, l0, free0, cr3, owner, owner', lo, start, attr)
      {
        owner' := MapNext(cr3, start, attr, owner, owner', m0, l0, free0, lo);
        start := start + 1;
      }
    }

    /** `allocspace` over the pages from the one holding `from` to the one holding `to`. It reports
        success whether or not the frames last; every page of the range is mapped exactly when as
        many are free as the range needs, and page `u` of it exactly when it was mapped or the need
        up to `u` is covered. */
    method AllocSpace(cr3: nat, from: nat, to: nat, attr: nat, ghost owner: Owners)
      returns (ok: bool, ghost owner': Owners)
      requires Valid() && attr < PAGE_SIZE && from < TWO32 && to / PAGE_SIZE < PAGES - 1
      requires cr3 / PAGE_SIZE != 0 ==> Maps(cr3 / PAGE_SIZE, owner)
      modifies this`mem, frames`levels, frames`live, frames.pagemap
      ensures ok <==> cr3 / PAGE_SIZE != 0
      ensures !ok || from / PAGE_SIZE > to / PAGE_SIZE ==> mem == old(mem) && frames.levels == old(frames.levels)
      ensures ok ==> Valid() && Maps(cr3 / PAGE_SIZE, owner')
      ensures ok && from / PAGE_SIZE <= to / PAGE_SIZE ==>
                var c, lo, end := cr3 / PAGE_SIZE, from / PAGE_SIZE, to / PAGE_SIZE;
                && Grown(old(mem), mem, c, owner, owner', old(frames.levels), frames.levels, frames.reserved,
                         lo, end + 1)
                && Allotment(old(mem), mem, c, lo, end, old(FreeFrames()), FreeFrames())
                && Worded(old(mem), mem, c, attr, lo, end + 1)
    {
      owner' := owner;
      var c, start, end := cr3 / PAGE_SIZE, from / PAGE_SIZE, to / PAGE_SIZE;
      if c == 0 {
        return false, owner;
      }
      if start <= end {
        ghost var m, free := mem, FreeFrames();
        owner' := MapRange(c, start, end, attr, owner);
        BudgetEnd(m, mem, c, start, end, free, FreeFrames());
      }
      ok := true;
    }

    /** `cp2user`: writes `data` at user address `uptr`. It stops with 0 at the first address
        without a frame, after writing the `k` bytes before it, and at once when the range wraps. */
    method Cp2User(cr3: nat, uptr: nat, data: seq<Byte>, ghost owner: Owners) returns (n: nat, ghost k: nat)
      requires Valid() && uptr < TWO32 && |data| < TWO32 && (cr3 / PAGE_SIZE != 0 ==> Maps(cr3 / PAGE_SIZE, owner))
      modifies this`mem
      ensures Valid() && k <= |data| && (cr3 / PAGE_SIZE != 0 ==> Maps(cr3 / PAGE_SIZE, owner))
      ensures cr3 / PAGE_SIZE == 0 || uptr + |data| >= TWO32 ==> n == 0 && mem == old(mem)
      ensures cr3 / PAGE_SIZE != 0 && uptr + |data| < TWO32 ==>
                && Copied(old(mem), mem, cr3 / PAGE_SIZE, owner, uptr, data[..k])
                && FirstHole(old(mem), cr3 / PAGE_SIZE, uptr, |data|, k)
                && n == if k == |data| then |data| else 0
    {
      if cr3 / PAGE_SIZE == 0 {
        return 0, 0;
      }
      ghost var m0 := mem;
      n, k := PutBytes(cr3 / PAGE_SIZE, uptr, data, owner);
      if uptr + |data| < TWO32 { StillValid(m0, cr3 / PAGE_SIZE, owner, uptr, data[..k]); }
    }

    /** The loop of `cp2user`. */
    method PutBytes(c: nat, uptr: nat, data: seq<Byte>, ghost owner: Owners) returns (n: nat, ghost k: nat)
      requires Space(mem, c, owner) && uptr < TWO32 && |data| < TWO32
      modifies this`mem
      ensures uptr + |data| >= TWO32 ==> n == 0 == k && mem == old(mem)
      ensures uptr + |data| < TWO32 ==>
                && k <= |data| && Copied(old(mem), mem, c, owner, uptr, data[..k])
                && FirstHole(old(mem), c, uptr, |data|, k) && n == if k == |data| then |data| else 0
    {
      var from, to := uptr, PointerAfter(uptr, |data|);
      ghost var m0 := mem;
      k := 0;
      CopiedStart(mem, c, owner, uptr, data);
      while from < to
        invariant uptr <= from && (from <= to || from == uptr > to) && k == from - uptr
        invariant from == uptr ==> mem == m0
        invariant CopiedSoFar(m0, mem, c, owner, uptr, data, k)
      {
        CopiedStep(m0, mem, c, owner, uptr, data, k);
        var despage := PageOf(mem, c, from / PAGE_SIZE);
        if despage == 0 {
          return 0, k;
        }
        mem := mem[despage := mem[despage][from % PAGE_SIZE := data[from - uptr]]];
        from := from + 1;
        k := k + 1;
      }
      return from - uptr, k;
    }

    /** Writing user memory leaves free frames zero. */
    lemma {:induction false} StillValid(m: Memory, c: nat, owner: Owners, a: nat, data: seq<Byte>)
      requires frames.Valid() && |m| == frames.frames <= PAGES
      requires forall f :: frames.reserved <= f < |m| && !Taken(frames.levels, f) ==> m[f] == ZERO_FRAME
      requires forall f :: f in owner ==> Taken(frames.levels, f)
      requires Copied(m, mem, c, owner, a, data) && RangeReachable(m, c, a, |data|)
      ensures Valid() && Maps(c, owner)
    {
      forall f | frames.reserved <= f < |mem| && !Taken(frames.levels, f) ensures mem[f] == ZERO_FRAME {
        CopiedForeign(m, mem, c, owner, a, data, f);
      }
    }

    /** `cpfromuser`: reads `size` bytes from user address `uptr`; 0 at the first address without a
        frame, and at once when the range wraps. */
    method CpFromUser(cr3: nat, uptr: nat, size: nat, ghost owner: Owners) returns (n: nat, data: seq<Byte>)
      requires Valid() && uptr < TWO32 && size < TWO32 && (cr3 / PAGE_SIZE != 0 ==> Maps(cr3 / PAGE_SIZE, owner))
      ensures cr3 / PAGE_SIZE == 0 || uptr + size >= TWO32 ==> n == 0 && data == []
      ensures cr3 / PAGE_SIZE != 0 && uptr + size < TWO32 ==>
                && |data| <= size && Fetched(mem, cr3 / PAGE_SIZE, owner, uptr, data)
                && FirstHole(mem, cr3 / PAGE_SIZE, uptr, size, |data|)
                && n == if |data| == size then size else 0
    {
      data := [];
      var c, from, to := cr3 / PAGE_SIZE, uptr, PointerAfter(uptr, size);
      if c == 0 {
        return 0, data;
      }
      while from < to
        invariant uptr <= from && (from <= to || from == uptr > to) && |data| == from - uptr
        invariant Fetched(mem, c, owner, uptr, data)
      {
        assert PageOk(mem, c, owner, from / PAGE_SIZE);
        var tabitem := PageOf(mem, c, from / PAGE_SIZE);
        if tabitem == 0 {
          return 0, data;
        }
        FetchedNext(mem, c, owner, uptr, data, mem[tabitem][from % PAGE_SIZE]);
        data := data + [mem[tabitem][from % PAGE_SIZE]];
        from := from + 1;
      }
      return from - uptr, data;
    }
  }

  /** A 32-bit pointer moved on by `n`. */
  function PointerAfter(p: nat, n: nat): (q: nat)
    requires p < TWO32 && n < TWO32
    ensures if p + n < TWO32 then q == p + n else q < p
  {
    if p + n < TWO32 then p + n else p + n - TWO32
  }

  /** What is left of `free` frames after taking as many of `need` as there are. */
  ghost function Left(free: nat, need: nat): nat {
    if need <= free then free - need else 0
  }

  /** Frame 0 taken for a page table: its word `i` is overwritten unless it names a page. */
  ghost function Stray(f: Frame, i: nat, attr: nat): Frame
    requires i < ENTRIES && attr < TWO32
  {
    if PageFromItem(WordAt(f, i)) == 0 then SetWord(f, i, attr) else f
  }

  /** Only that word of frame 0 changes, and it reads as the attributes. */
  lemma {:induction false} StrayWord(f: Frame, i: nat, attr: nat, j: nat)
    requires i < ENTRIES && attr < PAGE_SIZE && j < ENTRIES
    ensures WordAt(Stray(f, i, attr), j) == if j == i && WordAt(f, i) < PAGE_SIZE then attr else WordAt(f, j)
  {
    WordSet(f, i, attr, j);
  }

  /** `owner'` keeps every use in `owner`, the frames it adds were free and not reserved, and no frame
      is given back. */
  ghost predicate Booked(owner: Owners, owner': Owners, levels: seq<nat>, levels': seq<nat>, reserved: nat) {
    forall f: nat :: BookedAt(owner, owner', levels, levels', reserved, f)
  }

  ghost predicate BookedAt(owner: Owners, owner': Owners, levels: seq<nat>, levels': seq<nat>, reserved: nat, f: nat) {
    && (f in owner ==> f in owner' && owner'[f] == owner[f])
    && (f in owner' && f !in owner ==> reserved <= f && !Taken(levels, f))
    && (Taken(levels, f) ==> Taken(levels', f))
  }

  /** Entry `d` has a table if it had one or a frame was left; nothing else changed. */
  ghost predicate TableStep(m: Memory, m': Memory, cr3: nat, d: nat, free: nat) {
    && cr3 < |m| == |m'| && d < ENTRIES
    && (TableOf(m', cr3, d) != 0 <==> TableOf(m, cr3, d) != 0 || free > 0)
    && (forall v :: 0 <= v < PAGES ==> SamePageAt(m, m', cr3, v))
    && (forall e :: 0 <= e < ENTRIES && e != d ==> SameTableAt(m, m', cr3, e))
    && (forall f :: 0 <= f < |m| && f != cr3 ==> SameFrame(m, m', f))
  }

  /** Page `v` has a frame if it had one or one was left; nothing else changed. */
  ghost predicate PageStep(m: Memory, m': Memory, cr3: nat, v: nat, free: nat) {
    && cr3 < |m| == |m'| && v < PAGES
    && (PageOf(m', cr3, v) != 0 <==> PageOf(m, cr3, v) != 0 || free > 0)
    && (forall u :: 0 <= u < PAGES && (u != v || PageOf(m, cr3, v) != 0) ==> SamePageAt(m, m', cr3, u))
    && (forall e :: 0 <= e < ENTRIES ==> SameTableAt(m, m', cr3, e))
    && (forall f :: 0 <= f < |m| && f != TableOf(m, cr3, v / ENTRIES) ==> SameFrame(m, m', f))
  }

  ghost predicate SameFrame(m: Memory, m': Memory, f: nat)
    requires f < |m| == |m'|
  {
    m'[f] == m[f]
  }

  // ---- the words written ----

  /** Of directory and tables, only the entry of a missing table changed: it has attributes 7. */
  ghost predicate TableWorded(m: Memory, m': Memory, cr3: nat, d: nat) {
    && cr3 < |m| == |m'| && d < ENTRIES
    && (if TableOf(m, cr3, d) != 0 then SameDirAt(m, m', cr3, d) else AttrFromItem(Entry(m', cr3, d)) == 7)
    && (forall e :: 0 <= e < ENTRIES && e != d ==> SameDirAt(m, m', cr3, e))
    && (forall v :: 0 <= v < PAGES ==> SameItemAt(m, m', cr3, v))
  }

  /** Of directory and tables, only the entry of an unmapped page changed: it has attributes `attr`. */
  ghost predicate PageWorded(m: Memory, m': Memory, cr3: nat, v: nat, attr: nat) {
    && cr3 < |m| == |m'| && v < PAGES
    && (if PageOf(m, cr3, v) != 0 || TableOf(m, cr3, v / ENTRIES) == 0 then SameItemAt(m, m', cr3, v)
        else AttrFromItem(PageItem(m', cr3, v)) == attr)
    && (forall e :: 0 <= e < ENTRIES ==> SameDirAt(m, m', cr3, e))
    && (forall u :: 0 <= u < PAGES && u != v ==> SameItemAt(m, m', cr3, u))
  }

  /** Directory entry `d` after mapping pages `lo..hi`: the word it was, unless the range needed a
      table there; then it names one with attributes 7, or none. */
  ghost predicate DirWordAt(m: Memory, m': Memory, cr3: nat, lo: nat, hi: nat, d: nat)
    requires cr3 < |m| == |m'| && d < ENTRIES
  {
    if TableOf(m, cr3, d) != 0 || !(lo < hi && lo / ENTRIES <= d <= (hi - 1) / ENTRIES) then SameDirAt(m, m', cr3, d)
    else if TableOf(m', cr3, d) != 0 then AttrFromItem(Entry(m', cr3, d)) == 7
    else SameDirAt(m, m', cr3, d) || Entry(m', cr3, d) == 7
  }

  /** The word of page `v` after mapping pages `lo..hi`: the word it was, unless the page is one of the
      range and had no frame; then it names one with the attributes asked for, or none. */
  ghost predicate PageWordAt(m: Memory, m': Memory, cr3: nat, attr: nat, lo: nat, hi: nat, v: nat)
    requires cr3 < |m| == |m'| && v < PAGES
  {
    if PageOf(m, cr3, v) != 0 || v < lo || v >= hi then SameItemAt(m, m', cr3, v)
    else if PageOf(m', cr3, v) != 0 then AttrFromItem(PageItem(m', cr3, v)) == attr
    else SameItemAt(m, m', cr3, v) || PageItem(m', cr3, v) == attr
  }

  ghost predicate Worded(m: Memory, m': Memory, cr3: nat, attr: nat, lo: nat, hi: nat) {
    && cr3 < |m| == |m'|
    && (forall d :: 0 <= d < ENTRIES ==> DirWordAt(m, m', cr3, lo, hi, d))
    && (forall v :: 0 <= v < PAGES ==> PageWordAt(m, m', cr3, attr, lo, hi, v))
  }

  lemma {:induction false} StepsWorded(m: Memory, m1: Memory, m2: Memory, cr3: nat, v: nat, hi: nat, attr: nat)
    requires hi == v + 1 && TableWorded(m, m1, cr3, v / ENTRIES) && PageWorded(m1, m2, cr3, v, attr)
    ensures Worded(m, m2, cr3, attr, v, hi)
  {
    forall d | 0 <= d < ENTRIES ensures DirWordAt(m, m2, cr3, v, hi, d) {
      assert SameDirAt(m1, m2, cr3, d);
      if d != v / ENTRIES { assert SameDirAt(m, m1, cr3, d); } else { ItemParts(Entry(m2, cr3, d)); }
    }
    forall u | 0 <= u < PAGES ensures PageWordAt(m, m2, cr3, attr, v, hi, u) {
      assert SameItemAt(m, m1, cr3, u);
      ItemPage(m, cr3, u);
      ItemPage(m1, cr3, u);
      ItemPage(m2, cr3, u);
      if u != v { assert SameItemAt(m1, m2, cr3, u); } else { ItemParts(PageItem(m2, cr3, u)); }
    }
  }

  lemma ItemParts(w: nat)
    ensures PageFromItem(w) == 0 ==> w == AttrFromItem(w)
  {
  }

  /** Mapping `lo..mid` and then `mid..hi` writes the words of mapping `lo..hi`. */
  lemma {:induction false} WordedTrans(m: Memory, m1: Memory, m2: Memory, cr3: nat, attr: nat,
                                       lo: nat, mid: nat, hi: nat)
    requires lo <= mid < hi && Worded(m, m1, cr3, attr, lo, mid) && Worded(m1, m2, cr3, attr, mid, hi)
    ensures Worded(m, m2, cr3, attr, lo, hi)
  {
    forall d | 0 <= d < ENTRIES ensures DirWordAt(m, m2, cr3, lo, hi, d) {
      assert DirWordAt(m, m1, cr3, lo, mid, d) && DirWordAt(m1, m2, cr3, mid, hi, d);
      DirWordTrans(m, m1, m2, cr3, lo, mid, hi, d);
    }
    forall v | 0 <= v < PAGES ensures PageWordAt(m, m2, cr3, attr, lo, hi, v) {
      assert PageWordAt(m, m1, cr3, attr, lo, mid, v) && PageWordAt(m1, m2, cr3, attr, mid, hi, v);
      ItemPage(m, cr3, v);
      ItemPage(m1, cr3, v);
      ItemPage(m2, cr3, v);
    }
  }

  lemma {:induction false} DirWordTrans(m: Memory, m1: Memory, m2: Memory, cr3: nat, lo: nat, mid: nat, hi: nat, d: nat)
    requires cr3 < |m| == |m1| == |m2| && d < ENTRIES && lo <= mid < hi
    requires DirWordAt(m, m1, cr3, lo, mid, d) && DirWordAt(m1, m2, cr3, mid, hi, d)
    ensures DirWordAt(m, m2, cr3, lo, hi, d)
  {
    Ordered(lo, mid);
    Ordered(mid, hi - 1);
    if lo < mid { Ordered(mid - 1, hi - 1); }
  }

  /** What `allocspace` maps, the processor translates: with the present bit among the attributes, a
      page that gained its frame is found by it, if its directory entry is new or was present. */
  lemma {:induction false} NewPagesTranslate(m0: Memory, m: Memory, cr3: nat, owner: Owners, attr: nat,
                                             lo: nat, hi: nat, v: nat)
    requires Worded(m0, m, cr3, attr, lo, hi) && Space(m, cr3, owner) && attr % 2 == 1
    requires lo <= v < hi && v < PAGES && PageOf(m0, cr3, v) == 0 && PageOf(m, cr3, v) != 0
    requires TableOf(m0, cr3, v / ENTRIES) == 0 || Entry(m0, cr3, v / ENTRIES) % 2 == 1
    ensures Translates(m, cr3, v, PageOf(m, cr3, v)) && AttrFromItem(PageItem(m, cr3, v)) == attr
  {
    var d := v / ENTRIES;
    assert DirWordAt(m0, m, cr3, lo, hi, d) && PageWordAt(m0, m, cr3, attr, lo, hi, v) && TableOk(m, cr3, owner, d);
    Parity(Entry(m, cr3, d));
    Parity(PageItem(m, cr3, v));
    ItemPage(m, cr3, v);
  }

  /** What the processor translated before, it translates alike afterwards. */
  lemma {:induction false} OldPagesTranslate(m0: Memory, m: Memory, cr3: nat, owner: Owners, attr: nat,
                                             lo: nat, hi: nat, v: nat, q: nat)
    requires Space(m0, cr3, owner) && Worded(m0, m, cr3, attr, lo, hi) && v < PAGES && q != 0
    requires Translates(m0, cr3, v, q) && TableOf(m0, cr3, v / ENTRIES) != 0
    ensures Translates(m, cr3, v, q) && PageOf(m0, cr3, v) == q
  {
    var d := v / ENTRIES;
    assert DirWordAt(m0, m, cr3, lo, hi, d) && PageWordAt(m0, m, cr3, attr, lo, hi, v) && TableOk(m0, cr3, owner, d);
  }

  lemma Parity(w: nat)
    ensures AttrFromItem(w) % 2 == w % 2
  {
  }

  /** The directory entry written with frame `f`, or with 0 when none was left. */
  lemma {:induction false} TableWritten(m: Memory, cr3: nat, owner: Owners, d: nat, f: nat)
    requires Space(m, cr3, owner) && d < ENTRIES && TableOf(m, cr3, d) == 0
    requires f < |m| && MakeItem(f, 7) < TWO32 && (f != 0 ==> f !in owner && m[f] == ZERO_FRAME)
    ensures var m' := WithEntry(m, cr3, d, MakeItem(f, 7));
            && TableStep(m, m', cr3, d, f)
            && Space(m', cr3, if f == 0 then owner else owner[f := Table(d)])
  {
    ItemRoundTrip(f, 7);
    var m' := WithEntry(m, cr3, d, MakeItem(f, 7));
    if f == 0 {
      VainTable(m, cr3, owner, d, 7);
      assert SameTableAt(m, m', cr3, d);
    } else {
      AddTable(m, cr3, owner, d, f, 7);
      forall e | 0 <= e < ENTRIES && e != d ensures SameTableAt(m, m', cr3, e) {
        EntrySet(m, cr3, d, MakeItem(f, 7), cr3, e);
      }
      forall v | 0 <= v < PAGES ensures SamePageAt(m, m', cr3, v) {}
    }
  }

  /** The table entry written with frame `f`, or with 0 when none was left. */
  lemma {:induction false} PageWritten(m: Memory, cr3: nat, owner: Owners, v: nat, f: nat, attr: nat)
    requires Space(m, cr3, owner) && v < PAGES && PageOf(m, cr3, v) == 0 && attr < PAGE_SIZE
    requires f < |m| && MakeItem(f, attr) < TWO32
    requires f != 0 ==> f !in owner && TableOf(m, cr3, v / ENTRIES) != 0
    ensures TableOf(m, cr3, v / ENTRIES) < |m|
    ensures var m' := WithEntry(m, TableOf(m, cr3, v / ENTRIES), v % ENTRIES, MakeItem(f, attr));
            && PageStep(m, m', cr3, v, f)
            && Space(m', cr3, if f == 0 then owner else owner[f := Data(v)])
  {
    assert TableOk(m, cr3, owner, v / ENTRIES);
    var t := TableOf(m, cr3, v / ENTRIES);
    var m' := WithEntry(m, t, v % ENTRIES, MakeItem(f, attr));
    if f == 0 {
      VainPage(m, cr3, owner, v, attr);
      assert SamePageAt(m, m', cr3, v);
    } else {
      AddPage(m, cr3, owner, v, f, attr);
      forall e | 0 <= e < ENTRIES ensures SameTableAt(m, m', cr3, e) {
        EntrySet(m, t, v % ENTRIES, MakeItem(f, attr), cr3, e);
      }
      forall u | 0 <= u < PAGES && u != v ensures SamePageAt(m, m', cr3, u) {}
    }
  }

  lemma {:induction false} TableStepTable(m: Memory, m1: Memory, cr3: nat, d: nat, free: nat)
    requires TableStep(m, m1, cr3, d, free)
    ensures TableOf(m1, cr3, d) == 0 ==> Left(free, PageNeed.One(TableOf(m, cr3, d) == 0)) == 0
    ensures TableOf(m, cr3, d) == 0 && free == 0 ==> TableOf(m1, cr3, d) == 0
    ensures 0 < cr3 ==> m1[0] == m[0]
  {
    assert 0 < cr3 ==> SameFrame(m, m1, 0);
  }

  lemma {:induction false} BookedTwice(o: Owners, o1: Owners, o2: Owners, l: seq<nat>, l1: seq<nat>, l2: seq<nat>,
                                       reserved: nat)
    requires Booked(o, o1, l, l1, reserved) && Booked(o1, o2, l1, l2, reserved)
    ensures Booked(o, o2, l, l2, reserved)
  {
    forall f: nat ensures BookedAt(o, o2, l, l2, reserved, f) {
      assert BookedAt(o, o1, l, l1, reserved, f) && BookedAt(o1, o2, l1, l2, reserved, f);
    }
  }

  /** What a turn of the loop leaves of `free` frames, and whether page `v` was served: exactly when
      the frames cover its cost. If they do, frame 0 is not touched. */
  ghost predicate Dealt(m: Memory, m': Memory, cr3: nat, v: nat, free: nat, free': nat) {
    && cr3 < |m| == |m'| && v < PAGES
    && free' == Left(free, Cost(m, cr3, v))
    && (Cost(m, cr3, v) <= free ==> Provided(m, m', cr3, v) && m'[0] == m[0])
    && (Cost(m, cr3, v) > free ==> PageOf(m, cr3, v) == 0 == PageOf(m', cr3, v))
  }

  /** Both halves of a turn together. */
  lemma {:induction false} BothSteps(m: Memory, m1: Memory, m2: Memory, cr3: nat, o: Owners, o1: Owners, o2: Owners,
                                     l: seq<nat>, l1: seq<nat>, l2: seq<nat>, reserved: nat, v: nat, attr: nat,
                                     free: nat, free1: nat)
    requires TableStep(m, m1, cr3, v / ENTRIES, free) && PageStep(m1, m2, cr3, v, free1) && Space(m2, cr3, o2)
    requires TableWorded(m, m1, cr3, v / ENTRIES) && PageWorded(m1, m2, cr3, v, attr)
    requires free1 == Left(free, PageNeed.One(TableOf(m, cr3, v / ENTRIES) == 0))
    requires Booked(o, o1, l, l1, reserved) && Booked(o1, o2, l1, l2, reserved)
    ensures Grown(m, m2, cr3, o, o2, l, l2, reserved, v, v + 1)
    ensures Dealt(m, m2, cr3, v, free, Left(free1, PageNeed.One(PageOf(m1, cr3, v) == 0)))
    ensures Worded(m, m2, cr3, attr, v, v + 1)
  {
    StepsWorded(m, m1, m2, cr3, v, v + 1, attr);
    BookedTwice(o, o1, o2, l, l1, l2, reserved);
    StepsGrow(m, m1, m2, cr3, o2, v, v + 1, free, free1);
    StepsDeal(m, m1, m2, cr3, v, free, free1);
  }

  lemma {:induction false} StepsGrow(m: Memory, m1: Memory, m2: Memory, cr3: nat, owner: Owners, v: nat, hi: nat,
                                     free: nat, free1: nat)
    requires hi == v + 1 && TableStep(m, m1, cr3, v / ENTRIES, free) && PageStep(m1, m2, cr3, v, free1)
    requires Space(m2, cr3, owner)
    ensures forall u :: 0 <= u < PAGES ==> KeptPage(m, m2, cr3, v, hi, u)
    ensures forall f :: 0 < f < |m| ==> KeptFrame(m, m2, owner, f)
  {
    var t := TableOf(m1, cr3, v / ENTRIES);
    assert SameTableAt(m1, m2, cr3, v / ENTRIES) && TableOk(m2, cr3, owner, v / ENTRIES);
    forall u | 0 <= u < PAGES ensures KeptPage(m, m2, cr3, v, hi, u) {
      assert SamePageAt(m, m1, cr3, u) && SamePageAt(m, m1, cr3, v);
      assert u != v || PageOf(m1, cr3, v) != 0 ==> SamePageAt(m1, m2, cr3, u);
    }
    forall f | 0 < f < |m| ensures KeptFrame(m, m2, owner, f) {
      assert f != cr3 ==> SameFrame(m, m1, f);
      assert f != t ==> SameFrame(m1, m2, f);
    }
  }

  lemma {:induction false} StepsDeal(m: Memory, m1: Memory, m2: Memory, cr3: nat, v: nat, free: nat, free1: nat)
    requires 0 < cr3 && TableStep(m, m1, cr3, v / ENTRIES, free) && PageStep(m1, m2, cr3, v, free1)
    requires free1 == Left(free, PageNeed.One(TableOf(m, cr3, v / ENTRIES) == 0))
    ensures Dealt(m, m2, cr3, v, free, Left(free1, PageNeed.One(PageOf(m1, cr3, v) == 0)))
  {
    var d := v / ENTRIES;
    assert SamePageAt(m, m1, cr3, v) && SameTableAt(m1, m2, cr3, d);
    if Cost(m, cr3, v) <= free {
      forall u | 0 <= u < PAGES && u != v ensures SamePageAt(m, m2, cr3, u) {
        assert SamePageAt(m, m1, cr3, u) && SamePageAt(m1, m2, cr3, u);
      }
      forall e | 0 <= e < ENTRIES && e != d ensures SameTableAt(m, m2, cr3, e) {
        assert SameTableAt(m, m1, cr3, e) && SameTableAt(m1, m2, cr3, e);
      }
      assert SameFrame(m, m1, 0) && SameFrame(m1, m2, 0);
    }
  }

  /** What mapping pages `lo..hi` may change: earlier translations stay, pages outside the range
      keep theirs, added frames were free, and apart from frame 0 only directory and table frames are
      written. */
  ghost predicate Grown(m: Memory, m': Memory, cr3: nat, owner: Owners, owner': Owners,
                        levels: seq<nat>, levels': seq<nat>, reserved: nat, lo: nat, hi: nat)
  {
    && cr3 < |m| == |m'| && Booked(owner, owner', levels, levels', reserved)
    && (forall u :: 0 <= u < PAGES ==> KeptPage(m, m', cr3, lo, hi, u))
    && (forall f :: 0 < f < |m| ==> KeptFrame(m, m', owner', f))
  }

  ghost predicate KeptPage(m: Memory, m': Memory, cr3: nat, lo: nat, hi: nat, u: nat)
    requires cr3 < |m| == |m'| && u < PAGES
  {
    PageOf(m, cr3, u) != 0 || u < lo || u >= hi ==> PageOf(m', cr3, u) == PageOf(m, cr3, u)
  }

  ghost predicate KeptFrame(m: Memory, m': Memory, owner: Owners, f: nat)
    requires f < |m| == |m'|
  {
    f !in owner || owner[f].Data? ==> m'[f] == m[f]
  }

  lemma {:induction false} GrownTrans(m: Memory, m1: Memory, m2: Memory, cr3: nat, o: Owners, o1: Owners, o2: Owners,
                                      l: seq<nat>, l1: seq<nat>, l2: seq<nat>, reserved: nat,
                                      lo: nat, mid: nat, hi: nat)
    requires lo <= mid <= hi
    requires Grown(m, m1, cr3, o, o1, l, l1, reserved, lo, mid) && Grown(m1, m2, cr3, o1, o2, l1, l2, reserved, mid, hi)
    ensures Grown(m, m2, cr3, o, o2, l, l2, reserved, lo, hi)
  {
    BookedTwice(o, o1, o2, l, l1, l2, reserved);
    forall u | 0 <= u < PAGES ensures KeptPage(m, m2, cr3, lo, hi, u) {
      assert KeptPage(m, m1, cr3, lo, mid, u) && KeptPage(m1, m2, cr3, mid, hi, u);
    }
    forall f | 0 < f < |m| ensures KeptFrame(m, m2, o2, f) {
      assert BookedAt(o1, o2, l1, l2, reserved, f);
      assert KeptFrame(m, m1, o1, f) && KeptFrame(m1, m2, o2, f);
    }
  }

  // ---- how far the frames reach ----

  /** The frames that pages `lo..v`, without `v`, take. */
  ghost function NeedTo(m: Memory, cr3: nat, lo: nat, v: nat): nat
    requires cr3 < |m| && v <= PAGES
  {
    if v <= lo then 0 else Need(m, cr3, lo, v - 1)
  }

  /** Page `u` has a frame exactly if it had one or the need up to it was covered. */
  ghost predicate AllottedAt(m0: Memory, m: Memory, cr3: nat, lo: nat, free0: nat, u: nat)
    requires cr3 < |m0| == |m| && u < PAGES
  {
    PageOf(m, cr3, u) != 0 <==> PageOf(m0, cr3, u) != 0 || Need(m0, cr3, lo, u) <= free0
  }

  /** What the range up to `e` needed at first is what was spent and what it needs now. */
  ghost predicate NeedLeft(m0: Memory, m: Memory, cr3: nat, lo: nat, v: nat, e: nat)
    requires cr3 < |m0| == |m| && v <= e < PAGES
  {
    Need(m0, cr3, lo, e) == NeedTo(m0, cr3, lo, v) + Need(m, cr3, v, e)
  }

  ghost predicate Budget(m0: Memory, m: Memory, cr3: nat, lo: nat, v: nat, free0: nat, free: nat) {
    && cr3 < |m0| == |m| && lo <= v < PAGES
    && free == Left(free0, NeedTo(m0, cr3, lo, v))
    && (NeedTo(m0, cr3, lo, v) <= free0 ==>
          m[0] == m0[0] && forall e :: v <= e < PAGES ==> NeedLeft(m0, m, cr3, lo, v, e))
    && (forall u :: lo <= u < v ==> AllottedAt(m0, m, cr3, lo, free0, u))
  }

  lemma {:induction false} BudgetStart(m: Memory, cr3: nat, lo: nat, free: nat)
    requires cr3 < |m| && lo < PAGES
    ensures Budget(m, m, cr3, lo, lo, free, free)
  {
  }

  lemma {:induction false} BudgetNext(m0: Memory, m: Memory, m': Memory, cr3: nat, lo: nat, v: nat, w: nat,
                                      free0: nat, free: nat, free': nat)
    requires w == v + 1 < PAGES && Budget(m0, m, cr3, lo, v, free0, free) && Dealt(m, m', cr3, v, free, free')
    requires forall u :: 0 <= u < PAGES ==> KeptPage(m0, m, cr3, lo, v, u)
    requires forall u :: 0 <= u < PAGES ==> KeptPage(m, m', cr3, v, w, u)
    ensures Budget(m0, m', cr3, lo, w, free0, free')
  {
    assert KeptPage(m0, m, cr3, lo, v, v);
    NeedSteps(m0, m, cr3, lo, v, free0, free);
    forall u | lo <= u < w ensures AllottedAt(m0, m', cr3, lo, free0, u) {
      if u < v { assert AllottedAt(m0, m, cr3, lo, free0, u) && KeptPage(m, m', cr3, v, w, u); }
    }
    if NeedTo(m0, cr3, lo, w) <= free0 {
      forall e | w <= e < PAGES ensures NeedLeft(m0, m', cr3, lo, w, e) {
        assert NeedLeft(m0, m, cr3, lo, v, e);
        NeedNext(m, m', cr3, v, e);
      }
    }
  }

  /** The need up to page `v` grows by the page's cost while frames are left, and stays above them
      once they are not enough. */
  lemma {:induction false} NeedSteps(m0: Memory, m: Memory, cr3: nat, lo: nat, v: nat, free0: nat, free: nat)
    requires Budget(m0, m, cr3, lo, v, free0, free)
    ensures NeedTo(m0, cr3, lo, v) <= free0 ==> Need(m0, cr3, lo, v) == NeedTo(m0, cr3, lo, v) + Cost(m, cr3, v)
    ensures NeedTo(m0, cr3, lo, v) > free0 ==> Need(m0, cr3, lo, v) > free0
  {
    NeedOne(m, cr3, v);
    if NeedTo(m0, cr3, lo, v) <= free0 {
      assert NeedLeft(m0, m, cr3, lo, v, v);
    } else {
      NeedMonotone(m0, cr3, lo, v - 1, v);
    }
  }

  /** The end of the range: which pages have frames, how many frames are left, and that all pages
      have one exactly when the frames cover the need; then frame 0 is untouched. */
  ghost predicate Allotment(m0: Memory, m: Memory, cr3: nat, lo: nat, end: nat, free0: nat, free: nat) {
    && cr3 < |m0| == |m| && lo <= end < PAGES
    && free == Left(free0, Need(m0, cr3, lo, end))
    && (forall u :: lo <= u <= end ==> AllottedAt(m0, m, cr3, lo, free0, u))
    && (Mapped(m, cr3, lo, end) <==> Need(m0, cr3, lo, end) <= free0)
    && (Need(m0, cr3, lo, end) <= free0 ==> m[0] == m0[0])
  }

  /** Every page in `lo..end`, both included, has a frame. */
  ghost predicate Mapped(m: Memory, cr3: nat, lo: nat, end: nat)
    requires cr3 < |m| && end < PAGES
  {
    forall v :: lo <= v <= end ==> HasPage(m, cr3, v)
  }

  ghost predicate HasPage(m: Memory, cr3: nat, v: nat)
    requires cr3 < |m| && v < PAGES
  {
    PageOf(m, cr3, v) != 0
  }

  lemma {:induction false} BudgetEnd(m0: Memory, m: Memory, cr3: nat, lo: nat, end: nat, free0: nat, free: nat)
    requires lo <= end && Budget(m0, m, cr3, lo, end + 1, free0, free)
    ensures Allotment(m0, m, cr3, lo, end, free0, free)
  {
    if Need(m0, cr3, lo, end) > free0 {
      var u := FirstShort(m0, cr3, lo, end, free0);
      assert AllottedAt(m0, m, cr3, lo, free0, u) && !HasPage(m, cr3, u);
    } else {
      forall u | lo <= u <= end ensures HasPage(m, cr3, u) {
        NeedMonotone(m0, cr3, lo, u, end);
        assert AllottedAt(m0, m, cr3, lo, free0, u);
      }
    }
  }
}
