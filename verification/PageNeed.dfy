/** How many frames mapping a range of pages takes: one for every page without a frame, and one for
    every directory entry of the range without a table. */
module PageNeed {
  import opened PhysMem
  import opened PageTables

  ghost function One(missing: bool): nat {
    if missing then 1 else 0
  }

  /** The pages of `v..e`, both included, that have no frame. */
  ghost function Unmapped(m: Memory, cr3: nat, v: nat, e: nat): nat
    requires cr3 < |m| && e < PAGES
    decreases e + 1 - v
  {
    if v > e then 0 else One(PageOf(m, cr3, v) == 0) + Unmapped(m, cr3, v + 1, e)
  }

  /** The directory entries `d..g`, both included, that have no table. */
  ghost function Untabled(m: Memory, cr3: nat, d: nat, g: nat): nat
    requires cr3 < |m| && g < ENTRIES
    decreases g + 1 - d
  {
    if d > g then 0 else One(TableOf(m, cr3, d) == 0) + Untabled(m, cr3, d + 1, g)
  }

  /** The frames that mapping pages `v..e` takes. */
  ghost function Need(m: Memory, cr3: nat, v: nat, e: nat): nat
    requires cr3 < |m| && e < PAGES
  {
    if v > e then 0 else Unmapped(m, cr3, v, e) + Untabled(m, cr3, v / ENTRIES, e / ENTRIES)
  }

  /** The frames that mapping page `v` alone takes. */
  ghost function Cost(m: Memory, cr3: nat, v: nat): nat
    requires cr3 < |m| && v < PAGES
  {
    One(TableOf(m, cr3, v / ENTRIES) == 0) + One(PageOf(m, cr3, v) == 0)
  }

  lemma {:induction false} NeedOne(m: Memory, cr3: nat, v: nat)
    requires cr3 < |m| && v < PAGES
    ensures Need(m, cr3, v, v) == Cost(m, cr3, v)
  {
    assert Unmapped(m, cr3, v + 1, v) == 0;
    assert Untabled(m, cr3, v / ENTRIES + 1, v / ENTRIES) == 0;
  }

  // ---- what the need depends on ----

  lemma {:induction false} UnmappedSame(m: Memory, m': Memory, cr3: nat, v: nat, e: nat)
    requires cr3 < |m| == |m'| && e < PAGES
    requires forall u :: v <= u <= e ==> SamePageAt(m, m', cr3, u)
    ensures Unmapped(m', cr3, v, e) == Unmapped(m, cr3, v, e)
    decreases e + 1 - v
  {
    if v <= e {
      assert SamePageAt(m, m', cr3, v);
      UnmappedSame(m, m', cr3, v + 1, e);
    }
  }

  lemma {:induction false} UntabledSame(m: Memory, m': Memory, cr3: nat, d: nat, g: nat)
    requires cr3 < |m| == |m'| && g < ENTRIES
    requires forall c :: d <= c <= g ==> SameTableAt(m, m', cr3, c)
    ensures Untabled(m', cr3, d, g) == Untabled(m, cr3, d, g)
    decreases g + 1 - d
  {
    if d <= g {
      assert SameTableAt(m, m', cr3, d);
      UntabledSame(m, m', cr3, d + 1, g);
    }
  }

  /** Page `v` got all it lacked, and no other page or entry changed. */
  ghost predicate Provided(m: Memory, m': Memory, cr3: nat, v: nat) {
    && cr3 < |m| == |m'| && v < PAGES
    && PageOf(m', cr3, v) != 0 && TableOf(m', cr3, v / ENTRIES) != 0
    && (forall u :: 0 <= u < PAGES && u != v ==> SamePageAt(m, m', cr3, u))
    && (forall d :: 0 <= d < ENTRIES && d != v / ENTRIES ==> SameTableAt(m, m', cr3, d))
  }

  /** Providing for one page leaves the rest of the need. */
  lemma {:induction false} NeedNext(m: Memory, m': Memory, cr3: nat, v: nat, e: nat)
    requires Provided(m, m', cr3, v) && v <= e < PAGES
    ensures Need(m, cr3, v, e) == Cost(m, cr3, v) + Need(m', cr3, v + 1, e)
  {
    UnmappedSame(m, m', cr3, v + 1, e);
    if v == e {
      NeedOne(m, cr3, v);
    } else {
      NextEntry(v, e);
      UntabledNext(m, m', cr3, v / ENTRIES, (v + 1) / ENTRIES, e / ENTRIES);
    }
  }

  lemma NextEntry(v: nat, e: nat)
    requires v < e < PAGES
    ensures (v + 1) / ENTRIES == v / ENTRIES || (v + 1) / ENTRIES == v / ENTRIES + 1
    ensures (v + 1) / ENTRIES <= e / ENTRIES < ENTRIES
  {
  }

  lemma {:induction false} UntabledNext(m: Memory, m': Memory, cr3: nat, d: nat, d': nat, g: nat)
    requires cr3 < |m| == |m'| && (d' == d || d' == d + 1) && d <= g && d' <= g < ENTRIES
    requires TableOf(m', cr3, d) != 0
    requires forall c :: 0 <= c < ENTRIES && c != d ==> SameTableAt(m, m', cr3, c)
    ensures Untabled(m, cr3, d, g) == One(TableOf(m, cr3, d) == 0) + Untabled(m', cr3, d', g)
  {
    UntabledSame(m, m', cr3, d + 1, g);
  }

  // ---- longer ranges need more ----

  lemma {:induction false} UnmappedGrows(m: Memory, cr3: nat, v: nat, e: nat)
    requires cr3 < |m| && v <= e + 1 < PAGES
    ensures Unmapped(m, cr3, v, e + 1) == Unmapped(m, cr3, v, e) + One(PageOf(m, cr3, e + 1) == 0)
    decreases e + 1 - v
  {
    if v <= e {
      UnmappedGrows(m, cr3, v + 1, e);
    } else {
      assert Unmapped(m, cr3, e + 2, e + 1) == 0;
    }
  }

  lemma {:induction false} UntabledGrows(m: Memory, cr3: nat, d: nat, g: nat)
    requires cr3 < |m| && d <= g + 1 < ENTRIES
    ensures Untabled(m, cr3, d, g + 1) == Untabled(m, cr3, d, g) + One(TableOf(m, cr3, g + 1) == 0)
    decreases g + 1 - d
  {
    if d <= g {
      UntabledGrows(m, cr3, d + 1, g);
    } else {
      assert Untabled(m, cr3, g + 2, g + 1) == 0;
    }
  }

  /** One more page needs a frame more only if it has none itself. */
  lemma {:induction false} NeedGrows(m: Memory, cr3: nat, v: nat, e: nat)
    requires cr3 < |m| && v <= e && e + 1 < PAGES
    ensures Need(m, cr3, v, e) <= Need(m, cr3, v, e + 1)
    ensures Need(m, cr3, v, e) < Need(m, cr3, v, e + 1) ==> PageOf(m, cr3, e + 1) == 0
  {
    UnmappedGrows(m, cr3, v, e);
    NextEntry(e, e + 1);
    Ordered(v, e);
    if (e + 1) / ENTRIES == e / ENTRIES + 1 {
      UntabledGrows(m, cr3, v / ENTRIES, e / ENTRIES);
    }
  }

  lemma Ordered(v: nat, e: nat)
    requires v <= e
    ensures v / ENTRIES <= e / ENTRIES
  {
  }

  lemma {:induction false} NeedMonotone(m: Memory, cr3: nat, v: nat, e: nat, g: nat)
    requires cr3 < |m| && v <= e <= g < PAGES
    ensures Need(m, cr3, v, e) <= Need(m, cr3, v, g)
    decreases g - e
  {
    if e < g {
      NeedGrows(m, cr3, v, e);
      NeedMonotone(m, cr3, v, e + 1, g);
    }
  }

  /** Where the frames run out: a page of the range that has none, and whose need is not met. */
  lemma {:induction false} FirstShort(m: Memory, cr3: nat, v: nat, e: nat, free: nat) returns (u: nat)
    requires cr3 < |m| && v <= e < PAGES && Need(m, cr3, v, e) > free
    ensures v <= u <= e && Need(m, cr3, v, u) > free && PageOf(m, cr3, u) == 0
    decreases e
  {
    if v == e {
      NeedOne(m, cr3, v);
      u := v;
    } else if Need(m, cr3, v, e - 1) > free {
      u := FirstShort(m, cr3, v, e - 1, free);
    } else {
      NeedGrows(m, cr3, v, e - 1);
      u := e;
    }
  }
}
