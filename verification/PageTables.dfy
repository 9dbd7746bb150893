/** Two-level page tables: 32-bit paging as in section 4.3 of volume 3A of the Intel 64 and
    IA-32 Architectures Software Developer's Manual, read the way mm/page.c reads it. */
module PageTables {
  import opened PhysMem

  type Memory = seq<Frame>

  /** Virtual pages of a 32-bit address space. */
  const PAGES: nat := 0x10_0000

  /** Entry `i` of the table in frame `f`. */
  function Entry(m: Memory, f: nat, i: nat): nat
    requires f < |m| && i < ENTRIES
  {
    WordAt(m[f], i)
  }

  /** `(page << 12) | attr` */
  function MakeItem(page: nat, attr: nat): nat
    requires page < PAGES && attr < PAGE_SIZE
  {
    page * PAGE_SIZE + attr
  }

  /** `item >> 12` */
  function PageFromItem(item: nat): nat {
    item / PAGE_SIZE
  }

  function AttrFromItem(item: nat): nat {
    item % PAGE_SIZE
  }

  lemma ItemRoundTrip(page: nat, attr: nat)
    requires page < PAGES && attr < PAGE_SIZE
    ensures MakeItem(page, attr) < TWO32
    ensures PageFromItem(MakeItem(page, attr)) == page && AttrFromItem(MakeItem(page, attr)) == attr
  {
  }

  /** The frame of the page table for directory entry `d`; 0 is INVALID_PAGE. */
  function TableOf(m: Memory, cr3: nat, d: nat): nat
    requires cr3 < |m| && d < ENTRIES
  {
    PageFromItem(Entry(m, cr3, d))
  }

  /** The frame that virtual page `v` maps to, or 0. */
  function PageOf(m: Memory, cr3: nat, v: nat): nat
    requires cr3 < |m| && v < PAGES
  {
    var t := TableOf(m, cr3, v / ENTRIES);
    if t == 0 || t >= |m| then 0 else PageFromItem(Entry(m, t, v % ENTRIES))
  }

  /** What a frame is used for in one address space. */
  datatype Role = Directory | Table(d: nat) | Data(v: nat)

  type Owners = map<nat, Role>

  ghost predicate TableOk(m: Memory, cr3: nat, owner: Owners, d: nat)
    requires cr3 < |m| && d < ENTRIES
  {
    var t := TableOf(m, cr3, d);
    t == 0 || (t < |m| && t in owner && owner[t] == Table(d))
  }

  ghost predicate PageOk(m: Memory, cr3: nat, owner: Owners, v: nat)
    requires cr3 < |m| && v < PAGES
  {
    var p := PageOf(m, cr3, v);
    p == 0 || (p < |m| && p in owner && owner[p] == Data(v))
  }

  /** Every frame has one use: the directory, the table of one entry, or one page's data. */
  ghost predicate Space(m: Memory, cr3: nat, owner: Owners) {
    && 0 < cr3 < |m| <= PAGES && cr3 in owner && owner[cr3] == Directory
    && (forall d :: 0 <= d < ENTRIES ==> TableOk(m, cr3, owner, d))
    && (forall v :: 0 <= v < PAGES ==> PageOk(m, cr3, owner, v))
  }

  /** No two pages share a frame, and no data frame is a table or the directory. */
  lemma {:induction false} SpaceSeparates(m: Memory, cr3: nat, owner: Owners, v: nat, w: nat, d: nat)
    requires Space(m, cr3, owner) && v < PAGES && w < PAGES && d < ENTRIES && PageOf(m, cr3, v) != 0
    ensures v != w ==> PageOf(m, cr3, v) != PageOf(m, cr3, w)
    ensures PageOf(m, cr3, v) != TableOf(m, cr3, d) && PageOf(m, cr3, v) != cr3 && PageOf(m, cr3, v) < |m|
  {
    assert PageOk(m, cr3, owner, v) && PageOk(m, cr3, owner, w) && TableOk(m, cr3, owner, d);
  }

  // ---- adding a page table ----

  ghost function WithEntry(m: Memory, f: nat, i: nat, w: nat): Memory
    requires f < |m| && i < ENTRIES && w < TWO32
  {
    m[f := SetWord(m[f], i, w)]
  }

  lemma {:induction false} EntrySet(m: Memory, f: nat, i: nat, w: nat, g: nat, j: nat)
    requires f < |m| && i < ENTRIES && w < TWO32 && g < |m| && j < ENTRIES
    ensures Entry(WithEntry(m, f, i, w), g, j) == if g == f && j == i then w else Entry(m, g, j)
  {
    WordSet(m[f], i, w, j);
  }

  /** Hanging a zeroed frame `f` as the table of entry `d` maps nothing and unmaps nothing. */
  lemma {:induction false} AddTable(m: Memory, cr3: nat, owner: Owners, d: nat, f: nat, attr: nat)
    requires Space(m, cr3, owner) && d < ENTRIES && TableOf(m, cr3, d) == 0
    requires 0 < f < |m| && f !in owner && m[f] == ZERO_FRAME && attr < PAGE_SIZE
    ensures var m' := WithEntry(m, cr3, d, MakeItem(f, attr));
            && Space(m', cr3, owner[f := Table(d)]) && TableOf(m', cr3, d) == f
            && forall v :: 0 <= v < PAGES ==> PageOf(m', cr3, v) == PageOf(m, cr3, v)
  {
    ItemRoundTrip(f, attr);
    var m', owner' := WithEntry(m, cr3, d, MakeItem(f, attr)), owner[f := Table(d)];
    forall e | 0 <= e < ENTRIES
      ensures TableOk(m', cr3, owner', e) && TableOf(m', cr3, e) == if e == d then f else TableOf(m, cr3, e)
    {
      EntrySet(m, cr3, d, MakeItem(f, attr), cr3, e);
      assert TableOk(m, cr3, owner, e);
    }
    forall v | 0 <= v < PAGES ensures PageOf(m', cr3, v) == PageOf(m, cr3, v) && PageOk(m', cr3, owner', v) {
      AddTablePage(m, cr3, owner, d, f, attr, v);
    }
  }

  lemma {:induction false} AddTablePage(m: Memory, cr3: nat, owner: Owners, d: nat, f: nat, attr: nat, v: nat)
    requires Space(m, cr3, owner) && d < ENTRIES && TableOf(m, cr3, d) == 0 && v < PAGES
    requires 0 < f < |m| && f !in owner && m[f] == ZERO_FRAME && attr < PAGE_SIZE
    ensures var m' := WithEntry(m, cr3, d, MakeItem(f, attr));
            PageOf(m', cr3, v) == PageOf(m, cr3, v) && PageOk(m', cr3, owner[f := Table(d)], v)
  {
    ItemRoundTrip(f, attr);
    var e := v / ENTRIES;
    var w := MakeItem(f, attr);
    EntrySet(m, cr3, d, w, cr3, e);
    assert TableOk(m, cr3, owner, e) && PageOk(m, cr3, owner, v);
    if e == d {
      EntrySet(m, cr3, d, w, f, v % ENTRIES);
      ZeroWord(v % ENTRIES);
    } else if TableOf(m, cr3, e) != 0 {
      EntrySet(m, cr3, d, w, TableOf(m, cr3, e), v % ENTRIES);
    }
  }

  // ---- mapping a page ----

  /** Writing frame `f` into the entry of an unmapped page maps it and nothing else. */
  lemma {:induction false} AddPage(m: Memory, cr3: nat, owner: Owners, v: nat, f: nat, attr: nat)
    requires Space(m, cr3, owner) && v < PAGES && TableOf(m, cr3, v / ENTRIES) != 0 && PageOf(m, cr3, v) == 0
    requires 0 < f < |m| && f !in owner && attr < PAGE_SIZE
    ensures TableOf(m, cr3, v / ENTRIES) < |m|
    ensures var m' := WithEntry(m, TableOf(m, cr3, v / ENTRIES), v % ENTRIES, MakeItem(f, attr));
            && Space(m', cr3, owner[f := Data(v)]) && PageOf(m', cr3, v) == f
            && forall u :: 0 <= u < PAGES && u != v ==> PageOf(m', cr3, u) == PageOf(m, cr3, u)
  {
    ItemRoundTrip(f, attr);
    assert TableOk(m, cr3, owner, v / ENTRIES);
    var t := TableOf(m, cr3, v / ENTRIES);
    var m', owner' := WithEntry(m, t, v % ENTRIES, MakeItem(f, attr)), owner[f := Data(v)];
    forall e | 0 <= e < ENTRIES ensures TableOk(m', cr3, owner', e) && TableOf(m', cr3, e) == TableOf(m, cr3, e) {
      EntrySet(m, t, v % ENTRIES, MakeItem(f, attr), cr3, e);
      assert TableOk(m, cr3, owner, e);
    }
    forall u | 0 <= u < PAGES
      ensures PageOf(m', cr3, u) == (if u == v then f else PageOf(m, cr3, u)) && PageOk(m', cr3, owner', u)
    {
      AddPageOther(m, cr3, owner, v, f, attr, u);
    }
  }

  lemma {:induction false} AddPageOther(m: Memory, cr3: nat, owner: Owners, v: nat, f: nat, attr: nat, u: nat)
    requires Space(m, cr3, owner) && v < PAGES && TableOf(m, cr3, v / ENTRIES) != 0 && PageOf(m, cr3, v) == 0
    requires u < PAGES
    requires 0 < f < |m| && f !in owner && attr < PAGE_SIZE && TableOf(m, cr3, v / ENTRIES) < |m|
    ensures var m' := WithEntry(m, TableOf(m, cr3, v / ENTRIES), v % ENTRIES, MakeItem(f, attr));
            PageOf(m', cr3, u) == (if u == v then f else PageOf(m, cr3, u)) && PageOk(m', cr3, owner[f := Data(v)], u)
  {
    ItemRoundTrip(f, attr);
    var t, w := TableOf(m, cr3, v / ENTRIES), MakeItem(f, attr);
    assert TableOk(m, cr3, owner, v / ENTRIES) && TableOk(m, cr3, owner, u / ENTRIES) && PageOk(m, cr3, owner, u);
    EntrySet(m, t, v % ENTRIES, w, cr3, u / ENTRIES);
    var t' := TableOf(m, cr3, u / ENTRIES);
    if t' != 0 {
      EntrySet(m, t, v % ENTRIES, w, t', u % ENTRIES);
    }
  }

  // ---- writing an entry that names no frame ----

  /** Writing page number 0 over page number 0, anywhere, changes no translation: what happens when
      no frame is left for a table or a page. */
  lemma {:induction false} QuietTable(m: Memory, cr3: nat, owner: Owners, f: nat, i: nat, w: nat, d: nat)
    requires Space(m, cr3, owner) && f < |m| && i < ENTRIES && w < PAGE_SIZE && d < ENTRIES
    requires f == cr3 ==> TableOf(m, cr3, i) == 0
    ensures TableOf(WithEntry(m, f, i, w), cr3, d) == TableOf(m, cr3, d)
  {
    EntrySet(m, f, i, w, cr3, d);
  }

  lemma {:induction false} QuietPage(m: Memory, cr3: nat, owner: Owners, f: nat, i: nat, w: nat, v: nat)
    requires Space(m, cr3, owner) && f < |m| && i < ENTRIES && w < PAGE_SIZE && v < PAGES
    requires f == cr3 ==> TableOf(m, cr3, i) == 0
    requires f != 0 && f == TableOf(m, cr3, v / ENTRIES) && i == v % ENTRIES ==> PageOf(m, cr3, v) == 0
    ensures PageOf(WithEntry(m, f, i, w), cr3, v) == PageOf(m, cr3, v)
  {
    QuietTable(m, cr3, owner, f, i, w, v / ENTRIES);
    assert TableOk(m, cr3, owner, v / ENTRIES);
    var t := TableOf(m, cr3, v / ENTRIES);
    if t != 0 { EntrySet(m, f, i, w, t, v % ENTRIES); }
  }

  /** Two pages with one table and one place in it are the same page. */
  lemma {:induction false} OnePlace(m: Memory, cr3: nat, owner: Owners, u: nat, v: nat)
    requires Space(m, cr3, owner) && u < PAGES && v < PAGES && u % ENTRIES == v % ENTRIES
    requires TableOf(m, cr3, u / ENTRIES) == TableOf(m, cr3, v / ENTRIES) != 0
    ensures u == v
  {
    assert TableOk(m, cr3, owner, u / ENTRIES) && TableOk(m, cr3, owner, v / ENTRIES);
    SplitPage(u, v);
  }

  lemma SplitPage(u: nat, v: nat)
    requires u % ENTRIES == v % ENTRIES && u / ENTRIES == v / ENTRIES
    ensures u == v
  {
    assert u == ENTRIES * (u / ENTRIES) + u % ENTRIES;
    assert v == ENTRIES * (v / ENTRIES) + v % ENTRIES;
  }

  /** Both memories translate every page alike, through the same tables. */
  ghost predicate Unmoved(m: Memory, m': Memory, cr3: nat) {
    && cr3 < |m| == |m'|
    && (forall d :: 0 <= d < ENTRIES ==> SameTableAt(m, m', cr3, d))
    && (forall v :: 0 <= v < PAGES ==> SamePageAt(m, m', cr3, v))
  }

  ghost predicate SamePageAt(m: Memory, m': Memory, cr3: nat, v: nat)
    requires cr3 < |m| == |m'| && v < PAGES
  {
    PageOf(m', cr3, v) == PageOf(m, cr3, v)
  }

  ghost predicate SameTableAt(m: Memory, m': Memory, cr3: nat, d: nat)
    requires cr3 < |m| == |m'| && d < ENTRIES
  {
    TableOf(m', cr3, d) == TableOf(m, cr3, d)
  }

  lemma {:induction false} UnmovedSpace(m: Memory, m': Memory, cr3: nat, owner: Owners)
    requires Space(m, cr3, owner) && Unmoved(m, m', cr3)
    ensures Space(m', cr3, owner)
  {
    forall d | 0 <= d < ENTRIES ensures TableOk(m', cr3, owner, d) {
      assert SameTableAt(m, m', cr3, d) && TableOk(m, cr3, owner, d);
    }
    forall v | 0 <= v < PAGES ensures PageOk(m', cr3, owner, v) {
      assert SamePageAt(m, m', cr3, v) && PageOk(m, cr3, owner, v);
    }
  }

  /** No frame for the table of entry `d`: the entry is rewritten and still names none. */
  lemma {:induction false} VainTable(m: Memory, cr3: nat, owner: Owners, d: nat, w: nat)
    requires Space(m, cr3, owner) && d < ENTRIES && w < PAGE_SIZE && TableOf(m, cr3, d) == 0
    ensures Unmoved(m, WithEntry(m, cr3, d, w), cr3) && Space(WithEntry(m, cr3, d, w), cr3, owner)
  {
    var m' := WithEntry(m, cr3, d, w);
    forall e | 0 <= e < ENTRIES ensures SameTableAt(m, m', cr3, e) { QuietTable(m, cr3, owner, cr3, d, w, e); }
    forall v | 0 <= v < PAGES ensures SamePageAt(m, m', cr3, v) {
      assert TableOk(m, cr3, owner, v / ENTRIES);
      QuietPage(m, cr3, owner, cr3, d, w, v);
    }
    UnmovedSpace(m, m', cr3, owner);
  }

  /** No frame for page `v`: the word where its entry would be, in its table or in frame 0, is
      rewritten and the page still has no frame. */
  lemma {:induction false} VainPage(m: Memory, cr3: nat, owner: Owners, v: nat, w: nat)
    requires Space(m, cr3, owner) && v < PAGES && w < PAGE_SIZE && PageOf(m, cr3, v) == 0
    ensures TableOf(m, cr3, v / ENTRIES) < |m|
    ensures var m' := WithEntry(m, TableOf(m, cr3, v / ENTRIES), v % ENTRIES, w);
            Unmoved(m, m', cr3) && Space(m', cr3, owner)
  {
    var t := TableOf(m, cr3, v / ENTRIES);
    assert TableOk(m, cr3, owner, v / ENTRIES);
    var m' := WithEntry(m, t, v % ENTRIES, w);
    forall e | 0 <= e < ENTRIES ensures SameTableAt(m, m', cr3, e) { QuietTable(m, cr3, owner, t, v % ENTRIES, w, e); }
    forall u | 0 <= u < PAGES ensures SamePageAt(m, m', cr3, u) {
      if t != 0 && t == TableOf(m, cr3, u / ENTRIES) && v % ENTRIES == u % ENTRIES { OnePlace(m, cr3, owner, u, v); }
      QuietPage(m, cr3, owner, t, v % ENTRIES, w, u);
    }
    UnmovedSpace(m, m', cr3, owner);
  }

  // ---- what the processor sees ----

  /** Frame number that the processor finds for page `v`: present bits checked at both levels. */
  ghost predicate Translates(m: Memory, cr3: nat, v: nat, p: nat)
    requires cr3 < |m| && v < PAGES
  {
    var de := Entry(m, cr3, v / ENTRIES);
    && de % 2 == 1 && PageFromItem(de) < |m|
    && var te := Entry(m, PageFromItem(de), v % ENTRIES);
       te % 2 == 1 && PageFromItem(te) == p
  }

  /** The processor's physical address for `a`. */
  ghost predicate TranslatesTo(m: Memory, cr3: nat, a: nat, b: nat)
    requires cr3 < |m| && a < TWO32
  {
    Translates(m, cr3, a / PAGE_SIZE, b / PAGE_SIZE) && a % PAGE_SIZE == b % PAGE_SIZE
  }

  // ---- entries as words ----

  /** The table word of page `v`, or 0 when it has no table. */
  ghost function PageItem(m: Memory, cr3: nat, v: nat): nat
    requires cr3 < |m| && v < PAGES
  {
    var t := TableOf(m, cr3, v / ENTRIES);
    if t == 0 || t >= |m| then 0 else Entry(m, t, v % ENTRIES)
  }

  ghost predicate SameItemAt(m: Memory, m': Memory, cr3: nat, v: nat)
    requires cr3 < |m| == |m'| && v < PAGES
  {
    PageItem(m', cr3, v) == PageItem(m, cr3, v)
  }

  ghost predicate SameDirAt(m: Memory, m': Memory, cr3: nat, d: nat)
    requires cr3 < |m| == |m'| && d < ENTRIES
  {
    Entry(m', cr3, d) == Entry(m, cr3, d)
  }

  /** Writing the directory entry of a missing table, with a zeroed frame or with none, changes that
      entry and the word of no page. */
  lemma {:induction false} DirWords(m: Memory, cr3: nat, owner: Owners, d: nat, f: nat, attr: nat)
    requires Space(m, cr3, owner) && d < ENTRIES && TableOf(m, cr3, d) == 0 && attr < PAGE_SIZE
    requires f < |m| && MakeItem(f, attr) < TWO32 && (f != 0 ==> f !in owner && m[f] == ZERO_FRAME)
    ensures var m' := WithEntry(m, cr3, d, MakeItem(f, attr));
            && Entry(m', cr3, d) == MakeItem(f, attr)
            && (forall e :: 0 <= e < ENTRIES && e != d ==> SameDirAt(m, m', cr3, e))
            && (forall v :: 0 <= v < PAGES ==> SameItemAt(m, m', cr3, v))
  {
    var w := MakeItem(f, attr);
    var m' := WithEntry(m, cr3, d, w);
    EntrySet(m, cr3, d, w, cr3, d);
    forall e | 0 <= e < ENTRIES && e != d ensures SameDirAt(m, m', cr3, e) { EntrySet(m, cr3, d, w, cr3, e); }
    forall v | 0 <= v < PAGES ensures SameItemAt(m, m', cr3, v) { DirKeepsItem(m, cr3, owner, d, f, attr, v); }
  }

  lemma {:induction false} DirKeepsItem(m: Memory, cr3: nat, owner: Owners, d: nat, f: nat, attr: nat, v: nat)
    requires Space(m, cr3, owner) && d < ENTRIES && TableOf(m, cr3, d) == 0 && attr < PAGE_SIZE && v < PAGES
    requires f < |m| && MakeItem(f, attr) < TWO32 && (f != 0 ==> f !in owner && m[f] == ZERO_FRAME)
    ensures SameItemAt(m, WithEntry(m, cr3, d, MakeItem(f, attr)), cr3, v)
  {
    var w, e := MakeItem(f, attr), v / ENTRIES;
    ItemRoundTrip(f, attr);
    EntrySet(m, cr3, d, w, cr3, e);
    assert TableOk(m, cr3, owner, e);
    if e == d {
      if f != 0 {
        EntrySet(m, cr3, d, w, f, v % ENTRIES);
        ZeroWord(v % ENTRIES);
      }
    } else if TableOf(m, cr3, e) != 0 {
      EntrySet(m, cr3, d, w, TableOf(m, cr3, e), v % ENTRIES);
    }
  }

  /** Writing the word of page `v`, in its table or in frame 0 when it has none, changes no directory
      entry and no other page's word. */
  lemma {:induction false} PageWords(m: Memory, cr3: nat, owner: Owners, v: nat, w: nat)
    requires Space(m, cr3, owner) && v < PAGES && w < TWO32
    ensures TableOf(m, cr3, v / ENTRIES) < |m|
    ensures var t := TableOf(m, cr3, v / ENTRIES);
            var m' := WithEntry(m, t, v % ENTRIES, w);
            && PageItem(m', cr3, v) == (if t == 0 then 0 else w)
            && (forall e :: 0 <= e < ENTRIES ==> SameDirAt(m, m', cr3, e))
            && (forall u :: 0 <= u < PAGES && u != v ==> SameItemAt(m, m', cr3, u))
  {
    assert TableOk(m, cr3, owner, v / ENTRIES);
    var t := TableOf(m, cr3, v / ENTRIES);
    var m' := WithEntry(m, t, v % ENTRIES, w);
    forall e | 0 <= e < ENTRIES ensures SameDirAt(m, m', cr3, e) { EntrySet(m, t, v % ENTRIES, w, cr3, e); }
    assert SameDirAt(m, m', cr3, v / ENTRIES);
    EntrySet(m, t, v % ENTRIES, w, t, v % ENTRIES);
    forall u | 0 <= u < PAGES && u != v ensures SameItemAt(m, m', cr3, u) {
      assert SameDirAt(m, m', cr3, u / ENTRIES) && TableOk(m, cr3, owner, u / ENTRIES);
      var t' := TableOf(m, cr3, u / ENTRIES);
      if t' != 0 {
        if t == t' && u % ENTRIES == v % ENTRIES { OnePlace(m, cr3, owner, u, v); }
        EntrySet(m, t, v % ENTRIES, w, t', u % ENTRIES);
      }
    }
  }

  lemma {:induction false} ItemPage(m: Memory, cr3: nat, v: nat)
    requires cr3 < |m| && v < PAGES
    ensures PageOf(m, cr3, v) == PageFromItem(PageItem(m, cr3, v))
  {
  }
}
