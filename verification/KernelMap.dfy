/** The kernel's own tables, as `startpage` builds them. */
module KernelMap {
  import opened PhysMem
  import opened PageTables

  const KERNEL_CR3: nat := 0x100
  const FOUR_MB: nat := 0x40_0000

  /** Directory entry `i` points at the table right after the directory, `i` frames on. */
  ghost predicate DirSet(m: Memory, i: nat)
    requires KERNEL_CR3 < |m| && i < ENTRIES
  {
    Entry(m, KERNEL_CR3, i) == MakeItem(KERNEL_CR3 + 1 + i, 1)
  }

  /** Word `i` of the tables, taken as one array, maps page `i` to frame `i`. */
  ghost predicate FlatSet(m: Memory, i: nat)
    requires KERNEL_CR3 + 1 + i / ENTRIES < |m| && i < PAGES
  {
    Entry(m, KERNEL_CR3 + 1 + i / ENTRIES, i % ENTRIES) == MakeItem(i, 1)
  }

  class Boot {
    var mem: Memory

    constructor (m: Memory)
      ensures mem == m
    {
      mem := m;
    }

    /** The directory and table loops of `startpage`: every address below `memsize` translates
        to itself. */
    method BuildTables(memsize: nat)
      requires memsize % FOUR_MB == 0 && memsize <= TWO32 && KERNEL_CR3 + 1 + memsize / FOUR_MB <= |mem| <= PAGES
      modifies this
      ensures |mem| == |old(mem)|
      ensures forall a :: 0 <= a < memsize ==> TranslatesTo(mem, KERNEL_CR3, a, a)
      ensures forall f :: 0 <= f < |mem| && !(KERNEL_CR3 <= f <= KERNEL_CR3 + memsize / FOUR_MB) ==>
                mem[f] == old(mem)[f]
    {
      var tables, pages := memsize / FOUR_MB, memsize / PAGE_SIZE;
      Sizes(memsize);
      for i := 0 to tables
        invariant |mem| == |old(mem)|
        invariant forall j :: 0 <= j < i ==> DirSet(mem, j)
        invariant forall f :: 0 <= f < |mem| && f != KERNEL_CR3 ==> mem[f] == old(mem)[f]
      {
        ghost var m := mem;
        var d := MakeItem(KERNEL_CR3 + 1 + i, 1);
        ItemRoundTrip(KERNEL_CR3 + 1 + i, 1);
        mem := mem[KERNEL_CR3 := SetWord(mem[KERNEL_CR3], i, d)];
        forall j | 0 <= j < i + 1 ensures DirSet(mem, j) {
          EntrySet(m, KERNEL_CR3, i, d, KERNEL_CR3, j);
          if j < i { assert DirSet(m, j); }
        }
      }
      for i := 0 to pages
        invariant |mem| == |old(mem)|
        invariant forall j :: 0 <= j < tables ==> DirSet(mem, j)
        invariant forall j :: 0 <= j < i ==> FlatSet(mem, j)
        invariant forall f :: 0 <= f < |mem| && !(KERNEL_CR3 <= f <= KERNEL_CR3 + tables) ==> mem[f] == old(mem)[f]
      {
        ghost var m := mem;
        ItemRoundTrip(i, 1);
        var t := KERNEL_CR3 + 1 + i / ENTRIES;
        mem := mem[t := SetWord(mem[t], i % ENTRIES, MakeItem(i, 1))];
        forall j | 0 <= j < tables ensures DirSet(mem, j) {
          assert DirSet(m, j);
        }
        forall j | 0 <= j < i + 1 ensures FlatSet(mem, j) {
          FlatNext(m, i, j);
        }
      }
      forall a | 0 <= a < memsize ensures TranslatesTo(mem, KERNEL_CR3, a, a) {
        assert DirSet(mem, a / PAGE_SIZE / ENTRIES) && FlatSet(mem, a / PAGE_SIZE);
        Identity(mem, a / PAGE_SIZE);
      }
    }
  }

  lemma Sizes(memsize: nat)
    requires memsize % FOUR_MB == 0 && memsize <= TWO32
    ensures memsize / PAGE_SIZE == ENTRIES * (memsize / FOUR_MB) && memsize / FOUR_MB <= ENTRIES
  {
  }

  lemma {:induction false} FlatNext(m: Memory, i: nat, j: nat)
    requires i < PAGES && KERNEL_CR3 + 1 + i / ENTRIES < |m| && j <= i && (j < i ==> FlatSet(m, j))
    ensures MakeItem(i, 1) < TWO32
    ensures FlatSet(WithEntry(m, KERNEL_CR3 + 1 + i / ENTRIES, i % ENTRIES, MakeItem(i, 1)), j)
  {
    ItemRoundTrip(i, 1);
    EntrySet(m, KERNEL_CR3 + 1 + i / ENTRIES, i % ENTRIES, MakeItem(i, 1), KERNEL_CR3 + 1 + j / ENTRIES, j % ENTRIES);
    if j / ENTRIES == i / ENTRIES && j % ENTRIES == i % ENTRIES {
      assert i == ENTRIES * (i / ENTRIES) + i % ENTRIES && j == ENTRIES * (j / ENTRIES) + j % ENTRIES;
    }
  }

  /** The flat table array and the two-level split of a page number agree. */
  lemma {:induction false} Identity(m: Memory, v: nat)
    requires v < PAGES && KERNEL_CR3 + 1 + v / ENTRIES < |m| <= PAGES && DirSet(m, v / ENTRIES) && FlatSet(m, v)
    ensures Translates(m, KERNEL_CR3, v, v)
  {
    ItemRoundTrip(KERNEL_CR3 + 1 + v / ENTRIES, 1);
    ItemRoundTrip(v, 1);
    PresentBit(KERNEL_CR3 + 1 + v / ENTRIES);
    PresentBit(v);
  }

  lemma PresentBit(page: nat)
    requires page < PAGES
    ensures MakeItem(page, 1) % 2 == 1
  {
    Odd(2048 * page);
    assert MakeItem(page, 1) == 2 * (2048 * page) + 1;
  }

  lemma Odd(k: nat)
    ensures (2 * k + 1) % 2 == 1
  {
  }
}
