/** Reading and writing user memory through the page tables, byte by byte. */
module UserCopy {
  import opened PhysMem
  import opened PageTables

  /** Virtual address `a` has a frame. */
  predicate Reachable(m: Memory, cr3: nat, a: nat)
    requires cr3 < |m| && a < TWO32
  {
    PageOf(m, cr3, a / PAGE_SIZE) != 0
  }

  /** All of `a..a + n` has frames. */
  ghost predicate RangeReachable(m: Memory, cr3: nat, a: nat, n: nat)
    requires cr3 < |m| && a + n <= TWO32
  {
    forall c :: a <= c < a + n ==> Reachable(m, cr3, c)
  }

  /** The byte of user memory at `a`. */
  ghost function UserByte(m: Memory, cr3: nat, owner: Owners, a: nat): Byte
    requires Space(m, cr3, owner) && a < TWO32 && Reachable(m, cr3, a)
  {
    assert PageOk(m, cr3, owner, a / PAGE_SIZE);
    m[PageOf(m, cr3, a / PAGE_SIZE)][a % PAGE_SIZE]
  }

  /** One byte written at the physical address that `a` translates to. */
  ghost function PutByte(m: Memory, cr3: nat, a: nat, b: Byte): Memory
    requires cr3 < |m| && a < TWO32
  {
    var p := PageOf(m, cr3, a / PAGE_SIZE);
    if p == 0 || p >= |m| then m else m[p := m[p][a % PAGE_SIZE := b]]
  }

  /** Both memories translate every page alike. */
  ghost predicate SameMap(m: Memory, m': Memory, cr3: nat) {
    && cr3 < |m| == |m'|
    && forall v :: 0 <= v < PAGES ==> SamePageAt(m, m', cr3, v)
  }

  lemma {:induction false} SameMapTrans(m: Memory, m1: Memory, m2: Memory, cr3: nat)
    requires SameMap(m, m1, cr3) && SameMap(m1, m2, cr3)
    ensures SameMap(m, m2, cr3)
  {
    forall v | 0 <= v < PAGES ensures SamePageAt(m, m2, cr3, v) {
      assert SamePageAt(m, m1, cr3, v) && SamePageAt(m1, m2, cr3, v);
    }
  }

  /** A byte written to a data frame changes no table, so no translation. */
  lemma {:induction false} PutKeepsSpace(m: Memory, cr3: nat, owner: Owners, a: nat, b: Byte)
    requires Space(m, cr3, owner) && a < TWO32 && Reachable(m, cr3, a)
    ensures Space(PutByte(m, cr3, a, b), cr3, owner)
    ensures SameMap(m, PutByte(m, cr3, a, b), cr3)
  {
    var m' := PutByte(m, cr3, a, b);
    assert PageOk(m, cr3, owner, a / PAGE_SIZE);
    forall d | 0 <= d < ENTRIES ensures TableOf(m', cr3, d) == TableOf(m, cr3, d) && TableOk(m', cr3, owner, d) {
      assert TableOk(m, cr3, owner, d);
    }
    forall v | 0 <= v < PAGES ensures SamePageAt(m, m', cr3, v) && PageOk(m', cr3, owner, v) {
      assert PageOk(m, cr3, owner, v) && TableOk(m, cr3, owner, v / ENTRIES);
    }
  }

  lemma SameAddress(a: nat, b: nat)
    requires a / PAGE_SIZE == b / PAGE_SIZE && a % PAGE_SIZE == b % PAGE_SIZE
    ensures a == b
  {
    assert a == PAGE_SIZE * (a / PAGE_SIZE) + a % PAGE_SIZE;
  }

  /** Injective translation: the write is seen at `a` and at no other user address. */
  lemma {:induction false} PutRead(m: Memory, cr3: nat, owner: Owners, a: nat, b: Byte, c: nat)
    requires Space(m, cr3, owner) && a < TWO32 && Reachable(m, cr3, a) && c < TWO32 && Reachable(m, cr3, c)
    ensures Space(PutByte(m, cr3, a, b), cr3, owner) && Reachable(PutByte(m, cr3, a, b), cr3, c)
    ensures UserByte(PutByte(m, cr3, a, b), cr3, owner, c) == if c == a then b else UserByte(m, cr3, owner, c)
  {
    var m', v, w := PutByte(m, cr3, a, b), a / PAGE_SIZE, c / PAGE_SIZE;
    PutKeepsSpace(m, cr3, owner, a, b);
    SpaceSeparates(m, cr3, owner, v, w, 0);
    assert SamePageAt(m, m', cr3, w) && PageOk(m, cr3, owner, w);
    var p, q := PageOf(m, cr3, v), PageOf(m, cr3, w);
    assert m' == m[p := m[p][a % PAGE_SIZE := b]];
    if c != a && w == v {
      if c % PAGE_SIZE == a % PAGE_SIZE { SameAddress(a, c); }
      assert m'[q][c % PAGE_SIZE] == m[q][c % PAGE_SIZE];
    } else if c != a {
      assert m'[q] == m[q];
    }
  }

  /** Address `c` translates to byte `o` of frame `f`. */
  ghost predicate Hits(m: Memory, cr3: nat, c: nat, f: nat, o: nat)
    requires cr3 < |m| && c < TWO32
  {
    PageOf(m, cr3, c / PAGE_SIZE) == f && c % PAGE_SIZE == o
  }

  /** `m'` is `m` with `data` written at user address `a`: the range reads as the data, every
      other user byte as before, and only the physical bytes the range translates to differ,
      whatever page or directory boundaries the range crosses. */
  ghost predicate Copied(m: Memory, m': Memory, cr3: nat, owner: Owners, a: nat, data: seq<Byte>) {
    && Space(m, cr3, owner) && Space(m', cr3, owner) && SameMap(m, m', cr3) && a + |data| <= TWO32
    && (forall c :: 0 <= c < TWO32 && Reachable(m, cr3, c) ==> ReadsAs(m, m', cr3, owner, a, data, c))
    && (forall f, o :: 0 <= f < |m| && 0 <= o < PAGE_SIZE ==> KeptByte(m, m', cr3, a, |data|, f, o))
  }

  ghost predicate ReadsAs(m: Memory, m': Memory, cr3: nat, owner: Owners, a: nat, data: seq<Byte>, c: nat)
    requires Space(m, cr3, owner) && Space(m', cr3, owner) && c < TWO32 && Reachable(m, cr3, c)
  {
    && Reachable(m', cr3, c)
    && UserByte(m', cr3, owner, c) == if a <= c < a + |data| then data[c - a] else UserByte(m, cr3, owner, c)
  }

  ghost predicate KeptByte(m: Memory, m': Memory, cr3: nat, a: nat, n: nat, f: nat, o: nat)
    requires cr3 < |m| == |m'| && a + n <= TWO32 && f < |m| && o < PAGE_SIZE
  {
    (forall c :: a <= c < a + n ==> !Hits(m, cr3, c, f, o)) ==> m'[f][o] == m[f][o]
  }

  lemma {:induction false} CopiedNothing(m: Memory, cr3: nat, owner: Owners, a: nat)
    requires Space(m, cr3, owner) && a <= TWO32
    ensures Copied(m, m, cr3, owner, a, [])
  {
  }

  /** One more byte. */
  lemma {:induction false} CopiedNext(m: Memory, m1: Memory, cr3: nat, owner: Owners, a: nat, data: seq<Byte>, b: Byte)
    requires Copied(m, m1, cr3, owner, a, data) && a + |data| < TWO32 && Reachable(m, cr3, a + |data|)
    ensures Copied(m, PutByte(m1, cr3, a + |data|, b), cr3, owner, a, data + [b])
  {
    var k := a + |data|;
    assert SamePageAt(m, m1, cr3, k / PAGE_SIZE);
    PutKeepsSpace(m1, cr3, owner, k, b);
    var m2 := PutByte(m1, cr3, k, b);
    SameMapTrans(m, m1, m2, cr3);
    forall c | 0 <= c < TWO32 && Reachable(m, cr3, c) ensures ReadsAs(m, m2, cr3, owner, a, data + [b], c) {
      assert ReadsAs(m, m1, cr3, owner, a, data, c);
      PutRead(m1, cr3, owner, k, b, c);
    }
    forall f, o | 0 <= f < |m| && 0 <= o < PAGE_SIZE ensures KeptByte(m, m2, cr3, a, |data + [b]|, f, o) {
      CopiedKept(m, m1, cr3, owner, a, data, b, f, o);
    }
  }

  /** The first `k` bytes of `data` are written, all at addresses with frames. */
  ghost predicate CopiedSoFar(m: Memory, m': Memory, cr3: nat, owner: Owners, a: nat, data: seq<Byte>, k: nat) {
    k <= |data| && Copied(m, m', cr3, owner, a, data[..k]) && RangeReachable(m, cr3, a, k)
  }

  lemma {:induction false} CopiedStart(m: Memory, cr3: nat, owner: Owners, a: nat, data: seq<Byte>)
    requires Space(m, cr3, owner) && a <= TWO32
    ensures CopiedSoFar(m, m, cr3, owner, a, data, 0)
  {
    assert data[..0] == [];
    CopiedNothing(m, cr3, owner, a);
  }

  lemma {:induction false} CopiedStep(m: Memory, m1: Memory, cr3: nat, owner: Owners, a: nat, data: seq<Byte>, k: nat)
    requires CopiedSoFar(m, m1, cr3, owner, a, data, k) && k < |data| && a + |data| < TWO32
    ensures var p := PageOf(m1, cr3, (a + k) / PAGE_SIZE);
            && (p == 0 ==> !Reachable(m, cr3, a + k))
            && (p != 0 ==>
                  && p < |m1|
                  && var m2 := m1[p := m1[p][(a + k) % PAGE_SIZE := data[k]]];
                     CopiedSoFar(m, m2, cr3, owner, a, data, k + 1))
  {
    CopiedPage(m, m1, cr3, owner, a, data[..k], a + k);
    if PageOf(m1, cr3, (a + k) / PAGE_SIZE) != 0 { CopiedOn(m, m1, cr3, owner, a, data, k); }
  }

  lemma {:induction false} CopiedOn(m: Memory, m1: Memory, cr3: nat, owner: Owners, a: nat, data: seq<Byte>, k: nat)
    requires CopiedSoFar(m, m1, cr3, owner, a, data, k) && k < |data| && a + |data| < TWO32
    requires Reachable(m, cr3, a + k)
    ensures CopiedSoFar(m, PutByte(m1, cr3, a + k, data[k]), cr3, owner, a, data, k + 1)
  {
    var d := data[..k];
    assert |d| == k;
    CopiedNext(m, m1, cr3, owner, a, d, data[k]);
    assert d + [data[k]] == data[..k + 1];
    ReachableNext(m, cr3, a, k);
  }

  lemma {:induction false} ReachableNext(m: Memory, cr3: nat, a: nat, k: nat)
    requires cr3 < |m| && a + k < TWO32 && RangeReachable(m, cr3, a, k) && Reachable(m, cr3, a + k)
    ensures RangeReachable(m, cr3, a, k + 1)
  {
  }

  lemma {:induction false} CopiedKept(m: Memory, m1: Memory, cr3: nat, owner: Owners, a: nat, data: seq<Byte>,
                                      b: Byte, f: nat, o: nat)
    requires Copied(m, m1, cr3, owner, a, data) && a + |data| < TWO32 && f < |m| && o < PAGE_SIZE
    ensures KeptByte(m, PutByte(m1, cr3, a + |data|, b), cr3, a, |data| + 1, f, o)
  {
    var k := a + |data|;
    if forall c :: a <= c < k + 1 ==> !Hits(m, cr3, c, f, o) {
      assert KeptByte(m, m1, cr3, a, |data|, f, o);
      assert SamePageAt(m, m1, cr3, k / PAGE_SIZE);
      assert !Hits(m, cr3, k, f, o);
    }
  }

  /** A frame outside the address space is not written. */
  lemma {:induction false} CopiedForeign(m: Memory, m': Memory, cr3: nat, owner: Owners, a: nat, data: seq<Byte>,
                                         f: nat)
    requires Copied(m, m', cr3, owner, a, data) && RangeReachable(m, cr3, a, |data|) && f < |m| && f !in owner
    ensures m'[f] == m[f]
  {
    forall o | 0 <= o < PAGE_SIZE ensures m'[f][o] == m[f][o] {
      forall c | a <= c < a + |data| ensures !Hits(m, cr3, c, f, o) {
        assert Reachable(m, cr3, c) && PageOk(m, cr3, owner, c / PAGE_SIZE);
      }
      assert KeptByte(m, m', cr3, a, |data|, f, o);
    }
  }

  /** `data` is what user memory holds from `a` on. */
  ghost predicate Fetched(m: Memory, cr3: nat, owner: Owners, a: nat, data: seq<Byte>) {
    && Space(m, cr3, owner) && a + |data| <= TWO32 && RangeReachable(m, cr3, a, |data|)
    && forall c :: a <= c < a + |data| ==> data[c - a] == UserByte(m, cr3, owner, c)
  }

  lemma {:induction false} FetchedNext(m: Memory, cr3: nat, owner: Owners, a: nat, data: seq<Byte>, b: Byte)
    requires Fetched(m, cr3, owner, a, data) && a + |data| < TWO32 && Reachable(m, cr3, a + |data|)
    requires b == UserByte(m, cr3, owner, a + |data|)
    ensures Fetched(m, cr3, owner, a, data + [b])
  {
  }

  /** `k` addresses from `a` on have frames, and if `k < n` the next has none. */
  ghost predicate FirstHole(m: Memory, cr3: nat, a: nat, n: nat, k: nat) {
    && cr3 < |m| && k <= n && a + n <= TWO32 && RangeReachable(m, cr3, a, k)
    && (k < n ==> !Reachable(m, cr3, a + k))
  }

  /** Translation during a copy is what it was before. */
  lemma {:induction false} CopiedPage(m: Memory, m': Memory, cr3: nat, owner: Owners, a: nat, data: seq<Byte>, c: nat)
    requires Copied(m, m', cr3, owner, a, data) && c < TWO32
    ensures PageOf(m', cr3, c / PAGE_SIZE) == PageOf(m, cr3, c / PAGE_SIZE)
    ensures PageOf(m', cr3, c / PAGE_SIZE) < |m'|
  {
    assert SamePageAt(m, m', cr3, c / PAGE_SIZE) && PageOk(m', cr3, owner, c / PAGE_SIZE);
  }

  /** What was written is what is read. */
  lemma {:induction false} CopyRoundTrip(m: Memory, m': Memory, cr3: nat, owner: Owners, a: nat, data: seq<Byte>,
                                         back: seq<Byte>)
    requires Copied(m, m', cr3, owner, a, data) && RangeReachable(m, cr3, a, |data|)
    requires Fetched(m', cr3, owner, a, back) && |back| == |data|
    ensures back == data
  {
    forall i | 0 <= i < |data| ensures back[i] == data[i] {
      assert Reachable(m, cr3, a + i) && ReadsAs(m, m', cr3, owner, a, data, a + i);
      assert back[a + i - a] == UserByte(m', cr3, owner, a + i);
    }
  }

  /** A user byte is the byte at the physical address that the processor translates its address to. */
  lemma {:induction false} UserByteTranslated(m: Memory, cr3: nat, owner: Owners, a: nat, b: nat)
    requires Space(m, cr3, owner) && a < TWO32 && TableOf(m, cr3, a / PAGE_SIZE / ENTRIES) != 0
    requires TranslatesTo(m, cr3, a, b) && b / PAGE_SIZE != 0
    ensures Reachable(m, cr3, a) && b / PAGE_SIZE < |m|
    ensures UserByte(m, cr3, owner, a) == m[b / PAGE_SIZE][b % PAGE_SIZE]
  {
    assert TableOk(m, cr3, owner, a / PAGE_SIZE / ENTRIES) && PageOk(m, cr3, owner, a / PAGE_SIZE);
  }
}
