/** The slot walk of a directory and its callbacks: `mfs_function` and `mfs_ex_*` of fs/mfs/mfs.c. */
module DirectoryWalk {
  import opened CStrings
  import opened Path

  const MFS_SCTS_PERCLUSTER: nat := 8
  const MFS_INODES_PER_SCT: nat := 8
  const MFS_INVALID_CLUSTER: nat := 0
  const ITYPE_DIR: int := 0x1000_0002
  const ITYPE_ARCHIVE: int := 0x1000_0001

  type NodeName = s: string | |s| == 14 witness seq(14, _ => NUL)
  type Padding = s: string | |s| == 2 witness seq(2, _ => NUL)

  /** One slot of a directory (fs/mfs/mfs.h). */
  datatype Inode = Inode(name: NodeName, unused: Padding, size: int, attrib: int, devnum: int,
                         tCreate: int, dCreate: int, tAccess: int, dAccess: int, fat: seq<int>)

  function Label(s: Inode): string { Text(s.name) }

  predicate Empty(s: Inode) { Label(s) == "" }

  type Sector = s: seq<Inode> | |s| == 8 witness seq(8, _ => Blank())

  function Blank(): Inode {
    Inode(seq(14, _ => NUL), seq(2, _ => NUL), 0, 0, 0, 0, 0, 0, 0, [0, 0, 0, 0, 0])
  }

  // ---- callbacks ----

  datatype Verdict = Abort | Done | Continue | WriteBack | WriteBackEx

  /** The in/out parameter block. */
  datatype Param = Param(inode: Inode, clust: nat, index: nat)

  /** What a callback leaves: its verdict, the slot, the parameter block and the directory's size. */
  datatype Reply = Reply(verdict: Verdict, slot: Inode, io: Param, size: nat)

  /** A callback is given the slot, the cluster it lies in, the parameter block and `i_size`. */
  type Callback = (Inode, nat, Param, nat) -> Reply

  function MakeInode(slot: Inode, clust: nat, io: Param, size: nat): Reply {
    if !Empty(slot) then Reply(Continue, slot, io, size)
    else Reply(WriteBack, io.inode, io.(clust := clust), size + 1)
  }

  predicate SameName(slot: Inode, key: Inode) {
    StrNCmp(slot.name + slot.unused, key.name + key.unused, K_MAX_LEN_NODE_NAME) == 0
  }

  function SearchItem(slot: Inode, clust: nat, io: Param, size: nat): Reply {
    if Empty(slot) || !SameName(slot, io.inode) then Reply(Continue, slot, io, size)
    else Reply(Done, slot, io.(clust := clust, inode := slot), size)
  }

  function SearchItemEx(slot: Inode, clust: nat, io: Param, size: nat): Reply {
    if Empty(slot) then Reply(Continue, slot, io, size)
    else if io.index == 0 then Reply(Done, slot, io.(clust := clust, inode := slot), size)
    else Reply(Continue, slot, io.(index := io.index - 1), size)
  }

  /** A callback that changes its slot asks for it to be written. */
  ghost predicate Honest(f: Callback) {
    forall s, c, io, n :: var r := f(s, c, io, n);
      r.verdict.WriteBack? || r.verdict.WriteBackEx? || r.slot == s
  }

  lemma CallbacksHonest()
    ensures Honest(MakeInode) && Honest(SearchItem) && Honest(SearchItemEx)
  {}

  // ---- the fold over one flat sequence of slots ----

  datatype End = Running | Succeeded | Failed

  datatype Outcome = Outcome(end: End, slots: seq<Inode>, io: Param, size: nat)

  /** What one callback does to the walk. */
  ghost function One(f: Callback, clust: nat, slot: Inode, writable: bool, io: Param, size: nat): (o: Outcome)
    ensures |o.slots| == 1
  {
    var r := f(slot, clust, io, size);
    match r.verdict
    case Abort => Outcome(Failed, [slot], r.io, r.size)
    case Done => Outcome(Succeeded, [slot], r.io, r.size)
    case Continue => Outcome(Running, [slot], r.io, r.size)
    case WriteBack =>
      if writable then Outcome(Succeeded, [r.slot], r.io, r.size) else Outcome(Failed, [slot], r.io, r.size)
    case WriteBackEx =>
      if writable then Outcome(Running, [r.slot], r.io, r.size) else Outcome(Failed, [slot], r.io, r.size)
  }

  /** The walk over a flat sequence of slots, where `w[i]` says whether slot `i` can be written. */
  ghost function Fold(f: Callback, clust: nat, slots: seq<Inode>, w: seq<bool>, io: Param, size: nat): (o: Outcome)
    requires |w| == |slots|
    ensures |o.slots| == |slots|
  {
    if slots == [] then Outcome(Running, [], io, size) else
      var o := One(f, clust, slots[0], w[0], io, size);
      if o.end.Running? then Behind(o.slots, Fold(f, clust, slots[1..], w[1..], o.io, o.size))
      else Before(o, slots[1..])
  }

  /** Slots that were walked over, and slots that were not reached. */
  ghost function Behind(front: seq<Inode>, o: Outcome): Outcome {
    o.(slots := front + o.slots)
  }

  ghost function Before(o: Outcome, rest: seq<Inode>): Outcome {
    o.(slots := o.slots + rest)
  }

  lemma {:induction false} BehindBehind(a: seq<Inode>, b: seq<Inode>, o: Outcome, rest: seq<Inode>)
    ensures Behind(a, Behind(b, o)) == Behind(a + b, o)
    ensures Behind(a, Before(o, rest)) == Before(Behind(a, o), rest)
    ensures Before(Before(o, a), b) == Before(o, a + b)
  {
    assert a + (b + o.slots) == a + b + o.slots;
    assert a + (o.slots + rest) == a + o.slots + rest;
    assert o.slots + a + b == o.slots + (a + b);
  }

  /** Walking two stretches one after the other is walking them as one. */
  lemma {:induction false} FoldAppend(f: Callback, clust: nat, a: seq<Inode>, wa: seq<bool>,
                                      b: seq<Inode>, wb: seq<bool>, io: Param, size: nat)
    requires |wa| == |a| && |wb| == |b|
    ensures var o := Fold(f, clust, a, wa, io, size);
            Fold(f, clust, a + b, wa + wb, io, size)
            == if o.end.Running? then Behind(o.slots, Fold(f, clust, b, wb, o.io, o.size)) else Before(o, b)
  {
    if a == [] {
      assert a + b == b && wa + wb == wb;
      assert [] + Fold(f, clust, b, wb, io, size).slots == Fold(f, clust, b, wb, io, size).slots;
    } else {
      assert (a + b)[1..] == a[1..] + b && (wa + wb)[1..] == wa[1..] + wb;
      var o := One(f, clust, a[0], wa[0], io, size);
      FoldAppend(f, clust, a[1..], wa[1..], b, wb, o.io, o.size);
      var t := Fold(f, clust, a[1..], wa[1..], o.io, o.size);
      BehindBehind(o.slots, t.slots, Fold(f, clust, b, wb, t.io, t.size), b);
      BehindBehind(o.slots, t.slots, t, b);
      BehindBehind(a[1..], b, o, b);
    }
  }

  // ---- what the verdicts mean ----

  /** A callback's first verdict that is not "go on" ends the walk: it succeeds for "done" and for a
      write that works, and fails for "abort" and for a write that does not; slots behind are untouched. */
  lemma {:induction false} FirstVerdict(f: Callback, clust: nat, slots: seq<Inode>, w: seq<bool>, k: nat,
                                        io: Param, size: nat)
    requires |w| == |slots| && k < |slots| && Honest(f)
    requires forall i :: 0 <= i < k ==> GoesOn(f, clust, slots[i], io, size)
    ensures var o, r := Fold(f, clust, slots, w, io, size), f(slots[k], clust, io, size);
            && (r.verdict.Abort? ==> o == Outcome(Failed, slots, r.io, r.size))
            && (r.verdict.Done? ==> o == Outcome(Succeeded, slots, r.io, r.size))
            && (r.verdict.WriteBack? && w[k] ==> o == Outcome(Succeeded, slots[k := r.slot], r.io, r.size))
            && (r.verdict.WriteBack? && !w[k] ==> o == Outcome(Failed, slots, r.io, r.size))
            && (r.verdict.WriteBackEx? && !w[k] ==> o == Outcome(Failed, slots, r.io, r.size))
  {
    assert slots == [slots[0]] + slots[1..];
    if k > 0 {
      assert GoesOn(f, clust, slots[0], io, size);
      FirstVerdict(f, clust, slots[1..], w[1..], k - 1, io, size);
      var s := f(slots[k], clust, io, size).slot;
      assert slots[k := s] == [slots[0]] + slots[1..][k - 1 := s];
    } else {
      var s := f(slots[0], clust, io, size).slot;
      assert slots[0 := s] == [s] + slots[1..];
    }
  }

  ghost predicate GoesOn(f: Callback, clust: nat, slot: Inode, io: Param, size: nat) {
    f(slot, clust, io, size) == Reply(Continue, slot, io, size)
  }

  /** A callback that rewrites every slot and goes on rewrites all of them, where all can be written. */
  lemma {:induction false} RewriteAll(f: Callback, g: Inode -> Inode, clust: nat, slots: seq<Inode>, w: seq<bool>,
                                      io: Param, size: nat)
    requires |w| == |slots| && (forall i :: 0 <= i < |w| ==> w[i])
    requires forall s :: f(s, clust, io, size) == Reply(WriteBackEx, g(s), io, size)
    ensures var o := Fold(f, clust, slots, w, io, size);
            o.end.Running? && o.io == io && o.size == size && forall i :: 0 <= i < |slots| ==> o.slots[i] == g(slots[i])
  {
    if slots != [] { RewriteAll(f, g, clust, slots[1..], w[1..], io, size); }
  }
}
