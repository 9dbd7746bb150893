/** Directories on a block device: `mfs_function` over sectors and slots, and the operations built on
    it, of fs/mfs/mfs.c. */
module DirectoryStore {
  import opened CStrings
  import opened Path
  import opened DirectoryWalk
  import opened DirectoryMap

  datatype Option<T> = None | Some(value: T)

  /** A block device of directory sectors; its driver refuses some sectors. */
  class Device {
    var blocks: seq<Sector>
    var faulty: set<nat>
    var locked: set<nat>

    predicate Reads(n: nat) reads this { n < |blocks| && n !in faulty }

    predicate Writes(n: nat) reads this { n < |blocks| && n !in locked }

    constructor (blocks: seq<Sector>, faulty: set<nat>, locked: set<nat>)
      ensures this.blocks == blocks && this.faulty == faulty && this.locked == locked
    {
      this.blocks, this.faulty, this.locked := blocks, faulty, locked;
    }

    method Write(n: nat, buf: Sector) returns (ok: bool)
      modifies this`blocks
      ensures ok == old(Writes(n))
      ensures blocks == if old(Writes(n)) then old(blocks)[n := buf] else old(blocks)
    {
      ok := Writes(n);
      if ok { blocks := blocks[n := buf]; }
    }
  }

  ghost predicate Reachable(blocks: seq<Sector>, faulty: set<nat>, base: nat, j: nat) {
    j < MFS_SCTS_PERCLUSTER && base + j < |blocks| && base + j !in faulty
  }

  /** The slots that can be reached from sector `j` of a cluster on: up to the first bad sector. */
  ghost function SlotsFrom(blocks: seq<Sector>, faulty: set<nat>, base: nat, j: nat): (s: seq<Inode>)
    requires j <= MFS_SCTS_PERCLUSTER
    ensures |s| <= 8 * (8 - j)
    decreases MFS_SCTS_PERCLUSTER - j
  {
    if !Reachable(blocks, faulty, base, j) then []
    else blocks[base + j] + SlotsFrom(blocks, faulty, base, j + 1)
  }

  ghost function Eight(b: bool): (w: seq<bool>)
    ensures |w| == MFS_INODES_PER_SCT && forall i :: 0 <= i < |w| ==> w[i] == b
  {
    seq(MFS_INODES_PER_SCT, _ => b)
  }

  /** Which of those slots can be written. */
  ghost function RightsFrom(blocks: seq<Sector>, faulty: set<nat>, locked: set<nat>, base: nat, j: nat): (w: seq<bool>)
    requires j <= MFS_SCTS_PERCLUSTER
    ensures |w| == |SlotsFrom(blocks, faulty, base, j)|
    decreases MFS_SCTS_PERCLUSTER - j
  {
    if !Reachable(blocks, faulty, base, j) then []
    else Eight(base + j !in locked) + RightsFrom(blocks, faulty, locked, base, j + 1)
  }

  lemma {:induction false} FoldStep(f: Callback, clust: nat, buf: seq<Inode>, w: seq<bool>, k: nat, io: Param,
                                    size: nat)
    requires |w| == |buf| && k < |buf|
    ensures var o := One(f, clust, buf[k], w[k], io, size);
            Fold(f, clust, buf[k..], w[k..], io, size)
            == if o.end.Running? then Behind(o.slots, Fold(f, clust, buf[k + 1..], w[k + 1..], o.io, o.size))
               else Before(o, buf[k + 1..])
  {
    assert buf[k..][1..] == buf[k + 1..] && w[k..][1..] == w[k + 1..];
  }

  /** Before slot `k` of a sector: the outcome of its walk is what lies behind, then what lies ahead. */
  ghost predicate Inside(all: Outcome, f: Callback, clust: nat, buf: seq<Inode>, w: seq<bool>, k: nat,
                         io: Param, size: nat)
  {
    && |w| == |buf| && k <= |buf|
    && all == Behind(buf[..k], Fold(f, clust, buf[k..], w[k..], io, size))
  }

  /** The inner loop's step, seen from the start of the sector. */
  lemma {:induction false} FoldOn(all: Outcome, f: Callback, clust: nat, buf: seq<Inode>, w: seq<bool>, k: nat,
                                  io: Param, size: nat)
    requires k < |buf| && Inside(all, f, clust, buf, w, k, io, size)
    ensures var o := One(f, clust, buf[k], w[k], io, size);
            var next := buf[k := o.slots[0]];
            if o.end.Running? then Inside(all, f, clust, next, w, k + 1, o.io, o.size) else all == o.(slots := next)
  {
    var o := One(f, clust, buf[k], w[k], io, size);
    var next := buf[k := o.slots[0]];
    FoldStep(f, clust, buf, w, k, io, size);
    assert next[..k + 1] == buf[..k] + o.slots && next[k + 1..] == buf[k + 1..];
    assert next == buf[..k] + (o.slots + buf[k + 1..]);
    BehindBehind(buf[..k], o.slots, Fold(f, clust, buf[k + 1..], w[k + 1..], o.io, o.size), []);
  }

  lemma {:induction false} SectorStart(f: Callback, clust: nat, buf: seq<Inode>, w: seq<bool>, io: Param, size: nat)
    requires |w| == |buf|
    ensures Inside(Fold(f, clust, buf, w, io, size), f, clust, buf, w, 0, io, size)
  {
    var o := Fold(f, clust, buf, w, io, size);
    assert buf[0..] == buf && w[0..] == w && buf[..0] + o.slots == o.slots;
  }

  lemma {:induction false} SectorEnd(all: Outcome, f: Callback, clust: nat, buf: seq<Inode>, w: seq<bool>,
                                     io: Param, size: nat)
    requires Inside(all, f, clust, buf, w, |buf|, io, size)
    ensures all == Outcome(Running, buf, io, size)
  {
    assert buf[..|buf|] == buf && buf[|buf|..] == [] && buf + [] == buf;
  }

  /** An open directory; `cluster` is `i_fat[0]`, the only cluster a directory has. */
  class Directory {
    const dev: Device
    var itype: int
    var cluster: nat
    var size: nat

    constructor (dev: Device, itype: int, cluster: nat, size: nat)
      ensures this.dev == dev && this.itype == itype && this.cluster == cluster && this.size == size
    {
      this.dev, this.itype, this.cluster, this.size := dev, itype, cluster, size;
    }

    ghost function Base(): nat reads this { cluster * MFS_SCTS_PERCLUSTER }

    /** Where the slots lie: eight to a sector, from sector eight times the cluster number on. */
    lemma {:induction false} SlotPlace(q: nat, k: nat)
      requires k < 8 && 8 * q + k < |Slots()|
      ensures 8 * cluster + q < |dev.blocks| && Slots()[8 * q + k] == dev.blocks[8 * cluster + q][k]
    {
      SlotAt(dev.blocks, dev.faulty, Base(), 0, q, k);
    }

    /** A slot can be written when its sector can. */
    lemma {:induction false} RightPlace(q: nat, k: nat)
      requires k < 8 && 8 * q + k < |Slots()|
      ensures Rights()[8 * q + k] == dev.Writes(8 * cluster + q)
    {
      SlotPlace(q, k);
      RightAt(dev.blocks, dev.faulty, dev.locked, Base(), 0, q, k);
    }

    /** Up to the first sector that cannot be read, and 64 of them when all can. */
    lemma {:induction false} SlotsEnd() returns (j: nat)
      requires Walkable()
      ensures j <= 8 && |Slots()| == 8 * j && (j < 8 ==> !dev.Reads(8 * cluster + j))
      ensures forall n :: 8 * cluster <= n < 8 * cluster + j ==> dev.Reads(n)
    {
      j := SlotsFromEnd(dev.blocks, dev.faulty, Base(), 0);
      forall n | 8 * cluster <= n < 8 * cluster + j ensures dev.Reads(n) {
        assert Reachable(dev.blocks, dev.faulty, Base(), n - 8 * cluster);
      }
    }

    ghost predicate Walkable() reads this { itype == ITYPE_DIR && cluster != MFS_INVALID_CLUSTER }

    ghost function Slots(): (s: seq<Inode>)
      reads this, dev
      ensures |s| <= 64
    {
      if Walkable() then SlotsFrom(dev.blocks, dev.faulty, Base(), 0) else []
    }

    ghost function Rights(): (w: seq<bool>)
      reads this, dev
      ensures |w| == |Slots()|
    {
      if Walkable() then RightsFrom(dev.blocks, dev.faulty, dev.locked, Base(), 0) else []
    }

    /** One callback on slot `k` of the buffered sector, and what its verdict asks for. */
    method Apply(f: Callback, n: nat, buf: Sector, k: nat, io0: Param) returns (end: End, io: Param, next: Sector)
      requires k < MFS_INODES_PER_SCT && Honest(f) && n < |dev.blocks| && dev.blocks[n] == buf
      modifies this`size, dev`blocks
      ensures var o := One(f, cluster, buf[k], n !in dev.locked, io0, old(size));
              && end == o.end && io == o.io && size == o.size
              && dev.blocks == old(dev.blocks)[n := buf[k := o.slots[0]]]
              && (end.Running? ==> next == buf[k := o.slots[0]])
    {
      var r := f(buf[k], cluster, io0, size);
      assert buf[k := buf[k]] == buf && dev.blocks[n := buf] == dev.blocks;
      io, size, next := r.io, r.size, buf[k := r.slot];
      match r.verdict
      case Abort => end := Failed;
      case Done => end := Succeeded;
      case Continue => end := Running;
      case WriteBack =>
        var ok := dev.Write(n, next);
        end := if ok then Succeeded else Failed;
      case WriteBackEx =>
        var ok := dev.Write(n, next);
        end := if ok then Running else Failed;
    }

    /** The inner loop: all slots of one sector. */
    method WalkSector(f: Callback, n: nat, io0: Param) returns (end: End, io: Param)
      requires Honest(f) && n < |dev.blocks|
      modifies this`size, dev`blocks
      ensures var o := Fold(f, cluster, old(dev.blocks[n]), Eight(n !in dev.locked), io0, old(size));
              end == o.end && io == o.io && size == o.size && dev.blocks == old(dev.blocks)[n := o.slots]
    {
      var buf, k := dev.blocks[n], 0;
      ghost var w := Eight(n !in dev.locked);
      ghost var all := Fold(f, cluster, buf, w, io0, size);
      end, io := Running, io0;
      SectorStart(f, cluster, buf, w, io, size);
      while k < MFS_INODES_PER_SCT
        invariant k <= MFS_INODES_PER_SCT && end.Running?
        invariant dev.blocks == old(dev.blocks)[n := buf]
        invariant Inside(all, f, cluster, buf, w, k, io, size)
      {
        FoldOn(all, f, cluster, buf, w, k, io, size);
        var next;
        end, io, next := Apply(f, n, buf, k, io);
        if !end.Running? { return; }
        buf, k := next, k + 1;
      }
      SectorEnd(all, f, cluster, buf, w, io, size);
    }

    /** The outer loop's body: read one sector and walk it. */
    method NextSector(f: Callback, j: nat, io0: Param, ghost all: Outcome, ghost was: seq<Sector>)
      returns (end: End, io: Param)
      requires Honest(f) && j < MFS_SCTS_PERCLUSTER
      requires Ongoing(all, f, cluster, was, dev.blocks, dev.faulty, dev.locked, Base(), j, io0, size)
      modifies this`size, dev`blocks
      ensures if end.Running?
              then Ongoing(all, f, cluster, was, dev.blocks, dev.faulty, dev.locked, Base(), j + 1, io, size)
              else Finished(all, end, was, dev.blocks, dev.faulty, Base(), io, size)
    {
      var n := cluster * MFS_SCTS_PERCLUSTER + j;
      io := io0;
      if !dev.Reads(n) {
        WalkOver(all, f, cluster, was, dev.blocks, dev.faulty, dev.locked, Base(), j, io, size);
        return Failed, io;
      }
      ghost var now, start := dev.blocks, size;
      end, io := WalkSector(f, n, io);
      SectorOn(all, f, cluster, was, now, dev.faulty, dev.locked, Base(), j, io0, start);
    }

    method EachSector(f: Callback, io0: Param, ghost all: Outcome, ghost was: seq<Sector>) returns (end: End, io: Param)
      requires Honest(f)
      requires Ongoing(all, f, cluster, was, dev.blocks, dev.faulty, dev.locked, Base(), 0, io0, size)
      modifies this`size, dev`blocks
      ensures !end.Running? && Finished(all, end, was, dev.blocks, dev.faulty, Base(), io, size)
    {
      io := io0;
      var j := 0;
      while j < MFS_SCTS_PERCLUSTER
        invariant j <= MFS_SCTS_PERCLUSTER
        invariant Ongoing(all, f, cluster, was, dev.blocks, dev.faulty, dev.locked, Base(), j, io, size)
      {
        end, io := NextSector(f, j, io, all, was);
        if !end.Running? { return; }
        j := j + 1;
      }
      WalkOver(all, f, cluster, was, dev.blocks, dev.faulty, dev.locked, Base(), j, io, size);
      end := Failed;
    }

    /** The walk over every sector and slot is the fold over the slots as one flat sequence. A sector
        that cannot be read ends the walk like the end of the directory. */
    method Each(f: Callback, io0: Param) returns (valid: bool, io: Param)
      requires Honest(f)
      modifies this`size, dev`blocks
      ensures var o := Fold(f, cluster, old(Slots()), old(Rights()), io0, old(size));
              valid == o.end.Succeeded? && io == o.io && size == o.size && Slots() == o.slots
      ensures Rights() == old(Rights()) && SameBeyond(old(dev.blocks), dev.blocks, dev.faulty, Base())
      ensures !Walkable() ==> dev.blocks == old(dev.blocks)
      ensures Elsewhere(old(dev.blocks), dev.blocks, cluster)
    {
      io := io0;
      if itype != ITYPE_DIR || cluster == MFS_INVALID_CLUSTER { return false, io; }
      ghost var was, all := dev.blocks, Ahead(f, cluster, dev.blocks, dev.faulty, dev.locked, Base(), 0, io, size);
      assert [] + all.slots == all.slots;
      var end;
      end, io := EachSector(f, io, all, was);
      RightsSame(was, dev.blocks, dev.faulty, dev.locked, Base(), 0);
      BeyondElsewhere(was, dev.blocks, dev.faulty, cluster);
      valid := end.Succeeded?;
    }

    lemma Unmoved(was: seq<Sector>)
      requires SameBeyond(was, dev.blocks, dev.faulty, Base())
      requires Walkable() ==> SlotsFrom(was, dev.faulty, Base(), 0) == Slots()
      requires !Walkable() ==> was == dev.blocks
      ensures dev.blocks == was
    {
      if Walkable() { SameBlocks(was, dev.blocks, dev.faulty, Base()); }
    }

    /** Look a name up: the node the map holds under it, for a directory of clean slots. */
    method Search(name: string) returns (valid: bool, io: Param)
      modifies this`size, dev`blocks
      ensures size == old(size) && dev.blocks == old(dev.blocks)
      ensures Slots() == old(Slots()) && Rights() == old(Rights())
      ensures var k := Find(Slots(), Key(name));
              valid == (k < |Slots()|) && io == if valid then Param(Slots()[k], cluster, 0) else Param(Key(name), 0, 0)
    {
      CallbacksHonest();
      SearchFolds(cluster, Slots(), Rights(), Param(Key(name), 0, 0), size);
      valid, io := Each(SearchItem, Param(Key(name), 0, 0));
      Unmoved(old(dev.blocks));
    }

    /** Put a stamped node into the first empty slot. */
    method MakeNode(io0: Param, date: int, time: int) returns (valid: bool)
      modifies this`size, dev`blocks
      ensures var node := io0.inode.(dCreate := date, tCreate := time, dAccess := date);
              var e := FirstEmpty(old(Slots()));
              && valid == (e < |old(Slots())| && old(Rights())[e])
              && Slots() == (if valid then old(Slots())[e := node] else old(Slots()))
              && size == (if e < |old(Slots())| then old(size) + 1 else old(size))
      ensures Elsewhere(old(dev.blocks), dev.blocks, cluster)
      ensures Rights() == old(Rights()) && SameBeyond(old(dev.blocks), dev.blocks, dev.faulty, Base())
      ensures !Walkable() ==> dev.blocks == old(dev.blocks)
    {
      var io := io0.(inode := io0.inode.(dCreate := date, tCreate := time, dAccess := date));
      CallbacksHonest();
      MakeFolds(cluster, Slots(), Rights(), io, size);
      valid, io := Each(MakeInode, io);
    }

    /** The two walks of `mfs_touch`. */
    method TouchSlots(name: string, date: int, time: int) returns (valid: bool, attr: Option<Inode>)
      requires CString(name)
      modifies this`size, dev`blocks
      ensures var t := Touched(old(Slots()), old(Rights()), Key(name), NewFile(name, date, time), old(size));
              valid == t.valid && Slots() == t.slots && size == t.size
      ensures SameBeyond(old(dev.blocks), dev.blocks, dev.faulty, Base()) && Rights() == old(Rights())
      ensures !Walkable() ==> dev.blocks == old(dev.blocks)
      ensures var k := Find(old(Slots()), Key(name));
              attr == if k < |old(Slots())| && valid then Some(old(Slots())[k]) else None
      ensures Elsewhere(old(dev.blocks), dev.blocks, cluster)
    {
      var io;
      ghost var slots := Slots();
      valid, io := Search(name);
      attr := None;
      assert valid == (Find(slots, Key(name)) < |slots|);
      if !valid {
        io := io.(inode := io.inode.(attrib := ITYPE_ARCHIVE));
        assert io.inode.(dCreate := date, tCreate := time, dAccess := date) == NewFile(name, date, time);
        valid := MakeNode(io, date, time);
      } else if io.inode.attrib == ITYPE_ARCHIVE {
        attr := Some(io.inode);
      } else {
        valid := false;
      }
    }

    /** Make a file unless the name is in use; the attributes come back only for a file that was there.
        Afterwards the map holds a file under the name. */
    method Touch(name: string, date: int, time: int) returns (valid: bool, attr: Option<Inode>)
      requires CString(name)
      modifies this`size, dev`blocks
      ensures var t := Touched(old(Slots()), old(Rights()), Key(name), NewFile(name, date, time), old(size));
              valid == t.valid && Slots() == t.slots && size == t.size
      ensures SameBeyond(old(dev.blocks), dev.blocks, dev.faulty, Base()) && Rights() == old(Rights())
      ensures Elsewhere(old(dev.blocks), dev.blocks, cluster) && (!Walkable() ==> dev.blocks == old(dev.blocks))
      ensures Clean(old(Slots())) && valid ==>
                attr == if Clip(name) in old(Entries(Slots())) then Some(old(Entries(Slots()))[Clip(name)]) else None
      ensures !valid ==> attr == None
      ensures Clean(old(Slots())) && name != "" && valid ==>
                Clean(Slots()) && Landed(old(Entries(Slots())), Entries(Slots()), Clip(name), date, time)
    {
      ghost var slots, rights, was := Slots(), Rights(), size;
      valid, attr := TouchSlots(name, date, time);
      if valid && Clean(slots) {
        KeyLabel(name, date, time);
        FindIsEntries(slots, Key(name));
        if name != "" { TouchLands(slots, rights, name, date, time, was); }
      }
    }

    method ReadAttrib(name: string) returns (attr: Option<Inode>)
      requires CString(name)
      modifies this`size, dev`blocks
      ensures size == old(size) && dev.blocks == old(dev.blocks)
      ensures Clean(Slots()) ==>
                attr == if Clip(name) in Entries(Slots()) then Some(Entries(Slots())[Clip(name)]) else None
    {
      var valid, io := Search(name);
      attr := if valid then Some(io.inode) else None;
      KeyLabel(name, 0, 0);
      if Clean(Slots()) { FindIsEntries(Slots(), Key(name)); }
    }

    /** The node at a position; a negative position wraps to a large one. */
    method ReadItem(index: int) returns (attr: Option<Inode>)
      requires -0x8000_0000 <= index < 0x8000_0000
      modifies this`size, dev`blocks
      ensures size == old(size) && dev.blocks == old(dev.blocks)
      ensures attr == if 0 <= index < |Occupied(Slots())| then Some(Occupied(Slots())[index]) else None
    {
      var io0 := Param(Blank(), 0, if index < 0 then index + 0x1_0000_0000 else index);
      CallbacksHonest();
      ItemFolds(cluster, Slots(), Rights(), io0, size);
      var valid, io := Each(SearchItemEx, io0);
      Unmoved(old(dev.blocks));
      attr := if valid then Some(io.inode) else None;
    }
  }

  /** Sector `n` belongs to the cluster and no bad sector of the cluster comes before it. */
  ghost predicate InReach(blocks: seq<Sector>, faulty: set<nat>, base: nat, n: nat) {
    base <= n && forall i :: 0 <= i <= n - base ==> Reachable(blocks, faulty, base, i)
  }

  /** Slot `k` of the sector `q` behind sector `j`. */
  lemma {:induction false} SlotAt(blocks: seq<Sector>, faulty: set<nat>, base: nat, j: nat, q: nat, k: nat)
    requires j <= MFS_SCTS_PERCLUSTER && k < 8 && 8 * q + k < |SlotsFrom(blocks, faulty, base, j)|
    ensures base + j + q < |blocks|
    ensures SlotsFrom(blocks, faulty, base, j)[8 * q + k] == blocks[base + j + q][k]
    decreases q
  {
    PickEighth(blocks[base + j], SlotsFrom(blocks, faulty, base, j + 1), q, k);
    if q > 0 { SlotAt(blocks, faulty, base, j + 1, q - 1, k); }
  }

  lemma {:induction false} RightAt(blocks: seq<Sector>, faulty: set<nat>, locked: set<nat>, base: nat, j: nat,
                                   q: nat, k: nat)
    requires j <= MFS_SCTS_PERCLUSTER && k < 8 && 8 * q + k < |RightsFrom(blocks, faulty, locked, base, j)|
    ensures RightsFrom(blocks, faulty, locked, base, j)[8 * q + k] == (base + j + q !in locked)
    decreases q
  {
    var free, rest := base + j !in locked, RightsFrom(blocks, faulty, locked, base, j + 1);
    assert RightsFrom(blocks, faulty, locked, base, j) == Eight(free) + rest;
    PickEighth(Eight(free), rest, q, k);
    if q > 0 { RightAt(blocks, faulty, locked, base, j + 1, q - 1, k); }
  }

  lemma {:induction false} PickEighth<T>(a: seq<T>, b: seq<T>, q: nat, k: nat)
    requires |a| == 8 && k < 8 && 8 * q + k < |a + b|
    ensures if q == 0 then (a + b)[8 * q + k] == a[k]
            else 8 * (q - 1) + k < |b| && (a + b)[8 * q + k] == b[8 * (q - 1) + k]
  {
  }

  lemma {:induction false} SlotsFromEnd(blocks: seq<Sector>, faulty: set<nat>, base: nat, j: nat) returns (k: nat)
    requires j <= MFS_SCTS_PERCLUSTER
    ensures j <= k <= MFS_SCTS_PERCLUSTER && |SlotsFrom(blocks, faulty, base, j)| == 8 * (k - j)
    ensures (forall i :: j <= i < k ==> Reachable(blocks, faulty, base, i)) && !Reachable(blocks, faulty, base, k)
    decreases MFS_SCTS_PERCLUSTER - j
  {
    if Reachable(blocks, faulty, base, j) {
      k := SlotsFromEnd(blocks, faulty, base, j + 1);
    } else {
      k := j;
    }
  }

  ghost predicate KeptSector(a: seq<Sector>, b: seq<Sector>, n: nat)
    requires n < |a| == |b|
  {
    b[n] == a[n]
  }

  /** Nothing but the eight sectors of a cluster has changed. */
  ghost predicate Elsewhere(a: seq<Sector>, b: seq<Sector>, cluster: nat) {
    |a| == |b| && forall n :: 0 <= n < |a| && !(8 * cluster <= n < 8 * cluster + 8) ==> KeptSector(a, b, n)
  }

  lemma {:induction false} BeyondElsewhere(a: seq<Sector>, b: seq<Sector>, faulty: set<nat>, cluster: nat)
    requires SameBeyond(a, b, faulty, cluster * MFS_SCTS_PERCLUSTER)
    ensures Elsewhere(a, b, cluster)
  {
    forall n | 0 <= n < |a| && !(8 * cluster <= n < 8 * cluster + 8) ensures KeptSector(a, b, n) {
      ReachIsCluster(a, faulty, cluster * MFS_SCTS_PERCLUSTER, n);
    }
  }

  lemma {:induction false} ReachIsCluster(blocks: seq<Sector>, faulty: set<nat>, base: nat, n: nat)
    ensures InReach(blocks, faulty, base, n) ==> base <= n < base + 8
  {
    if InReach(blocks, faulty, base, n) { assert Reachable(blocks, faulty, base, n - base); }
  }

  /** What a directory does leaves the slots of a directory in another cluster of the device alone. */
  lemma {:induction false} OtherCluster(a: seq<Sector>, b: seq<Sector>, faulty: set<nat>, cluster: nat, other: nat,
                                        j: nat)
    requires Elsewhere(a, b, cluster) && other != cluster && j <= MFS_SCTS_PERCLUSTER
    ensures SlotsFrom(a, faulty, 8 * other, j) == SlotsFrom(b, faulty, 8 * other, j)
    decreases MFS_SCTS_PERCLUSTER - j
  {
    if Reachable(a, faulty, 8 * other, j) {
      OtherCluster(a, b, faulty, cluster, other, j + 1);
      assert KeptSector(a, b, 8 * other + j);
    }
  }

  /** Nothing but the sectors a walk can reach has changed. */
  ghost predicate SameBeyond(a: seq<Sector>, b: seq<Sector>, faulty: set<nat>, base: nat) {
    |a| == |b| && forall n :: 0 <= n < |a| && !InReach(a, faulty, base, n) ==> KeptSector(a, b, n)
  }

  /** The same slots beside the same other sectors: the same device. */
  lemma {:induction false} SameBlocks(a: seq<Sector>, b: seq<Sector>, faulty: set<nat>, base: nat)
    requires SameBeyond(a, b, faulty, base) && SlotsFrom(a, faulty, base, 0) == SlotsFrom(b, faulty, base, 0)
    ensures a == b
  {
    forall n | 0 <= n < |a| ensures a[n] == b[n] {
      assert !InReach(a, faulty, base, n) ==> KeptSector(a, b, n);
      if InReach(a, faulty, base, n) {
        assert Reachable(a, faulty, base, n - base);
        SameSector(a, b, faulty, base, 0, n - base);
      }
    }
  }

  lemma {:induction false} SameSector(a: seq<Sector>, b: seq<Sector>, faulty: set<nat>, base: nat, j: nat, k: nat)
    requires |a| == |b| && j <= k < MFS_SCTS_PERCLUSTER && base + k < |a|
    requires forall i :: j <= i <= k ==> Reachable(a, faulty, base, i)
    requires SlotsFrom(a, faulty, base, j) == SlotsFrom(b, faulty, base, j)
    ensures a[base + k] == b[base + k]
    decreases k - j
  {
    assert Reachable(a, faulty, base, j) && Reachable(b, faulty, base, j);
    var s, t := a[base + j], b[base + j];
    SplitEqual(s, t, SlotsFrom(a, faulty, base, j + 1), SlotsFrom(b, faulty, base, j + 1));
    if j < k { SameSector(a, b, faulty, base, j + 1, k); }
  }

  lemma {:induction false} SplitEqual(s: seq<Inode>, t: seq<Inode>, u: seq<Inode>, v: seq<Inode>)
    requires |s| == |t| && s + u == t + v
    ensures s == t && u == v
  {
    assert s == (s + u)[..|s|] && t == (t + v)[..|t|];
    assert u == (s + u)[|s|..] && v == (t + v)[|t|..];
  }

  /** What is still to be walked from sector `j` on. */
  ghost function Ahead(f: Callback, clust: nat, was: seq<Sector>, faulty: set<nat>, locked: set<nat>, base: nat, j: nat,
                       io: Param, size: nat): Outcome
    requires j <= MFS_SCTS_PERCLUSTER
  {
    Fold(f, clust, SlotsFrom(was, faulty, base, j), RightsFrom(was, faulty, locked, base, j), io, size)
  }

  /** The slots of the sectors before sector `j` of the cluster. */
  ghost function Front(blocks: seq<Sector>, base: nat, j: nat): seq<Inode>
    requires j == 0 || base + j <= |blocks|
  {
    if j == 0 then [] else Front(blocks, base, j - 1) + blocks[base + j - 1]
  }

  /** Sectors before `j` of the cluster have been walked; the others are as they were. */
  ghost predicate Passed(was: seq<Sector>, now: seq<Sector>, faulty: set<nat>, base: nat, j: nat)
    requires j <= MFS_SCTS_PERCLUSTER
  {
    && |now| == |was| && (j == 0 || base + j <= |was|)
    && (forall n :: 0 <= n < |was| && !(base <= n < base + j) ==> KeptSector(was, now, n))
    && (forall i :: 0 <= i < j ==> Reachable(was, faulty, base, i))
  }

  lemma {:induction false} FrontSame(a: seq<Sector>, b: seq<Sector>, base: nat, j: nat)
    requires |a| == |b| && (j == 0 || base + j <= |a|)
    requires forall n :: base <= n < base + j ==> KeptSector(a, b, n)
    ensures Front(a, base, j) == Front(b, base, j)
  {
    if j > 0 {
      FrontSame(a, b, base, j - 1);
      assert KeptSector(a, b, base + j - 1);
    }
  }

  lemma {:induction false} SlotsSame(a: seq<Sector>, b: seq<Sector>, faulty: set<nat>, base: nat, j: nat)
    requires |a| == |b| && j <= MFS_SCTS_PERCLUSTER
    requires forall n :: base + j <= n < |a| ==> KeptSector(a, b, n)
    ensures SlotsFrom(a, faulty, base, j) == SlotsFrom(b, faulty, base, j)
    decreases MFS_SCTS_PERCLUSTER - j
  {
    if Reachable(a, faulty, base, j) {
      SlotsSame(a, b, faulty, base, j + 1);
      assert KeptSector(a, b, base + j);
    }
  }

  lemma {:induction false} RightsSame(a: seq<Sector>, b: seq<Sector>, faulty: set<nat>, locked: set<nat>, base: nat,
                                      j: nat)
    requires |a| == |b| && j <= MFS_SCTS_PERCLUSTER
    ensures RightsFrom(a, faulty, locked, base, j) == RightsFrom(b, faulty, locked, base, j)
    decreases MFS_SCTS_PERCLUSTER - j
  {
    if Reachable(a, faulty, base, j) { RightsSame(a, b, faulty, locked, base, j + 1); }
  }

  lemma {:induction false} SlotsFront(blocks: seq<Sector>, faulty: set<nat>, base: nat, j: nat)
    requires j <= MFS_SCTS_PERCLUSTER && (j == 0 || base + j <= |blocks|)
    requires forall i :: 0 <= i < j ==> Reachable(blocks, faulty, base, i)
    ensures SlotsFrom(blocks, faulty, base, 0) == Front(blocks, base, j) + SlotsFrom(blocks, faulty, base, j)
  {
    if j > 0 {
      SlotsFront(blocks, faulty, base, j - 1);
      assert Reachable(blocks, faulty, base, j - 1);
      var a, s, t := Front(blocks, base, j - 1), blocks[base + j - 1], SlotsFrom(blocks, faulty, base, j);
      assert a + (s + t) == a + s + t;
    }
  }

  /** Before sector `j`: the outcome of the whole walk is what lies behind, then what lies ahead. */
  ghost predicate Ongoing(all: Outcome, f: Callback, clust: nat, was: seq<Sector>, now: seq<Sector>, faulty: set<nat>,
                          locked: set<nat>, base: nat, j: nat, io: Param, size: nat)
    requires j <= MFS_SCTS_PERCLUSTER
  {
    && Passed(was, now, faulty, base, j)
    && all == Behind(Front(now, base, j), Ahead(f, clust, was, faulty, locked, base, j, io, size))
  }

  /** The walk is over: running off the end is a failure. */
  ghost predicate Finished(all: Outcome, end: End, was: seq<Sector>, now: seq<Sector>, faulty: set<nat>, base: nat,
                           io: Param, size: nat)
  {
    && SameBeyond(was, now, faulty, base)
    && (end.Succeeded? <==> all.end.Succeeded?)
    && all.slots == SlotsFrom(now, faulty, base, 0) && all.io == io && all.size == size
  }

  lemma {:induction false} WalkOver(all: Outcome, f: Callback, clust: nat, was: seq<Sector>, now: seq<Sector>,
                                    faulty: set<nat>, locked: set<nat>, base: nat, j: nat, io: Param, size: nat)
    requires j <= MFS_SCTS_PERCLUSTER && !Reachable(was, faulty, base, j)
    requires Ongoing(all, f, clust, was, now, faulty, locked, base, j, io, size)
    ensures Finished(all, Failed, was, now, faulty, base, io, size)
  {
    assert forall i :: Reachable(now, faulty, base, i) == Reachable(was, faulty, base, i);
    SlotsFront(now, faulty, base, j);
    assert Front(now, base, j) + [] == Front(now, base, j);
  }

  /** What a sector's walk does to the whole. */
  lemma {:induction false} SectorOn(all: Outcome, f: Callback, clust: nat, was: seq<Sector>, now: seq<Sector>,
                                    faulty: set<nat>, locked: set<nat>, base: nat, j: nat, io: Param, size: nat)
    requires j < MFS_SCTS_PERCLUSTER && Reachable(was, faulty, base, j)
    requires Ongoing(all, f, clust, was, now, faulty, locked, base, j, io, size)
    ensures var o := Fold(f, clust, now[base + j], Eight(base + j !in locked), io, size);
            var next := now[base + j := o.slots];
            if o.end.Running? then Ongoing(all, f, clust, was, next, faulty, locked, base, j + 1, o.io, o.size)
            else Finished(all, o.end, was, next, faulty, base, o.io, o.size)
  {
    var w := Eight(base + j !in locked);
    assert KeptSector(was, now, base + j);
    var o := Fold(f, clust, now[base + j], w, io, size);
    var next := now[base + j := o.slots];
    var rest := SlotsFrom(was, faulty, base, j + 1);
    FoldAppend(f, clust, now[base + j], w, rest, RightsFrom(was, faulty, locked, base, j + 1), io, size);
    NextPassed(was, now, faulty, base, j, o.slots);
    var a := Front(now, base, j);
    if o.end.Running? {
      BehindBehind(a, o.slots, Ahead(f, clust, was, faulty, locked, base, j + 1, o.io, o.size), []);
    } else {
      BehindBehind(a, o.slots, o, rest);
    }
  }

  lemma {:induction false} NextPassed(was: seq<Sector>, now: seq<Sector>, faulty: set<nat>, base: nat, j: nat,
                                      s: Sector)
    requires j < MFS_SCTS_PERCLUSTER && Passed(was, now, faulty, base, j) && Reachable(was, faulty, base, j)
    ensures var next := now[base + j := s];
            && Passed(was, next, faulty, base, j + 1) && SameBeyond(was, next, faulty, base)
            && Front(next, base, j + 1) == Front(now, base, j) + s
            && SlotsFrom(next, faulty, base, 0) == Front(now, base, j) + s + SlotsFrom(was, faulty, base, j + 1)
  {
    var next := now[base + j := s];
    FrontSame(now, next, base, j);
    assert forall i :: Reachable(next, faulty, base, i) == Reachable(was, faulty, base, i);
    forall n | 0 <= n < |was| && !(base <= n < base + j + 1) ensures KeptSector(was, next, n) {
      assert KeptSector(was, now, n);
    }
    SlotsFront(next, faulty, base, j + 1);
    SlotsSame(was, next, faulty, base, j + 1);
    PassedBeyond(was, next, faulty, base, j + 1);
  }

  lemma {:induction false} PassedBeyond(was: seq<Sector>, now: seq<Sector>, faulty: set<nat>, base: nat, j: nat)
    requires j <= MFS_SCTS_PERCLUSTER && Passed(was, now, faulty, base, j)
    ensures SameBeyond(was, now, faulty, base)
  {
    forall n | 0 <= n < |was| && !InReach(was, faulty, base, n) ensures KeptSector(was, now, n) {
      PassedReach(was, faulty, base, j, n);
    }
  }

  lemma {:induction false} PassedReach(was: seq<Sector>, faulty: set<nat>, base: nat, j: nat, n: nat)
    requires forall i :: 0 <= i < j ==> Reachable(was, faulty, base, i)
    ensures base <= n < base + j ==> InReach(was, faulty, base, n)
  {
  }
}
