/** What a directory means: its slots as a map from names to nodes. */
module DirectoryMap {
  import opened CStrings
  import opened Path
  import opened DirectoryWalk

  /** The nodes of a directory in slot order. */
  ghost function Occupied(slots: seq<Inode>): (ns: seq<Inode>)
    ensures |ns| <= |slots|
  {
    if slots == [] then []
    else Alone(slots[0]) + Occupied(slots[1..])
  }

  ghost function Alone(s: Inode): (ns: seq<Inode>)
    ensures |ns| <= 1
  {
    if Empty(s) then [] else [s]
  }

  /** The directory as a map; of two slots with one name the first is found. */
  ghost function Entries(slots: seq<Inode>): map<string, Inode> {
    if slots == [] then map[]
    else if Empty(slots[0]) then Entries(slots[1..])
    else Entries(slots[1..])[Label(slots[0]) := slots[0]]
  }

  ghost function FirstEmpty(slots: seq<Inode>): (e: nat)
    ensures e <= |slots| && (e < |slots| ==> Empty(slots[e]))
    ensures forall i :: 0 <= i < e ==> !Empty(slots[i])
  {
    if slots == [] || Empty(slots[0]) then 0 else 1 + FirstEmpty(slots[1..])
  }

  predicate Matches(slot: Inode, key: Inode) {
    !Empty(slot) && SameName(slot, key)
  }

  ghost function Find(slots: seq<Inode>, key: Inode): (k: nat)
    ensures k <= |slots| && (k < |slots| ==> Matches(slots[k], key))
    ensures forall i :: 0 <= i < k ==> !Matches(slots[i], key)
  {
    if slots == [] || Matches(slots[0], key) then 0 else 1 + Find(slots[1..], key)
  }

  // ---- the callbacks, folded over all slots ----

  lemma {:induction false} SearchFolds(clust: nat, slots: seq<Inode>, w: seq<bool>, io: Param, size: nat)
    requires |w| == |slots|
    ensures var k := Find(slots, io.inode);
            Fold(SearchItem, clust, slots, w, io, size)
            == if k < |slots| then Outcome(Succeeded, slots, Param(slots[k], clust, io.index), size)
               else Outcome(Running, slots, io, size)
  {
    if slots != [] {
      SearchFolds(clust, slots[1..], w[1..], io, size);
      assert slots == [slots[0]] + slots[1..];
    }
  }

  /** The new node goes into the first empty slot; the size is counted up before the write. */
  ghost function Made(clust: nat, slots: seq<Inode>, w: seq<bool>, io: Param, size: nat): Outcome
    requires |w| == |slots|
  {
    var e := FirstEmpty(slots);
    if e == |slots| then Outcome(Running, slots, io, size)
    else if w[e] then Outcome(Succeeded, slots[e := io.inode], io.(clust := clust), size + 1)
    else Outcome(Failed, slots, io.(clust := clust), size + 1)
  }

  lemma {:induction false} MadeOn(clust: nat, slots: seq<Inode>, w: seq<bool>, io: Param, size: nat)
    requires |w| == |slots| && slots != [] && !Empty(slots[0])
    ensures Made(clust, slots, w, io, size) == Behind([slots[0]], Made(clust, slots[1..], w[1..], io, size))
  {
    var e := FirstEmpty(slots[1..]);
    assert FirstEmpty(slots) == e + 1;
    assert slots == [slots[0]] + slots[1..];
    if e < |slots[1..]| { assert slots[e + 1 := io.inode] == [slots[0]] + slots[1..][e := io.inode]; }
  }

  lemma {:induction false} MakeFolds(clust: nat, slots: seq<Inode>, w: seq<bool>, io: Param, size: nat)
    requires |w| == |slots|
    ensures Fold(MakeInode, clust, slots, w, io, size) == Made(clust, slots, w, io, size)
  {
    if slots != [] {
      if Empty(slots[0]) {
        assert slots == [slots[0]] + slots[1..];
        assert slots[0 := io.inode] == [io.inode] + slots[1..];
      } else {
        MadeOn(clust, slots, w, io, size);
        MakeFolds(clust, slots[1..], w[1..], io, size);
      }
    }
  }

  /** The node at position `io.index` among the nodes, or what is left to count. */
  ghost function Picked(clust: nat, slots: seq<Inode>, io: Param, size: nat): Outcome {
    var ns := Occupied(slots);
    if io.index < |ns| then Outcome(Succeeded, slots, Param(ns[io.index], clust, 0), size)
    else Outcome(Running, slots, io.(index := io.index - |ns|), size)
  }

  lemma {:induction false} PickedOn(clust: nat, slots: seq<Inode>, io: Param, size: nat)
    requires slots != [] && (Empty(slots[0]) || io.index > 0)
    ensures var io' := if Empty(slots[0]) then io else io.(index := io.index - 1);
            Picked(clust, slots, io, size) == Behind([slots[0]], Picked(clust, slots[1..], io', size))
  {
    assert slots == [slots[0]] + slots[1..];
  }

  lemma {:induction false} ItemFolds(clust: nat, slots: seq<Inode>, w: seq<bool>, io: Param, size: nat)
    requires |w| == |slots|
    ensures Fold(SearchItemEx, clust, slots, w, io, size) == Picked(clust, slots, io, size)
  {
    if slots != [] {
      if Empty(slots[0]) {
        PickedOn(clust, slots, io, size);
        ItemFolds(clust, slots[1..], w[1..], io, size);
      } else if io.index > 0 {
        PickedOn(clust, slots, io, size);
        ItemFolds(clust, slots[1..], w[1..], io.(index := io.index - 1), size);
      } else {
        assert slots == [slots[0]] + slots[1..];
      }
    }
  }

  // ---- the map ----

  /** A used slot whose padding starts with a zero, as every slot made here has. */
  ghost predicate CleanAt(slots: seq<Inode>, i: nat)
    requires i < |slots|
  {
    Empty(slots[i]) || slots[i].unused[0] == NUL
  }

  ghost predicate Clean(slots: seq<Inode>) {
    forall i :: 0 <= i < |slots| ==> CleanAt(slots, i)
  }

  lemma {:induction false} CleanTail(slots: seq<Inode>)
    requires Clean(slots) && slots != []
    ensures Clean(slots[1..])
  {
    forall i | 0 <= i < |slots[1..]| ensures CleanAt(slots[1..], i) { assert CleanAt(slots, i + 1); }
  }

  /** Comparing fields of fourteen characters compares names, except that a full field is compared
      with the padding behind it. */
  lemma {:induction false} SameNameMeans(slot: Inode, key: Inode)
    ensures SameName(slot, key) <==>
            Label(slot) == Label(key) && (|Label(slot)| < K_MAX_LEN_NODE_NAME || slot.unused[0] == key.unused[0])
  {
    FieldsEqual(slot.name, slot.unused, key.name, key.unused);
  }

  /** The search finds what the map holds. */
  lemma {:induction false} FindIsEntries(slots: seq<Inode>, key: Inode)
    requires Clean(slots) && key.unused[0] == NUL
    ensures var k := Find(slots, key);
            && (k < |slots| <==> Label(key) in Entries(slots))
            && (k < |slots| ==> slots[k] == Entries(slots)[Label(key)])
    ensures "" !in Entries(slots)
  {
    if slots != [] {
      CleanTail(slots);
      assert CleanAt(slots, 0);
      FindIsEntries(slots[1..], key);
      SameNameMeans(slots[0], key);
    }
  }

  /** Filling the first empty slot adds one entry. */
  lemma {:induction false} FillEntries(slots: seq<Inode>, node: Inode)
    requires FirstEmpty(slots) < |slots| && !Empty(node) && Label(node) !in Entries(slots)
    ensures Entries(slots[FirstEmpty(slots) := node]) == Entries(slots)[Label(node) := node]
  {
    var e := FirstEmpty(slots);
    if e == 0 {
      assert slots[e := node][1..] == slots[1..];
    } else {
      assert slots[e := node][1..] == slots[1..][e - 1 := node];
      FillEntries(slots[1..], node);
    }
  }

  lemma {:induction false} OccupiedAppend(a: seq<Inode>, b: seq<Inode>)
    ensures Occupied(a + b) == Occupied(a) + Occupied(b)
  {
    if a == [] {
      assert a + b == b;
    } else {
      assert (a + b)[0] == a[0] && (a + b)[1..] == a[1..] + b;
      OccupiedAppend(a[1..], b);
      assert Alone(a[0]) + (Occupied(a[1..]) + Occupied(b)) == Alone(a[0]) + Occupied(a[1..]) + Occupied(b);
    }
  }

  /** The nodes around one slot: those before it, that one, those behind it. */
  lemma {:induction false} OccupiedAround(a: seq<Inode>, s: Inode, b: seq<Inode>)
    ensures Occupied(a + [s] + b) == Occupied(a) + Alone(s) + Occupied(b)
  {
    OccupiedAppend(a + [s], b);
    OccupiedAppend(a, [s]);
    OccupiedOne(s);
  }

  lemma {:induction false} OccupiedOne(s: Inode)
    ensures Occupied([s]) == Alone(s)
  {
    assert [s][1..] == [] && Occupied([]) == [];
    assert Alone(s) + [] == Alone(s);
  }

  /** Filling the first empty slot puts one node in its place among the others. */
  lemma {:induction false} FillOccupied(slots: seq<Inode>, node: Inode)
    requires FirstEmpty(slots) < |slots|
    ensures var e := FirstEmpty(slots);
            && Occupied(slots) == slots[..e] + Occupied(slots[e + 1..])
            && Occupied(slots[e := node]) == slots[..e] + Alone(node) + Occupied(slots[e + 1..])
  {
    var e := FirstEmpty(slots);
    var a, b := slots[..e], slots[e + 1..];
    assert slots == a + [slots[e]] + b;
    assert slots[e := node] == a + [node] + b;
    OccupiedAround(a, slots[e], b);
    OccupiedAround(a, node, b);
    AllOccupied(a);
    assert a + [] == a;
  }

  lemma {:induction false} AllOccupied(slots: seq<Inode>)
    requires forall i :: 0 <= i < |slots| ==> !Empty(slots[i])
    ensures Occupied(slots) == slots
  {
    if slots != [] { AllOccupied(slots[1..]); }
  }

  // ---- uniqueness ----

  /** The names in use, in slot order. */
  ghost predicate Unique(slots: seq<Inode>) {
    forall i, j :: 0 <= i < j < |slots| ==> Differ(slots, i, j)
  }

  ghost predicate Differ(slots: seq<Inode>, i: nat, j: nat)
    requires i < |slots| && j < |slots|
  {
    Empty(slots[i]) || Empty(slots[j]) || Label(slots[i]) != Label(slots[j])
  }

  ghost predicate UsedAt(slots: seq<Inode>, i: nat, name: string)
    requires i < |slots|
  {
    !Empty(slots[i]) && Label(slots[i]) == name
  }

  lemma {:induction false} EntriesHold(slots: seq<Inode>, name: string)
    ensures name in Entries(slots) <==> exists i :: 0 <= i < |slots| && UsedAt(slots, i, name)
  {
    if slots != [] {
      var t := slots[1..];
      EntriesHold(t, name);
      forall i | 0 <= i < |t| ensures UsedAt(t, i, name) == UsedAt(slots, i + 1, name) {}
      forall i | 0 < i < |slots| ensures UsedAt(slots, i, name) == UsedAt(t, i - 1, name) {}
      assert UsedAt(slots, 0, name) <==> !Empty(slots[0]) && Label(slots[0]) == name;
    }
  }

  /** Filling an empty slot keeps names unique exactly when the name was not in use anywhere. */
  lemma {:induction false} FillUnique(slots: seq<Inode>, e: nat, node: Inode)
    requires e < |slots| && Empty(slots[e]) && !Empty(node) && Unique(slots)
    ensures Unique(slots[e := node]) <==> Label(node) !in Entries(slots)
  {
    EntriesHold(slots, Label(node));
    var t := slots[e := node];
    if Unique(t) {
      forall i | 0 <= i < |slots| ensures !UsedAt(slots, i, Label(node)) {
        if i < e { assert Differ(t, i, e); } else if e < i { assert Differ(t, e, i); }
      }
    }
    if Label(node) !in Entries(slots) {
      forall i, j | 0 <= i < j < |t| ensures Differ(t, i, j) {
        assert Differ(slots, i, j) && !UsedAt(slots, i, Label(node)) && !UsedAt(slots, j, Label(node));
      }
    }
  }

  // ---- touching a name ----

  /** The parameter block's node while a name is searched for. */
  function Key(name: string): (key: Inode)
    ensures key.unused[0] == NUL
  {
    Blank().(name := Field(name, K_MAX_LEN_NODE_NAME))
  }

  /** The node made for a new file: the access time keeps its zero. */
  function NewFile(name: string, date: int, time: int): Inode {
    Key(name).(attrib := ITYPE_ARCHIVE, dCreate := date, tCreate := time, dAccess := date)
  }

  lemma {:induction false} KeyLabel(name: string, date: int, time: int)
    requires CString(name)
    ensures Label(Key(name)) == Clip(name) == Label(NewFile(name, date, time))
  {
    FieldText(name, K_MAX_LEN_NODE_NAME);
  }

  datatype Touch = Touch(valid: bool, slots: seq<Inode>, size: nat)

  /** The two walks of `mfs_touch` over one flat sequence of slots. */
  ghost function Touched(slots: seq<Inode>, w: seq<bool>, key: Inode, node: Inode, size: nat): Touch
    requires |w| == |slots|
  {
    var k, e := Find(slots, key), FirstEmpty(slots);
    if k < |slots| then Touch(slots[k].attrib == ITYPE_ARCHIVE, slots, size)
    else if e == |slots| then Touch(false, slots, size)
    else Touch(w[e], if w[e] then slots[e := node] else slots, size + 1)
  }

  /** A name in use is left alone and reported by its type; a new name becomes one entry of the map,
      in the first empty slot; a full directory or a failing write changes no slot. */
  lemma {:induction false} TouchMeans(slots: seq<Inode>, w: seq<bool>, name: string, date: int, time: int, size: nat)
    requires |w| == |slots| && CString(name) && Clean(slots)
    ensures var t := Touched(slots, w, Key(name), NewFile(name, date, time), size);
            var short, e := Clip(name), FirstEmpty(slots);
            if short in Entries(slots) then
              t == Touch(Entries(slots)[short].attrib == ITYPE_ARCHIVE, slots, size)
            else if e == |slots| then
              t == Touch(false, slots, size)
            else if !w[e] then
              t == Touch(false, slots, size + 1)
            else
              t.valid && t.size == size + 1
              && Entries(t.slots) == (if short == "" then Entries(slots)
                                      else Entries(slots)[short := NewFile(name, date, time)])
              && (forall i :: 0 <= i < |slots| && i != e ==> t.slots[i] == slots[i])
              && Occupied(t.slots) == slots[..e] + Alone(NewFile(name, date, time)) + Occupied(slots[e + 1..])
  {
    var node, e := NewFile(name, date, time), FirstEmpty(slots);
    KeyLabel(name, date, time);
    FindIsEntries(slots, Key(name));
    if e < |slots| && Clip(name) !in Entries(slots) {
      FillOccupied(slots, node);
      if Clip(name) == "" { EmptyFill(slots, e, node); } else { FillEntries(slots, node); }
    }
  }

  /** What is found under a name after a valid touch of it: a file, and if the name is new a blank one
      with the given creation date and time. */
  ghost predicate Landed(before: map<string, Inode>, after: map<string, Inode>, short: string, date: int, time: int) {
    && short in after && after[short].attrib == ITYPE_ARCHIVE
    && (short in before ==> after[short] == before[short])
    && (short !in before ==>
          var node := after[short];
          && Label(node) == short && node.dCreate == date == node.dAccess && node.tCreate == time
          && node.size == 0 == node.devnum && node.tAccess == 0 && node.fat == [0, 0, 0, 0, 0])
  }

  lemma {:induction false} TouchLands(slots: seq<Inode>, w: seq<bool>, name: string, date: int, time: int, size: nat)
    requires |w| == |slots| && CString(name) && Clean(slots) && name != ""
    requires Touched(slots, w, Key(name), NewFile(name, date, time), size).valid
    ensures var t := Touched(slots, w, Key(name), NewFile(name, date, time), size);
            Clean(t.slots) && Landed(Entries(slots), Entries(t.slots), Clip(name), date, time)
  {
    TouchMeans(slots, w, name, date, time, size);
    KeyLabel(name, date, time);
    assert |Clip(name)| > 0;
    if Clip(name) !in Entries(slots) { CleanFill(slots, FirstEmpty(slots), NewFile(name, date, time)); }
  }

  /** Touching a name again, at any time, is valid and changes nothing. */
  lemma {:induction false} TouchAgain(slots: seq<Inode>, w: seq<bool>, name: string, date: int, time: int, size: nat,
                                      date': int, time': int)
    requires |w| == |slots| && CString(name) && Clean(slots) && name != ""
    requires Touched(slots, w, Key(name), NewFile(name, date, time), size).valid
    ensures var t := Touched(slots, w, Key(name), NewFile(name, date, time), size);
            |t.slots| == |w| && Touched(t.slots, w, Key(name), NewFile(name, date', time'), t.size) == t
  {
    var t := Touched(slots, w, Key(name), NewFile(name, date, time), size);
    TouchLands(slots, w, name, date, time, size);
    TouchMeans(t.slots, w, name, date', time', t.size);
  }

  lemma {:induction false} EmptyFill(slots: seq<Inode>, e: nat, node: Inode)
    requires e < |slots| && Empty(slots[e]) && Empty(node)
    ensures Entries(slots[e := node]) == Entries(slots)
  {
    if e == 0 {
      assert slots[e := node][1..] == slots[1..];
    } else {
      assert slots[e := node][1..] == slots[1..][e - 1 := node];
      EmptyFill(slots[1..], e - 1, node);
    }
  }

  /** Names are unique and `i_size` counts the nodes. */
  ghost predicate Consistent(slots: seq<Inode>, size: nat) {
    Clean(slots) && Unique(slots) && size == |Occupied(slots)|
  }

  /** A touch goes wrong when it makes a node under the empty name, or cannot write the one it makes. */
  ghost predicate Miscounts(slots: seq<Inode>, w: seq<bool>, short: string)
    requires |w| == |slots|
  {
    var e := FirstEmpty(slots);
    short !in Entries(slots) && e < |slots| && (short == "" || !w[e])
  }

  lemma {:induction false} TouchConsistent(slots: seq<Inode>, w: seq<bool>, name: string, date: int, time: int,
                                           size: nat)
    requires |w| == |slots| && CString(name) && Consistent(slots, size)
    ensures var t := Touched(slots, w, Key(name), NewFile(name, date, time), size);
            Consistent(t.slots, t.size) <==> !Miscounts(slots, w, Clip(name))
  {
    var node, e := NewFile(name, date, time), FirstEmpty(slots);
    KeyLabel(name, date, time);
    FindIsEntries(slots, Key(name));
    if e < |slots| && Clip(name) !in Entries(slots) && w[e] {
      FillOccupied(slots, node);
      if Clip(name) != "" {
        FillUnique(slots, e, node);
        CleanFill(slots, e, node);
      }
    }
  }

  lemma {:induction false} CleanFill(slots: seq<Inode>, e: nat, node: Inode)
    requires e < |slots| && Clean(slots) && node.unused[0] == NUL
    ensures Clean(slots[e := node])
  {
    var t := slots[e := node];
    forall i | 0 <= i < |t| ensures CleanAt(t, i) { assert CleanAt(slots, i); }
  }

  /** When only `seen` of the slots can be read, a touch of a name it does not hold still fills a slot;
      names stay unique exactly when the unread slots do not hold the name either. */
  lemma {:induction false} TouchBesideHidden(seen: seq<Inode>, hidden: seq<Inode>, w: seq<bool>, name: string,
                                             date: int, time: int, size: nat)
    requires |w| == |seen| && CString(name) && Clean(seen) && Unique(seen + hidden)
    requires Clip(name) != "" && Clip(name) !in Entries(seen)
    requires FirstEmpty(seen) < |seen| && w[FirstEmpty(seen)]
    ensures var t := Touched(seen, w, Key(name), NewFile(name, date, time), size);
            Unique(t.slots + hidden) <==> Clip(name) !in Entries(hidden)
  {
    var node, e := NewFile(name, date, time), FirstEmpty(seen);
    KeyLabel(name, date, time);
    FindIsEntries(seen, Key(name));
    assert (seen + hidden)[e := node] == seen[e := node] + hidden;
    FillUnique(seen + hidden, e, node);
    EntriesAppend(seen, hidden, Clip(name));
  }

  lemma {:induction false} EntriesAppend(a: seq<Inode>, b: seq<Inode>, name: string)
    ensures name in Entries(a + b) <==> name in Entries(a) || name in Entries(b)
  {
    if a == [] {
      assert a + b == b;
    } else {
      assert (a + b)[1..] == a[1..] + b;
      EntriesAppend(a[1..], b, name);
    }
  }

  // ---- runs ----

  datatype Call = Call(name: string, date: int, time: int)

  /** A series of touches. */
  ghost function TouchAll(slots: seq<Inode>, w: seq<bool>, calls: seq<Call>, size: nat): (t: Touch)
    requires |w| == |slots|
    ensures |t.slots| == |slots|
    decreases |calls|
  {
    if calls == [] then Touch(true, slots, size)
    else
      var t := Touched(slots, w, Key(calls[0].name), NewFile(calls[0].name, calls[0].date, calls[0].time), size);
      TouchAll(t.slots, w, calls[1..], t.size)
  }

  /** Every entry of one map is in the other, with the same node. */
  ghost predicate Extends(a: map<string, Inode>, b: map<string, Inode>) {
    forall k :: k in a ==> k in b && b[k] == a[k]
  }

  ghost predicate Served(slots: seq<Inode>, call: Call) {
    Clip(call.name) in Entries(slots) || FirstEmpty(slots) == |slots|
  }

  ghost predicate Proper(call: Call) {
    CString(call.name) && call.name != ""
  }

  lemma {:induction false} OneTouch(slots: seq<Inode>, w: seq<bool>, call: Call, size: nat)
    requires |w| == |slots| && Consistent(slots, size) && Proper(call)
    requires forall i :: 0 <= i < |w| ==> w[i]
    ensures var t := Touched(slots, w, Key(call.name), NewFile(call.name, call.date, call.time), size);
            && Consistent(t.slots, t.size) && Extends(Entries(slots), Entries(t.slots)) && Served(t.slots, call)
            && (FirstEmpty(slots) == |slots| ==> t.slots == slots)
  {
    TouchMeans(slots, w, call.name, call.date, call.time, size);
    TouchConsistent(slots, w, call.name, call.date, call.time, size);
    assert |Clip(call.name)| > 0;
  }

  /** Over every series of touches with nonempty names on a device that takes every write: names stay
      unique, `i_size` stays exact, no entry is lost or changed, and every name is there at the end
      unless the directory is full. */
  lemma {:induction false} RunConsistent(slots: seq<Inode>, w: seq<bool>, calls: seq<Call>, size: nat)
    requires |w| == |slots| && Consistent(slots, size)
    requires forall i :: 0 <= i < |w| ==> w[i]
    requires forall i :: 0 <= i < |calls| ==> Proper(calls[i])
    ensures var t := TouchAll(slots, w, calls, size);
            && Consistent(t.slots, t.size) && Extends(Entries(slots), Entries(t.slots))
            && (FirstEmpty(slots) == |slots| ==> t.slots == slots)
            && forall i :: 0 <= i < |calls| ==> Served(t.slots, calls[i])
    decreases |calls|
  {
    if calls != [] {
      OneTouch(slots, w, calls[0], size);
      var t := Touched(slots, w, Key(calls[0].name), NewFile(calls[0].name, calls[0].date, calls[0].time), size);
      var rest := calls[1..];
      RunConsistent(t.slots, w, rest, t.size);
      var u := TouchAll(t.slots, w, rest, t.size);
      ExtendsOn(Entries(slots), Entries(t.slots), Entries(u.slots));
      ServedOn(t.slots, u.slots, calls[0]);
      forall i | 0 <= i < |calls| ensures Served(u.slots, calls[i]) {
        if i > 0 { assert calls[i] == rest[i - 1]; }
      }
    }
  }

  lemma {:induction false} ExtendsOn(a: map<string, Inode>, b: map<string, Inode>, c: map<string, Inode>)
    requires Extends(a, b) && Extends(b, c)
    ensures Extends(a, c)
  {
  }

  lemma {:induction false} ServedOn(slots: seq<Inode>, later: seq<Inode>, call: Call)
    requires Served(slots, call) && Extends(Entries(slots), Entries(later))
    requires FirstEmpty(slots) == |slots| ==> later == slots
    ensures Served(later, call)
  {
  }
}
