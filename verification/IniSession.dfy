/** Whole sessions with a store: any run of guarded operations on its open files. */
module IniSession {
  import opened Wrappers
  import opened IniText
  import opened IniModel
  import opened IniLoad
  import opened IniDb
  import opened IniEdit
  import opened IniSquare
  import opened IniHeap
  import opened IniSpace
  import opened IniStore

  /** No slot is free for what an operation adds; only additions need one. */
  ghost predicate NoRoomFor(h: Heap, op: Op) {
    (op.AddKey? && AllKeys(h) == 100) || (op.AddSection? && AllSections(h) == 10)
  }

  /** One call of an operation, as an operation of the model. */
  method Do(store: Store, fd: nat, op: Op) returns (ret: int)
    requires store.Valid() && fd < MAX_FILES && store.files[fd].used
    modifies store, store.files, store.secs, store.kvs
    ensures store.Valid() && Others(old(store.View()), store.View(), fd)
    ensures Outcome(old(store.Index(fd)), store.Index(fd), old(store.disk), store.disk, old(store.files[fd].name), op, ret)
    ensures store.refusals == Refusals(old(store.refusals), ret)
    ensures ret == NUM_OUT_ARRAY ==> NoRoomFor(old(store.View()), op)
    ensures AllKeys(store.View()) <= old(AllKeys(store.View())) + (if op.AddKey? then 1 else 0)
    ensures AllSections(store.View()) <= old(AllSections(store.View())) + (if op.AddSection? then 1 else 0)
  {
    ghost var h, disk, name := store.View(), store.disk, store.files[fd].name;
    match op {
      case Update(s, k, v) => ret := store.UpdateValueOfKey(fd, Parameter(Some(s), Some(k), Some(v)));
      case AddKey(s, k, v) => ret := store.AddValueOfKey(fd, Parameter(Some(s), Some(k), Some(v)));
      case AddSection(s, None) => ret := store.AddIniSection(fd, Parameter(Some(s), None, None));
      case AddSection(s, Some(kv)) => ret := store.AddIniSection(fd, Parameter(Some(s), Some(kv.0), Some(kv.1)));
      case DeleteKey(s, k) => ret := store.DeleteValueOfKey(fd, Parameter(Some(s), Some(k), None));
      case DeleteSection(s, key) => ret := store.DeleteIniSection(fd, Parameter(Some(s), key, None));
    }
    AllCountsGrow(h, store.View(), fd, disk, store.disk, name, op, ret);
  }

  // ---------- the open files of a store ----------

  /** An open file: its sections in memory, and its name. */
  datatype Open = Closed | Open(index: Ini, name: string)

  ghost function OpenFile(store: Store, fd: nat): Open
    requires fd < MAX_FILES && store.files.Length == MAX_FILES
    reads store, store.files, store.secs, store.kvs
  {
    if store.files[fd].used then Open(store.Index(fd), store.files[fd].name) else Closed
  }

  /** Each open file agrees with its own text on the disk, and no two have one name. */
  ghost predicate AllCoherent(a: Open, b: Open, disk: map<string, string>) {
    && (a.Open? ==> a.name in disk && Coherent(Db(a.index, disk[a.name])))
    && (b.Open? ==> b.name in disk && Coherent(Db(b.index, disk[b.name])))
    && (a.Open? && b.Open? ==> a.name != b.name)
  }

  /** The operations are safe at their turns, whether or not those before them find space. */
  ghost predicate AlwaysSafe(db: Db, ops: seq<Op>)
    decreases |ops|
  {
    ops == [] || (Safe(db, ops[0]) && AlwaysSafe(Apply(db, ops[0]).0, ops[1..]) && AlwaysSafe(db, ops[1..]))
  }

  lemma OneOutcome(m: Ini, n: Ini, disk: map<string, string>, disk': map<string, string>, name: string, op: Op, ret: int)
    requires Outcome(m, n, disk, disk', name, op, ret) && name in disk && Coherent(Db(m, disk[name])) && Safe(Db(m, disk[name]), op)
    ensures name in disk' && Coherent(Db(n, disk'[name]))
    ensures OutOfSpace(ret) ==> n == m && disk' == disk
    ensures !OutOfSpace(ret) ==>
              Db(n, disk'[name]) == Apply(Db(m, disk[name]), op).0 && (AsMap(n), ret) == MapStep(AsMap(m), op)
    ensures forall other | other in disk && other != name :: other in disk' && disk'[other] == disk[other]
  {
    if !OutOfSpace(ret) {
      OutcomeIsApply(m, n, disk, disk', name, op, ret);
      ApplyCoherent(Db(m, disk[name]), op);
    }
  }

  // ---------- how many sections and keys an operation adds ----------

  lemma {:induction false} CountReplaced(m: Ini, x: nat, sec: Section)
    requires x < |m|
    ensures KeyCount(m[x := sec]) == KeyCount(m) - |m[x].entries| + |sec.entries|
  {
    var n := m[x := sec];
    if x == |m| - 1 {
      assert n[..|n| - 1] == m[..|m| - 1];
    } else {
      assert n[..|n| - 1] == m[..|m| - 1][x := sec];
      CountReplaced(m[..|m| - 1], x, sec);
    }
  }

  lemma {:induction false} CountRemoved(m: Ini, x: nat)
    requires x < |m|
    ensures KeyCount(RemoveAt(m, x)) == KeyCount(m) - |m[x].entries|
  {
    var n := RemoveAt(m, x);
    if x == |m| - 1 {
      assert n == m[..x];
    } else {
      assert n[..|n| - 1] == RemoveAt(m[..|m| - 1], x) && n[|n| - 1] == m[|m| - 1];
      CountRemoved(m[..|m| - 1], x);
    }
  }

  lemma CountWith(m: Ini, sec: Section)
    ensures KeyCount(m + [sec]) == KeyCount(m) + |sec.entries|
  {
    assert (m + [sec])[..|m|] == m;
  }

  lemma StepCounts(m: Ini, op: Op)
    ensures var n := IndexStep(m, op).0;
            && KeyCount(n) <= KeyCount(m) + (if op.AddKey? then 1 else 0)
            && |n| <= |m| + (if op.AddSection? then 1 else 0)
  {
    var x := FindSection(m, op.s);
    if 0 <= x {
      match op
      case Update(_, k, v) =>
        var j := FindEntry(m[x].entries, k);
        if 0 <= j {
          CountReplaced(m, x, SetValue(m, x, j, v)[x]);
        }
      case AddKey(_, k, v) =>
        if kv :| ParseKeyValue(k + "=" + v) == Some(kv) {
          CountReplaced(m, x, AppendAt(m, x, Entry(kv.0, kv.1))[x]);
        }
      case DeleteKey(_, k) =>
        var j := FindEntry(m[x].entries, k);
        if 0 <= j {
          CountReplaced(m, x, RemoveKeyAt(m, x, j)[x]);
        }
      case DeleteSection(_, _) => CountRemoved(m, x);
      case AddSection(_, _) =>
    } else if op.AddSection? {
      if name :| ParseName("[" + op.s + "]") == Some(name) {
        CountWith(m, Section(name, []));
      }
    }
  }

  lemma AllCountsGrow(h: Heap, g: Heap, fd: nat, disk: map<string, string>, disk': map<string, string>, name: string, op: Op, ret: int)
    requires fd < MAX_FILES && Others(h, g, fd) && Outcome(Meaning(h, fd), Meaning(g, fd), disk, disk', name, op, ret)
    ensures AllKeys(g) <= AllKeys(h) + (if op.AddKey? then 1 else 0)
    ensures AllSections(g) <= AllSections(h) + (if op.AddSection? then 1 else 0)
  {
    StepCounts(Meaning(h, fd), op);
    assert Meaning(g, 1 - fd) == Meaning(h, 1 - fd);
  }

  lemma OthersStay(a: Open, b: Open, a': Open, disk: map<string, string>, disk': map<string, string>)
    requires AllCoherent(a, b, disk) && a.Open? && a'.Open? && a'.name == a.name
    requires a.name in disk' && Coherent(Db(a'.index, disk'[a.name]))
    requires forall other | other in disk && other != a.name :: other in disk' && disk'[other] == disk[other]
    ensures AllCoherent(a', b, disk') && AllCoherent(b, a', disk')
  {
  }

  /** One guarded operation in a session. */
  method Turn(store: Store, fd: nat, op: Op) returns (ret: int)
    requires store.Valid() && fd < MAX_FILES && store.files.Length == MAX_FILES && store.files[fd].used
    requires AllCoherent(OpenFile(store, fd), OpenFile(store, 1 - fd), store.disk)
    requires Safe(Db(store.Index(fd), store.disk[store.files[fd].name]), op)
    modifies store, store.files, store.secs, store.kvs
    ensures store.Valid() && OpenFile(store, 1 - fd) == old(OpenFile(store, 1 - fd))
    ensures AllCoherent(OpenFile(store, fd), OpenFile(store, 1 - fd), store.disk)
    ensures store.files[fd].used && store.files[fd].name == old(store.files[fd].name)
    ensures var db, db' := old(Db(store.Index(fd), store.disk[store.files[fd].name])),
                           Db(store.Index(fd), store.disk[store.files[fd].name]);
            if OutOfSpace(ret) then db' == db
            else db' == Apply(db, op).0 && (AsMap(db'.index), ret) == MapStep(AsMap(db.index), op)
    ensures store.refusals == Refusals(old(store.refusals), ret)
    ensures ret == NUM_OUT_ARRAY ==> NoRoomFor(old(store.View()), op)
    ensures AllKeys(store.View()) <= old(AllKeys(store.View())) + (if op.AddKey? then 1 else 0)
    ensures AllSections(store.View()) <= old(AllSections(store.View())) + (if op.AddSection? then 1 else 0)
  {
    ghost var a, b, disk := OpenFile(store, fd), OpenFile(store, 1 - fd), store.disk;
    ret := Do(store, fd, op);
    OneOutcome(a.index, store.Index(fd), disk, store.disk, a.name, op, ret);
    OthersStay(a, b, Open(store.Index(fd), a.name), disk, store.disk);
  }

  // What the operations of a run return, and which of them found space.
  function MapCodes(m: NestedMap, ops: seq<Op>): seq<int>
    decreases |ops|
  {
    if ops == [] then [] else [MapStep(m, ops[0]).1] + MapCodes(MapStep(m, ops[0]).0, ops[1..])
  }

  function Served(ops: seq<Op>, codes: seq<int>): seq<Op>
    requires |codes| == |ops|
    decreases |ops|
  {
    if ops == [] then []
    else (if OutOfSpace(codes[0]) then [] else [ops[0]]) + Served(ops[1..], codes[1..])
  }

  function KeysAdded(ops: seq<Op>): nat {
    if ops == [] then 0 else (if ops[0].AddKey? then 1 else 0) + KeysAdded(ops[1..])
  }

  function SectionsAdded(ops: seq<Op>): nat {
    if ops == [] then 0 else (if ops[0].AddSection? then 1 else 0) + SectionsAdded(ops[1..])
  }

  /** The slots suffice for all the operations add. */
  ghost predicate RoomForAll(h: Heap, ops: seq<Op>) {
    AllKeys(h) + KeysAdded(ops) <= 100 && AllSections(h) + SectionsAdded(ops) <= 10
  }

  // What a run has made of the index, and that it is all of it when there is room and the pool refuses nothing.
  ghost predicate RunDone(m: Ini, n: Ini, ops: seq<Op>, codes: seq<int>, room: bool) {
    && |codes| == |ops| && AsMap(n) == MapRun(AsMap(m), Served(ops, codes))
    && (room ==> Served(ops, codes) == ops && codes == MapCodes(AsMap(m), ops))
  }

  lemma OneMoreDone(m: Ini, m1: Ini, n: Ini, op: Op, ret: int, ops: seq<Op>, codes: seq<int>, room: bool, room1: bool)
    requires RunDone(m1, n, ops, codes, room1)
    requires if OutOfSpace(ret) then m1 == m else (AsMap(m1), ret) == MapStep(AsMap(m), op)
    requires room ==> room1 && !OutOfSpace(ret)
    ensures RunDone(m, n, [op] + ops, [ret] + codes, room)
  {
    var all, rets := [op] + ops, [ret] + codes;
    assert all[1..] == ops && rets[1..] == codes;
    if OutOfSpace(ret) {
      assert [] + Served(ops, codes) == Served(ops, codes);
    } else {
      assert ([op] + Served(ops, codes))[1..] == Served(ops, codes);
    }
  }

  // With room for all, the first operation finds room, and leaves room for the others.
  lemma RoomLeft(h: Heap, g: Heap, op: Op, ops: seq<Op>, ret: int)
    requires RoomForAll(h, [op] + ops) && (ret == NUM_OUT_ARRAY ==> NoRoomFor(h, op))
    requires AllKeys(g) <= AllKeys(h) + (if op.AddKey? then 1 else 0)
    requires AllSections(g) <= AllSections(h) + (if op.AddSection? then 1 else 0)
    ensures RoomForAll(g, ops) && ret != NUM_OUT_ARRAY
  {
    assert ([op] + ops)[1..] == ops;
  }

  // Nothing refused in a run: nothing refused by its first operation and the others.
  lemma NothingRefused(a: seq<int>, b: seq<int>, c: seq<int>, ret: int)
    requires b == Refusals(a, ret) && b <= c
    ensures a <= c && (c == a ==> !PoolCode(ret) && c == b)
  {
  }

  /**
   * Any run of guarded operations on an open file of a store: the file agrees with the index afterwards, the index holds
   * what the operations that found space make of the map, and the other file, if open, is as it was. When the pool refuses
   * no string and the slots suffice, every operation finds space, and returns what the map says.
   */
  method Session(store: Store, fd: nat, ops: seq<Op>) returns (codes: seq<int>)
    requires store.Valid() && fd < MAX_FILES && store.files.Length == MAX_FILES && store.files[fd].used
    requires AllCoherent(OpenFile(store, fd), OpenFile(store, 1 - fd), store.disk)
    requires AlwaysSafe(Db(store.Index(fd), store.disk[store.files[fd].name]), ops)
    modifies store, store.files, store.secs, store.kvs
    ensures store.Valid() && AllCoherent(OpenFile(store, fd), OpenFile(store, 1 - fd), store.disk)
    ensures store.files[fd].used && store.files[fd].name == old(store.files[fd].name)
    ensures OpenFile(store, 1 - fd) == old(OpenFile(store, 1 - fd))
    ensures old(store.refusals) <= store.refusals
    ensures RunDone(old(store.Index(fd)), store.Index(fd), ops, codes,
                    store.refusals == old(store.refusals) && old(RoomForAll(store.View(), ops)))
    decreases |ops|
  {
    codes := [];
    if ops != [] {
      ghost var h, refused := store.View(), store.refusals;
      var ret := Turn(store, fd, ops[0]);
      ghost var g, refused1 := store.View(), store.refusals;
      var rest := Session(store, fd, ops[1..]);
      codes := [ret] + rest;
      assert ops == [ops[0]] + ops[1..];
      NothingRefused(refused, refused1, store.refusals, ret);
      if RoomForAll(h, ops) {
        RoomLeft(h, g, ops[0], ops[1..], ret);
      }
      OneMoreDone(Meaning(h, fd), Meaning(g, fd), store.Index(fd), ops[0], ret, ops[1..], rest,
                  store.refusals == refused && RoomForAll(h, ops), store.refusals == refused1 && RoomForAll(g, ops[1..]));
    }
  }

  /** A guarded update of a key that is there, unless the pool refuses the value: get returns it, and so does the file read again. */
  method UpdateThenGet(store: Store, fd: nat, s: string, k: string, v: string) returns (ret: int, value: Option<string>)
    requires store.Valid() && fd < MAX_FILES && store.files.Length == MAX_FILES && store.files[fd].used
    requires AllCoherent(OpenFile(store, fd), OpenFile(store, 1 - fd), store.disk)
    requires Safe(Db(store.Index(fd), store.disk[store.files[fd].name]), Update(s, k, v)) && HasKey(store.Index(fd), s, k)
    modifies store, store.files, store.secs, store.kvs
    ensures ret == 0 || PoolCode(ret)
    ensures store.refusals == Refusals(old(store.refusals), ret)
    ensures ret == 0 ==> value == Some(v) && AsMap(store.Index(fd)) == MapStep(AsMap(old(store.Index(fd))), Update(s, k, v)).0
    ensures ret == 0 ==> ReadsAs(store.disk, old(store.files[fd].name), AsMap(store.Index(fd)))
    ensures ret != 0 ==> store.files[fd].name in store.disk
    ensures ret != 0 ==> store.disk[store.files[fd].name] == old(store.disk[store.files[fd].name])
    ensures ret != 0 ==> value == GetValue(old(store.Index(fd)), s, k)
  {
    ghost var m, name := store.Index(fd), store.files[fd].name;
    KeyInMap(m, s, k);
    ret := Turn(store, fd, Update(s, k, v));
    ghost var n := store.Index(fd);
    CoherentReads(n, store.disk, name);
    value := store.GetValueOfKey(fd, Parameter(Some(s), Some(k), None));
    GetRefinesMap(n, s, k);
  }

  /** The file read again gives this map. */
  ghost predicate ReadsAs(disk: map<string, string>, name: string, m: NestedMap) {
    name in disk && LoadText([], disk[name]).Some? && AsMap(LoadText([], disk[name]).value) == m
  }

  lemma CoherentReads(m: Ini, disk: map<string, string>, name: string)
    requires name in disk && Coherent(Db(m, disk[name]))
    ensures ReadsAs(disk, name, AsMap(m))
  {
  }

  lemma KeyInMap(m: Ini, s: string, k: string)
    requires HasKey(m, s, k)
    ensures s in AsMap(m) && k in AsMap(m)[s]
  {
    FindSectionIsLookup(m, s);
    FindEntryIsLookup(m[FindSection(m, s)].entries, k);
  }

  /**
   * A store is made, a file opened, one value changed and the file closed. When the file fits the slots and the pool refuses
   * nothing, the file is read again as the map with that value.
   */
  method OpenUpdateClose(disk: map<string, string>, name: string, s: string, k: string, v: string)
    returns (after: map<string, string>, ret: int, ghost refusals: seq<int>)
    requires name in disk && WfLines(SplitLines(disk[name]))
    requires LoadText([], disk[name]).Some? ==> Safe(Db(LoadText([], disk[name]).value, disk[name]), Update(s, k, v))
    ensures ret == 0 ==>
              && LoadText([], disk[name]).Some?
              && ReadsAs(after, name, MapStep(AsMap(LoadText([], disk[name]).value), Update(s, k, v)).0)
    ensures forall other | other in disk && other != name :: other in after && after[other] == disk[other]
    ensures LoadText([], disk[name]) == None ==> ret < 0 && after == disk
    ensures refusals == [] && FitsTheSlots(disk[name]) && HasKey(LoadText([], disk[name]).value, s, k) ==> ret == 0
  {
    var store;
    store, ret := OpenFirst(disk, name);
    refusals := store.refusals;
    after := disk;
    if 0 <= ret {
      after, ret, refusals := UpdateAndClose(store, ret, disk, name, s, k, v);
    }
  }

  // A file opened in a new store.
  method OpenFirst(disk: map<string, string>, name: string) returns (store: Store, ret: int)
    requires name in disk
    ensures fresh(store) && fresh(store.files) && fresh(store.secs) && fresh(store.kvs)
    ensures store.Valid() && store.disk == disk && store.files.Length == MAX_FILES && store.refusals == Refusals([], ret)
    ensures 0 <= ret ==> ret < MAX_FILES && store.files[ret].used && store.files[ret].name == name
    ensures 0 <= ret ==> LoadText([], disk[name]) == Some(store.Index(ret))
    ensures ret < 0 ==> store.refusals != [] || !FitsTheSlots(disk[name])
  {
    store := new Store(disk);
    assert store.Index(0) == [] && store.Index(1) == [];
    NothingOpen(store.View());
    if FitsTheSlots(disk[name]) {
      FittingDoesNotRunOut(SplitLines(disk[name]), LoadText([], disk[name]).value, 0, 0);
    }
    ret := store.InitIniFile(Some(name), 0);
  }

  // The file just opened as fd is updated and closed.
  method UpdateAndClose(store: Store, fd: nat, ghost disk: map<string, string>, ghost name: string, s: string, k: string, v: string)
    returns (after: map<string, string>, ret: int, ghost refusals: seq<int>)
    requires store.Valid() && fd < MAX_FILES && store.files.Length == MAX_FILES && store.files[fd].used
    requires store.files[fd].name == name && store.disk == disk && store.refusals == []
    requires name in disk && WfLines(SplitLines(disk[name])) && LoadText([], disk[name]) == Some(store.Index(fd))
    requires Safe(Db(store.Index(fd), disk[name]), Update(s, k, v))
    modifies store, store.files, store.secs, store.kvs
    ensures refusals == Refusals([], ret)
    ensures ret == 0 ==> ReadsAs(after, name, MapStep(AsMap(LoadText([], disk[name]).value), Update(s, k, v)).0)
    ensures forall other | other in disk && other != name :: other in after && after[other] == disk[other]
    ensures HasKey(LoadText([], disk[name]).value, s, k) && refusals == [] ==> ret == 0
  {
    ghost var m := store.Index(fd);
    LoadCoherent(disk[name], m);
    ret := Do(store, fd, Update(s, k, v));
    after, refusals := store.disk, store.refusals;
    ghost var n := store.Index(fd);
    OneOutcome(m, n, disk, after, name, Update(s, k, v), ret);
    CoherentReads(n, after, name);
    if HasKey(m, s, k) {
      KeyInMap(m, s, k);
    }
    store.DestroyIniSource(fd);
  }

  lemma NothingOpen(h: Heap)
    requires Meaning(h, 0) == [] && Meaning(h, 1) == []
    ensures AllSections(h) == 0 && AllKeys(h) == 0
  {
  }

  /** A text that loads to no more than ten sections and a hundred keys. */
  ghost predicate FitsTheSlots(text: string) {
    && LoadText([], text).Some?
    && |LoadText([], text).value| <= 10 && KeyCount(LoadText([], text).value) <= 100
  }
}
