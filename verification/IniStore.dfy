/** The store itself: slot arrays updated in place, and the files rewritten with every change. */
module IniStore {
  import opened Wrappers
  import opened IniText
  import opened IniModel
  import opened IniLoad
  import opened IniEdit
  import opened IniRewrite
  import opened IniSquare
  import opened IniDb
  import opened IniGuard
  import opened IniHeap
  import opened IniSpace

  const NO_EXIST := -1
  const ERROR_PARAMETER := -3
  const NUM_OUT_ARRAY := -6
  const MEMORY_POOL_ERROR := -9
  const MEMORY_POOL_OUT := -10

  /** The strings of an INI_PARAMETER, cut to their lengths; None is a null pointer. */
  datatype Parameter = Parameter(section: Option<string>, key: Option<string>, value: Option<string>)

  /** The pair add_ini_section hands on to the rewrite when a key is left in its parameter; a null value prints nothing. */
  function PairLeft(p: Parameter): Option<(string, string)> {
    if p.key == None then None else Some((p.key.value, if p.value == None then "" else p.value.value))
  }

  // Codes that report a full array or pool and leave the index alone.
  predicate OutOfSpace(ret: int) {
    ret == NUM_OUT_ARRAY || ret == MEMORY_POOL_ERROR || ret == MEMORY_POOL_OUT
  }

  predicate PoolCode(ret: int) {
    ret == MEMORY_POOL_ERROR || ret == MEMORY_POOL_OUT
  }

  /** The codes of the strings the pool has refused, after a call that returns ret. */
  function Refusals(before: seq<int>, ret: int): seq<int> {
    if PoolCode(ret) then before + [ret] else before
  }

  /** How many sections, and how many keys, the open files have. */
  ghost function AllSections(h: Heap): nat {
    |Meaning(h, 0)| + |Meaning(h, 1)|
  }

  ghost function AllKeys(h: Heap): nat {
    KeyCount(Meaning(h, 0)) + KeyCount(Meaning(h, 1))
  }

  // A line that needs a slot finds none.
  ghost predicate NoSlot(h: Heap, line: string) {
    (Kind(line) == SectionLine && AllSections(h) == 10) || (Kind(line) == KeyValueLine && AllKeys(h) == 100)
  }

  lemma SlotsFull(h: Heap)
    requires Ok(h)
    ensures (forall x | 0 <= x < MAX_SECTIONS :: h.secs[x].used) ==> AllSections(h) == 10
    ensures (forall y | 0 <= y < MAX_KEYVALUES :: h.kvs[y].used) ==> AllKeys(h) == 100
  {
    OkInRange(h, NONE, NONE);
    SecsFullExactly(h);
    KeysFullExactly(h);
  }

  // Free slots have no links, and no keys under them.
  predicate FreeKvs(kvs: seq<KvSlot>) {
    |kvs| == MAX_KEYVALUES && forall y | 0 <= y < |kvs| && !kvs[y].used :: kvs[y].link == UNLINKED
  }

  predicate FreeSecs(secs: seq<SecSlot>) {
    |secs| == MAX_SECTIONS && forall x | 0 <= x < |secs| && !secs[x].used :: secs[x].link == UNLINKED && secs[x].head == NONE
  }

  // Only the texts of free slots differ.
  predicate SameKvs(a: seq<KvSlot>, b: seq<KvSlot>) {
    && |a| == |b|
    && (forall y | 0 <= y < |a| && a[y].used :: b[y] == a[y])
    && (forall y | 0 <= y < |a| && !a[y].used :: !b[y].used && b[y].link == a[y].link)
  }

  predicate SameSecs(a: seq<SecSlot>, b: seq<SecSlot>) {
    && |a| == |b|
    && (forall x | 0 <= x < |a| && a[x].used :: b[x] == a[x])
    && (forall x | 0 <= x < |a| && !a[x].used :: !b[x].used && b[x].link == a[x].link && b[x].head == a[x].head)
  }

  lemma OkFree(h: Heap)
    requires Ok(h)
    ensures FreeKvs(h.kvs) && FreeSecs(h.secs)
  {
    forall y | 0 <= y < MAX_KEYVALUES ensures !h.kvs[y].used ==> h.kvs[y].link == UNLINKED {
      assert KvOk(h, y, NONE);
    }
    forall x | 0 <= x < MAX_SECTIONS ensures !h.secs[x].used ==> h.secs[x].link == UNLINKED && h.secs[x].head == NONE {
      assert SecOk(h, x, NONE);
    }
  }

  /** Texts of free slots do not matter: not to the invariant, and not to what the heap means. */
  lemma SameSlots(h: Heap, kvs: seq<KvSlot>, secs: seq<SecSlot>)
    requires Ok(h) && InRange(h) && SameKvs(h.kvs, kvs) && SameSecs(h.secs, secs)
    ensures var g := h.(kvs := kvs, secs := secs);
            && Ok(g) && InRange(g) && forall f | 0 <= f < MAX_FILES :: Content(g, f) == Content(h, f)
  {
    var g := h.(kvs := kvs, secs := secs);
    assert forall y | 0 <= y < MAX_KEYVALUES :: g.kvs[y].link == h.kvs[y].link && g.kvs[y].used == h.kvs[y].used;
    assert forall x | 0 <= x < MAX_SECTIONS ::
        g.secs[x].link == h.secs[x].link && g.secs[x].used == h.secs[x].used && g.secs[x].head == h.secs[x].head;
    assert KvLinks(g.kvs) == KvLinks(h.kvs) && SecLinks(g.secs) == SecLinks(h.secs);
    forall f | 0 <= f < MAX_FILES ensures FileOk(g, f) { assert FileOk(h, f); }
    forall x | 0 <= x < MAX_SECTIONS ensures SecOk(g, x, NONE) { assert SecOk(h, x, NONE); }
    forall w | 0 <= w < MAX_KEYVALUES ensures KvOk(g, w, NONE) { assert KvOk(h, w, NONE); }
    SameSlotsContent(h, kvs, secs);
  }

  lemma SameSlotsContent(h: Heap, kvs: seq<KvSlot>, secs: seq<SecSlot>)
    requires Ok(h) && InRange(h) && |kvs| == |h.kvs| && |secs| == |h.secs|
    requires forall y | 0 <= y < |kvs| && h.kvs[y].used :: kvs[y] == h.kvs[y]
    requires forall x | 0 <= x < |secs| && h.secs[x].used :: secs[x] == h.secs[x]
    ensures var g := h.(kvs := kvs, secs := secs);
            && InRange(g) && forall f | 0 <= f < MAX_FILES :: Content(g, f) == Content(h, f)
    ensures forall x | 0 <= x < MAX_SECTIONS :: Entries(h.(kvs := kvs, secs := secs), x) == Entries(h, x)
  {
    var g := h.(kvs := kvs, secs := secs);
    assert InRange(g);
    forall x | 0 <= x < MAX_SECTIONS ensures Entries(g, x) == Entries(h, x) {
      assert SecOk(h, x, NONE);
      forall i | 0 <= i < |h.kvLists[x]| ensures g.kvs[h.kvLists[x][i]] == h.kvs[h.kvLists[x][i]] {
        assert KvOk(h, h.kvLists[x][i], NONE);
      }
      SameEntries(h, g, x);
    }
    forall f | 0 <= f < MAX_FILES ensures Content(g, f) == Content(h, f) {
      assert FileOk(h, f);
      forall i | 0 <= i < |h.secLists[f]| ensures g.secs[h.secLists[f][i]] == h.secs[h.secLists[f][i]] {
        assert SecOk(h, h.secLists[f][i], NONE);
      }
      SameContent(h, g, f);
    }
  }

  // ---------- lists in the arrays ----------

  // The forward links along a list.
  predicate NextKv(kvs: seq<KvSlot>, head: int, list: seq<int>) {
    && head == (if list == [] then NONE else list[0])
    && Indices(list, |kvs|)
    && forall i | 0 <= i < |list| ::
         && kvs[list[i]].link.last == (if i + 1 < |list| then list[i + 1] else NONE)
         && (kvs[list[i]].link.last == NONE <==> i + 1 == |list|)
  }

  predicate NextSec(secs: seq<SecSlot>, head: int, list: seq<int>) {
    && head == (if list == [] then NONE else list[0])
    && Indices(list, |secs|)
    && forall i | 0 <= i < |list| ::
         && secs[list[i]].link.last == (if i + 1 < |list| then list[i + 1] else NONE)
         && (secs[list[i]].link.last == NONE <==> i + 1 == |list|)
  }

  lemma ChainNextKv(kvs: seq<KvSlot>, head: int, list: seq<int>)
    requires Chain(KvLinks(kvs), head, list)
    ensures NextKv(kvs, head, list)
  {
    forall i | 0 <= i < |list|
      ensures kvs[list[i]].link.last == (if i + 1 < |list| then list[i + 1] else NONE)
      ensures kvs[list[i]].link.last == NONE <==> i + 1 == |list| {
      assert KvLinks(kvs)[list[i]] == LinkAt(list, i);
    }
  }

  lemma ChainNextSec(secs: seq<SecSlot>, head: int, list: seq<int>)
    requires Chain(SecLinks(secs), head, list)
    ensures NextSec(secs, head, list)
  {
    forall i | 0 <= i < |list|
      ensures secs[list[i]].link.last == (if i + 1 < |list| then list[i + 1] else NONE)
      ensures secs[list[i]].link.last == NONE <==> i + 1 == |list| {
      assert SecLinks(secs)[list[i]] == LinkAt(list, i);
    }
  }

  function Freed(kvs: seq<KvSlot>, list: seq<int>): seq<KvSlot> {
    seq(|kvs|, w requires 0 <= w < |kvs| => if w in list then FREE_KV else kvs[w])
  }

  lemma DistinctPrefix(list: seq<int>, i: nat)
    requires Distinct(list) && i < |list|
    ensures list[i] !in list[..i] && list[..i + 1] == list[..i] + [list[i]]
    ensures i + 1 < |list| ==> list[i + 1] !in list[..i] && list[i + 1] != list[i]
  {
  }

  lemma FreedOneMore(kvs: seq<KvSlot>, list: seq<int>, y: nat)
    requires y < |kvs|
    ensures Freed(kvs, list + [y]) == Freed(kvs, list)[y := FREE_KV]
  {
  }

  lemma FreedNext(kvs: seq<KvSlot>, head: int, list: seq<int>, i: nat)
    requires Chain(KvLinks(kvs), head, list) && i < |list|
    ensures var y := list[i];
            && 0 <= y < |kvs|
            && Freed(kvs, list[..i])[y].link == LinkAt(list, i)
            && Freed(kvs, list[..i + 1]) == Freed(kvs, list[..i])[y := FREE_KV]
    ensures i + 1 < |list| ==>
              0 <= list[i + 1] < |kvs| && Freed(kvs, list[..i])[list[i + 1]].link.pre == list[i] && list[i + 1] != list[i]
  {
    DistinctPrefix(list, i);
    FreedOneMore(kvs, list[..i], list[i]);
    assert KvLinks(kvs)[list[i]] == LinkAt(list, i);
    if i + 1 < |list| {
      assert KvLinks(kvs)[list[i + 1]] == LinkAt(list, i + 1);
    }
  }

  // ---------- claiming slots ----------

  lemma ClaimKv(h: Heap, y: nat, slot: KvSlot)
    requires Ok(h) && y < MAX_KEYVALUES && !h.kvs[y].used && slot.used && slot.link == UNLINKED
    ensures OkBut(h.(kvs := h.kvs[y := slot]), NONE, y)
  {
    var g := h.(kvs := h.kvs[y := slot]);
    assert KvOk(h, y, NONE);
    assert KvLinks(g.kvs) == KvLinks(h.kvs);
    forall f | 0 <= f < MAX_FILES ensures FileOk(g, f) { assert FileOk(h, f); }
    forall x | 0 <= x < MAX_SECTIONS ensures SecOk(g, x, NONE) { assert SecOk(h, x, NONE); }
    forall w | 0 <= w < MAX_KEYVALUES ensures KvOk(g, w, y) { assert KvOk(h, w, NONE); }
  }

  lemma ClaimSec(h: Heap, x: nat, slot: SecSlot)
    requires Ok(h) && x < MAX_SECTIONS && !h.secs[x].used && slot.used && slot.link == UNLINKED && slot.head == NONE
    ensures OkBut(h.(secs := h.secs[x := slot]), x, NONE)
  {
    var g := h.(secs := h.secs[x := slot]);
    assert SecOk(h, x, NONE);
    assert SecLinks(g.secs) == SecLinks(h.secs);
    forall f | 0 <= f < MAX_FILES ensures FileOk(g, f) { assert FileOk(h, f); }
    forall z | 0 <= z < MAX_SECTIONS ensures SecOk(g, z, x) { assert SecOk(h, z, NONE); }
    forall w | 0 <= w < MAX_KEYVALUES ensures KvOk(g, w, NONE) { assert KvOk(h, w, NONE); }
  }

  // ---------- what an operation leaves ----------

  ghost function Meaning(h: Heap, f: int): Ini {
    if InRange(h) && 0 <= f < MAX_FILES then Content(h, f) else []
  }

  /** Every other file keeps its slot and its contents; file f keeps its name. */
  ghost predicate Others(h: Heap, g: Heap, f: nat) {
    && |h.files| == |g.files| == MAX_FILES
    && (forall e | 0 <= e < MAX_FILES && e != f :: g.files[e] == h.files[e] && Meaning(g, e) == Meaning(h, e))
    && (f < MAX_FILES ==> g.files[f].used == h.files[f].used && g.files[f].name == h.files[f].name)
  }

  ghost predicate Rewritten(disk: map<string, string>, disk': map<string, string>, name: string, op: Op, ret: int) {
    if name !in disk then ret == NO_EXIST && disk' == disk
    else
      match FileStep(disk[name], op)
      case (None, code) => ret == code && disk' == disk
      case (Some(text), code) => ret == code && disk' == disk[name := text]
  }

  /** One operation on one file: a code of the index step and nothing changed, or no space and nothing changed,
      or the index step done and the file rewritten. */
  ghost predicate Outcome(m: Ini, n: Ini, disk: map<string, string>, disk': map<string, string>, name: string, op: Op, ret: int) {
    var (m1, code) := IndexStep(m, op);
    if OutOfSpace(ret) then n == m && disk' == disk && (code == 0 || code == FORMAT_ERROR)
    else if code < 0 then ret == code && n == m && disk' == disk
    else n == m1 && Rewritten(disk, disk', name, op, ret)
  }

  // The three ways to an outcome.
  lemma DoneOutcome(m: Ini, n: Ini, disk: map<string, string>, disk': map<string, string>, name: string, op: Op, ret: int)
    requires IndexStep(m, op) == (n, 0) && Rewritten(disk, disk', name, op, ret) && FORMAT_ERROR <= ret <= 1
    ensures Outcome(m, n, disk, disk', name, op, ret)
  {
  }

  lemma RefusedOutcome(m: Ini, disk: map<string, string>, name: string, op: Op, ret: int)
    requires IndexStep(m, op).1 == ret < 0
    ensures Outcome(m, m, disk, disk, name, op, ret)
  {
  }

  lemma NoSpaceOutcome(m: Ini, disk: map<string, string>, name: string, op: Op, ret: int)
    requires OutOfSpace(ret) && (IndexStep(m, op).1 == 0 || IndexStep(m, op).1 == FORMAT_ERROR)
    ensures Outcome(m, m, disk, disk, name, op, ret)
  {
  }

  /** An operation that had space, on a file that exists, is Apply. */
  lemma OutcomeIsApply(m: Ini, n: Ini, disk: map<string, string>, disk': map<string, string>, name: string, op: Op, ret: int)
    requires Outcome(m, n, disk, disk', name, op, ret) && !OutOfSpace(ret) && name in disk
    ensures name in disk' && Apply(Db(m, disk[name]), op) == (Db(n, disk'[name]), ret)
    ensures forall other | other in disk && other != name :: other in disk' && disk'[other] == disk[other]
  {
    ApplyIs(Db(m, disk[name]), op);
  }

  /** A clean name that no section of m has. */
  ghost predicate NewSection(m: Ini, s: string) {
    CleanName(s) && FindSection(m, s) < 0
  }

  /** What adding a section does to the disk with no key left: the header is written in front, code 0. */
  ghost predicate HeaderInFrontOf(disk: map<string, string>, disk': map<string, string>, name: string, s: string, ret: int) {
    if OutOfSpace(ret) then disk' == disk
    else if name !in disk then ret == NO_EXIST && disk' == disk
    else ret == 0 && disk' == disk[name := "[" + s + "]\n\n" + disk[name]]
  }

  /** And with a key left, if the file agreed with its index: nothing, and the code is 0. */
  ghost predicate UntouchedFor(m: Ini, disk: map<string, string>, disk': map<string, string>, name: string, ret: int) {
    (name in disk ==> Coherent(Db(m, disk[name]))) ==>
      disk' == disk && (OutOfSpace(ret) || ret == if name in disk then 0 else NO_EXIST)
  }

  lemma KeyLeftKeepsText(db: Db, s: string, kv: (string, string))
    requires Coherent(db) && NewSection(db.index, s)
    ensures AddKeyText(db.text, s, kv.0, kv.1) == Some(db.text)
  {
    var m: Ini :| Loads(db.text, m) && Unique(m) && AsMap(m) == AsMap(db.index);
    FindSectionIsLookup(m, s);
    FindSectionIsLookup(db.index, s);
    NameParsedBackExactly(s);
    PairLeftWritesNothing(db.text, m, s, s, kv);
  }

  lemma NewSectionOutcome(m: Ini, n: Ini, disk: map<string, string>, disk': map<string, string>, name: string, s: string,
                          pair: Option<(string, string)>, ret: int)
    requires NewSection(m, s) && Outcome(m, n, disk, disk', name, AddSection(s, pair), ret)
    ensures pair == None ==> HeaderInFrontOf(disk, disk', name, s, ret)
    ensures pair.Some? ==> UntouchedFor(m, disk, disk', name, ret)
  {
    NameParsedBackExactly(s);
    if pair.Some? && name in disk && Coherent(Db(m, disk[name])) {
      KeyLeftKeepsText(Db(m, disk[name]), s, pair.value);
      assert disk[name := disk[name]] == disk;
    }
  }

  lemma FoundSection(h: Heap, f: nat, name: string, i: int)
    requires InRange(h) && f < MAX_FILES && -1 <= i < |h.secLists[f]|
    requires 0 <= i ==> h.secs[h.secLists[f][i]].name == name
    requires forall j | 0 <= j < (if i < 0 then |h.secLists[f]| else i) :: h.secs[h.secLists[f][j]].name != name
    ensures FindSection(Content(h, f), name) == i
  {
    var m := Content(h, f);
    assert forall j | 0 <= j < |m| :: m[j].name == h.secs[h.secLists[f][j]].name;
  }

  lemma FoundKey(h: Heap, x: nat, key: string, i: int)
    requires InRange(h) && x < MAX_SECTIONS && -1 <= i < |h.kvLists[x]|
    requires 0 <= i ==> h.kvs[h.kvLists[x][i]].key == key
    requires forall j | 0 <= j < (if i < 0 then |h.kvLists[x]| else i) :: h.kvs[h.kvLists[x][j]].key != key
    ensures FindEntry(Entries(h, x), key) == i
  {
    var es := Entries(h, x);
    assert forall j | 0 <= j < |es| :: es[j].key == h.kvs[h.kvLists[x][j]].key;
  }

  lemma FileNext(h: Heap, f: nat, ps: int, pk: int)
    requires OkBut(h, ps, pk) && f < MAX_FILES
    ensures NextSec(h.secs, h.files[f].head, h.secLists[f])
  {
    assert FileOk(h, f);
    ChainNextSec(h.secs, h.files[f].head, h.secLists[f]);
  }

  lemma SecNext(h: Heap, x: nat, ps: int, pk: int)
    requires OkBut(h, ps, pk) && x < MAX_SECTIONS
    ensures NextKv(h.kvs, h.secs[x].head, h.kvLists[x])
  {
    assert SecOk(h, x, ps);
    ChainNextKv(h.kvs, h.secs[x].head, h.kvLists[x]);
  }

  lemma ClaimedSection(h: Heap, x: nat, f: nat)
    requires OkBut(h, x, NONE) && x < MAX_SECTIONS && f < MAX_FILES
    ensures x !in h.secLists[f] && h.secs[x].link == UNLINKED
  {
    assert SecOk(h, x, x) && FileOk(h, f);
  }

  lemma ClaimedKeyvalue(h: Heap, y: nat, f: nat, i: nat)
    requires OkBut(h, NONE, y) && InRange(h) && y < MAX_KEYVALUES && f < MAX_FILES && i < |h.secLists[f]|
    ensures var x := h.secLists[f][i]; y !in h.kvLists[x] && h.kvs[y].link == UNLINKED && h.secOwner[x] == f
  {
    assert KvOk(h, y, y) && FileOk(h, f);
    assert SecOk(h, h.secLists[f][i], NONE);
  }

  /** A claimed section slot whose name is new: linking it is the loader's step. */
  lemma SectionLoaded(h: Heap, f: nat, x: nat, slot: SecSlot, line: string)
    requires Ok(h) && f < MAX_FILES && h.files[f].used && x < MAX_SECTIONS && !h.secs[x].used
    requires Kind(line) == SectionLine && ParseName(line) == Some(slot.name)
    requires slot.used && slot.head == NONE && slot.link == UNLINKED
    requires FindSection(Meaning(h, f), slot.name) < 0
    ensures var c := h.(secs := h.secs[x := slot]);
            && InRange(c)
            && Ok(LinkSec(c, f, x)) && Others(h, LinkSec(c, f, x), f)
            && Step(Meaning(h, f), Read(line)) == Some(Meaning(LinkSec(c, f, x), f))
  {
    var c := h.(secs := h.secs[x := slot]);
    OkInRange(h, NONE, NONE);
    SameSlotsContent(h, h.kvs, c.secs);
    ClaimSec(h, x, slot);
    LinkSecOk(c, f, x);
    LinkSecContent(c, f, x);
    assert Read(line) == Head(slot.name);
  }

  lemma KeyvalueLoaded(h: Heap, f: nat, y: nat, slot: KvSlot)
    requires Ok(h) && f < MAX_FILES && y < MAX_KEYVALUES && !h.kvs[y].used && h.secLists[f] != []
    requires slot.used && slot.link == UNLINKED
    requires var m := Meaning(h, f); m != [] && FindEntry(m[|m| - 1].entries, slot.key) < 0
    ensures var c := h.(kvs := h.kvs[y := slot]);
            var x := h.secLists[f][|h.secLists[f]| - 1];
            && InRange(c) && 0 <= x < MAX_SECTIONS
            && Ok(LinkKv(c, x, y)) && Others(h, LinkKv(c, x, y), f)
            && Step(Meaning(h, f), Pair(slot.key, slot.value)) == Some(Meaning(LinkKv(c, x, y), f))
  {
    var c := h.(kvs := h.kvs[y := slot]);
    var j := |h.secLists[f]| - 1;
    OkInRange(h, NONE, NONE);
    SameSlotsContent(h, c.kvs, h.secs);
    ClaimKv(h, y, slot);
    ClaimedKeyvalue(c, y, f, j);
    LinkKvOk(c, h.secLists[f][j], y);
    LinkKvContent(c, f, j, y);
  }

  // A claim does not change what is found on the lists.
  lemma FoundInClaim(h: Heap, c: Heap, f: nat, name: string, i: int)
    requires Ok(h) && InRange(h) && c == h.(secs := c.secs) && |c.secs| == MAX_SECTIONS && f < MAX_FILES
    requires forall z | 0 <= z < MAX_SECTIONS && h.secs[z].used :: c.secs[z] == h.secs[z]
    requires -1 <= i < |c.secLists[f]| && (0 <= i ==> c.secs[c.secLists[f][i]].name == name)
    requires forall j | 0 <= j < (if i < 0 then |c.secLists[f]| else i) :: c.secs[c.secLists[f][j]].name != name
    ensures FindSection(Meaning(h, f), name) == i
  {
    SameSlotsContent(h, h.kvs, c.secs);
    FoundSection(c, f, name, i);
  }

  lemma FoundKeyInClaim(h: Heap, c: Heap, x: nat, key: string, i: int)
    requires Ok(h) && InRange(h) && c == h.(kvs := c.kvs) && |c.kvs| == MAX_KEYVALUES && x < MAX_SECTIONS
    requires forall w | 0 <= w < MAX_KEYVALUES && h.kvs[w].used :: c.kvs[w] == h.kvs[w]
    requires -1 <= i < |c.kvLists[x]| && (0 <= i ==> c.kvs[c.kvLists[x][i]].key == key)
    requires forall j | 0 <= j < (if i < 0 then |c.kvLists[x]| else i) :: c.kvs[c.kvLists[x][j]].key != key
    ensures FindEntry(Entries(h, x), key) == i
  {
    SameSlotsContent(h, c.kvs, h.secs);
    FoundKey(c, x, key, i);
  }

  // Texts of free slots apart, nothing changed.
  lemma NothingLoaded(h: Heap, g: Heap, f: nat)
    requires Ok(h) && SameKvs(h.kvs, g.kvs) && SameSecs(h.secs, g.secs) && g == h.(kvs := g.kvs, secs := g.secs)
    requires f < MAX_FILES
    ensures Ok(g) && Others(h, g, f) && Meaning(g, f) == Meaning(h, f)
  {
    OkInRange(h, NONE, NONE);
    SameSlots(h, g.kvs, g.secs);
  }

  lemma OthersTrans(a: Heap, b: Heap, c: Heap, f: nat)
    requires Others(a, b, f) && Others(b, c, f)
    ensures Others(a, c, f)
  {
  }

  // ---------- each operation on the heap is the index step ----------

  // Section i of file f is called s.
  ghost predicate SectionIs(h: Heap, f: nat, s: string, i: int) {
    InRange(h) && f < MAX_FILES && -1 <= i < |h.secLists[f]| && FindSection(Content(h, f), s) == i
  }

  // Key j of section i of file f is k.
  ghost predicate KeyIs(h: Heap, f: nat, s: string, i: int, k: string, j: int) {
    && SectionIs(h, f, s, i) && 0 <= i
    && -1 <= j < |h.kvLists[h.secLists[f][i]]|
    && FindEntry(Entries(h, h.secLists[f][i]), k) == j
  }

  lemma UpdateDone(h: Heap, f: nat, s: string, i: int, k: string, j: int, v: string)
    requires Ok(h) && KeyIs(h, f, s, i, k, j) && 0 <= j
    ensures var g := SetKv(h, h.kvLists[h.secLists[f][i]][j], v);
            Ok(g) && Others(h, g, f) && IndexStep(Meaning(h, f), Update(s, k, v)) == (Meaning(g, f), 0)
  {
    SetKvOk(h, h.kvLists[h.secLists[f][i]][j], v);
    SetKvContent(h, f, i, j, v);
  }

  lemma AddDone(h: Heap, f: nat, s: string, i: int, k: string, v: string, y: nat, slot: KvSlot)
    requires Ok(h) && KeyIs(h, f, s, i, k, -1) && y < MAX_KEYVALUES && !h.kvs[y].used
    requires slot.used && slot.link == UNLINKED && ParseKeyValue(k + "=" + v) == Some((slot.key, slot.value))
    ensures var c := h.(kvs := h.kvs[y := slot]);
            && InRange(c)
            && var g := LinkKv(c, h.secLists[f][i], y);
               Ok(g) && Others(h, g, f) && IndexStep(Meaning(h, f), AddKey(s, k, v)) == (Meaning(g, f), 0)
  {
    var c := h.(kvs := h.kvs[y := slot]);
    SameSlotsContent(h, c.kvs, h.secs);
    ClaimKv(h, y, slot);
    ClaimedKeyvalue(c, y, f, i);
    LinkKvOk(c, h.secLists[f][i], y);
    LinkKvContent(c, f, i, y);
  }

  lemma AddSectionDone(h: Heap, f: nat, s: string, pair: Option<(string, string)>, x: nat, slot: SecSlot)
    requires Ok(h) && SectionIs(h, f, s, -1) && h.files[f].used && x < MAX_SECTIONS && !h.secs[x].used
    requires slot.used && slot.head == NONE && slot.link == UNLINKED && ParseName("[" + s + "]") == Some(slot.name)
    ensures var c := h.(secs := h.secs[x := slot]);
            && InRange(c)
            && var g := LinkSec(c, f, x);
               Ok(g) && Others(h, g, f) && IndexStep(Meaning(h, f), AddSection(s, pair)) == (Meaning(g, f), 0)
  {
    var c := h.(secs := h.secs[x := slot]);
    SameSlotsContent(h, h.kvs, c.secs);
    ClaimSec(h, x, slot);
    LinkSecOk(c, f, x);
    LinkSecContent(c, f, x);
  }

  lemma DeleteKeyDone(h: Heap, f: nat, s: string, i: int, k: string, j: int)
    requires Ok(h) && KeyIs(h, f, s, i, k, j) && 0 <= j
    ensures var g := UnlinkKv(h, h.secLists[f][i], j);
            Ok(g) && Others(h, g, f) && IndexStep(Meaning(h, f), DeleteKey(s, k)) == (Meaning(g, f), 0)
  {
    UnlinkKvOk(h, h.secLists[f][i], j);
    UnlinkKvContent(h, f, i, j);
  }

  lemma DeleteSectionDone(h: Heap, f: nat, s: string, key: Option<string>, i: int)
    requires Ok(h) && SectionIs(h, f, s, i) && 0 <= i
    ensures var g := UnlinkSec(h, f, i);
            Ok(g) && Others(h, g, f) && IndexStep(Meaning(h, f), DeleteSection(s, key)) == (Meaning(g, f), 0)
  {
    UnlinkSecOk(h, f, i);
    UnlinkSecContent(h, f, i);
  }

  // A file slot claimed or named, with no sections yet.
  lemma ClaimFile(h: Heap, f: nat, slot: FileSlot)
    requires Ok(h) && f < MAX_FILES && !h.files[f].used && slot.head == h.files[f].head
    ensures var g := h.(files := h.files[f := slot]);
            && Ok(g) && Meaning(g, f) == []
            && forall e | 0 <= e < MAX_FILES && e != f :: Meaning(g, e) == Meaning(h, e)
  {
    var g := h.(files := h.files[f := slot]);
    assert FileOk(h, f);
    forall e | 0 <= e < MAX_FILES ensures FileOk(g, e) { assert FileOk(h, e); }
    forall x | 0 <= x < MAX_SECTIONS ensures SecOk(g, x, NONE) { assert SecOk(h, x, NONE); }
    forall w | 0 <= w < MAX_KEYVALUES ensures KvOk(g, w, NONE) { assert KvOk(h, w, NONE); }
    OkInRange(h, NONE, NONE);
    OkInRange(g, NONE, NONE);
    forall e | 0 <= e < MAX_FILES ensures Content(g, e) == Content(h, e) {
      forall x | 0 <= x < MAX_SECTIONS ensures Entries(g, x) == Entries(h, x) {
      }
      SameContent(h, g, e);
    }
  }

  // ---------- closing, one section at a time ----------

  function ClosedKvs(h: Heap, sections: seq<int>): seq<KvSlot>
    requires Sized(h)
  {
    seq(MAX_KEYVALUES, y requires 0 <= y < MAX_KEYVALUES => if h.kvOwner[y] in sections then FREE_KV else h.kvs[y])
  }

  function FreedSecs(secs: seq<SecSlot>, list: seq<int>): seq<SecSlot> {
    seq(|secs|, x requires 0 <= x < |secs| => if x in list then FREE_SEC else secs[x])
  }

  lemma FreedSecsOneMore(secs: seq<SecSlot>, list: seq<int>, x: nat)
    requires x < |secs|
    ensures FreedSecs(secs, list + [x]) == FreedSecs(secs, list)[x := FREE_SEC]
  {
  }

  lemma FreedSecsNext(secs: seq<SecSlot>, head: int, list: seq<int>, i: nat)
    requires Chain(SecLinks(secs), head, list) && i < |list|
    ensures var x := list[i];
            && 0 <= x < |secs|
            && FreedSecs(secs, list[..i])[x] == secs[x] && secs[x].link == LinkAt(list, i)
            && FreedSecs(secs, list[..i + 1]) == FreedSecs(secs, list[..i])[x := FREE_SEC]
    ensures i + 1 < |list| ==>
              0 <= list[i + 1] < |secs| && FreedSecs(secs, list[..i])[list[i + 1]].link.pre == list[i] && list[i + 1] != list[i]
  {
    DistinctPrefix(list, i);
    FreedSecsOneMore(secs, list[..i], list[i]);
    assert SecLinks(secs)[list[i]] == LinkAt(list, i);
    if i + 1 < |list| {
      assert SecLinks(secs)[list[i + 1]] == LinkAt(list, i + 1);
    }
  }

  lemma OwnedKeys(h: Heap, x: nat)
    requires Ok(h) && x < MAX_SECTIONS
    ensures forall y | 0 <= y < MAX_KEYVALUES :: y in h.kvLists[x] <==> h.kvOwner[y] == x
  {
    assert SecOk(h, x, NONE);
    forall y | 0 <= y < MAX_KEYVALUES ensures y in h.kvLists[x] <==> h.kvOwner[y] == x {
      assert KvOk(h, y, NONE);
    }
  }

  lemma ClosedKvsChain(h: Heap, x: nat, sections: seq<int>)
    requires Ok(h) && x < MAX_SECTIONS && x !in sections
    ensures Chain(KvLinks(ClosedKvs(h, sections)), h.secs[x].head, h.kvLists[x])
  {
    assert SecOk(h, x, NONE);
    ChainFrame(KvLinks(h.kvs), KvLinks(ClosedKvs(h, sections)), h.secs[x].head, h.kvLists[x]);
  }

  lemma ClosedKvsOneMore(h: Heap, x: nat, sections: seq<int>)
    requires Ok(h) && x < MAX_SECTIONS
    ensures Freed(ClosedKvs(h, sections), h.kvLists[x]) == ClosedKvs(h, sections + [x])
  {
    OwnedKeys(h, x);
  }

  lemma ClosedKvsNext(h: Heap, f: nat, i: nat)
    requires Ok(h) && InRange(h) && f < MAX_FILES && i < |h.secLists[f]|
    ensures var list := h.secLists[f];
            var x := list[i];
            var ks := ClosedKvs(h, list[..i]);
            && Chain(KvLinks(ks), h.secs[x].head, h.kvLists[x])
            && Freed(ks, h.kvLists[x]) == ClosedKvs(h, list[..i + 1])
  {
    var list := h.secLists[f];
    assert FileOk(h, f);
    DistinctPrefix(list, i);
    ClosedKvsChain(h, list[i], list[..i]);
    ClosedKvsOneMore(h, list[i], list[..i]);
  }

  lemma AllClosed(h: Heap, f: nat)
    requires Ok(h) && InRange(h) && f < MAX_FILES
    ensures var list := h.secLists[f];
            ClosedKvs(h, list) == CloseFile(h, f).kvs && FreedSecs(h.secs, list) == CloseFile(h, f).secs
  {
    var list := h.secLists[f];
    assert FileOk(h, f);
    forall x | 0 <= x < MAX_SECTIONS ensures x in list <==> h.secOwner[x] == f {
      assert SecOk(h, x, NONE);
    }
    forall y | 0 <= y < MAX_KEYVALUES ensures h.kvOwner[y] in list <==> OfFile(h, f, y) {
      assert KvOk(h, y, NONE);
    }
  }

  // A claimed key slot is ready for the linking code.
  lemma ReadyToLink(h: Heap, c: Heap, f: nat, i: nat, y: nat)
    requires Ok(h) && f < MAX_FILES && y < MAX_KEYVALUES && !h.kvs[y].used && i < |h.secLists[f]|
    requires |c.kvs| == MAX_KEYVALUES && c == h.(kvs := h.kvs[y := c.kvs[y]]) && c.kvs[y].used && c.kvs[y].link == UNLINKED
    ensures InRange(c)
    ensures var x := c.secLists[f][i];
            && 0 <= x < MAX_SECTIONS && NextKv(c.kvs, c.secs[x].head, c.kvLists[x]) && y !in c.kvLists[x]
  {
    ClaimKv(h, y, c.kvs[y]);
    OkInRange(c, NONE, y);
    ClaimedKeyvalue(c, y, f, i);
    SecNext(c, c.secLists[f][i], NONE, y);
  }

  lemma NoSections(h: Heap, f: nat)
    requires Ok(h) && InRange(h) && f < MAX_FILES && !h.files[f].used
    ensures Content(h, f) == []
  {
    assert FileOk(h, f);
  }

  // The neighbours of key j of section x, as the unlinking code meets them.
  lemma LinksAround(h: Heap, x: nat, j: nat)
    requires Ok(h) && InRange(h) && x < MAX_SECTIONS && j < |h.kvLists[x]|
    ensures var list := h.kvLists[x];
            && h.kvs[list[j]].link == LinkAt(list, j) && Distinct(list)
            && (j == 0 ==> h.secs[x].head == list[j])
            && (forall i | 0 <= i < |list| :: h.kvs[list[i]].link == LinkAt(list, i))
  {
    var list := h.kvLists[x];
    assert SecOk(h, x, NONE);
    forall i | 0 <= i < |list| ensures h.kvs[list[i]].link == LinkAt(list, i) {
      assert KvLinks(h.kvs)[list[i]] == LinkAt(list, i);
    }
  }

  lemma SecLinksAround(h: Heap, f: nat, i: nat)
    requires Ok(h) && InRange(h) && f < MAX_FILES && i < |h.secLists[f]|
    ensures var list := h.secLists[f];
            && h.secs[list[i]].link == LinkAt(list, i) && Distinct(list)
            && (i == 0 ==> h.files[f].head == list[i])
            && (forall j | 0 <= j < |list| :: h.secs[list[j]].link == LinkAt(list, j))
    ensures var x := h.secLists[f][i];
            Chain(KvLinks(h.kvs), h.secs[x].head, h.kvLists[x])
  {
    var list := h.secLists[f];
    assert FileOk(h, f) && SecOk(h, list[i], NONE);
    forall j | 0 <= j < |list| ensures h.secs[list[j]].link == LinkAt(list, j) {
      assert SecLinks(h.secs)[list[j]] == LinkAt(list, j);
    }
  }

  // What unlinking slot z's neighbour at index j leaves in slot z.
  function UnlinkedKv(h: Heap, x: nat, j: nat, z: nat): KvSlot
    requires InRange(h) && x < MAX_SECTIONS && j < |h.kvLists[x]| && z < MAX_KEYVALUES
  {
    if z == h.kvLists[x][j] then FREE_KV
    else h.kvs[z].(link := RemovedLinkOf(KvLinks(h.kvs), h.kvLists[x], j, z))
  }

  lemma UnlinkedKvs(h: Heap, x: nat, j: nat, kvs: seq<KvSlot>)
    requires Ok(h) && InRange(h) && x < MAX_SECTIONS && j < |h.kvLists[x]| && |kvs| == MAX_KEYVALUES
    requires forall z | 0 <= z < MAX_KEYVALUES :: kvs[z] == UnlinkedKv(h, x, j, z)
    ensures kvs == UnlinkKv(h, x, j).kvs
  {
    assert SecOk(h, x, NONE);
    forall z | 0 <= z < MAX_KEYVALUES ensures kvs[z] == UnlinkKv(h, x, j).kvs[z] {
      RemovedLink(KvLinks(h.kvs), h.secs[x].head, h.kvLists[x], j, z);
    }
  }

  lemma UnlinkedSecs(h: Heap, f: nat, i: nat, secs: seq<SecSlot>, kvs: seq<KvSlot>)
    requires Ok(h) && InRange(h) && f < MAX_FILES && i < |h.secLists[f]| && |secs| == MAX_SECTIONS
    requires forall z | 0 <= z < MAX_SECTIONS ::
               secs[z] == if z == h.secLists[f][i] then FREE_SEC
                          else h.secs[z].(link := RemovedLinkOf(SecLinks(h.secs), h.secLists[f], i, z))
    requires kvs == Freed(h.kvs, h.kvLists[h.secLists[f][i]])
    ensures secs == UnlinkSec(h, f, i).secs && kvs == UnlinkSec(h, f, i).kvs
  {
    var x := h.secLists[f][i];
    var c := ClearKeys(h, x);
    assert FileOk(h, f);
    OwnedKeys(h, x);
    assert SecLinks(c.secs) == SecLinks(h.secs);
    forall z | 0 <= z < MAX_SECTIONS ensures secs[z] == UnlinkSec(h, f, i).secs[z] {
      RemovedLink(SecLinks(h.secs), h.files[f].head, h.secLists[f], i, z);
    }
  }

  lemma UnlinkedHeap(h: Heap, f: nat, i: nat, files: seq<FileSlot>, secs: seq<SecSlot>, kvs: seq<KvSlot>)
    requires Ok(h) && InRange(h) && f < MAX_FILES && i < |h.secLists[f]| && |secs| == MAX_SECTIONS
    requires forall z | 0 <= z < MAX_SECTIONS ::
               secs[z] == if z == h.secLists[f][i] then FREE_SEC
                          else h.secs[z].(link := RemovedLinkOf(SecLinks(h.secs), h.secLists[f], i, z))
    requires files == if i == 0 then h.files[f := h.files[f].(head := LinkAt(h.secLists[f], 0).last)] else h.files
    requires kvs == Freed(h.kvs, h.kvLists[h.secLists[f][i]])
    ensures var g := UnlinkSec(h, f, i); files == g.files && secs == g.secs && kvs == g.kvs
  {
    UnlinkedSecs(h, f, i, secs, kvs);
  }

  lemma NoneClosed(h: Heap, f: nat)
    requires Ok(h) && InRange(h) && f < MAX_FILES
    ensures var list := h.secLists[f];
            && ClosedKvs(h, list[..0]) == h.kvs && FreedSecs(h.secs, list[..0]) == h.secs
            && FileOk(h, f) && list[..|list|] == list
            && h.files[f].head == if list == [] then NONE else list[0]
    ensures forall i | 0 <= i < |h.secLists[f]| :: h.secLists[f][i] != NONE
  {
    assert FileOk(h, f);
    assert h.secLists[f][..0] == [];
  }

  lemma SectionChain(h: Heap, x: nat)
    requires Ok(h) && x < MAX_SECTIONS
    ensures Chain(KvLinks(h.kvs), h.secs[x].head, h.kvLists[x])
  {
    assert SecOk(h, x, NONE);
  }

  // Parsing a key/value line, by its two texts.
  lemma ParsedTexts(line: string)
    requires var e := First(line, '='); 0 < e < BodyEnd(line)
    ensures var e, stop := First(line, '='), BodyEnd(line);
            var key := line[KeySpan(line, e).0..KeySpan(line, e).1];
            var value := line[ValueSpan(line, e, stop).0..ValueSpan(line, e, stop).1];
            ParseKeyValue(line) == if key == "" || value == "" then None else Some((key, value))
  {
  }

  lemma NoneLinked(h: Heap)
    requires Sized(h)
    requires forall f | 0 <= f < MAX_FILES :: h.files[f] == FREE_FILE && h.secLists[f] == []
    requires forall x | 0 <= x < MAX_SECTIONS :: h.secs[x] == FREE_SEC && h.kvLists[x] == [] && h.secOwner[x] == NONE
    requires forall y | 0 <= y < MAX_KEYVALUES :: h.kvs[y] == FREE_KV && h.kvOwner[y] == NONE
    ensures Ok(h)
  {
    forall f | 0 <= f < MAX_FILES ensures FileOk(h, f) {}
    forall x | 0 <= x < MAX_SECTIONS ensures SecOk(h, x, NONE) {}
    forall y | 0 <= y < MAX_KEYVALUES ensures KvOk(h, y, NONE) {}
  }

  /** With nothing open, a section added to the closed file 0 breaks the heap. */
  lemma ClosedFileBreaksTheHeap(h: Heap)
    requires Sized(h)
    requires forall f | 0 <= f < MAX_FILES :: h.files[f] == FREE_FILE && h.secLists[f] == []
    requires forall x | 0 <= x < MAX_SECTIONS :: h.secs[x] == FREE_SEC && h.kvLists[x] == [] && h.secOwner[x] == NONE
    requires forall y | 0 <= y < MAX_KEYVALUES :: h.kvs[y] == FREE_KV && h.kvOwner[y] == NONE
    ensures var c := h.(secs := h.secs[0 := SecSlot(true, "ab", NONE, UNLINKED)]);
            Ok(h) && InRange(c) && !Ok(LinkSec(c, 0, 0))
  {
    NoneLinked(h);
    ClaimSec(h, 0, SecSlot(true, "ab", NONE, UNLINKED));
    var c := h.(secs := h.secs[0 := SecSlot(true, "ab", NONE, UNLINKED)]);
    OkInRange(c, 0, NONE);
    LinkSecOkExactly(c, 0, 0);
  }

  // The next line of a file on its way into the index.
  lemma NextLineLoads(m: Ini, lines: seq<string>, i: nat)
    requires i < |lines|
    ensures Load(m, ReadAll(lines[i..])) ==
            match Step(m, Read(lines[i])) case None => None case Some(n) => Load(n, ReadAll(lines[i + 1..]))
  {
    assert ReadAll(lines[i..])[0] == Read(lines[i]);
    assert ReadAll(lines[i..])[1..] == ReadAll(lines[i + 1..]);
  }

  // The first i lines load to m, and what is left loads on to what all of them do.
  ghost predicate ReadSoFar(lines: seq<string>, i: nat, m: Ini)
    requires i <= |lines|
  {
    Load(m, ReadAll(lines[i..])) == Load([], ReadAll(lines)) && Load([], ReadAll(lines[..i])) == Some(m)
  }

  lemma LoadsOneMore(lines: seq<string>, i: nat, m: Ini)
    requires i < |lines| && Load([], ReadAll(lines[..i])) == Some(m)
    ensures Load([], ReadAll(lines[..i + 1])) == Step(m, Read(lines[i]))
  {
    var event := Read(lines[i]);
    assert ReadAll(lines[..i + 1]) == ReadAll(lines[..i]) + [event];
    LoadAppend([], ReadAll(lines[..i]), [event]);
    assert [event][1..] == [];
  }

  // A line that finds no slot is where the reading of the file runs out.
  lemma OutAtLine(first: Heap, h: Heap, f: nat, lines: seq<string>, i: nat)
    requires f < MAX_FILES && Others(first, h, f) && i < |lines| && Load([], ReadAll(lines[..i])) == Some(Meaning(h, f))
    ensures NoSlot(h, lines[i]) ==> RunsOut(lines, |Meaning(first, 1 - f)|, KeyCount(Meaning(first, 1 - f)))
  {
    if NoSlot(h, lines[i]) {
      assert LineRunsOut(lines, i, |Meaning(first, 1 - f)|, KeyCount(Meaning(first, 1 - f)));
    }
  }

  // With file f closed the counts are those of the other file.
  lemma OtherCounts(h: Heap, f: nat)
    requires Ok(h) && f < MAX_FILES && !h.files[f].used
    ensures Meaning(h, f) == []
    ensures AllSections(h) == |Meaning(h, 1 - f)| && AllKeys(h) == KeyCount(Meaning(h, 1 - f))
  {
    assert FileOk(h, f);
  }

  class Store {
    const files: array<FileSlot>
    const secs: array<SecSlot>
    const kvs: array<KvSlot>
    var disk: map<string, string>
    ghost var secLists: seq<seq<int>>
    ghost var kvLists: seq<seq<int>>
    ghost var secOwner: seq<int>
    ghost var kvOwner: seq<int>
    // the strings handed to the pool so far, and the codes of those it refused
    ghost var stored: seq<string>
    ghost var refusals: seq<int>

    ghost function View(): Heap
      reads this, files, secs, kvs
    {
      Heap(files[..], secs[..], kvs[..], secLists, kvLists, secOwner, kvOwner)
    }

    /** The slot-heap invariant. */
    ghost predicate Valid()
      reads this, files, secs, kvs
    {
      Ok(View())
    }

    /** The sections of file f. */
    ghost function Index(f: int): Ini
      reads this, files, secs, kvs
    {
      Meaning(View(), f)
    }

    constructor (disk: map<string, string>)
      ensures Valid() && this.disk == disk && fresh(files) && fresh(secs) && fresh(kvs)
      ensures stored == [] && refusals == []
      ensures forall f | 0 <= f < MAX_FILES :: Index(f) == [] && !files[f].used
    {
      files := new FileSlot[MAX_FILES](_ => FREE_FILE);
      secs := new SecSlot[MAX_SECTIONS](_ => FREE_SEC);
      kvs := new KvSlot[MAX_KEYVALUES](_ => FREE_KV);
      this.disk := disk;
      secLists := seq(MAX_FILES, _ => []);
      kvLists := seq(MAX_SECTIONS, _ => []);
      secOwner := seq(MAX_SECTIONS, _ => NONE);
      kvOwner := seq(MAX_KEYVALUES, _ => NONE);
      stored, refusals := [], [];
      new;
      NoneLinked(View());
    }

    /** The pool is modelled apart: storing a string succeeds or reports one of the two pool errors. */
    method StorageCharMemory(src: string) returns (ret: int)
      modifies this`stored, this`refusals, this`refusals
      ensures stored == old(stored) + [src] && refusals == Refusals(old(refusals), ret)
      ensures ret == 0 || ret == MEMORY_POOL_ERROR || ret == MEMORY_POOL_OUT
    {
      if * {
        ret := 0;
      } else if * {
        ret := MEMORY_POOL_ERROR;
      } else {
        ret := MEMORY_POOL_OUT;
      }
      stored, refusals := stored + [src], Refusals(refusals, ret);
    }

    method GetIndexIniKeyvalue() returns (i: int)
      requires kvs.Length == MAX_KEYVALUES
      modifies kvs
      ensures i == NUM_OUT_ARRAY || 0 <= i < MAX_KEYVALUES
      ensures i == NUM_OUT_ARRAY ==> kvs[..] == old(kvs[..]) && forall y | 0 <= y < MAX_KEYVALUES :: kvs[y].used
      ensures i != NUM_OUT_ARRAY ==>
                && !old(kvs[i].used) && (forall y | 0 <= y < i :: kvs[y].used)
                && kvs[..] == old(kvs[..])[i := old(kvs[i]).(used := true)]
    {
      i := 0;
      while i < MAX_KEYVALUES
        invariant 0 <= i <= MAX_KEYVALUES
        invariant forall y | 0 <= y < i :: kvs[y].used
        invariant kvs[..] == old(kvs[..])
      {
        if !kvs[i].used {
          kvs[i] := kvs[i].(used := true);
          return;
        }
        i := i + 1;
      }
      i := NUM_OUT_ARRAY;
    }

    method GetIndexIniSection() returns (i: int)
      requires secs.Length == MAX_SECTIONS
      modifies secs
      ensures i == NUM_OUT_ARRAY || 0 <= i < MAX_SECTIONS
      ensures i == NUM_OUT_ARRAY ==> secs[..] == old(secs[..]) && forall x | 0 <= x < MAX_SECTIONS :: secs[x].used
      ensures i != NUM_OUT_ARRAY ==>
                && !old(secs[i].used) && (forall x | 0 <= x < i :: secs[x].used)
                && secs[..] == old(secs[..])[i := old(secs[i]).(used := true)]
    {
      i := 0;
      while i < MAX_SECTIONS
        invariant 0 <= i <= MAX_SECTIONS
        invariant forall x | 0 <= x < i :: secs[x].used
        invariant secs[..] == old(secs[..])
      {
        if !secs[i].used {
          secs[i] := secs[i].(used := true);
          return;
        }
        i := i + 1;
      }
      i := NUM_OUT_ARRAY;
    }

    method GetIndexIniFile() returns (i: int)
      requires files.Length == MAX_FILES
      modifies files
      ensures i == NUM_OUT_ARRAY || 0 <= i < MAX_FILES
      ensures i == NUM_OUT_ARRAY ==> files[..] == old(files[..]) && forall f | 0 <= f < MAX_FILES :: files[f].used
      ensures i != NUM_OUT_ARRAY ==>
                && !old(files[i].used) && (forall f | 0 <= f < i :: files[f].used)
                && files[..] == old(files[..])[i := old(files[i]).(used := true)]
    {
      i := 0;
      while i < MAX_FILES
        invariant 0 <= i <= MAX_FILES
        invariant forall f | 0 <= f < i :: files[f].used
        invariant files[..] == old(files[..])
      {
        if !files[i].used {
          files[i] := files[i].(used := true);
          return;
        }
        i := i + 1;
      }
      i := NUM_OUT_ARRAY;
    }

    // ---------- reading one line into a claimed slot ----------

    // The two strings of a key/value line, or the first error; the slot keeps what was stored before it.
    method FillKeyVal(line: string, equ: nat, comma: int, index: nat) returns (ret: int)
      requires kvs.Length == MAX_KEYVALUES && index < MAX_KEYVALUES
      requires equ == First(line, '=') && comma == First(line, ';') && 0 < equ < BodyEnd(line)
      modifies this`stored, this`refusals, kvs
      ensures refusals == Refusals(old(refusals), ret)
      ensures ret == 0 ==> ParseKeyValue(line).Some?
      ensures ret == 0 ==> stored == old(stored) + [ParseKeyValue(line).value.0, ParseKeyValue(line).value.1]
      ensures ret == 0 || ret == FORMAT_ERROR || ret == MEMORY_POOL_ERROR || ret == MEMORY_POOL_OUT
      ensures ret == FORMAT_ERROR ==> ParseKeyValue(line) == None
      ensures ret == 0 ==> ParseKeyValue(line).Some?
      ensures ret == 0 ==>
                kvs[index] == old(kvs[index]).(key := ParseKeyValue(line).value.0, value := ParseKeyValue(line).value.1)
      ensures kvs[index].used == old(kvs[index].used) && kvs[index].link == old(kvs[index].link)
      ensures forall y | 0 <= y < MAX_KEYVALUES && y != index :: kvs[y] == old(kvs[y])
    {
      ParsedTexts(line);
      var key := KeyText(line, equ);
      if key == "" {
        return FORMAT_ERROR;
      }
      ret := StorageCharMemory(key);
      if ret < 0 {
        return;
      }
      kvs[index] := kvs[index].(key := key);
      var value := ValueText(line, equ, if 0 <= comma then comma else |line|);
      if value == "" {
        return FORMAT_ERROR;
      }
      ret := StorageCharMemory(value);
      if ret == 0 {
        kvs[index] := kvs[index].(value := value);
      }
    }

    // The text of the key, and of the value; empty when there is none.
    method KeyText(line: string, equ: nat) returns (key: string)
      requires equ <= |line|
      ensures key == line[KeySpan(line, equ).0..KeySpan(line, equ).1]
    {
      var p := SkipBlanks(line, 0, equ);
      var q := SkipBlanksBack(line, p, equ, false);
      key := line[p..q];
    }

    method ValueText(line: string, equ: nat, stop: nat) returns (value: string)
      requires equ < stop <= |line|
      ensures value == line[ValueSpan(line, equ, stop).0..ValueSpan(line, equ, stop).1]
    {
      var p := SkipBlanks(line, equ + 1, stop);
      var q := SkipBlanksBack(line, p, stop, true);
      value := line[p..q];
    }

    method InitLineKeyVal(line: string) returns (ret: int)
      requires FreeKvs(kvs[..])
      modifies this`stored, this`refusals, kvs
      ensures refusals == Refusals(old(refusals), ret)
      ensures 0 <= ret ==> ParseKeyValue(line).Some?
      ensures 0 <= ret ==> stored == old(stored) + [ParseKeyValue(line).value.0, ParseKeyValue(line).value.1]
      ensures ret == NUM_OUT_ARRAY ==> forall y | 0 <= y < MAX_KEYVALUES :: old(kvs[..])[y].used
      ensures ret < 0 ==> SameKvs(old(kvs[..]), kvs[..]) && (OutOfSpace(ret) || ret == FORMAT_ERROR)
      ensures ret == FORMAT_ERROR ==> ParseKeyValue(line) == None
      ensures 0 <= ret ==> ret < MAX_KEYVALUES && !old(kvs[ret].used) && ParseKeyValue(line).Some?
      ensures 0 <= ret ==>
                var (k, v) := ParseKeyValue(line).value;
                kvs[..] == old(kvs[..])[ret := KvSlot(true, k, v, UNLINKED)]
    {
      var equ := StrFirstConstChar(line, '=');
      var comma := StrFirstConstChar(line, ';');
      if 0 <= comma && comma < equ {
        return FORMAT_ERROR;
      }
      if equ <= 0 {
        return FORMAT_ERROR;
      }
      var index := GetIndexIniKeyvalue();
      if index < 0 {
        return index;
      }
      ret := FillKeyVal(line, equ, comma, index);
      if ret < 0 {
        kvs[index] := kvs[index].(used := false);
      } else {
        ret := index;
      }
    }

    method InitLineSection(line: string) returns (ret: int)
      requires FreeSecs(secs[..])
      modifies this`stored, this`refusals, secs
      ensures refusals == Refusals(old(refusals), ret)
      ensures 0 <= ret ==> ParseName(line).Some? && stored == old(stored) + [ParseName(line).value]
      ensures ret == NUM_OUT_ARRAY ==> forall x | 0 <= x < MAX_SECTIONS :: old(secs[..])[x].used
      ensures ret < 0 ==> SameSecs(old(secs[..]), secs[..]) && (OutOfSpace(ret) || ret == FORMAT_ERROR)
      ensures ret == FORMAT_ERROR ==> ParseName(line) == None
      ensures 0 <= ret ==> ret < MAX_SECTIONS && !old(secs[ret].used) && ParseName(line).Some?
      ensures 0 <= ret ==> secs[..] == old(secs[..])[ret := SecSlot(true, ParseName(line).value, NONE, UNLINKED)]
    {
      var name := ScanName(line);
      ret := ClaimSection(name);
    }

    // A section slot is claimed for the name, and given back if there is none or it does not fit the pool.
    method ClaimSection(name: Option<string>) returns (ret: int)
      requires FreeSecs(secs[..])
      modifies this`stored, this`refusals, secs
      ensures refusals == Refusals(old(refusals), ret)
      ensures 0 <= ret ==> name.Some? && stored == old(stored) + [name.value]
      ensures ret == NUM_OUT_ARRAY ==> forall x | 0 <= x < MAX_SECTIONS :: old(secs[..])[x].used
      ensures ret < 0 ==> SameSecs(old(secs[..]), secs[..]) && (OutOfSpace(ret) || ret == FORMAT_ERROR)
      ensures ret == FORMAT_ERROR ==> name == None
      ensures 0 <= ret ==> ret < MAX_SECTIONS && !old(secs[ret].used) && name.Some?
      ensures 0 <= ret ==> secs[..] == old(secs[..])[ret := SecSlot(true, name.value, NONE, UNLINKED)]
    {
      var index := GetIndexIniSection();
      if index < 0 {
        return index;
      }
      if name.Some? {
        ret := StorageCharMemory(name.value);
        if ret == 0 {
          secs[index] := secs[index].(name := name.value);
          ret := index;
        }
      } else {
        ret := FORMAT_ERROR;
      }
      if ret < 0 {
        secs[index] := secs[index].(used := false);
      }
    }

    // ---------- walking the lists ----------

    /** The key slot with this key on the list from head, or NONE. */
    method FindKeyvalueUnsect(head: int, key: string, ghost list: seq<int>) returns (p: int, ghost i: int)
      requires NextKv(kvs[..], head, list)
      ensures -1 <= i < |list| && p == if i < 0 then NONE else list[i]
      ensures 0 <= i ==> kvs[list[i]].key == key
      ensures forall j | 0 <= j < (if i < 0 then |list| else i) :: kvs[list[j]].key != key
    {
      p := head;
      i := 0;
      while p != NONE
        invariant 0 <= i <= |list| && p == if i < |list| then list[i] else NONE
        invariant forall j | 0 <= j < i :: kvs[list[j]].key != key
        decreases |list| - i
      {
        if kvs[p].key == key {
          return;
        }
        p := kvs[p].link.last;
        i := i + 1;
      }
      i := -1;
    }

    /** The section slot with this name on the list from head, or NONE. */
    method FindInifileSection(head: int, name: string, ghost list: seq<int>) returns (p: int, ghost i: int)
      requires NextSec(secs[..], head, list)
      ensures -1 <= i < |list| && p == if i < 0 then NONE else list[i]
      ensures 0 <= i ==> secs[list[i]].name == name
      ensures forall j | 0 <= j < (if i < 0 then |list| else i) :: secs[list[j]].name != name
    {
      p := head;
      i := 0;
      while p != NONE
        invariant 0 <= i <= |list| && p == if i < |list| then list[i] else NONE
        invariant forall j | 0 <= j < i :: secs[list[j]].name != name
        decreases |list| - i
      {
        if secs[p].name == name {
          return;
        }
        p := secs[p].link.last;
        i := i + 1;
      }
      i := -1;
    }

    method LastKeyvalue(head: int, ghost list: seq<int>) returns (p: int)
      requires NextKv(kvs[..], head, list) && list != []
      ensures p == list[|list| - 1]
    {
      p := head;
      ghost var i := 0;
      assert 0 <= list[0];
      while kvs[p].link.last != NONE
        invariant 0 <= i < |list| && p == list[i]
        decreases |list| - i
      {
        assert kvs[..][list[i]].link.last == if i + 1 < |list| then list[i + 1] else NONE;
        p := kvs[p].link.last;
        i := i + 1;
      }
      assert kvs[..][list[i]] == kvs[p];
    }

    method LastSection(head: int, ghost list: seq<int>) returns (p: int)
      requires NextSec(secs[..], head, list) && list != []
      ensures p == list[|list| - 1]
    {
      p := head;
      ghost var i := 0;
      assert 0 <= list[0];
      while secs[p].link.last != NONE
        invariant 0 <= i < |list| && p == list[i]
        decreases |list| - i
      {
        assert secs[..][list[i]].link.last == if i + 1 < |list| then list[i + 1] else NONE;
        p := secs[p].link.last;
        i := i + 1;
      }
      assert secs[..][list[i]] == secs[p];
    }

    // ---------- freeing a list of keys ----------

    /** The loop of delete_ini_section and destroy_ini_source: exactly the slots on the list are freed. */
    method FreeKeys(head: int, ghost list: seq<int>)
      requires Chain(KvLinks(kvs[..]), head, list)
      modifies kvs
      ensures kvs[..] == Freed(old(kvs[..]), list)
    {
      ghost var before := kvs[..];
      var p := head;
      ghost var i := 0;
      assert list[..0] == [];
      while p != NONE
        invariant 0 <= i <= |list| && p == if i < |list| then list[i] else NONE
        invariant kvs[..] == Freed(before, list[..i])
        decreases |list| - i
      {
        FreedNext(before, head, list, i);
        ghost var ks := kvs[..];
        kvs[p] := KvSlot(kvs[p].used, "", "", Link(NONE, kvs[p].link.last));
        if kvs[p].link.last != NONE {
          p := kvs[p].link.last;
          var front := kvs[p].link.pre;
          kvs[front] := KvSlot(false, kvs[front].key, kvs[front].value, Link(kvs[front].link.pre, NONE));
        } else {
          kvs[p] := kvs[p].(used := false);
          p := NONE;
        }
        assert kvs[..] == ks[list[i] := FREE_KV];
        i := i + 1;
      }
      assert list[..|list|] == list;
    }

    // ---------- linking ----------

    method LinkKeyvalue(x: int, y: int, ghost list: seq<int>)
      requires 0 <= x < secs.Length && 0 <= y < kvs.Length
      requires NextKv(kvs[..], secs[x].head, list) && y !in list && kvs[y].link == UNLINKED
      modifies kvs, secs
      ensures kvs[..] == LinkedKvs(old(kvs[..]), list, y) && secs[..] == HeadedSecs(old(secs[..]), x, list, y)
    {
      if secs[x].head == NONE {
        secs[x] := secs[x].(head := y);
      } else {
        var e := LastKeyvalue(secs[x].head, list);
        kvs[e] := kvs[e].(link := Link(kvs[e].link.pre, y));
        kvs[y] := kvs[y].(link := Link(e, NONE));
      }
    }

    method LinkSection(f: int, x: int, ghost list: seq<int>)
      requires 0 <= f < files.Length && 0 <= x < secs.Length
      requires NextSec(secs[..], files[f].head, list) && x !in list && secs[x].link == UNLINKED
      modifies secs, files
      ensures secs[..] == LinkedSecs(old(secs[..]), list, x) && files[..] == HeadedFiles(old(files[..]), f, list, x)
    {
      if files[f].head == NONE {
        files[f] := files[f].(head := x);
      } else {
        var e := LastSection(files[f].head, list);
        secs[e] := secs[e].(link := Link(secs[e].link.pre, x));
        secs[x] := secs[x].(link := Link(e, NONE));
      }
    }

    // The code of both callers that links a claimed slot behind the last one, with the lists kept in step.
    method LinkLastKeyvalue(x: int, y: int)
      requires InRange(View()) && 0 <= x < MAX_SECTIONS && 0 <= y < MAX_KEYVALUES
      requires NextKv(kvs[..], secs[x].head, kvLists[x]) && y !in kvLists[x] && kvs[y].link == UNLINKED
      modifies this`kvLists, this`kvOwner, kvs, secs
      ensures View() == LinkKv(old(View()), x, y)
    {
      LinkKeyvalue(x, y, kvLists[x]);
      kvLists := kvLists[x := kvLists[x] + [y]];
      kvOwner := kvOwner[y := x];
    }

    method LinkLastSection(f: int, x: int)
      requires InRange(View()) && 0 <= f < MAX_FILES && 0 <= x < MAX_SECTIONS
      requires NextSec(secs[..], files[f].head, secLists[f]) && x !in secLists[f] && secs[x].link == UNLINKED
      modifies this`secLists, this`secOwner, secs, files
      ensures View() == LinkSec(old(View()), f, x)
    {
      LinkSection(f, x, secLists[f]);
      secLists := secLists[f := secLists[f] + [x]];
      secOwner := secOwner[x := f];
    }

    // ---------- loading a line ----------

    method LoadSectionLine(f: nat, line: string) returns (ret: int)
      requires Valid() && f < MAX_FILES && files[f].used && Kind(line) == SectionLine
      modifies this`stored, this`refusals, this`secLists, this`secOwner, secs, files
      ensures Valid() && Others(old(View()), View(), f)
      ensures refusals == Refusals(old(refusals), ret)
      ensures ret == NUM_OUT_ARRAY ==> forall x | 0 <= x < MAX_SECTIONS :: old(secs[..])[x].used
      ensures 0 <= ret ==> Step(old(Index(f)), Read(line)) == Some(Index(f))
      ensures ret < 0 ==> Index(f) == old(Index(f)) && (OutOfSpace(ret) || ret == FORMAT_ERROR)
      ensures ret == FORMAT_ERROR ==> Step(old(Index(f)), Read(line)) == None
    {
      ghost var h := View();
      OkInRange(h, NONE, NONE);
      OkFree(h);
      ret := InitLineSection(line);
      if ret < 0 {
        NothingLoaded(h, View(), f);
      } else {
        ret := LinkSectionIfNew(f, ret, line, h);
      }
    }

    // The claimed section slot x is linked behind the sections of f, or freed again if its name is there already.
    method LinkSectionIfNew(f: nat, x: int, line: string, ghost h: Heap) returns (ret: int)
      requires Ok(h) && InRange(h) && f < MAX_FILES && h.files[f].used && 0 <= x < MAX_SECTIONS && secs.Length == MAX_SECTIONS
      requires files.Length == MAX_FILES && View() == h.(secs := h.secs[x := secs[x]]) && !h.secs[x].used
      requires Kind(line) == SectionLine && ParseName(line) == Some(secs[x].name)
      requires secs[x] == SecSlot(true, secs[x].name, NONE, UNLINKED)
      modifies this`secLists, this`secOwner, secs, files
      ensures Valid() && Others(h, View(), f) && (ret == x || ret == FORMAT_ERROR)
      ensures ret == x ==> Step(Meaning(h, f), Read(line)) == Some(Index(f))
      ensures ret == FORMAT_ERROR ==> Index(f) == Meaning(h, f) && Step(Meaning(h, f), Read(line)) == None
    {
      ghost var c := View();
      ghost var slot := secs[x];
      ClaimSec(h, x, slot);
      FileNext(c, f, x, NONE);
      var found, i := FindInifileSection(files[f].head, secs[x].name, secLists[f]);
      FoundInClaim(h, c, f, slot.name, i);
      if found != NONE {
        ret := FORMAT_ERROR;
        OkFree(h);
        secs[x] := secs[x].(used := false);
        NothingLoaded(h, View(), f);
      } else {
        ret := x;
        ClaimedSection(c, x, f);
        OkInRange(c, x, NONE);
        LinkLastSection(f, x);
        SectionLoaded(h, f, x, slot, line);
      }
    }

    // The claimed slot y is linked behind the keys of x, or freed again if its key is there already.
    method LinkIfNew(f: nat, x: int, y: int, ghost h: Heap) returns (ret: int)
      requires Ok(h) && InRange(h) && f < MAX_FILES && h.secLists[f] != [] && x == h.secLists[f][|h.secLists[f]| - 1]
      requires 0 <= y < MAX_KEYVALUES && kvs.Length == MAX_KEYVALUES && !h.kvs[y].used
      requires View() == h.(kvs := h.kvs[y := kvs[y]]) && kvs[y].used && kvs[y].link == UNLINKED
      modifies this`kvLists, this`kvOwner, kvs, secs
      ensures Valid() && Others(h, View(), f)
      ensures ret == y || ret == FORMAT_ERROR
      ensures ret == y ==> Step(Meaning(h, f), Pair(old(kvs[y].key), old(kvs[y].value))) == Some(Index(f))
      ensures ret == FORMAT_ERROR ==>
                Index(f) == Meaning(h, f) && Step(Meaning(h, f), Pair(old(kvs[y].key), old(kvs[y].value))) == None
    {
      ghost var c := View();
      ghost var slot := kvs[y];
      ClaimKv(h, y, slot);
      OkInRange(c, NONE, y);
      SecNext(c, x, NONE, y);
      var found, i := FindKeyvalueUnsect(secs[x].head, kvs[y].key, kvLists[x]);
      FoundKeyInClaim(h, c, x, slot.key, i);
      if found != NONE {
        ret := FORMAT_ERROR;
        kvs[y] := kvs[y].(used := false);
        OkFree(h);
        NothingLoaded(h, View(), f);
      } else {
        LinkNew(f, x, y, h);
        ret := y;
      }
    }

    method LinkNew(f: nat, x: int, y: int, ghost h: Heap)
      requires Ok(h) && InRange(h) && f < MAX_FILES && h.secLists[f] != [] && x == h.secLists[f][|h.secLists[f]| - 1]
      requires 0 <= y < MAX_KEYVALUES && kvs.Length == MAX_KEYVALUES && !h.kvs[y].used
      requires View() == h.(kvs := h.kvs[y := kvs[y]]) && kvs[y].used && kvs[y].link == UNLINKED
      requires OkBut(View(), NONE, y) && InRange(View()) && NextKv(kvs[..], secs[x].head, kvLists[x])
      requires FindEntry(Entries(h, x), kvs[y].key) < 0
      modifies this`kvLists, this`kvOwner, kvs, secs
      ensures Valid() && Others(h, View(), f)
      ensures Step(Meaning(h, f), Pair(old(kvs[y].key), old(kvs[y].value))) == Some(Index(f))
    {
      ghost var slot := kvs[y];
      ClaimedKeyvalue(View(), y, f, |h.secLists[f]| - 1);
      LinkLastKeyvalue(x, y);
      KeyvalueLoaded(h, f, y, slot);
    }

    method LoadKeyValueLine(f: nat, line: string) returns (ret: int)
      requires Valid() && f < MAX_FILES && Kind(line) == KeyValueLine
      modifies this`stored, this`refusals, this`kvLists, this`kvOwner, kvs, secs
      ensures Valid() && Others(old(View()), View(), f)
      ensures refusals == Refusals(old(refusals), ret)
      ensures ret == NUM_OUT_ARRAY ==> forall y | 0 <= y < MAX_KEYVALUES :: old(kvs[..])[y].used
      ensures 0 <= ret ==> Step(old(Index(f)), Read(line)) == Some(Index(f))
      ensures ret < 0 ==> Index(f) == old(Index(f)) && (OutOfSpace(ret) || ret == FORMAT_ERROR)
      ensures ret == FORMAT_ERROR ==> Step(old(Index(f)), Read(line)) == None
    {
      ghost var h := View();
      OkInRange(h, NONE, NONE);
      OkFree(h);
      FileNext(h, f, NONE, NONE);
      if files[f].head == NONE {
        return FORMAT_ERROR;
      }
      var x := LastSection(files[f].head, secLists[f]);
      ret := InitLineKeyVal(line);
      if ret < 0 {
        NothingLoaded(h, View(), f);
      } else {
        ret := LinkIfNew(f, x, ret, h);
      }
    }

    method InitEveryLineInifile(f: nat, line: string) returns (ret: int)
      requires Valid() && f < MAX_FILES && files[f].used
      modifies this`stored, this`refusals, this`secLists, this`secOwner, this`kvLists, this`kvOwner, files, secs, kvs
      ensures Valid() && Others(old(View()), View(), f)
      ensures refusals == Refusals(old(refusals), ret) && (ret == NUM_OUT_ARRAY ==> NoSlot(old(View()), line))
      ensures 0 <= ret ==> Step(old(Index(f)), Read(line)) == Some(Index(f))
      ensures ret < 0 ==> Index(f) == old(Index(f)) && (OutOfSpace(ret) || ret == FORMAT_ERROR)
      ensures ret == FORMAT_ERROR ==> Step(old(Index(f)), Read(line)) == None
    {
      SlotsFull(View());
      var kind := JudgeLineKind(line);
      match kind {
        case SectionLine => ret := LoadSectionLine(f, line);
        case KeyValueLine => ret := LoadKeyValueLine(f, line);
        case NoteLine => ret := 0;
        case BlankLine => ret := 0;
        case ErrorLine => ret := FORMAT_ERROR;
      }
    }

    method ReadAnalysIniFile(f: nat, name: string) returns (ret: int)
      requires Valid() && f < MAX_FILES && files[f].used && Index(f) == []
      modifies this`stored, this`refusals, this`secLists, this`secOwner, this`kvLists, this`kvOwner, files, secs, kvs
      ensures Valid() && Others(old(View()), View(), f) && refusals == Refusals(old(refusals), ret)
      ensures 0 <= ret ==> name in disk && LoadText([], disk[name]) == Some(Index(f))
      ensures ret < 0 ==> OutOfSpace(ret) || ret == FORMAT_ERROR || ret == NO_EXIST
      ensures ret == NO_EXIST <==> name !in disk
      ensures ret == FORMAT_ERROR ==> LoadText([], disk[name]) == None
      ensures ret == NUM_OUT_ARRAY ==>
                RunsOut(SplitLines(disk[name]), |old(Index(1 - f))|, KeyCount(old(Index(1 - f))))
    {
      if name !in disk {
        return NO_EXIST;
      }
      ret := 0;
      ghost var first := View();
      var lines := SplitLines(disk[name]);
      var i := 0;
      assert lines[0..] == lines;
      while i < |lines|
        invariant 0 <= i <= |lines| && 0 <= ret && refusals == Refusals(old(refusals), ret)
        invariant Valid() && files[f].used && Others(first, View(), f)
        invariant ReadSoFar(lines, i, Index(f))
      {
        ret := ReadLine(f, lines, i, first);
        if ret < 0 {
          return;
        }
        i := i + 1;
      }
      assert lines[..i] == lines;
    }

    // One turn of the loop: line i.
    method ReadLine(f: nat, lines: seq<string>, i: nat, ghost first: Heap) returns (ret: int)
      requires Valid() && f < MAX_FILES && files[f].used && Others(first, View(), f)
      requires i < |lines| && ReadSoFar(lines, i, Index(f))
      modifies this`stored, this`refusals, this`secLists, this`secOwner, this`kvLists, this`kvOwner, files, secs, kvs
      ensures Valid() && files[f].used && Others(first, View(), f) && refusals == Refusals(old(refusals), ret)
      ensures 0 <= ret ==> ReadSoFar(lines, i + 1, Index(f))
      ensures ret < 0 ==> OutOfSpace(ret) || ret == FORMAT_ERROR
      ensures ret == FORMAT_ERROR ==> Load([], ReadAll(lines)) == None
      ensures ret == NUM_OUT_ARRAY ==> RunsOut(lines, |Meaning(first, 1 - f)|, KeyCount(Meaning(first, 1 - f)))
    {
      ghost var m, h := Index(f), View();
      NextLineLoads(m, lines, i);
      LoadsOneMore(lines, i, m);
      OutAtLine(first, h, f, lines, i);
      ret := InitEveryLineInifile(f, lines[i]);
      OthersTrans(first, h, View(), f);
    }

    // One section of a file being closed, its keys first; next is the section behind it.
    method FreeNext(fd: nat, p: int, ghost h: Heap, ghost i: nat) returns (next: int)
      requires Ok(h) && InRange(h) && fd < MAX_FILES && i < |h.secLists[fd]| && p == h.secLists[fd][i]
      requires kvs[..] == ClosedKvs(h, h.secLists[fd][..i]) && secs[..] == FreedSecs(h.secs, h.secLists[fd][..i])
      requires kvLists == h.kvLists && FileOk(h, fd)
      modifies secs, kvs
      ensures kvs[..] == ClosedKvs(h, h.secLists[fd][..i + 1]) && secs[..] == FreedSecs(h.secs, h.secLists[fd][..i + 1])
      ensures next == if i + 1 < |h.secLists[fd]| then h.secLists[fd][i + 1] else NONE
    {
      FreedSecsNext(h.secs, h.files[fd].head, h.secLists[fd], i);
      ClosedKvsNext(h, fd, i);
      FreeKeys(secs[p].head, kvLists[p]);
      next := FreeSection(p);
    }

    // The walk over the sections of a file.
    method FreeSections(fd: nat, ghost h: Heap)
      requires Valid() && fd < MAX_FILES && h == View() && InRange(h)
      modifies secs, kvs
      ensures kvs[..] == CloseFile(h, fd).kvs && secs[..] == CloseFile(h, fd).secs
    {
      ghost var list := secLists[fd];
      ghost var i := 0;
      NoneClosed(h, fd);
      var p := files[fd].head;
      while p != NONE
        invariant 0 <= i <= |list| && p == if i < |list| then list[i] else NONE
        invariant kvs[..] == ClosedKvs(h, list[..i]) && secs[..] == FreedSecs(h.secs, list[..i])
        decreases |list| - i
      {
        p := FreeNext(fd, p, h, i);
        i := i + 1;
      }
      assert list[..|list|] == list;
      AllClosed(h, fd);
    }

    /** destroy_ini_source: exactly the slots of the file are freed. */
    method DestroyIniSource(fd: int)
      requires Valid()
      modifies this`secLists, this`secOwner, this`kvLists, this`kvOwner, files, secs, kvs
      ensures Valid()
      ensures View() == if 0 <= fd < MAX_FILES && old(files[fd].used) && InRange(old(View())) then CloseFile(old(View()), fd) else old(View())
    {
      ghost var h := View();
      OkInRange(h, NONE, NONE);
      if fd < 0 || fd >= MAX_FILES {
        return;
      }
      if files[fd].used {
        FreeSections(fd, h);
        files[fd] := FREE_FILE;
        secLists, kvLists := CloseFile(h, fd).secLists, CloseFile(h, fd).kvLists;
        secOwner, kvOwner := CloseFile(h, fd).secOwner, CloseFile(h, fd).kvOwner;
        CloseFileOk(h, fd);
      }
    }

    // One turn of the section loop: p is cleared and freed, the next section is returned.
    method FreeSection(p: int) returns (next: int)
      requires 0 <= p < secs.Length
      requires var n := secs[p].link.last; n != NONE ==> 0 <= n < secs.Length && n != p && secs[n].link.pre == p
      modifies secs
      ensures secs[..] == old(secs[..])[p := FREE_SEC] && next == old(secs[p].link.last)
    {
      secs[p] := SecSlot(secs[p].used, "", NONE, Link(NONE, secs[p].link.last));
      next := secs[p].link.last;
      if next != NONE {
        var front := secs[next].link.pre;
        secs[front] := SecSlot(false, secs[front].name, secs[front].head, Link(secs[front].link.pre, NONE));
      } else {
        secs[p] := secs[p].(used := false);
      }
    }

    // ---------- the public operations ----------

    /** Opens a file and keeps the first len characters of its name, the whole name when len is not positive. */
    method InitIniFile(filename: Option<string>, len: int) returns (ret: int)
      requires Valid() && (filename.Some? ==> len <= |filename.value|)
      modifies this`stored, this`refusals, this`secLists, this`secOwner, this`kvLists, this`kvOwner, files, secs, kvs
      ensures Valid() && refusals == Refusals(old(refusals), ret)
      ensures filename == None ==> ret == ERROR_PARAMETER && View() == old(View())
      ensures ret < 0 ==> forall e | 0 <= e < MAX_FILES :: Index(e) == old(Index(e)) && files[e].used == old(files[e].used)
      ensures ret < 0 ==> forall e | 0 <= e < MAX_FILES && old(files[e].used) :: files[e] == old(files[e])
      ensures filename.Some? && ret < 0 ==> OutOfSpace(ret) || ret == NO_EXIST || ret == FORMAT_ERROR
      ensures filename.Some? && (forall e | 0 <= e < MAX_FILES :: old(files[e].used)) ==> ret == NUM_OUT_ARRAY && View() == old(View())
      ensures ret == NUM_OUT_ARRAY ==>
                || (forall e | 0 <= e < MAX_FILES :: old(files[e].used))
                || (filename.value in disk && RunsOut(SplitLines(disk[filename.value]), old(AllSections(View())), old(AllKeys(View()))))
      ensures ret == NO_EXIST ==> filename.value !in disk
      ensures ret == FORMAT_ERROR ==> filename.value in disk && LoadText([], disk[filename.value]) == None
      ensures 0 <= ret ==> ret < MAX_FILES && !old(files[ret].used) && files[ret].used
      ensures 0 <= ret ==> files[ret].name == if len <= 0 then filename.value else filename.value[..len]
      ensures 0 <= ret ==> filename.value in disk && LoadText([], disk[filename.value]) == Some(Index(ret))
      ensures 0 <= ret ==>
                forall e | 0 <= e < MAX_FILES && e != ret :: Index(e) == old(Index(e)) && files[e] == old(files[e])
    {
      if filename == None {
        return ERROR_PARAMETER;
      }
      ghost var h := View();
      var f := GetIndexIniFile();
      if f < 0 {
        return f;
      }
      ret := OpenClaimed(f, filename.value, if len <= 0 then filename.value else filename.value[..len], h);
    }

    // The claimed file gets its name and is read, or is closed again.
    method OpenClaimed(f: nat, filename: string, name: string, ghost h: Heap) returns (ret: int)
      requires Ok(h) && f < MAX_FILES && files.Length == MAX_FILES && !h.files[f].used
      requires View() == h.(files := h.files[f := files[f]]) && files[f].used && files[f].head == h.files[f].head
      modifies this`stored, this`refusals, this`secLists, this`secOwner, this`kvLists, this`kvOwner, files, secs, kvs
      ensures Valid() && refusals == Refusals(old(refusals), ret)
      ensures forall e | 0 <= e < MAX_FILES && e != f :: Index(e) == Meaning(h, e) && files[e] == h.files[e]
      ensures 0 <= ret ==> ret == f && files[f].used && files[f].name == name
      ensures 0 <= ret ==> filename in disk && LoadText([], disk[filename]) == Some(Index(f))
      ensures ret < 0 ==> Index(f) == Meaning(h, f) && !files[f].used
      ensures ret < 0 ==> OutOfSpace(ret) || ret == FORMAT_ERROR || ret == NO_EXIST
      ensures ret == NO_EXIST ==> filename !in disk
      ensures ret == FORMAT_ERROR ==> filename in disk && LoadText([], disk[filename]) == None
      ensures ret == NUM_OUT_ARRAY ==> filename in disk && RunsOut(SplitLines(disk[filename]), AllSections(h), AllKeys(h))
    {
      ClaimFile(h, f, files[f]);
      ret := StorageCharMemory(name);
      if ret == 0 {
        files[f] := files[f].(name := name);
        ret := LoadClaimed(f, filename, h);
        if 0 <= ret {
          return f;
        }
      }
      AbandonFile(f, h);
    }

    // The claimed and named file is read.
    method LoadClaimed(f: nat, filename: string, ghost h: Heap) returns (ret: int)
      requires Ok(h) && f < MAX_FILES && files.Length == MAX_FILES && !h.files[f].used
      requires View() == h.(files := h.files[f := files[f]]) && files[f].used && files[f].head == h.files[f].head
      modifies this`stored, this`refusals, this`secLists, this`secOwner, this`kvLists, this`kvOwner, files, secs, kvs
      ensures Valid() && refusals == Refusals(old(refusals), ret) && files[f].used && files[f].name == old(files[f].name)
      ensures forall e | 0 <= e < MAX_FILES && e != f :: Index(e) == Meaning(h, e) && files[e] == h.files[e]
      ensures 0 <= ret ==> filename in disk && LoadText([], disk[filename]) == Some(Index(f))
      ensures ret < 0 ==> OutOfSpace(ret) || ret == FORMAT_ERROR || ret == NO_EXIST
      ensures ret == NO_EXIST <==> filename !in disk
      ensures ret == FORMAT_ERROR ==> LoadText([], disk[filename]) == None
      ensures ret == NUM_OUT_ARRAY ==> RunsOut(SplitLines(disk[filename]), AllSections(h), AllKeys(h))
    {
      ClaimFile(h, f, files[f]);
      OtherCounts(h, f);
      ret := ReadAnalysIniFile(f, filename);
    }

    // The file claimed since h is closed again.
    method AbandonFile(f: nat, ghost h: Heap)
      requires Valid() && f < MAX_FILES && files[f].used
      requires Ok(h) && !h.files[f].used
      requires forall e | 0 <= e < MAX_FILES && e != f :: Index(e) == Meaning(h, e) && files[e] == h.files[e]
      modifies this`secLists, this`secOwner, this`kvLists, this`kvOwner, files, secs, kvs
      ensures Valid() && forall e | 0 <= e < MAX_FILES :: Index(e) == Meaning(h, e) && files[e].used == h.files[e].used
      ensures forall e | 0 <= e < MAX_FILES && e != f :: files[e] == h.files[e]
    {
      ghost var g := View();
      OkInRange(g, NONE, NONE);
      DestroyIniSource(f);
      CloseFileContent(g, f);
      OkInRange(h, NONE, NONE);
      NoSections(h, f);
    }

    method GetValueOfKey(fd: int, p: Parameter) returns (value: Option<string>)
      requires Valid()
      ensures value == if 0 <= fd < MAX_FILES && p.section.Some? && p.key.Some?
                       then GetValue(Index(fd), p.section.value, p.key.value) else None
    {
      if fd < 0 || fd >= MAX_FILES || p.section == None || p.key == None {
        return None;
      }
      var x, y, i, j := FindSectionAndKey(fd, p.section.value, p.key.value);
      if x == NONE || y == NONE {
        return None;
      }
      return Some(kvs[y].value);
    }

    // The search every operation on a section starts with.
    method FindSectionOf(fd: nat, s: string) returns (x: int, ghost i: int)
      requires Valid() && fd < MAX_FILES
      ensures SectionIs(View(), fd, s, i) && x == (if i < 0 then NONE else secLists[fd][i]) && (x == NONE <==> i < 0)
    {
      ghost var h := View();
      OkInRange(h, NONE, NONE);
      FileNext(h, fd, NONE, NONE);
      x, i := FindInifileSection(files[fd].head, s, secLists[fd]);
      FoundSection(h, fd, s, i);
    }

    // The two searches every operation on a key starts with.
    method FindSectionAndKey(fd: nat, s: string, k: string) returns (x: int, y: int, ghost i: int, ghost j: int)
      requires Valid() && fd < MAX_FILES
      ensures SectionIs(View(), fd, s, i) && x == if i < 0 then NONE else secLists[fd][i]
      ensures i < 0 ==> y == NONE && j < 0
      ensures 0 <= i ==> KeyIs(View(), fd, s, i, k, j) && y == if j < 0 then NONE else kvLists[x][j]
    {
      ghost var h := View();
      OkInRange(h, NONE, NONE);
      FileNext(h, fd, NONE, NONE);
      x, i := FindInifileSection(files[fd].head, s, secLists[fd]);
      FoundSection(h, fd, s, i);
      y, j := NONE, -1;
      if x != NONE {
        SecNext(h, x, NONE, NONE);
        y, j := FindKeyvalueUnsect(secs[x].head, k, kvLists[x]);
        FoundKey(h, x, k, j);
      }
    }

    method RewriteIniFile(name: string, op: Op) returns (ret: int)
      modifies this`disk
      ensures Rewritten(old(disk), disk, name, op, ret) && FORMAT_ERROR <= ret <= 1
    {
      if name !in disk {
        return NO_EXIST;
      }
      var out: Option<string>;
      match op {
        case Update(s, k, v) => out, ret := UncodedUpdate(disk[name], s, k, v);
        case AddKey(s, k, v) => out, ret := UncodedAdd(disk[name], s, Some((k, v)));
        case AddSection(s, pair) => out, ret := UncodedAdd(disk[name], s, pair);
        case DeleteKey(s, k) => out, ret := RewriteAfterDelete(disk[name], s, Some(k));
        case DeleteSection(s, key) => out, ret := RewriteAfterDelete(disk[name], s, key);
      }
      if out.Some? {
        disk := disk[name := out.value];
      }
    }

    method UncodedUpdate(text: string, s: string, k: string, v: string) returns (out: Option<string>, ret: int)
      ensures (out, ret) == Coded(UpdateText(text, s, k, v))
    {
      out := RewriteAfterUpdate(text, s, k, v);
      ret := if out == None then FORMAT_ERROR else 0;
    }

    method UncodedAdd(text: string, s: string, pair: Option<(string, string)>) returns (out: Option<string>, ret: int)
      ensures (out, ret) == match pair case None => (Some(AddSectionText(text, s)), 0)
                                       case Some(kv) => Coded(AddKeyText(text, s, kv.0, kv.1))
    {
      out := RewriteAfterAdd(text, s, pair);
      ret := if out == None then FORMAT_ERROR else 0;
    }

    method UpdateValueOfKey(fd: int, p: Parameter) returns (ret: int)
      requires Valid()
      modifies this, kvs
      ensures Valid() && Others(old(View()), View(), if 0 <= fd then fd else MAX_FILES)
      ensures (fd < 0 || MAX_FILES <= fd || p.section == None || p.key == None || p.value == None) ==>
                ret == ERROR_PARAMETER && View() == old(View()) && disk == old(disk)
      ensures (0 <= fd < MAX_FILES && p.section.Some? && p.key.Some? && p.value.Some?) ==>
                Outcome(old(Index(fd)), Index(fd), old(disk), disk, old(files[fd].name),
                        Update(p.section.value, p.key.value, p.value.value), ret)
      ensures ret != NUM_OUT_ARRAY && refusals == Refusals(old(refusals), ret)
    {
      if fd < 0 || fd >= MAX_FILES || p.section == None || p.key == None || p.value == None {
        return ERROR_PARAMETER;
      }
      ret := UpdateKnown(fd, p.section.value, p.key.value, p.value.value);
    }

    // update_value_ofkey once its parameters are known to be there.
    method UpdateKnown(fd: nat, s: string, k: string, v: string) returns (ret: int)
      requires Valid() && fd < MAX_FILES
      modifies this, kvs
      ensures Valid() && Others(old(View()), View(), fd)
      ensures Outcome(old(Index(fd)), Index(fd), old(disk), disk, old(files[fd].name), Update(s, k, v), ret)
      ensures ret != NUM_OUT_ARRAY && refusals == Refusals(old(refusals), ret)
      ensures stored == old(stored) + if IndexStep(old(Index(fd)), Update(s, k, v)).1 == 0 then [v] else []
    {
      ghost var h := View();
      var x, y, i, j := FindSectionAndKey(fd, s, k);
      if x == NONE {
        return SECTION_NOFOUND;
      }
      if y == NONE {
        return KEYVALUE_NOFOUND;
      }
      UpdateDone(h, fd, s, i, k, j, v);
      ret := StorageCharMemory(v);
      if ret < 0 {
        return;
      }
      kvs[y] := kvs[y].(value := v);
      assert View() == SetKv(h, y, v);
      ret := RewriteIniFile(files[fd].name, Update(s, k, v));
    }

    method AddValueOfKey(fd: int, p: Parameter) returns (ret: int)
      requires Valid()
      modifies this, secs, kvs
      ensures Valid() && Others(old(View()), View(), if 0 <= fd then fd else MAX_FILES)
      ensures (fd < 0 || MAX_FILES <= fd || p.section == None || p.key == None || p.value == None) ==>
                ret == ERROR_PARAMETER && View() == old(View()) && disk == old(disk)
      ensures (0 <= fd < MAX_FILES && p.section.Some? && p.key.Some? && p.value.Some?) ==>
                Outcome(old(Index(fd)), Index(fd), old(disk), disk, old(files[fd].name),
                        AddKey(p.section.value, p.key.value, p.value.value), ret)
      ensures refusals == Refusals(old(refusals), ret) && (ret == NUM_OUT_ARRAY ==> old(AllKeys(View())) == 100)
    {
      if fd < 0 || fd >= MAX_FILES || p.section == None || p.key == None || p.value == None {
        return ERROR_PARAMETER;
      }
      ret := AddKnown(fd, p.section.value, p.key.value, p.value.value);
    }

    // add_value_ofkey once its parameters are known to be there.
    method AddKnown(fd: nat, s: string, k: string, v: string) returns (ret: int)
      requires Valid() && fd < MAX_FILES
      modifies this, secs, kvs
      ensures Valid() && Others(old(View()), View(), fd)
      ensures Outcome(old(Index(fd)), Index(fd), old(disk), disk, old(files[fd].name), AddKey(s, k, v), ret)
      ensures refusals == Refusals(old(refusals), ret) && (ret == NUM_OUT_ARRAY ==> old(AllKeys(View())) == 100)
    {
      ghost var m, op := Index(fd), AddKey(s, k, v);
      var x, y, i, j := FindSectionAndKey(fd, s, k);
      if x == NONE {
        RefusedOutcome(m, disk, files[fd].name, op, SECTION_NOFOUND);
        return SECTION_NOFOUND;
      }
      if y != NONE {
        RefusedOutcome(m, disk, files[fd].name, op, KEYVALUE_ALREAD);
        return KEYVALUE_ALREAD;
      }
      ret := AddToSection(fd, x, s, k, v, i);
      if ret < 0 {
        if OutOfSpace(ret) {
          NoSpaceOutcome(m, disk, files[fd].name, op, ret);
        } else {
          RefusedOutcome(m, disk, files[fd].name, op, ret);
        }
        return;
      }
      ret := RewriteIniFile(files[fd].name, AddKey(s, k, v));
      DoneOutcome(m, Index(fd), old(disk), disk, files[fd].name, op, ret);
    }

    // Prints the pair as one line, parses it into a claimed slot and links that behind the keys of section x.
    method AddToSection(fd: nat, x: int, s: string, k: string, v: string, ghost i: int) returns (ret: int)
      requires Valid() && KeyIs(View(), fd, s, i, k, -1) && x == secLists[fd][i]
      modifies this`stored, this`refusals, this`kvLists, this`kvOwner, secs, kvs
      ensures Valid() && Others(old(View()), View(), fd)
      ensures refusals == Refusals(old(refusals), ret) && (ret == NUM_OUT_ARRAY ==> old(AllKeys(View())) == 100)
      ensures 0 <= ret ==> ParseKeyValue(k + "=" + v).Some?
      ensures 0 <= ret ==> stored == old(stored) + [ParseKeyValue(k + "=" + v).value.0, ParseKeyValue(k + "=" + v).value.1]
      ensures ret < 0 ==> Index(fd) == old(Index(fd)) && (OutOfSpace(ret) || ret == FORMAT_ERROR)
      ensures ret < 0 ==> IndexStep(old(Index(fd)), AddKey(s, k, v)).1 == if ParseKeyValue(k + "=" + v) == None then FORMAT_ERROR else 0
      ensures ret == FORMAT_ERROR ==> ParseKeyValue(k + "=" + v) == None
      ensures 0 <= ret ==> IndexStep(old(Index(fd)), AddKey(s, k, v)) == (Index(fd), 0)
    {
      ghost var h := View();
      OkFree(h);
      SlotsFull(h);
      ret := InitLineKeyVal(k + "=" + v);
      if ret < 0 {
        NothingLoaded(h, View(), fd);
        return;
      }
      ghost var c := View();
      AddDone(h, fd, s, i, k, v, ret, kvs[ret]);
      ReadyToLink(h, c, fd, i, ret);
      LinkLastKeyvalue(x, ret);
    }

    method AddIniSection(fd: int, p: Parameter) returns (ret: int)
      requires Valid() && (0 <= fd < MAX_FILES ==> files[fd].used)
      modifies this, files, secs
      ensures Valid() && Others(old(View()), View(), if 0 <= fd then fd else MAX_FILES)
      ensures (fd < 0 || MAX_FILES <= fd || p.section == None) ==>
                ret == ERROR_PARAMETER && View() == old(View()) && disk == old(disk)
      ensures (0 <= fd < MAX_FILES && p.section.Some?) ==>
                Outcome(old(Index(fd)), Index(fd), old(disk), disk, old(files[fd].name),
                        AddSection(p.section.value, PairLeft(p)), ret)
      ensures refusals == Refusals(old(refusals), ret) && (ret == NUM_OUT_ARRAY ==> old(AllSections(View())) == 10)
      ensures (0 <= fd < MAX_FILES && p.section.Some? && p.key == None && NewSection(old(Index(fd)), p.section.value)) ==>
                HeaderInFrontOf(old(disk), disk, old(files[fd].name), p.section.value, ret)
      ensures (0 <= fd < MAX_FILES && p.section.Some? && p.key.Some? && NewSection(old(Index(fd)), p.section.value)) ==>
                UntouchedFor(old(Index(fd)), old(disk), disk, old(files[fd].name), ret)
    {
      if fd < 0 || fd >= MAX_FILES || p.section == None {
        return ERROR_PARAMETER;
      }
      ret := AddSectionKnown(fd, p.section.value, PairLeft(p));
      if NewSection(old(Index(fd)), p.section.value) {
        NewSectionOutcome(old(Index(fd)), Index(fd), old(disk), disk, old(files[fd].name), p.section.value, PairLeft(p), ret);
      }
    }

    // add_ini_section once its section is known to be given.
    method AddSectionKnown(fd: nat, s: string, pair: Option<(string, string)>) returns (ret: int)
      requires Valid() && fd < MAX_FILES && files[fd].used
      modifies this, files, secs
      ensures Valid() && Others(old(View()), View(), fd)
      ensures Outcome(old(Index(fd)), Index(fd), old(disk), disk, old(files[fd].name), AddSection(s, pair), ret)
      ensures refusals == Refusals(old(refusals), ret) && (ret == NUM_OUT_ARRAY ==> old(AllSections(View())) == 10)
    {
      ghost var h := View();
      var x, i := FindSectionOf(fd, s);
      ghost var m, op := Index(fd), AddSection(s, pair);
      if x != NONE {
        RefusedOutcome(m, disk, files[fd].name, op, SECTION_ALREAD);
        return SECTION_ALREAD;
      }
      ret := AppendSection(fd, s, pair);
      if ret < 0 {
        if OutOfSpace(ret) {
          NoSpaceOutcome(m, disk, files[fd].name, op, ret);
        } else {
          RefusedOutcome(m, disk, files[fd].name, op, ret);
        }
        return;
      }
      ret := RewriteIniFile(files[fd].name, AddSection(s, pair));
      DoneOutcome(m, Index(fd), old(disk), disk, old(files[fd].name), op, ret);
    }

    // Prints the header, parses it into a claimed slot and links that behind the sections of the file.
    method AppendSection(fd: nat, s: string, ghost pair: Option<(string, string)>) returns (ret: int)
      requires Valid() && SectionIs(View(), fd, s, -1) && files[fd].used
      modifies this`stored, this`refusals, this`secLists, this`secOwner, files, secs
      ensures Valid() && Others(old(View()), View(), fd)
      ensures refusals == Refusals(old(refusals), ret) && (ret == NUM_OUT_ARRAY ==> old(AllSections(View())) == 10)
      ensures ret < 0 ==> Index(fd) == old(Index(fd)) && (OutOfSpace(ret) || ret == FORMAT_ERROR)
      ensures ret < 0 ==> IndexStep(old(Index(fd)), AddSection(s, pair)).1 == if ParseName("[" + s + "]") == None then FORMAT_ERROR else 0
      ensures ret == FORMAT_ERROR ==> ParseName("[" + s + "]") == None
      ensures 0 <= ret ==> IndexStep(old(Index(fd)), AddSection(s, pair)) == (Index(fd), 0)
    {
      ghost var h := View();
      OkFree(h);
      SlotsFull(h);
      ret := InitLineSection("[" + s + "]");
      if ret < 0 {
        NothingLoaded(h, View(), fd);
        return;
      }
      ghost var c := View();
      AddSectionDone(h, fd, s, pair, ret, secs[ret]);
      ClaimSec(h, ret, secs[ret]);
      ClaimedSection(c, ret, fd);
      FileNext(c, fd, ret, NONE);
      LinkLastSection(fd, ret);
    }

    method DeleteValueOfKey(fd: int, p: Parameter) returns (ret: int)
      requires Valid()
      modifies this, secs, kvs
      ensures Valid() && Others(old(View()), View(), if 0 <= fd then fd else MAX_FILES)
      ensures (fd < 0 || MAX_FILES <= fd || p.section == None || p.key == None) ==>
                ret == ERROR_PARAMETER && View() == old(View()) && disk == old(disk)
      ensures (0 <= fd < MAX_FILES && p.section.Some? && p.key.Some?) ==>
                Outcome(old(Index(fd)), Index(fd), old(disk), disk, old(files[fd].name),
                        DeleteKey(p.section.value, p.key.value), ret)
      ensures !OutOfSpace(ret) && refusals == old(refusals) && stored == old(stored)
    {
      if fd < 0 || fd >= MAX_FILES || p.section == None || p.key == None {
        return ERROR_PARAMETER;
      }
      ret := DeleteKnown(fd, p.section.value, p.key.value);
    }

    // delete_value_ofkey once its parameters are known to be there.
    method DeleteKnown(fd: nat, s: string, k: string) returns (ret: int)
      requires Valid() && fd < MAX_FILES
      modifies this, secs, kvs
      ensures Valid() && Others(old(View()), View(), fd)
      ensures Outcome(old(Index(fd)), Index(fd), old(disk), disk, old(files[fd].name), DeleteKey(s, k), ret)
      ensures !OutOfSpace(ret) && refusals == old(refusals) && stored == old(stored)
    {
      ghost var h, m, op := View(), Index(fd), DeleteKey(s, k);
      var x, y, i, j := FindSectionAndKey(fd, s, k);
      if x == NONE {
        RefusedOutcome(m, disk, files[fd].name, op, SECTION_NOFOUND);
        return SECTION_NOFOUND;
      }
      if y == NONE {
        RefusedOutcome(m, disk, files[fd].name, op, KEYVALUE_NOFOUND);
        return KEYVALUE_NOFOUND;
      }
      DeleteKeyDone(h, fd, s, i, k, j);
      UnlinkKeyvalue(x, y, j);
      ret := RewriteIniFile(files[fd].name, DeleteKey(s, k));
      DoneOutcome(m, Index(fd), old(disk), disk, files[fd].name, op, ret);
    }

    method DeleteIniSection(fd: int, p: Parameter) returns (ret: int)
      requires Valid()
      modifies this, files, secs, kvs
      ensures Valid() && Others(old(View()), View(), if 0 <= fd then fd else MAX_FILES)
      ensures (fd < 0 || MAX_FILES <= fd || p.section == None) ==>
                ret == ERROR_PARAMETER && View() == old(View()) && disk == old(disk)
      ensures (0 <= fd < MAX_FILES && p.section.Some?) ==>
                Outcome(old(Index(fd)), Index(fd), old(disk), disk, old(files[fd].name),
                        DeleteSection(p.section.value, p.key), ret)
      ensures !OutOfSpace(ret) && refusals == old(refusals) && stored == old(stored)
    {
      if fd < 0 || fd >= MAX_FILES || p.section == None {
        return ERROR_PARAMETER;
      }
      ret := DeleteSectionKnown(fd, p.section.value, p.key);
    }

    // delete_ini_section once its section is known to be given.
    method DeleteSectionKnown(fd: nat, s: string, key: Option<string>) returns (ret: int)
      requires Valid() && fd < MAX_FILES
      modifies this, files, secs, kvs
      ensures Valid() && Others(old(View()), View(), fd)
      ensures Outcome(old(Index(fd)), Index(fd), old(disk), disk, old(files[fd].name), DeleteSection(s, key), ret)
      ensures !OutOfSpace(ret) && refusals == old(refusals) && stored == old(stored)
    {
      ghost var h := View();
      var x, i := FindSectionOf(fd, s);
      ghost var m, op := Index(fd), DeleteSection(s, key);
      if x == NONE {
        RefusedOutcome(m, disk, files[fd].name, op, SECTION_NOFOUND);
        return SECTION_NOFOUND;
      }
      DeleteSectionDone(h, fd, s, key, i);
      UnlinkSection(fd, x, i);
      ret := RewriteIniFile(files[fd].name, DeleteSection(s, key));
      DoneOutcome(m, Index(fd), old(disk), disk, old(files[fd].name), op, ret);
    }

    // The pointer surgery of delete_value_ofkey on key j of section x.
    method UnlinkKeyvalue(x: int, y: int, ghost j: nat)
      requires Valid() && InRange(View()) && 0 <= x < MAX_SECTIONS && j < |kvLists[x]| && y == kvLists[x][j]
      modifies this`kvLists, this`kvOwner, secs, kvs
      ensures View() == UnlinkKv(old(View()), x, j)
    {
      ghost var h := View();
      ghost var list := kvLists[x];
      LinksAround(h, x, j);
      var pre, last := kvs[y].link.pre, kvs[y].link.last;
      if pre != NONE {
        kvs[pre] := kvs[pre].(link := Link(kvs[pre].link.pre, last));
      } else {
        secs[x] := secs[x].(head := last);
      }
      if last != NONE {
        kvs[last] := kvs[last].(link := Link(pre, kvs[last].link.last));
      } else if pre != NONE {
        kvs[pre] := kvs[pre].(link := Link(kvs[pre].link.pre, NONE));
      } else {
        secs[x] := secs[x].(head := NONE);
      }
      kvs[y] := FREE_KV;
      kvLists := kvLists[x := RemoveAt(list, j)];
      kvOwner := kvOwner[y := NONE];
      UnlinkedKvs(h, x, j, kvs[..]);
    }

    // delete_ini_section on section i of file f: the pointer surgery, then the loop that frees its keys.
    method UnlinkSection(f: int, x: int, ghost i: nat)
      requires Valid() && InRange(View()) && 0 <= f < MAX_FILES && i < |secLists[f]| && x == secLists[f][i]
      modifies this`secLists, this`secOwner, this`kvLists, this`kvOwner, files, secs, kvs
      ensures View() == UnlinkSec(old(View()), f, i)
    {
      ghost var h := View();
      SecLinksAround(h, f, i);
      SectionChain(h, x);
      var head := secs[x].head;
      CutSection(f, x, i);
      FreeKeys(head, kvLists[x]);
      UnlinkedHeap(h, f, i, files[..], secs[..], kvs[..]);
      secLists, secOwner := UnlinkSec(h, f, i).secLists, UnlinkSec(h, f, i).secOwner;
      kvLists, kvOwner := UnlinkSec(h, f, i).kvLists, UnlinkSec(h, f, i).kvOwner;
    }

    method CutSection(f: int, x: int, ghost i: nat)
      requires Valid() && InRange(View()) && 0 <= f < MAX_FILES && i < |secLists[f]| && x == secLists[f][i]
      modifies files, secs
      ensures forall z | 0 <= z < MAX_SECTIONS ::
                secs[z] == if z == x then FREE_SEC
                           else old(secs[z]).(link := RemovedLinkOf(SecLinks(old(secs[..])), secLists[f], i, z))
      ensures files[..] == if i == 0 then old(files[..])[f := old(files[f]).(head := LinkAt(secLists[f], 0).last)] else old(files[..])
    {
      SecLinksAround(View(), f, i);
      var pre, last := secs[x].link.pre, secs[x].link.last;
      if pre != NONE {
        secs[pre] := secs[pre].(link := Link(secs[pre].link.pre, last));
      } else {
        files[f] := files[f].(head := last);
      }
      if last != NONE {
        secs[last] := secs[last].(link := Link(pre, secs[last].link.last));
      } else if pre != NONE {
        secs[pre] := secs[pre].(link := Link(secs[pre].link.pre, NONE));
      } else {
        files[f] := files[f].(head := NONE);
      }
      secs[x] := FREE_SEC;
    }
  }
}
