/** The fixed slot arrays and the doubly linked lists threaded through them, as values. */
module IniHeap {
  import opened IniModel
  import opened IniEdit

  const NONE := -1
  const MAX_FILES := 2
  const MAX_SECTIONS := 10
  const MAX_KEYVALUES := 100

  /** pre is the element in front, last the element behind, NONE where there is none. */
  datatype Link = Link(pre: int, last: int)

  const UNLINKED := Link(NONE, NONE)

  datatype KvSlot = KvSlot(used: bool, key: string, value: string, link: Link)

  datatype SecSlot = SecSlot(used: bool, name: string, head: int, link: Link)

  datatype FileSlot = FileSlot(used: bool, name: string, head: int)

  const FREE_KV := KvSlot(false, "", "", UNLINKED)
  const FREE_SEC := SecSlot(false, "", NONE, UNLINKED)
  const FREE_FILE := FileSlot(false, "", NONE)

  /** The three arrays; for every file the list of its sections and for every section the list of its keys,
      in order; and for every section and key the list it is on, or NONE. */
  datatype Heap = Heap(
    files: seq<FileSlot>, secs: seq<SecSlot>, kvs: seq<KvSlot>,
    secLists: seq<seq<int>>, kvLists: seq<seq<int>>, secOwner: seq<int>, kvOwner: seq<int>)

  // ---------- one doubly linked list ----------

  predicate Distinct(list: seq<int>) {
    forall i, j | 0 <= i < j < |list| :: list[i] != list[j]
  }

  function LinkAt(list: seq<int>, i: nat): Link
    requires i < |list|
  {
    Link(if i == 0 then NONE else list[i - 1], if i + 1 < |list| then list[i + 1] else NONE)
  }

  /** list is the list that starts at head: pre and last are mutual inverses along it, and it has no cycle. */
  predicate Chain(links: seq<Link>, head: int, list: seq<int>) {
    && Distinct(list)
    && (forall i | 0 <= i < |list| :: 0 <= list[i] < |links|)
    && (forall i | 0 <= i < |list| :: links[list[i]] == LinkAt(list, i))
    && head == if list == [] then NONE else list[0]
  }

  lemma ChainFrame(links: seq<Link>, links': seq<Link>, head: int, list: seq<int>)
    requires Chain(links, head, list) && |links| == |links'|
    requires forall i | 0 <= i < |list| :: links'[list[i]] == links[list[i]]
    ensures Chain(links', head, list)
  {
  }

  /** Linking a free element y behind the last one. */
  function Appended(links: seq<Link>, list: seq<int>, y: nat): seq<Link>
    requires y < |links| && forall i | 0 <= i < |list| :: 0 <= list[i] < |links|
  {
    if list == [] then links
    else
      var e := list[|list| - 1];
      links[e := Link(links[e].pre, y)][y := Link(e, NONE)]
  }

  lemma AppendedLink(links: seq<Link>, head: int, list: seq<int>, y: nat, i: nat)
    requires Chain(links, head, list) && y < |links| && y !in list && links[y] == UNLINKED && i <= |list|
    ensures var z := (list + [y])[i]; 0 <= z < |links| && Appended(links, list, y)[z] == LinkAt(list + [y], i)
  {
    if i < |list| {
      assert (list + [y])[i] == list[i];
      assert links[list[i]] == LinkAt(list, i);
      assert i < |list| - 1 ==> list[i] != list[|list| - 1];
    }
  }

  lemma ChainAppend(links: seq<Link>, head: int, list: seq<int>, y: nat)
    requires Chain(links, head, list) && y < |links| && y !in list && links[y] == UNLINKED
    ensures Chain(Appended(links, list, y), if list == [] then y else head, list + [y])
  {
    var more := list + [y];
    assert forall i | 0 <= i < |list| :: more[i] == list[i];
    assert Distinct(more);
    forall i | 0 <= i < |more| ensures Appended(links, list, y)[more[i]] == LinkAt(more, i) {
      AppendedLink(links, head, list, y, i);
    }
  }

  /** Unlinking element i: its neighbours are joined, the element itself is left unlinked. */
  function Removed(links: seq<Link>, list: seq<int>, i: nat): (r: seq<Link>)
    requires i < |list| && forall j | 0 <= j < |list| :: 0 <= list[j] < |links|
    ensures |r| == |links| && r[list[i]] == UNLINKED
  {
    var a := if i == 0 then links else links[list[i - 1] := Link(links[list[i - 1]].pre, LinkAt(list, i).last)];
    var b := if i + 1 == |list| then a else a[list[i + 1] := Link(LinkAt(list, i).pre, a[list[i + 1]].last)];
    b[list[i] := UNLINKED]
  }

  lemma RemovedList(list: seq<int>, i: nat)
    requires Distinct(list) && i < |list|
    ensures var less := RemoveAt(list, i);
            && |less| == |list| - 1 && Distinct(less) && list[i] !in less
            && forall j | 0 <= j < |less| :: less[j] == list[if j < i then j else j + 1]
  {
    var less := RemoveAt(list, i);
    assert forall j | 0 <= j < |less| :: less[j] == list[if j < i then j else j + 1];
  }

  // What unlinking element i leaves in any slot z.
  function RemovedLinkOf(links: seq<Link>, list: seq<int>, i: nat, z: nat): Link
    requires i < |list| && z < |links|
  {
    var l := LinkAt(list, i);
    if z == list[i] then UNLINKED
    else Link(if i + 1 < |list| && z == list[i + 1] then l.pre else links[z].pre,
              if 0 < i && z == list[i - 1] then l.last else links[z].last)
  }

  lemma RemovedLink(links: seq<Link>, head: int, list: seq<int>, i: nat, z: nat)
    requires Chain(links, head, list) && i < |list| && z < |links|
    ensures Removed(links, list, i)[z] == RemovedLinkOf(links, list, i, z)
  {
    assert 0 < i && i + 1 < |list| ==> list[i - 1] != list[i + 1];
    assert 0 < i ==> list[i - 1] != list[i];
    assert i + 1 < |list| ==> list[i + 1] != list[i];
  }

  lemma RemovedLinkInList(links: seq<Link>, head: int, list: seq<int>, i: nat, j: nat)
    requires Chain(links, head, list) && i < |list| && j < |list| - 1
    ensures var less := RemoveAt(list, i);
            |less| == |list| - 1 && 0 <= less[j] < |links| && RemovedLinkOf(links, list, i, less[j]) == LinkAt(less, j)
  {
    RemovedList(list, i);
    var less := RemoveAt(list, i);
    var o := if j < i then j else j + 1;
    assert less[j] == list[o] && list[o] != list[i];
    assert links[list[o]] == LinkAt(list, o);
    assert 0 < i && o != i - 1 ==> list[o] != list[i - 1];
    assert i + 1 < |list| && o != i + 1 ==> list[o] != list[i + 1];
  }

  lemma ChainRemove(links: seq<Link>, head: int, list: seq<int>, i: nat)
    requires Chain(links, head, list) && i < |list|
    ensures Chain(Removed(links, list, i), if i == 0 then LinkAt(list, 0).last else head, RemoveAt(list, i))
  {
    RemovedList(list, i);
    var less := RemoveAt(list, i);
    forall j | 0 <= j < |less|
      ensures 0 <= less[j] < |links| && Removed(links, list, i)[less[j]] == LinkAt(less, j) {
      RemovedLinkInList(links, head, list, i, j);
      RemovedLink(links, head, list, i, less[j]);
    }
  }

  lemma RemovedOutside(links: seq<Link>, head: int, list: seq<int>, i: nat, z: nat)
    requires Chain(links, head, list) && i < |list| && z < |links|
    ensures z !in list ==> Removed(links, list, i)[z] == links[z]
    ensures z == list[i] ==> Removed(links, list, i)[z] == UNLINKED
  {
    RemovedLink(links, head, list, i, z);
  }

  lemma ChainBeside(links: seq<Link>, head: int, list: seq<int>, i: nat, first: int, other: seq<int>)
    requires Chain(links, head, list) && i < |list| && Chain(links, first, other)
    requires forall j | 0 <= j < |other| :: other[j] !in list
    ensures Chain(Removed(links, list, i), first, other)
  {
    forall j | 0 <= j < |other| ensures Removed(links, list, i)[other[j]] == links[other[j]] {
      RemovedOutside(links, head, list, i, other[j]);
    }
    ChainFrame(links, Removed(links, list, i), first, other);
  }

  lemma StaysListed(list: seq<int>, i: nat, z: int)
    requires i < |list| && z in list && z != list[i]
    ensures z in RemoveAt(list, i)
  {
    var j :| 0 <= j < |list| && list[j] == z;
    assert RemoveAt(list, i)[if j < i then j else j - 1] == z;
  }

  // ---------- the whole heap ----------

  function KvLinks(kvs: seq<KvSlot>): (l: seq<Link>)
    ensures |l| == |kvs| && forall i | 0 <= i < |kvs| :: l[i] == kvs[i].link
  {
    seq(|kvs|, i requires 0 <= i < |kvs| => kvs[i].link)
  }

  function SecLinks(secs: seq<SecSlot>): (l: seq<Link>)
    ensures |l| == |secs| && forall i | 0 <= i < |secs| :: l[i] == secs[i].link
  {
    seq(|secs|, i requires 0 <= i < |secs| => secs[i].link)
  }

  predicate Sized(h: Heap) {
    && |h.files| == |h.secLists| == MAX_FILES
    && |h.secs| == |h.kvLists| == |h.secOwner| == MAX_SECTIONS
    && |h.kvs| == |h.kvOwner| == MAX_KEYVALUES
  }

  // The list of file f: linked, owned, and empty for a free file.
  predicate FileOk(h: Heap, f: nat)
    requires Sized(h) && f < MAX_FILES
  {
    && Chain(SecLinks(h.secs), h.files[f].head, h.secLists[f])
    && (forall i | 0 <= i < |h.secLists[f]| :: h.secOwner[h.secLists[f][i]] == f)
    && (!h.files[f].used ==> h.secLists[f] == [])
  }

  // The list of section x; x is on a file's list, or has no links and no keys. pending: claimed, not yet linked.
  predicate SecOk(h: Heap, x: nat, pending: int)
    requires Sized(h) && x < MAX_SECTIONS
  {
    && Chain(KvLinks(h.kvs), h.secs[x].head, h.kvLists[x])
    && (forall i | 0 <= i < |h.kvLists[x]| :: h.kvOwner[h.kvLists[x][i]] == x)
    && (h.secOwner[x] == NONE ==> h.kvLists[x] == [] && h.secs[x].link == UNLINKED)
    && (h.secOwner[x] != NONE ==> 0 <= h.secOwner[x] < MAX_FILES && x in h.secLists[h.secOwner[x]])
    && (h.secs[x].used <==> h.secOwner[x] != NONE || x == pending)
    && (x == pending ==> h.secOwner[x] == NONE)
  }

  predicate KvOk(h: Heap, y: nat, pending: int)
    requires Sized(h) && y < MAX_KEYVALUES
  {
    && (h.kvOwner[y] == NONE ==> h.kvs[y].link == UNLINKED)
    && (h.kvOwner[y] != NONE ==> 0 <= h.kvOwner[y] < MAX_SECTIONS && y in h.kvLists[h.kvOwner[y]])
    && (h.kvs[y].used <==> h.kvOwner[y] != NONE || y == pending)
    && (y == pending ==> h.kvOwner[y] == NONE)
  }

  /** Every used section and key slot is on exactly one list, that of its owner; free slots have no links.
      ps and pk are a section and a key slot claimed but not yet linked, NONE between operations. */
  predicate OkBut(h: Heap, ps: int, pk: int) {
    && Sized(h)
    && (forall f | 0 <= f < MAX_FILES :: FileOk(h, f))
    && (forall x | 0 <= x < MAX_SECTIONS :: SecOk(h, x, ps))
    && (forall y | 0 <= y < MAX_KEYVALUES :: KvOk(h, y, pk))
  }

  predicate Ok(h: Heap) {
    OkBut(h, NONE, NONE)
  }

  // ---------- what the heap means ----------

  // Lists stay inside the arrays.
  predicate InRange(h: Heap) {
    && Sized(h)
    && (forall f, i | 0 <= f < MAX_FILES && 0 <= i < |h.secLists[f]| :: 0 <= h.secLists[f][i] < MAX_SECTIONS)
    && (forall x, i | 0 <= x < MAX_SECTIONS && 0 <= i < |h.kvLists[x]| :: 0 <= h.kvLists[x][i] < MAX_KEYVALUES)
  }

  lemma OkInRange(h: Heap, ps: int, pk: int)
    requires OkBut(h, ps, pk)
    ensures InRange(h)
  {
    forall f, i | 0 <= f < MAX_FILES && 0 <= i < |h.secLists[f]| ensures 0 <= h.secLists[f][i] < MAX_SECTIONS {
      assert FileOk(h, f);
    }
    forall x, i | 0 <= x < MAX_SECTIONS && 0 <= i < |h.kvLists[x]| ensures 0 <= h.kvLists[x][i] < MAX_KEYVALUES {
      assert SecOk(h, x, ps);
    }
  }

  function Entries(h: Heap, x: nat): (es: seq<Entry>)
    requires InRange(h) && x < MAX_SECTIONS
    ensures |es| == |h.kvLists[x]|
  {
    seq(|h.kvLists[x]|, i requires 0 <= i < |h.kvLists[x]| =>
      Entry(h.kvs[h.kvLists[x][i]].key, h.kvs[h.kvLists[x][i]].value))
  }

  /** The sections and keys of file f, in list order. */
  function Content(h: Heap, f: nat): (m: Ini)
    requires InRange(h) && f < MAX_FILES
    ensures |m| == |h.secLists[f]|
  {
    seq(|h.secLists[f]|, i requires 0 <= i < |h.secLists[f]| =>
      Section(h.secs[h.secLists[f][i]].name, Entries(h, h.secLists[f][i])))
  }

  // The files that section slot x is not on keep their contents when nothing but x changes.
  lemma OtherFilesSame(h: Heap, g: Heap, f: nat, x: nat, ps: int, pk: int)
    requires OkBut(h, ps, pk) && InRange(h) && InRange(g) && f < MAX_FILES && x < MAX_SECTIONS && h.secOwner[x] == f
    requires forall e | 0 <= e < MAX_FILES && e != f :: g.secLists[e] == h.secLists[e]
    requires forall z | 0 <= z < MAX_SECTIONS && z != x :: g.secs[z].name == h.secs[z].name && Entries(g, z) == Entries(h, z)
    ensures forall e | 0 <= e < MAX_FILES && e != f :: Content(g, e) == Content(h, e)
  {
    forall e | 0 <= e < MAX_FILES && e != f ensures Content(g, e) == Content(h, e) {
      assert FileOk(h, e);
      SameContent(h, g, e);
    }
  }

  // The file of section slot x, when x alone changes.
  lemma OneSectionChanges(h: Heap, g: Heap, f: nat, i: nat)
    requires InRange(h) && InRange(g) && f < MAX_FILES && i < |h.secLists[f]| && Distinct(h.secLists[f])
    requires g.secLists[f] == h.secLists[f]
    requires forall z | 0 <= z < MAX_SECTIONS && z != h.secLists[f][i] ::
               g.secs[z].name == h.secs[z].name && Entries(g, z) == Entries(h, z)
    ensures var x := h.secLists[f][i]; Content(g, f) == Content(h, f)[i := Section(g.secs[x].name, Entries(g, x))]
  {
    var m, n := Content(h, f), Content(g, f);
    assert forall j | 0 <= j < |n| && j != i :: n[j] == m[j];
  }

  // ---------- linking a key ----------

  predicate Indices(list: seq<int>, n: nat) {
    forall i | 0 <= i < |list| :: 0 <= list[i] < n
  }

  // The key slots after linking y behind the list, and the section slots with the head of x set if the list was empty.
  function LinkedKvs(kvs: seq<KvSlot>, list: seq<int>, y: nat): seq<KvSlot>
    requires y < |kvs| && Indices(list, |kvs|)
  {
    if list == [] then kvs
    else
      var e := list[|list| - 1];
      kvs[e := kvs[e].(link := Link(kvs[e].link.pre, y))][y := kvs[y].(link := Link(e, NONE))]
  }

  function HeadedSecs(secs: seq<SecSlot>, x: nat, list: seq<int>, y: nat): seq<SecSlot>
    requires x < |secs|
  {
    if list == [] then secs[x := secs[x].(head := y)] else secs
  }

  /** The claimed key slot y becomes the last key of section x. */
  function LinkKv(h: Heap, x: nat, y: nat): Heap
    requires InRange(h) && x < MAX_SECTIONS && y < MAX_KEYVALUES
  {
    var list := h.kvLists[x];
    h.(kvs := LinkedKvs(h.kvs, list, y),
       secs := HeadedSecs(h.secs, x, list, y),
       kvLists := h.kvLists[x := list + [y]],
       kvOwner := h.kvOwner[y := x])
  }

  lemma LinkKvOk(h: Heap, x: nat, y: nat)
    requires OkBut(h, NONE, y) && x < MAX_SECTIONS && y < MAX_KEYVALUES && h.secOwner[x] != NONE && InRange(h)
    ensures Ok(LinkKv(h, x, y))
  {
    var g := LinkKv(h, x, y);
    var list := h.kvLists[x];
    assert SecOk(h, x, NONE) && KvOk(h, y, y);
    assert y !in list;
    ChainAppend(KvLinks(h.kvs), h.secs[x].head, list, y);
    assert KvLinks(g.kvs) == Appended(KvLinks(h.kvs), list, y);
    assert SecLinks(g.secs) == SecLinks(h.secs);
    forall f | 0 <= f < MAX_FILES ensures FileOk(g, f) {
      assert FileOk(h, f);
    }
    forall z | 0 <= z < MAX_SECTIONS ensures SecOk(g, z, NONE) {
      assert SecOk(h, z, NONE);
      if z != x {
        LinkKvFrame(h, x, y, z);
      }
    }
    forall w | 0 <= w < MAX_KEYVALUES ensures KvOk(g, w, NONE) {
      LinkKvSlot(h, x, y, w);
    }
  }

  lemma LinkKvFrame(h: Heap, x: nat, y: nat, z: nat)
    requires OkBut(h, NONE, y) && x < MAX_SECTIONS && y < MAX_KEYVALUES && InRange(h)
    requires z < MAX_SECTIONS && z != x
    ensures Chain(KvLinks(LinkKv(h, x, y).kvs), h.secs[z].head, h.kvLists[z])
    ensures forall i | 0 <= i < |h.kvLists[z]| :: LinkKv(h, x, y).kvOwner[h.kvLists[z][i]] == z
  {
    var g := LinkKv(h, x, y);
    assert SecOk(h, x, NONE) && SecOk(h, z, NONE) && KvOk(h, y, y);
    ChainFrame(KvLinks(h.kvs), KvLinks(g.kvs), h.secs[z].head, h.kvLists[z]);
  }

  lemma LinkKvSlot(h: Heap, x: nat, y: nat, w: nat)
    requires OkBut(h, NONE, y) && x < MAX_SECTIONS && y < MAX_KEYVALUES && InRange(h)
    requires w < MAX_KEYVALUES
    ensures KvOk(LinkKv(h, x, y), w, NONE)
  {
    assert KvOk(h, w, y) && SecOk(h, x, NONE);
    var list := h.kvLists[x];
    assert y in list + [y];
    if list != [] {
      assert h.kvOwner[list[|list| - 1]] == x;
    }
  }

  // Two heaps that agree on the names, keys and values of one section, or of one file.
  lemma SameEntries(h: Heap, g: Heap, x: nat)
    requires InRange(h) && InRange(g) && x < MAX_SECTIONS && h.kvLists[x] == g.kvLists[x]
    requires forall i | 0 <= i < |h.kvLists[x]| ::
               var y := h.kvLists[x][i]; g.kvs[y].key == h.kvs[y].key && g.kvs[y].value == h.kvs[y].value
    ensures Entries(g, x) == Entries(h, x)
  {
  }

  lemma SameContent(h: Heap, g: Heap, f: nat)
    requires InRange(h) && InRange(g) && f < MAX_FILES && h.secLists[f] == g.secLists[f]
    requires forall i | 0 <= i < |h.secLists[f]| ::
               var x := h.secLists[f][i]; g.secs[x].name == h.secs[x].name && Entries(g, x) == Entries(h, x)
    ensures Content(g, f) == Content(h, f)
  {
  }

  lemma LinkKvEntries(h: Heap, x: nat, y: nat, z: nat)
    requires InRange(h) && x < MAX_SECTIONS && y < MAX_KEYVALUES && z < MAX_SECTIONS
    ensures var g := LinkKv(h, x, y);
            && InRange(g) && g.secs[z].name == h.secs[z].name
            && Entries(g, z) == if z == x then Entries(h, x) + [Entry(h.kvs[y].key, h.kvs[y].value)] else Entries(h, z)
  {
    var g := LinkKv(h, x, y);
    assert forall w | 0 <= w < MAX_KEYVALUES :: g.kvs[w].key == h.kvs[w].key && g.kvs[w].value == h.kvs[w].value;
    if z != x {
      SameEntries(h, g, z);
    }
  }

  /** Linking a key appends its entry to its section and leaves every other section and file alone. */
  lemma LinkKvContent(h: Heap, f: nat, j: nat, y: nat)
    requires OkBut(h, NONE, y) && InRange(h) && f < MAX_FILES && j < |h.secLists[f]| && y < MAX_KEYVALUES
    ensures var x := h.secLists[f][j];
            var g := LinkKv(h, x, y);
            && InRange(g)
            && Content(g, f) == Content(h, f)[j := Section(h.secs[x].name, Entries(h, x) + [Entry(h.kvs[y].key, h.kvs[y].value)])]
            && forall e | 0 <= e < MAX_FILES && e != f :: Content(g, e) == Content(h, e)
  {
    var x := h.secLists[f][j];
    var g := LinkKv(h, x, y);
    forall z | 0 <= z < MAX_SECTIONS
      ensures InRange(g) && g.secs[z].name == h.secs[z].name && (z != x ==> Entries(g, z) == Entries(h, z)) {
      LinkKvEntries(h, x, y, z);
    }
    LinkKvEntries(h, x, y, x);
    assert FileOk(h, f);
    OneSectionChanges(h, g, f, j);
    OtherFilesSame(h, g, f, x, NONE, y);
  }

  // ---------- linking a section ----------

  function LinkedSecs(secs: seq<SecSlot>, list: seq<int>, x: nat): seq<SecSlot>
    requires x < |secs| && Indices(list, |secs|)
  {
    if list == [] then secs
    else
      var e := list[|list| - 1];
      secs[e := secs[e].(link := Link(secs[e].link.pre, x))][x := secs[x].(link := Link(e, NONE))]
  }

  function HeadedFiles(files: seq<FileSlot>, f: nat, list: seq<int>, x: nat): seq<FileSlot>
    requires f < |files|
  {
    if list == [] then files[f := files[f].(head := x)] else files
  }

  /** The claimed section slot x becomes the last section of file f. */
  function LinkSec(h: Heap, f: nat, x: nat): Heap
    requires InRange(h) && f < MAX_FILES && x < MAX_SECTIONS
  {
    var list := h.secLists[f];
    h.(secs := LinkedSecs(h.secs, list, x),
       files := HeadedFiles(h.files, f, list, x),
       secLists := h.secLists[f := list + [x]],
       secOwner := h.secOwner[x := f])
  }

  lemma LinkSecLinks(h: Heap, f: nat, x: nat)
    requires InRange(h) && f < MAX_FILES && x < MAX_SECTIONS
    ensures SecLinks(LinkSec(h, f, x).secs) == Appended(SecLinks(h.secs), h.secLists[f], x)
  {
  }

  lemma LinkSecOwnFile(h: Heap, f: nat, x: nat)
    requires OkBut(h, x, NONE) && InRange(h) && f < MAX_FILES && x < MAX_SECTIONS && h.files[f].used
    ensures FileOk(LinkSec(h, f, x), f)
  {
    var list := h.secLists[f];
    assert SecOk(h, x, x) && FileOk(h, f);
    assert x !in list;
    LinkSecLinks(h, f, x);
    ChainAppend(SecLinks(h.secs), h.files[f].head, list, x);
    var g := LinkSec(h, f, x);
    assert forall i | 0 <= i < |list| :: g.secLists[f][i] == list[i];
  }

  lemma LinkedSecsOutside(secs: seq<SecSlot>, list: seq<int>, x: nat, z: nat)
    requires x < |secs| && Indices(list, |secs|) && z < |secs| && z != x && z !in list
    ensures LinkedSecs(secs, list, x)[z] == secs[z]
  {
  }

  lemma LinkSecOtherFile(h: Heap, f: nat, x: nat, e: nat)
    requires OkBut(h, x, NONE) && InRange(h) && f < MAX_FILES && x < MAX_SECTIONS && e < MAX_FILES && e != f
    ensures FileOk(LinkSec(h, f, x), e)
  {
    assert SecOk(h, x, x) && FileOk(h, f) && FileOk(h, e);
    var g, list := LinkSec(h, f, x), h.secLists[e];
    forall i | 0 <= i < |list| ensures g.secs[list[i]] == h.secs[list[i]] && g.secOwner[list[i]] == e {
      assert h.secOwner[list[i]] == e;
      LinkedSecsOutside(h.secs, h.secLists[f], x, list[i]);
    }
    ChainFrame(SecLinks(h.secs), SecLinks(g.secs), h.files[e].head, list);
  }

  lemma LinkSecOk(h: Heap, f: nat, x: nat)
    requires OkBut(h, x, NONE) && InRange(h) && f < MAX_FILES && x < MAX_SECTIONS && h.files[f].used
    ensures Ok(LinkSec(h, f, x))
  {
    var g := LinkSec(h, f, x);
    forall e | 0 <= e < MAX_FILES ensures FileOk(g, e) {
      if e == f {
        LinkSecOwnFile(h, f, x);
      } else {
        LinkSecOtherFile(h, f, x, e);
      }
    }
    forall z | 0 <= z < MAX_SECTIONS ensures SecOk(g, z, NONE) { LinkSecSlot(h, f, x, z); }
    forall y | 0 <= y < MAX_KEYVALUES ensures KvOk(g, y, NONE) { assert KvOk(h, y, NONE); }
  }

  lemma LinkSecSlot(h: Heap, f: nat, x: nat, z: nat)
    requires OkBut(h, x, NONE) && InRange(h) && f < MAX_FILES && x < MAX_SECTIONS && z < MAX_SECTIONS
    ensures SecOk(LinkSec(h, f, x), z, NONE)
  {
    assert SecOk(h, z, x) && FileOk(h, f);
    var list := h.secLists[f];
    assert x in list + [x];
    if list != [] {
      assert h.secOwner[list[|list| - 1]] == f;
    }
  }

  /** Linking a claimed section slot keeps the invariant exactly when its file is open. */
  lemma LinkSecOkExactly(h: Heap, f: nat, x: nat)
    requires OkBut(h, x, NONE) && InRange(h) && f < MAX_FILES && x < MAX_SECTIONS
    ensures Ok(LinkSec(h, f, x)) <==> h.files[f].used
  {
    if h.files[f].used {
      LinkSecOk(h, f, x);
    } else {
      assert !FileOk(LinkSec(h, f, x), f);
    }
  }

  /** Linking a claimed section appends it, empty, to its file. */
  lemma LinkSecContent(h: Heap, f: nat, x: nat)
    requires OkBut(h, x, NONE) && InRange(h) && f < MAX_FILES && x < MAX_SECTIONS
    ensures var g := LinkSec(h, f, x);
            && InRange(g)
            && Content(g, f) == Content(h, f) + [Section(h.secs[x].name, [])]
            && forall e | 0 <= e < MAX_FILES && e != f :: Content(g, e) == Content(h, e)
  {
    var g := LinkSec(h, f, x);
    assert SecOk(h, x, x);
    assert InRange(g);
    forall z | 0 <= z < MAX_SECTIONS ensures g.secs[z].name == h.secs[z].name && Entries(g, z) == Entries(h, z) {
      SameEntries(h, g, z);
    }
    assert Entries(h, x) == [];
    forall e | 0 <= e < MAX_FILES && e != f ensures Content(g, e) == Content(h, e) {
      SameContent(h, g, e);
    }
  }

  // ---------- a new value ----------

  function SetKv(h: Heap, y: nat, v: string): Heap
    requires Sized(h) && y < MAX_KEYVALUES
  {
    h.(kvs := h.kvs[y := h.kvs[y].(value := v)])
  }

  lemma SetKvOk(h: Heap, y: nat, v: string)
    requires Ok(h) && y < MAX_KEYVALUES
    ensures Ok(SetKv(h, y, v))
  {
    var g := SetKv(h, y, v);
    assert KvLinks(g.kvs) == KvLinks(h.kvs);
    forall f | 0 <= f < MAX_FILES ensures FileOk(g, f) { assert FileOk(h, f); }
    forall x | 0 <= x < MAX_SECTIONS ensures SecOk(g, x, NONE) { assert SecOk(h, x, NONE); }
    forall w | 0 <= w < MAX_KEYVALUES ensures KvOk(g, w, NONE) { assert KvOk(h, w, NONE); }
  }

  lemma SetKvContent(h: Heap, f: nat, i: nat, j: nat, v: string)
    requires Ok(h) && InRange(h) && f < MAX_FILES && i < |h.secLists[f]| && j < |h.kvLists[h.secLists[f][i]]|
    ensures var g := SetKv(h, h.kvLists[h.secLists[f][i]][j], v);
            && InRange(g)
            && Content(g, f) == SetValue(Content(h, f), i, j, v)
            && forall e | 0 <= e < MAX_FILES && e != f :: Content(g, e) == Content(h, e)
  {
    var x := h.secLists[f][i];
    var y := h.kvLists[x][j];
    var g := SetKv(h, y, v);
    assert SecOk(h, x, NONE) && FileOk(h, f) && h.kvOwner[y] == x;
    forall z | 0 <= z < MAX_SECTIONS && z != x ensures Entries(g, z) == Entries(h, z) {
      assert SecOk(h, z, NONE);
      SameEntries(h, g, z);
    }
    SetKvEntries(h, x, j, v);
    OneSectionChanges(h, g, f, i);
    OtherFilesSame(h, g, f, x, NONE, NONE);
  }

  lemma SetKvEntries(h: Heap, x: nat, j: nat, v: string)
    requires InRange(h) && x < MAX_SECTIONS && j < |h.kvLists[x]| && Distinct(h.kvLists[x])
    ensures var g := SetKv(h, h.kvLists[x][j], v);
            InRange(g) && Entries(g, x) == Entries(h, x)[j := Entry(Entries(h, x)[j].key, v)]
  {
  }

  // ---------- unlinking a key ----------

  /** Key j of section x is unlinked and its slot freed. */
  function UnlinkKv(h: Heap, x: nat, j: nat): Heap
    requires InRange(h) && x < MAX_SECTIONS && j < |h.kvLists[x]|
  {
    var list := h.kvLists[x];
    var y := list[j];
    var links := Removed(KvLinks(h.kvs), list, j);
    h.(kvs := seq(MAX_KEYVALUES, w requires 0 <= w < MAX_KEYVALUES =>
                if w == y then FREE_KV else h.kvs[w].(link := links[w])),
       secs := if j == 0 then h.secs[x := h.secs[x].(head := LinkAt(list, 0).last)] else h.secs,
       kvLists := h.kvLists[x := RemoveAt(list, j)],
       kvOwner := h.kvOwner[y := NONE])
  }

  lemma UnlinkKvOk(h: Heap, x: nat, j: nat)
    requires Ok(h) && InRange(h) && x < MAX_SECTIONS && j < |h.kvLists[x]|
    ensures Ok(UnlinkKv(h, x, j))
  {
    var g := UnlinkKv(h, x, j);
    var list := h.kvLists[x];
    assert SecOk(h, x, NONE);
    assert SecLinks(g.secs) == SecLinks(h.secs);
    forall f | 0 <= f < MAX_FILES ensures FileOk(g, f) { assert FileOk(h, f); }
    forall z | 0 <= z < MAX_SECTIONS ensures SecOk(g, z, NONE) {
      UnlinkKvSec(h, x, j, z);
    }
    forall w | 0 <= w < MAX_KEYVALUES ensures KvOk(g, w, NONE) {
      UnlinkKvSlot(h, x, j, w);
    }
  }

  // Owners keep the lists of two sections, or of two files, apart.
  lemma KeyListsApart(h: Heap, x: nat, z: nat)
    requires Ok(h) && x < MAX_SECTIONS && z < MAX_SECTIONS && x != z
    ensures forall j | 0 <= j < |h.kvLists[z]| :: h.kvLists[z][j] !in h.kvLists[x]
  {
    assert SecOk(h, x, NONE) && SecOk(h, z, NONE);
    forall j | 0 <= j < |h.kvLists[z]| ensures h.kvLists[z][j] !in h.kvLists[x] {
      assert h.kvOwner[h.kvLists[z][j]] == z;
    }
  }

  lemma SectionListsApart(h: Heap, f: nat, e: nat)
    requires Ok(h) && f < MAX_FILES && e < MAX_FILES && e != f
    ensures forall j | 0 <= j < |h.secLists[e]| :: h.secLists[e][j] !in h.secLists[f]
  {
    assert FileOk(h, f) && FileOk(h, e);
    forall j | 0 <= j < |h.secLists[e]| ensures h.secLists[e][j] !in h.secLists[f] {
      assert h.secOwner[h.secLists[e][j]] == e;
    }
  }

  lemma UnlinkKvLinks(h: Heap, x: nat, j: nat)
    requires InRange(h) && x < MAX_SECTIONS && j < |h.kvLists[x]| && SecOk(h, x, NONE)
    ensures KvLinks(UnlinkKv(h, x, j).kvs) == Removed(KvLinks(h.kvs), h.kvLists[x], j)
  {
    var links := Removed(KvLinks(h.kvs), h.kvLists[x], j);
    assert forall z | 0 <= z < MAX_KEYVALUES :: KvLinks(UnlinkKv(h, x, j).kvs)[z] == links[z];
  }

  lemma UnlinkKvOwnSec(h: Heap, x: nat, j: nat)
    requires InRange(h) && x < MAX_SECTIONS && j < |h.kvLists[x]| && SecOk(h, x, NONE)
    ensures SecOk(UnlinkKv(h, x, j), x, NONE)
  {
    var list := h.kvLists[x];
    UnlinkKvLinks(h, x, j);
    RemovedList(list, j);
    ChainRemove(KvLinks(h.kvs), h.secs[x].head, list, j);
  }

  lemma UnlinkKvOtherSec(h: Heap, x: nat, j: nat, z: nat)
    requires InRange(h) && x < MAX_SECTIONS && j < |h.kvLists[x]| && SecOk(h, x, NONE)
    requires z < MAX_SECTIONS && z != x && SecOk(h, z, NONE)
    requires forall i | 0 <= i < |h.kvLists[z]| :: h.kvLists[z][i] !in h.kvLists[x]
    ensures SecOk(UnlinkKv(h, x, j), z, NONE)
  {
    UnlinkKvLinks(h, x, j);
    ChainBeside(KvLinks(h.kvs), h.secs[x].head, h.kvLists[x], j, h.secs[z].head, h.kvLists[z]);
    assert h.kvLists[x][j] in h.kvLists[x];
  }

  lemma UnlinkKvSec(h: Heap, x: nat, j: nat, z: nat)
    requires Ok(h) && InRange(h) && x < MAX_SECTIONS && j < |h.kvLists[x]| && z < MAX_SECTIONS
    ensures SecOk(UnlinkKv(h, x, j), z, NONE)
  {
    assert SecOk(h, x, NONE) && SecOk(h, z, NONE);
    if z == x {
      UnlinkKvOwnSec(h, x, j);
    } else {
      KeyListsApart(h, x, z);
      UnlinkKvOtherSec(h, x, j, z);
    }
  }

  lemma UnlinkKvSlot(h: Heap, x: nat, j: nat, w: nat)
    requires Ok(h) && InRange(h) && x < MAX_SECTIONS && j < |h.kvLists[x]| && w < MAX_KEYVALUES
    ensures KvOk(UnlinkKv(h, x, j), w, NONE)
  {
    var list := h.kvLists[x];
    assert SecOk(h, x, NONE) && KvOk(h, w, NONE);
    RemovedOutside(KvLinks(h.kvs), h.secs[x].head, list, j, w);
    if w in list && w != list[j] {
      StaysListed(list, j, w);
    }
  }

  lemma UnlinkKvRange(h: Heap, x: nat, j: nat)
    requires Ok(h) && InRange(h) && x < MAX_SECTIONS && j < |h.kvLists[x]|
    ensures InRange(UnlinkKv(h, x, j))
    ensures forall z | 0 <= z < MAX_SECTIONS :: UnlinkKv(h, x, j).secs[z].name == h.secs[z].name
  {
    UnlinkKvOk(h, x, j);
    OkInRange(UnlinkKv(h, x, j), NONE, NONE);
  }

  lemma UnlinkKvOwn(h: Heap, x: nat, j: nat)
    requires Ok(h) && InRange(h) && x < MAX_SECTIONS && j < |h.kvLists[x]| && InRange(UnlinkKv(h, x, j))
    ensures Entries(UnlinkKv(h, x, j), x) == RemoveAt(Entries(h, x), j)
  {
    var g, list := UnlinkKv(h, x, j), h.kvLists[x];
    assert SecOk(h, x, NONE);
    RemovedList(list, j);
    var es, fs := RemoveAt(Entries(h, x), j), Entries(g, x);
    forall i | 0 <= i < |fs| ensures fs[i] == es[i] {
      assert g.kvLists[x][i] == list[if i < j then i else i + 1];
    }
  }

  lemma UnlinkKvOther(h: Heap, x: nat, j: nat, z: nat)
    requires Ok(h) && InRange(h) && x < MAX_SECTIONS && j < |h.kvLists[x]| && InRange(UnlinkKv(h, x, j))
    requires z < MAX_SECTIONS && z != x
    ensures Entries(UnlinkKv(h, x, j), z) == Entries(h, z)
  {
    assert SecOk(h, x, NONE) && SecOk(h, z, NONE);
    SameEntries(h, UnlinkKv(h, x, j), z);
  }

  /** Unlinking a key removes its entry. */
  lemma UnlinkKvContent(h: Heap, f: nat, i: nat, j: nat)
    requires Ok(h) && InRange(h) && f < MAX_FILES && i < |h.secLists[f]| && j < |h.kvLists[h.secLists[f][i]]|
    ensures var x := h.secLists[f][i];
            var g := UnlinkKv(h, x, j);
            && InRange(g)
            && Content(g, f) == Content(h, f)[i := Section(h.secs[x].name, RemoveAt(Entries(h, x), j))]
            && forall e | 0 <= e < MAX_FILES && e != f :: Content(g, e) == Content(h, e)
  {
    var x := h.secLists[f][i];
    var g := UnlinkKv(h, x, j);
    assert FileOk(h, f);
    UnlinkKvRange(h, x, j);
    forall z | 0 <= z < MAX_SECTIONS && z != x ensures Entries(g, z) == Entries(h, z) {
      UnlinkKvOther(h, x, j, z);
    }
    UnlinkKvOwn(h, x, j);
    OneSectionChanges(h, g, f, i);
    OtherFilesSame(h, g, f, x, NONE, NONE);
  }

  // ---------- freeing a section's keys ----------

  function ClearKeys(h: Heap, x: nat): Heap
    requires InRange(h) && x < MAX_SECTIONS
  {
    h.(kvs := seq(MAX_KEYVALUES, w requires 0 <= w < MAX_KEYVALUES => if h.kvOwner[w] == x then FREE_KV else h.kvs[w]),
       secs := h.secs[x := h.secs[x].(head := NONE)],
       kvLists := h.kvLists[x := []],
       kvOwner := seq(MAX_KEYVALUES, w requires 0 <= w < MAX_KEYVALUES => if h.kvOwner[w] == x then NONE else h.kvOwner[w]))
  }

  lemma ClearKeysOk(h: Heap, x: nat)
    requires Ok(h) && InRange(h) && x < MAX_SECTIONS
    ensures Ok(ClearKeys(h, x))
  {
    var g := ClearKeys(h, x);
    assert SecLinks(g.secs) == SecLinks(h.secs);
    forall f | 0 <= f < MAX_FILES ensures FileOk(g, f) { assert FileOk(h, f); }
    forall z | 0 <= z < MAX_SECTIONS ensures SecOk(g, z, NONE) {
      assert SecOk(h, z, NONE);
      if z != x {
        ChainFrame(KvLinks(h.kvs), KvLinks(g.kvs), h.secs[z].head, h.kvLists[z]);
      }
    }
    forall w | 0 <= w < MAX_KEYVALUES ensures KvOk(g, w, NONE) { assert KvOk(h, w, NONE); }
  }

  lemma ClearKeysEntries(h: Heap, x: nat, z: nat)
    requires Ok(h) && InRange(h) && x < MAX_SECTIONS && z < MAX_SECTIONS && z != x
    ensures InRange(ClearKeys(h, x)) && Entries(ClearKeys(h, x), z) == Entries(h, z)
  {
    assert SecOk(h, z, NONE);
    assert InRange(ClearKeys(h, x));
    SameEntries(h, ClearKeys(h, x), z);
  }

  // ---------- unlinking a section ----------

  /** Section i of file f, which has no keys, is unlinked and its slot freed. */
  function DropSec(h: Heap, f: nat, i: nat): Heap
    requires InRange(h) && f < MAX_FILES && i < |h.secLists[f]|
  {
    var list := h.secLists[f];
    var x := list[i];
    var links := Removed(SecLinks(h.secs), list, i);
    h.(secs := seq(MAX_SECTIONS, z requires 0 <= z < MAX_SECTIONS =>
                 if z == x then FREE_SEC else h.secs[z].(link := links[z])),
       files := if i == 0 then h.files[f := h.files[f].(head := LinkAt(list, 0).last)] else h.files,
       secLists := h.secLists[f := RemoveAt(list, i)],
       secOwner := h.secOwner[x := NONE])
  }

  lemma DropSecLinks(h: Heap, f: nat, i: nat)
    requires InRange(h) && f < MAX_FILES && i < |h.secLists[f]| && FileOk(h, f)
    ensures SecLinks(DropSec(h, f, i).secs) == Removed(SecLinks(h.secs), h.secLists[f], i)
  {
    var links := Removed(SecLinks(h.secs), h.secLists[f], i);
    assert forall z | 0 <= z < MAX_SECTIONS :: SecLinks(DropSec(h, f, i).secs)[z] == links[z];
  }

  lemma DropSecOwnFile(h: Heap, f: nat, i: nat)
    requires InRange(h) && f < MAX_FILES && i < |h.secLists[f]| && FileOk(h, f)
    ensures FileOk(DropSec(h, f, i), f)
  {
    var list := h.secLists[f];
    DropSecLinks(h, f, i);
    RemovedList(list, i);
    ChainRemove(SecLinks(h.secs), h.files[f].head, list, i);
  }

  lemma DropSecOtherFile(h: Heap, f: nat, i: nat, e: nat)
    requires InRange(h) && f < MAX_FILES && i < |h.secLists[f]| && FileOk(h, f)
    requires e < MAX_FILES && e != f && FileOk(h, e)
    requires forall j | 0 <= j < |h.secLists[e]| :: h.secLists[e][j] !in h.secLists[f]
    ensures FileOk(DropSec(h, f, i), e)
  {
    DropSecLinks(h, f, i);
    ChainBeside(SecLinks(h.secs), h.files[f].head, h.secLists[f], i, h.files[e].head, h.secLists[e]);
    assert h.secLists[f][i] in h.secLists[f];
  }

  lemma DropSecFile(h: Heap, f: nat, i: nat, e: nat)
    requires Ok(h) && InRange(h) && f < MAX_FILES && i < |h.secLists[f]| && e < MAX_FILES
    ensures FileOk(DropSec(h, f, i), e)
  {
    assert FileOk(h, f) && FileOk(h, e);
    if e == f {
      DropSecOwnFile(h, f, i);
    } else {
      SectionListsApart(h, f, e);
      DropSecOtherFile(h, f, i, e);
    }
  }

  lemma DropSecSlot(h: Heap, f: nat, i: nat, z: nat)
    requires Ok(h) && InRange(h) && f < MAX_FILES && i < |h.secLists[f]| && z < MAX_SECTIONS
    requires h.kvLists[h.secLists[f][i]] == []
    ensures SecOk(DropSec(h, f, i), z, NONE)
  {
    var list := h.secLists[f];
    assert FileOk(h, f) && SecOk(h, z, NONE);
    RemovedOutside(SecLinks(h.secs), h.files[f].head, list, i, z);
    if z in list && z != list[i] {
      StaysListed(list, i, z);
    }
  }

  lemma DropSecOk(h: Heap, f: nat, i: nat)
    requires Ok(h) && InRange(h) && f < MAX_FILES && i < |h.secLists[f]| && h.kvLists[h.secLists[f][i]] == []
    ensures Ok(DropSec(h, f, i))
  {
    var g := DropSec(h, f, i);
    forall e | 0 <= e < MAX_FILES ensures FileOk(g, e) { DropSecFile(h, f, i, e); }
    forall z | 0 <= z < MAX_SECTIONS ensures SecOk(g, z, NONE) { DropSecSlot(h, f, i, z); }
    forall w | 0 <= w < MAX_KEYVALUES ensures KvOk(g, w, NONE) { assert KvOk(h, w, NONE); }
  }

  /** delete_ini_section on the heap: section i of file f and all its keys are freed. */
  function UnlinkSec(h: Heap, f: nat, i: nat): Heap
    requires InRange(h) && f < MAX_FILES && i < |h.secLists[f]|
  {
    DropSec(ClearKeys(h, h.secLists[f][i]), f, i)
  }

  lemma UnlinkSecOk(h: Heap, f: nat, i: nat)
    requires Ok(h) && InRange(h) && f < MAX_FILES && i < |h.secLists[f]|
    ensures Ok(UnlinkSec(h, f, i))
  {
    ClearKeysOk(h, h.secLists[f][i]);
    DropSecOk(ClearKeys(h, h.secLists[f][i]), f, i);
  }

  lemma UnlinkSecEntries(h: Heap, f: nat, i: nat, z: nat)
    requires Ok(h) && InRange(h) && f < MAX_FILES && i < |h.secLists[f]| && z < MAX_SECTIONS && z != h.secLists[f][i]
    ensures var g := UnlinkSec(h, f, i);
            InRange(g) && g.secs[z].name == h.secs[z].name && Entries(g, z) == Entries(h, z)
  {
    var x := h.secLists[f][i];
    var c := ClearKeys(h, x);
    var g := UnlinkSec(h, f, i);
    ClearKeysEntries(h, x, z);
    UnlinkSecOk(h, f, i);
    OkInRange(g, NONE, NONE);
    SameEntries(c, g, z);
  }

  // The file a section is removed from, when the other sections keep what they hold.
  lemma OneSectionGoes(h: Heap, g: Heap, f: nat, i: nat)
    requires InRange(h) && InRange(g) && f < MAX_FILES && i < |h.secLists[f]| && Distinct(h.secLists[f])
    requires g.secLists[f] == RemoveAt(h.secLists[f], i)
    requires forall z | 0 <= z < MAX_SECTIONS && z != h.secLists[f][i] ::
               g.secs[z].name == h.secs[z].name && Entries(g, z) == Entries(h, z)
    ensures Content(g, f) == RemoveAt(Content(h, f), i)
  {
    var list := h.secLists[f];
    var m, n := RemoveAt(Content(h, f), i), Content(g, f);
    forall j | 0 <= j < |n| ensures n[j] == m[j] {
      assert g.secLists[f][j] == list[if j < i then j else j + 1];
    }
  }

  /** Unlinking a section removes it from its file and changes nothing else. */
  lemma UnlinkSecContent(h: Heap, f: nat, i: nat)
    requires Ok(h) && InRange(h) && f < MAX_FILES && i < |h.secLists[f]|
    ensures var g := UnlinkSec(h, f, i);
            && InRange(g)
            && Content(g, f) == RemoveAt(Content(h, f), i)
            && forall e | 0 <= e < MAX_FILES && e != f :: Content(g, e) == Content(h, e)
  {
    var x, g := h.secLists[f][i], UnlinkSec(h, f, i);
    assert FileOk(h, f);
    UnlinkSecOk(h, f, i);
    OkInRange(g, NONE, NONE);
    forall z | 0 <= z < MAX_SECTIONS && z != x ensures g.secs[z].name == h.secs[z].name && Entries(g, z) == Entries(h, z) {
      UnlinkSecEntries(h, f, i, z);
    }
    OneSectionGoes(h, g, f, i);
    OtherFilesSame(h, g, f, x, NONE, NONE);
  }

  // ---------- closing a file ----------

  // Section slot x is on the list of file f; key slot y is on the list of one of its sections.
  predicate OfFile(h: Heap, f: nat, y: nat)
    requires Sized(h) && y < MAX_KEYVALUES
  {
    0 <= h.kvOwner[y] < MAX_SECTIONS && h.secOwner[h.kvOwner[y]] == f
  }

  /** destroy_ini_source on the heap: exactly the slots of file f are freed. */
  function CloseFile(h: Heap, f: nat): Heap
    requires InRange(h) && f < MAX_FILES
  {
    Heap(
      h.files[f := FREE_FILE],
      seq(MAX_SECTIONS, x requires 0 <= x < MAX_SECTIONS => if h.secOwner[x] == f then FREE_SEC else h.secs[x]),
      seq(MAX_KEYVALUES, y requires 0 <= y < MAX_KEYVALUES => if OfFile(h, f, y) then FREE_KV else h.kvs[y]),
      h.secLists[f := []],
      seq(MAX_SECTIONS, x requires 0 <= x < MAX_SECTIONS => if h.secOwner[x] == f then [] else h.kvLists[x]),
      seq(MAX_SECTIONS, x requires 0 <= x < MAX_SECTIONS => if h.secOwner[x] == f then NONE else h.secOwner[x]),
      seq(MAX_KEYVALUES, y requires 0 <= y < MAX_KEYVALUES => if OfFile(h, f, y) then NONE else h.kvOwner[y]))
  }

  lemma CloseFileSec(h: Heap, f: nat, x: nat)
    requires Ok(h) && InRange(h) && f < MAX_FILES && x < MAX_SECTIONS
    ensures SecOk(CloseFile(h, f), x, NONE)
  {
    var g := CloseFile(h, f);
    assert SecOk(h, x, NONE);
    if h.secOwner[x] != f {
      ChainFrame(KvLinks(h.kvs), KvLinks(g.kvs), h.secs[x].head, h.kvLists[x]);
    }
  }

  /** Closing a file keeps the invariant. */
  lemma CloseFileOk(h: Heap, f: nat)
    requires Ok(h) && InRange(h) && f < MAX_FILES
    ensures Ok(CloseFile(h, f))
  {
    var g := CloseFile(h, f);
    forall e | 0 <= e < MAX_FILES ensures FileOk(g, e) {
      assert FileOk(h, e);
      if e != f {
        ChainFrame(SecLinks(h.secs), SecLinks(g.secs), h.files[e].head, h.secLists[e]);
      }
    }
    forall x | 0 <= x < MAX_SECTIONS ensures SecOk(g, x, NONE) { CloseFileSec(h, f, x); }
    forall y | 0 <= y < MAX_KEYVALUES ensures KvOk(g, y, NONE) {
      assert KvOk(h, y, NONE);
      if h.kvOwner[y] != NONE {
        assert SecOk(h, h.kvOwner[y], NONE);
      }
    }
  }

  /** Closing a file empties it and leaves the lists and contents of the others unchanged. */
  lemma CloseFileContent(h: Heap, f: nat)
    requires Ok(h) && InRange(h) && f < MAX_FILES
    ensures var g := CloseFile(h, f);
            && InRange(g) && Content(g, f) == []
            && forall e | 0 <= e < MAX_FILES && e != f :: Content(g, e) == Content(h, e)
  {
    var g := CloseFile(h, f);
    CloseFileOk(h, f);
    OkInRange(g, NONE, NONE);
    forall e | 0 <= e < MAX_FILES && e != f ensures Content(g, e) == Content(h, e) {
      assert FileOk(h, e);
      forall i | 0 <= i < |h.secLists[e]|
        ensures var x := h.secLists[e][i]; g.secs[x].name == h.secs[x].name && Entries(g, x) == Entries(h, x) {
        var x := h.secLists[e][i];
        assert SecOk(h, x, NONE);
        SameEntries(h, g, x);
      }
      SameContent(h, g, e);
    }
  }
}
