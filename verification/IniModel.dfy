/** The sections and keys a file is loaded into, as a fold over what its lines say. */
module IniModel {
  import opened Wrappers
  import opened IniText

  datatype Entry = Entry(key: string, value: string)

  datatype Section = Section(name: string, entries: seq<Entry>)

  type Ini = seq<Section>

  /** The index of the section called name, or -1. */
  function FindSection(m: Ini, name: string): (i: int)
    ensures -1 <= i < |m|
    ensures i == -1 ==> forall j | 0 <= j < |m| :: m[j].name != name
    ensures 0 <= i ==> m[i].name == name && forall j | 0 <= j < i :: m[j].name != name
  {
    FindSectionFrom(m, name, 0)
  }

  function FindSectionFrom(m: Ini, name: string, n: nat): (i: int)
    requires n <= |m|
    ensures i == -1 || n <= i < |m|
    ensures i == -1 ==> forall j | n <= j < |m| :: m[j].name != name
    ensures 0 <= i ==> m[i].name == name && forall j | n <= j < i :: m[j].name != name
    decreases |m| - n
  {
    if n == |m| then -1 else if m[n].name == name then n else FindSectionFrom(m, name, n + 1)
  }

  /** The index of the entry with this key, or -1. */
  function FindEntry(es: seq<Entry>, key: string): (i: int)
    ensures -1 <= i < |es|
    ensures i == -1 ==> forall j | 0 <= j < |es| :: es[j].key != key
    ensures 0 <= i ==> es[i].key == key && forall j | 0 <= j < i :: es[j].key != key
  {
    FindEntryFrom(es, key, 0)
  }

  function FindEntryFrom(es: seq<Entry>, key: string, n: nat): (i: int)
    requires n <= |es|
    ensures i == -1 || n <= i < |es|
    ensures i == -1 ==> forall j | n <= j < |es| :: es[j].key != key
    ensures 0 <= i ==> es[i].key == key && forall j | n <= j < i :: es[j].key != key
    decreases |es| - n
  {
    if n == |es| then -1 else if es[n].key == key then n else FindEntryFrom(es, key, n + 1)
  }

  // ---------- loading ----------

  /** What one line asks of the loader. */
  datatype Event = Head(name: string) | Pair(key: string, value: string) | Skip | Bad

  function AppendEntry(m: Ini, e: Entry): Ini
    requires m != []
  {
    var last := m[|m| - 1];
    m[|m| - 1 := Section(last.name, last.entries + [e])]
  }

  /** The loaded sections after one more line; None is INIFILE_FORMAT_ERROR. */
  function Step(m: Ini, event: Event): Option<Ini> {
    match event
    case Head(n) => if 0 <= FindSection(m, n) then None else Some(m + [Section(n, [])])
    case Pair(k, v) =>
      if m == [] || 0 <= FindEntry(m[|m| - 1].entries, k) then None else Some(AppendEntry(m, Entry(k, v)))
    case Skip => Some(m)
    case Bad => None
  }

  function Load(m: Ini, events: seq<Event>): Option<Ini>
    decreases |events|
  {
    if events == [] then Some(m)
    else
      match Step(m, events[0])
      case None => None
      case Some(m1) => Load(m1, events[1..])
  }

  lemma {:induction false} LoadAppend(m: Ini, a: seq<Event>, b: seq<Event>)
    ensures Load(m, a + b) == match Load(m, a) case None => None case Some(m1) => Load(m1, b)
    decreases |a|
  {
    if a == [] {
      assert a + b == b;
    } else {
      assert (a + b)[1..] == a[1..] + b;
      match Step(m, a[0])
      case None =>
      case Some(m1) => LoadAppend(m1, a[1..], b);
    }
  }

  // ---------- what loading preserves ----------

  predicate UniqueKeys(es: seq<Entry>) {
    forall i, j | 0 <= i < j < |es| :: es[i].key != es[j].key
  }

  predicate UniqueNames(m: Ini) {
    forall i, j | 0 <= i < j < |m| :: m[i].name != m[j].name
  }

  /** Section names are unique, and so are the keys of a section. */
  predicate Unique(m: Ini) {
    UniqueNames(m) && forall i | 0 <= i < |m| :: UniqueKeys(m[i].entries)
  }

  predicate CleanEntry(e: Entry) {
    CleanKey(e.key) && CleanValue(e.value)
  }

  predicate CleanSection(s: Section) {
    CleanName(s.name) && forall i | 0 <= i < |s.entries| :: CleanEntry(s.entries[i])
  }

  predicate Clean(m: Ini) {
    forall i | 0 <= i < |m| :: CleanSection(m[i])
  }

  predicate CleanEvent(event: Event) {
    match event
    case Head(n) => CleanName(n)
    case Pair(k, v) => CleanEntry(Entry(k, v))
    case _ => true
  }

  lemma StepKeepsUnique(m: Ini, event: Event)
    requires Unique(m) && Step(m, event).Some?
    ensures Unique(Step(m, event).value)
  {
  }

  lemma StepKeepsClean(m: Ini, event: Event)
    requires Clean(m) && CleanEvent(event) && Step(m, event).Some?
    ensures Clean(Step(m, event).value)
  {
    if event.Pair? {
      var i := |m| - 1;
      assert CleanSection(m[i]);
      assert CleanSection(Step(m, event).value[i]);
    }
  }

  lemma {:induction false} LoadKeepsCleanAndUnique(m: Ini, events: seq<Event>)
    requires Clean(m) && Unique(m)
    requires forall i | 0 <= i < |events| :: CleanEvent(events[i])
    requires Load(m, events).Some?
    ensures Clean(Load(m, events).value) && Unique(Load(m, events).value)
    decreases |events|
  {
    if events != [] {
      StepKeepsUnique(m, events[0]);
      StepKeepsClean(m, events[0]);
      LoadKeepsCleanAndUnique(Step(m, events[0]).value, events[1..]);
    }
  }

  /** n is m grown at the end: nothing but the last section of m has changed, and that by appending. */
  ghost predicate Grown(m: Ini, n: Ini) {
    && |m| <= |n|
    && (forall i | 0 <= i < |m| - 1 :: n[i] == m[i])
    && (m != [] ==> n[|m| - 1].name == m[|m| - 1].name && m[|m| - 1].entries <= n[|m| - 1].entries)
  }

  lemma StepGrows(m: Ini, event: Event)
    requires Step(m, event).Some?
    ensures Grown(m, Step(m, event).value)
  {
  }

  lemma GrownTrans(a: Ini, b: Ini, c: Ini)
    requires Grown(a, b) && Grown(b, c)
    ensures Grown(a, c)
  {
  }

  lemma {:induction false} LoadGrows(m: Ini, events: seq<Event>)
    requires Load(m, events).Some?
    ensures Grown(m, Load(m, events).value)
    decreases |events|
  {
    if events != [] {
      var m1 := Step(m, events[0]).value;
      StepGrows(m, events[0]);
      LoadGrows(m1, events[1..]);
      GrownTrans(m, m1, Load(m1, events[1..]).value);
    }
  }
}
