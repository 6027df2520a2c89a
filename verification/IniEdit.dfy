/** How one edit of the loaded sections commutes with loading the rest of a file. */
module IniEdit {
  import opened Wrappers
  import opened IniModel

  // ---------- the edits ----------

  function SetValue(m: Ini, x: nat, j: nat, v: string): Ini
    requires x < |m| && j < |m[x].entries|
  {
    m[x := Section(m[x].name, m[x].entries[j := Entry(m[x].entries[j].key, v)])]
  }

  function InsertFront(m: Ini, x: nat, e: Entry): Ini
    requires x < |m|
  {
    m[x := Section(m[x].name, [e] + m[x].entries)]
  }

  function RemoveAt<T>(s: seq<T>, x: nat): seq<T>
    requires x < |s|
  {
    s[..x] + s[x + 1..]
  }

  lemma SameNames(m: Ini, n: Ini, name: string)
    requires |m| == |n| && forall i | 0 <= i < |m| :: m[i].name == n[i].name
    ensures FindSection(m, name) == FindSection(n, name)
  {
  }

  lemma SameKeys(a: seq<Entry>, b: seq<Entry>, key: string)
    requires |a| == |b| && forall i | 0 <= i < |a| :: a[i].key == b[i].key
    ensures FindEntry(a, key) == FindEntry(b, key)
  {
  }

  // ---------- a new value ----------

  lemma StepSetValue(m: Ini, event: Event, x: nat, j: nat, v: string)
    requires x < |m| && j < |m[x].entries|
    ensures match Step(m, event)
            case None => Step(SetValue(m, x, j, v), event) == None
            case Some(n) => x < |n| && j < |n[x].entries| && Step(SetValue(m, x, j, v), event) == Some(SetValue(n, x, j, v))
  {
    var m' := SetValue(m, x, j, v);
    match event
    case Head(name) =>
      SameNames(m, m', name);
      assert m' + [Section(name, [])] == (m + [Section(name, [])])[x := m'[x]];
    case Pair(key, value) =>
      var i := |m| - 1;
      SameKeys(m[i].entries, m'[i].entries, key);
      if FindEntry(m[i].entries, key) < 0 {
        var n := AppendEntry(m, Entry(key, value));
        var n' := AppendEntry(m', Entry(key, value));
        if x == i {
          assert n'[i].entries == SetValue(n, x, j, v)[i].entries;
        }
        assert n' == SetValue(n, x, j, v);
      }
    case Skip =>
    case Bad =>
  }

  lemma {:induction false} LoadSetValue(m: Ini, events: seq<Event>, x: nat, j: nat, v: string)
    requires x < |m| && j < |m[x].entries|
    ensures match Load(m, events)
            case None => Load(SetValue(m, x, j, v), events) == None
            case Some(n) => x < |n| && j < |n[x].entries| && Load(SetValue(m, x, j, v), events) == Some(SetValue(n, x, j, v))
    decreases |events|
  {
    if events != [] {
      StepSetValue(m, events[0], x, j, v);
      match Step(m, events[0])
      case None =>
      case Some(n) => LoadSetValue(n, events[1..], x, j, v);
    }
  }

  // ---------- a new key in front of the others ----------

  predicate KeyFree(es: seq<Entry>, key: string) {
    forall i | 0 <= i < |es| :: es[i].key != key
  }

  lemma StepInsertFront(m: Ini, event: Event, x: nat, e: Entry)
    requires x < |m| && Step(m, event).Some? && KeyFree(Step(m, event).value[x].entries, e.key)
    ensures Step(InsertFront(m, x, e), event) == Some(InsertFront(Step(m, event).value, x, e))
  {
    var m' := InsertFront(m, x, e);
    var n := Step(m, event).value;
    match event
    case Head(name) =>
      SameNames(m, m', name);
      assert m' + [Section(name, [])] == InsertFront(n, x, e);
    case Pair(key, value) =>
      var i := |m| - 1;
      if x == i {
        assert n[i].entries[|m[i].entries|] == Entry(key, value);
        assert FindEntry(m'[i].entries, key) < 0;
        assert m'[i].entries + [Entry(key, value)] == [e] + n[i].entries;
      }
      assert AppendEntry(m', Entry(key, value)) == InsertFront(n, x, e);
    case Skip =>
    case Bad =>
  }

  lemma {:induction false} LoadInsertFront(m: Ini, events: seq<Event>, x: nat, e: Entry)
    requires x < |m| && Load(m, events).Some? && |m| <= |Load(m, events).value|
    requires KeyFree(Load(m, events).value[x].entries, e.key)
    ensures Load(InsertFront(m, x, e), events) == Some(InsertFront(Load(m, events).value, x, e))
    decreases |events|
  {
    if events != [] {
      var n := Step(m, events[0]).value;
      StepGrows(m, events[0]);
      LoadGrows(n, events[1..]);
      StillFree(n, Load(n, events[1..]).value, x, e.key);
      StepInsertFront(m, events[0], x, e);
      LoadInsertFront(n, events[1..], x, e);
    }
  }

  lemma StillFree(m: Ini, n: Ini, x: nat, key: string)
    requires x < |m| && Grown(m, n) && KeyFree(n[x].entries, key)
    ensures KeyFree(m[x].entries, key)
  {
    assert m[x].entries <= n[x].entries;
    assert forall i | 0 <= i < |m[x].entries| :: m[x].entries[i] == n[x].entries[i];
  }

  // ---------- a new section in front of the others ----------

  predicate NameFree(m: Ini, name: string) {
    forall i | 0 <= i < |m| :: m[i].name != name
  }

  lemma StepPrepend(s: Section, m: Ini, event: Event)
    requires Step(m, event).Some? && NameFree(Step(m, event).value, s.name)
    ensures Step([s] + m, event) == Some([s] + Step(m, event).value)
  {
    var n := Step(m, event).value;
    match event
    case Head(name) =>
      assert n[|m|].name == name;
      assert forall i | 0 <= i < |m| :: m[i].name == n[i].name;
      assert FindSection([s] + m, name) < 0;
      assert [s] + m + [Section(name, [])] == [s] + n;
    case Pair(key, value) =>
      assert ([s] + m)[|m|] == m[|m| - 1];
      assert AppendEntry([s] + m, Entry(key, value)) == [s] + n;
    case Skip =>
    case Bad =>
  }

  lemma {:induction false} LoadPrepend(s: Section, m: Ini, events: seq<Event>)
    requires Load(m, events).Some? && NameFree(Load(m, events).value, s.name)
    ensures Load([s] + m, events) == Some([s] + Load(m, events).value)
    decreases |events|
  {
    if events != [] {
      var n := Step(m, events[0]).value;
      LoadGrows(n, events[1..]);
      NameStillFree(n, Load(n, events[1..]).value, s.name);
      StepPrepend(s, m, events[0]);
      LoadPrepend(s, n, events[1..]);
    }
  }

  lemma NameStillFree(m: Ini, n: Ini, name: string)
    requires Grown(m, n) && NameFree(n, name)
    ensures NameFree(m, name)
  {
    assert forall i | 0 <= i < |m| :: m[i].name == n[i].name;
  }

  // ---------- a section less ----------

  lemma StepRemoveAt(m: Ini, event: Event, x: nat)
    requires x < |m| - 1 && Step(m, event).Some?
    ensures x < |Step(m, event).value| - 1
    ensures Step(RemoveAt(m, x), event) == Some(RemoveAt(Step(m, event).value, x))
  {
    var m' := RemoveAt(m, x);
    var n := Step(m, event).value;
    match event
    case Head(name) =>
      assert forall i | 0 <= i < |m'| :: m'[i] == m[if i < x then i else i + 1];
      assert FindSection(m', name) < 0;
      assert m' + [Section(name, [])] == RemoveAt(n, x);
    case Pair(key, value) =>
      assert m'[|m'| - 1] == m[|m| - 1];
      assert AppendEntry(m', Entry(key, value)) == RemoveAt(n, x);
    case Skip =>
    case Bad =>
  }

  lemma {:induction false} LoadRemoveAt(m: Ini, events: seq<Event>, x: nat)
    requires x < |m| - 1 && Load(m, events).Some?
    ensures x < |Load(m, events).value| - 1
    ensures Load(RemoveAt(m, x), events) == Some(RemoveAt(Load(m, events).value, x))
    decreases |events|
  {
    if events != [] {
      StepRemoveAt(m, events[0], x);
      LoadRemoveAt(Step(m, events[0]).value, events[1..], x);
    }
  }
}
