/** Which loaded line a rewrite touches, and what the touched sequence of lines loads to. */
module IniTarget {
  import opened Wrappers
  import opened IniText
  import opened IniModel
  import opened IniEdit

  /** The test the rewrites apply to keys: equal, or continued behind a blank. */
  predicate PrefixMatch(key: string, k: string) {
    key == k || (|k| < |key| && key[..|k|] == k && Blank(key[|k|]))
  }

  /** The index of the first entry whose key passes the test, or -1. */
  function FirstMatch(es: seq<Entry>, k: string): (i: int)
    ensures -1 <= i < |es|
    ensures i == -1 ==> forall j | 0 <= j < |es| :: !PrefixMatch(es[j].key, k)
    ensures 0 <= i ==> PrefixMatch(es[i].key, k) && forall j | 0 <= j < i :: !PrefixMatch(es[j].key, k)
  {
    FirstMatchFrom(es, k, 0)
  }

  function FirstMatchFrom(es: seq<Entry>, k: string, n: nat): (i: int)
    requires n <= |es|
    ensures i == -1 || n <= i < |es|
    ensures i == -1 ==> forall j | n <= j < |es| :: !PrefixMatch(es[j].key, k)
    ensures 0 <= i ==> PrefixMatch(es[i].key, k) && forall j | n <= j < i :: !PrefixMatch(es[j].key, k)
    decreases |es| - n
  {
    if n == |es| then -1 else if PrefixMatch(es[n].key, k) then n else FirstMatchFrom(es, k, n + 1)
  }

  // ---------- a section is where its header put it ----------

  lemma SectionAt(m: Ini, n: Ini, s: string)
    requires NameFree(m, s) && Grown(m + [Section(s, [])], n)
    ensures FindSection(n, s) == |m|
  {
    var m1 := m + [Section(s, [])];
    assert forall i | 0 <= i < |m| :: n[i].name == m1[i].name == m[i].name;
    assert n[|m|].name == m1[|m|].name == s;
  }

  lemma SameFirstMatch(es: seq<Entry>, more: seq<Entry>, k: string)
    requires FirstMatch(es, k) < 0 && |es| < |more| && es <= more && PrefixMatch(more[|es|].key, k)
    ensures FirstMatch(more, k) == |es|
  {
    assert forall j | 0 <= j < |es| :: more[j] == es[j];
  }

  // ---------- update ----------

  /** Behind the header of s (flag), the first key that passes the test; later headers do not clear flag. */
  function UpdateTarget(events: seq<Event>, flag: bool, s: string, k: string): (i: int)
    ensures -1 <= i < |events|
    decreases |events|
  {
    if events == [] then -1
    else if events[0].Pair? && flag && PrefixMatch(events[0].key, k) then 0
    else
      var i := UpdateTarget(events[1..], flag || events[0] == Head(s), s, k);
      if i < 0 then -1 else i + 1
  }

  // What is known of the target section while its header has (flag) or has not been met.
  ghost predicate Seeking(m: Ini, n: Ini, flag: bool, s: string, k: string) {
    && Grown(m, n)
    && 0 <= FindSection(n, s) && 0 <= FirstMatch(n[FindSection(n, s)].entries, k)
    && (!flag ==> NameFree(m, s))
    && (flag ==> FindSection(n, s) == |m| - 1 && FirstMatch(m[|m| - 1].entries, k) < 0)
  }

  lemma SeekStep(m: Ini, n: Ini, event: Event, flag: bool, s: string, k: string)
    requires Seeking(m, n, flag, s, k)
    requires Step(m, event).Some? && Grown(Step(m, event).value, n)
    requires !(event.Pair? && flag && PrefixMatch(event.key, k))
    ensures Seeking(Step(m, event).value, n, flag || event == Head(s), s, k)
  {
    var m1 := Step(m, event).value;
    match event
    case Head(name) =>
      if flag {
        assert false;
      } else if name == s {
        SectionAt(m, n, s);
      }
    case Pair(key, value) =>
      assert forall i | 0 <= i < |m| :: m1[i].name == m[i].name;
      if flag {
        var es := m1[|m| - 1].entries;
        assert forall j | 0 <= j < |es| - 1 :: es[j] == m[|m| - 1].entries[j];
      }
    case Skip =>
    case Bad =>
  }

  /** Replacing the value on the target line loads to the same sections with that one value replaced. */
  lemma {:induction false} UpdateEvents(m: Ini, events: seq<Event>, flag: bool, s: string, k: string, v: string)
    requires Load(m, events).Some? && Seeking(m, Load(m, events).value, flag, s, k)
    ensures var n := Load(m, events).value;
            var i := UpdateTarget(events, flag, s, k);
            var x := FindSection(n, s);
            var j := FirstMatch(n[x].entries, k);
            && 0 <= i && events[i].Pair? && events[i].key == n[x].entries[j].key
            && Load(m, events[i := Pair(events[i].key, v)]) == Some(SetValue(n, x, j, v))
    decreases |events|
  {
    var n := Load(m, events).value;
    assert events != [];
    var event := events[0];
    var m1 := Step(m, event).value;
    StepGrows(m, event);
    LoadGrows(m1, events[1..]);
    if event.Pair? && flag && PrefixMatch(event.key, k) {
      UpdateHit(m, n, events, s, k, v);
    } else {
      SeekStep(m, n, event, flag, s, k);
      var flag1 := flag || event == Head(s);
      UpdateEvents(m1, events[1..], flag1, s, k, v);
      var i := UpdateTarget(events[1..], flag1, s, k);
      var e := Pair(events[i + 1].key, v);
      assert events[i + 1 := e][1..] == events[1..][i := e];
    }
  }

  lemma UpdateHit(m: Ini, n: Ini, events: seq<Event>, s: string, k: string, v: string)
    requires events != [] && Load(m, events) == Some(n) && Seeking(m, n, true, s, k)
    requires events[0].Pair? && PrefixMatch(events[0].key, k)
    ensures var x, j := |m| - 1, |m[|m| - 1].entries|;
            && x == FindSection(n, s) && j == FirstMatch(n[x].entries, k) && events[0].key == n[x].entries[j].key
            && Load(m, events[0 := Pair(events[0].key, v)]) == Some(SetValue(n, x, j, v))
  {
    var x, j := |m| - 1, |m[|m| - 1].entries|;
    var m1 := Step(m, events[0]).value;
    LoadGrows(m1, events[1..]);
    assert m1[x].entries[j] == Entry(events[0].key, events[0].value);
    assert m1[x].entries <= n[x].entries;
    assert n[x].entries[j] == m1[x].entries[j];
    SameFirstMatch(m[x].entries, n[x].entries, k);
    var e := Pair(events[0].key, v);
    assert Step(m, e).value == SetValue(m1, x, j, v) by {
      assert Step(m, e).value[x].entries == m1[x].entries[j := Entry(events[0].key, v)];
    }
    LoadSetValue(m1, events[1..], x, j, v);
    assert events[0 := e][1..] == events[1..];
  }

  // ---------- header ----------

  /** The first header of s, or -1. */
  function HeadTarget(events: seq<Event>, s: string): (i: int)
    ensures -1 <= i < |events|
    ensures 0 <= i ==> events[i] == Head(s)
    decreases |events|
  {
    if events == [] then -1
    else if events[0] == Head(s) then 0
    else
      var i := HeadTarget(events[1..], s);
      if i < 0 then -1 else i + 1
  }

  lemma {:induction false} HeadTargetFound(m: Ini, events: seq<Event>, s: string)
    requires Load(m, events).Some? && NameFree(m, s) && 0 <= FindSection(Load(m, events).value, s)
    ensures 0 <= HeadTarget(events, s)
    decreases |events|
  {
    if events != [] && events[0] != Head(s) {
      HeadTargetFound(Step(m, events[0]).value, events[1..], s);
    }
  }

  // ---------- add a key ----------

  lemma FirstKey(m: Ini, s: string, e: Entry)
    ensures var m1 := m + [Section(s, [])];
            Step(m1, Pair(e.key, e.value)) == Some(InsertFront(m1, |m|, e))
  {
    assert [] + [e] == [e] + [];
  }

  /** A pair put behind the header of s loads as the first key of s. */
  lemma {:induction false} AddEvents(m: Ini, events: seq<Event>, s: string, e: Entry)
    requires Load(m, events).Some? && NameFree(m, s)
    requires var n := Load(m, events).value;
             0 <= FindSection(n, s) && KeyFree(n[FindSection(n, s)].entries, e.key)
    ensures var n := Load(m, events).value;
            var i := HeadTarget(events, s);
            0 <= i && Load(m, events[..i + 1] + [Pair(e.key, e.value)] + events[i + 1..]) ==
                      Some(InsertFront(n, FindSection(n, s), e))
    decreases |events|
  {
    HeadTargetFound(m, events, s);
    var n := Load(m, events).value;
    var m1 := Step(m, events[0]).value;
    var p := [Pair(e.key, e.value)];
    LoadGrows(m1, events[1..]);
    if events[0] == Head(s) {
      SectionAt(m, n, s);
      FirstKey(m, s, e);
      LoadInsertFront(m1, events[1..], |m|, e);
      assert Load(m1, p) == Some(InsertFront(m1, |m|, e)) by {
        assert p[1..] == [];
      }
      LoadAppend(m1, p, events[1..]);
      var grown := events[..1] + p + events[1..];
      assert grown[1..] == p + events[1..];
    } else {
      AddEvents(m1, events[1..], s, e);
      var i := HeadTarget(events[1..], s);
      var grown := events[..i + 2] + p + events[i + 2..];
      assert grown[1..] == events[1..][..i + 1] + p + events[1..][i + 1..];
      assert grown[0] == events[0];
    }
  }

  // ---------- delete a section ----------

  function DropPairs(events: seq<Event>): seq<Event>
    decreases |events|
  {
    if events == [] || events[0].Head? then events
    else if events[0].Pair? then DropPairs(events[1..])
    else [events[0]] + DropPairs(events[1..])
  }

  function DeleteSectionEvents(events: seq<Event>, s: string): seq<Event>
    decreases |events|
  {
    if events == [] then []
    else if events[0] == Head(s) then DropPairs(events[1..])
    else [events[0]] + DeleteSectionEvents(events[1..], s)
  }

  lemma {:induction false} LoadDropPairs(m: Ini, sec: Section, events: seq<Event>)
    requires Load(m + [sec], events).Some?
    ensures |m| < |Load(m + [sec], events).value|
    ensures Load(m, DropPairs(events)) == Some(RemoveAt(Load(m + [sec], events).value, |m|))
    decreases |events|
  {
    if events == [] {
      assert RemoveAt(m + [sec], |m|) == m;
    } else {
      var m1 := m + [sec];
      var event := events[0];
      match event
      case Head(name) =>
        var n := m1 + [Section(name, [])];
        assert forall i | 0 <= i < |m| :: m1[i] == m[i];
        assert FindSection(m, name) < 0;
        assert RemoveAt(n, |m|) == m + [Section(name, [])];
        LoadRemoveAt(n, events[1..], |m|);
      case Pair(key, value) =>
        var sec1 := Section(sec.name, sec.entries + [Entry(key, value)]);
        assert Step(m1, event).value == m + [sec1];
        LoadDropPairs(m, sec1, events[1..]);
      case Skip =>
        LoadDropPairs(m, sec, events[1..]);
        assert ([event] + DropPairs(events[1..]))[1..] == DropPairs(events[1..]);
      case Bad =>
    }
  }

  /** Dropping the header of s and its pairs loads to the same sections without s. */
  lemma {:induction false} DeleteEvents(m: Ini, events: seq<Event>, s: string)
    requires Load(m, events).Some? && NameFree(m, s) && 0 <= FindSection(Load(m, events).value, s)
    ensures var n := Load(m, events).value;
            Load(m, DeleteSectionEvents(events, s)) == Some(RemoveAt(n, FindSection(n, s)))
    decreases |events|
  {
    var n := Load(m, events).value;
    assert events != [];
    var m1 := Step(m, events[0]).value;
    if events[0] == Head(s) {
      LoadGrows(m1, events[1..]);
      SectionAt(m, n, s);
      LoadDropPairs(m, Section(s, []), events[1..]);
    } else {
      DeleteEvents(m1, events[1..], s);
      var rest := DeleteSectionEvents(events[1..], s);
      assert ([events[0]] + rest)[1..] == rest;
    }
  }

  // ---------- a section has one header ----------

  lemma {:induction false} NamesComeFromHeads(m: Ini, events: seq<Event>, s: string)
    requires Load(m, events).Some? && NameFree(m, s)
    requires forall i | 0 <= i < |events| :: events[i] != Head(s)
    ensures NameFree(Load(m, events).value, s)
    decreases |events|
  {
    if events != [] {
      NamesComeFromHeads(Step(m, events[0]).value, events[1..], s);
    }
  }

  lemma {:induction false} NoSecondHead(m: Ini, events: seq<Event>, s: string)
    requires Load(m, events).Some? && !NameFree(m, s)
    ensures forall i | 0 <= i < |events| :: events[i] != Head(s)
    decreases |events|
  {
    if events != [] {
      var m1 := Step(m, events[0]).value;
      assert forall i | 0 <= i < |m| :: m1[i].name == m[i].name;
      NoSecondHead(m1, events[1..], s);
      assert forall i | 1 <= i < |events| :: events[i] == events[1..][i - 1];
    }
  }

  lemma {:induction false} HeadsAreSections(m: Ini, events: seq<Event>, i: nat, s: string)
    requires Load(m, events).Some? && i < |events| && events[i] == Head(s)
    ensures 0 <= FindSection(Load(m, events).value, s)
    decreases |events|
  {
    var m1 := Step(m, events[0]).value;
    LoadGrows(m1, events[1..]);
    if i == 0 {
      assert Load(m, events).value[|m|].name == s;
    } else {
      HeadsAreSections(m1, events[1..], i - 1, s);
    }
  }

  // ---------- loading behind other sections ----------

  /** Behind sections h the events that load to m by themselves add m, or are refused. */
  lemma {:induction false} LoadBehind(h: Ini, m: Ini, events: seq<Event>)
    requires Load(m, events).Some? && Load(h + m, events).Some?
    ensures Load(h + m, events) == Some(h + Load(m, events).value)
    decreases |events|
  {
    if events != [] {
      var e := events[0];
      var m1 := Step(m, e).value;
      if e.Head? {
        assert h + m + [Section(e.name, [])] == h + m1;
      } else if e.Pair? {
        assert AppendEntry(h + m, Entry(e.key, e.value)) == h + m1;
      }
      LoadBehind(h, m1, events[1..]);
    }
  }

  /** They are not refused when the names differ. */
  lemma {:induction false} LoadBehindFree(h: Ini, m: Ini, events: seq<Event>)
    requires Load(m, events).Some?
    requires forall i | 0 <= i < |h| :: NameFree(Load(m, events).value, h[i].name)
    ensures Load(h + m, events).Some?
    decreases |events|
  {
    if events != [] {
      var e := events[0];
      var m1 := Step(m, e).value;
      LoadGrows(m1, events[1..]);
      if e.Head? {
        var n := Load(m, events).value;
        assert n[|m|].name == e.name;
        assert forall i | 0 <= i < |h| :: h[i].name != e.name;
        assert forall i | 0 <= i < |m| :: (h + m)[|h| + i] == m[i];
        assert h + m + [Section(e.name, [])] == h + m1;
      } else if e.Pair? {
        assert (h + m)[|h + m| - 1] == m[|m| - 1];
        assert AppendEntry(h + m, Entry(e.key, e.value)) == h + m1;
      }
      LoadBehindFree(h, m1, events[1..]);
    }
  }

  /** What is accepted behind them is accepted by itself, once there is a section to add to. */
  lemma {:induction false} LoadAlone(h: Ini, m: Ini, events: seq<Event>)
    requires m != [] && Load(h + m, events).Some?
    ensures Load(m, events).Some?
    decreases |events|
  {
    if events != [] {
      var e := events[0];
      if e.Head? {
        assert forall i | 0 <= i < |m| :: (h + m)[|h| + i] == m[i];
        assert h + m + [Section(e.name, [])] == h + (m + [Section(e.name, [])]);
        LoadAlone(h, m + [Section(e.name, [])], events[1..]);
      } else if e.Pair? {
        assert (h + m)[|h + m| - 1] == m[|m| - 1];
        assert AppendEntry(h + m, Entry(e.key, e.value)) == h + AppendEntry(m, Entry(e.key, e.value));
        LoadAlone(h, AppendEntry(m, Entry(e.key, e.value)), events[1..]);
      } else {
        LoadAlone(h, m, events[1..]);
      }
    }
  }

  // ---------- entries in front of a section's ----------

  function Fronted(m: Ini, x: nat, es: seq<Entry>): Ini
    requires x < |m|
  {
    m[x := Section(m[x].name, es + m[x].entries)]
  }

  lemma StepFronted(m: Ini, event: Event, x: nat, es: seq<Entry>)
    requires x < |m| && Step(m, event).Some? && Step(Fronted(m, x, es), event).Some?
    ensures Step(Fronted(m, x, es), event) == Some(Fronted(Step(m, event).value, x, es))
  {
    if event.Pair? {
      var e := Entry(event.key, event.value);
      var n := Fronted(AppendEntry(m, e), x, es);
      if x == |m| - 1 {
        assert es + m[x].entries + [e] == es + (m[x].entries + [e]);
        assert AppendEntry(Fronted(m, x, es), e)[x] == n[x];
      }
      assert AppendEntry(Fronted(m, x, es), e) == n;
    } else if event.Head? {
      var s := [Section(event.name, [])];
      assert Fronted(m, x, es) + s == Fronted(m + s, x, es);
    }
  }

  /** Loading on with more entries in a section gives, if nothing is refused, the old result with them in front. */
  lemma {:induction false} LoadFronted(m: Ini, events: seq<Event>, x: nat, es: seq<Entry>)
    requires x < |m| && Load(m, events).Some? && Load(Fronted(m, x, es), events).Some?
    ensures x < |Load(m, events).value|
    ensures Load(Fronted(m, x, es), events) == Some(Fronted(Load(m, events).value, x, es))
    decreases |events|
  {
    if events != [] {
      StepGrows(m, events[0]);
      StepFronted(m, events[0], x, es);
      LoadFronted(Step(m, events[0]).value, events[1..], x, es);
    }
  }

  // ---------- a pair that has lost its header ----------

  /** The first event that is no blank line or note is a pair. */
  predicate PairFirst(events: seq<Event>)
    decreases |events|
  {
    events != [] && (events[0].Pair? || (events[0].Skip? && PairFirst(events[1..])))
  }

  /** It goes to the last section of m, which has no such key, or is refused. */
  lemma {:induction false} PairGoesToLast(m: Ini, events: seq<Event>) returns (key: string)
    requires PairFirst(events) && Load(m, events).Some?
    ensures m != [] && FindEntry(m[|m| - 1].entries, key) < 0
    ensures var n := Load(m, events).value;
            |m| <= |n| && n[|m| - 1].name == m[|m| - 1].name && 0 <= FindEntry(n[|m| - 1].entries, key)
    decreases |events|
  {
    if events[0].Pair? {
      key := events[0].key;
      var m1 := Step(m, events[0]).value;
      LoadGrows(m1, events[1..]);
      var n := Load(m1, events[1..]).value;
      assert m1[|m| - 1].entries[|m[|m| - 1].entries|].key == key;
      assert n[|m| - 1].entries[|m[|m| - 1].entries|].key == key;
    } else {
      key := PairGoesToLast(m, events[1..]);
    }
  }
}
