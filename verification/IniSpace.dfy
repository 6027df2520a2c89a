/** When the slot arrays are full, said of the sections and keys of the open files. */
module IniSpace {
  import opened Wrappers
  import opened IniText
  import opened IniModel
  import opened IniLoad
  import opened IniHeap

  /** How many keys there are in all sections. */
  function KeyCount(m: Ini): nat {
    if m == [] then 0 else KeyCount(m[..|m| - 1]) + |m[|m| - 1].entries|
  }

  // ---------- sets of slots ----------

  function Elements(list: seq<int>): set<int> {
    set x | x in list
  }

  lemma {:induction false} ElementsCount(list: seq<int>)
    requires Distinct(list)
    ensures |Elements(list)| == |list|
  {
    if list != [] {
      var first, last := list[..|list| - 1], list[|list| - 1];
      ElementsCount(first);
      assert list == first + [last];
      assert last !in first;
      assert Elements(list) == Elements(first) + {last};
    }
  }

  function Below(n: nat): (s: set<int>)
    ensures forall x :: x in s <==> 0 <= x < n
  {
    if n == 0 then {} else Below(n - 1) + {n - 1}
  }

  lemma {:induction false} BelowCount(n: nat)
    ensures |Below(n)| == n
  {
    if n > 0 {
      BelowCount(n - 1);
    }
  }

  lemma SubsetCount(a: set<int>, b: set<int>)
    requires a <= b
    ensures |a| <= |b| && (|a| == |b| <==> a == b)
  {
    assert b == a + (b - a);
    assert |b| == |a| + |b - a|;
    if |b - a| == 0 {
      assert b - a == {};
    }
  }

  lemma FullExactly(s: set<int>, n: nat)
    requires s <= Below(n)
    ensures |s| <= n && (|s| == n <==> forall x | 0 <= x < n :: x in s)
  {
    BelowCount(n);
    SubsetCount(s, Below(n));
    assert (forall x | 0 <= x < n :: x in s) <==> s == Below(n);
  }

  // ---------- the sections ----------

  function SecsInUse(h: Heap): set<int>
    requires Sized(h)
  {
    Elements(h.secLists[0]) + Elements(h.secLists[1])
  }

  lemma SecsInUseCount(h: Heap)
    requires Ok(h)
    ensures |SecsInUse(h)| == |h.secLists[0]| + |h.secLists[1]| && SecsInUse(h) <= Below(|h.secs|)
  {
    assert FileOk(h, 0) && FileOk(h, 1);
    ElementsCount(h.secLists[0]);
    ElementsCount(h.secLists[1]);
    assert Elements(h.secLists[0]) !! Elements(h.secLists[1]) by {
      assert forall x | x in h.secLists[0] :: h.secOwner[x] == 0;
      assert forall x | x in h.secLists[1] :: h.secOwner[x] == 1;
    }
  }

  lemma SecUsedExactly(h: Heap, x: nat)
    requires Ok(h) && x < MAX_SECTIONS
    ensures h.secs[x].used <==> x in SecsInUse(h)
  {
    assert SecOk(h, x, NONE) && FileOk(h, 0) && FileOk(h, 1);
  }

  /** Every section slot is used exactly when the two files have ten sections together. */
  lemma SecsFullExactly(h: Heap)
    requires Ok(h) && InRange(h)
    ensures |Content(h, 0)| + |Content(h, 1)| <= 10
    ensures (forall x | 0 <= x < MAX_SECTIONS :: h.secs[x].used) <==> |Content(h, 0)| + |Content(h, 1)| == 10
  {
    SecsInUseCount(h);
    FullExactly(SecsInUse(h), |h.secs|);
    forall x | 0 <= x < MAX_SECTIONS ensures h.secs[x].used <==> x in SecsInUse(h) {
      SecUsedExactly(h, x);
    }
  }

  // ---------- the keys ----------

  // The key slots of the first n sections of file f.
  function KeysOf(h: Heap, f: nat, n: nat): set<int>
    requires InRange(h) && f < MAX_FILES && n <= |h.secLists[f]|
  {
    if n == 0 then {} else KeysOf(h, f, n - 1) + Elements(h.kvLists[h.secLists[f][n - 1]])
  }

  lemma {:induction false} KeysOfMembers(h: Heap, f: nat, n: nat, y: int)
    requires InRange(h) && f < MAX_FILES && n <= |h.secLists[f]|
    ensures y in KeysOf(h, f, n) <==> exists i :: 0 <= i < n && y in h.kvLists[h.secLists[f][i]]
  {
    if n > 0 {
      KeysOfMembers(h, f, n - 1, y);
    }
  }

  lemma KeyOwner(h: Heap, f: nat, i: nat, y: int)
    requires Ok(h) && InRange(h) && f < MAX_FILES && i < |h.secLists[f]| && y in h.kvLists[h.secLists[f][i]]
    ensures 0 <= y < MAX_KEYVALUES && h.kvOwner[y] == h.secLists[f][i] && h.secOwner[h.secLists[f][i]] == f
    ensures h.kvs[y].used
  {
    assert SecOk(h, h.secLists[f][i], NONE) && FileOk(h, f);
    assert KvOk(h, y, NONE);
  }

  lemma {:induction false} KeysOfCount(h: Heap, f: nat, n: nat)
    requires Ok(h) && InRange(h) && f < MAX_FILES && n <= |h.secLists[f]|
    ensures |KeysOf(h, f, n)| == KeyCount(Content(h, f)[..n])
  {
    if n > 0 {
      var x, m := h.secLists[f][n - 1], Content(h, f)[..n];
      KeysOfCount(h, f, n - 1);
      assert m[..n - 1] == Content(h, f)[..n - 1] && m[n - 1] == Content(h, f)[n - 1];
      assert SecOk(h, x, NONE) && FileOk(h, f);
      ElementsCount(h.kvLists[x]);
      NewKeys(h, f, n - 1);
    } else {
      assert Content(h, f)[..0] == [];
    }
  }

  lemma NewKeys(h: Heap, f: nat, n: nat)
    requires Ok(h) && InRange(h) && f < MAX_FILES && n < |h.secLists[f]|
    ensures KeysOf(h, f, n) !! Elements(h.kvLists[h.secLists[f][n]])
  {
    assert FileOk(h, f);
    forall y | y in KeysOf(h, f, n) ensures y !in h.kvLists[h.secLists[f][n]] {
      KeysOfMembers(h, f, n, y);
      var i :| 0 <= i < n && y in h.kvLists[h.secLists[f][i]];
      KeyOwner(h, f, i, y);
      if y in h.kvLists[h.secLists[f][n]] {
        KeyOwner(h, f, n, y);
        assert false;
      }
    }
  }

  function KeysInUse(h: Heap): set<int>
    requires InRange(h)
  {
    KeysOf(h, 0, |h.secLists[0]|) + KeysOf(h, 1, |h.secLists[1]|)
  }

  lemma UsedKeyIsListed(h: Heap, y: nat) returns (f: nat, i: nat)
    requires Ok(h) && InRange(h) && y < MAX_KEYVALUES && h.kvs[y].used
    ensures f < MAX_FILES && i < |h.secLists[f]| && y in h.kvLists[h.secLists[f][i]]
  {
    assert KvOk(h, y, NONE);
    var x := h.kvOwner[y];
    assert SecOk(h, x, NONE);
    f := h.secOwner[x];
    i :| 0 <= i < |h.secLists[f]| && h.secLists[f][i] == x;
  }

  lemma KeyUsedExactly(h: Heap, y: nat)
    requires Ok(h) && InRange(h) && y < MAX_KEYVALUES
    ensures h.kvs[y].used <==> y in KeysInUse(h)
  {
    if h.kvs[y].used {
      var f, i := UsedKeyIsListed(h, y);
      KeysOfMembers(h, f, |h.secLists[f]|, y);
    }
    if y in KeysInUse(h) {
      ListedKeyIsUsed(h, if y in KeysOf(h, 0, |h.secLists[0]|) then 0 else 1, y);
    }
  }

  lemma ListedKeyIsUsed(h: Heap, f: nat, y: int)
    requires Ok(h) && InRange(h) && f < MAX_FILES && y in KeysOf(h, f, |h.secLists[f]|)
    ensures 0 <= y < MAX_KEYVALUES && h.kvs[y].used
  {
    KeysOfMembers(h, f, |h.secLists[f]|, y);
    var i :| 0 <= i < |h.secLists[f]| && y in h.kvLists[h.secLists[f][i]];
    KeyOwner(h, f, i, y);
  }

  lemma KeysApart(h: Heap, y: int)
    requires Ok(h) && InRange(h) && y in KeysOf(h, 0, |h.secLists[0]|)
    ensures y !in KeysOf(h, 1, |h.secLists[1]|)
  {
    KeyInFile(h, 0, y);
    if y in KeysOf(h, 1, |h.secLists[1]|) {
      KeyInFile(h, 1, y);
      assert false;
    }
  }

  lemma KeysInRange(h: Heap, f: nat)
    requires Ok(h) && InRange(h) && f < MAX_FILES
    ensures KeysOf(h, f, |h.secLists[f]|) <= Below(|h.kvs|)
    ensures |KeysOf(h, f, |h.secLists[f]|)| == KeyCount(Content(h, f))
  {
    forall y | y in KeysOf(h, f, |h.secLists[f]|) ensures y in Below(|h.kvs|) {
      KeyInFile(h, f, y);
    }
    KeysOfCount(h, f, |h.secLists[f]|);
    assert Content(h, f)[..|h.secLists[f]|] == Content(h, f);
  }

  lemma KeysInUseCount(h: Heap)
    requires Ok(h) && InRange(h)
    ensures |KeysInUse(h)| == KeyCount(Content(h, 0)) + KeyCount(Content(h, 1)) && KeysInUse(h) <= Below(|h.kvs|)
  {
    KeysInRange(h, 0);
    KeysInRange(h, 1);
    var a, b := KeysOf(h, 0, |h.secLists[0]|), KeysOf(h, 1, |h.secLists[1]|);
    forall y | y in a ensures y !in b {
      KeysApart(h, y);
    }
  }

  lemma KeyInFile(h: Heap, f: nat, y: int)
    requires Ok(h) && InRange(h) && f < MAX_FILES && y in KeysOf(h, f, |h.secLists[f]|)
    ensures 0 <= y < MAX_KEYVALUES && 0 <= h.kvOwner[y] < MAX_SECTIONS && h.secOwner[h.kvOwner[y]] == f
  {
    KeysOfMembers(h, f, |h.secLists[f]|, y);
    var i :| 0 <= i < |h.secLists[f]| && y in h.kvLists[h.secLists[f][i]];
    KeyOwner(h, f, i, y);
  }

  /** Every key slot is used exactly when the two files have a hundred keys together. */
  lemma KeysFullExactly(h: Heap)
    requires Ok(h) && InRange(h)
    ensures KeyCount(Content(h, 0)) + KeyCount(Content(h, 1)) <= 100
    ensures (forall y | 0 <= y < MAX_KEYVALUES :: h.kvs[y].used) <==> KeyCount(Content(h, 0)) + KeyCount(Content(h, 1)) == 100
  {
    KeysInUseCount(h);
    FullExactly(KeysInUse(h), |h.kvs|);
    forall y | 0 <= y < MAX_KEYVALUES ensures h.kvs[y].used <==> y in KeysInUse(h) {
      KeyUsedExactly(h, y);
    }
  }

  // ---------- a file that does not fit ----------

  /** Line i finds the ten sections, or the hundred keys, in use; secs and keys are those of the other file. */
  ghost predicate LineRunsOut(lines: seq<string>, i: nat, secs: nat, keys: nat)
    requires i < |lines|
  {
    var n := Load([], ReadAll(lines[..i]));
    && n.Some?
    && ((Kind(lines[i]) == SectionLine && |n.value| + secs == 10)
        || (Kind(lines[i]) == KeyValueLine && KeyCount(n.value) + keys == 100))
  }

  ghost predicate RunsOut(lines: seq<string>, secs: nat, keys: nat) {
    exists i :: 0 <= i < |lines| && LineRunsOut(lines, i, secs, keys)
  }

  lemma {:induction false} CountGrows(m: Ini, n: Ini)
    requires Grown(m, n)
    ensures KeyCount(m) <= KeyCount(n)
    decreases |n|
  {
    if |m| < |n| {
      assert forall i | 0 <= i < |n| - 1 :: n[..|n| - 1][i] == n[i];
      CountGrows(m, n[..|n| - 1]);
    } else if m != [] {
      assert m[..|m| - 1] == n[..|m| - 1];
    }
  }

  lemma CountAppended(m: Ini, e: Entry)
    requires m != []
    ensures KeyCount(AppendEntry(m, e)) == KeyCount(m) + 1
  {
    var n := AppendEntry(m, e);
    assert n[..|n| - 1] == m[..|m| - 1];
  }

  /** A file that loads to no more than there is room for does not run out. */
  lemma FittingDoesNotRunOut(lines: seq<string>, m: Ini, secs: nat, keys: nat)
    requires Load([], ReadAll(lines)) == Some(m) && |m| + secs <= 10 && KeyCount(m) + keys <= 100
    ensures !RunsOut(lines, secs, keys)
  {
    forall i | 0 <= i < |lines| ensures !LineRunsOut(lines, i, secs, keys) {
      LineFits(lines, i, m, secs, keys);
    }
  }

  // One more section or key before the end of the load.
  lemma OneMoreFits(n: Ini, event: Event, rest: seq<Event>, m: Ini)
    requires Step(n, event).Some? && Load(Step(n, event).value, rest) == Some(m)
    ensures event.Head? ==> |n| < |m|
    ensures event.Pair? ==> KeyCount(n) < KeyCount(m)
  {
    var n1 := Step(n, event).value;
    LoadGrows(n1, rest);
    CountGrows(n1, m);
    if event.Pair? {
      CountAppended(n, Entry(event.key, event.value));
    }
  }

  lemma LoadThrough(a: seq<Event>, event: Event, rest: seq<Event>, m: Ini)
    requires Load([], a + ([event] + rest)) == Some(m)
    ensures Load([], a).Some?
    ensures Step(Load([], a).value, event).Some? && Load(Step(Load([], a).value, event).value, rest) == Some(m)
  {
    LoadAppend([], a, [event] + rest);
    assert ([event] + rest)[1..] == rest;
  }

  lemma ReadsOn(lines: seq<string>, i: nat)
    requires i < |lines|
    ensures ReadAll(lines) == ReadAll(lines[..i]) + ([Read(lines[i])] + ReadAll(lines[i + 1..]))
  {
  }

  lemma LineFits(lines: seq<string>, i: nat, m: Ini, secs: nat, keys: nat)
    requires i < |lines| && Load([], ReadAll(lines)) == Some(m) && |m| + secs <= 10 && KeyCount(m) + keys <= 100
    ensures !LineRunsOut(lines, i, secs, keys)
  {
    var a, event, rest := ReadAll(lines[..i]), Read(lines[i]), ReadAll(lines[i + 1..]);
    ReadsOn(lines, i);
    LoadThrough(a, event, rest, m);
    OneMoreFits(Load([], a).value, event, rest, m);
    KindOfEvent(lines[i]);
  }

  lemma KindOfEvent(line: string)
    requires Read(line) != Bad
    ensures Kind(line) == SectionLine ==> Read(line).Head?
    ensures Kind(line) == KeyValueLine ==> Read(line).Pair?
  {
  }
}
