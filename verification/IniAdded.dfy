/** Exactly when adding a key leaves file and index together. */
module IniAdded {
  import opened Wrappers
  import opened IniText
  import opened IniModel
  import opened IniLoad
  import opened IniEdit
  import opened IniTarget
  import opened IniRewrite
  import opened IniSquare
  import opened IniDb
  import opened IniGuard

  // ---------- the file behind the header ----------

  // What is loaded in front of the header of s, and that the rest makes m of it.
  ghost predicate HeaderAt(events: seq<Event>, i: nat, m0: Ini, s: string, m: Ini) {
    && i < |events| && events[i] == Head(s) && NameFree(m0, s)
    && Load([], events[..i]) == Some(m0) && Load(m0 + [Section(s, [])], events[i + 1..]) == Some(m)
  }

  lemma SplitAtHeader(events: seq<Event>, s: string, m: Ini) returns (m0: Ini)
    requires Load([], events) == Some(m) && Unique(m) && 0 <= HeadTarget(events, s)
    ensures HeaderAt(events, HeadTarget(events, s), m0, s, m) && FindSection(m, s) == |m0|
  {
    var i := HeadTarget(events, s);
    var a, b := events[..i], events[i..];
    assert events == a + b && b[1..] == events[i + 1..];
    LoadAppend([], a, b);
    m0 := Load([], a).value;
    LoadGrows(m0 + [Section(s, [])], b[1..]);
    SectionAt(m0, m, s);
  }

  /** Sections u read where the header was: only the section with the new pair alone gives the map with the pair. */
  lemma OnlyTheNewKey(m0: Ini, u: Ini, rest: seq<Event>, s: string, m: Ini, n: Ini, key: string, value: string)
    requires NameFree(m0, s) && Load(m0 + [Section(s, [])], rest) == Some(m) && Unique(m)
    requires u != [] && u[0].name == s && Load(m0 + u, rest) == Some(n) && Unique(n)
    requires FindSection(m, s) == |m0| && KeyFree(m[|m0|].entries, key)
    requires AsMap(n) == AsMap(m)[s := EntryMap(m[|m0|].entries)[key := value]]
    ensures u == [Section(s, [Entry(key, value)])]
  {
    forall t | 0 <= FindSection(n, t) ensures t == s || 0 <= FindSection(m, t) {
      FindSectionIsLookup(n, t);
      FindSectionIsLookup(m, t);
    }
    OnlyOneSection(m0, u, rest, s, m, n);
    var m1, es := m0 + [Section(s, [])], u[0].entries;
    InFront(m0, u, s);
    LoadFronted(m1, rest, |m0|, es);
    assert n == Fronted(m, |m0|, es);
    SameNames(m, n, s);
    FindSectionIsLookup(n, s);
    OneNewEntry(es, m[|m0|].entries, key, value);
  }

  lemma InFront(m0: Ini, u: Ini, s: string)
    requires |u| == 1 && u[0].name == s
    ensures m0 + u == Fronted(m0 + [Section(s, [])], |m0|, u[0].entries)
  {
    assert u[0].entries + [] == u[0].entries;
  }

  lemma OnlyOneSection(m0: Ini, u: Ini, rest: seq<Event>, s: string, m: Ini, n: Ini)
    requires NameFree(m0, s) && Load(m0 + [Section(s, [])], rest) == Some(m)
    requires u != [] && u[0].name == s && Load(m0 + u, rest) == Some(n) && Unique(n)
    requires forall t | 0 <= FindSection(n, t) :: t == s || 0 <= FindSection(m, t)
    ensures |u| == 1
  {
    if 1 < |u| {
      SecondIsNew(m0, u, rest, s, m, n);
      assert false;
    }
  }

  // A second section of u is no section of m.
  lemma SecondIsNew(m0: Ini, u: Ini, rest: seq<Event>, s: string, m: Ini, n: Ini)
    requires NameFree(m0, s) && Load(m0 + [Section(s, [])], rest) == Some(m)
    requires 1 < |u| && u[0].name == s && Load(m0 + u, rest) == Some(n) && Unique(n)
    ensures u[1].name != s && FindSection(m, u[1].name) < 0 <= FindSection(n, u[1].name)
  {
    var m1, name := m0 + [Section(s, [])], u[1].name;
    LoadGrows(m0 + u, rest);
    assert (m0 + u)[|m0| + 1] == u[1] && n[|m0| + 1].name == name && n[|m0|].name == s;
    NoSecondHead(m0 + u, rest, name);
    assert forall i | 0 <= i < |m0| :: n[i].name == m0[i].name;
    assert NameFree(m1, name);
    NamesComeFromHeads(m1, rest, name);
  }

  lemma OneNewEntry(es: seq<Entry>, own: seq<Entry>, key: string, value: string)
    requires UniqueKeys(es + own) && KeyFree(own, key)
    requires EntryMap(es + own) == EntryMap(own)[key := value]
    ensures es == [Entry(key, value)]
  {
    var all := es + own;
    forall i | 0 <= i < |es| ensures es[i].key == key {
      FindEntryIsLookup(all, es[i].key);
      FindEntryIsLookup(own, es[i].key);
      NotInBoth(es, own, i);
    }
    FindEntryIsLookup(all, key);
    FindEntryIsLookup(own, key);
    AllOneKey(es, own, key);
  }

  lemma NotInBoth(es: seq<Entry>, own: seq<Entry>, i: nat)
    requires UniqueKeys(es + own) && i < |es|
    ensures FindEntry(own, es[i].key) < 0 <= FindEntry(es + own, es[i].key)
  {
    var all := es + own;
    assert all[i] == es[i] && forall j | 0 <= j < |own| :: all[|es| + j] == own[j];
  }

  lemma KeyTwice(es: seq<Entry>, key: string)
    requires 1 < |es| && forall i | 0 <= i < |es| :: es[i].key == key
    ensures !UniqueKeys(es)
  {
    assert es[0].key == es[1].key;
  }

  lemma AllOneKey(es: seq<Entry>, own: seq<Entry>, key: string)
    requires UniqueKeys(es + own) && KeyFree(own, key) && 0 <= FindEntry(es + own, key)
    requires forall i | 0 <= i < |es| :: es[i].key == key
    ensures es == [(es + own)[FindEntry(es + own, key)]]
  {
    var all := es + own;
    assert forall i | 0 <= i < |es| :: all[i] == es[i];
    assert forall j | 0 <= j < |own| :: all[|es| + j] == own[j];
    if 1 < |es| {
      KeyTwice(es, key);
      assert false;
    }
  }

  // ---------- the header line and what is put behind it ----------

  /** The line the pair is put behind. */
  function HeaderOf(text: string, s: string): string {
    var lines := SplitLines(text);
    match HeaderLine(lines, 0, s)
    case At(i) => lines[i]
    case _ => ""
  }

  // A line that begins with a header is that header still, or unreadable.
  lemma BeginsWithHeader(l: string, f: string, s: string)
    requires Read(l) == Head(s) && l <= f
    ensures Read(f) == Head(s) || Read(f) == Bad
  {
    assert forall i | 0 <= i < |l| :: f[i] == l[i];
    SamePrefixFirst(f, l, |l|, '[');
    SamePrefixFirst(f, l, |l|, ']');
    SamePrefixFirst(f, l, |l|, ';');
    ReadsItsName(l);
    var b, q := First(l, '['), First(l, ']');
    assert f[b + 1..q] == l[b + 1..q];
    NotBlankFirst(l, f);
  }

  lemma BeginsTheLines(l: string, t: string)
    requires ShortLine(l)
    ensures SplitLines(l + t) != [] && l <= SplitLines(l + t)[0]
  {
    if Terminated(l) {
      SplitAppend(l, t);
    } else {
      assert forall i | 0 <= i < |l| :: (l + t)[i] == l[i];
      assert |l| <= FirstLine(l + t);
    }
  }

  // Behind h, lines that begin with the header of s.
  lemma LoadsFromHeader(h: Ini, lines: seq<string>, s: string)
    requires lines != [] && (Read(lines[0]) == Head(s) || Read(lines[0]) == Bad) && NameFree(h, s)
    ensures Load(h, ReadAll(lines)) ==
            if Read(lines[0]) == Bad then None else Load(h + [Section(s, [])], ReadAll(lines[1..]))
  {
    ReadAllFirst(lines);
  }

  // The lines of a header and what is put behind it, read first or behind m0.
  lemma MidLoads(l: string, t: string, mid: seq<string>, s: string, m0: Ini)
    requires ShortLine(l) && Read(l) == Head(s) && mid == SplitLines(l + t) && NameFree(m0, s)
    ensures mid != [] && (Read(mid[0]) == Head(s) || Read(mid[0]) == Bad)
    ensures Read(mid[0]) == Bad ==> LoadText([], l + t) == Load(m0, ReadAll(mid)) == None
    ensures Read(mid[0]) == Head(s) ==>
              && LoadText([], l + t) == Load([Section(s, [])], ReadAll(mid[1..]))
              && Load(m0, ReadAll(mid)) == Load(m0 + [Section(s, [])], ReadAll(mid[1..]))
  {
    BeginsTheLines(l, t);
    BeginsWithHeader(l, mid[0], s);
    LoadsFromHeader(m0, mid, s);
    LoadsFromHeader([], mid, s);
    assert [] + [Section(s, [])] == [Section(s, [])];
  }

  lemma WfAppend(a: seq<string>, b: seq<string>)
    requires WfLines(a) && WfLines(b) && (a != [] ==> Terminated(a[|a| - 1]))
    ensures WfLines(a + b)
  {
    var all := a + b;
    assert forall i | |a| <= i < |all| :: all[i] == b[i - |a|];
  }

  /** A file with lines mid between two stretches of short lines loads them one after the other. */
  lemma LoadThree(a: seq<string>, mid: seq<string>, b: seq<string>)
    requires WfLines(a) && WfLines(mid) && WfLines(b)
    requires (a != [] ==> Terminated(a[|a| - 1])) && mid != [] && Terminated(mid[|mid| - 1])
    ensures var text := Join(a) + Join(mid) + Join(b);
            && WfLines(SplitLines(text))
            && LoadText([], text) ==
               match Load([], ReadAll(a))
               case None => None
               case Some(m0) => (match Load(m0, ReadAll(mid)) case None => None case Some(m1) => Load(m1, ReadAll(b)))
  {
    WfAppend(a, mid);
    assert (a + mid)[|a + mid| - 1] == mid[|mid| - 1];
    WfAppend(a + mid, b);
    JoinAppend(a, mid);
    JoinAppend(a + mid, b);
    SplitJoin(a + mid + b);
    ReadAllAppend(a, mid);
    ReadAllAppend(a + mid, b);
    LoadAppend([], ReadAll(a) + ReadAll(mid), ReadAll(b));
    LoadAppend([], ReadAll(a), ReadAll(mid));
  }

  lemma KeyTextLoads(text: string, i: nat, s: string, k: string, v: string)
    requires var lines := SplitLines(text);
             WfLines(lines) && HeaderLine(lines, 0, s) == At(i) && i < |lines|
    requires WfLines(SplitLines(HeaderOf(text, s) + KeyValueText(k, v)))
    ensures AddKeyText(text, s, k, v).Some?
    ensures var lines, mid, after := SplitLines(text), SplitLines(HeaderOf(text, s) + KeyValueText(k, v)),
                                     AddKeyText(text, s, k, v).value;
            && WfLines(SplitLines(after))
            && LoadText([], after) ==
               match Load([], ReadAll(lines[..i]))
               case None => None
               case Some(m0) =>
                 (match Load(m0, ReadAll(mid)) case None => None case Some(m1) => Load(m1, ReadAll(lines[i + 1..])))
  {
    var lines, l, t := SplitLines(text), HeaderOf(text, s), KeyValueText(k, v);
    var mid := SplitLines(l + t);
    JoinSplit(l + t);
    assert (l + t)[|l + t| - 1] == '\n';
    LastIsTerminated(mid);
    WfSlices(lines, i);
    WfSlices(lines, i + 1);
    LoadThree(lines[..i], mid, lines[i + 1..]);
  }

  // ---------- adding a key ----------

  /**
   * Exactly when adding a key leaves file and index together: the key the index parses is new in the section, and the
   * header line with the pair printed behind it loads by itself to the section with the pair the index parses.
   */
  lemma AddKeyCoherentExactly(db: Db, s: string, k: string, v: string)
    requires Coherent(db) && IndexStep(db.index, AddKey(s, k, v)).1 == 0
    requires WfLines(SplitLines(HeaderOf(db.text, s) + KeyValueText(k, v)))
    ensures HasSection(db.index, s) && ParseKeyValue(k + "=" + v).Some?
    ensures var (key, value) := ParseKeyValue(k + "=" + v).value;
            Coherent(Apply(db, AddKey(s, k, v)).0) <==>
            && KeyFree(db.index[FindSection(db.index, s)].entries, key)
            && LoadText([], HeaderOf(db.text, s) + KeyValueText(k, v)) == Some([Section(s, [Entry(key, value)])])
  {
    var m: Ini :| Loads(db.text, m) && Unique(m) && AsMap(m) == AsMap(db.index);
    var e := Entry(ParseKeyValue(k + "=" + v).value.0, ParseKeyValue(k + "=" + v).value.1);
    AddKeyUniqueExactly(db.index, s, k, v);
    if KeyFree(db.index[FindSection(db.index, s)].entries, e.key) {
      SameKeysFree(db.index, m, s, e.key);
      HeaderFound(db.text, m, s);
      NewKeyCoherent(db, m, s, k, v, e);
    } else {
      ApplyIs(db, AddKey(s, k, v));
    }
  }

  // Two indices of one map have the same keys free.
  lemma SameKeysFree(m: Ini, n: Ini, s: string, key: string)
    requires AsMap(m) == AsMap(n) && HasSection(m, s)
    ensures HasSection(n, s)
    ensures KeyFree(m[FindSection(m, s)].entries, key) <==> KeyFree(n[FindSection(n, s)].entries, key)
  {
    FindSectionIsLookup(m, s);
    FindSectionIsLookup(n, s);
    FindEntryIsLookup(m[FindSection(m, s)].entries, key);
    FindEntryIsLookup(n[FindSection(n, s)].entries, key);
    FreeIsNotFound(m[FindSection(m, s)].entries, key);
    FreeIsNotFound(n[FindSection(n, s)].entries, key);
  }

  lemma FreeIsNotFound(es: seq<Entry>, key: string)
    ensures KeyFree(es, key) <==> FindEntry(es, key) < 0
  {
  }

  // The index with the pair appended, as a map.
  lemma IndexWithKey(db: Db, m: Ini, s: string, k: string, v: string, e: Entry)
    requires Unique(db.index) && AsMap(m) == AsMap(db.index) && HasSection(m, s) && HasSection(db.index, s)
    requires IndexStep(db.index, AddKey(s, k, v)).1 == 0 && ParseKeyValue(k + "=" + v) == Some((e.key, e.value))
    requires KeyFree(db.index[FindSection(db.index, s)].entries, e.key)
    ensures var n := IndexStep(db.index, AddKey(s, k, v)).0;
            Unique(n) && AsMap(n) == AsMap(m)[s := EntryMap(m[FindSection(m, s)].entries)[e.key := e.value]]
  {
    var x := FindSection(db.index, s);
    var es := db.index[x].entries;
    EntryAdded(es, e, es + [e]);
    ReplaceEntries(db.index, x, es + [e]);
    FindSectionIsLookup(m, s);
    FindSectionIsLookup(db.index, s);
  }

  lemma NewKeyCoherent(db: Db, m: Ini, s: string, k: string, v: string, e: Entry)
    requires Unique(db.index) && Loads(db.text, m) && Unique(m) && AsMap(m) == AsMap(db.index)
    requires HasSection(m, s) && HasSection(db.index, s)
    requires IndexStep(db.index, AddKey(s, k, v)).1 == 0 && ParseKeyValue(k + "=" + v) == Some((e.key, e.value))
    requires KeyFree(db.index[FindSection(db.index, s)].entries, e.key) && KeyFree(m[FindSection(m, s)].entries, e.key)
    requires WfLines(SplitLines(HeaderOf(db.text, s) + KeyValueText(k, v)))
    ensures Coherent(Apply(db, AddKey(s, k, v)).0) <==>
            LoadText([], HeaderOf(db.text, s) + KeyValueText(k, v)) == Some([Section(s, [e])])
  {
    var lines, mid := SplitLines(db.text), SplitLines(HeaderOf(db.text, s) + KeyValueText(k, v));
    HeaderFound(db.text, m, s);
    var i := HeadTarget(ReadAll(lines), s);
    var m0 := SplitAtHeader(ReadAll(lines), s, m);
    KeyTextLoads(db.text, i, s, k, v);
    MidLoads(lines[i], KeyValueText(k, v), mid, s, m0);
    SliceReads(lines, i);
    ApplyIs(db, AddKey(s, k, v));
    IndexWithKey(db, m, s, k, v, e);
    var after := Apply(db, AddKey(s, k, v)).0;
    if Read(mid[0]) == Head(s) {
      AfterTheHeader(after, m0, ReadAll(mid[1..]), ReadAll(lines[i + 1..]), s, m, e);
    }
  }

  lemma SliceReads(lines: seq<string>, i: nat)
    requires i < |lines|
    ensures ReadAll(lines[..i]) == ReadAll(lines)[..i] && ReadAll(lines[i + 1..]) == ReadAll(lines)[i + 1..]
  {
  }

  // mid is read behind the header of s, and then the rest of the file.
  lemma AfterTheHeader(after: Db, m0: Ini, mid: seq<Event>, rest: seq<Event>, s: string, m: Ini, e: Entry)
    requires NameFree(m0, s) && Load(m0 + [Section(s, [])], rest) == Some(m) && Unique(m) && FindSection(m, s) == |m0|
    requires KeyFree(m[|m0|].entries, e.key) && Unique(after.index)
    requires AsMap(after.index) == AsMap(m)[s := EntryMap(m[|m0|].entries)[e.key := e.value]]
    requires WfLines(SplitLines(after.text))
    requires LoadText([], after.text) ==
             match Load(m0 + [Section(s, [])], mid) case None => None case Some(m1) => Load(m1, rest)
    ensures Coherent(after) <==> Load([Section(s, [])], mid) == Some([Section(s, [e])])
  {
    var head := [Section(s, [])];
    if Load(head, mid) == Some([Section(s, [e])]) {
      assert forall j | 0 <= j < |m0| :: m0[j].name != s;
      LoadBehindFree(m0, head, mid);
      LoadBehind(m0, head, mid);
      KeyInFront(m0, s, rest, m, e);
      StaysCoherent(after, InsertFront(m, |m0|, e));
    }
    if n: Ini :| Loads(after.text, n) && Unique(n) && AsMap(n) == AsMap(after.index) {
      LoadAlone(m0, head, mid);
      LoadBehind(m0, head, mid);
      var u := Load(head, mid).value;
      LoadGrows(head, mid);
      OnlyTheNewKey(m0, u, rest, s, m, n, e.key, e.value);
    }
  }

  lemma KeyInFront(m0: Ini, s: string, rest: seq<Event>, m: Ini, e: Entry)
    requires NameFree(m0, s) && Load(m0 + [Section(s, [])], rest) == Some(m) && Unique(m) && FindSection(m, s) == |m0|
    requires KeyFree(m[|m0|].entries, e.key)
    ensures var n := InsertFront(m, |m0|, e);
            && Load(m0 + [Section(s, [e])], rest) == Some(n) && Unique(n)
            && AsMap(n) == AsMap(m)[s := EntryMap(m[|m0|].entries)[e.key := e.value]]
  {
    var m1, es := m0 + [Section(s, [])], m[|m0|].entries;
    LoadGrows(m1, rest);
    LoadInsertFront(m1, rest, |m0|, e);
    assert [e] + [] == [e];
    assert InsertFront(m1, |m0|, e) == m0 + [Section(s, [e])];
    EntryAdded(es, e, [e] + es);
    ReplaceEntries(m, |m0|, [e] + es);
  }

  /** A clean pair is kept exactly when the header line ends in a newline. */
  lemma AddCleanKeyCoherentExactly(db: Db, s: string, k: string, v: string)
    requires Coherent(db) && IndexStep(db.index, AddKey(s, k, v)).1 == 0
    requires CleanKey(k) && CleanValue(v) && AddFits(db.text, s, k, v)
    ensures Coherent(Apply(db, AddKey(s, k, v)).0) <==> HeaderTerminated(db.text, s)
  {
    if HeaderTerminated(db.text, s) {
      ApplyCoherent(db, AddKey(s, k, v));
    } else {
      var m: Ini :| Loads(db.text, m) && Unique(m) && AsMap(m) == AsMap(db.index);
      SameKeysFree(db.index, m, s, k);
      AddKeyBehindUnterminatedHeader(db.text, m, s, k, v);
      var op := AddKey(s, k, v);
      CleanPrintsBack(db.index, op);
      ApplyIs(db, op);
      IndexWithKey(db, m, s, k, v, Entry(k, v));
      KeyMissing(Apply(db, op).0, s, k);
    }
  }

  lemma KeyMissing(db: Db, s: string, k: string)
    requires s in AsMap(db.index) && k in AsMap(db.index)[s]
    requires var n := LoadText([], db.text); n.Some? ==> !HasKey(n.value, s, k)
    ensures !Coherent(db)
  {
    if n: Ini :| Loads(db.text, n) && Unique(n) && AsMap(n) == AsMap(db.index) {
      FindSectionIsLookup(n, s);
      FindEntryIsLookup(n[FindSection(n, s)].entries, k);
      assert false;
    }
  }
}
