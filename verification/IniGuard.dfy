/** Exactly when an operation on sections leaves file and index together, and files on which operations do not. */
module IniGuard {
  import opened Wrappers
  import opened IniText
  import opened IniModel
  import opened IniLoad
  import opened IniEdit
  import opened IniTarget
  import opened IniRewrite
  import opened IniSquare
  import opened IniDelete
  import opened IniDb

  // ---------- a new value ----------

  lemma UpdateWrites(text: string, m: Ini, s: string, k: string, v: string)
    requires Loads(text, m) && HasKey(m, s, k)
    ensures UpdateText(text, s, k, v).Some?
  {
    var lines := SplitLines(text);
    LoadedIsCleanAndUnique(text);
    assert CleanSection(m[FindSection(m, s)]) && CleanEntry(m[FindSection(m, s)].entries[FindEntry(m[FindSection(m, s)].entries, k)]);
    LoadableIsReadable([], lines);
    UpdateLineIsTarget(lines, 0, false, s, k);
  }

  lemma SetValueMap(m: Ini, x: nat, f: nat, v: string)
    requires Unique(m) && x < |m| && f < |m[x].entries|
    ensures Unique(SetValue(m, x, f, v))
    ensures AsMap(SetValue(m, x, f, v)) == AsMap(m)[m[x].name := EntryMap(m[x].entries)[m[x].entries[f].key := v]]
  {
    var es := m[x].entries;
    EntrySet(es, f, v);
    ReplaceEntries(m, x, es[f := Entry(es[f].key, v)]);
  }

  lemma EntryAt(es: seq<Entry>, j: nat)
    requires UniqueKeys(es) && j < |es|
    ensures es[j].key in EntryMap(es) && EntryMap(es)[es[j].key] == es[j].value
  {
    assert FindEntry(es, es[j].key) == j;
    FindEntryIsLookup(es, es[j].key);
  }

  // A value set at two different entries of a section.
  lemma SetValueMaps(m: Ini, x: nat, f: nat, j: nat, v: string)
    requires Unique(m) && x < |m| && f < |m[x].entries| && j < |m[x].entries|
    ensures AsMap(SetValue(m, x, f, v)) == AsMap(SetValue(m, x, j, v)) <==>
            f == j || (m[x].entries[f].value == v && m[x].entries[j].value == v)
  {
    var es := m[x].entries;
    SetValueMap(m, x, f, v);
    SetValueMap(m, x, j, v);
    EntryAt(es, f);
    EntryAt(es, j);
    TwoUpdates(EntryMap(es), es[f].key, es[j].key, v);
    assert f != j ==> es[f].key != es[j].key;
    SameUpdate(AsMap(m), m[x].name, EntryMap(es)[es[f].key := v], EntryMap(es)[es[j].key := v]);
  }

  lemma TwoUpdates(e: map<string, string>, a: string, b: string, v: string)
    requires a in e && b in e
    ensures e[a := v] == e[b := v] <==> a == b || (e[a] == v && e[b] == v)
  {
    if a != b && e[a := v] == e[b := v] {
      assert e[a := v][a] == v && e[b := v][a] == e[a] && e[a := v][b] == e[b];
    }
    if e[a] == v && e[b] == v {
      assert e[a := v] == e && e[b := v] == e;
    }
  }

  lemma SameUpdate(m: NestedMap, s: string, a: map<string, string>, b: map<string, string>)
    ensures m[s := a] == m[s := b] <==> a == b
  {
    assert m[s := a][s] == a && m[s := b][s] == b;
  }

  lemma CleanValuesOnly(n: Ini, s: string, k: string)
    requires Clean(n) && s in AsMap(n) && k in AsMap(n)[s]
    ensures CleanValue(AsMap(n)[s][k])
  {
    FindSectionIsLookup(n, s);
    FindEntryIsLookup(n[FindSection(n, s)].entries, k);
    assert CleanSection(n[FindSection(n, s)]);
  }

  /**
   * Exactly when an update leaves file and index together: the value is clean, and the first key of the file's section
   * that is k or goes on behind k with a blank is k, or both values were the new one.
   */
  lemma UpdateCoherentExactly(db: Db, m: Ini, s: string, k: string, v: string)
    requires Unique(db.index) && Loads(db.text, m) && Unique(m) && AsMap(m) == AsMap(db.index)
    requires HasKey(m, s, k) && UpdateFits(db.text, s, k, v)
    ensures var es := m[FindSection(m, s)].entries;
            var j, f := FindEntry(es, k), FirstMatch(es, k);
            && 0 <= f
            && (Coherent(Apply(db, Update(s, k, v)).0) <==> CleanValue(v) && (f == j || (es[f].value == v && es[j].value == v)))
  {
    var x, op := FindSection(m, s), Update(s, k, v);
    var es := m[x].entries;
    var j, f := FindEntry(es, k), FirstMatch(es, k);
    KeyIsMatched(m, s, k);
    UpdateWrites(db.text, m, s, k, v);
    UpdatedIndex(db, m, s, k, v);
    var after := Apply(db, op).0;
    SetValueMaps(m, x, f, j, v);
    if CleanValue(v) {
      UpdateSquare(db.text, m, s, k, v);
      var n := SetValue(m, x, f, v);
      SetValueMap(m, x, f, v);
      assert LoadText([], after.text) == Some(n);
      if AsMap(n) == AsMap(after.index) {
        StaysCoherent(after, n);
      }
    } else if n: Ini :| Loads(after.text, n) && Unique(n) && AsMap(n) == AsMap(after.index) {
      LoadedIsCleanAndUnique(after.text);
      SetValueMap(m, x, j, v);
      CleanValuesOnly(n, s, k);
      assert false;
    }
  }

  lemma UpdatedIndex(db: Db, m: Ini, s: string, k: string, v: string)
    requires Unique(db.index) && Unique(m) && AsMap(m) == AsMap(db.index)
    requires HasKey(m, s, k) && UpdateText(db.text, s, k, v).Some?
    ensures var after := Apply(db, Update(s, k, v)).0;
            var x := FindSection(m, s);
            && Apply(db, Update(s, k, v)).1 == 0 && after.text == UpdateText(db.text, s, k, v).value
            && Unique(after.index)
            && AsMap(after.index) == AsMap(SetValue(m, x, FindEntry(m[x].entries, k), v))
  {
    var op := Update(s, k, v);
    FindSectionIsLookup(m, s);
    FindSectionIsLookup(db.index, s);
    FindEntryIsLookup(m[FindSection(m, s)].entries, k);
    FindEntryIsLookup(db.index[FindSection(db.index, s)].entries, k);
    ApplyIs(db, op);
    IndexRefinesMap(db.index, op);
    IndexRefinesMap(m, op);
  }

  // ---------- a new section ----------

  /** The header line as it is printed. */
  function HeaderText(s: string): string {
    "[" + s + "]\n"
  }

  /** The file after adding a section loads as the printed header does, and then on as before. */
  lemma HeaderTextLoads(text: string, s: string)
    requires WfLines(SplitLines(HeaderText(s))) && WfLines(SplitLines(text))
    ensures WfLines(SplitLines(AddSectionText(text, s)))
    ensures LoadText([], AddSectionText(text, s)) ==
            match LoadText([], HeaderText(s)) case None => None case Some(h) => LoadText(h, text)
  {
    var lines := SplitLines(HeaderText(s));
    JoinSplit(HeaderText(s));
    LastIsTerminated(lines);
    var more := "\n" + text;
    assert AddSectionText(text, s) == Join(lines) + more;
    BlankReads();
    SplitAppend("\n", text);
    SplitJoinAppend(lines, more);
    WfConcat(lines, ["\n"] + SplitLines(text));
    LoadJoinText([], lines, more);
    if h: Ini :| LoadText([], HeaderText(s)) == Some(h) {
      LoadLineText(h, "\n", text);
    }
  }

  lemma LastIsTerminated(lines: seq<string>)
    requires lines != [] && Terminated(Join(lines)) && WfLines(lines)
    ensures Terminated(lines[|lines| - 1])
  {
    JoinOfLast(lines, |lines| - 1);
    EndOf(Join(lines), Join(lines[..|lines| - 1]), lines[|lines| - 1]);
  }

  lemma JoinOfLast(lines: seq<string>, n: nat)
    requires n + 1 == |lines|
    ensures Join(lines) == Join(lines[..n]) + lines[n]
  {
    JoinPush(lines, 0, n);
    assert lines[..n + 1] == lines;
  }

  lemma EndOf(t: string, a: string, b: string)
    requires t == a + b && b != [] && Terminated(t)
    ensures Terminated(b)
  {
    assert t[|t| - 1] == b[|b| - 1];
  }

  lemma WfConcat(a: seq<string>, b: seq<string>)
    requires WfLines(a) && (a != [] ==> Terminated(a[|a| - 1]))
    requires b != [] && WfLines(b[1..]) && ShortLine(b[0]) && Terminated(b[0])
    ensures WfLines(a + b)
  {
    var all := a + b;
    forall i | 0 <= i < |all|
      ensures ShortLine(all[i]) && (i + 1 < |all| ==> Terminated(all[i]))
    {
      if |a| < i {
        assert all[i] == b[1..][i - |a| - 1];
      }
    }
  }

  /** A header line that is matched is read as the name the index would get. */
  lemma MatchedHeaderName(line: string, s: string)
    requires Read(line).Head? && HeaderMatches(line, s)
    ensures ParseName("[" + s + "]").Some? ==> Read(line) == Head(ParseName("[" + s + "]").value)
  {
    var head := "[" + s + "]";
    var b, q, e := First(line, '['), First(line, ']'), First(head, ']');
    ReadsItsName(line);
    assert head[0] == '[' && First(head, '[') == 0;
    assert line[b + 1..][..|s|] == line[b + 1..b + 1 + |s|];
    SameBrackets(line, s, b, q, e);
    assert head[1..e] == line[b + 1..q];
  }

  lemma ReadsItsName(line: string)
    requires Read(line).Head?
    ensures 0 <= First(line, '[') && First(line, '[') + 2 < First(line, ']')
    ensures Read(line) == Head(line[First(line, '[') + 1..First(line, ']')])
  {
  }

  lemma SameBrackets(line: string, s: string, b: int, q: int, e: int)
    requires 0 <= b < q == First(line, ']') && e == First("[" + s + "]", ']')
    requires b + 1 + |s| < |line| && line[b + 1..b + 1 + |s|] == s && line[b + 1 + |s|] == ']'
    ensures q == b + e && 0 < e && forall i | 1 <= i < e :: ("[" + s + "]")[i] == line[b + i]
  {
    var head := "[" + s + "]";
    assert forall i | 0 <= i < |s| :: head[i + 1] == s[i] == line[b + 1..b + 1 + |s|][i] == line[b + 1 + i];
    assert forall i | 1 <= i <= |s| :: head[i] == line[b + i];
    assert head[0] == '[' && head[|s| + 1] == ']';
    assert head[e] == ']' && line[b + e] == ']';
    assert q <= b + e;
    assert head[q - b] == ']';
  }

  lemma {:induction false} NoHeaderMatched(lines: seq<string>, n: nat, s: string)
    requires n <= |lines| && Readable(lines)
    requires forall i | n <= i < |lines| :: !(Read(lines[i]).Head? && HeaderMatches(lines[i], s))
    ensures HeaderLine(lines, n, s) == Nowhere
    decreases |lines| - n
  {
    if n < |lines| {
      KindRead(lines[n]);
      NoHeaderMatched(lines, n + 1, s);
    }
  }

  // With a pair left in the parameter the file stays as it is.
  lemma PairLeftWritesNothing(text: string, m: Ini, s: string, name: string, kv: (string, string))
    requires Loads(text, m) && ParseName("[" + s + "]") == Some(name) && FindSection(m, name) < 0
    ensures AddKeyText(text, s, kv.0, kv.1) == Some(text)
  {
    var lines := SplitLines(text);
    LoadableIsReadable([], lines);
    forall i | 0 <= i < |lines|
      ensures !(Read(lines[i]).Head? && HeaderMatches(lines[i], s))
    {
      if Read(lines[i]).Head? && HeaderMatches(lines[i], s) {
        MatchedHeaderName(lines[i], s);
        HeadsAreSections([], ReadAll(lines), i, name);
      }
    }
    NoHeaderMatched(lines, 0, s);
  }

  // Sections in front that make the file's map the old one with an empty section added are that section alone.
  lemma OneEmptySection(h: Ini, m: Ini, name: string)
    requires Unique(h + m) && Unique(m) && FindSection(m, name) < 0
    requires AsMap(h + m) == AsMap(m)[name := map[]]
    ensures h == [Section(name, [])]
  {
    var n := h + m;
    forall i | 0 <= i < |h|
      ensures h[i].name == name && h[i].entries == []
    {
      FrontSection(h, m, i);
      FindSectionIsLookup(m, h[i].name);
      NoKeys(h[i].entries);
    }
    FrontIsUnique(h, m);
    if 1 < |h| {
      NotTwice(h, name);
      assert false;
    }
    FindSectionIsLookup(n, name);
    FindSectionIsLookup(m, name);
    assert [] + m == m;
  }

  lemma FrontSection(h: Ini, m: Ini, i: nat)
    requires Unique(h + m) && i < |h|
    ensures FindSection(m, h[i].name) < 0
    ensures h[i].name in AsMap(h + m) && AsMap(h + m)[h[i].name] == EntryMap(h[i].entries)
  {
    var n := h + m;
    assert n[i] == h[i] && forall j | 0 <= j < |m| :: n[|h| + j] == m[j];
    assert FindSection(n, h[i].name) == i;
    FindSectionIsLookup(n, h[i].name);
  }

  lemma NoKeys(es: seq<Entry>)
    ensures EntryMap(es) == map[] ==> es == []
  {
    assert es != [] ==> es[0].key in EntryMap(es);
  }

  lemma FrontIsUnique(h: Ini, m: Ini)
    requires Unique(h + m)
    ensures UniqueNames(h)
  {
    assert forall i | 0 <= i < |h| :: (h + m)[i] == h[i];
  }

  lemma NotTwice(h: Ini, name: string)
    requires 1 < |h| && forall i | 0 <= i < |h| :: h[i].name == name
    ensures !UniqueNames(h)
  {
    assert h[0].name == h[1].name;
  }

  /**
   * Exactly when adding a section leaves file and index together: no key is left in the parameter, the name the printed
   * header is parsed to is new, and the printed header by itself loads to that section.
   */
  lemma AddSectionCoherentExactly(db: Db, s: string, pair: Option<(string, string)>)
    requires Coherent(db) && IndexStep(db.index, AddSection(s, pair)).1 == 0
    requires pair == None ==> WfLines(SplitLines(HeaderText(s)))
    ensures ParseName("[" + s + "]").Some?
    ensures var name := ParseName("[" + s + "]").value;
            Coherent(Apply(db, AddSection(s, pair)).0) <==>
            pair == None && FindSection(db.index, name) < 0 && LoadText([], HeaderText(s)) == Some([Section(name, [])])
  {
    var op, name := AddSection(s, pair), ParseName("[" + s + "]").value;
    ApplyIs(db, op);
    AddSectionUniqueExactly(db.index, s, pair);
    if FindSection(db.index, name) < 0 {
      var m: Ini :| Loads(db.text, m) && Unique(m) && AsMap(m) == AsMap(db.index);
      SectionAdded(db.index, name, db.index + [Section(name, [])]);
      FindSectionIsLookup(m, name);
      FindSectionIsLookup(db.index, name);
      if pair.Some? {
        PairLeftWritesNothing(db.text, m, s, name, pair.value);
        NotCoherentWithout(Apply(db, op).0, name);
      } else {
        NewSectionCoherent(db, m, s, name);
      }
    }
  }

  lemma NewSectionCoherent(db: Db, m: Ini, s: string, name: string)
    requires Loads(db.text, m) && Unique(m) && AsMap(m) == AsMap(db.index) && FindSection(m, name) < 0
    requires WfLines(SplitLines(HeaderText(s)))
    requires Unique(db.index + [Section(name, [])]) && AsMap(db.index + [Section(name, [])]) == AsMap(db.index)[name := map[]]
    ensures Coherent(Db(db.index + [Section(name, [])], AddSectionText(db.text, s))) <==>
            LoadText([], HeaderText(s)) == Some([Section(name, [])])
  {
    var after := Db(db.index + [Section(name, [])], AddSectionText(db.text, s));
    HeaderTextLoads(db.text, s);
    if LoadText([], HeaderText(s)) == Some([Section(name, [])]) {
      var h := [Section(name, [])];
      LoadBehindFree(h, [], ReadAll(SplitLines(db.text)));
      LoadBehind(h, [], ReadAll(SplitLines(db.text)));
      assert h + [] == h;
      SectionAdded(m, name, h + m);
      StaysCoherent(after, h + m);
    }
    if Coherent(after) {
      var n: Ini :| Loads(after.text, n) && Unique(n) && AsMap(n) == AsMap(after.index);
      var h := LoadText([], HeaderText(s)).value;
      assert h + [] == h;
      LoadBehind(h, [], ReadAll(SplitLines(db.text)));
      OneEmptySection(h, m, name);
    }
  }

  // ---------- a deleted section ----------

  lemma SpilledDiffers(m: Ini, n: Ini, s: string)
    requires Unique(m) && Unique(n) && Spilled(m, n, s)
    ensures AsMap(n) != AsMap(m) - {s}
  {
    var i: nat, key :| SpilledAt(m, n, s, i, key);
    var name := m[i].name;
    assert FindSection(m, name) == i && FindSection(n, name) == i;
    FindSectionIsLookup(m, name);
    FindSectionIsLookup(n, name);
    FindEntryIsLookup(m[i].entries, key);
    FindEntryIsLookup(n[i].entries, key);
  }

  /**
   * Exactly when deleting a section leaves file and index together: no key is left in the parameter, or the section
   * has no pair in the file but one that is the key's.
   */
  lemma DeleteSectionCoherentExactly(db: Db, s: string, key: Option<string>)
    requires Coherent(db) && HasSection(db.index, s)
    ensures Coherent(Apply(db, DeleteSection(s, key)).0) <==> key == None || NoneLeftBehind(SplitLines(db.text), s, key.value)
  {
    var op := DeleteSection(s, key);
    if key == None || NoneLeftBehind(SplitLines(db.text), s, key.value) {
      ApplyCoherent(db, op);
    } else {
      var m: Ini :| Loads(db.text, m) && Unique(m) && AsMap(m) == AsMap(db.index);
      FindSectionIsLookup(m, s);
      FindSectionIsLookup(db.index, s);
      ApplyIs(db, op);
      IndexRefinesMap(db.index, op);
      var after := Apply(db, op).0;
      if DeleteCode(db.text, s, key) < 0 {
        assert s in AsMap(m) && s !in AsMap(after.index);
      } else {
        RefusedExactly(SplitLines(db.text), "", 0, s, key, 0);
        SomeLeftSpills(db.text, m, s, key.value);
        if n: Ini :| Loads(after.text, n) && Unique(n) && AsMap(n) == AsMap(after.index) {
          SpilledDiffers(m, n, s);
          assert false;
        }
      }
    }
  }
}
