/** The index and the file together: each operation against a nested map, and the two over whole runs. */
module IniDb {
  import opened Wrappers
  import opened IniText
  import opened IniModel
  import opened IniLoad
  import opened IniEdit
  import opened IniTarget
  import opened IniRewrite
  import opened IniSquare
  import opened IniDelete

  const SECTION_NOFOUND := -11
  const KEYVALUE_NOFOUND := -12
  const SECTION_ALREAD := -13
  const KEYVALUE_ALREAD := -14

  type NestedMap = map<string, map<string, string>>

  function Keys(es: seq<Entry>): set<string> {
    set i | 0 <= i < |es| :: es[i].key
  }

  function EntryMap(es: seq<Entry>): map<string, string> {
    map k | k in Keys(es) :: es[FindEntry(es, k)].value
  }

  function Names(m: Ini): set<string> {
    set i | 0 <= i < |m| :: m[i].name
  }

  /** What the sections mean: section -> key -> value. */
  function AsMap(m: Ini): NestedMap {
    map s | s in Names(m) :: EntryMap(m[FindSection(m, s)].entries)
  }

  // ---------- the operations ----------

  /** An operation and its parameter; pair and key are what the caller has left in it for the section operations. */
  datatype Op =
    | Update(s: string, k: string, v: string)
    | AddKey(s: string, k: string, v: string)
    | AddSection(s: string, pair: Option<(string, string)>)
    | DeleteKey(s: string, k: string)
    | DeleteSection(s: string, key: Option<string>)

  function AppendAt(m: Ini, x: nat, e: Entry): Ini
    requires x < |m|
  {
    m[x := Section(m[x].name, m[x].entries + [e])]
  }

  function RemoveKeyAt(m: Ini, x: nat, j: nat): Ini
    requires x < |m| && j < |m[x].entries|
  {
    m[x := Section(m[x].name, RemoveAt(m[x].entries, j))]
  }

  /** The in-memory half of an operation, and its error code. */
  function IndexStep(m: Ini, op: Op): (Ini, int) {
    var x := FindSection(m, op.s);
    match op
    case Update(_, k, v) =>
      if x < 0 then (m, SECTION_NOFOUND)
      else if FindEntry(m[x].entries, k) < 0 then (m, KEYVALUE_NOFOUND)
      else (SetValue(m, x, FindEntry(m[x].entries, k), v), 0)
    case AddKey(_, k, v) =>
      if x < 0 then (m, SECTION_NOFOUND)
      else if 0 <= FindEntry(m[x].entries, k) then (m, KEYVALUE_ALREAD)
      else
        (match ParseKeyValue(k + "=" + v)
         case None => (m, FORMAT_ERROR)
         case Some(kv) => (AppendAt(m, x, Entry(kv.0, kv.1)), 0))
    case AddSection(s, _) =>
      if 0 <= x then (m, SECTION_ALREAD)
      else
        (match ParseName("[" + s + "]")
         case None => (m, FORMAT_ERROR)
         case Some(n) => (m + [Section(n, [])], 0))
    case DeleteKey(_, k) =>
      if x < 0 then (m, SECTION_NOFOUND)
      else if FindEntry(m[x].entries, k) < 0 then (m, KEYVALUE_NOFOUND)
      else (RemoveKeyAt(m, x, FindEntry(m[x].entries, k)), 0)
    case DeleteSection(_, _) =>
      if x < 0 then (m, SECTION_NOFOUND) else (RemoveAt(m, x), 0)
  }

  /** The file half: the text that replaces the file's, if one does, and the rewrite's code. */
  function FileStep(text: string, op: Op): (Option<string>, int) {
    match op
    case Update(s, k, v) => Coded(UpdateText(text, s, k, v))
    case AddKey(s, k, v) => Coded(AddKeyText(text, s, k, v))
    case AddSection(s, None) => (Some(AddSectionText(text, s)), 0)
    case AddSection(s, Some(kv)) => Coded(AddKeyText(text, s, kv.0, kv.1))
    case DeleteKey(s, k) => Deleted(text, s, Some(k))
    case DeleteSection(s, key) => Deleted(text, s, key)
  }

  function Coded(text: Option<string>): (Option<string>, int) {
    (text, if text.Some? then 0 else FORMAT_ERROR)
  }

  function Deleted(text: string, s: string, key: Option<string>): (Option<string>, int) {
    (if DeleteCode(text, s, key) < 0 then None else DeleteText(text, s, key), DeleteCode(text, s, key))
  }

  /** The operation on the meaning, and its error code. */
  function MapStep(m: NestedMap, op: Op): (NestedMap, int) {
    match op
    case Update(s, k, v) =>
      if s !in m then (m, SECTION_NOFOUND)
      else if k !in m[s] then (m, KEYVALUE_NOFOUND)
      else (m[s := m[s][k := v]], 0)
    case AddKey(s, k, v) =>
      if s !in m then (m, SECTION_NOFOUND)
      else if k in m[s] then (m, KEYVALUE_ALREAD)
      else (m[s := m[s][k := v]], 0)
    case AddSection(s, _) =>
      if s in m then (m, SECTION_ALREAD) else (m[s := map[]], 0)
    case DeleteKey(s, k) =>
      if s !in m then (m, SECTION_NOFOUND)
      else if k !in m[s] then (m, KEYVALUE_NOFOUND)
      else (m[s := m[s] - {k}], 0)
    case DeleteSection(s, _) =>
      if s !in m then (m, SECTION_NOFOUND) else (m - {s}, 0)
  }

  // ---------- lookups ----------

  lemma FindSectionIsLookup(m: Ini, s: string)
    ensures 0 <= FindSection(m, s) <==> s in AsMap(m)
    ensures 0 <= FindSection(m, s) ==> AsMap(m)[s] == EntryMap(m[FindSection(m, s)].entries)
  {
  }

  lemma FindEntryIsLookup(es: seq<Entry>, k: string)
    ensures 0 <= FindEntry(es, k) <==> k in EntryMap(es)
    ensures 0 <= FindEntry(es, k) ==> EntryMap(es)[k] == es[FindEntry(es, k)].value
  {
  }

  /** What get_value_ofkey returns. */
  function GetValue(m: Ini, s: string, k: string): Option<string> {
    var x := FindSection(m, s);
    if x < 0 then None
    else
      var j := FindEntry(m[x].entries, k);
      if j < 0 then None else Some(m[x].entries[j].value)
  }

  lemma GetRefinesMap(m: Ini, s: string, k: string)
    ensures GetValue(m, s, k) == if s in AsMap(m) && k in AsMap(m)[s] then Some(AsMap(m)[s][k]) else None
  {
    FindSectionIsLookup(m, s);
    if 0 <= FindSection(m, s) {
      FindEntryIsLookup(m[FindSection(m, s)].entries, k);
    }
  }

  lemma EqualEntryMaps(es: seq<Entry>, b: map<string, string>)
    requires forall k :: 0 <= FindEntry(es, k) <==> k in b
    requires forall k | 0 <= FindEntry(es, k) :: b[k] == es[FindEntry(es, k)].value
    ensures EntryMap(es) == b
  {
    var a := EntryMap(es);
    forall k ensures (k in a <==> k in b) && (k in a ==> a[k] == b[k]) {
      FindEntryIsLookup(es, k);
    }
  }

  lemma EqualMaps(m: Ini, b: NestedMap)
    requires forall s :: 0 <= FindSection(m, s) <==> s in b
    requires forall s | 0 <= FindSection(m, s) :: b[s] == EntryMap(m[FindSection(m, s)].entries)
    ensures AsMap(m) == b
  {
    var a := AsMap(m);
    forall s ensures (s in a <==> s in b) && (s in a ==> a[s] == b[s]) {
      FindSectionIsLookup(m, s);
    }
  }

  // ---------- edits of one section's entries ----------

  lemma ReplaceEntries(m: Ini, x: nat, es: seq<Entry>)
    requires Unique(m) && x < |m| && UniqueKeys(es)
    ensures var n := m[x := Section(m[x].name, es)];
            Unique(n) && AsMap(n) == AsMap(m)[m[x].name := EntryMap(es)]
  {
    var n := m[x := Section(m[x].name, es)];
    assert forall i | 0 <= i < |m| :: n[i].name == m[i].name && (i != x ==> n[i] == m[i]);
    var b := AsMap(m)[m[x].name := EntryMap(es)];
    forall s ensures 0 <= FindSection(n, s) <==> s in b
             ensures 0 <= FindSection(n, s) ==> b[s] == EntryMap(n[FindSection(n, s)].entries) {
      SameNames(m, n, s);
      FindSectionIsLookup(m, s);
    }
    EqualMaps(n, b);
  }

  lemma EntrySet(es: seq<Entry>, j: nat, v: string)
    requires UniqueKeys(es) && j < |es|
    ensures var fs := es[j := Entry(es[j].key, v)];
            UniqueKeys(fs) && EntryMap(fs) == EntryMap(es)[es[j].key := v]
  {
    var fs := es[j := Entry(es[j].key, v)];
    assert forall i | 0 <= i < |es| :: fs[i].key == es[i].key && (i != j ==> fs[i] == es[i]);
    var b := EntryMap(es)[es[j].key := v];
    forall k ensures 0 <= FindEntry(fs, k) <==> k in b
             ensures 0 <= FindEntry(fs, k) ==> b[k] == fs[FindEntry(fs, k)].value {
      SameKeys(es, fs, k);
      FindEntryIsLookup(es, k);
    }
    EqualEntryMaps(fs, b);
  }

  // fs holds the entries of es and e, in whatever order.
  lemma EntryAdded(es: seq<Entry>, e: Entry, fs: seq<Entry>)
    requires UniqueKeys(es) && KeyFree(es, e.key)
    requires fs == [e] + es || fs == es + [e]
    ensures UniqueKeys(fs) && EntryMap(fs) == EntryMap(es)[e.key := e.value]
  {
    var d := if fs == es + [e] then 0 else 1;
    assert forall i | 0 <= i < |es| :: fs[i + d] == es[i];
    assert forall i | d <= i < |es| + d :: fs[i] == es[i - d];
    var at := if d == 0 then |es| else 0;
    assert fs[at] == e;
    assert UniqueKeys(fs);
    var b := EntryMap(es)[e.key := e.value];
    forall k ensures 0 <= FindEntry(fs, k) <==> k in b
             ensures 0 <= FindEntry(fs, k) ==> b[k] == fs[FindEntry(fs, k)].value {
      FindEntryIsLookup(es, k);
      var i := FindEntry(es, k);
      if k == e.key {
        assert FindEntry(fs, k) == at;
      } else if 0 <= i {
        assert FindEntry(fs, k) == i + d;
      } else {
        assert FindEntry(fs, k) == -1;
      }
    }
    EqualEntryMaps(fs, b);
  }

  lemma RemovedElements<T>(s: seq<T>, j: nat)
    requires j < |s|
    ensures |RemoveAt(s, j)| == |s| - 1
    ensures forall i | 0 <= i < j :: RemoveAt(s, j)[i] == s[i]
    ensures forall i | j <= i < |s| - 1 :: RemoveAt(s, j)[i] == s[i + 1]
    ensures forall i | j < i < |s| :: s[i] == RemoveAt(s, j)[i - 1]
  {
  }

  lemma FindRemovedKey(es: seq<Entry>, j: nat, k: string)
    requires UniqueKeys(es) && j < |es|
    ensures UniqueKeys(RemoveAt(es, j))
    ensures var i := FindEntry(es, k);
            FindEntry(RemoveAt(es, j), k) == if i < 0 || k == es[j].key then -1 else if i < j then i else i - 1
  {
    RemovedElements(es, j);
  }

  lemma EntryRemoved(es: seq<Entry>, j: nat)
    requires UniqueKeys(es) && j < |es|
    ensures UniqueKeys(RemoveAt(es, j)) && EntryMap(RemoveAt(es, j)) == EntryMap(es) - {es[j].key}
  {
    var fs, b := RemoveAt(es, j), EntryMap(es) - {es[j].key};
    RemovedElements(es, j);
    forall k ensures UniqueKeys(fs) && (0 <= FindEntry(fs, k) <==> k in b)
             ensures 0 <= FindEntry(fs, k) ==> b[k] == fs[FindEntry(fs, k)].value {
      FindRemovedKey(es, j, k);
      FindEntryIsLookup(es, k);
    }
    FindRemovedKey(es, j, "");
    EqualEntryMaps(fs, b);
  }

  // ---------- edits of the sections ----------

  // n holds the sections of m and an empty one called s, in whatever order.
  ghost predicate OneMore(m: Ini, s: string, n: Ini, at: nat, d: nat) {
    && |n| == |m| + 1 && at < |n| && n[at] == Section(s, [])
    && ((d == 0 && at == |m|) || (d == 1 && at == 0))
    && forall i | d <= i < |m| + d :: n[i] == m[i - d]
  }

  lemma FindAddedName(m: Ini, s: string, n: Ini, at: nat, d: nat, t: string)
    requires NameFree(m, s) && OneMore(m, s, n, at, d)
    ensures var i := FindSection(m, t);
            FindSection(n, t) == if t == s then at else if 0 <= i then i + d else -1
  {
    assert forall i | 0 <= i < |m| :: m[i] == n[i + d];
  }

  lemma UniqueAdded(m: Ini, s: string, n: Ini, at: nat, d: nat)
    requires Unique(m) && NameFree(m, s) && OneMore(m, s, n, at, d)
    ensures Unique(n)
  {
    assert UniqueKeys(n[at].entries);
    assert forall i | 0 <= i < |n| && i != at :: n[i] == m[i - d];
  }

  lemma SectionAdded(m: Ini, s: string, n: Ini)
    requires Unique(m) && NameFree(m, s)
    requires n == [Section(s, [])] + m || n == m + [Section(s, [])]
    ensures Unique(n) && AsMap(n) == AsMap(m)[s := map[]]
  {
    var d := if n == m + [Section(s, [])] then 0 else 1;
    var at := if d == 0 then |m| else 0;
    assert OneMore(m, s, n, at, d);
    UniqueAdded(m, s, n, at, d);
    var b := AsMap(m)[s := map[]];
    assert EntryMap([]) == map[];
    forall t ensures 0 <= FindSection(n, t) <==> t in b
             ensures 0 <= FindSection(n, t) ==> b[t] == EntryMap(n[FindSection(n, t)].entries) {
      FindAddedName(m, s, n, at, d, t);
      FindSectionIsLookup(m, t);
    }
    EqualMaps(n, b);
  }

  lemma FindRemovedName(m: Ini, x: nat, s: string)
    requires Unique(m) && x < |m|
    ensures Unique(RemoveAt(m, x))
    ensures var i := FindSection(m, s);
            FindSection(RemoveAt(m, x), s) == if i < 0 || s == m[x].name then -1 else if i < x then i else i - 1
  {
    RemovedElements(m, x);
  }

  lemma SectionRemoved(m: Ini, x: nat)
    requires Unique(m) && x < |m|
    ensures Unique(RemoveAt(m, x)) && AsMap(RemoveAt(m, x)) == AsMap(m) - {m[x].name}
  {
    var n, b := RemoveAt(m, x), AsMap(m) - {m[x].name};
    RemovedElements(m, x);
    forall t ensures 0 <= FindSection(n, t) <==> t in b
             ensures 0 <= FindSection(n, t) ==> b[t] == EntryMap(n[FindSection(n, t)].entries) {
      FindRemovedName(m, x, t);
      FindSectionIsLookup(m, t);
    }
    FindRemovedName(m, x, "");
    EqualMaps(n, b);
  }

  // ---------- the index refines the map ----------

  predicate Refined(m: Ini, op: Op) {
    var (n, code) := IndexStep(m, op);
    Unique(n) && (AsMap(n), code) == MapStep(AsMap(m), op) && (code < 0 ==> n == m)
  }

  /** What is printed to be parsed into the index, pair or name, is parsed back as it was. */
  predicate PrintsBack(m: Ini, op: Op) {
    var x := FindSection(m, op.s);
    match op
    case AddKey(_, k, v) =>
      0 <= x && FindEntry(m[x].entries, k) < 0 ==> ParseKeyValue(k + "=" + v) == Some((k, v))
    case AddSection(s, _) => x < 0 ==> ParseName("[" + s + "]") == Some(s)
    case _ => true
  }

  /** The same, said of the characters of what is added. */
  lemma PrintsBackExactly(m: Ini, op: Op)
    ensures PrintsBack(m, op) <==>
            match op
            case AddKey(s, k, v) =>
              HasSection(m, s) && KeyFree(m[FindSection(m, s)].entries, k) ==> PlainKey(k) && PlainValue(v)
            case AddSection(s, _) => !HasSection(m, s) ==> PlainName(s)
            case _ => true
  {
    match op
    case AddKey(_, k, v) => PairParsedBackExactly(k, v);
    case AddSection(s, _) => NameParsedBackExactly(s);
    case _ =>
  }

  /** A clean pair and a clean name are parsed back. */
  lemma CleanPrintsBack(m: Ini, op: Op)
    requires op.AddKey? ==> CleanKey(op.k) && CleanValue(op.v)
    requires op.AddSection? ==> CleanName(op.s)
    ensures PrintsBack(m, op)
  {
    if op.AddKey? {
      assert op.k + "=" + op.v == "" + op.k + "" + "=" + "" + op.v + "" + "";
      KeyValueRoundTrip("", op.k, "", "", op.v, "", "");
    }
    if op.AddSection? {
      assert "[" + op.s + "]" == "[" + op.s + "]" + "";
      NameRoundTrip(op.s, "");
    }
  }

  lemma UpdateRefines(m: Ini, op: Op)
    requires Unique(m) && op.Update?
    ensures Refined(m, op)
  {
    FindSectionIsLookup(m, op.s);
    var x := FindSection(m, op.s);
    if 0 <= x {
      var es := m[x].entries;
      FindEntryIsLookup(es, op.k);
      if 0 <= FindEntry(es, op.k) {
        EntrySet(es, FindEntry(es, op.k), op.v);
        ReplaceEntries(m, x, es[FindEntry(es, op.k) := Entry(op.k, op.v)]);
      }
    }
  }

  lemma AddKeyRefinesExactly(m: Ini, op: Op)
    requires Unique(m) && op.AddKey?
    ensures Refined(m, op) <==> PrintsBack(m, op)
  {
    FindSectionIsLookup(m, op.s);
    var x := FindSection(m, op.s);
    if 0 <= x {
      FindEntryIsLookup(m[x].entries, op.k);
      if FindEntry(m[x].entries, op.k) < 0 {
        match ParseKeyValue(op.k + "=" + op.v)
        case None =>
        case Some(kv) => AppendedRefines(m, op, x, Entry(kv.0, kv.1));
      }
    }
  }

  // An entry appended to section x is the operation's exactly when it is its pair.
  lemma AppendedRefines(m: Ini, op: Op, x: nat, e: Entry)
    requires Unique(m) && op.AddKey? && x < |m| && x == FindSection(m, op.s) && FindEntry(m[x].entries, op.k) < 0
    ensures var n := AppendAt(m, x, e);
            Unique(n) && AsMap(n) == MapStep(AsMap(m), op).0 <==> e == Entry(op.k, op.v)
  {
    var n, es := AppendAt(m, x, e), m[x].entries;
    FindSectionIsLookup(m, op.s);
    FindEntryIsLookup(es, op.k);
    if e == Entry(op.k, op.v) {
      EntryAdded(es, e, es + [e]);
      ReplaceEntries(m, x, es + [e]);
    } else {
      SameNames(m, n, op.s);
      FindSectionIsLookup(n, op.s);
      FindEntryIsLookup(es + [e], op.k);
      assert n[x].entries == es + [e];
    }
  }

  lemma AddSectionRefinesExactly(m: Ini, op: Op)
    requires Unique(m) && op.AddSection?
    ensures Refined(m, op) <==> PrintsBack(m, op)
  {
    FindSectionIsLookup(m, op.s);
    if FindSection(m, op.s) < 0 {
      match ParseName("[" + op.s + "]")
      case None =>
      case Some(name) =>
        var n := m + [Section(name, [])];
        if name == op.s {
          SectionAdded(m, op.s, n);
        } else {
          assert forall i | 0 <= i < |n| :: n[i].name == if i < |m| then m[i].name else name;
          FindSectionIsLookup(n, op.s);
        }
    }
  }

  lemma DeleteKeyRefines(m: Ini, op: Op)
    requires Unique(m) && op.DeleteKey?
    ensures Refined(m, op)
  {
    FindSectionIsLookup(m, op.s);
    var x := FindSection(m, op.s);
    if 0 <= x {
      var es := m[x].entries;
      FindEntryIsLookup(es, op.k);
      if 0 <= FindEntry(es, op.k) {
        EntryRemoved(es, FindEntry(es, op.k));
        ReplaceEntries(m, x, RemoveAt(es, FindEntry(es, op.k)));
      }
    }
  }

  lemma DeleteSectionRefines(m: Ini, op: Op)
    requires Unique(m) && op.DeleteSection?
    ensures Refined(m, op)
  {
    FindSectionIsLookup(m, op.s);
    var x := FindSection(m, op.s);
    if 0 <= x {
      SectionRemoved(m, x);
    }
  }

  /**
   * An operation changes the index, and reports, as the nested map does, and its own errors change nothing, exactly when
   * the pair or name it adds is parsed back as it was printed.
   */
  lemma IndexRefinesMap(m: Ini, op: Op)
    requires Unique(m)
    ensures (var (n, code) := IndexStep(m, op);
             Unique(n) && (AsMap(n), code) == MapStep(AsMap(m), op) && (code < 0 ==> n == m)) <==> PrintsBack(m, op)
  {
    match op
    case Update(_, _, _) => UpdateRefines(m, op);
    case AddKey(_, _, _) => AddKeyRefinesExactly(m, op);
    case AddSection(_, _) => AddSectionRefinesExactly(m, op);
    case DeleteKey(_, _) => DeleteKeyRefines(m, op);
    case DeleteSection(_, _) => DeleteSectionRefines(m, op);
  }

  /** Adding a pair that does not print back as itself keeps the keys unique exactly when the key it parses to is new. */
  lemma AddKeyUniqueExactly(m: Ini, s: string, k: string, v: string)
    requires Unique(m) && HasSection(m, s)
    requires KeyFree(m[FindSection(m, s)].entries, k) && ParseKeyValue(k + "=" + v).Some?
    ensures Unique(IndexStep(m, AddKey(s, k, v)).0) <==>
            KeyFree(m[FindSection(m, s)].entries, ParseKeyValue(k + "=" + v).value.0)
  {
    var x := FindSection(m, s);
    var es := m[x].entries;
    var (key, value) := ParseKeyValue(k + "=" + v).value;
    var n := AppendAt(m, x, Entry(key, value));
    assert FindEntry(es, k) < 0;
    assert n[x].entries == es + [Entry(key, value)];
    if KeyFree(es, key) {
      EntryAdded(es, Entry(key, value), es + [Entry(key, value)]);
      ReplaceEntries(m, x, es + [Entry(key, value)]);
    } else {
      var i :| 0 <= i < |es| && es[i].key == key;
      assert n[x].entries[i].key == n[x].entries[|es|].key;
      assert !UniqueKeys(n[x].entries);
    }
  }

  /** Adding a section whose name is not parsed back keeps the names unique exactly when the name it is parsed to is new. */
  lemma AddSectionUniqueExactly(m: Ini, s: string, pair: Option<(string, string)>)
    requires Unique(m) && FindSection(m, s) < 0 && ParseName("[" + s + "]").Some?
    ensures Unique(IndexStep(m, AddSection(s, pair)).0) <==> FindSection(m, ParseName("[" + s + "]").value) < 0
  {
    var name := ParseName("[" + s + "]").value;
    var n := m + [Section(name, [])];
    assert forall i | 0 <= i < |m| :: n[i] == m[i];
    var x := FindSection(m, name);
    if 0 <= x {
      assert n[x].name == n[|m|].name;
      assert !UniqueNames(n);
    }
  }

  /** With a section "ab", adding "ab]c" gives a second one. */
  lemma TwoSectionsOfOneName()
    ensures var (n, code) := IndexStep([Section("ab", [])], AddSection("ab]c", None));
            code == 0 && n == [Section("ab", []), Section("ab", [])] && !Unique(n)
  {
    var line, m := "[ab]c]", [Section("ab", [])];
    assert "[" + "ab]c" + "]" == line;
    assert First(line, '[') == 0 && First(line, ']') == 3 by {
      assert line[0] == '[' && line[3] == ']' && line[1] == 'a' && line[2] == 'b';
    }
    assert line[1..3] == "ab";
    AddSectionUniqueExactly(m, "ab]c", None);
  }

  // ---------- index and file together ----------

  /** One open file: the sections in memory and the text on disk. */
  datatype Db = Db(index: Ini, text: string)

  /** An operation that succeeds in memory goes on to the file; the code is then the rewrite's. */
  function Apply(db: Db, op: Op): (Db, int) {
    var (index, code) := IndexStep(db.index, op);
    if code < 0 then (db, code)
    else
      match FileStep(db.text, op)
      case (None, c) => (Db(index, db.text), c)
      case (Some(text), c) => (Db(index, text), c)
  }

  /** Reading the file again would give the index, up to the order of sections and keys. */
  ghost predicate Coherent(db: Db) {
    Unique(db.index) && exists m: Ini :: Loads(db.text, m) && Unique(m) && AsMap(m) == AsMap(db.index)
  }

  // No other key of s goes on behind k with a blank.
  predicate NoLongerKey(m: Ini, s: string, k: string) {
    var x := FindSection(m, s);
    0 <= x ==> forall i | 0 <= i < |m[x].entries| :: PrefixMatch(m[x].entries[i].key, k) ==> m[x].entries[i].key == k
  }

  /** The guards under which an operation keeps file and index together. */
  ghost predicate Safe(db: Db, op: Op) {
    match op
    case Update(s, k, v) => CleanValue(v) && NoLongerKey(db.index, s, k) && UpdateFits(db.text, s, k, v)
    case AddKey(s, k, v) => CleanKey(k) && CleanValue(v) && HeaderTerminated(db.text, s) && AddFits(db.text, s, k, v)
    case AddSection(s, pair) => pair == None && CleanName(s) && |s| + 3 <= FGETS_LIMIT
    case DeleteKey(s, k) => false
    case DeleteSection(s, key) => key.Some? ==> NoneLeftBehind(SplitLines(db.text), s, key.value)
  }

  lemma NoLongerKeyInFile(m: Ini, n: Ini, s: string, k: string)
    requires Unique(m) && Unique(n) && AsMap(m) == AsMap(n) && NoLongerKey(n, s, k) && HasKey(m, s, k)
    ensures FirstMatch(m[FindSection(m, s)].entries, k) == FindEntry(m[FindSection(m, s)].entries, k)
  {
    FindSectionIsLookup(m, s);
    FindSectionIsLookup(n, s);
    var es, fs := m[FindSection(m, s)].entries, n[FindSection(n, s)].entries;
    KeyIsMatched(m, s, k);
    var i := FirstMatch(es, k);
    assert es[i].key in EntryMap(es);
    var j :| 0 <= j < |fs| && fs[j].key == es[i].key;
  }

  /** The file's own step: what loads to m before the operation loads to the map's step of m after it. */
  lemma FileStepRefines(db: Db, m: Ini, op: Op) returns (n: Ini)
    requires Coherent(db) && Safe(db, op) && IndexStep(db.index, op).1 >= 0
    requires Loads(db.text, m) && Unique(m) && AsMap(m) == AsMap(db.index)
    ensures FileStep(db.text, op).0.Some? && FileStep(db.text, op).1 == 0 && Loads(FileStep(db.text, op).0.value, n)
    ensures Unique(n) && AsMap(n) == MapStep(AsMap(m), op).0
  {
    FindSectionIsLookup(m, op.s);
    FindSectionIsLookup(db.index, op.s);
    var x := FindSection(m, op.s);
    match op
    case Update(s, k, v) =>
      FindEntryIsLookup(m[x].entries, k);
      FindEntryIsLookup(db.index[FindSection(db.index, s)].entries, k);
      NoLongerKeyInFile(m, db.index, s, k);
      UpdateSquare(db.text, m, s, k, v);
      var j := FindEntry(m[x].entries, k);
      n := SetValue(m, x, j, v);
      EntrySet(m[x].entries, j, v);
      ReplaceEntries(m, x, m[x].entries[j := Entry(k, v)]);
    case AddKey(s, k, v) =>
      FindEntryIsLookup(m[x].entries, k);
      FindEntryIsLookup(db.index[FindSection(db.index, s)].entries, k);
      AddKeySquare(db.text, m, s, k, v);
      n := InsertFront(m, x, Entry(k, v));
      EntryAdded(m[x].entries, Entry(k, v), [Entry(k, v)] + m[x].entries);
      ReplaceEntries(m, x, [Entry(k, v)] + m[x].entries);
    case AddSection(s, _) =>
      AddSectionSquare(db.text, m, s);
      n := [Section(s, [])] + m;
      SectionAdded(m, s, n);
    case DeleteSection(s, key) =>
      if key == None {
        DeleteSectionSquare(db.text, m, s);
        DeleteSectionCode(db.text, m, s);
      } else {
        NoneLeftSquare(db.text, m, s, key.value);
      }
      n := RemoveAt(m, x);
      SectionRemoved(m, x);
  }

  lemma ApplyIs(db: Db, op: Op)
    ensures IndexStep(db.index, op).1 <= 0
    ensures IndexStep(db.index, op).1 < 0 ==> Apply(db, op) == (db, IndexStep(db.index, op).1)
    ensures IndexStep(db.index, op).1 == 0 && FileStep(db.text, op).0.Some? ==>
              Apply(db, op) == (Db(IndexStep(db.index, op).0, FileStep(db.text, op).0.value), FileStep(db.text, op).1)
    ensures IndexStep(db.index, op).1 == 0 && FileStep(db.text, op).0.None? ==>
              Apply(db, op) == (Db(IndexStep(db.index, op).0, db.text), FileStep(db.text, op).1)
  {
  }

  /** One operation keeps file and index together and does what the map does. */
  lemma ApplyCoherent(db: Db, op: Op)
    requires Coherent(db) && Safe(db, op)
    ensures Coherent(Apply(db, op).0)
    ensures (AsMap(Apply(db, op).0.index), Apply(db, op).1) == MapStep(AsMap(db.index), op)
  {
    CleanPrintsBack(db.index, op);
    IndexRefinesMap(db.index, op);
    ApplyIs(db, op);
    var (index, code) := IndexStep(db.index, op);
    if code == 0 {
      var m: Ini :| Loads(db.text, m) && Unique(m) && AsMap(m) == AsMap(db.index);
      var n := FileStepRefines(db, m, op);
      StaysCoherent(Db(index, FileStep(db.text, op).0.value), n);
    }
  }

  lemma StaysCoherent(db: Db, n: Ini)
    requires Unique(db.index) && Loads(db.text, n) && Unique(n) && AsMap(n) == AsMap(db.index)
    ensures Coherent(db)
  {
  }

  function Run(db: Db, ops: seq<Op>): Db
    decreases |ops|
  {
    if ops == [] then db else Run(Apply(db, ops[0]).0, ops[1..])
  }

  function MapRun(m: NestedMap, ops: seq<Op>): NestedMap
    decreases |ops|
  {
    if ops == [] then m else MapRun(MapStep(m, ops[0]).0, ops[1..])
  }

  // Every operation is safe at its turn.
  ghost predicate SafeRun(db: Db, ops: seq<Op>)
    decreases |ops|
  {
    ops == [] || (Safe(db, ops[0]) && SafeRun(Apply(db, ops[0]).0, ops[1..]))
  }

  /** Over any run of safe operations, re-reading the file gives the map the operations build. */
  lemma {:induction false} RunCoherent(db: Db, ops: seq<Op>)
    requires Coherent(db) && SafeRun(db, ops)
    ensures Coherent(Run(db, ops)) && AsMap(Run(db, ops).index) == MapRun(AsMap(db.index), ops)
    decreases |ops|
  {
    if ops != [] {
      ApplyCoherent(db, ops[0]);
      RunCoherent(Apply(db, ops[0]).0, ops[1..]);
    }
  }

  /** A freshly loaded file of short lines is coherent with its index. */
  lemma LoadCoherent(text: string, m: Ini)
    requires Loads(text, m)
    ensures Coherent(Db(m, text))
  {
    LoadedIsCleanAndUnique(text);
  }

  /** Deleting a key always breaks coherence: the file loses the section the index keeps. */
  lemma DeleteKeyBreaksCoherence(db: Db, s: string, k: string)
    requires Coherent(db) && IndexStep(db.index, DeleteKey(s, k)).1 == 0
    ensures Apply(db, DeleteKey(s, k)).1 == 0 && !Coherent(Apply(db, DeleteKey(s, k)).0)
  {
    var op := DeleteKey(s, k);
    var m: Ini :| Loads(db.text, m) && Unique(m) && AsMap(m) == AsMap(db.index);
    FindSectionIsLookup(m, s);
    FindSectionIsLookup(db.index, s);
    FindEntryIsLookup(m[FindSection(m, s)].entries, k);
    FindEntryIsLookup(db.index[FindSection(db.index, s)].entries, k);
    DeleteKeyLosesItsSection(db.text, m, s, k);
    ApplyIs(db, op);
    IndexRefinesMap(db.index, op);
    NotCoherentWithout(Apply(db, op).0, s);
  }

  lemma NotCoherentWithout(db: Db, s: string)
    requires s in AsMap(db.index)
    requires var n := LoadText([], db.text); n.Some? ==> !HasSection(n.value, s)
    ensures !Coherent(db)
  {
    if n: Ini :| Loads(db.text, n) && Unique(n) && AsMap(n) == AsMap(db.index) {
      FindSectionIsLookup(n, s);
      assert false;
    }
  }
}
