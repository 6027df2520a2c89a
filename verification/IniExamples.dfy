/** One file for each way in which an operation can leave file and index apart. */
module IniExamples {
  import opened Wrappers
  import opened IniText
  import opened IniModel
  import opened IniLoad
  import opened IniEdit
  import opened IniTarget
  import opened IniRewrite
  import opened IniSquare
  import opened IniDelete
  import opened IniDb
  import opened IniGuard
  import opened IniAdded

  // ---------- a file of one section, printed plainly ----------

  function PairLine(e: Entry): string {
    e.key + "=" + e.value + "\n"
  }

  function PairLines(es: seq<Entry>): (lines: seq<string>)
    ensures |lines| == |es|
  {
    if es == [] then [] else [PairLine(es[0])] + PairLines(es[1..])
  }

  function FileLines(s: string, es: seq<Entry>): seq<string> {
    [HeaderText(s)] + PairLines(es)
  }

  lemma PairLineReads(e: Entry)
    requires CleanEntry(e)
    ensures Read(PairLine(e)) == Pair(e.key, e.value)
  {
    assert PairLine(e) == "" + e.key + "" + "=" + "" + e.value + "\n" + "";
    KeyValueRoundTrip("", e.key, "", "", e.value, "\n", "");
    PairReads(PairLine(e), e.key, e.value);
  }

  lemma PairLineIsLine(e: Entry)
    requires CleanEntry(e)
    ensures Line(PairLine(e)) && Terminated(PairLine(e))
  {
    var line, n := PairLine(e), |e.key|;
    assert line[|line| - 1] == '\n' && line[n] == '=';
    assert forall i | 0 <= i < n :: line[i] == e.key[i];
    assert forall i | n < i < |line| - 1 :: line[i] == e.value[i - n - 1];
  }

  predicate Printable(es: seq<Entry>) {
    UniqueKeys(es) && forall i | 0 <= i < |es| :: CleanEntry(es[i]) && |PairLine(es[i])| <= FGETS_LIMIT
  }

  // The keys of es are none of those of sec.
  predicate New(sec: Section, es: seq<Entry>) {
    forall i | 0 <= i < |es| :: FindEntry(sec.entries, es[i].key) < 0
  }

  lemma StillNew(sec: Section, es: seq<Entry>)
    requires es != [] && New(sec, es) && UniqueKeys(es)
    ensures New(Section(sec.name, sec.entries + [es[0]]), es[1..])
  {
    var sec1 := Section(sec.name, sec.entries + [es[0]]);
    forall i | 0 <= i < |es| - 1
      ensures FindEntry(sec1.entries, es[1..][i].key) < 0
    {
      assert es[1..][i] == es[i + 1];
      assert FindEntry(sec.entries, es[i + 1].key) < 0;
    }
  }

  function PairEvents(es: seq<Entry>): seq<Event> {
    seq(|es|, i requires 0 <= i < |es| => Pair(es[i].key, es[i].value))
  }

  lemma {:induction false} PairLinesRead(es: seq<Entry>)
    requires Printable(es)
    ensures ReadAll(PairLines(es)) == PairEvents(es)
    decreases |es|
  {
    if es != [] {
      PairLineReads(es[0]);
      PairLinesRead(es[1..]);
      ReadAllCons(PairLine(es[0]), PairLines(es[1..]));
      assert PairEvents(es) == [Pair(es[0].key, es[0].value)] + PairEvents(es[1..]);
    }
  }

  lemma {:induction false} PairsLoad(sec: Section, es: seq<Entry>)
    requires UniqueKeys(es) && New(sec, es)
    ensures Load([sec], PairEvents(es)) == Some([Section(sec.name, sec.entries + es)])
    decreases |es|
  {
    if es == [] {
      assert sec.entries + es == sec.entries;
    } else {
      var sec1 := Section(sec.name, sec.entries + [es[0]]);
      StillNew(sec, es);
      PairsLoad(sec1, es[1..]);
      assert PairEvents(es)[0] == Pair(es[0].key, es[0].value) && FindEntry(sec.entries, es[0].key) < 0;
      assert AppendEntry([sec], Entry(es[0].key, es[0].value)) == [sec1];
      assert PairEvents(es)[1..] == PairEvents(es[1..]);
      assert sec1.entries + es[1..] == sec.entries + es;
    }
  }

  lemma {:induction false} PairLinesAreWf(es: seq<Entry>)
    requires Printable(es)
    ensures forall i | 0 <= i < |es| :: ShortLine(PairLines(es)[i]) && Terminated(PairLines(es)[i])
    decreases |es|
  {
    if es != [] {
      PairLineIsLine(es[0]);
      PairLinesAreWf(es[1..]);
      assert forall i | 1 <= i < |es| :: PairLines(es)[i] == PairLines(es[1..])[i - 1];
    }
  }

  lemma FileLinesAreWf(s: string, es: seq<Entry>)
    requires CleanName(s) && |s| + 3 <= FGETS_LIMIT && Printable(es)
    ensures WfLines(FileLines(s, es))
    ensures forall i | 0 <= i < |FileLines(s, es)| :: Terminated(FileLines(s, es)[i])
  {
    HeaderReads(s);
    PairLinesAreWf(es);
    assert forall i | 1 <= i < |FileLines(s, es)| :: FileLines(s, es)[i] == PairLines(es)[i - 1];
  }

  /** Such a file is read as it was printed. */
  lemma FileLoads(s: string, es: seq<Entry>)
    requires CleanName(s) && |s| + 3 <= FGETS_LIMIT && Printable(es)
    ensures SplitLines(Join(FileLines(s, es))) == FileLines(s, es)
    ensures Loads(Join(FileLines(s, es)), [Section(s, es)])
  {
    var lines := FileLines(s, es);
    FileLinesAreWf(s, es);
    SplitJoin(lines);
    HeaderReads(s);
    ReadAllFirst(lines);
    assert lines[1..] == PairLines(es);
    PairLinesRead(es);
    PairsLoad(Section(s, []), es);
    assert [] + es == es && [] + [Section(s, [])] == [Section(s, [])];
  }

  // ---------- a file of any sections ----------

  function AllLines(m: Ini): seq<string> {
    if m == [] then [] else AllLines(m[..|m| - 1]) + FileLines(m[|m| - 1].name, m[|m| - 1].entries)
  }

  /** What can be printed and read: clean names and pairs, in lines that fit, with no name and no key twice. */
  predicate PrintableIni(m: Ini) {
    Unique(m)
    && forall i | 0 <= i < |m| :: CleanName(m[i].name) && |m[i].name| + 3 <= FGETS_LIMIT && Printable(m[i].entries)
  }

  lemma PrintableFirst(m: Ini)
    requires PrintableIni(m) && m != []
    ensures PrintableIni(m[..|m| - 1]) && NameFree(m[..|m| - 1], m[|m| - 1].name)
    ensures m == m[..|m| - 1] + [m[|m| - 1]]
  {
    var first := m[..|m| - 1];
    assert forall i | 0 <= i < |first| :: first[i] == m[i];
  }

  // Behind other sections, too, the lines of a section load to it.
  lemma SectionLinesLoad(m: Ini, sec: Section)
    requires CleanName(sec.name) && |sec.name| + 3 <= FGETS_LIMIT && Printable(sec.entries) && NameFree(m, sec.name)
    ensures Load(m, ReadAll(FileLines(sec.name, sec.entries))) == Some(m + [sec])
  {
    var events := ReadAll(FileLines(sec.name, sec.entries));
    FileLoads(sec.name, sec.entries);
    assert Load([], events) == Some([sec]);
    LoadBehindFree(m, [], events);
    LoadBehind(m, [], events);
    assert m + [] == m;
  }

  lemma {:induction false} PrintedLoads(m: Ini)
    requires PrintableIni(m)
    ensures WfLines(AllLines(m)) && forall i | 0 <= i < |AllLines(m)| :: Terminated(AllLines(m)[i])
    ensures Load([], ReadAll(AllLines(m))) == Some(m)
  {
    if m != [] {
      var first, last := m[..|m| - 1], m[|m| - 1];
      var a, b := AllLines(first), FileLines(last.name, last.entries);
      PrintableFirst(m);
      PrintedLoads(first);
      FileLinesAreWf(last.name, last.entries);
      WfAppend(a, b);
      SectionLinesLoad(first, last);
      ReadAllAppend(a, b);
      LoadAppend([], ReadAll(a), ReadAll(b));
    }
  }

  /** Whatever sections there are, the file they are printed as is read back as they are. */
  lemma PrintedFileLoads(m: Ini)
    requires PrintableIni(m)
    ensures Loads(Join(AllLines(m)), m)
  {
    PrintedLoads(m);
    SplitJoin(AllLines(m));
  }

  lemma JoinThree(a: string, b: string, c: string)
    ensures Join([a]) == a && Join([a, b]) == a + b && Join([a, b, c]) == a + b + c
  {
    assert Join([]) == "";
    assert [a][1..] == [] && [c][1..] == [] && [b, c][1..] == [c] && [a, b, c][1..] == [b, c];
    assert [a, b][1..] == [b] && [b][1..] == [];
    assert Join([c]) == c && Join([b]) == b && Join([b, c]) == b + c;
  }

  // ---------- the files ----------

  /** An open file of one section, freshly loaded. */
  function File(s: string, es: seq<Entry>): Db {
    Db([Section(s, es)], Join(FileLines(s, es)))
  }

  lemma FileCoherent(s: string, es: seq<Entry>)
    requires CleanName(s) && |s| + 3 <= FGETS_LIMIT && Printable(es)
    ensures Coherent(File(s, es)) && Loads(File(s, es).text, [Section(s, es)])
  {
    FileLoads(s, es);
    LoadCoherent(File(s, es).text, [Section(s, es)]);
  }

  // The entries are parameters: a file of two pairs, its two lines and its text.
  lemma TwoPairs(s: string, a: Entry, b: Entry, es: seq<Entry>, head: string, la: string, lb: string)
    requires CleanName(s) && |s| + 3 <= FGETS_LIMIT && es == [a, b]
    requires CleanEntry(a) && CleanEntry(b) && a.key != b.key && |la| <= FGETS_LIMIT && |lb| <= FGETS_LIMIT
    requires head == HeaderText(s) && la == PairLine(a) && lb == PairLine(b)
    ensures Coherent(File(s, es)) && Loads(File(s, es).text, [Section(s, es)])
    ensures File(s, es).text == head + la + lb && SplitLines(File(s, es).text) == [head, la, lb]
  {
    assert es[1..] == [b] && [b][1..] == [];
    assert PairLines([b]) == [lb] && PairLines(es) == [la, lb];
    assert FileLines(s, es) == [head, la, lb];
    JoinThree(head, la, lb);
    FileLoads(s, es);
    FileCoherent(s, es);
  }

  lemma OnePair(s: string, a: Entry, es: seq<Entry>, head: string, la: string)
    requires CleanName(s) && |s| + 3 <= FGETS_LIMIT && es == [a] && CleanEntry(a) && |la| <= FGETS_LIMIT
    requires head == HeaderText(s) && la == PairLine(a)
    ensures Coherent(File(s, es)) && Loads(File(s, es).text, [Section(s, es)])
    ensures File(s, es).text == head + la && SplitLines(File(s, es).text) == [head, la]
  {
    assert es[1..] == [];
    assert PairLines(es) == [la];
    assert FileLines(s, es) == [head, la];
    JoinThree(head, la, la);
    FileLoads(s, es);
    FileCoherent(s, es);
  }

  /** "[ss]\na b=1\na=2\n": updating a changes "a b". */
  lemma UpdateHitsAnotherKey(es: seq<Entry>, text: string)
    requires es == [Entry("a b", "1"), Entry("a", "2")] && text == "[ss]\n" + "a b=1\n" + "a=2\n"
    ensures Coherent(Db([Section("ss", es)], text))
    ensures !Coherent(Apply(Db([Section("ss", es)], text), Update("ss", "a", "9")).0)
  {
    LongerKeyLines();
    TwoPairs("ss", es[0], es[1], es, "[ss]\n", "a b=1\n", "a=2\n");
    LongerKeyFirst(es);
    UpdateFitsHere(text, "ss", "a", "9");
    UpdateCoherentExactly(Db([Section("ss", es)], text), [Section("ss", es)], "ss", "a", "9");
  }

  lemma LongerKeyLines()
    ensures HeaderText("ss") == "[ss]\n" && CleanName("ss")
    ensures PairLine(Entry("a b", "1")) == "a b=1\n" && PairLine(Entry("a", "2")) == "a=2\n"
    ensures CleanEntry(Entry("a b", "1")) && CleanEntry(Entry("a", "2"))
  {
    assert "a b" + "=" + "1" + "\n" == "a b=1\n" && "a" + "=" + "2" + "\n" == "a=2\n";
  }

  lemma LongerKeyFirst(es: seq<Entry>)
    requires es == [Entry("a b", "1"), Entry("a", "2")]
    ensures Unique([Section("ss", es)]) && HasKey([Section("ss", es)], "ss", "a")
    ensures FindSection([Section("ss", es)], "ss") == 0 && FindEntry(es, "a") == 1 && FirstMatch(es, "a") == 0
  {
    var m := [Section("ss", es)];
    assert |es[0].key| == 3 && es[1].key == "a" && m[0].name == "ss" && m[0].entries == es;
    assert FindSection(m, "ss") == 0;
    assert FindEntry(es, "a") == 1;
    assert PrefixMatch("a b", "a");
  }

  // Short lines leave room for a value.
  lemma UpdateFitsHere(text: string, s: string, k: string, v: string)
    requires forall l | l in SplitLines(text) :: 2 * |l| + |v| + 2 <= FGETS_LIMIT
    ensures UpdateFits(text, s, k, v)
  {
    var lines := SplitLines(text);
    var w := UpdateLine(lines, 0, false, s, k);
    if w.At? {
      assert lines[w.i] in lines;
      ReplacedLength(lines[w.i], v);
    }
  }

  lemma ReplacedLength(line: string, v: string)
    requires Kind(line) == KeyValueLine
    ensures |Replaced(line, v)| <= 2 * |line| + |v| + 2
  {
  }

  lemma PlainLines()
    ensures HeaderText("ss") == "[ss]\n" && CleanName("ss") && CleanName("tt")
    ensures PairLine(Entry("a", "1")) == "a=1\n" && CleanEntry(Entry("a", "1"))
    ensures PairLine(Entry("b", "1")) == "b=1\n" && CleanEntry(Entry("b", "1"))
    ensures PairLine(Entry("b", "2")) == "b=2\n" && CleanEntry(Entry("b", "2"))
  {
  }

  lemma HeaderAlone(text: string, s: string)
    requires CleanName(s) && text == "[" + s + "]" && |s| + 3 <= FGETS_LIMIT
    ensures SplitLines(text) == [text] && Loads(text, [Section(s, [])])
  {
    NameRoundTrip(s, "");
    assert text + "" == text;
    assert forall i | 1 <= i <= |s| :: text[i] == s[i - 1];
    assert Line(text);
    SplitAppend(text, "");
    OneLineLoads([], text);
    assert [] + [Section(s, [])] == [Section(s, [])];
  }

  /** "[ss]" without a newline: an added key is not read again. */
  lemma AddedKeyIsNotRead(text: string)
    requires text == "[ss]"
    ensures Coherent(Db([Section("ss", [])], text))
    ensures !Coherent(Apply(Db([Section("ss", [])], text), AddKey("ss", "a", "1")).0)
  {
    var m := [Section("ss", [])];
    PlainLines();
    assert "[" + "ss" + "]" == text;
    HeaderAlone(text, "ss");
    LoadCoherent(text, m);
    HeaderFound(text, m, "ss");
    assert !Terminated(text);
    CleanPrintsBack(m, AddKey("ss", "a", "1"));
    AddKeyAccepted(m, "ss", "a", "1");
    AddCleanKeyCoherentExactly(Db(m, text), "ss", "a", "1");
  }

  /** "[ss]\n": the key " a" is not clean, and is added to file and index alike. */
  lemma BlankKeyIsKept(text: string)
    requires text == "[ss]\n"
    ensures !CleanKey(" a") && Coherent(Db([Section("ss", [])], text))
    ensures Coherent(Apply(Db([Section("ss", [])], text), AddKey("ss", " a", "1")).0)
  {
    PlainLines();
    assert " " + "a" == " a";
    assert |KeyValueText(" a", "1")| == 7;
    BlankInFront(text, "ss", "a", "1", " a");
  }

  // An empty section, and a clean key added with a blank in front.
  lemma BlankInFront(text: string, s: string, k: string, v: string, blankK: string)
    requires CleanName(s) && CleanKey(k) && CleanValue(v) && text == HeaderText(s) && blankK == " " + k
    requires |s| + 3 <= FGETS_LIMIT && |KeyValueText(blankK, v)| <= FGETS_LIMIT
    ensures Coherent(Db([Section(s, [])], text))
    ensures Coherent(Apply(Db([Section(s, [])], text), AddKey(s, blankK, v)).0)
  {
    var m, line := [Section(s, [])], KeyValueText(blankK, v);
    HeaderLineAlone(text, s);
    LoadCoherent(text, m);
    HeaderFound(text, m, s);
    BlankKeyLine(line, k, v, blankK);
    KeyBehindHeader(text, line, s, k, v);
    AddKeyAccepted(m, s, blankK, v);
    AddKeyCoherentExactly(Db(m, text), s, blankK, v);
  }

  lemma KeyBehindHeader(text: string, line: string, s: string, k: string, v: string)
    requires Read(text) == Head(s) && ShortLine(text) && Terminated(text)
    requires Read(line) == Pair(k, v) && ShortLine(line) && Terminated(line)
    ensures WfLines(SplitLines(text + line)) && LoadText([], text + line) == Some([Section(s, [Entry(k, v)])])
  {
    TwoLinesWf(text, line);
    LoadLineText([], text, line);
    OneLineLoads([Section(s, [])], line);
    HeadThenPair(s, k, v);
  }

  lemma HeadThenPair(s: string, k: string, v: string)
    ensures Step([], Head(s)) == Some([Section(s, [])])
    ensures Step([Section(s, [])], Pair(k, v)) == Some([Section(s, [Entry(k, v)])])
  {
    var m, e := [Section(s, [])], Entry(k, v);
    assert [] + m == m && [] + [e] == [e] && m[0].entries == [];
    assert AppendEntry(m, e) == [Section(s, [e])];
  }

  lemma OneLineLoads(m: Ini, line: string)
    requires ShortLine(line)
    ensures LoadText(m, line) == Step(m, Read(line))
  {
    assert line + "" == line;
    LoadLineText(m, line, "");
  }

  lemma TwoLinesWf(text: string, line: string)
    requires ShortLine(text) && Terminated(text) && ShortLine(line)
    ensures WfLines(SplitLines(text + line))
  {
    SplitAppend(text, line);
    SplitAppend(line, "");
    assert line + "" == line;
  }

  lemma AddKeyAccepted(m: Ini, s: string, k: string, v: string)
    requires m == [Section(s, [])] && ParseKeyValue(k + "=" + v).Some?
    ensures IndexStep(m, AddKey(s, k, v)).1 == 0 && HasSection(m, s)
  {
    assert m[0].name == s;
  }

  lemma HeaderLineAlone(text: string, s: string)
    requires CleanName(s) && text == HeaderText(s) && |s| + 3 <= FGETS_LIMIT
    ensures Read(text) == Head(s) && ShortLine(text) && Terminated(text)
    ensures SplitLines(text) == [text] && Loads(text, [Section(s, [])])
  {
    HeaderReads(s);
    SplitAppend(text, "");
    assert text + "" == text;
    LoadLineText([], text, "");
    assert [] + [Section(s, [])] == [Section(s, [])];
  }

  lemma BlankKeyLine(line: string, k: string, v: string, blankK: string)
    requires CleanKey(k) && CleanValue(v) && blankK == " " + k && line == KeyValueText(blankK, v)
    ensures Read(line) == Pair(k, v) && Line(line) && Terminated(line)
    ensures ParseKeyValue(blankK + "=" + v) == Some((k, v))
  {
    assert line == " " + k + "\t" + "=" + "\t" + v + "\n" + "";
    KeyValueRoundTrip(" ", k, "\t", "\t", v, "\n", "");
    PairReads(line, k, v);
    FreeAppend(" ", k, '\n');
    KeyValueTextIsLine(blankK, v);
    BlankKeyParsed(k, v, blankK);
  }

  lemma BlankKeyParsed(k: string, v: string, blankK: string)
    requires CleanKey(k) && CleanValue(v) && blankK == " " + k
    ensures ParseKeyValue(blankK + "=" + v) == Some((k, v))
  {
    assert blankK + "=" + v == " " + k + "" + "=" + "" + v + "" + "";
    KeyValueRoundTrip(" ", k, "", "", v, "", "");
  }

  /** With a key "a", adding " a" gives a second one. */
  lemma TwoKeysOfOneName(m: Ini)
    requires m == [Section("ss", [Entry("a", "1")])]
    ensures IndexStep(m, AddKey("ss", " a", "2")).1 == 0 && !Unique(IndexStep(m, AddKey("ss", " a", "2")).0)
  {
    BlankIsDropped();
    assert FindSection(m, "ss") == 0;
    AddKeyUniqueExactly(m, "ss", " a", "2");
    assert m[0].entries[0].key == "a";
  }

  lemma BlankIsDropped()
    ensures ParseKeyValue(" a" + "=" + "2") == Some(("a", "2"))
  {
    assert " a" + "=" + "2" == " " + "a" + "" + "=" + "" + "2" + "" + "";
    KeyValueRoundTrip(" ", "a", "", "", "2", "", "");
  }

  /** "[ss]\na=1\n": deleting a loses the section in the file. */
  lemma DeletedKeyTakesItsSection(es: seq<Entry>, text: string)
    requires es == [Entry("a", "1")] && text == "[ss]\n" + "a=1\n"
    ensures Coherent(Db([Section("ss", es)], text))
    ensures !Coherent(Apply(Db([Section("ss", es)], text), DeleteKey("ss", "a")).0)
  {
    PlainLines();
    OnePair("ss", es[0], es, "[ss]\n", "a=1\n");
    assert FindSection([Section("ss", es)], "ss") == 0 && FindEntry(es, "a") == 0;
    DeleteKeyBreaksCoherence(Db([Section("ss", es)], text), "ss", "a");
  }

  /** "[ss]\na=1\nb=2\n": deleting the section with a key left in the parameter leaves a pair behind. */
  lemma KeyLeftLeavesAPair(es: seq<Entry>, text: string)
    requires es == [Entry("a", "1"), Entry("b", "2")] && text == "[ss]\n" + "a=1\n" + "b=2\n"
    ensures Coherent(Db([Section("ss", es)], text))
    ensures !Coherent(Apply(Db([Section("ss", es)], text), DeleteSection("ss", Some("a"))).0)
  {
    PlainLines();
    TwoPairs("ss", es[0], es[1], es, "[ss]\n", "a=1\n", "b=2\n");
    TwoPairsLeaveOne(["[ss]\n", "a=1\n", "b=2\n"], es);
    assert FindSection([Section("ss", es)], "ss") == 0;
    DeleteSectionCoherentExactly(Db([Section("ss", es)], text), "ss", Some("a"));
  }

  lemma TwoPairsLeaveOne(lines: seq<string>, es: seq<Entry>)
    requires |lines| == 3 && |es| == 2 && CleanEntry(es[0]) && CleanEntry(es[1])
    requires lines[0] == HeaderText("ss") && lines[1] == PairLine(es[0]) && lines[2] == PairLine(es[1])
    ensures !NoneLeftBehind(lines, "ss", "a")
  {
    HeaderReads("ss");
    SeekingAction(lines[0], "ss", None);
    PairLineReads(es[0]);
    PairLineReads(es[1]);
    KindRead(lines[1]);
    KindRead(lines[2]);
    assert lines[1..][0] == lines[1] && lines[1..][1..][0] == lines[2];
    assert !NoneLeft(lines[1..][1..], "a", true);
    assert !NoneLeft(lines[1..], "a", false);
  }

  /** "[ss]\nb=1\n": with the key a left, the last memcmp is below zero, and the rewritten file is thrown away. */
  lemma ComparisonKeepsTheFile(es: seq<Entry>, text: string)
    requires es == [Entry("b", "1")] && text == "[ss]\n" + "b=1\n"
    ensures Coherent(Db([Section("ss", es)], text))
    ensures Apply(Db([Section("ss", es)], text), DeleteSection("ss", Some("a"))) == (Db([], text), -1)
  {
    PlainLines();
    OnePair("ss", es[0], es, "[ss]\n", "b=1\n");
    NegativeCode(["[ss]\n", "b=1\n"], es[0]);
    ApplyIs(Db([Section("ss", es)], text), DeleteSection("ss", Some("a")));
    assert FindSection([Section("ss", es)], "ss") == 0;
    assert RemoveAt([Section("ss", es)], 0) == [];
  }

  lemma NegativeCode(lines: seq<string>, e: Entry)
    requires lines == [HeaderText("ss"), PairLine(e)] && e == Entry("b", "1")
    ensures LastCompare(lines, "", 0, "ss", Some("a"), 0) == -1
  {
    var head, line := lines[0], lines[1];
    HeaderReads("ss");
    SeekingAction(head, "ss", Some("a"));
    HeaderCode(head, "", "ss", Some("a"), 0);
    NegativeComparison(line, head, e);
    var rest: seq<string> := [line];
    assert lines[1..] == rest && rest[1..] == [];
    assert LastCompare(rest, head, 2, "ss", Some("a"), 0) == -1;
  }

  lemma NegativeComparison(line: string, stale: string, e: Entry)
    requires line == PairLine(e) && e == Entry("b", "1")
    ensures DeleteAction(line, 2, "ss", Some("a")) == Keep(2)
    ensures NextCompare(line, stale, 2, "ss", Some("a"), 0) == -1
  {
    PairLineReads(e);
    KindRead(line);
    KeyIsSmaller(line, stale, "a");
    KeyAction(line, "ss", "a");
  }

  // A key of one letter against a line that begins with a greater one and '='.
  lemma KeyIsSmaller(line: string, stale: string, k: string)
    requires 1 < |line| && |k| == 1 && k[0] < line[0] && !Blank(line[0]) && line[1] == '='
    ensures SkipFrom(line, 0, |line|) == 0 && KeyCompared(line, stale, k) && !KeyMatches(line, k)
    ensures Compare(k, line[SkipFrom(line, 0, |line|)..]) == -1
  {
    assert line[0..] == line && line[0..1] == [line[0]];
  }

  /** "[ss]\na=1\n": adding a section with a key left in the parameter writes nothing. */
  lemma KeyLeftAddsNothing(es: seq<Entry>, text: string)
    requires es == [Entry("a", "1")] && text == "[ss]\n" + "a=1\n"
    ensures Coherent(Db([Section("ss", es)], text))
    ensures !Coherent(Apply(Db([Section("ss", es)], text), AddSection("tt", Some(("a", "1")))).0)
  {
    PlainLines();
    OnePair("ss", es[0], es, "[ss]\n", "a=1\n");
    OtherName(es);
    PairLeftNeverCoherent(Db([Section("ss", es)], text), "tt", ("a", "1"));
  }

  lemma OtherName(es: seq<Entry>)
    ensures FindSection([Section("ss", es)], "tt") < 0
  {
    assert "ss"[0] != "tt"[0];
  }

  lemma PairLeftNeverCoherent(db: Db, s: string, kv: (string, string))
    requires Coherent(db) && CleanName(s) && FindSection(db.index, s) < 0
    ensures !Coherent(Apply(db, AddSection(s, Some(kv))).0)
  {
    CleanPrintsBack(db.index, AddSection(s, Some(kv)));
    AddSectionCoherentExactly(db, s, Some(kv));
  }
}
