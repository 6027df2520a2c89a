/** Re-reading a rewritten file yields the edited sections: the commuting squares, and where they fail. */
module IniSquare {
  import opened Wrappers
  import opened IniText
  import opened IniModel
  import opened IniLoad
  import opened IniEdit
  import opened IniTarget
  import opened IniRewrite

  // ---------- the replaced line ----------

  lemma KeyPartPrefix(line: string, r: nat, p: nat, q: nat, e: nat)
    requires KeyPart(line, p, q, e) && e < r <= |line|
    ensures KeyPart(line[..r], p, q, e) && line[..r][p..q] == line[p..q]
  {
  }

  lemma TailShape(a: string, e: nat, v: string, ws: string, comment: string)
    requires e < |a| && Free(a, ';') && Free(a, '[') && forall i | e < i < |a| :: Blank(a[i])
    requires CleanValue(v) && ValueTail(ws, comment)
    ensures var line := a + v + ws + comment;
            var t := |a| + |v|;
            && ValuePart(line, e, |a|, t, t + |ws|) && PlainBody(line, t + |ws|)
            && line[|a|..t] == v
  {
    var line := a + v + ws + comment;
    var t := |a| + |v|;
    assert forall i | 0 <= i < |a| :: line[i] == a[i];
    assert forall i | |a| <= i < t :: line[i] == v[i - |a|];
    assert forall i | t <= i < t + |ws| :: line[i] == ws[i - t];
  }

  // Where Replaced cuts the old line: behind the '=' and its blanks.
  function Cut(line: string): (r: nat)
    ensures r <= |line|
  {
    SkipFrom(line, First(line, '=') + 1, |line|)
  }

  lemma CutShape(line: string)
    requires Read(line).Pair?
    ensures var e, r := First(line, '='), Cut(line);
            && 0 <= e < r < BodyEnd(line)
            && forall i | e < i < r :: Blank(line[i])
    ensures Free(line[..Cut(line)], ';') && Free(line[..Cut(line)], '[')
  {
    var e, stop := First(line, '='), BodyEnd(line);
    var (r, t) := ValueSpan(line, e, stop);
    assert r < stop;
    assert Cut(line) == r;
    assert forall i | 0 <= i < r :: line[..r][i] == line[i];
  }

  // A key part cut behind its '=' and completed with a value and a tail.
  lemma CompletedPair(a: string, p: nat, q: nat, e: nat, v: string, ws: string, comment: string)
    requires KeyPart(a, p, q, e) && forall i | e < i < |a| :: Blank(a[i])
    requires Free(a, ';') && Free(a, '[') && CleanValue(v) && ValueTail(ws, comment)
    ensures IsPair(a + v + ws + comment, a[p..q], v)
  {
    var l := a + v + ws + comment;
    KeyPartAppend(a, v, p, q, e);
    KeyPartAppend(a + v, ws, p, q, e);
    KeyPartAppend(a + v + ws, comment, p, q, e);
    TailShape(a, e, v, ws, comment);
    var t := |a| + |v|;
    assert l[p..q] == a[p..q] && l[|a|..t] == v;
    ShapeParses(l, p, q, e, |a|, t, t + |ws|);
  }

  lemma ReplacedPair(line: string, v: string, ws: string, comment: string)
    requires Read(line).Pair? && CleanValue(v) && ValueTail(ws, comment)
    ensures IsPair(line[..Cut(line)] + v + ws + comment, Read(line).key, v)
  {
    var e, r := First(line, '='), Cut(line);
    var a := line[..r];
    ReadKeyPart(line);
    CutShape(line);
    var (p, q) := KeySpan(line, e);
    KeyPartPrefix(line, r, p, q, e);
    assert forall i | e < i < |a| :: a[i] == line[i];
    CompletedPair(a, p, q, e, v, ws, comment);
  }

  // The comment of a line, from its ';' on.
  function Comment(line: string): (c: string)
    ensures c == "" || c[0] == ';'
  {
    var rest := line[Cut(line)..];
    var c := First(rest, ';');
    if c < 0 then "" else rest[c..]
  }

  lemma CommentIsTail(line: string)
    requires Line(line) && Read(line).Pair?
    ensures Comment(line) != "" ==> Line(Comment(line)) && (Terminated(Comment(line)) <==> Terminated(line))
    ensures Free(line[..Cut(line)], '\n')
  {
    CutShape(line);
    CommentPlace(line);
    TailOfLine(line, |line| - |Comment(line)|);
    assert forall i | 0 <= i < Cut(line) :: line[..Cut(line)][i] == line[i];
  }

  lemma CommentPlace(line: string)
    ensures |Comment(line)| <= |line| && Comment(line) == line[|line| - |Comment(line)|..]
  {
  }

  lemma TailOfLine(line: string, n: nat)
    requires Line(line) && n <= |line|
    ensures n < |line| ==> Line(line[n..]) && (Terminated(line[n..]) <==> Terminated(line))
  {
    assert forall i | 0 <= i < |line| - n :: line[n..][i] == line[n + i];
  }

  lemma ReplacedIs(line: string, v: string)
    requires Kind(line) == KeyValueLine
    ensures Replaced(line, v) == line[..Cut(line)] + v + (if Comment(line) == "" then "" else "\t" + Comment(line)) + "\n"
  {
  }

  lemma LineOfParts(a: string, v: string, ws: string, comment: string)
    requires Free(a, '\n') && Free(v, '\n') && Trimmed(v)
    requires (ws == "\n" && comment == "") || (ws == "\t" && Line(comment) && Terminated(comment))
    ensures Line(a + v + ws + comment) && Terminated(a + v + ws + comment)
  {
    var line := a + v + ws + comment;
    var t := |a| + |v|;
    assert forall i | 0 <= i < |a| :: line[i] == a[i];
    assert forall i | |a| <= i < t :: line[i] == v[i - |a|];
    assert line[t] == ws[0];
    assert forall i | t < i < |line| :: line[i] == comment[i - t - 1];
  }

  lemma ReplacedLine(line: string, v: string, ws: string, comment: string)
    requires Line(line) && Read(line).Pair? && CleanValue(v)
    requires (ws == "\n" && comment == "") || (ws == "\t" && Line(comment) && Terminated(comment) && comment[0] == ';')
    ensures var l := line[..Cut(line)] + v + ws + comment;
            Line(l) && Terminated(l) && IsPair(l, Read(line).key, v)
  {
    CommentIsTail(line);
    ReplacedPair(line, v, ws, comment);
    LineOfParts(line[..Cut(line)], v, ws, comment);
  }

  /** What an update writes is one line with the old key and the new value, then at most a blank line. */
  lemma ReplacedLines(line: string, v: string) returns (l: string, blank: string)
    requires Line(line) && Read(line).Pair? && CleanValue(v)
    ensures Replaced(line, v) == l + blank
    ensures Line(l) && Terminated(l) && IsPair(l, Read(line).key, v)
    ensures blank == "" || blank == "\n"
  {
    var a, c := line[..Cut(line)], Comment(line);
    ReplacedIs(line, v);
    CommentIsTail(line);
    Regroup(a + v, c);
    if c == "" {
      l, blank := a + v + "\n" + "", "";
      ReplacedLine(line, v, "\n", "");
    } else if Terminated(line) {
      l, blank := a + v + "\t" + c, "\n";
      ReplacedLine(line, v, "\t", c);
    } else {
      l, blank := a + v + "\t" + (c + "\n"), "";
      EndLine(c);
      ReplacedLine(line, v, "\t", c + "\n");
    }
  }

  lemma Regroup(x: string, c: string)
    ensures x + "" + "\n" == x + "\n" + "" + ""
    ensures x + ("\t" + c) + "\n" == x + "\t" + c + "\n"
    ensures x + ("\t" + c) + "\n" == x + "\t" + (c + "\n") + ""
  {
  }

  lemma EndLine(c: string)
    requires Line(c) && !Terminated(c)
    ensures Line(c + "\n") && Terminated(c + "\n")
  {
  }

  lemma PairReads(l: string, k: string, v: string)
    requires IsPair(l, k, v)
    ensures Read(l) == Pair(k, v)
  {
  }

  lemma BlankReads()
    ensures Read("\n") == Skip && ShortLine("\n") && Terminated("\n")
  {
    assert SkipFrom("\n", 0, 1) == 0;
  }

  // ---------- a rewritten middle ----------

  lemma WfSlices(lines: seq<string>, i: nat)
    requires WfLines(lines) && i <= |lines|
    ensures WfLines(lines[..i]) && WfLines(lines[i..])
    ensures 0 < i < |lines| ==> Terminated(lines[..i][i - 1])
  {
    assert forall j | 0 <= j < i :: lines[..i][j] == lines[j];
    assert forall j | 0 <= j < |lines| - i :: lines[i..][j] == lines[i + j];
  }

  lemma LoadJoined(m: Ini, lines: seq<string>)
    requires WfLines(lines)
    ensures LoadText(m, Join(lines)) == Load(m, ReadAll(lines))
  {
    SplitJoin(lines);
  }

  lemma LoadTwoLines(m: Ini, l: string, blank: string, rest: string)
    requires ShortLine(l) && Terminated(l) && (blank == "" || blank == "\n")
    ensures LoadText(m, l + blank + rest) == match Step(m, Read(l)) case None => None case Some(m1) => LoadText(m1, rest)
  {
    assert l + blank + rest == l + (blank + rest);
    LoadLineText(m, l, blank + rest);
    BlankReads();
    match Step(m, Read(l))
    case None =>
    case Some(m1) =>
      if blank == "" {
        assert blank + rest == rest;
      } else {
        LoadLineText(m1, blank, rest);
      }
  }

  lemma LoadMiddle(m: Ini, a: seq<Event>, event: Event, b: seq<Event>)
    ensures Load(m, a + [event] + b) ==
            match Load(m, a)
            case None => None
            case Some(m1) => (match Step(m1, event) case None => None case Some(m2) => Load(m2, b))
  {
    var p := [event];
    assert a + p + b == a + (p + b);
    assert (p + b)[1..] == b;
    LoadAppend(m, a, p + b);
  }

  /** Replacing line i by a line l (and a blank line) replaces its event. */
  lemma LoadReplaced(lines: seq<string>, i: nat, l: string, blank: string)
    requires WfLines(lines) && i < |lines|
    requires ShortLine(l) && Terminated(l) && (blank == "" || blank == "\n")
    ensures var text := Join(lines[..i]) + (l + blank) + Join(lines[i + 1..]);
            WfLines(SplitLines(text)) && LoadText([], text) == Load([], ReadAll(lines)[i := Read(l)])
  {
    var a, b := lines[..i], lines[i + 1..];
    assert ReadAll(lines)[i := Read(l)] == ReadAll(a) + [Read(l)] + ReadAll(b);
    LoadMiddle([], ReadAll(a), Read(l), ReadAll(b));
    WfSlices(lines, i);
    WfSlices(lines, i + 1);
    LoadTextMiddle(a, l, blank, b);
    JoinMiddle(a, l, blank, b);
  }

  lemma LoadTextMiddle(a: seq<string>, l: string, blank: string, b: seq<string>)
    requires WfLines(a) && (a != [] ==> Terminated(a[|a| - 1])) && WfLines(b)
    requires ShortLine(l) && Terminated(l) && (blank == "" || blank == "\n")
    ensures LoadText([], Join(a) + (l + blank) + Join(b)) ==
            match Load([], ReadAll(a))
            case None => None
            case Some(m) => (match Step(m, Read(l)) case None => None case Some(m1) => Load(m1, ReadAll(b)))
  {
    var text := l + blank + Join(b);
    assert Join(a) + (l + blank) + Join(b) == Join(a) + text;
    LoadJoinText([], a, text);
    match Load([], ReadAll(a))
    case None =>
    case Some(m) =>
      LoadTwoLines(m, l, blank, Join(b));
      match Step(m, Read(l))
      case None =>
      case Some(m1) => LoadJoined(m1, b);
  }

  lemma JoinMiddle(a: seq<string>, l: string, blank: string, b: seq<string>)
    requires WfLines(a) && (a != [] ==> Terminated(a[|a| - 1])) && WfLines(b)
    requires ShortLine(l) && Terminated(l) && (blank == "" || blank == "\n")
    ensures WfLines(SplitLines(Join(a) + (l + blank) + Join(b)))
  {
    var mid := if blank == "" then [l] else [l, blank];
    BlankReads();
    assert Join([]) == "";
    assert Join([blank]) == blank + "" == blank;
    assert [l, blank][1..] == [blank] && [l][1..] == [];
    assert Join(mid) == l + blank;
    JoinAppend(a, mid);
    JoinAppend(a + mid, b);
    var all := a + mid + b;
    assert forall i | 0 <= i < |all| ::
        all[i] == if i < |a| then a[i] else if i < |a + mid| then mid[i - |a|] else b[i - |a + mid|];
    SplitJoin(all);
  }

  // ---------- update ----------

  /** The state every square starts from: a file of short lines that loads to m. */
  ghost predicate Loads(text: string, m: Ini) {
    WfLines(SplitLines(text)) && LoadText([], text) == Some(m)
  }

  ghost predicate HasKey(m: Ini, s: string, k: string) {
    0 <= FindSection(m, s) && 0 <= FindEntry(m[FindSection(m, s)].entries, k)
  }

  // The write of an update stays inside the 1024-byte line buffer.
  ghost predicate UpdateFits(text: string, s: string, k: string, v: string) {
    var lines := SplitLines(text);
    var w := UpdateLine(lines, 0, false, s, k);
    w.At? ==> |Replaced(lines[w.i], v)| <= FGETS_LIMIT
  }

  lemma KeyIsMatched(m: Ini, s: string, k: string)
    requires HasKey(m, s, k)
    ensures 0 <= FirstMatch(m[FindSection(m, s)].entries, k) <= FindEntry(m[FindSection(m, s)].entries, k)
  {
    var es := m[FindSection(m, s)].entries;
    assert PrefixMatch(es[FindEntry(es, k)].key, k);
  }

  /** The file after an update loads to the old sections with one value replaced: that of the first key
      which is k or goes on behind k with a blank. */
  lemma UpdateSquare(text: string, m: Ini, s: string, k: string, v: string)
    requires Loads(text, m) && HasKey(m, s, k) && CleanValue(v) && UpdateFits(text, s, k, v)
    ensures 0 <= FirstMatch(m[FindSection(m, s)].entries, k)
    ensures UpdateText(text, s, k, v).Some?
    ensures var x := FindSection(m, s);
            Loads(UpdateText(text, s, k, v).value, SetValue(m, x, FirstMatch(m[x].entries, k), v))
  {
    var lines := SplitLines(text);
    var i := UpdateTarget(ReadAll(lines), false, s, k);
    KeyIsMatched(m, s, k);
    UpdateTargetLine(text, m, s, k, v);
    var l, blank := ReplacedLines(lines[i], v);
    PairReads(l, Read(lines[i]).key, v);
    LoadReplaced(lines, i, l, blank);
  }

  // The line an update rewrites, and what replacing its value loads to.
  lemma UpdateTargetLine(text: string, m: Ini, s: string, k: string, v: string)
    requires Loads(text, m) && HasKey(m, s, k)
    requires 0 <= FirstMatch(m[FindSection(m, s)].entries, k)
    ensures var events, x := ReadAll(SplitLines(text)), FindSection(m, s);
            var i := UpdateTarget(events, false, s, k);
            && 0 <= i < |events| && UpdateLine(SplitLines(text), 0, false, s, k) == At(i) && events[i].Pair?
            && Load([], events[i := Pair(events[i].key, v)]) == Some(SetValue(m, x, FirstMatch(m[x].entries, k), v))
  {
    var lines := SplitLines(text);
    var events := ReadAll(lines);
    var x := FindSection(m, s);
    LoadedIsCleanAndUnique(text);
    assert CleanSection(m[x]) && CleanEntry(m[x].entries[FindEntry(m[x].entries, k)]);
    LoadableIsReadable([], lines);
    UpdateLineIsTarget(lines, 0, false, s, k);
    assert events[0..] == events;
    LoadGrows([], events);
    UpdateEvents([], events, false, s, k, v);
  }

  lemma UncleanNeverLoads(text: string, m: Ini)
    requires !Clean(m)
    ensures LoadText([], text) != Some(m)
  {
    if LoadText([], text) == Some(m) {
      LoadedIsCleanAndUnique(text);
    }
  }

  /** Exactly when an update leaves file and index agreeing: the value is clean, and no earlier key of the section
      goes on behind k with a blank (or the two values involved are v already). */
  lemma UpdateSquareExactly(text: string, m: Ini, s: string, k: string, v: string)
    requires Loads(text, m) && HasKey(m, s, k) && UpdateFits(text, s, k, v)
    requires UpdateText(text, s, k, v).Some?
    ensures var x := FindSection(m, s);
            var es := m[x].entries;
            var j, f := FindEntry(es, k), FirstMatch(es, k);
            LoadText([], UpdateText(text, s, k, v).value) == Some(SetValue(m, x, j, v)) <==>
            CleanValue(v) && (f == j || (0 <= f && es[f].value == v && es[j].value == v))
  {
    var x := FindSection(m, s);
    var es := m[x].entries;
    var j, f := FindEntry(es, k), FirstMatch(es, k);
    KeyIsMatched(m, s, k);
    if CleanValue(v) {
      UpdateSquare(text, m, s, k, v);
      SetValueAgrees(m, x, f, j, v);
    } else {
      var n := SetValue(m, x, j, v);
      assert !CleanEntry(n[x].entries[j]);
      assert !CleanSection(n[x]);
      UncleanNeverLoads(UpdateText(text, s, k, v).value, n);
    }
  }

  lemma SetValueAgrees(m: Ini, x: nat, f: nat, j: nat, v: string)
    requires x < |m| && f < |m[x].entries| && j < |m[x].entries|
    ensures SetValue(m, x, f, v) == SetValue(m, x, j, v) <==>
            f == j || (m[x].entries[f].value == v && m[x].entries[j].value == v)
  {
    var es := m[x].entries;
    var a, b := SetValue(m, x, f, v)[x].entries, SetValue(m, x, j, v)[x].entries;
    if f != j {
      assert a[f] == Entry(es[f].key, v) && b[f] == es[f];
      assert a[j] == es[j] && b[j] == Entry(es[j].key, v);
      if es[f].value == v && es[j].value == v {
        assert a == es && b == es;
      }
    }
  }

  // ---------- add a key ----------

  ghost predicate HasSection(m: Ini, s: string) {
    0 <= FindSection(m, s)
  }

  ghost predicate AddFits(text: string, s: string, k: string, v: string) {
    var lines := SplitLines(text);
    var w := HeaderLine(lines, 0, s);
    w.At? ==> |lines[w.i] + KeyValueText(k, v)| <= FGETS_LIMIT
  }

  // The header line of s ends in a newline.
  ghost predicate HeaderTerminated(text: string, s: string) {
    var lines := SplitLines(text);
    var w := HeaderLine(lines, 0, s);
    w.At? && Terminated(lines[w.i])
  }

  lemma PrintedReads(k: string, v: string)
    requires CleanKey(k) && CleanValue(v)
    ensures Read(KeyValueText(k, v)) == Pair(k, v)
    ensures Line(KeyValueText(k, v)) && Terminated(KeyValueText(k, v))
  {
    KeyValueTextIsLine(k, v);
    assert KeyValueText(k, v) == "" + k + "\t" + "=" + "\t" + v + "\n" + "";
    KeyValueRoundTrip("", k, "\t", "\t", v, "\n", "");
    PairReads(KeyValueText(k, v), k, v);
  }

  lemma HeaderFound(text: string, m: Ini, s: string)
    requires Loads(text, m) && HasSection(m, s)
    ensures var lines := SplitLines(text);
            var i := HeadTarget(ReadAll(lines), s);
            && Readable(lines) && Clean(m) && Unique(m) && CleanName(s)
            && 0 <= i && HeaderLine(lines, 0, s) == At(i) && Read(lines[i]) == Head(s)
  {
    var lines := SplitLines(text);
    LoadedIsCleanAndUnique(text);
    assert CleanSection(m[FindSection(m, s)]);
    LoadableIsReadable([], lines);
    HeaderLineIsTarget(lines, 0, s);
    assert ReadAll(lines)[0..] == ReadAll(lines);
    HeadTargetFound([], ReadAll(lines), s);
  }

  /** With a terminated header, adding a key loads to the old sections with the key in front. */
  lemma AddKeySquare(text: string, m: Ini, s: string, k: string, v: string)
    requires Loads(text, m) && HasSection(m, s) && KeyFree(m[FindSection(m, s)].entries, k)
    requires CleanKey(k) && CleanValue(v) && AddFits(text, s, k, v) && HeaderTerminated(text, s)
    ensures AddKeyText(text, s, k, v).Some?
    ensures Loads(AddKeyText(text, s, k, v).value, InsertFront(m, FindSection(m, s), Entry(k, v)))
  {
    var lines := SplitLines(text);
    var events := ReadAll(lines);
    HeaderFound(text, m, s);
    var i := HeadTarget(events, s);
    AddEvents([], events, s, Entry(k, v));
    PrintedReads(k, v);
    LoadInserted(lines, i, KeyValueText(k, v));
  }

  /** Writing a line behind a terminated line i inserts its event. */
  lemma LoadInserted(lines: seq<string>, i: nat, l: string)
    requires WfLines(lines) && i < |lines| && Terminated(lines[i]) && ShortLine(l) && Terminated(l)
    ensures var text := Join(lines[..i]) + (lines[i] + l) + Join(lines[i + 1..]);
            var events := ReadAll(lines);
            && WfLines(SplitLines(text))
            && LoadText([], text) == Load([], events[..i + 1] + [Read(l)] + events[i + 1..])
  {
    var events := ReadAll(lines);
    var a, b := lines[..i + 1], lines[i + 1..];
    WfSlices(lines, i + 1);
    assert a[|a| - 1] == lines[i];
    LoadTextMiddle(a, l, "", b);
    JoinMiddle(a, l, "", b);
    LoadMiddle([], ReadAll(a), Read(l), ReadAll(b));
    assert events[..i + 1] == ReadAll(a) && events[i + 1..] == ReadAll(b);
    HeaderThenKey(lines, i, l);
  }

  lemma HeaderThenKey(lines: seq<string>, i: nat, l: string)
    requires i < |lines|
    ensures Join(lines[..i]) + (lines[i] + l) == Join(lines[..i + 1]) + (l + "")
  {
    assert lines[..i] == lines[0..i] && lines[..i + 1] == lines[0..i + 1];
    JoinPush(lines, 0, i);
    assert l + "" == l;
    assert Join(lines[..i]) + (lines[i] + l) == Join(lines[..i]) + lines[i] + l;
  }

  // A header without newline and the key behind it make one line, which holds no key.
  lemma GluedHeader(l: string, k: string, v: string)
    requires Read(l).Head? && Line(l) && !Terminated(l) && CleanKey(k) && CleanValue(v)
    ensures Kind(l + KeyValueText(k, v)) == SectionLine || Kind(l + KeyValueText(k, v)) == ErrorLine
  {
    var t := KeyValueText(k, v);
    var g := l + t;
    var b, e, stop := First(l, '['), First(l, '='), BodyEnd(l);
    assert forall i | 0 <= i < |l| :: g[i] == l[i];
    SamePrefixFirst(g, l, |l|, '[');
    SamePrefixFirst(g, l, |l|, '=');
    SamePrefixFirst(g, l, |l|, ';');
    assert g[|l| + |k| + 1] == t[|k| + 1] == '=';
    if stop == |l| {
      assert forall i | 0 <= i < |k| + 2 :: g[|l| + i] == t[i];
      assert forall i | 0 <= i < |k| :: t[i] == k[i];
      assert forall i | 0 <= i < |l| + |k| + 2 :: g[i] != ';';
    }
    NotBlankFirst(l, g);
  }

  lemma NotBlankFirst(l: string, g: string)
    requires Kind(l) == SectionLine && l <= g
    ensures SkipFrom(g, 0, |g|) == SkipFrom(l, 0, |l|) < |l| && g[SkipFrom(l, 0, |l|)] != '\n'
  {
    var b := First(l, '[');
    assert !Blank(l[b]);
    assert forall i | 0 <= i < |l| :: l[i] == g[i];
    assert SkipFrom(l, 0, |l|) <= b;
  }

  lemma GlueKey(l: string, k: string, v: string) returns (g: string)
    requires Read(l).Head? && Line(l) && !Terminated(l) && CleanKey(k) && CleanValue(v)
    ensures g == l + KeyValueText(k, v) && Line(g) && Terminated(g) && (Read(g).Head? || Read(g).Bad?)
  {
    g := l + KeyValueText(k, v);
    GluedHeader(l, k, v);
    PrintedReads(k, v);
    GluedIsLine(l, KeyValueText(k, v));
  }

  /** Without a newline behind the header, the key is not in its section when the file is read again. */
  lemma AddKeyBehindUnterminatedHeader(text: string, m: Ini, s: string, k: string, v: string)
    requires Loads(text, m) && HasSection(m, s) && KeyFree(m[FindSection(m, s)].entries, k)
    requires CleanKey(k) && CleanValue(v) && AddFits(text, s, k, v) && !HeaderTerminated(text, s)
    ensures AddKeyText(text, s, k, v).Some?
    ensures var n := LoadText([], AddKeyText(text, s, k, v).value);
            n.Some? ==> !HasKey(n.value, s, k)
  {
    var lines := SplitLines(text);
    HeaderFound(text, m, s);
    var i := HeadTarget(ReadAll(lines), s);
    assert i == |lines| - 1;
    var g := GlueKey(lines[i], k, v);
    LoadReplaced(lines, i, g, "");
    assert g + "" == g;
    LastHeaderReplaced(ReadAll(lines), Read(g), s, k);
  }

  /** Exactly when a key that is added is read back in front of its section: the pair is clean and the header terminated. */
  lemma AddKeySquareExactly(text: string, m: Ini, s: string, k: string, v: string)
    requires Loads(text, m) && HasSection(m, s) && KeyFree(m[FindSection(m, s)].entries, k) && AddFits(text, s, k, v)
    requires AddKeyText(text, s, k, v).Some?
    ensures LoadText([], AddKeyText(text, s, k, v).value) == Some(InsertFront(m, FindSection(m, s), Entry(k, v)))
       <==> CleanKey(k) && CleanValue(v) && HeaderTerminated(text, s)
  {
    var x := FindSection(m, s);
    var n := InsertFront(m, x, Entry(k, v));
    assert n[x].entries[0] == Entry(k, v);
    if !(CleanKey(k) && CleanValue(v)) {
      assert !CleanEntry(n[x].entries[0]) && !CleanSection(n[x]);
      UncleanNeverLoads(AddKeyText(text, s, k, v).value, n);
    } else if HeaderTerminated(text, s) {
      AddKeySquare(text, m, s, k, v);
    } else {
      AddKeyBehindUnterminatedHeader(text, m, s, k, v);
      FrontKeyIsThere(m, x, s, Entry(k, v));
    }
  }

  lemma FrontKeyIsThere(m: Ini, x: nat, s: string, e: Entry)
    requires x == FindSection(m, s)
    ensures HasKey(InsertFront(m, x, e), s, e.key)
  {
    SameNames(m, InsertFront(m, x, e), s);
  }

  lemma LastHeaderReplaced(events: seq<Event>, event: Event, s: string, k: string)
    requires events != [] && events[|events| - 1] == Head(s)
    requires Load([], events).Some? && (event.Head? || event.Bad?)
    ensures var n := Load([], events[|events| - 1 := event]);
            n.Some? ==> !HasKey(n.value, s, k)
  {
    var a := events[..|events| - 1];
    assert events == a + [Head(s)] + [];
    assert events[|events| - 1 := event] == a + [event] + [];
    LoadMiddle([], a, Head(s), []);
    LoadMiddle([], a, event, []);
    NoKeyBehindHeader(Load([], a).value, event, s, k);
  }

  lemma NoKeyBehindHeader(m: Ini, event: Event, s: string, k: string)
    requires Step(m, Head(s)).Some? && (event.Head? || event.Bad?)
    ensures Step(m, event).Some? ==> !HasKey(Step(m, event).value, s, k)
  {
    if event.Head? && Step(m, event).Some? {
      var n := Step(m, event).value;
      assert forall j | 0 <= j < |m| :: n[j] == m[j];
      assert n[|m|].entries == [];
    }
  }

  lemma GluedIsLine(l: string, t: string)
    requires Line(l) && !Terminated(l) && Line(t) && Terminated(t)
    ensures Line(l + t) && Terminated(l + t)
  {
    assert forall i | 0 <= i < |l| :: (l + t)[i] == l[i];
    assert forall i | 0 <= i < |t| :: (l + t)[|l| + i] == t[i];
  }

  // ---------- add a section ----------

  lemma HeaderReads(s: string)
    requires CleanName(s)
    ensures var l := "[" + s + "]\n"; Read(l) == Head(s) && Line(l) && Terminated(l)
  {
    NameRoundTrip(s, "\n");
    assert "[" + s + "]\n" == "[" + s + "]" + "\n";
    HeaderIsLine(s);
  }

  lemma HeaderInFront(text: string, l: string)
    requires ShortLine(l) && Terminated(l) && WfLines(SplitLines(text))
    ensures WfLines(SplitLines(l + "\n" + text))
  {
    JoinSplit(text);
    JoinMiddle([], l, "\n", SplitLines(text));
    assert Join([]) + (l + "\n") + text == l + "\n" + text;
  }

  lemma CleanSectionLoads(text: string, m: Ini, s: string)
    requires Loads(text, m) && NameFree(m, s) && |s| + 3 <= FGETS_LIMIT && CleanName(s)
    ensures Loads(AddSectionText(text, s), [Section(s, [])] + m)
  {
    var l := "[" + s + "]\n";
    HeaderReads(s);
    assert AddSectionText(text, s) == l + "\n" + text;
    HeaderInFront(text, l);
    HeaderLoads(text, m, s, l);
  }

  lemma HeaderLoads(text: string, m: Ini, s: string, l: string)
    requires Loads(text, m) && NameFree(m, s) && ShortLine(l) && Terminated(l) && Read(l) == Head(s)
    ensures LoadText([], l + "\n" + text) == Some([Section(s, [])] + m)
  {
    LoadTwoLines([], l, "\n", text);
    LoadPrepend(Section(s, []), [], ReadAll(SplitLines(text)));
    assert [Section(s, [])] + [] == [] + [Section(s, [])];
  }

  /** A new section is read back, in front of the old ones, exactly when its name is clean. */
  lemma AddSectionSquare(text: string, m: Ini, s: string)
    requires Loads(text, m) && NameFree(m, s) && |s| + 3 <= FGETS_LIMIT
    ensures Loads(AddSectionText(text, s), [Section(s, [])] + m) <==> CleanName(s)
  {
    if CleanName(s) {
      CleanSectionLoads(text, m, s);
    } else {
      var n := [Section(s, [])] + m;
      assert !CleanSection(n[0]);
      UncleanNeverLoads(AddSectionText(text, s), n);
    }
  }

  lemma HeaderIsLine(s: string)
    requires Free(s, '\n')
    ensures Line("[" + s + "]\n") && Terminated("[" + s + "]\n")
  {
    var l := "[" + s + "]\n";
    assert forall i | 1 <= i < |s| + 1 :: l[i] == s[i - 1];
  }

  // ---------- delete a section ----------

  lemma {:induction false} DeleteKeepsWf(lines: seq<string>, flag: nat, s: string, key: Option<string>)
    requires WfLines(lines) && DeleteLines(lines, flag, s, key).Some?
    ensures WfLines(DeleteLines(lines, flag, s, key).value)
    ensures lines == [] ==> DeleteLines(lines, flag, s, key).value == []
    decreases |lines|
  {
    if lines != [] {
      var action := DeleteAction(lines[0], flag, s, key);
      WfSlices(lines, 1);
      DeleteKeepsWf(lines[1..], action.flag, s, key);
      var rest := DeleteLines(lines[1..], action.flag, s, key).value;
      if action.Keep? {
        WfCons(lines[0], rest);
      }
    }
  }

  lemma WfCons(l: string, rest: seq<string>)
    requires ShortLine(l) && WfLines(rest) && (rest != [] ==> Terminated(l))
    ensures WfLines([l] + rest)
  {
    var all := [l] + rest;
    assert forall i | 1 <= i < |all| :: all[i] == rest[i - 1];
  }

  lemma {:induction false} CopyingKeepsAll(lines: seq<string>, s: string, key: Option<string>)
    ensures DeleteLines(lines, 3, s, key) == Some(lines)
    decreases |lines|
  {
    if lines != [] {
      CopyingKeepsAll(lines[1..], s, key);
      assert lines == [lines[0]] + lines[1..];
    }
  }

  lemma ReadAllCons(l: string, rest: seq<string>)
    ensures ReadAll([l] + rest) == [Read(l)] + ReadAll(rest)
  {
    ReadAllAppend([l], rest);
    assert ReadAll([l]) == [Read(l)];
  }

  lemma ReadAllFirst(lines: seq<string>)
    requires lines != []
    ensures ReadAll(lines) != [] && ReadAll(lines)[0] == Read(lines[0]) && ReadAll(lines)[1..] == ReadAll(lines[1..])
  {
  }

  lemma DropAction(line: string, s: string)
    requires Read(line) != Bad
    ensures DeleteAction(line, 1, s, None) ==
            if Read(line).Head? then Keep(3) else if Read(line).Pair? then Drop(1) else Keep(1)
  {
  }

  lemma {:induction false} DroppingDropsPairs(lines: seq<string>, s: string)
    requires Readable(lines)
    ensures DeleteLines(lines, 1, s, None).Some?
    ensures ReadAll(DeleteLines(lines, 1, s, None).value) == DropPairs(ReadAll(lines))
    decreases |lines|
  {
    if lines != [] {
      ReadAllFirst(lines);
      DropAction(lines[0], s);
      if Read(lines[0]).Head? {
        CopyingKeepsAll(lines[1..], s, None);
        assert lines == [lines[0]] + lines[1..];
      } else {
        DroppingDropsPairs(lines[1..], s);
        ReadAllCons(lines[0], DeleteLines(lines[1..], 1, s, None).value);
      }
    }
  }

  lemma HeadAction(line: string, s: string, key: Option<string>)
    requires Read(line).Head? && Free(s, ']')
    ensures DeleteAction(line, 0, s, key) == if Read(line) == Head(s) then Drop(if key.Some? then 2 else 1) else Keep(0)
  {
    HeaderEvent(line, s);
  }

  lemma OtherAction(line: string, s: string, key: Option<string>)
    requires Read(line) != Bad && !Read(line).Head?
    ensures DeleteAction(line, 0, s, key) == Keep(0)
  {
  }

  lemma {:induction false} DeletingDeletes(lines: seq<string>, s: string)
    requires Readable(lines) && Free(s, ']')
    ensures DeleteLines(lines, 0, s, None).Some?
    ensures ReadAll(DeleteLines(lines, 0, s, None).value) == DeleteSectionEvents(ReadAll(lines), s)
    decreases |lines|
  {
    if lines != [] {
      var line := lines[0];
      ReadAllFirst(lines);
      if Read(line).Head? {
        HeadAction(line, s, None);
      } else {
        OtherAction(line, s, None);
      }
      if Read(line) == Head(s) {
        DroppingDropsPairs(lines[1..], s);
      } else {
        DeletingDeletes(lines[1..], s);
        ReadAllCons(line, DeleteLines(lines[1..], 0, s, None).value);
      }
    }
  }

  /** Deleting a section loads to the old sections without it, whatever the file looks like. */
  lemma DeleteSectionSquare(text: string, m: Ini, s: string)
    requires Loads(text, m) && HasSection(m, s)
    ensures DeleteText(text, s, None).Some?
    ensures Loads(DeleteText(text, s, None).value, RemoveAt(m, FindSection(m, s)))
  {
    var lines := SplitLines(text);
    HeaderFound(text, m, s);
    DeletingDeletes(lines, s);
    DeleteKeepsWf(lines, 0, s, None);
    DeleteEvents([], ReadAll(lines), s);
    SplitJoin(DeleteLines(lines, 0, s, None).value);
  }

  // ---------- delete a key ----------

  lemma {:induction false} KeptLinesAreOld(lines: seq<string>, flag: nat, s: string, key: Option<string>)
    requires DeleteLines(lines, flag, s, key).Some?
    ensures forall l | l in DeleteLines(lines, flag, s, key).value :: l in lines
    decreases |lines|
  {
    if lines != [] {
      KeptLinesAreOld(lines[1..], DeleteAction(lines[0], flag, s, key).flag, s, key);
    }
  }

  lemma NothingBehindIsHeader(m: Ini, line: string, rest: seq<string>, flag: nat, s: string, key: Option<string>)
    requires NameFree(m, s) && Load(m + [Section(s, [])], ReadAll(rest)).Some?
    requires DeleteLines(rest, flag, s, key).Some?
    ensures forall l | l in DeleteLines(rest, flag, s, key).value :: Read(l) != Head(s)
  {
    var m1 := m + [Section(s, [])];
    KeptLinesAreOld(rest, flag, s, key);
    assert m1[|m|].name == s;
    NoSecondHead(m1, ReadAll(rest), s);
    assert forall j | 0 <= j < |rest| :: Read(rest[j]) == ReadAll(rest)[j];
  }

  lemma LoadFirst(m: Ini, events: seq<Event>, s: string)
    requires events != [] && Load(m, events).Some? && NameFree(m, s)
    ensures events[0] != Bad && Step(m, events[0]).Some? && Load(Step(m, events[0]).value, events[1..]).Some?
    ensures if events[0] == Head(s) then Step(m, events[0]).value == m + [Section(s, [])]
            else NameFree(Step(m, events[0]).value, s)
  {
  }

  lemma {:induction false} HeaderIsDropped(m: Ini, lines: seq<string>, s: string, k: string)
    requires Load(m, ReadAll(lines)).Some? && NameFree(m, s) && Free(s, ']')
    requires DeleteLines(lines, 0, s, Some(k)).Some?
    ensures forall l | l in DeleteLines(lines, 0, s, Some(k)).value :: Read(l) != Head(s)
    decreases |lines|
  {
    if lines != [] {
      ReadAllFirst(lines);
      LoadFirst(m, ReadAll(lines), s);
      if Read(lines[0]).Head? {
        HeadAction(lines[0], s, Some(k));
      } else {
        OtherAction(lines[0], s, Some(k));
      }
      if Read(lines[0]) == Head(s) {
        NothingBehindIsHeader(m, lines[0], lines[1..], 2, s, Some(k));
      } else {
        HeaderIsDropped(Step(m, Read(lines[0])).value, lines[1..], s, k);
      }
    }
  }

  /** What the deletion of one key writes has no header of the section, so none is read again. */
  lemma WritesNoSection(text: string, m: Ini, s: string, k: string)
    requires Loads(text, m) && HasSection(m, s)
    requires DeleteText(text, s, Some(k)).Some?
    ensures var n := LoadText([], DeleteText(text, s, Some(k)).value);
            n.Some? ==> !HasSection(n.value, s)
  {
    var lines := SplitLines(text);
    HeaderFound(text, m, s);
    HeaderIsDropped([], lines, s, k);
    DeleteKeepsWf(lines, 0, s, Some(k));
    var kept := DeleteLines(lines, 0, s, Some(k)).value;
    SplitJoin(kept);
    NoHeaderNoSection(kept, s);
  }

  lemma NoHeaderNoSection(lines: seq<string>, s: string)
    requires forall l | l in lines :: Read(l) != Head(s)
    ensures var n := Load([], ReadAll(lines)); n.Some? ==> !HasSection(n.value, s)
  {
    var n := Load([], ReadAll(lines));
    if n.Some? {
      assert forall i | 0 <= i < |lines| :: ReadAll(lines)[i] == Read(lines[i]);
      NamesComeFromHeads([], ReadAll(lines), s);
    }
  }
}
