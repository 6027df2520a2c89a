/** The line-by-line rewrites of an INI file, and what re-reading the rewritten file yields. */
module IniRewrite {
  import opened Wrappers
  import opened IniText
  import opened IniModel
  import opened IniLoad
  import opened IniTarget

  const FORMAT_ERROR := -2

  // ---------- the tests on raw lines ----------

  /** The name of s and a ']' stand right behind the first '['. */
  predicate HeaderMatches(line: string, s: string) {
    HeaderCompared(line, s) && line[First(line, '[') + 1..][..|s|] == s
  }

  /** A ']' stands where the name of s would end, and memcmp is called. */
  predicate HeaderCompared(line: string, s: string) {
    var p := First(line, '[') + 1;
    0 < p && p + |s| < |line| && line[p + |s|] == ']'
  }

  /** The key and then a blank or '=' stand behind the leading blanks. */
  predicate KeyMatches(line: string, k: string) {
    KeyStands(line, SkipFrom(line, 0, |line|), k)
  }

  predicate KeyStands(line: string, p: nat, k: string) {
    p + |k| < |line| && (Blank(line[p + |k|]) || line[p + |k|] == '=') && line[p..p + |k|] == k
  }

  lemma HeaderEvent(line: string, s: string)
    requires Read(line).Head? && Free(s, ']')
    ensures HeaderMatches(line, s) <==> Read(line).name == s
  {
    var b, q := First(line, '['), First(line, ']');
    var name := line[b + 1..q];
    if HeaderMatches(line, s) {
      var e := b + 1 + |s|;
      assert line[b + 1..][..|s|] == line[b + 1..e];
      assert forall i | 0 <= i < |s| :: s[i] == line[b + 1..e][i] == line[b + 1 + i];
      assert q == e;
    }
  }

  lemma MatchedKey(line: string, p: nat, q: nat, e: nat, k: string)
    requires KeyPart(line, p, q, e) && CleanKey(k)
    requires KeyStands(line, p, k)
    ensures PrefixMatch(line[p..q], k)
  {
    var n := p + |k|;
    assert forall i | 0 <= i < |k| :: k[i] == line[p..n][i] == line[p + i];
    assert k[|k| - 1] == line[n - 1];
    assert n <= q;
    assert line[p..q][..|k|] == line[p..n];
  }

  lemma PrefixedKey(line: string, p: nat, q: nat, e: nat, k: string)
    requires KeyPart(line, p, q, e) && PrefixMatch(line[p..q], k)
    ensures KeyStands(line, p, k)
  {
    var key := line[p..q];
    assert line[p..p + |k|] == key[..|k|];
    assert key != k ==> key[|k|] == line[p + |k|];
  }

  lemma ReadsItsSpan(line: string)
    requires Read(line).Pair?
    ensures var p := SkipFrom(line, 0, |line|); p < |line| ==> line[p] != '\n'
    ensures var e := First(line, '=');
            0 < e && KeySpan(line, e).0 < KeySpan(line, e).1 && Read(line).key == line[KeySpan(line, e).0..KeySpan(line, e).1]
  {
  }

  lemma SpanIsKeyPart(line: string, e: nat)
    requires e == First(line, '=') && KeySpan(line, e).0 < KeySpan(line, e).1
    requires var p := SkipFrom(line, 0, |line|); p < |line| ==> line[p] != '\n'
    ensures KeyPart(line, KeySpan(line, e).0, KeySpan(line, e).1, e) && SkipFrom(line, 0, |line|) == KeySpan(line, e).0
  {
    assert SkipFrom(line, 0, |line|) == KeySpan(line, e).0;
  }

  lemma ReadKeyPart(line: string)
    requires Read(line).Pair?
    ensures var e := First(line, '=');
            && 0 < e
            && var (p, q) := KeySpan(line, e);
               KeyPart(line, p, q, e) && Read(line).key == line[p..q] && SkipFrom(line, 0, |line|) == p
  {
    ReadsItsSpan(line);
    SpanIsKeyPart(line, First(line, '='));
  }

  lemma KeyEvent(line: string, k: string)
    requires Read(line).Pair? && CleanKey(k)
    ensures KeyMatches(line, k) <==> PrefixMatch(Read(line).key, k)
  {
    ReadKeyPart(line);
    var e := First(line, '=');
    KeyEventAt(line, KeySpan(line, e).0, KeySpan(line, e).1, e, k);
  }

  lemma KeyEventAt(line: string, p: nat, q: nat, e: nat, k: string)
    requires KeyPart(line, p, q, e) && CleanKey(k)
    ensures KeyStands(line, p, k) <==> PrefixMatch(line[p..q], k)
  {
    if KeyStands(line, p, k) {
      MatchedKey(line, p, q, e, k);
    }
    if PrefixMatch(line[p..q], k) {
      PrefixedKey(line, p, q, e, k);
    }
  }

  // ---------- which line is rewritten ----------

  /** A line, no line, or an unreadable line met first (INIFILE_FORMAT_ERROR). */
  datatype Where = At(i: nat) | Nowhere | Broken

  function UpdateLine(lines: seq<string>, n: nat, flag: bool, s: string, k: string): (w: Where)
    requires n <= |lines|
    ensures w.At? ==> n <= w.i < |lines| && Kind(lines[w.i]) == KeyValueLine
    decreases |lines| - n
  {
    if n == |lines| then Nowhere
    else
      match Kind(lines[n])
      case SectionLine => UpdateLine(lines, n + 1, flag || HeaderMatches(lines[n], s), s, k)
      case KeyValueLine => if flag && KeyMatches(lines[n], k) then At(n) else UpdateLine(lines, n + 1, flag, s, k)
      case NoteLine => UpdateLine(lines, n + 1, flag, s, k)
      case BlankLine => UpdateLine(lines, n + 1, flag, s, k)
      case ErrorLine => Broken
  }

  function HeaderLine(lines: seq<string>, n: nat, s: string): (w: Where)
    requires n <= |lines|
    ensures w.At? ==> n <= w.i < |lines| && HeaderMatches(lines[w.i], s)
    decreases |lines| - n
  {
    if n == |lines| then Nowhere
    else if Kind(lines[n]) == ErrorLine then Broken
    else if Kind(lines[n]) == SectionLine && HeaderMatches(lines[n], s) then At(n)
    else HeaderLine(lines, n + 1, s)
  }

  // No line of the file is refused by the loader outright.
  predicate Readable(lines: seq<string>) {
    forall i | 0 <= i < |lines| :: Read(lines[i]) != Bad
  }

  lemma {:induction false} LoadHasNoBad(m: Ini, events: seq<Event>)
    requires Load(m, events).Some?
    ensures forall i | 0 <= i < |events| :: events[i] != Bad
    decreases |events|
  {
    if events != [] {
      LoadHasNoBad(Step(m, events[0]).value, events[1..]);
      assert forall i | 1 <= i < |events| :: events[i] == events[1..][i - 1];
    }
  }

  lemma LoadableIsReadable(m: Ini, lines: seq<string>)
    requires Load(m, ReadAll(lines)).Some?
    ensures Readable(lines)
  {
    LoadHasNoBad(m, ReadAll(lines));
    assert forall i | 0 <= i < |lines| :: ReadAll(lines)[i] == Read(lines[i]);
  }

  function Shift(i: int, n: nat): Where {
    if i < 0 then Nowhere else At(n + i)
  }

  lemma HeadTest(line: string, s: string)
    requires Read(line) != Bad && Free(s, ']') && Kind(line) == SectionLine
    ensures Read(line).Head? && (HeaderMatches(line, s) <==> Read(line) == Head(s))
  {
    HeaderEvent(line, s);
  }

  lemma PairTest(line: string, k: string)
    requires Read(line) != Bad && CleanKey(k) && Kind(line) == KeyValueLine
    ensures Read(line).Pair? && (KeyMatches(line, k) <==> PrefixMatch(Read(line).key, k))
  {
    KeyEvent(line, k);
  }

  lemma SkipTest(line: string)
    requires Read(line) != Bad && Kind(line) != SectionLine && Kind(line) != KeyValueLine
    ensures Kind(line) != ErrorLine && Read(line) == Skip
  {
  }

  lemma {:induction false} UpdateLineIsTarget(lines: seq<string>, n: nat, flag: bool, s: string, k: string)
    requires n <= |lines| && Readable(lines) && Free(s, ']') && CleanKey(k)
    ensures UpdateLine(lines, n, flag, s, k) == Shift(UpdateTarget(ReadAll(lines)[n..], flag, s, k), n)
    decreases |lines| - n
  {
    if n < |lines| {
      var line := lines[n];
      var events := ReadAll(lines)[n..];
      var event := events[0];
      assert event == Read(line) && events[1..] == ReadAll(lines)[n + 1..];
      match Kind(line) {
        case SectionLine => HeadTest(line, s);
        case KeyValueLine => PairTest(line, k);
        case _ => SkipTest(line);
      }
      var flag1 := flag || event == Head(s);
      UpdateLineIsTarget(lines, n + 1, flag1, s, k);
      UpdateTargetStep(events, flag, s, k);
      if event.Pair? && flag && PrefixMatch(event.key, k) {
        assert UpdateLine(lines, n, flag, s, k) == At(n);
      } else {
        assert UpdateLine(lines, n, flag, s, k) == UpdateLine(lines, n + 1, flag1, s, k);
      }
    }
  }

  lemma UpdateTargetStep(events: seq<Event>, flag: bool, s: string, k: string)
    requires events != []
    ensures UpdateTarget(events, flag, s, k) ==
            if events[0].Pair? && flag && PrefixMatch(events[0].key, k) then 0
            else
              var i := UpdateTarget(events[1..], flag || events[0] == Head(s), s, k);
              if i < 0 then -1 else i + 1
  {
  }

  lemma IsHeader(line: string, s: string)
    requires Read(line) != Bad && Free(s, ']')
    ensures Kind(line) != ErrorLine
    ensures Kind(line) == SectionLine && HeaderMatches(line, s) <==> Read(line) == Head(s)
  {
    if Read(line).Head? {
      HeaderEvent(line, s);
    } else if Kind(line) == SectionLine {
      HeadTest(line, s);
    }
  }

  lemma HeadTargetStep(events: seq<Event>, event: Event, rest: seq<Event>, s: string)
    requires events == [event] + rest
    ensures HeadTarget(events, s) ==
            if event == Head(s) then 0
            else if HeadTarget(rest, s) < 0 then -1 else HeadTarget(rest, s) + 1
  {
    assert events[1..] == rest;
  }

  lemma HeaderLineStep(lines: seq<string>, n: nat, s: string)
    requires n < |lines| && Readable(lines) && Free(s, ']')
    ensures HeaderLine(lines, n, s) == if Read(lines[n]) == Head(s) then At(n) else HeaderLine(lines, n + 1, s)
  {
    IsHeader(lines[n], s);
  }

  lemma ReadFrom(lines: seq<string>, n: nat)
    requires n < |lines|
    ensures ReadAll(lines)[n..] == [Read(lines[n])] + ReadAll(lines)[n + 1..]
  {
  }

  lemma {:induction false} HeaderLineIsTarget(lines: seq<string>, n: nat, s: string)
    requires n <= |lines| && Readable(lines) && Free(s, ']')
    ensures HeaderLine(lines, n, s) == Shift(HeadTarget(ReadAll(lines)[n..], s), n)
    decreases |lines| - n
  {
    if n < |lines| {
      ReadFrom(lines, n);
      HeaderLineStep(lines, n, s);
      HeadTargetStep(ReadAll(lines)[n..], Read(lines[n]), ReadAll(lines)[n + 1..], s);
      HeaderLineIsTarget(lines, n + 1, s);
    }
  }

  // ---------- the rewritten texts ----------

  /** The buffer written for the target line of an update; a trailing comment gains a newline of its own. */
  function Replaced(line: string, v: string): string
    requires Kind(line) == KeyValueLine
  {
    var r := SkipFrom(line, First(line, '=') + 1, |line|);
    line[..r] + v + Commented(line[r..])
  }

  /** What follows the new value: the comment, if the old one had one behind it. */
  function Commented(rest: string): string {
    var c := First(rest, ';');
    (if c < 0 then "" else "\t" + rest[c..]) + "\n"
  }

  function UpdateText(text: string, s: string, k: string, v: string): Option<string> {
    var lines := SplitLines(text);
    match UpdateLine(lines, 0, false, s, k)
    case Broken => None
    case Nowhere => Some(text)
    case At(i) => Some(Join(lines[..i]) + Replaced(lines[i], v) + Join(lines[i + 1..]))
  }

  function AddKeyText(text: string, s: string, k: string, v: string): Option<string> {
    var lines := SplitLines(text);
    match HeaderLine(lines, 0, s)
    case Broken => None
    case Nowhere => Some(text)
    case At(i) => Some(Join(lines[..i]) + (lines[i] + KeyValueText(k, v)) + Join(lines[i + 1..]))
  }

  function AddSectionText(text: string, s: string): string {
    "[" + s + "]\n\n" + text
  }

  /** What becomes of one line, and the state behind it. */
  datatype Action = Keep(flag: nat) | Drop(flag: nat) | Refuse

  /** flag: 0 seeking the header, 1 dropping a section, 2 seeking a key of it, 3 copying. */
  function DeleteAction(line: string, flag: nat, s: string, key: Option<string>): Action {
    if flag == 3 then Keep(3)
    else
      match Kind(line)
      case SectionLine =>
        if flag != 0 then Keep(3)
        else if HeaderMatches(line, s) then Drop(if key.Some? then 2 else 1)
        else Keep(0)
      case KeyValueLine =>
        if flag == 1 then Drop(1)
        else if flag == 2 && key.Some? && KeyMatches(line, key.value) then Drop(3)
        else Keep(flag)
      case NoteLine => Keep(flag)
      case BlankLine => Keep(flag)
      case ErrorLine => Refuse
  }

  function DeleteLines(lines: seq<string>, flag: nat, s: string, key: Option<string>): Option<seq<string>>
    decreases |lines|
  {
    if lines == [] then Some([])
    else
      match DeleteAction(lines[0], flag, s, key)
      case Keep(next) => Cons(lines[0], DeleteLines(lines[1..], next, s, key))
      case Drop(next) => DeleteLines(lines[1..], next, s, key)
      case Refuse => None
  }

  function Cons(line: string, rest: Option<seq<string>>): Option<seq<string>> {
    match rest case None => None case Some(r) => Some([line] + r)
  }

  /** What is written, or None at an unreadable line. */
  function DeleteText(text: string, s: string, key: Option<string>): Option<string> {
    match DeleteLines(SplitLines(text), 0, s, key)
    case None => None
    case Some(lines) => Some(Join(lines))
  }

  /** memcmp of a with the bytes b, which end in a NUL: its sign. */
  function Compare(a: string, b: string): (c: int)
    ensures -1 <= c <= 1 && (c == 0 <==> a <= b)
  {
    if a == [] then 0
    else if b == [] || b[0] < a[0] then 1
    else if a[0] < b[0] then -1
    else
      assert a <= b <==> a[1..] <= b[1..];
      Compare(a[1..], b[1..])
  }

  /** At the first byte in which they differ, a has the smaller one. */
  predicate Less(a: string, b: string) {
    exists d :: 0 <= d < |a| && LessAt(a, b, d)
  }

  predicate LessAt(a: string, b: string, d: nat)
    requires d < |a|
  {
    d < |b| && a[d] < b[d] && forall i | 0 <= i < d :: a[i] == b[i]
  }

  lemma {:induction false} CompareIsLess(a: string, b: string)
    ensures Compare(a, b) < 0 <==> Less(a, b)
  {
    if a != [] && b != [] {
      if a[0] < b[0] {
        assert LessAt(a, b, 0);
      } else if a[0] == b[0] {
        CompareIsLess(a[1..], b[1..]);
        if d :| 0 <= d < |a| && LessAt(a, b, d) {
          assert LessAt(a[1..], b[1..], d - 1);
        }
        if d :| 0 <= d < |a| - 1 && LessAt(a[1..], b[1..], d) {
          assert forall i | 1 <= i <= d :: a[i] == a[1..][i - 1] == b[1..][i - 1] == b[i];
          assert LessAt(a, b, d + 1);
        }
      }
    }
  }

  // The byte at a position of the line buffer: behind the line it is what a dropped line in front of it left there.
  function ByteAt(line: string, stale: string, at: nat): char {
    if at < |line| then line[at] else if |line| < at < |stale| then stale[at] else '\0'
  }

  /** A blank or '=' stands where the key would end, and memcmp is called. */
  predicate KeyCompared(line: string, stale: string, k: string) {
    var c := ByteAt(line, stale, SkipFrom(line, 0, |line|) + |k|);
    Blank(c) || c == '='
  }

  /** The variable ret of rewrite_after_delete behind a line: the last memcmp, which nothing clears. */
  function NextCompare(line: string, stale: string, flag: nat, s: string, key: Option<string>, ret: int): int {
    if flag == 3 then ret
    else
      match Kind(line)
      case SectionLine =>
        if flag == 0 && HeaderCompared(line, s) then Compare(s, line[First(line, '[') + 1..]) else ret
      case KeyValueLine =>
        if flag == 2 && key.Some? && KeyCompared(line, stale, key.value)
        then Compare(key.value, line[SkipFrom(line, 0, |line|)..])
        else ret
      case ErrorLine => FORMAT_ERROR
      case _ => ret
  }

  /** ret at the end of the loop. Only a dropped line is not cleared from the buffer. */
  function LastCompare(lines: seq<string>, stale: string, flag: nat, s: string, key: Option<string>, ret: int): int
    decreases |lines|
  {
    if lines == [] then ret
    else
      var next := NextCompare(lines[0], stale, flag, s, key, ret);
      match DeleteAction(lines[0], flag, s, key)
      case Keep(f) => LastCompare(lines[1..], "", f, s, key, next)
      case Drop(f) => LastCompare(lines[1..], lines[0], f, s, key, next)
      case Refuse => next
  }

  /** What rewrite_after_delete returns; below zero what it has written is thrown away. */
  function DeleteCode(text: string, s: string, key: Option<string>): int {
    LastCompare(SplitLines(text), "", 0, s, key, 0)
  }

  lemma {:induction false} RefusedExactly(lines: seq<string>, stale: string, flag: nat, s: string, key: Option<string>, ret: int)
    requires -1 <= ret <= 1
    ensures DeleteLines(lines, flag, s, key) == None <==> LastCompare(lines, stale, flag, s, key, ret) == FORMAT_ERROR
    ensures DeleteLines(lines, flag, s, key).Some? ==> -1 <= LastCompare(lines, stale, flag, s, key, ret) <= 1
    decreases |lines|
  {
    if lines != [] {
      var next := NextCompare(lines[0], stale, flag, s, key, ret);
      match DeleteAction(lines[0], flag, s, key)
      case Keep(f) => RefusedExactly(lines[1..], "", f, s, key, next);
      case Drop(f) => RefusedExactly(lines[1..], lines[0], f, s, key, next);
      case Refuse =>
    }
  }

  // ---------- the rewriting loops ----------

  method ReplaceValue(line: string, v: string) returns (r: string)
    requires Kind(line) == KeyValueLine
    ensures r == Replaced(line, v)
  {
    var value := StrFirstConstChar(line, '=');
    value := SkipBlanks(line, value + 1, |line|);
    var rest := line[value..];
    var comma := StrFirstConstChar(rest, ';');
    r := line[..value] + v + ((if comma < 0 then "" else "\t" + rest[comma..]) + "\n");
  }

  lemma JoinPush(lines: seq<string>, a: nat, b: nat)
    requires a <= b < |lines|
    ensures Join(lines[a..b + 1]) == Join(lines[a..b]) + lines[b]
    ensures a == 0 ==> Join(lines[..b + 1]) == Join(lines[..b]) + lines[b]
  {
    assert a == 0 ==> lines[..b] == lines[a..b] && lines[..b + 1] == lines[a..b + 1];
    assert lines[a..b + 1] == lines[a..b] + [lines[b]];
    JoinAppend(lines[a..b], [lines[b]]);
    assert Join([lines[b]]) == lines[b] + "" == lines[b];
  }

  /** What the update loop makes of a line before it has found its target. */
  datatype Met = Past(flag: bool) | Target | Unreadable

  function Meets(line: string, flag: bool, s: string, k: string): Met {
    match Kind(line)
    case SectionLine => Past(flag || HeaderMatches(line, s))
    case KeyValueLine => if flag && KeyMatches(line, k) then Target else Past(flag)
    case NoteLine => Past(flag)
    case BlankLine => Past(flag)
    case ErrorLine => Unreadable
  }

  lemma MeetsIsUpdateLine(lines: seq<string>, n: nat, flag: bool, s: string, k: string)
    requires n < |lines|
    ensures UpdateLine(lines, n, flag, s, k) ==
            match Meets(lines[n], flag, s, k)
            case Past(f) => UpdateLine(lines, n + 1, f, s, k)
            case Target => At(n)
            case Unreadable => Broken
    ensures Meets(lines[n], flag, s, k) == Target ==> Kind(lines[n]) == KeyValueLine
  {
  }

  method Meet(line: string, flag: bool, s: string, k: string) returns (met: Met)
    ensures met == Meets(line, flag, s, k)
  {
    var kind := JudgeLineKind(line);
    match kind
    case SectionLine => met := Past(if HeaderMatches(line, s) then true else flag);
    case KeyValueLine => met := if flag && KeyMatches(line, k) then Target else Past(flag);
    case NoteLine => met := Past(flag);
    case BlankLine => met := Past(flag);
    case ErrorLine => met := Unreadable;
  }

  lemma UpdateTextIs(text: string, lines: seq<string>, place: Where, s: string, k: string, v: string)
    requires lines == SplitLines(text) && place == UpdateLine(lines, 0, false, s, k)
    ensures UpdateText(text, s, k, v) ==
            match place
            case Broken => None
            case Nowhere => Some(Join(lines))
            case At(i) => Some(Join(lines[..i]) + Replaced(lines[i], v) + Join(lines[i + 1..]))
  {
    JoinSplit(text);
  }

  method RewriteAfterUpdate(text: string, s: string, k: string, v: string) returns (out: Option<string>)
    ensures out == UpdateText(text, s, k, v)
  {
    var lines := SplitLines(text);
    var flag := false;
    var written := "";
    var i := 0;
    ghost var place := UpdateLine(lines, 0, false, s, k);
    UpdateTextIs(text, lines, place, s, k, v);
    while i < |lines|
      invariant 0 <= i <= |lines|
      invariant place == UpdateLine(lines, i, flag, s, k)
      invariant written == Join(lines[..i])
    {
      var line := lines[i];
      var met := Meet(line, flag, s, k);
      MeetsIsUpdateLine(lines, i, flag, s, k);
      match met {
        case Past(f) =>
          flag := f;
        case Target =>
          var value := ReplaceValue(line, v);
          var rest := CopyLines(lines, i + 1);
          return Some(written + value + rest);
        case Unreadable =>
          return None;
      }
      JoinPush(lines, 0, i);
      written := written + line;
      i := i + 1;
    }
    assert lines[..|lines|] == lines;
    return Some(written);
  }

  method CopyLines(lines: seq<string>, n: nat) returns (out: string)
    requires n <= |lines|
    ensures out == Join(lines[n..])
  {
    out := "";
    var i := n;
    assert Join(lines[n..n]) == "";
    while i < |lines|
      invariant n <= i <= |lines|
      invariant out == Join(lines[n..i])
    {
      JoinPush(lines, n, i);
      out := out + lines[i];
      i := i + 1;
    }
    assert lines[n..|lines|] == lines[n..];
  }

  function MeetsHeader(line: string, s: string): Met {
    if Kind(line) == ErrorLine then Unreadable
    else if Kind(line) == SectionLine && HeaderMatches(line, s) then Target
    else Past(false)
  }

  lemma MetHeaderIsHeaderLine(lines: seq<string>, n: nat, s: string)
    requires n < |lines|
    ensures HeaderLine(lines, n, s) ==
            match MeetsHeader(lines[n], s)
            case Past(_) => HeaderLine(lines, n + 1, s)
            case Target => At(n)
            case Unreadable => Broken
  {
  }

  method MeetHeader(line: string, s: string) returns (met: Met)
    ensures met == MeetsHeader(line, s)
  {
    var kind := JudgeLineKind(line);
    if kind == ErrorLine {
      return Unreadable;
    }
    met := if kind == SectionLine && HeaderMatches(line, s) then Target else Past(false);
  }

  method RewriteAfterAdd(text: string, s: string, pair: Option<(string, string)>) returns (out: Option<string>)
    ensures out == match pair case None => Some(AddSectionText(text, s)) case Some(kv) => AddKeyText(text, s, kv.0, kv.1)
  {
    if pair == None {
      var lines := SplitLines(text);
      JoinSplit(text);
      var rest := CopyLines(lines, 0);
      return Some("[" + s + "]\n\n" + rest);
    }
    out := InsertKey(text, s, pair.value.0, pair.value.1);
  }

  lemma AddKeyTextIs(text: string, lines: seq<string>, place: Where, s: string, k: string, v: string)
    requires lines == SplitLines(text) && place == HeaderLine(lines, 0, s)
    ensures AddKeyText(text, s, k, v) ==
            match place
            case Broken => None
            case Nowhere => Some(Join(lines))
            case At(i) => Some(Join(lines[..i]) + (lines[i] + KeyValueText(k, v)) + Join(lines[i + 1..]))
  {
    JoinSplit(text);
  }

  // Its loop for a key.
  method InsertKey(text: string, s: string, k: string, v: string) returns (out: Option<string>)
    ensures out == AddKeyText(text, s, k, v)
  {
    var lines := SplitLines(text);
    ghost var place := HeaderLine(lines, 0, s);
    AddKeyTextIs(text, lines, place, s, k, v);
    var written := "";
    var i := 0;
    while i < |lines|
      invariant 0 <= i <= |lines|
      invariant place == HeaderLine(lines, i, s)
      invariant written == Join(lines[..i])
    {
      var line := lines[i];
      var met := MeetHeader(line, s);
      MetHeaderIsHeaderLine(lines, i, s);
      if met == Unreadable {
        return None;
      } else if met == Target {
        var rest := CopyLines(lines, i + 1);
        return Some(written + (line + KeyValueText(k, v)) + rest);
      }
      JoinPush(lines, 0, i);
      written := written + line;
      i := i + 1;
    }
    assert lines[..|lines|] == lines;
    return Some(written);
  }

  /** rewrite_after_delete: the flag machine, and the variable ret that decides whether the new file replaces the old. */
  method RewriteAfterDelete(text: string, s: string, key: Option<string>) returns (out: Option<string>, ret: int)
    ensures ret == DeleteCode(text, s, key)
    ensures out == if ret < 0 then None else DeleteText(text, s, key)
    ensures FORMAT_ERROR <= ret <= 1 && (0 <= ret ==> out.Some?)
  {
    var lines := SplitLines(text);
    RefusedExactly(lines, "", 0, s, key, 0);
    out, ret := DeleteLoop(lines, s, key);
    if ret < 0 {
      out := None;
    }
  }

  method DeleteLoop(lines: seq<string>, s: string, key: Option<string>) returns (out: Option<string>, ret: int)
    ensures ret == LastCompare(lines, "", 0, s, key, 0)
    ensures out == match DeleteLines(lines, 0, s, key) case None => None case Some(kept) => Some(Join(kept))
  {
    var flag: nat := 0;
    var stale, written := "", "";
    ghost var kept: seq<string> := [];
    var i := 0;
    ret := 0;
    assert lines[0..] == lines;
    PrependNothing(DeleteLines(lines, 0, s, key));
    while i < |lines|
      invariant 0 <= i <= |lines|
      invariant written == Join(kept)
      invariant DeleteLines(lines, 0, s, key) == Prepend(kept, DeleteLines(lines[i..], flag, s, key))
      invariant LastCompare(lines, "", 0, s, key, 0) == LastCompare(lines[i..], stale, flag, s, key, ret)
    {
      var line := lines[i];
      assert lines[i..][1..] == lines[i + 1..] && lines[i..][0] == line;
      ret := CompareOn(line, stale, flag, s, key, ret);
      var action := ActOn(line, flag, s, key);
      match action {
      case Keep(next) =>
        PrependCons(kept, line, DeleteLines(lines[i + 1..], next, s, key));
        JoinAppend(kept, [line]);
        assert Join([line]) == line + "" == line;
        kept := kept + [line];
        written := written + line;
        stale, flag := "", next;
      case Drop(next) =>
        stale, flag := line, next;
      case Refuse =>
        return None, ret;
      }
      i := i + 1;
    }
    assert kept + [] == kept;
    return Some(written), ret;
  }

  method CompareOn(line: string, stale: string, flag: nat, s: string, key: Option<string>, before: int) returns (ret: int)
    ensures ret == NextCompare(line, stale, flag, s, key, before)
  {
    ret := before;
    if flag == 3 {
      return;
    }
    var kind := JudgeLineKind(line);
    match kind
    case SectionLine =>
      if flag == 0 && HeaderCompared(line, s) {
        var b := StrFirstConstChar(line, '[');
        ret := Compare(s, line[b + 1..]);
      }
    case KeyValueLine =>
      if flag == 2 && key.Some? && KeyCompared(line, stale, key.value) {
        var p := SkipBlanks(line, 0, |line|);
        ret := Compare(key.value, line[p..]);
      }
    case ErrorLine => ret := FORMAT_ERROR;
    case _ =>
  }

  method ActOn(line: string, flag: nat, s: string, key: Option<string>) returns (a: Action)
    ensures a == DeleteAction(line, flag, s, key)
  {
    if flag == 3 {
      return Keep(3);
    }
    var kind := JudgeLineKind(line);
    match kind
    case SectionLine =>
      if flag != 0 {
        return Keep(3);
      } else if HeaderMatches(line, s) {
        return Drop(if key.Some? then 2 else 1);
      }
      return Keep(0);
    case KeyValueLine =>
      if flag == 1 {
        return Drop(1);
      } else if flag == 2 && key.Some? && KeyMatches(line, key.value) {
        return Drop(3);
      }
      return Keep(flag);
    case NoteLine => return Keep(flag);
    case BlankLine => return Keep(flag);
    case ErrorLine => return Refuse;
  }

  function Prepend(kept: seq<string>, rest: Option<seq<string>>): Option<seq<string>> {
    match rest case None => None case Some(r) => Some(kept + r)
  }

  lemma PrependNothing(rest: Option<seq<string>>)
    ensures Prepend([], rest) == rest
  {
    if rest.Some? {
      assert [] + rest.value == rest.value;
    }
  }

  lemma PrependCons(kept: seq<string>, line: string, rest: Option<seq<string>>)
    ensures Prepend(kept, Cons(line, rest)) == Prepend(kept + [line], rest)
  {
    if rest.Some? {
      assert kept + ([line] + rest.value) == kept + [line] + rest.value;
    }
  }
}
