/** rewrite_after_delete read again: its return code, and what a key left in the parameter makes of a section's deletion. */
module IniDelete {
  import opened Wrappers
  import opened IniText
  import opened IniModel
  import opened IniLoad
  import opened IniEdit
  import opened IniTarget
  import opened IniRewrite
  import opened IniSquare

  // ---------- the return code ----------

  lemma {:induction false} SettledCode(lines: seq<string>, stale: string, flag: nat, s: string, key: Option<string>, ret: int)
    requires Readable(lines) && (flag == 1 || flag == 3)
    ensures LastCompare(lines, stale, flag, s, key, ret) == ret
    decreases |lines|
  {
    if lines != [] {
      match DeleteAction(lines[0], flag, s, key)
      case Keep(f) => SettledCode(lines[1..], "", f, s, key, ret);
      case Drop(f) => SettledCode(lines[1..], lines[0], f, s, key, ret);
    }
  }

  lemma HeaderCode(line: string, stale: string, s: string, key: Option<string>, ret: int)
    requires HeaderMatches(line, s) && Kind(line) == SectionLine
    ensures NextCompare(line, stale, 0, s, key, ret) == 0
  {
    assert s <= line[First(line, '[') + 1..];
  }

  lemma MatchCode(line: string, stale: string, s: string, k: string, ret: int)
    requires KeyMatches(line, k) && Kind(line) == KeyValueLine
    ensures NextCompare(line, stale, 2, s, Some(k), ret) == 0
  {
    var p := SkipFrom(line, 0, |line|);
    assert line[p..][..|k|] == line[p..p + |k|];
    assert k <= line[p..];
  }

  lemma {:induction false} SectionCode(m: Ini, lines: seq<string>, s: string, ret: int)
    requires Load(m, ReadAll(lines)).Some? && NameFree(m, s) && 0 <= FindSection(Load(m, ReadAll(lines)).value, s)
    requires Free(s, ']') && Readable(lines)
    ensures LastCompare(lines, "", 0, s, None, ret) == 0
    decreases |lines|
  {
    var line := lines[0];
    ReadAllFirst(lines);
    LoadFirst(m, ReadAll(lines), s);
    SeekingAction(line, s, None);
    if Read(line) == Head(s) {
      HeaderCode(line, "", s, None, ret);
      SettledCode(lines[1..], line, 1, s, None, 0);
    } else {
      SectionCode(Step(m, Read(line)).value, lines[1..], s, NextCompare(line, "", 0, s, None, ret));
    }
  }

  lemma SeekingAction(line: string, s: string, key: Option<string>)
    requires Read(line) != Bad && Free(s, ']')
    ensures Read(line) == Head(s) ==> Kind(line) == SectionLine && HeaderMatches(line, s)
    ensures DeleteAction(line, 0, s, key) == if Read(line) == Head(s) then Drop(if key.Some? then 2 else 1) else Keep(0)
  {
    if Read(line).Head? {
      HeadAction(line, s, key);
      HeaderEvent(line, s);
    } else {
      OtherAction(line, s, key);
    }
  }

  /** Deleting a section of the file returns 0. */
  lemma DeleteSectionCode(text: string, m: Ini, s: string)
    requires Loads(text, m) && HasSection(m, s)
    ensures DeleteCode(text, s, None) == 0
  {
    HeaderFound(text, m, s);
    SectionCode([], SplitLines(text), s, 0);
  }

  // ---------- a key left in the parameter ----------

  /** Up to the next header there is no pair but one that is the key's, and is dropped. */
  predicate NoneLeft(lines: seq<string>, k: string, dropped: bool)
    decreases |lines|
  {
    || lines == []
    || Kind(lines[0]) == SectionLine
    || (if Kind(lines[0]) == KeyValueLine then !dropped && KeyMatches(lines[0], k) && NoneLeft(lines[1..], k, true)
        else NoneLeft(lines[1..], k, dropped))
  }

  /** The same behind the first header of s. */
  predicate NoneLeftBehind(lines: seq<string>, s: string, k: string)
    decreases |lines|
  {
    || lines == []
    || (if Kind(lines[0]) == SectionLine && HeaderMatches(lines[0], s) then NoneLeft(lines[1..], k, false)
        else NoneLeftBehind(lines[1..], s, k))
  }

  lemma KindRead(line: string)
    requires Read(line) != Bad
    ensures Kind(line) == SectionLine <==> Read(line).Head?
    ensures Kind(line) == KeyValueLine <==> Read(line).Pair?
    ensures Kind(line) != ErrorLine
  {
  }

  lemma {:induction false} NoPairsToDrop(lines: seq<string>, k: string)
    requires Readable(lines)
    ensures NoneLeft(lines, k, true) ==> DropPairs(ReadAll(lines)) == ReadAll(lines)
    ensures !NoneLeft(lines, k, true) ==> PairFirst(ReadAll(lines))
    decreases |lines|
  {
    if lines != [] {
      ReadAllFirst(lines);
      KindRead(lines[0]);
      if !Read(lines[0]).Head? && !Read(lines[0]).Pair? {
        NoPairsToDrop(lines[1..], k);
        assert ReadAll(lines) == [Read(lines[0])] + ReadAll(lines)[1..];
      }
    }
  }

  lemma KeyAction(line: string, s: string, k: string)
    requires Read(line) != Bad
    ensures DeleteAction(line, 2, s, Some(k)) ==
            if Read(line).Head? then Keep(3)
            else if Read(line).Pair? && KeyMatches(line, k) then Drop(3)
            else Keep(2)
  {
    KindRead(line);
  }

  // The line the dropping ends with: the next header, or a pair, when none of the section's own is left.
  lemma NoneLeftEnds(line: string, rest: seq<string>, stale: string, s: string, k: string)
    requires var lines := [line] + rest; Readable(lines) && NoneLeft(lines, k, false)
    requires Read(line).Head? || Read(line).Pair?
    ensures var lines := [line] + rest;
            && DeleteLines(lines, 2, s, Some(k)).Some?
            && ReadAll(DeleteLines(lines, 2, s, Some(k)).value) == DropPairs(ReadAll(lines))
            && LastCompare(lines, stale, 2, s, Some(k), 0) == 0
  {
    ReadAllFirst([line] + rest);
    KindRead(line);
    KeyAction(line, s, k);
    CopyingKeepsAll(rest, s, Some(k));
    if Read(line).Head? {
      SettledCode(rest, "", 3, s, Some(k), 0);
    } else {
      NoPairsToDrop(rest, k);
      MatchCode(line, stale, s, k, 0);
      SettledCode(rest, line, 3, s, Some(k), 0);
    }
  }

  lemma NoneLeftBehindSkip(line: string, rest: seq<string>, k: string)
    requires Readable([line] + rest) && NoneLeft([line] + rest, k, false) && !Read(line).Head? && !Read(line).Pair?
    ensures Read(line) == Skip && Readable(rest) && NoneLeft(rest, k, false)
  {
    var lines := [line] + rest;
    assert lines[0] == line && lines[1..] == rest;
    KindRead(line);
  }

  // A blank line or a note is kept on the way.
  lemma NoneLeftGoesOn(line: string, rest: seq<string>, stale: string, s: string, k: string)
    requires Read(line) == Skip && DeleteLines(rest, 2, s, Some(k)).Some?
    requires ReadAll(DeleteLines(rest, 2, s, Some(k)).value) == DropPairs(ReadAll(rest))
    requires LastCompare(rest, "", 2, s, Some(k), 0) == 0
    ensures var lines := [line] + rest;
            && DeleteLines(lines, 2, s, Some(k)).Some?
            && ReadAll(DeleteLines(lines, 2, s, Some(k)).value) == DropPairs(ReadAll(lines))
            && LastCompare(lines, stale, 2, s, Some(k), 0) == 0
  {
    var lines := [line] + rest;
    assert lines[1..] == rest;
    ReadAllFirst(lines);
    KindRead(line);
    KeyAction(line, s, k);
    ReadAllCons(line, DeleteLines(rest, 2, s, Some(k)).value);
  }

  /** When none is left, the section's lines are dropped as by a deletion without a key. */
  lemma {:induction false} NoneLeftDrops(lines: seq<string>, stale: string, s: string, k: string)
    requires Readable(lines) && NoneLeft(lines, k, false)
    ensures DeleteLines(lines, 2, s, Some(k)).Some?
    ensures ReadAll(DeleteLines(lines, 2, s, Some(k)).value) == DropPairs(ReadAll(lines))
    ensures LastCompare(lines, stale, 2, s, Some(k), 0) == 0
    decreases |lines|
  {
    if lines != [] {
      var line, rest := lines[0], lines[1..];
      assert lines == [line] + rest;
      if Read(line).Head? || Read(line).Pair? {
        NoneLeftEnds(line, rest, stale, s, k);
      } else {
        NoneLeftBehindSkip(line, rest, k);
        NoneLeftDrops(rest, "", s, k);
        NoneLeftGoesOn(line, rest, stale, s, k);
      }
    }
  }

  /** Otherwise the first line kept that is not blank or a note is a pair. */
  lemma {:induction false} SomeLeftStays(lines: seq<string>, s: string, k: string)
    requires Readable(lines) && !NoneLeft(lines, k, false) && DeleteLines(lines, 2, s, Some(k)).Some?
    ensures PairFirst(ReadAll(DeleteLines(lines, 2, s, Some(k)).value))
    decreases |lines|
  {
    var line, rest := lines[0], lines[1..];
    ReadAllFirst(lines);
    KindRead(line);
    KeyAction(line, s, k);
    if Read(line).Pair? && KeyMatches(line, k) {
      CopyingKeepsAll(rest, s, Some(k));
      NoPairsToDrop(rest, k);
    } else {
      var kept := DeleteLines(rest, 2, s, Some(k)).value;
      ReadAllCons(line, kept);
      if !Read(line).Pair? {
        SomeLeftStays(rest, s, k);
        assert ([Read(line)] + ReadAll(kept))[1..] == ReadAll(kept);
      }
    }
  }

  lemma {:induction false} LeftKeyDrops(m: Ini, lines: seq<string>, s: string, k: string, ret: int)
    requires Load(m, ReadAll(lines)).Some? && NameFree(m, s) && 0 <= FindSection(Load(m, ReadAll(lines)).value, s)
    requires Free(s, ']') && Readable(lines) && NoneLeftBehind(lines, s, k)
    ensures DeleteLines(lines, 0, s, Some(k)).Some?
    ensures ReadAll(DeleteLines(lines, 0, s, Some(k)).value) == DeleteSectionEvents(ReadAll(lines), s)
    ensures LastCompare(lines, "", 0, s, Some(k), ret) == 0
    decreases |lines|
  {
    var line := lines[0];
    ReadAllFirst(lines);
    LoadFirst(m, ReadAll(lines), s);
    SeekingAction(line, s, Some(k));
    if Read(line) == Head(s) {
      HeaderCode(line, "", s, Some(k), ret);
      NoneLeftDrops(lines[1..], line, s, k);
    } else {
      NotTheHeader(line, s);
      LeftKeyDrops(Step(m, Read(line)).value, lines[1..], s, k, NextCompare(line, "", 0, s, Some(k), ret));
      ReadAllCons(line, DeleteLines(lines[1..], 0, s, Some(k)).value);
    }
  }

  lemma NotTheHeader(line: string, s: string)
    requires Read(line) != Bad && Read(line) != Head(s) && Free(s, ']')
    ensures !(Kind(line) == SectionLine && HeaderMatches(line, s))
  {
    if Kind(line) == SectionLine {
      HeadTest(line, s);
    }
  }

  /** Some section but s has a key in n that it does not have in m. */
  ghost predicate Spilled(m: Ini, n: Ini, s: string) {
    exists i: nat, key: string :: SpilledAt(m, n, s, i, key)
  }

  ghost predicate SpilledAt(m: Ini, n: Ini, s: string, i: nat, key: string) {
    && i < |m| && i < |n| && n[i].name == m[i].name != s
    && FindEntry(m[i].entries, key) < 0 <= FindEntry(n[i].entries, key)
  }

  /** A pair left behind ends up in the section in front, when the file loads at all. */
  lemma {:induction false} LeftKeySpills(m: Ini, lines: seq<string>, s: string, k: string)
    requires Load(m, ReadAll(lines)).Some? && NameFree(m, s) && 0 <= FindSection(Load(m, ReadAll(lines)).value, s)
    requires Free(s, ']') && Readable(lines) && !NoneLeftBehind(lines, s, k)
    requires DeleteLines(lines, 0, s, Some(k)).Some?
    ensures var n := Load(m, ReadAll(DeleteLines(lines, 0, s, Some(k)).value));
            n.Some? ==> Spilled(Load(m, ReadAll(lines)).value, n.value, s)
    decreases |lines|
  {
    var line := lines[0];
    ReadAllFirst(lines);
    LoadFirst(m, ReadAll(lines), s);
    SeekingAction(line, s, Some(k));
    if Read(line) == Head(s) {
      SomeLeftStays(lines[1..], s, k);
      SpillsBack(m, ReadAll(lines[1..]), ReadAll(DeleteLines(lines[1..], 2, s, Some(k)).value), s);
    } else {
      NotTheHeader(line, s);
      var kept := DeleteLines(lines[1..], 0, s, Some(k)).value;
      ReadAllCons(line, kept);
      assert ([Read(line)] + ReadAll(kept))[1..] == ReadAll(kept);
      LeftKeySpills(Step(m, Read(line)).value, lines[1..], s, k);
    }
  }

  lemma SpillsBack(m: Ini, rest: seq<Event>, kept: seq<Event>, s: string)
    requires NameFree(m, s) && Load(m + [Section(s, [])], rest).Some? && PairFirst(kept)
    ensures Load(m, kept).Some? ==> Spilled(Load(m + [Section(s, [])], rest).value, Load(m, kept).value, s)
  {
    if Load(m, kept).Some? {
      var key := PairGoesToLast(m, kept);
      LoadGrows(m + [Section(s, [])], rest);
      assert SpilledAt(Load(m + [Section(s, [])], rest).value, Load(m, kept).value, s, |m| - 1, key);
    }
  }

  /** Deleting a section with a key left in the parameter, none of its pairs left: the file loads to the sections without it. */
  lemma NoneLeftSquare(text: string, m: Ini, s: string, k: string)
    requires Loads(text, m) && HasSection(m, s) && NoneLeftBehind(SplitLines(text), s, k)
    ensures DeleteCode(text, s, Some(k)) == 0 && DeleteText(text, s, Some(k)).Some?
    ensures Loads(DeleteText(text, s, Some(k)).value, RemoveAt(m, FindSection(m, s)))
  {
    var lines := SplitLines(text);
    HeaderFound(text, m, s);
    LeftKeyDrops([], lines, s, k, 0);
    DeleteKeepsWf(lines, 0, s, Some(k));
    DeleteEvents([], ReadAll(lines), s);
    SplitJoin(DeleteLines(lines, 0, s, Some(k)).value);
  }

  /** Some pair left: it goes to another section, or the file does not load. */
  lemma SomeLeftSpills(text: string, m: Ini, s: string, k: string)
    requires Loads(text, m) && HasSection(m, s) && !NoneLeftBehind(SplitLines(text), s, k)
    requires DeleteText(text, s, Some(k)).Some?
    ensures var n := LoadText([], DeleteText(text, s, Some(k)).value);
            n.Some? ==> Spilled(m, n.value, s)
  {
    var lines := SplitLines(text);
    HeaderFound(text, m, s);
    LeftKeySpills([], lines, s, k);
    DeleteKeepsWf(lines, 0, s, Some(k));
    SplitJoin(DeleteLines(lines, 0, s, Some(k)).value);
  }

  // ---------- one key ----------

  /** Up to the next header there is a pair that is the key's. */
  predicate HasMatch(lines: seq<string>, k: string)
    decreases |lines|
  {
    && lines != []
    && Kind(lines[0]) != SectionLine
    && ((Kind(lines[0]) == KeyValueLine && KeyMatches(lines[0], k)) || HasMatch(lines[1..], k))
  }

  lemma {:induction false} MatchedCode(lines: seq<string>, stale: string, s: string, k: string, ret: int)
    requires Readable(lines) && HasMatch(lines, k)
    ensures LastCompare(lines, stale, 2, s, Some(k), ret) == 0
    decreases |lines|
  {
    var line, rest := lines[0], lines[1..];
    KindRead(line);
    KeyAction(line, s, k);
    if Read(line).Pair? && KeyMatches(line, k) {
      MatchCode(line, stale, s, k, ret);
      SettledCode(rest, line, 3, s, Some(k), 0);
    } else {
      MatchedCode(rest, "", s, k, NextCompare(line, stale, 2, s, Some(k), ret));
    }
  }

  lemma {:induction false} LoadedKeyMatches(m: Ini, sec: Section, lines: seq<string>, k: string)
    requires Load(m + [sec], ReadAll(lines)).Some? && Readable(lines) && CleanKey(k) && FindEntry(sec.entries, k) < 0
    requires |m| < |Load(m + [sec], ReadAll(lines)).value|
    requires 0 <= FindEntry(Load(m + [sec], ReadAll(lines)).value[|m|].entries, k)
    ensures HasMatch(lines, k)
    decreases |lines|
  {
    if lines != [] {
      var line, m1 := lines[0], m + [sec];
      var event, n := Read(line), Load(m1, ReadAll(lines)).value;
      ReadAllFirst(lines);
      KindRead(line);
      match event
      case Head(name) =>
        LoadGrows(m1 + [Section(name, [])], ReadAll(lines[1..]));
      case Pair(key, value) =>
        PairTest(line, k);
        if key != k {
          var sec1 := Section(sec.name, sec.entries + [Entry(key, value)]);
          assert Step(m1, event).value == m + [sec1];
          LoadedKeyMatches(m, sec1, lines[1..], k);
        }
      case Skip =>
        LoadedKeyMatches(m, sec, lines[1..], k);
    }
  }

  lemma HeadedKeyMatches(m: Ini, rest: seq<string>, s: string, k: string)
    requires NameFree(m, s) && CleanKey(k) && Readable(rest)
    requires Load(m + [Section(s, [])], ReadAll(rest)).Some?
    requires HasKey(Load(m + [Section(s, [])], ReadAll(rest)).value, s, k)
    ensures HasMatch(rest, k)
  {
    LoadGrows(m + [Section(s, [])], ReadAll(rest));
    SectionAt(m, Load(m + [Section(s, [])], ReadAll(rest)).value, s);
    LoadedKeyMatches(m, Section(s, []), rest, k);
  }

  lemma {:induction false} KeyCode(m: Ini, lines: seq<string>, s: string, k: string, ret: int)
    requires Load(m, ReadAll(lines)).Some? && NameFree(m, s) && HasKey(Load(m, ReadAll(lines)).value, s, k)
    requires Free(s, ']') && CleanKey(k) && Readable(lines)
    ensures LastCompare(lines, "", 0, s, Some(k), ret) == 0
    decreases |lines|
  {
    var line := lines[0];
    ReadAllFirst(lines);
    LoadFirst(m, ReadAll(lines), s);
    SeekingAction(line, s, Some(k));
    if Read(line) == Head(s) {
      HeaderCode(line, "", s, Some(k), ret);
      HeadedKeyMatches(m, lines[1..], s, k);
      MatchedCode(lines[1..], line, s, k, 0);
    } else {
      KeyCode(Step(m, Read(line)).value, lines[1..], s, k, NextCompare(line, "", 0, s, Some(k), ret));
    }
  }

  /** Deleting a key that the file has returns 0, and the file read again has lost the whole section. */
  lemma DeleteKeyLosesItsSection(text: string, m: Ini, s: string, k: string)
    requires Loads(text, m) && HasKey(m, s, k)
    ensures DeleteCode(text, s, Some(k)) == 0 && DeleteText(text, s, Some(k)).Some?
    ensures var n := LoadText([], DeleteText(text, s, Some(k)).value);
            n.Some? ==> !HasSection(n.value, s)
  {
    var lines := SplitLines(text);
    HeaderFound(text, m, s);
    LoadedIsCleanAndUnique(text);
    assert CleanSection(m[FindSection(m, s)]) && CleanEntry(m[FindSection(m, s)].entries[FindEntry(m[FindSection(m, s)].entries, k)]);
    KeyCode([], lines, s, k, 0);
    RefusedExactly(lines, "", 0, s, Some(k), 0);
    WritesNoSection(text, m, s, k);
  }

  // ---------- the exact code ----------

  /** How many lines there are up to the next header. */
  function Stretch(lines: seq<string>): (n: nat)
    ensures n <= |lines| && forall j | 0 <= j < n :: Kind(lines[j]) != SectionLine
    ensures n < |lines| ==> Kind(lines[n]) == SectionLine
    decreases |lines|
  {
    if lines == [] || Kind(lines[0]) == SectionLine then 0 else 1 + Stretch(lines[1..])
  }

  predicate MatchedAt(lines: seq<string>, j: nat, k: string)
    requires j < |lines|
  {
    Kind(lines[j]) == KeyValueLine && KeyMatches(lines[j], k)
  }

  /** memcmp is called for line j; behind the first line, dropped, the buffer still holds the header. */
  predicate ComparedAt(lines: seq<string>, header: string, j: nat, k: string)
    requires j < |lines|
  {
    Kind(lines[j]) == KeyValueLine && KeyCompared(lines[j], if j == 0 then header else "", k)
  }

  // The last line of the stretch compared, or -1.
  function LastAt(lines: seq<string>, header: string, k: string): (i: int)
    ensures -1 <= i < Stretch(lines)
    decreases |lines|
  {
    if lines == [] || Kind(lines[0]) == SectionLine then -1
    else
      var i := LastAt(lines[1..], "", k);
      if 0 <= i then i + 1 else if ComparedAt(lines, header, 0, k) then 0 else -1
  }

  lemma ComparedBehind(lines: seq<string>, header: string, k: string)
    requires lines != []
    ensures forall j | 1 <= j < |lines| :: ComparedAt(lines, header, j, k) == ComparedAt(lines[1..], "", j - 1, k)
  {
  }

  lemma {:induction false} LastAtIsLast(lines: seq<string>, header: string, k: string)
    ensures var i := LastAt(lines, header, k);
            && (0 <= i ==> ComparedAt(lines, header, i, k))
            && forall j | i < j < Stretch(lines) :: !ComparedAt(lines, header, j, k)
    decreases |lines|
  {
    if lines != [] && Kind(lines[0]) != SectionLine {
      LastAtIsLast(lines[1..], "", k);
      ComparedBehind(lines, header, k);
    }
  }

  predicate SomeMatch(lines: seq<string>, k: string) {
    exists j :: 0 <= j < Stretch(lines) && MatchedAt(lines, j, k)
  }

  lemma SomeMatchStep(lines: seq<string>, k: string)
    requires lines != [] && Kind(lines[0]) != SectionLine
    ensures SomeMatch(lines, k) <==> MatchedAt(lines, 0, k) || SomeMatch(lines[1..], k)
  {
    var rest := lines[1..];
    assert forall j | 0 <= j < |rest| :: rest[j] == lines[j + 1];
    if j :| 0 <= j < Stretch(lines) && MatchedAt(lines, j, k) {
      assert j == 0 || MatchedAt(rest, j - 1, k);
    }
    if j :| 0 <= j < Stretch(rest) && MatchedAt(rest, j, k) {
      assert MatchedAt(lines, j + 1, k);
    }
  }

  // What memcmp makes of a line and the key.
  function Compared(line: string, k: string): int {
    Compare(k, line[SkipFrom(line, 0, |line|)..])
  }

  // A line that is neither a header nor a match is passed.
  lemma PassedCode(line: string, rest: seq<string>, header: string, s: string, k: string, ret: int)
    requires Read(line) != Bad && !Read(line).Head? && !MatchedAt([line] + rest, 0, k)
    ensures var next := if ComparedAt([line] + rest, header, 0, k) then Compared(line, k) else ret;
            LastCompare([line] + rest, header, 2, s, Some(k), ret) == LastCompare(rest, "", 2, s, Some(k), next)
  {
    KindRead(line);
    KeyAction(line, s, k);
    assert ([line] + rest)[1..] == rest;
  }

  // A header or a match settles the code.
  lemma EndedCode(line: string, rest: seq<string>, header: string, s: string, k: string, ret: int)
    requires Readable([line] + rest) && (Read(line).Head? || MatchedAt([line] + rest, 0, k))
    ensures LastCompare([line] + rest, header, 2, s, Some(k), ret) == if Read(line).Head? then ret else 0
  {
    var lines := [line] + rest;
    assert lines[0] == line && lines[1..] == rest && Readable(rest);
    KindRead(line);
    KeyAction(line, s, k);
    if Read(line).Head? {
      SettledCode(rest, "", 3, s, Some(k), ret);
    } else {
      MatchCode(line, header, s, k, ret);
      SettledCode(rest, line, 3, s, Some(k), 0);
    }
  }

  // What the stretch says the code is.
  function CodeOf(lines: seq<string>, header: string, k: string, ret: int): int {
    if SomeMatch(lines, k) then 0
    else if LastAt(lines, header, k) < 0 then ret
    else Compared(lines[LastAt(lines, header, k)], k)
  }

  lemma CodeOfStep(line: string, rest: seq<string>, header: string, k: string, ret: int)
    requires Kind(line) != SectionLine
    ensures CodeOf([line] + rest, header, k, ret) ==
            if MatchedAt([line] + rest, 0, k) then 0
            else CodeOf(rest, "", k, if ComparedAt([line] + rest, header, 0, k) then Compared(line, k) else ret)
  {
    var lines := [line] + rest;
    assert lines[1..] == rest;
    SomeMatchStep(lines, k);
  }

  /** The code behind the header: 0 at a match, otherwise that of the last line compared, if one is. */
  lemma {:induction false} StretchCode(lines: seq<string>, header: string, s: string, k: string, ret: int)
    requires Readable(lines)
    ensures LastCompare(lines, header, 2, s, Some(k), ret) == CodeOf(lines, header, k, ret)
    decreases |lines|
  {
    if lines != [] {
      var line, rest := lines[0], lines[1..];
      assert lines == [line] + rest;
      KindRead(line);
      if Read(line).Head? {
        EndedCode(line, rest, header, s, k, ret);
      } else {
        CodeOfStep(line, rest, header, k, ret);
        if MatchedAt(lines, 0, k) {
          EndedCode(line, rest, header, s, k, ret);
        } else {
          PassedCode(line, rest, header, s, k, ret);
          StretchCode(rest, "", s, k, if ComparedAt(lines, header, 0, k) then Compared(line, k) else ret);
        }
      }
    }
  }

  lemma ComparedMatches(line: string, stale: string, k: string)
    requires KeyCompared(line, stale, k)
    ensures KeyMatches(line, k) <==> Compared(line, k) == 0
  {
    var p := SkipFrom(line, 0, |line|);
    if p + |k| <= |line| {
      assert line[p..][..|k|] == line[p..p + |k|];
    }
  }

  // The header found, with the code 0, the lines behind it decide.
  lemma {:induction false} CodeBehindHeader(m: Ini, lines: seq<string>, s: string, k: string, ret: int)
    requires Load(m, ReadAll(lines)).Some? && NameFree(m, s) && Free(s, ']') && Readable(lines)
    requires 0 <= HeadTarget(ReadAll(lines), s)
    ensures var i := HeadTarget(ReadAll(lines), s);
            LastCompare(lines, "", 0, s, Some(k), ret) == LastCompare(lines[i + 1..], lines[i], 2, s, Some(k), 0)
    decreases |lines|
  {
    var line := lines[0];
    ReadAllFirst(lines);
    LoadFirst(m, ReadAll(lines), s);
    SeekingAction(line, s, Some(k));
    if Read(line) == Head(s) {
      HeaderCode(line, "", s, Some(k), ret);
    } else {
      var i := HeadTarget(ReadAll(lines[1..]), s);
      CodeBehindHeader(Step(m, Read(line)).value, lines[1..], s, k, NextCompare(line, "", 0, s, Some(k), ret));
      assert lines[1..][i] == lines[i + 1] && lines[1..][i + 1..] == lines[i + 2..];
    }
  }

  predicate NoneCompared(lines: seq<string>, header: string, k: string) {
    forall j | 0 <= j < Stretch(lines) :: !ComparedAt(lines, header, j, k)
  }

  /** Line j is the last one compared, and greater than the key. */
  predicate LastAndGreater(lines: seq<string>, header: string, j: nat, k: string)
    requires j < |lines|
  {
    && ComparedAt(lines, header, j, k) && Less(k, lines[j][SkipFrom(lines[j], 0, |lines[j]|)..])
    && forall h | j < h < Stretch(lines) :: !ComparedAt(lines, header, h, k)
  }

  predicate LastIsGreater(lines: seq<string>, header: string, k: string) {
    exists j :: 0 <= j < Stretch(lines) && LastAndGreater(lines, header, j, k)
  }

  lemma GreaterIsLastAt(lines: seq<string>, header: string, k: string)
    ensures NoneCompared(lines, header, k) <==> LastAt(lines, header, k) < 0
    ensures LastIsGreater(lines, header, k) <==>
            0 <= LastAt(lines, header, k) && Compared(lines[LastAt(lines, header, k)], k) < 0
  {
    var i := LastAt(lines, header, k);
    LastAtIsLast(lines, header, k);
    if 0 <= i {
      CompareIsLess(k, lines[i][SkipFrom(lines[i], 0, |lines[i]|)..]);
      assert Compared(lines[i], k) < 0 <==> LastAndGreater(lines, header, i, k);
    }
    if j :| 0 <= j < Stretch(lines) && LastAndGreater(lines, header, j, k) {
      assert j == i;
    }
  }

  lemma MissedLast(lines: seq<string>, header: string, k: string)
    requires !SomeMatch(lines, k) && 0 <= LastAt(lines, header, k)
    ensures Compared(lines[LastAt(lines, header, k)], k) != 0
  {
    var i := LastAt(lines, header, k);
    LastAtIsLast(lines, header, k);
    assert !MatchedAt(lines, i, k);
    ComparedMatches(lines[i], if i == 0 then header else "", k);
  }

  lemma CodeOfLines(lines: seq<string>, header: string, s: string, k: string)
    requires Readable(lines)
    ensures var code := LastCompare(lines, header, 2, s, Some(k), 0);
            && (code == 0 <==> SomeMatch(lines, k) || NoneCompared(lines, header, k))
            && (code < 0 <==> !SomeMatch(lines, k) && LastIsGreater(lines, header, k))
  {
    StretchCode(lines, header, s, k, 0);
    GreaterIsLastAt(lines, header, k);
    if !SomeMatch(lines, k) && 0 <= LastAt(lines, header, k) {
      MissedLast(lines, header, k);
    }
  }

  /**
   * What rewrite_after_delete returns for a section of the file and a key left in the parameter. It is 0 exactly when,
   * behind the header and up to the next one, some line matches the key or none is compared with it; below zero exactly
   * when none matches and the last one compared is greater than the key.
   */
  lemma DeleteCodeExactly(text: string, m: Ini, s: string, k: string)
    requires Loads(text, m) && HasSection(m, s)
    ensures var lines := SplitLines(text);
            var i := HeadTarget(ReadAll(lines), s);
            && 0 <= i
            && var header, rest, code := lines[i], lines[i + 1..], DeleteCode(text, s, Some(k));
               && (code == 0 <==> SomeMatch(rest, k) || NoneCompared(rest, header, k))
               && (code < 0 <==> !SomeMatch(rest, k) && LastIsGreater(rest, header, k))
  {
    var lines := SplitLines(text);
    HeaderFound(text, m, s);
    var i := HeadTarget(ReadAll(lines), s);
    CodeBehindHeader([], lines, s, k, 0);
    CodeOfLines(lines[i + 1..], lines[i], s, k);
  }
}
