/** The FTP listing: lines put together from chunks, and the name and size columns cut out of them. */
module FtpListing {
  import opened Wrappers

  const FOLDER_KEY := 'd'
  const FILE_KEY := '-'
  const SHORTEST := 50
  const SIZE_BUFF := 16
  const LINE_BUFF := 1024

  // ---------- atoi ----------

  predicate Digit(c: char) {
    '0' <= c <= '9'
  }

  // The number the leading digits make, n being that of the digits before them.
  function Digits(text: string, n: nat): nat {
    if text == [] || !Digit(text[0]) then n else Digits(text[1..], 10 * n + (text[0] as int - '0' as int))
  }

  /** What a 32-bit signed integer keeps of a number. */
  function Truncated(v: int): (r: int)
    ensures -0x8000_0000 <= r < 0x8000_0000 && (v - r) % 0x1_0000_0000 == 0
    ensures r == v <==> -0x8000_0000 <= v < 0x8000_0000
  {
    (v + 0x8000_0000) % 0x1_0000_0000 - 0x8000_0000
  }

  /** The C library's atoi, for fewer digits than 64 bits can overflow with. */
  function Atoi(text: string): int {
    if text == [] then 0
    else if text[0] == ' ' || 9 <= text[0] as int <= 13 then Atoi(text[1..])
    else if text[0] == '-' then Truncated(0 - Digits(text[1..], 0))
    else if text[0] == '+' then Truncated(Digits(text[1..], 0))
    else Truncated(Digits(text, 0))
  }

  /** A number in the decimal form a server prints it in. */
  function Decimal(n: nat): (s: string)
    ensures s != [] && forall i | 0 <= i < |s| :: Digit(s[i])
  {
    (if n < 10 then [] else Decimal(n / 10)) + [('0' as int + n % 10) as char]
  }

  lemma {:induction false} DigitsAppend(a: string, c: char, n: nat)
    requires Digit(c) && forall i | 0 <= i < |a| :: Digit(a[i])
    ensures Digits(a + [c], n) == 10 * Digits(a, n) + (c as int - '0' as int)
  {
    if a == [] {
      assert [c][1..] == [];
    } else {
      DigitsAppend(a[1..], c, 10 * n + (a[0] as int - '0' as int));
      assert (a + [c])[1..] == a[1..] + [c];
    }
  }

  lemma {:induction false} DigitsOfDecimal(n: nat)
    ensures Digits(Decimal(n), 0) == n
  {
    var before := if n < 10 then [] else Decimal(n / 10);
    if n >= 10 {
      DigitsOfDecimal(n / 10);
    }
    DigitsAppend(before, ('0' as int + n % 10) as char, 0);
  }

  /** A printed size is read back exactly when it is below two gigabytes. */
  lemma SizeReadExactly(n: nat)
    ensures Atoi(Decimal(n)) == n <==> n < 0x8000_0000
  {
    DigitsOfDecimal(n);
    assert Digit(Decimal(n)[0]);
  }

  lemma {:induction false} DigitsStop(a: string, tail: string, n: nat)
    requires (forall i | 0 <= i < |a| :: Digit(a[i])) && (tail == [] || !Digit(tail[0]))
    ensures Digits(a + tail, n) == Digits(a, n)
  {
    if a == [] {
      assert a + tail == tail;
    } else {
      DigitsStop(a[1..], tail, 10 * n + (a[0] as int - '0' as int));
      assert (a + tail)[1..] == a[1..] + tail;
    }
  }

  lemma AtoiSteps(c: char, s: string)
    ensures c == ' ' || c == '\t' ==> Atoi([c] + s) == Atoi(s)
    ensures c == '+' ==> Atoi([c] + s) == Truncated(Digits(s, 0))
    ensures c == '-' ==> Atoi([c] + s) == Truncated(0 - Digits(s, 0))
  {
    assert ([c] + s)[1..] == s;
  }

  /** A sign is read, blanks in front of it are passed, and what is behind the digits is not read. */
  lemma AtoiReads(n: nat, tail: string)
    requires tail == [] || !Digit(tail[0])
    ensures var s := Decimal(n) + tail;
            && Atoi(s) == Atoi(['+'] + s) == Truncated(n) && Atoi(['-'] + s) == Truncated(0 - n)
            && forall text :: Atoi([' '] + text) == Atoi(text) && Atoi(['\t'] + text) == Atoi(text)
  {
    var s := Decimal(n) + tail;
    DigitsOfDecimal(n);
    DigitsStop(Decimal(n), tail, 0);
    assert s[0] == Decimal(n)[0] && Digit(s[0]);
    AtoiSteps('+', s);
    AtoiSteps('-', s);
    forall text ensures Atoi([' '] + text) == Atoi(text) && Atoi(['\t'] + text) == Atoi(text) {
      AtoiSteps(' ', text);
      AtoiSteps('\t', text);
    }
  }

  // ---------- the columns of a line ----------

  // A character the scan goes on after: a positive signed char.
  predicate Plain(c: char) {
    0 < c as int < 128
  }

  /** How many runs of blanks there are before position i. */
  function Runs(line: string, i: nat): (n: nat)
    requires i <= |line|
  {
    if i <= 1 then 0
    else Runs(line, i - 1) + if line[i - 1] == ' ' && line[i - 2] != ' ' then 1 else 0
  }

  /** Position i is in the column behind k runs of blanks. */
  predicate InColumn(line: string, k: nat, i: nat) {
    i < |line| && line[i] != ' ' && Runs(line, i) == k
  }

  /** Where that column starts from i on, or |line|. */
  function Start(line: string, k: nat, i: nat): (s: nat)
    requires i <= |line|
    ensures i <= s <= |line|
    ensures s < |line| ==> InColumn(line, k, s)
    ensures forall j | i <= j < s :: !InColumn(line, k, j)
    decreases |line| - i
  {
    if i == |line| || InColumn(line, k, i) then i else Start(line, k, i + 1)
  }

  /** The first blank from i on, or |line|. */
  function BlankFrom(line: string, i: nat): (e: nat)
    requires i <= |line|
    ensures i <= e <= |line|
    ensures e < |line| ==> line[e] == ' '
    ensures forall j | i <= j < e :: line[j] != ' '
    decreases |line| - i
  {
    if i == |line| || line[i] == ' ' then i else BlankFrom(line, i + 1)
  }

  /** The first character the scan stops at, or |line|. */
  function PlainUpTo(line: string, i: nat): (e: nat)
    requires i <= |line|
    ensures i <= e <= |line|
    ensures e < |line| ==> !Plain(line[e])
    ensures forall j | i <= j < e :: Plain(line[j])
    decreases |line| - i
  {
    if i == |line| || !Plain(line[i]) then i else PlainUpTo(line, i + 1)
  }

  lemma {:induction false} RunsGrow(line: string, i: nat, j: nat)
    requires i <= j <= |line|
    ensures Runs(line, i) <= Runs(line, j)
  {
    if i < j {
      RunsGrow(line, i, j - 1);
    }
  }

  lemma {:induction false} RunsStay(line: string, i: nat, j: nat)
    requires i <= j <= |line| && forall m | i <= m < j :: line[m] != ' '
    ensures Runs(line, i) == Runs(line, j)
  {
    if i < j {
      RunsStay(line, i, j - 1);
    }
  }

  // ---------- find_file_name_point ----------

  predicate Keyed(line: string, key: char) {
    |line| >= SHORTEST && line[0] == key
  }

  /** The ninth column of a line of this kind. */
  predicate NameAt(line: string, key: char, p: nat) {
    && Keyed(line, key) && 1 <= p < PlainUpTo(line, 0)
    && line[p - 1] == ' ' && InColumn(line, 8, p)
  }

  // The size column, [Start, SizeEnd).
  function SizeEnd(line: string): (e: nat)
    requires line != []
    ensures Start(line, 4, 1) <= e <= |line|
  {
    BlankFrom(line, Start(line, 4, 1))
  }

  /** The size after the scan; before is the size before it. */
  function SizeAfter(line: string, key: char, before: int): int {
    if Keyed(line, key) then
      var (s, e) := (Start(line, 4, 1), SizeEnd(line));
      if e < PlainUpTo(line, 0) && e - s < SIZE_BUFF then Atoi(line[s..e]) else before
    else before
  }

  method FindFileNamePoint(line: string, key: char, before: int) returns (name: int, size: int)
    requires key == FOLDER_KEY || key == FILE_KEY
    ensures name >= 0 ==> NameAt(line, key, name)
    ensures name < 0 ==> forall p :: !NameAt(line, key, p)
    ensures size == SizeAfter(line, key, before)
  {
    name, size := -1, before;
    if |line| <= 49 || !Plain(line[0]) || line[0] != key {
      return;
    }
    var inBlanks, blanks, sizeAt := false, 0, -1;
    var i := 1;
    while i < |line| && Plain(line[i])
      invariant 1 <= i <= PlainUpTo(line, 0)
      invariant inBlanks == (line[i - 1] == ' ') && blanks == Runs(line, i) && blanks <= 8 && (blanks == 8 ==> inBlanks)
      invariant SizeSeen(line, i, blanks, sizeAt)
      invariant size == if blanks < 5 then before else Cut(line, sizeAt, before)
    {
      SizeStep(line, i, blanks, sizeAt);
      if line[i] == ' ' {
        if !inBlanks {
          blanks := blanks + 1;
          if blanks == 5 {
            SizeEnds(line, i, sizeAt);
            if i - sizeAt < SIZE_BUFF {
              size := Atoi(line[sizeAt..i]);
            }
          }
          inBlanks := true;
        }
      } else {
        inBlanks := false;
        if blanks == 4 && sizeAt == -1 {
          sizeAt := i;
        }
        if blanks == 8 {
          NameFound(line, key, i, sizeAt, before);
          name := i;
          return;
        }
      }
      i := i + 1;
    }
    NameMissing(line, key, i, blanks, sizeAt, before);
  }

  // The scan's p_size at position i: where the fifth column starts, if it has.
  predicate SizeSeen(line: string, i: nat, blanks: nat, sizeAt: int)
    requires 1 <= i <= |line|
  {
    && -1 <= sizeAt < i
    && (sizeAt == -1 ==> blanks <= 4 && forall m | 1 <= m < i :: !InColumn(line, 4, m))
    && (sizeAt >= 0 ==> 1 <= sizeAt == Start(line, 4, 1) && blanks >= 4)
    && (sizeAt >= 0 && blanks == 4 ==> forall m | sizeAt <= m < i :: line[m] != ' ')
    && (sizeAt >= 0 && blanks >= 5 ==> sizeAt < BlankFrom(line, sizeAt) < i)
  }

  lemma SizeStep(line: string, i: nat, blanks: nat, sizeAt: int)
    requires 1 <= i < |line| && blanks == Runs(line, i) && SizeSeen(line, i, blanks, sizeAt)
    ensures var more := if line[i] == ' ' && line[i - 1] != ' ' then 1 else 0;
            && Runs(line, i + 1) == blanks + more
            && SizeSeen(line, i + 1, blanks + more, if line[i] != ' ' && blanks == 4 && sizeAt == -1 then i else sizeAt)
  {
    if line[i] != ' ' && blanks == 4 && sizeAt == -1 {
      assert InColumn(line, 4, i);
    } else if line[i] == ' ' && line[i - 1] != ' ' && blanks == 4 {
      assert i > 1 ==> Runs(line, i - 1) == 4;
      assert i > 1 ==> InColumn(line, 4, i - 1);
      SizeEnds(line, i, sizeAt);
    }
  }

  function Cut(line: string, s: int, before: int): int {
    if 0 <= s <= |line| && BlankFrom(line, s) - s < SIZE_BUFF then Atoi(line[s..BlankFrom(line, s)]) else before
  }

  lemma SizeEnds(line: string, i: nat, sizeAt: int)
    requires 2 <= i < |line| && line[i] == ' ' && line[i - 1] != ' ' && Runs(line, i) == 4
    requires SizeSeen(line, i, 4, sizeAt)
    ensures 1 <= sizeAt < i && BlankFrom(line, sizeAt) == i
  {
    assert Runs(line, i - 1) == 4;
    assert InColumn(line, 4, i - 1);
  }

  lemma {:induction false} BlankAfter(line: string, p: nat, j: nat)
    requires 1 <= p < j < |line| && line[p] != ' ' && line[j] == ' '
    ensures Runs(line, j + 1) > Runs(line, p)
  {
    if line[j - 1] == ' ' {
      BlankAfter(line, p, j - 1);
      RunsGrow(line, j, j + 1);
    } else {
      RunsGrow(line, p, j);
    }
  }

  lemma NameFound(line: string, key: char, i: nat, sizeAt: int, before: int)
    requires Keyed(line, key) && 1 <= i < PlainUpTo(line, 0) && SizeSeen(line, i, 8, sizeAt)
    requires Runs(line, i) == 8 && line[i] != ' ' && line[i - 1] == ' '
    ensures NameAt(line, key, i) && Cut(line, sizeAt, before) == SizeAfter(line, key, before)
  {
  }

  lemma NameMissing(line: string, key: char, i: nat, blanks: nat, sizeAt: int, before: int)
    requires Keyed(line, key) && 1 <= i == PlainUpTo(line, 0) && SizeSeen(line, i, blanks, sizeAt)
    requires blanks == Runs(line, i) && blanks <= 8 && (blanks == 8 ==> line[i - 1] == ' ')
    ensures forall p :: !NameAt(line, key, p)
    ensures SizeAfter(line, key, before) == if blanks < 5 then before else Cut(line, sizeAt, before)
  {
    forall p: nat
      ensures !NameAt(line, key, p)
    {
      if NameAt(line, key, p) {
        RunsGrow(line, p, i);
        if p < i - 1 {
          BlankAfter(line, p, i - 1);
        }
      }
    }
  }

  /** A line has one ninth column, */
  lemma OneName(line: string, key: char, p: nat, q: nat)
    requires NameAt(line, key, p) && NameAt(line, key, q)
    ensures p == q
  {
    if p < q - 1 {
      BlankAfter(line, p, q - 1);
    } else if q < p - 1 {
      BlankAfter(line, q, p - 1);
    }
  }

  /** and with it, before it, a fifth. */
  lemma NameHasSize(line: string, key: char, p: nat)
    requires NameAt(line, key, p) && key != ' '
    ensures 1 <= Start(line, 4, 1) < SizeEnd(line) < p
  {
    ColumnBefore(line, 4, p);
    var s := Start(line, 4, 1);
    if SizeEnd(line) >= p {
      RunsStay(line, s, p);
    }
  }

  lemma {:induction false} ColumnBefore(line: string, k: nat, p: nat)
    requires 0 < k && 1 <= p <= |line| && line[0] != ' ' && k < Runs(line, p)
    ensures Start(line, k, 1) < p
  {
    if k < Runs(line, p - 1) {
      ColumnBefore(line, k, p - 1);
    } else {
      assert Runs(line, p - 2) == k && InColumn(line, k, p - 2);
    }
  }

  // ---------- the lines of a listing ----------

  datatype Mode = Folder | File

  /** A call of the callback. */
  datatype Event = Event(mode: Mode, name: string, size: int)

  /** Where the name is, if the line has one. */
  ghost function NamePoint(line: string, key: char): (p: Option<nat>)
    ensures p.Some? ==> NameAt(line, key, p.value)
    ensures p.None? ==> forall q :: !NameAt(line, key, q)
  {
    if exists q: nat :: NameAt(line, key, q) then
      var q: nat :| NameAt(line, key, q);
      Some(q)
    else None
  }

  /** What a line is reported as, and the size left behind; before is the size left by the line before. */
  ghost function Scan(line: string, before: int): (r: (Option<Event>, int)) {
    var size := SizeAfter(line, FOLDER_KEY, before);
    match NamePoint(line, FOLDER_KEY)
    case Some(p) => (Some(Event(Folder, line[p..], size)), size)
    case None =>
      var fileSize := SizeAfter(line, FILE_KEY, size);
      match NamePoint(line, FILE_KEY)
      case Some(p) => (Some(Event(File, line[p..], fileSize)), fileSize)
      case None => (None, fileSize)
  }

  function Listed(e: Option<Event>): seq<Event> {
    if e.Some? then [e.value] else []
  }

  /** The calls for lines scanned in one go. */
  ghost function ScanAll(lines: seq<string>, before: int): seq<Event> {
    if lines == [] then []
    else Listed(Scan(lines[0], before).0) + ScanAll(lines[1..], Scan(lines[0], before).1)
  }

  /** The size column of a line that is reported fits the buffer for it. */
  predicate SizeFits(line: string) {
    line == [] || SizeEnd(line) - Start(line, 4, 1) < SIZE_BUFF
  }

  ghost predicate Reported(line: string) {
    NamePoint(line, FOLDER_KEY).Some? || NamePoint(line, FILE_KEY).Some?
  }

  /** What a line is reported as, taken by itself. */
  ghost function EventOf(line: string): Option<Event> {
    Scan(line, 0).0
  }

  lemma ScanFits(line: string, before: int)
    requires Reported(line) ==> SizeFits(line)
    ensures Scan(line, before).0 == EventOf(line)
  {
    if NamePoint(line, FOLDER_KEY).Some? {
      NameHasSize(line, FOLDER_KEY, NamePoint(line, FOLDER_KEY).value);
    } else if NamePoint(line, FILE_KEY).Some? {
      NameHasSize(line, FILE_KEY, NamePoint(line, FILE_KEY).value);
    }
  }

  /** What a line is reported as depends on it alone exactly when its size column fits. */
  lemma SizeFitsExactly(line: string)
    ensures (forall before :: Scan(line, before).0 == EventOf(line)) <==> (Reported(line) ==> SizeFits(line))
  {
    if Reported(line) ==> SizeFits(line) {
      forall before
        ensures Scan(line, before).0 == EventOf(line)
      {
        ScanFits(line, before);
      }
    } else {
      assert Scan(line, 1).0 != Scan(line, 0).0;
    }
  }

  /** A column starts at p behind eight runs of blanks, and all up to it is ASCII. */
  predicate NinthColumn(line: string, p: nat) {
    && 1 <= p < |line| && line[p - 1] == ' ' && line[p] != ' ' && Runs(line, p) == 8
    && forall i | 0 <= i <= p :: 0 < line[i] as int < 128
  }

  /** A line is reported exactly when it has fifty characters, begins with d or -, and has a ninth column. */
  lemma ReportedExactly(line: string)
    ensures EventOf(line).Some? <==>
            |line| >= 50 && (line[0] == 'd' || line[0] == '-') && exists p :: NinthColumn(line, p)
    ensures EventOf(line).Some? ==> (EventOf(line).value.mode == Folder <==> line[0] == 'd')
  {
    forall p: nat
      ensures |line| >= 50 && line[0] == 'd' ==> (NameAt(line, FOLDER_KEY, p) <==> NinthColumn(line, p))
      ensures |line| >= 50 && line[0] == '-' ==> (NameAt(line, FILE_KEY, p) <==> NinthColumn(line, p))
    {
      if p < |line| {
        PlainTo(line, p);
      }
    }
  }

  lemma PlainTo(line: string, p: nat)
    requires p < |line|
    ensures p < PlainUpTo(line, 0) <==> forall i | 0 <= i <= p :: 0 < line[i] as int < 128
  {
    assert forall i | 0 <= i <= p :: Plain(line[i]) <==> 0 < line[i] as int < 128;
  }

  /** A reported name is the ninth column of a folder's or a file's line. */
  lemma ReportsNames(line: string)
    requires EventOf(line).Some?
    ensures var e := EventOf(line).value;
            exists p: nat :: NameAt(line, if e.mode == Folder then FOLDER_KEY else FILE_KEY, p) && e.name == line[p..]
  {
  }

  // ---------- chunks ----------

  /** The first line feed from i on, or |s|. */
  function LineEnd(s: string): (k: nat)
    ensures k <= |s|
    ensures k < |s| ==> s[k] == '\n'
    ensures forall j | 0 <= j < k :: s[j] != '\n'
  {
    if s == [] || s[0] == '\n' then 0 else 1 + LineEnd(s[1..])
  }

  /** The complete lines of a text, */
  function Lines(s: string): seq<string>
    decreases |s|
  {
    var k := LineEnd(s);
    if k == |s| then [] else [s[..k]] + Lines(s[k + 1..])
  }

  /** and what follows the last of them. */
  function Rest(s: string): (r: string)
    ensures |r| <= |s| && '\n' !in r
    decreases |s|
  {
    var k := LineEnd(s);
    if k == |s| then s else Rest(s[k + 1..])
  }

  lemma {:induction false} EndIs(s: string, k: nat)
    requires k <= |s| && (k < |s| ==> s[k] == '\n') && forall j | 0 <= j < k :: s[j] != '\n'
    ensures LineEnd(s) == k
  {
    if k > 0 {
      EndIs(s[1..], k - 1);
    }
  }

  lemma FirstLine(s: string, k: nat, rest: string)
    requires k < |s| && s[k] == '\n' && (forall j | 0 <= j < k :: s[j] != '\n') && rest == s[k + 1..]
    ensures Lines(s) == [s[..k]] + Lines(rest) && Rest(s) == Rest(rest)
  {
    EndIs(s, k);
  }

  /** Lines reach over the end of a chunk. */
  lemma {:induction false} LinesOfTwo(a: string, b: string)
    ensures Lines(a + b) == Lines(a) + Lines(Rest(a) + b)
    ensures Rest(a + b) == Rest(Rest(a) + b)
    decreases |a|
  {
    var k := LineEnd(a);
    if k == |a| {
      assert Lines(a) == [] && Rest(a) == a;
    } else {
      LinesOfTwo(a[k + 1..], b);
      OneLineOfTwo(a, b, k, a[k + 1..]);
    }
  }

  lemma OneLineOfTwo(a: string, b: string, k: nat, more: string)
    requires k < |a| && k == LineEnd(a) && more == a[k + 1..]
    requires Lines(more + b) == Lines(more) + Lines(Rest(more) + b) && Rest(more + b) == Rest(Rest(more) + b)
    ensures Lines(a + b) == Lines(a) + Lines(Rest(a) + b) && Rest(a + b) == Rest(Rest(a) + b)
  {
    FirstLine(a, k, more);
    FirstLineOfTwo(a, b, k, more);
    Regroup([a[..k]], Lines(more), Lines(Rest(more) + b));
  }

  lemma FirstLineOfTwo(a: string, b: string, k: nat, more: string)
    requires k < |a| && k == LineEnd(a) && more == a[k + 1..]
    ensures Lines(a + b) == [a[..k]] + Lines(more + b) && Rest(a + b) == Rest(more + b)
  {
    var s := a + b;
    assert s[..k] == a[..k] && s[k + 1..] == more + b;
    FirstLine(s, k, more + b);
  }

  lemma Regroup<T>(a: seq<T>, b: seq<T>, c: seq<T>)
    ensures a + (b + c) == (a + b) + c
  {
  }

  lemma LastLine(s: string)
    requires '\n' !in s
    ensures Lines(s) == [] && Rest(s) == s
  {
    EndIs(s, |s|);
  }

  /** Every line, the last one too, fits file_name_buff with its terminator. */
  predicate LinesFit(s: string) {
    (forall i | 0 <= i < |Lines(s)| :: |Lines(s)[i]| < LINE_BUFF) && |Rest(s)| < LINE_BUFF
  }

  /** What a call of the callback leaves: the calls made, and the unfinished line. */
  class Listing {
    var buff: string
    ghost var events: seq<Event>

    ghost predicate Valid()
      reads this
    {
      '\n' !in buff && '\0' !in buff && |buff| < LINE_BUFF
    }

    constructor ()
      ensures Valid() && buff == [] && events == []
    {
      buff, events := [], [];
    }

    /** The two searches of a line put together in the buffer, and the call for it. */
    method Report(before: int) returns (size: int)
      modifies this`events
      ensures size == Scan(buff, before).1
      ensures events == old(events) + Listed(Scan(buff, before).0)
    {
      var name;
      name, size := FindFileNamePoint(buff, FOLDER_KEY, before);
      if name >= 0 {
        Named(buff, FOLDER_KEY, name);
        events := events + [Event(Folder, buff[name..], size)];
      } else {
        Unnamed(buff, FOLDER_KEY);
        name, size := FindFileNamePoint(buff, FILE_KEY, size);
        if name >= 0 {
          Named(buff, FILE_KEY, name);
          events := events + [Event(File, buff[name..], size)];
        } else {
          Unnamed(buff, FILE_KEY);
        }
      }
    }

    // The end of a line: it is put together, reported, and the buffer cleared.
    method EndLine(piece: string, before: int) returns (size: int)
      requires |buff + piece| < LINE_BUFF
      modifies this
      ensures Valid() && buff == []
      ensures size == Scan(old(buff) + piece, before).1
      ensures events == old(events) + Listed(Scan(old(buff) + piece, before).0)
    {
      buff := buff + piece;
      size := Report(before);
      buff := [];
    }

    /** curl_ftp_scanfile_callback, for a chunk that ends in its terminator. */
    method Callback(chunk: string)
      requires Valid() && LinesFit(buff + chunk) && '\0' !in chunk
      modifies this
      ensures Valid()
      ensures events == old(events) + ScanAll(Lines(old(buff) + chunk), 0)
      ensures buff == Rest(old(buff) + chunk)
    {
      var size, at := 0, 0;
      assert chunk[0..] == chunk;
      while true
        invariant 0 <= at <= |chunk| && Valid() && LinesFit(buff + chunk[at..])
        invariant Rest(buff + chunk[at..]) == Rest(old(buff) + chunk)
        invariant events + ScanAll(Lines(buff + chunk[at..]), size) == old(events) + ScanAll(Lines(old(buff) + chunk), 0)
        decreases |chunk| - at
      {
        var len := LineEnd(chunk[at..]);
        if len == |chunk[at..]| {
          LastLine(buff + chunk[at..]);
          buff := buff + chunk[at..];
          break;
        }
        ghost var pending, line, more := buff + chunk[at..], buff + chunk[at..at + len], chunk[at + len + 1..];
        assert chunk[at..][..len] == chunk[at..at + len] && chunk[at..][len + 1..] == more;
        NextLine(buff, chunk[at..], len, line, more);
        NextFits(pending, line, more);
        NextScan(events, line, Lines(more), size);
        size := EndLine(chunk[at..at + len], size);
        at := at + len + 1;
        assert buff + chunk[at..] == more;
      }
    }

    /** The end of scan_curl_ftp_folder: what is left in the buffer is a line too. */
    method Flush()
      requires Valid()
      modifies this
      ensures Valid() && buff == []
      ensures events == old(events) + Listed(EventOf(old(buff)))
    {
      var size := Report(0);
      buff := [];
    }
  }

  lemma Named(line: string, key: char, p: nat)
    requires NameAt(line, key, p)
    ensures NamePoint(line, key) == Some(p)
  {
    OneName(line, key, p, NamePoint(line, key).value);
  }

  lemma Unnamed(line: string, key: char)
    requires forall p :: !NameAt(line, key, p)
    ensures NamePoint(line, key) == None
  {
  }

  // The line the buffer and a chunk begin with.
  lemma NextLine(buff: string, chunk: string, k: nat, line: string, more: string)
    requires '\n' !in buff && k == LineEnd(chunk) < |chunk|
    requires line == buff + chunk[..k] && more == chunk[k + 1..]
    ensures Rest(buff + chunk) == Rest(more) && Lines(buff + chunk) == [line] + Lines(more)
  {
    var s := buff + chunk;
    assert s[..|buff| + k] == line && s[|buff| + k + 1..] == more;
    NoEndBefore(buff, chunk, k);
    FirstLine(s, |buff| + k, more);
  }

  lemma NoEndBefore(buff: string, chunk: string, k: nat)
    requires '\n' !in buff && k == LineEnd(chunk) < |chunk|
    ensures (buff + chunk)[|buff| + k] == '\n' && forall j | 0 <= j < |buff| + k :: (buff + chunk)[j] != '\n'
  {
    forall j | 0 <= j < |buff| + k
      ensures (buff + chunk)[j] != '\n'
    {
      assert j < |buff| ==> buff[j] in buff;
    }
  }

  lemma NextFits(pending: string, line: string, more: string)
    requires LinesFit(pending) && Rest(pending) == Rest(more) && Lines(pending) == [line] + Lines(more)
    ensures LinesFit(more) && |line| < LINE_BUFF
  {
    assert Lines(pending)[0] == line;
    assert forall i | 0 <= i < |Lines(more)| :: Lines(more)[i] == Lines(pending)[i + 1];
  }

  lemma NextScan(events: seq<Event>, line: string, more: seq<string>, size: int)
    ensures events + ScanAll([line] + more, size)
         == (events + Listed(Scan(line, size).0)) + ScanAll(more, Scan(line, size).1)
  {
    assert ([line] + more)[1..] == more;
  }

  // ---------- any way of cutting ----------

  function Joined(chunks: seq<string>): string {
    if chunks == [] then [] else Joined(chunks[..|chunks| - 1]) + chunks[|chunks| - 1]
  }

  /** The calls made for the chunks, without the flush. */
  ghost function Fed(chunks: seq<string>): seq<Event> {
    if chunks == [] then []
    else
      var before := chunks[..|chunks| - 1];
      Fed(before) + ScanAll(Lines(Rest(Joined(before)) + chunks[|chunks| - 1]), 0)
  }

  function Flatten<T>(xs: seq<seq<T>>): seq<T> {
    if xs == [] then [] else xs[0] + Flatten(xs[1..])
  }

  lemma {:induction false} FlattenConcat<T>(a: seq<seq<T>>, b: seq<seq<T>>)
    ensures Flatten(a + b) == Flatten(a) + Flatten(b)
  {
    if a == [] {
      assert a + b == b;
    } else {
      FlattenConcat(a[1..], b);
      assert (a + b)[1..] == a[1..] + b;
    }
  }

  ghost function EventsOfEach(lines: seq<string>): (r: seq<seq<Event>>)
    ensures |r| == |lines| && forall i | 0 <= i < |lines| :: r[i] == Listed(EventOf(lines[i]))
  {
    seq(|lines|, i requires 0 <= i < |lines| => Listed(EventOf(lines[i])))
  }

  /** The calls for lines each taken by itself. */
  ghost function EventsOf(lines: seq<string>): seq<Event> {
    Flatten(EventsOfEach(lines))
  }

  lemma EachOfTwo(a: seq<string>, b: seq<string>)
    ensures EventsOfEach(a + b) == EventsOfEach(a) + EventsOfEach(b)
  {
    assert forall i | 0 <= i < |a| :: (a + b)[i] == a[i];
    assert forall i | 0 <= i < |b| :: (a + b)[|a| + i] == b[i];
  }

  lemma EventsConcat(a: seq<string>, b: seq<string>)
    ensures EventsOf(a + b) == EventsOf(a) + EventsOf(b)
  {
    EachOfTwo(a, b);
    FlattenConcat(EventsOfEach(a), EventsOfEach(b));
  }

  lemma EventsOfOne(line: string)
    ensures EventsOf([line]) == Listed(EventOf(line))
  {
    assert EventsOfEach([line]) == [Listed(EventOf(line))];
    assert Flatten([Listed(EventOf(line))][1..]) == [];
  }

  // ---------- when the cut matters ----------

  /** The size the scan of a line stores, if it stores one. */
  function Stored(line: string): Option<int> {
    if (Keyed(line, FOLDER_KEY) || Keyed(line, FILE_KEY))
       && SizeEnd(line) < PlainUpTo(line, 0) && SizeEnd(line) - Start(line, 4, 1) < SIZE_BUFF
    then Some(Atoi(line[Start(line, 4, 1)..SizeEnd(line)]))
    else None
  }

  /** The last size stored, or before. */
  function LastSize(lines: seq<string>, before: int): int {
    if lines == [] then before
    else match Stored(lines[|lines| - 1])
         case Some(size) => size
         case None => LastSize(lines[..|lines| - 1], before)
  }

  /** A line that is reported, and whose size column does not fit the buffer for it. */
  ghost predicate Oversize(line: string) {
    Reported(line) && !SizeFits(line)
  }

  /** No oversize line stands behind a size stored that is not 0, the size at first being before. */
  ghost predicate NoneStale(lines: seq<string>, before: int) {
    forall i | 0 <= i < |lines| && Oversize(lines[i]) :: LastSize(lines[..i], before) == 0
  }

  lemma ScanLeaves(line: string, before: int)
    ensures Scan(line, before).1 == LastSize([line], before)
    ensures Scan(line, before).0 == EventOf(line) <==> (Oversize(line) ==> before == 0)
    ensures Scan(line, before).0.Some? <==> EventOf(line).Some?
  {
    assert [line][..0] == [];
    ScanStores(line, before);
    if !Oversize(line) {
      ScanFits(line, before);
    }
  }

  lemma ScanStores(line: string, before: int)
    ensures Scan(line, before).1 == match Stored(line) { case Some(size) => size case None => before }
  {
    if NamePoint(line, FOLDER_KEY).Some? {
      assert Keyed(line, FOLDER_KEY);
    }
  }

  lemma {:induction false} LastSizeConcat(a: seq<string>, b: seq<string>, before: int)
    ensures LastSize(a + b, before) == LastSize(b, LastSize(a, before))
  {
    if b == [] {
      assert a + b == a;
    } else {
      LastSizeConcat(a, b[..|b| - 1], before);
      assert (a + b)[..|a + b| - 1] == a + b[..|b| - 1];
    }
  }

  lemma {:induction false} LastSizeFromZero(lines: seq<string>, before: int)
    requires LastSize(lines, before) == 0
    ensures LastSize(lines, 0) == 0
  {
    if lines != [] && Stored(lines[|lines| - 1]).None? {
      LastSizeFromZero(lines[..|lines| - 1], before);
    }
  }

  lemma LastSizeBehind(first: string, more: seq<string>, before: int)
    ensures LastSize([first] + more, before) == LastSize(more, Scan(first, before).1)
  {
    ScanLeaves(first, before);
    LastSizeConcat([first], more, before);
  }

  lemma ScanAllFirst(first: string, more: seq<string>, before: int)
    ensures ScanAll([first] + more, before) == Listed(Scan(first, before).0) + ScanAll(more, Scan(first, before).1)
  {
    assert ([first] + more)[1..] == more;
  }

  lemma {:induction false} ScanAllConcat(a: seq<string>, b: seq<string>, before: int)
    ensures ScanAll(a + b, before) == ScanAll(a, before) + ScanAll(b, LastSize(a, before))
  {
    if a == [] {
      assert a + b == b;
    } else {
      ScanAllConcat(a[1..], b, Scan(a[0], before).1);
      ScanAllConcatStep(a[0], a[1..], b, before);
      SplitFirst(a, b);
    }
  }

  lemma SplitFirst<T>(a: seq<T>, b: seq<T>)
    requires a != []
    ensures [a[0]] + a[1..] == a && [a[0]] + (a[1..] + b) == a + b
  {
  }

  lemma ScanAllConcatStep(first: string, more: seq<string>, b: seq<string>, before: int)
    requires var next := Scan(first, before).1;
             ScanAll(more + b, next) == ScanAll(more, next) + ScanAll(b, LastSize(more, next))
    ensures ScanAll([first] + (more + b), before)
         == ScanAll([first] + more, before) + ScanAll(b, LastSize([first] + more, before))
  {
    var next := Scan(first, before).1;
    ScanAllFirst(first, more + b, before);
    ScanAllFirst(first, more, before);
    LastSizeBehind(first, more, before);
    Regroup(Listed(Scan(first, before).0), ScanAll(more, next), ScanAll(b, LastSize(more, next)));
  }

  lemma ScanAllOne(line: string, before: int)
    ensures ScanAll([line], before) == Listed(Scan(line, before).0)
  {
    assert [line][1..] == [];
  }

  lemma {:induction false} SameNumber(lines: seq<string>, before: int)
    ensures |ScanAll(lines, before)| == |EventsOf(lines)|
  {
    if lines != [] {
      var head, last := lines[..|lines| - 1], lines[|lines| - 1];
      assert lines == head + [last];
      SameNumber(head, before);
      ScanAllConcat(head, [last], before);
      ScanAllOne(last, LastSize(head, before));
      ScanLeaves(last, LastSize(head, before));
      EventsConcat(head, [last]);
      EventsOfOne(last);
    }
  }

  lemma NoneStaleLast(head: seq<string>, last: string, before: int)
    ensures NoneStale(head + [last], before) <==>
            NoneStale(head, before) && (Oversize(last) ==> LastSize(head, before) == 0)
  {
    var lines := head + [last];
    assert lines[..|head|] == head && lines[|head|] == last;
    assert forall i | 0 <= i < |head| :: lines[..i] == head[..i] && lines[i] == head[i];
  }

  /** Lines scanned in one go give the calls of each by itself exactly when none of them is stale. */
  lemma {:induction false} ScanAllExactly(lines: seq<string>, before: int)
    ensures ScanAll(lines, before) == EventsOf(lines) <==> NoneStale(lines, before)
  {
    if lines != [] {
      var head, last := lines[..|lines| - 1], lines[|lines| - 1];
      assert lines == head + [last];
      ScanAllExactly(head, before);
      NoneStaleLast(head, last, before);
      ScanAllLast(head, last, before);
    }
  }

  lemma ScanAllLast(head: seq<string>, last: string, before: int)
    ensures ScanAll(head + [last], before) == EventsOf(head + [last]) <==>
            ScanAll(head, before) == EventsOf(head) && (Oversize(last) ==> LastSize(head, before) == 0)
  {
    var left := LastSize(head, before);
    ScanAllConcat(head, [last], before);
    ScanAllOne(last, left);
    ScanLeaves(last, left);
    EventsConcat(head, [last]);
    EventsOfOne(last);
    SameNumber(head, before);
    SameParts(ScanAll(head, before), Listed(Scan(last, left).0), EventsOf(head), Listed(EventOf(last)));
  }

  lemma SameParts<T>(a: seq<T>, b: seq<T>, c: seq<T>, d: seq<T>)
    requires |a| == |c|
    ensures a + b == c + d <==> a == c && b == d
  {
    if a + b == c + d {
      assert a == (a + b)[..|a|] && c == (c + d)[..|c|];
      assert b == (a + b)[|a|..] && d == (c + d)[|c|..];
    }
  }

  lemma NoneStaleParts(head: seq<string>, tail: seq<string>)
    requires NoneStale(head + tail, 0)
    ensures NoneStale(head, 0) && NoneStale(tail, 0)
  {
    var all := head + tail;
    forall i | 0 <= i < |head| && Oversize(head[i]) ensures LastSize(head[..i], 0) == 0 {
      assert all[i] == head[i] && all[..i] == head[..i];
    }
    forall i | 0 <= i < |tail| && Oversize(tail[i]) ensures LastSize(tail[..i], 0) == 0 {
      assert all[|head| + i] == tail[i] && all[..|head| + i] == head + tail[..i];
      LastSizeConcat(head, tail[..i], 0);
      LastSizeFromZero(tail[..i], LastSize(head, 0));
    }
  }

  lemma {:induction false} FedInLines(chunks: seq<string>)
    requires NoneStale(Lines(Joined(chunks)), 0)
    ensures Fed(chunks) == EventsOf(Lines(Joined(chunks)))
  {
    if chunks != [] {
      var before, last := chunks[..|chunks| - 1], chunks[|chunks| - 1];
      var head, tail := Lines(Joined(before)), Lines(Rest(Joined(before)) + last);
      LinesOfTwo(Joined(before), last);
      NoneStaleParts(head, tail);
      FedInLines(before);
      ScanAllExactly(tail, 0);
      EventsConcat(head, tail);
    }
  }

  /** The calls for the lines of a listing one by one, the last included. */
  ghost function LineByLine(s: string): seq<Event> {
    EventsOf(Lines(s) + [Rest(s)])
  }

  /** The calls of a whole scan. */
  ghost function Calls(chunks: seq<string>): seq<Event> {
    Fed(chunks) + Listed(EventOf(Rest(Joined(chunks))))
  }

  lemma LineByLineIs(s: string)
    ensures LineByLine(s) == EventsOf(Lines(s)) + Listed(EventOf(Rest(s)))
  {
    EventsConcat(Lines(s), [Rest(s)]);
    EventsOfOne(Rest(s));
  }

  /** However a listing without stale lines is cut, the calls are those for its lines one by one. */
  lemma ChunksDoNotMatter(chunks: seq<string>)
    requires NoneStale(Lines(Joined(chunks)), 0)
    ensures Calls(chunks) == LineByLine(Joined(chunks))
  {
    FedInLines(chunks);
    LineByLineIs(Joined(chunks));
  }

  lemma OneChunk(s: string)
    ensures Joined([s]) == s && Fed([s]) == ScanAll(Lines(s), 0)
  {
    assert [s][..0] == [];
    assert [] + s == s && Rest([]) + s == s;
  }

  /**
   * Every cut of a listing gives the calls of its lines one by one, exactly when no line that is reported with an oversize
   * size column stands behind a line whose size is stored, the last such size not being 0. The unfinished last line is not
   * among them: the flush starts with 0.
   */
  lemma ChunksDoNotMatterExactly(s: string)
    ensures (forall chunks | Joined(chunks) == s :: Calls(chunks) == LineByLine(s)) <==> NoneStale(Lines(s), 0)
  {
    if NoneStale(Lines(s), 0) {
      forall chunks | Joined(chunks) == s ensures Calls(chunks) == LineByLine(s) {
        ChunksDoNotMatter(chunks);
      }
    } else {
      OneChunk(s);
      ScanAllExactly(Lines(s), 0);
      LineByLineIs(s);
      SameNumber(Lines(s), 0);
      var last := Listed(EventOf(Rest(s)));
      SameParts(ScanAll(Lines(s), 0), last, EventsOf(Lines(s)), last);
      assert Joined([s]) == s && Calls([s]) != LineByLine(s);
    }
  }

  // ---------- a listing and two ways of cutting it ----------

  /** A file's line: key and rights, link count, owner, group, size, month, day, time and name. */
  function FileLine(size: string, name: string): (line: string)
    ensures |line| == |size| + |name| + 35
  {
    "-rw-r--r-- 1 ftp ftp " + size + " Apr 17 12:09 " + name
  }

  // What a column may be made of.
  predicate Word(w: string) {
    w != [] && forall i | 0 <= i < |w| :: Plain(w[i]) && w[i] != ' ' && w[i] != '\n'
  }

  predicate ThreeParts(line: string, first: string, size: string, last: string) {
    && first == "-rw-r--r-- 1 ftp ftp " && last == " Apr 17 12:09 "
    && |line| > 35 + |size|
    && line[..21] == first && line[21..21 + |size|] == size && line[21 + |size|..35 + |size|] == last
  }

  lemma OneMoreRun(line: string, i: nat, j: nat)
    requires 1 <= i < j < |line| && (forall m | i <= m < j :: line[m] != ' ') && line[j] == ' '
    ensures Runs(line, i) == Runs(line, j) && Runs(line, j + 1) == Runs(line, i) + 1
  {
    RunsStay(line, i, j);
  }

  lemma RunsBeforeSize(line: string, first: string, size: string, last: string)
    requires ThreeParts(line, first, size, last)
    ensures Runs(line, 20) == 3 && Runs(line, 21) == 4 && line[20] == ' ' && line[0] == '-'
  {
    assert forall i | 0 <= i < 21 :: line[i] == first[i];
    OneMoreRun(line, 1, 10);
    OneMoreRun(line, 11, 12);
    OneMoreRun(line, 13, 16);
    OneMoreRun(line, 17, 20);
  }

  lemma SizeColumn(line: string, first: string, size: string, last: string)
    requires ThreeParts(line, first, size, last) && Word(size)
    ensures Start(line, 4, 1) == 21 && SizeEnd(line) == 21 + |size| && Runs(line, 22 + |size|) == 5
  {
    RunsBeforeSize(line, first, size, last);
    assert forall i | 0 <= i < |size| :: line[21 + i] == size[i];
    assert line[21 + |size|] == last[0];
    assert InColumn(line, 4, 21);
    if Start(line, 4, 1) < 20 {
      RunsGrow(line, Start(line, 4, 1), 20);
    }
    OneMoreRun(line, 21, 21 + |size|);
  }

  lemma NameColumn(line: string, first: string, size: string, last: string)
    requires ThreeParts(line, first, size, last) && Word(size)
    ensures Runs(line, 35 + |size|) == 8 && line[34 + |size|] == ' '
  {
    var n := 21 + |size|;
    SizeColumn(line, first, size, last);
    assert forall i | n <= i < n + 14 :: line[i] == last[i - n];
    OneMoreRun(line, n + 1, n + 4);
    OneMoreRun(line, n + 5, n + 7);
    OneMoreRun(line, n + 8, n + 13);
  }

  lemma FileLineIs(size: string, name: string)
    requires Word(size) && Word(name)
    ensures var line := FileLine(size, name);
            && ThreeParts(line, "-rw-r--r-- 1 ftp ftp ", size, " Apr 17 12:09 ") && line[35 + |size|..] == name
            && '\n' !in line && PlainUpTo(line, 0) == |line|
  {
    var line := FileLine(size, name);
    var first, last := "-rw-r--r-- 1 ftp ftp ", " Apr 17 12:09 ";
    assert forall i | 0 <= i < |first| :: Plain(first[i]) && first[i] != '\n';
    assert forall i | 0 <= i < |last| :: Plain(last[i]) && last[i] != '\n';
    assert forall i | 0 <= i < |line| :: Plain(line[i]) && line[i] != '\n';
  }

  /** Its scan: reported under its name; its size is read if the column is shorter than 16 characters. */
  lemma FileLineScan(size: string, name: string, before: int)
    requires Word(size) && Word(name) && |size| + |name| >= 15
    ensures var line, left := FileLine(size, name), if |size| < 16 then Atoi(size) else before;
            Scan(line, before) == (Some(Event(File, name, left)), left)
  {
    FileLineColumns(size, name);
    var line := FileLine(size, name);
    Named(line, FILE_KEY, 35 + |size|);
    Unnamed(line, FOLDER_KEY);
  }

  lemma FileLineColumns(size: string, name: string)
    requires Word(size) && Word(name) && |size| + |name| >= 15
    ensures var line := FileLine(size, name);
            && Start(line, 4, 1) == 21 && SizeEnd(line) == 21 + |size| && line[21..21 + |size|] == size
            && NameAt(line, FILE_KEY, 35 + |size|) && line[35 + |size|..] == name && !Keyed(line, FOLDER_KEY)
            && SizeEnd(line) < PlainUpTo(line, 0)
  {
    var line := FileLine(size, name);
    FileLineIs(size, name);
    SizeColumn(line, "-rw-r--r-- 1 ftp ftp ", size, " Apr 17 12:09 ");
    NameColumn(line, "-rw-r--r-- 1 ftp ftp ", size, " Apr 17 12:09 ");
    RunsBeforeSize(line, "-rw-r--r-- 1 ftp ftp ", size, " Apr 17 12:09 ");
    assert line[35 + |size|] == name[0];
  }

  lemma OneLine(a: string, c: string)
    requires '\n' !in a && c == a + "\n"
    ensures Lines(c) == [a] && Rest(c) == []
  {
    LastLine("");
    assert c[..|a|] == a && c[|a| + 1..] == "";
    FirstLine(c, |a|, "");
  }

  lemma TwoLines(a: string, b: string, c: string, d: string)
    requires '\n' !in a && '\n' !in b && c == a + "\n" && d == b + "\n"
    ensures Lines(c + d) == [a, b] && Rest(c + d) == []
  {
    OneLine(b, d);
    assert (c + d)[..|a|] == a && (c + d)[|a| + 1..] == d;
    FirstLine(c + d, |a|, d);
  }

  lemma SmallSize()
    ensures Atoi("3950") == 3950
  {
    assert "3950"[1..] == "950" && "950"[1..] == "50" && "50"[1..] == "0";
    assert Digits("0", 395) == Digits("3950", 0) == 3950;
  }

  lemma SmallLine(size: string, name: string)
    requires size == "3950" && name == "report-1.csv"
    ensures var a := FileLine(size, name); '\n' !in a && Scan(a, 0) == (Some(Event(File, name, 3950)), 3950)
  {
    SmallSize();
    FileLineIs(size, name);
    FileLineScan(size, name, 0);
  }

  lemma LargeLine(size: string, name: string, before: int)
    requires size == "10000000000000000" && name == "report-2.csv"
    ensures var b := FileLine(size, name); '\n' !in b && Scan(b, before).0 == Some(Event(File, name, before))
  {
    FileLineIs(size, name);
    FileLineScan(size, name, before);
  }

  /**
   * A small file and one of ten petabytes: in one chunk the second is reported with the size of the first, in two
   * chunks with 0.
   */
  lemma TwoCutsDiffer(small: string, large: string)
    requires small == FileLine("3950", "report-1.csv") + "\n" && large == FileLine("10000000000000000", "report-2.csv") + "\n"
    ensures Joined([small + large]) == Joined([small, large]) == small + large
    ensures Calls([small + large]) == [Event(File, "report-1.csv", 3950), Event(File, "report-2.csv", 3950)]
    ensures Calls([small, large]) == [Event(File, "report-1.csv", 3950), Event(File, "report-2.csv", 0)]
  {
    var a, b := FileLine("3950", "report-1.csv"), FileLine("10000000000000000", "report-2.csv");
    SmallLine("3950", "report-1.csv");
    LargeLine("10000000000000000", "report-2.csv", 0);
    LargeLine("10000000000000000", "report-2.csv", 3950);
    TwoCuts(a, b, small, large, 3950, Event(File, "report-1.csv", 3950),
            Event(File, "report-2.csv", 3950), Event(File, "report-2.csv", 0));
  }

  lemma TwoCuts(a: string, b: string, c: string, d: string, size: int, first: Event, stale: Event, own: Event)
    requires '\n' !in a && '\n' !in b && c == a + "\n" && d == b + "\n"
    requires Scan(a, 0) == (Some(first), size) && Scan(b, size).0 == Some(stale) && Scan(b, 0).0 == Some(own)
    ensures Joined([c + d]) == Joined([c, d]) == c + d
    ensures Calls([c + d]) == [first, stale] && Calls([c, d]) == [first, own]
  {
    TwoLines(a, b, c, d);
    InOneChunk(a, b, c + d, first, stale, size);
    InTwoChunks(a, b, c, d, first, own, size);
  }

  lemma NothingLeft(chunks: seq<string>)
    requires Rest(Joined(chunks)) == []
    ensures Calls(chunks) == Fed(chunks)
  {
  }

  lemma InOneChunk(a: string, b: string, s: string, first: Event, second: Event, size: int)
    requires Lines(s) == [a, b] && Rest(s) == []
    requires Scan(a, 0) == (Some(first), size) && Scan(b, size).0 == Some(second)
    ensures Joined([s]) == s && Calls([s]) == [first, second]
  {
    OneChunk(s);
    NothingLeft([s]);
    ScanAllOfTwo(a, b);
  }

  lemma InTwoChunks(a: string, b: string, c: string, d: string, first: Event, second: Event, size: int)
    requires c == a + "\n" && '\n' !in a && d == b + "\n" && '\n' !in b && Rest(c + d) == []
    requires Scan(a, 0) == (Some(first), size) && Scan(b, 0).0 == Some(second)
    ensures Joined([c, d]) == c + d && Calls([c, d]) == [first, second]
  {
    TwoChunks(c, d, a);
    OneLine(b, d);
    NothingLeft([c, d]);
    ScanAllOne(a, 0);
    ScanAllOne(b, 0);
  }

  lemma ScanAllOfTwo(a: string, b: string)
    ensures ScanAll([a, b], 0) == Listed(Scan(a, 0).0) + Listed(Scan(b, Scan(a, 0).1).0)
  {
    assert [a] + [b] == [a, b];
    ScanAllFirst(a, [b], 0);
    ScanAllOne(b, Scan(a, 0).1);
  }

  lemma TwoChunks(c: string, d: string, a: string)
    requires c == a + "\n" && '\n' !in a
    ensures Joined([c, d]) == c + d && Fed([c, d]) == ScanAll([a], 0) + ScanAll(Lines(d), 0)
  {
    assert [c, d][..1] == [c];
    OneChunk(c);
    OneLine(a, c);
    assert Rest(c) + d == d;
  }

  /** A whole scan. */
  method ScanFolder(listing: Listing, chunks: seq<string>)
    requires listing.Valid() && listing.buff == [] && LinesFit(Joined(chunks))
    requires forall i | 0 <= i < |chunks| :: '\0' !in chunks[i]
    modifies listing
    ensures listing.Valid() && listing.buff == []
    ensures listing.events == old(listing.events) + Calls(chunks)
  {
    var i := 0;
    ghost var first := listing.events;
    while i < |chunks|
      invariant 0 <= i <= |chunks| && listing.Valid()
      invariant listing.buff == Rest(Joined(chunks[..i])) && listing.events == first + Fed(chunks[..i])
    {
      OneMoreChunk(chunks, i);
      Regroup(first, Fed(chunks[..i]), ScanAll(Lines(listing.buff + chunks[i]), 0));
      listing.Callback(chunks[i]);
      i := i + 1;
    }
    assert chunks[..i] == chunks;
    Regroup(first, Fed(chunks), Listed(EventOf(listing.buff)));
    listing.Flush();
  }

  lemma OneMoreChunk(chunks: seq<string>, i: nat)
    requires i < |chunks| && LinesFit(Joined(chunks))
    ensures var pending := Rest(Joined(chunks[..i])) + chunks[i];
            && LinesFit(pending) && Rest(pending) == Rest(Joined(chunks[..i + 1]))
            && Fed(chunks[..i + 1]) == Fed(chunks[..i]) + ScanAll(Lines(pending), 0)
  {
    assert chunks[..i + 1][..i] == chunks[..i];
    LinesOfTwo(Joined(chunks[..i]), chunks[i]);
    PrefixFits(chunks, i + 1);
    FirstFits(Joined(chunks[..i]), chunks[i]);
  }

  lemma FirstFits(a: string, b: string)
    requires LinesFit(a + b)
    ensures LinesFit(a) && LinesFit(Rest(a) + b)
  {
    LinesOfTwo(a, b);
    var all, head, tail := Lines(a + b), Lines(a), Lines(Rest(a) + b);
    assert forall i | 0 <= i < |head| :: head[i] == all[i];
    assert forall i | 0 <= i < |tail| :: tail[i] == all[|head| + i];
    RestBegins(Rest(a), b);
  }

  // What begins a text without ending a line is no longer than the first line, or all there is.
  lemma RestBegins(a: string, b: string)
    requires '\n' !in a
    ensures Lines(a + b) == [] ==> |a| <= |Rest(a + b)|
    ensures Lines(a + b) != [] ==> |a| <= |Lines(a + b)[0]|
  {
    assert forall j | 0 <= j < |a| :: (a + b)[j] == a[j];
  }

  lemma {:induction false} PrefixFits(chunks: seq<string>, i: nat)
    requires i <= |chunks| && LinesFit(Joined(chunks))
    ensures LinesFit(Joined(chunks[..i]))
    decreases |chunks|
  {
    if i < |chunks| {
      var before := chunks[..|chunks| - 1];
      FirstFits(Joined(before), chunks[|chunks| - 1]);
      PrefixFits(before, i);
      assert before[..i] == chunks[..i];
    } else {
      assert chunks[..i] == chunks;
    }
  }
}
