/** A file as fgets cuts it into lines, and what the loader reads in them. */
module IniLoad {
  import opened Wrappers
  import opened IniText
  import opened IniModel

  const FGETS_LIMIT := 1023

  // ---------- text and lines ----------

  function FirstLine(text: string): (n: nat)
    requires text != []
    ensures 0 < n <= |text| && n <= FGETS_LIMIT
    ensures Line(text[..n])
  {
    var i := First(text, '\n');
    var n := if i < 0 then |text| else i + 1;
    if FGETS_LIMIT < n then FGETS_LIMIT else n
  }

  function SplitLines(text: string): (lines: seq<string>)
    ensures forall l | l in lines :: Line(l)
  {
    if text == [] then []
    else
      var n := FirstLine(text);
      [text[..n]] + SplitLines(text[n..])
  }

  function Join(lines: seq<string>): string {
    if lines == [] then "" else lines[0] + Join(lines[1..])
  }

  predicate Terminated(l: string) {
    l != [] && l[|l| - 1] == '\n'
  }

  // A line that one fgets call returns whole.
  predicate ShortLine(l: string) {
    Line(l) && |l| <= FGETS_LIMIT
  }

  /** Lines that survive being written and read again: short, and only the last may lack its newline. */
  predicate WfLines(lines: seq<string>) {
    forall i | 0 <= i < |lines| :: ShortLine(lines[i]) && (i + 1 < |lines| ==> Terminated(lines[i]))
  }

  lemma FirstLineOfAppend(l: string, text: string)
    requires ShortLine(l) && (Terminated(l) || text == "")
    ensures FirstLine(l + text) == |l|
  {
    var w := l + text;
    assert forall i | 0 <= i < |l| :: w[i] == l[i];
    if Terminated(l) {
      assert w[|l| - 1] == '\n';
      assert First(w, '\n') == |l| - 1;
    }
  }

  lemma SplitAppend(l: string, text: string)
    requires ShortLine(l) && (Terminated(l) || text == "")
    ensures SplitLines(l + text) == [l] + SplitLines(text)
  {
    FirstLineOfAppend(l, text);
    assert (l + text)[..|l|] == l && (l + text)[|l|..] == text;
  }

  lemma WfRest(lines: seq<string>)
    requires WfLines(lines) && lines != []
    ensures WfLines(lines[1..]) && (1 < |lines| ==> lines[1..][|lines| - 2] == lines[|lines| - 1] && Terminated(lines[0]))
  {
  }

  lemma {:induction false} SplitJoinAppend(lines: seq<string>, text: string)
    requires WfLines(lines)
    requires text != "" && lines != [] ==> Terminated(lines[|lines| - 1])
    ensures SplitLines(Join(lines) + text) == lines + SplitLines(text)
  {
    if lines == [] {
      assert Join(lines) + text == text;
    } else {
      var rest := lines[1..];
      WfRest(lines);
      SplitJoinAppend(rest, text);
      if rest == [] {
        assert Join(rest) + text == text;
      }
      JoinFirst(lines, text);
      SplitAppend(lines[0], Join(rest) + text);
      ConsAppend(lines, SplitLines(text));
    }
  }

  lemma JoinFirst(lines: seq<string>, text: string)
    requires lines != []
    ensures Join(lines) + text == lines[0] + (Join(lines[1..]) + text)
  {
  }

  lemma ConsAppend(lines: seq<string>, more: seq<string>)
    requires lines != []
    ensures [lines[0]] + (lines[1..] + more) == lines + more
  {
  }

  /** A line of more than 1023 characters is read in pieces of that length. */
  lemma LongLineIsCut(text: string)
    requires |text| >= 1023 && forall i | 0 <= i < 1023 :: text[i] != '\n'
    ensures SplitLines(text) == [text[..1023]] + SplitLines(text[1023..])
  {
  }

  /** Reading back written lines gives the lines. */
  lemma SplitJoin(lines: seq<string>)
    requires WfLines(lines)
    ensures SplitLines(Join(lines)) == lines
  {
    SplitJoinAppend(lines, "");
    assert Join(lines) + "" == Join(lines);
  }

  lemma {:induction false} JoinSplit(text: string)
    ensures Join(SplitLines(text)) == text
  {
    if text != [] {
      var n := FirstLine(text);
      var rest := SplitLines(text[n..]);
      JoinSplit(text[n..]);
      assert ([text[..n]] + rest)[1..] == rest;
      assert text == text[..n] + text[n..];
    }
  }

  lemma {:induction false} JoinAppend(a: seq<string>, b: seq<string>)
    ensures Join(a + b) == Join(a) + Join(b)
  {
    if a == [] {
      assert a + b == b;
    } else {
      assert (a + b)[1..] == a[1..] + b;
      JoinAppend(a[1..], b);
    }
  }

  // ---------- reading lines ----------

  function Read(line: string): Event {
    match Kind(line)
    case SectionLine =>
      (match ParseName(line)
       case None => Bad
       case Some(n) => Head(n))
    case KeyValueLine =>
      (match ParseKeyValue(line)
       case None => Bad
       case Some(kv) => Pair(kv.0, kv.1))
    case NoteLine => Skip
    case BlankLine => Skip
    case ErrorLine => Bad
  }

  function ReadAll(lines: seq<string>): seq<Event> {
    seq(|lines|, i requires 0 <= i < |lines| => Read(lines[i]))
  }

  /** What the loader makes of a whole file; None is INIFILE_FORMAT_ERROR. */
  function LoadText(m: Ini, text: string): Option<Ini> {
    Load(m, ReadAll(SplitLines(text)))
  }

  lemma ReadAllAppend(a: seq<string>, b: seq<string>)
    ensures ReadAll(a + b) == ReadAll(a) + ReadAll(b)
  {
  }

  /** Loading goes on behind well-formed lines where their own load left off. */
  lemma LoadJoinText(m: Ini, lines: seq<string>, text: string)
    requires WfLines(lines)
    requires text != "" && lines != [] ==> Terminated(lines[|lines| - 1])
    ensures LoadText(m, Join(lines) + text) ==
            match Load(m, ReadAll(lines)) case None => None case Some(m1) => LoadText(m1, text)
  {
    SplitJoinAppend(lines, text);
    ReadAllAppend(lines, SplitLines(text));
    LoadAppend(m, ReadAll(lines), ReadAll(SplitLines(text)));
  }

  lemma LoadLineText(m: Ini, l: string, text: string)
    requires ShortLine(l) && (Terminated(l) || text == "")
    ensures LoadText(m, l + text) == match Step(m, Read(l)) case None => None case Some(m1) => LoadText(m1, text)
  {
    assert Join([l]) == l + Join([]) == l;
    LoadJoinText(m, [l], text);
    assert ReadAll([l]) == [Read(l)];
    assert Load(m, [Read(l)]) == Step(m, Read(l));
  }

  lemma ReadIsClean(line: string)
    requires Line(line)
    ensures CleanEvent(Read(line))
  {
    if Kind(line) == SectionLine && ParseName(line).Some? {
      ParsedNameIsClean(line);
    } else if Kind(line) == KeyValueLine && ParseKeyValue(line).Some? {
      ParsedPairIsClean(line);
    }
  }

  /** Whatever a file holds, a load that succeeds yields clean strings and no duplicates. */
  lemma LoadedIsCleanAndUnique(text: string)
    requires LoadText([], text).Some?
    ensures Clean(LoadText([], text).value) && Unique(LoadText([], text).value)
  {
    var lines := SplitLines(text);
    forall i | 0 <= i < |lines| ensures CleanEvent(ReadAll(lines)[i]) {
      ReadIsClean(lines[i]);
    }
    LoadKeepsCleanAndUnique([], ReadAll(lines));
  }
}
