/** One line of an INI file: how it is classified, what is read out of it, and what is printed. */
module IniText {
  import opened Wrappers

  datatype LineKind = SectionLine | KeyValueLine | NoteLine | BlankLine | ErrorLine

  predicate Blank(c: char) {
    c == ' ' || c == '\t'
  }

  // What is skipped at the end of a value (newline = true) and of a key (newline = false).
  predicate Skipped(c: char, newline: bool) {
    Blank(c) || (newline && c == '\n')
  }

  predicate AllBlank(s: string) {
    forall i | 0 <= i < |s| :: Blank(s[i])
  }

  /** The index of the first c in s, or -1. */
  function First(s: string, c: char): (i: int)
    ensures -1 <= i < |s|
    ensures i == -1 ==> forall j | 0 <= j < |s| :: s[j] != c
    ensures 0 <= i ==> s[i] == c && forall j | 0 <= j < i :: s[j] != c
  {
    FirstFrom(s, c, 0)
  }

  function FirstFrom(s: string, c: char, n: nat): (i: int)
    requires n <= |s|
    ensures i == -1 || n <= i < |s|
    ensures i == -1 ==> forall j | n <= j < |s| :: s[j] != c
    ensures 0 <= i ==> s[i] == c && forall j | n <= j < i :: s[j] != c
    decreases |s| - n
  {
    if n == |s| then -1 else if s[n] == c then n else FirstFrom(s, c, n + 1)
  }

  /** The first position in [lo, hi] that is not a blank of s. */
  function SkipFrom(s: string, lo: nat, hi: nat): (p: nat)
    requires lo <= hi <= |s|
    ensures lo <= p <= hi
    ensures forall i | lo <= i < p :: Blank(s[i])
    ensures p < hi ==> !Blank(s[p])
    decreases hi - lo
  {
    if lo < hi && Blank(s[lo]) then SkipFrom(s, lo + 1, hi) else lo
  }

  /** The position in [lo, hi] left after dropping the skipped characters in front of hi. */
  function BackFrom(s: string, lo: nat, hi: nat, newline: bool): (q: nat)
    requires lo <= hi <= |s|
    ensures lo <= q <= hi
    ensures forall i | q <= i < hi :: Skipped(s[i], newline)
    ensures lo < q ==> !Skipped(s[q - 1], newline)
  {
    if lo < hi && Skipped(s[hi - 1], newline) then BackFrom(s, lo, hi - 1, newline) else hi
  }

  /** Where the text in front of the first ';' ends. */
  function BodyEnd(line: string): (n: nat)
    ensures n <= |line|
  {
    var c := First(line, ';');
    if c < 0 then |line| else c
  }

  /** The kind of a line. All positions that count lie in front of the first ';'. */
  function Kind(line: string): LineKind {
    var stop := BodyEnd(line);
    var p := SkipFrom(line, 0, |line|);
    var b, q, e := First(line, '['), First(line, ']'), First(line, '=');
    if p < |line| && line[p] == '\n' then BlankLine
    else if 0 <= b < stop && 0 <= e < stop then ErrorLine
    else if 0 <= b < stop then
      if 0 <= q < stop && (stop < |line| || b < q) then SectionLine else ErrorLine
    else if 0 <= e < stop then KeyValueLine
    else if stop < |line| && p == stop then NoteLine
    else ErrorLine
  }

  /** Where the key lies in the text in front of the '=' at e. */
  function KeySpan(line: string, e: nat): (nat, nat)
    requires e <= |line|
  {
    var p := SkipFrom(line, 0, e);
    (p, BackFrom(line, p, e, false))
  }

  /** Where the value lies between the '=' at e and stop. */
  function ValueSpan(line: string, e: nat, stop: nat): (nat, nat)
    requires e < stop <= |line|
  {
    var r := SkipFrom(line, e + 1, stop);
    (r, BackFrom(line, r, stop, true))
  }

  function ParseKeyValue(line: string): Option<(string, string)> {
    var e := First(line, '=');
    var stop := BodyEnd(line);
    if e <= 0 || stop <= e then None
    else
      var (p, q) := KeySpan(line, e);
      var (r, t) := ValueSpan(line, e, stop);
      if p == q || r == t then None else Some((line[p..q], line[r..t]))
  }

  function ParseName(line: string): Option<string> {
    var b := First(line, '[');
    var q := First(line, ']');
    if 0 <= b && b + 2 < q then Some(line[b + 1..q]) else None
  }

  // ---------- the scanning loops ----------

  method StrFirstConstChar(str: string, c: char) returns (i: int)
    ensures i == First(str, c)
  {
    i := 0;
    while i < |str|
      invariant 0 <= i <= |str|
      invariant forall j | 0 <= j < i :: str[j] != c
    {
      if str[i] == c {
        return;
      }
      i := i + 1;
    }
    i := -1;
  }

  method SkipBlanks(s: string, lo: nat, hi: nat) returns (p: nat)
    requires lo <= hi <= |s|
    ensures p == SkipFrom(s, lo, hi)
  {
    p := lo;
    while p < hi && Blank(s[p])
      invariant lo <= p <= hi
      invariant forall i | lo <= i < p :: Blank(s[i])
    {
      p := p + 1;
    }
  }

  method SkipBlanksBack(s: string, lo: nat, hi: nat, newline: bool) returns (q: nat)
    requires lo <= hi <= |s|
    ensures q == BackFrom(s, lo, hi, newline)
  {
    q := hi;
    while lo < q && Skipped(s[q - 1], newline)
      invariant lo <= q <= hi
      invariant forall i | q <= i < hi :: Skipped(s[i], newline)
    {
      q := q - 1;
    }
  }

  method ScanName(line: string) returns (name: Option<string>)
    ensures name == ParseName(line)
  {
    var brack := StrFirstConstChar(line, '[');
    var closing := StrFirstConstChar(line, ']');
    if 0 <= brack && 0 <= closing && brack + 1 < closing - 1 {
      return Some(line[brack + 1..closing]);
    }
    return None;
  }

  /** The nested comparisons of judge_ini_file_linetype compute Kind. */
  method JudgeLineKind(line: string) returns (kind: LineKind)
    ensures kind == Kind(line)
  {
    var pp := SkipBlanks(line, 0, |line|);
    if pp < |line| && line[pp] == '\n' {
      return BlankLine;
    }
    var comma := StrFirstConstChar(line, ';');
    var brack := StrFirstConstChar(line, '[');
    var equ := StrFirstConstChar(line, '=');
    if 0 <= comma {
      if 0 <= brack && 0 <= equ {
        if comma < brack && comma < equ {
          kind := NoteOrError(line, pp, comma);
        } else if brack < comma && equ < comma {
          return ErrorLine;
        } else if brack < comma {
          var closing := StrFirstConstChar(line, ']');
          return if 0 <= closing < comma then SectionLine else ErrorLine;
        } else {
          return KeyValueLine;
        }
      } else if 0 <= brack {
        if comma < brack {
          kind := NoteOrError(line, pp, comma);
        } else {
          var closing := StrFirstConstChar(line, ']');
          return if 0 <= closing < comma then SectionLine else ErrorLine;
        }
      } else if 0 <= equ {
        if comma < equ {
          kind := NoteOrError(line, pp, comma);
        } else {
          return KeyValueLine;
        }
      } else {
        kind := NoteOrError(line, pp, comma);
      }
    } else if 0 <= brack && 0 <= equ {
      return ErrorLine;
    } else if 0 <= brack {
      var closing := StrFirstConstChar(line, ']');
      return if 0 <= closing && brack < closing then SectionLine else ErrorLine;
    } else {
      return if 0 <= equ then KeyValueLine else ErrorLine;
    }
  }

  // The loop that walks from the first non-blank to the ';'.
  method NoteOrError(line: string, from: nat, comma: nat) returns (kind: LineKind)
    requires from <= comma < |line|
    requires line[comma] == ';' && forall i | 0 <= i < from :: Blank(line[i])
    ensures kind == if SkipFrom(line, 0, |line|) == comma then NoteLine else ErrorLine
  {
    var pp := from;
    while pp < comma
      invariant from <= pp <= comma
      invariant forall i | 0 <= i < pp :: Blank(line[i])
    {
      if Blank(line[pp]) {
        pp := pp + 1;
      } else {
        return ErrorLine;
      }
    }
    return NoteLine;
  }

  // ---------- facts about the scanners ----------

  lemma InPrefix(s: string, c: char, n: nat)
    requires n <= |s|
    ensures c in s[..n] <==> 0 <= First(s, c) < n
  {
    var i := First(s, c);
    if 0 <= i < n {
      assert s[..n][i] == c;
    }
  }

  /** The same classification as a reading of the text in front of the first ';'. */
  lemma KindReadsBody(line: string)
    requires SkipFrom(line, 0, |line|) < |line| ==> line[SkipFrom(line, 0, |line|)] != '\n'
    ensures var body := line[..BodyEnd(line)];
            && (Kind(line) == KeyValueLine <==> '=' in body && '[' !in body)
            && (Kind(line) == SectionLine <==> '[' in body && '=' !in body && ']' in body &&
                                               (|body| < |line| || First(line, '[') < First(line, ']')))
            && (Kind(line) == NoteLine <==> |body| < |line| && AllBlank(body))
  {
    var stop := BodyEnd(line);
    InPrefix(line, '[', stop);
    InPrefix(line, ']', stop);
    InPrefix(line, '=', stop);
    var body := line[..stop];
    if AllBlank(body) {
      assert forall i | 0 <= i < stop :: Blank(body[i]) && body[i] == line[i];
    }
  }

  // ---------- clean strings, and the printed forms ----------

  predicate Free(s: string, c: char) {
    forall i | 0 <= i < |s| :: s[i] != c
  }

  predicate Trimmed(s: string) {
    s != [] && !Blank(s[0]) && !Blank(s[|s| - 1])
  }

  /** A key the loader can produce. */
  predicate CleanKey(k: string) {
    Trimmed(k) && Free(k, '=') && Free(k, ';') && Free(k, '[') && Free(k, '\n')
  }

  /** A value the loader can produce. */
  predicate CleanValue(v: string) {
    Trimmed(v) && Free(v, ';') && Free(v, '[') && Free(v, '\n')
  }

  /** A section name the loader can produce. */
  predicate CleanName(n: string) {
    2 <= |n| && Free(n, ']') && Free(n, ';') && Free(n, '=') && Free(n, '\n')
  }

  // What may follow a value: blanks and newlines (ws), then nothing or a comment.
  predicate ValueTail(ws: string, comment: string) {
    && (forall i | 0 <= i < |ws| :: Skipped(ws[i], true))
    && (comment == [] || comment[0] == ';')
  }

  // Blanks, a key at [p, q), blanks, the first '=' at e.
  ghost predicate KeyPart(line: string, p: nat, q: nat, e: nat) {
    && p < q <= e < |line| && line[e] == '='
    && !Blank(line[p]) && line[p] != '\n' && !Blank(line[q - 1])
    && (forall i | 0 <= i < e :: line[i] != '=')
    && (forall i | 0 <= i < p :: Blank(line[i]))
    && (forall i | q <= i < e :: Blank(line[i]))
  }

  // Behind the '=' at e: blanks, a value at [r, t), blanks and newlines up to stop.
  ghost predicate ValuePart(line: string, e: nat, r: nat, t: nat, stop: nat) {
    && e < r < t <= stop <= |line|
    && !Blank(line[r]) && !Skipped(line[t - 1], true)
    && (forall i | e < i < r :: Blank(line[i]))
    && (forall i | t <= i < stop :: Skipped(line[i], true))
  }

  // A body without '[' that ends at stop.
  ghost predicate PlainBody(line: string, stop: nat) {
    && stop <= |line| && (stop < |line| ==> line[stop] == ';')
    && (forall i | 0 <= i < stop :: line[i] != ';' && line[i] != '[')
  }

  lemma KeyPartSpan(line: string, p: nat, q: nat, e: nat)
    requires KeyPart(line, p, q, e)
    ensures First(line, '=') == e && KeySpan(line, e) == (p, q)
  {
    assert SkipFrom(line, 0, e) == p;
  }

  lemma ValuePartSpan(line: string, e: nat, r: nat, t: nat, stop: nat)
    requires ValuePart(line, e, r, t, stop)
    ensures ValueSpan(line, e, stop) == (r, t)
  {
    assert SkipFrom(line, e + 1, stop) == r;
  }

  lemma PlainBodyKind(line: string, p: nat, q: nat, e: nat, stop: nat)
    requires KeyPart(line, p, q, e) && PlainBody(line, stop) && e < stop
    ensures BodyEnd(line) == stop && Kind(line) == KeyValueLine
  {
    assert First(line, '=') == e;
    assert BodyEnd(line) == stop;
    assert SkipFrom(line, 0, |line|) == p;
  }

  // line parses as the pair (k, v).
  predicate IsPair(line: string, k: string, v: string) {
    Kind(line) == KeyValueLine && ParseKeyValue(line) == Some((k, v))
  }

  lemma ShapeParses(line: string, p: nat, q: nat, e: nat, r: nat, t: nat, stop: nat)
    requires KeyPart(line, p, q, e) && ValuePart(line, e, r, t, stop) && PlainBody(line, stop)
    ensures IsPair(line, line[p..q], line[r..t])
  {
    KeyPartSpan(line, p, q, e);
    ValuePartSpan(line, e, r, t, stop);
    PlainBodyKind(line, p, q, e, stop);
  }

  lemma KeyPartAppend(line: string, more: string, p: nat, q: nat, e: nat)
    requires KeyPart(line, p, q, e)
    ensures KeyPart(line + more, p, q, e) && (line + more)[p..q] == line[p..q]
  {
  }

  lemma PrintedKeyPart(before: string, k: string, mid: string)
    requires AllBlank(before) && AllBlank(mid) && CleanKey(k)
    ensures var line := before + k + mid + "=";
            var q := |before| + |k|;
            KeyPart(line, |before|, q, q + |mid|) && line[|before|..q] == k
  {
    var line := before + k + mid + "=";
    var p, q := |before|, |before| + |k|;
    assert forall i | 0 <= i < p :: line[i] == before[i];
    assert forall i | p <= i < q :: line[i] == k[i - p];
    assert forall i | q <= i < q + |mid| :: line[i] == mid[i - q];
  }

  lemma PrintedValuePart(left: string, post: string, v: string, ws: string, comment: string)
    requires AllBlank(post) && CleanValue(v) && ValueTail(ws, comment)
    ensures var line := left + "=" + post + v + ws + comment;
            var r, e := |left| + 1 + |post|, |left|;
            ValuePart(line, e, r, r + |v|, r + |v| + |ws|) && line[r..r + |v|] == v
  {
    var line := left + "=" + post + v + ws + comment;
    var e := |left|;
    var r := e + 1 + |post|;
    var t := r + |v|;
    assert forall i | e < i < r :: line[i] == post[i - e - 1];
    assert forall i | r <= i < t :: line[i] == v[i - r];
    assert forall i | t <= i < t + |ws| :: line[i] == ws[i - t];
  }

  lemma FreeAppend(a: string, b: string, c: char)
    ensures Free(a + b, c) <==> Free(a, c) && Free(b, c)
  {
    assert forall i | 0 <= i < |a| :: (a + b)[i] == a[i];
    assert forall i | 0 <= i < |b| :: (a + b)[|a| + i] == b[i];
  }

  lemma FreeBody(before: string, k: string, mid: string, post: string, v: string, ws: string, c: char)
    requires AllBlank(before) && AllBlank(mid) && AllBlank(post) && ValueTail(ws, "")
    requires Free(k, c) && Free(v, c) && c != '=' && !Skipped(c, true)
    ensures Free(before + k + mid + "=" + post + v + ws, c)
  {
    FreeAppend(before, k, c);
    FreeAppend(before + k, mid, c);
    FreeAppend(before + k + mid, "=", c);
    FreeAppend(before + k + mid + "=", post, c);
    FreeAppend(before + k + mid + "=" + post, v, c);
    FreeAppend(before + k + mid + "=" + post + v, ws, c);
  }

  lemma PrintedBody(body: string, comment: string)
    requires Free(body, ';') && Free(body, '[') && (comment == [] || comment[0] == ';')
    ensures PlainBody(body + comment, |body|)
  {
  }

  lemma PrintedKeyPartInLine(before: string, k: string, mid: string, post: string, v: string, ws: string, comment: string)
    requires AllBlank(before) && AllBlank(mid) && CleanKey(k)
    ensures var line := before + k + mid + "=" + post + v + ws + comment;
            var q := |before| + |k|;
            KeyPart(line, |before|, q, q + |mid|) && line[|before|..q] == k
  {
    var left := before + k + mid + "=";
    var p, q, e := |before|, |before| + |k|, |before| + |k| + |mid|;
    PrintedKeyPart(before, k, mid);
    KeyPartAppend(left, post, p, q, e);
    KeyPartAppend(left + post, v, p, q, e);
    KeyPartAppend(left + post + v, ws, p, q, e);
    KeyPartAppend(left + post + v + ws, comment, p, q, e);
  }

  /** Printing is undone by parsing: blanks round the key and the '=', a tail and a comment change nothing. */
  lemma KeyValueRoundTrip(before: string, k: string, mid: string, post: string, v: string, ws: string, comment: string)
    requires AllBlank(before) && AllBlank(mid) && AllBlank(post) && ValueTail(ws, comment)
    requires CleanKey(k) && CleanValue(v)
    ensures IsPair(before + k + mid + "=" + post + v + ws + comment, k, v)
  {
    var line := before + k + mid + "=" + post + v + ws + comment;
    var p, q, e := |before|, |before| + |k|, |before| + |k| + |mid|;
    var r := e + 1 + |post|;
    PrintedKeyPartInLine(before, k, mid, post, v, ws, comment);
    PrintedValuePart(before + k + mid, post, v, ws, comment);
    FreeBody(before, k, mid, post, v, ws, ';');
    FreeBody(before, k, mid, post, v, ws, '[');
    PrintedBody(before + k + mid + "=" + post + v + ws, comment);
    var t := r + |v|;
    assert line[p..q] == k && line[r..t] == v;
    ShapeParses(line, p, q, e, r, t, t + |ws|);
  }

  lemma NameRoundTrip(n: string, tail: string)
    requires CleanName(n)
    requires tail == "" || tail == "\n" || tail[0] == ';'
    ensures var line := "[" + n + "]" + tail;
            Kind(line) == SectionLine && ParseName(line) == Some(n)
  {
    var line := "[" + n + "]" + tail;
    assert forall i | 1 <= i < |n| + 1 :: line[i] == n[i - 1];
    assert line[0] == '[' && line[|n| + 1] == ']';
    assert First(line, '[') == 0;
    assert First(line, ']') == |n| + 1;
    assert |n| + 2 < |line| ==> line[|n| + 2] == tail[0];
    assert line[1..|n| + 1] == n;
  }

  // noted is plain with its newline, if any, replaced by a comment at n.
  predicate Commented(plain: string, noted: string, n: nat) {
    && n <= |plain| <= n + 1 && n < |noted|
    && (forall i | 0 <= i < n :: plain[i] == noted[i] && plain[i] != '\n' && plain[i] != ';')
    && (n < |plain| ==> plain[n] == '\n')
    && noted[n] == ';'
  }

  lemma CommentKeepsKind(plain: string, noted: string, n: nat)
    requires Commented(plain, noted, n)
    requires Kind(plain) == SectionLine || Kind(plain) == KeyValueLine
    ensures Kind(noted) == Kind(plain)
  {
    CommentedPositions(plain, noted, n);
    SamePrefixFirst(plain, noted, n, '=');
    SamePrefixFirst(plain, noted, n, '[');
    SamePrefixFirst(plain, noted, n, ']');
  }

  lemma CommentedPositions(plain: string, noted: string, n: nat)
    requires Commented(plain, noted, n)
    ensures BodyEnd(plain) == |plain| && BodyEnd(noted) == n
    ensures SkipFrom(plain, 0, |plain|) < n ==> SkipFrom(noted, 0, |noted|) == SkipFrom(plain, 0, |plain|)
    ensures SkipFrom(noted, 0, |noted|) <= n
    ensures SkipFrom(plain, 0, |plain|) == n < |plain| ==> Kind(plain) == BlankLine
  {
    assert First(noted, ';') == n;
  }

  lemma CommentKeepsName(plain: string, noted: string, n: nat)
    requires Commented(plain, noted, n) && Kind(plain) == SectionLine
    ensures ParseName(plain).Some? ==> ParseName(noted) == ParseName(plain)
  {
    SamePrefixFirst(plain, noted, n, '[');
    SamePrefixFirst(plain, noted, n, ']');
    var b, q := First(plain, '['), First(plain, ']');
    if 0 <= b && b + 2 < q < n {
      assert plain[b + 1..q] == noted[b + 1..q];
    }
  }

  lemma CommentKeepsPair(plain: string, noted: string, n: nat)
    requires Commented(plain, noted, n)
    ensures ParseKeyValue(noted) == ParseKeyValue(plain)
  {
    CommentedBodies(plain, noted, n);
    SamePrefixFirst(plain, noted, n, '=');
    var e := First(plain, '=');
    if 0 < e < n {
      SameBlanks(plain, noted, e);
      CommentKeepsValue(plain, noted, n, e);
    }
  }

  lemma CommentedBodies(plain: string, noted: string, n: nat)
    requires Commented(plain, noted, n)
    ensures BodyEnd(plain) == |plain| && BodyEnd(noted) == n
  {
    assert First(noted, ';') == n;
  }

  /** Appending a comment in front of the newline of an accepted line changes neither kind nor content. */
  lemma CommentNeutral(l: string, newline: string, comment: string)
    requires Free(l, ';') && Free(l, '\n')
    requires newline == "" || newline == "\n"
    requires Kind(l + newline) == SectionLine || Kind(l + newline) == KeyValueLine
    ensures Kind(l + ";" + comment) == Kind(l + newline)
    ensures ParseKeyValue(l + ";" + comment) == ParseKeyValue(l + newline)
    ensures Kind(l + newline) == SectionLine && ParseName(l + newline).Some? ==>
              ParseName(l + ";" + comment) == ParseName(l + newline)
  {
    assert Commented(l + newline, l + ";" + comment, |l|);
    CommentKeepsKind(l + newline, l + ";" + comment, |l|);
    CommentKeepsPair(l + newline, l + ";" + comment, |l|);
    if Kind(l + newline) == SectionLine {
      CommentKeepsName(l + newline, l + ";" + comment, |l|);
    }
  }

  lemma SamePrefixFirst(a: string, b: string, n: nat, c: char)
    requires n <= |a| && n <= |b| && forall i | 0 <= i < n :: a[i] == b[i]
    ensures 0 <= First(a, c) < n <==> 0 <= First(b, c) < n
    ensures 0 <= First(a, c) < n ==> First(a, c) == First(b, c)
  {
  }

  lemma SameBlanks(a: string, b: string, e: nat)
    requires e <= |a| && e <= |b| && forall i | 0 <= i < e :: a[i] == b[i]
    ensures KeySpan(a, e) == KeySpan(b, e)
    ensures a[KeySpan(a, e).0..KeySpan(a, e).1] == b[KeySpan(a, e).0..KeySpan(a, e).1]
  {
    assert SkipFrom(a, 0, e) == SkipFrom(b, 0, e);
  }

  // plain ends at n or has one newline there; noted continues with a comment.
  lemma CommentKeepsValue(plain: string, noted: string, n: nat, e: nat)
    requires e < n && Commented(plain, noted, n)
    ensures ValueSpan(plain, e, |plain|) == ValueSpan(noted, e, n)
    ensures var (r, t) := ValueSpan(noted, e, n); plain[r..t] == noted[r..t]
  {
    var r := SkipFrom(noted, e + 1, n);
    var t := BackFrom(noted, r, n, true);
    assert SkipFrom(plain, e + 1, |plain|) == r;
    assert plain[r..t] == noted[r..t];
  }

  // Lines as fgets returns them: non-empty, a newline only at the end.
  predicate Line(l: string) {
    l != [] && forall i | 0 <= i < |l| - 1 :: l[i] != '\n'
  }

  lemma SpannedKeyIsClean(line: string)
    requires Line(line) && Kind(line) == KeyValueLine
    requires var (p, q) := KeySpan(line, First(line, '=')); p < q
    ensures var (p, q) := KeySpan(line, First(line, '=')); CleanKey(line[p..q])
  {
    var e := First(line, '=');
    var (p, q) := KeySpan(line, e);
    var k := line[p..q];
    assert forall i | 0 <= i < |k| :: k[i] == line[p + i];
    assert k[0] == line[p] && k[|k| - 1] == line[q - 1];
  }

  lemma SpannedValueIsClean(line: string)
    requires Line(line) && Kind(line) == KeyValueLine
    requires var (r, t) := ValueSpan(line, First(line, '='), BodyEnd(line)); r < t
    ensures var (r, t) := ValueSpan(line, First(line, '='), BodyEnd(line)); CleanValue(line[r..t])
  {
    var (r, t) := ValueSpan(line, First(line, '='), BodyEnd(line));
    var v := line[r..t];
    assert forall i | 0 <= i < |v| :: v[i] == line[r + i];
    assert v[0] == line[r] && v[|v| - 1] == line[t - 1];
  }

  /** Whatever the loader reads out of a line is clean. */
  lemma ParsedPairIsClean(line: string)
    requires Line(line) && Kind(line) == KeyValueLine && ParseKeyValue(line).Some?
    ensures CleanKey(ParseKeyValue(line).value.0) && CleanValue(ParseKeyValue(line).value.1)
  {
    SpannedKeyIsClean(line);
    SpannedValueIsClean(line);
  }

  lemma ParsedNameIsClean(line: string)
    requires Line(line) && Kind(line) == SectionLine && ParseName(line).Some?
    ensures CleanName(ParseName(line).value)
  {
    var b, q := First(line, '['), First(line, ']');
    var n := line[b + 1..q];
    assert forall i | 0 <= i < |n| :: n[i] == line[b + 1 + i];
  }

  /** The clean pairs are exactly the pairs some accepted line yields. */
  lemma CleanPairsAreTheParsedOnes(k: string, v: string)
    ensures CleanKey(k) && CleanValue(v) <==>
            exists line :: Line(line) && Kind(line) == KeyValueLine && ParseKeyValue(line) == Some((k, v))
  {
    if CleanKey(k) && CleanValue(v) {
      var line := KeyValueText(k, v);
      assert line == "" + k + "\t" + "=" + "\t" + v + "\n" + "";
      KeyValueRoundTrip("", k, "\t", "\t", v, "\n", "");
      KeyValueTextIsLine(k, v);
    }
    if line :| Line(line) && Kind(line) == KeyValueLine && ParseKeyValue(line) == Some((k, v)) {
      ParsedPairIsClean(line);
    }
  }

  /** The line an added key is printed as. */
  function KeyValueText(k: string, v: string): string {
    k + "\t=\t" + v + "\n"
  }

  lemma KeyValueTextIsLine(k: string, v: string)
    requires Free(k, '\n') && Free(v, '\n')
    ensures Line(KeyValueText(k, v))
  {
    var line := KeyValueText(k, v);
    assert forall i | 0 <= i < |k| :: line[i] == k[i];
    assert forall i | |k| + 3 <= i < |line| - 1 :: line[i] == v[i - |k| - 3];
    assert line[|k|] == '\t' && line[|k| + 1] == '=' && line[|k| + 2] == '\t';
  }

  // ---------- what is parsed back as it was printed into the index ----------

  /** No blanks round it, and neither '=' nor ';' in it. */
  predicate PlainKey(k: string) {
    Trimmed(k) && Free(k, '=') && Free(k, ';')
  }

  /** No blank in front, no blank or newline at the end, and no ';' in it. */
  predicate PlainValue(v: string) {
    v != [] && !Blank(v[0]) && !Skipped(v[|v| - 1], true) && Free(v, ';')
  }

  /** Two characters, and no ']'. */
  predicate PlainName(n: string) {
    2 <= |n| && Free(n, ']')
  }

  /** The pair an added key is parsed as is the pair given exactly when key and value are plain. */
  lemma PairParsedBackExactly(k: string, v: string)
    ensures ParseKeyValue(k + "=" + v) == Some((k, v)) <==> PlainKey(k) && PlainValue(v)
  {
    var line := k + "=" + v;
    assert forall i | 0 <= i < |k| :: line[i] == k[i];
    assert line[|k|] == '=' && forall i | 0 <= i < |v| :: line[|k| + 1 + i] == v[i];
    if PlainKey(k) && PlainValue(v) {
      PlainPairParses(k, v, line);
    }
    if ParseKeyValue(line) == Some((k, v)) {
      ParsedPairIsPlain(k, v, line);
    }
  }

  predicate PairLineOf(k: string, v: string, line: string) {
    && |line| == |k| + 1 + |v| && line[|k|] == '='
    && (forall i | 0 <= i < |k| :: line[i] == k[i]) && (forall i | 0 <= i < |v| :: line[|k| + 1 + i] == v[i])
  }

  lemma PlainPairParses(k: string, v: string, line: string)
    requires PairLineOf(k, v, line) && PlainKey(k) && PlainValue(v)
    ensures ParseKeyValue(line) == Some((k, v))
  {
    assert forall i | |k| < i < |line| :: line[i] == v[i - |k| - 1];
    assert First(line, '=') == |k| && BodyEnd(line) == |line|;
    assert KeySpan(line, |k|) == (0, |k|);
    assert ValueSpan(line, |k|, |line|) == (|k| + 1, |line|);
    assert line[0..|k|] == k && line[|k| + 1..|line|] == v;
  }

  lemma ParsedPairIsPlain(k: string, v: string, line: string)
    requires PairLineOf(k, v, line) && ParseKeyValue(line) == Some((k, v))
    ensures PlainKey(k) && PlainValue(v)
  {
    var e, stop := First(line, '='), BodyEnd(line);
    assert e <= |k|;
    assert KeySpan(line, e) == (0, |k|);
    assert ValueSpan(line, e, stop) == (|k| + 1, |line|);
    assert forall i | 0 <= i < |v| :: v[i] == line[|k| + 1 + i];
  }

  /** So with a name. */
  lemma NameParsedBackExactly(n: string)
    ensures ParseName("[" + n + "]") == Some(n) <==> PlainName(n)
  {
    var line := "[" + n + "]";
    assert line[0] == '[' && line[|n| + 1] == ']' && forall i | 0 <= i < |n| :: line[i + 1] == n[i];
    assert First(line, '[') == 0;
    var q := First(line, ']');
    assert 1 <= q <= |n| + 1;
    if PlainName(n) {
      assert forall i | 1 <= i <= |n| :: line[i] == n[i - 1];
      assert q == |n| + 1 && line[1..q] == n;
    }
    if ParseName(line) == Some(n) {
      assert |line[1..q]| == q - 1 == |n|;
    }
  }

  // ---------- which lines are accepted, and what they are read as ----------

  // Free of the five signs.
  predicate Signless(s: string) {
    Free(s, '[') && Free(s, ']') && Free(s, '=') && Free(s, ';')
  }

  // What may follow the bracket of a name: no sign that would make another line of it, then nothing or a comment.
  predicate NameTail(post: string, comment: string) {
    Free(post, '=') && Free(post, ';') && (comment == [] || comment[0] == ';')
  }

  /** A name in brackets, with anything but signs in front. */
  predicate HeaderShape(line: string, pre: string, n: string, post: string, comment: string) {
    && line == pre + "[" + n + "]" + post + comment
    && Signless(pre) && Free(pre, '\n') && CleanName(n) && NameTail(post, comment)
  }

  // The same by position: '[' at b, ']' at q, the body up to stop.
  predicate HeaderAtPositions(line: string, b: nat, q: nat, stop: nat) {
    && b + 2 < q < stop <= |line| && line[b] == '[' && line[q] == ']'
    && (forall i | 0 <= i < b :: line[i] != '[' && line[i] != ']' && line[i] != '\n')
    && (forall i | b < i < q :: line[i] != ']' && line[i] != '\n')
    && (forall i | 0 <= i < stop :: line[i] != '=' && line[i] != ';') && (stop < |line| ==> line[stop] == ';')
  }

  lemma ShapeHasPositions(line: string, pre: string, n: string, post: string, comment: string)
    requires HeaderShape(line, pre, n, post, comment)
    ensures var b, q := |pre|, |pre| + 1 + |n|;
            HeaderAtPositions(line, b, q, q + 1 + |post|) && line[b + 1..q] == n
  {
    var b, q := |pre|, |pre| + 1 + |n|;
    assert forall i | 0 <= i < b :: line[i] == pre[i];
    assert forall i | b < i < q :: line[i] == n[i - b - 1];
    assert forall i | q < i < q + 1 + |post| :: line[i] == post[i - q - 1];
    assert line[b] == '[' && line[q] == ']';
  }

  lemma PositionsAreHeader(line: string, b: nat, q: nat, stop: nat)
    requires HeaderAtPositions(line, b, q, stop)
    ensures Kind(line) == SectionLine && ParseName(line) == Some(line[b + 1..q])
  {
    assert First(line, '[') == b && First(line, ']') == q && BodyEnd(line) == stop;
    assert SkipFrom(line, 0, |line|) <= b;
  }

  /** A section line of any shape is read as the name in its brackets. */
  lemma HeaderReadsItsName(line: string, pre: string, n: string, post: string, comment: string)
    requires HeaderShape(line, pre, n, post, comment)
    ensures Kind(line) == SectionLine && ParseName(line) == Some(n)
  {
    ShapeHasPositions(line, pre, n, post, comment);
    PositionsAreHeader(line, |pre|, |pre| + 1 + |n|, |pre| + 2 + |n| + |post|);
  }

  lemma FreePart(line: string, from: nat, to: nat, c: char)
    requires from <= to <= |line| && forall i | from <= i < to :: line[i] != c
    ensures Free(line[from..to], c)
  {
  }

  lemma BlankPart(line: string, from: nat, to: nat)
    requires from <= to <= |line| && forall i | from <= i < to :: Blank(line[i])
    ensures AllBlank(line[from..to])
  {
  }

  lemma AcceptedPositions(line: string)
    requires Line(line) && Kind(line) == SectionLine && ParseName(line).Some?
    ensures var b, q, stop := First(line, '['), First(line, ']'), BodyEnd(line);
            0 <= b && 0 <= q && HeaderAtPositions(line, b, q, stop) && ParseName(line) == Some(line[b + 1..q])
  {
  }

  lemma PositionsHaveShape(line: string, b: nat, q: nat, stop: nat)
    requires HeaderAtPositions(line, b, q, stop)
    ensures HeaderShape(line, line[..b], line[b + 1..q], line[q + 1..stop], line[stop..])
  {
    FreePart(line, 0, b, '[');
    FreePart(line, 0, b, ']');
    FreePart(line, 0, b, '=');
    FreePart(line, 0, b, ';');
    FreePart(line, 0, b, '\n');
    FreePart(line, b + 1, q, ']');
    FreePart(line, b + 1, q, '=');
    FreePart(line, b + 1, q, ';');
    FreePart(line, b + 1, q, '\n');
    FreePart(line, q + 1, stop, '=');
    FreePart(line, q + 1, stop, ';');
    CutAtBrackets(line, b, q, stop);
  }

  lemma CutAtBrackets(line: string, b: nat, q: nat, stop: nat)
    requires b < q < stop <= |line| && line[b] == '[' && line[q] == ']'
    ensures line == line[..b] + "[" + line[b + 1..q] + "]" + line[q + 1..stop] + line[stop..] && line[0..b] == line[..b]
  {
  }

  lemma HeaderHasShape(line: string, n: string)
    requires Line(line) && Kind(line) == SectionLine && ParseName(line) == Some(n)
    ensures exists pre, post, comment :: HeaderShape(line, pre, n, post, comment)
  {
    AcceptedPositions(line);
    PositionsHaveShape(line, First(line, '['), First(line, ']'), BodyEnd(line));
  }

  /** A line as fgets returns it is accepted as the header of n exactly when it has the shape of one. */
  lemma HeadersExactly(line: string, n: string)
    requires Line(line)
    ensures Kind(line) == SectionLine && ParseName(line) == Some(n) <==>
            exists pre, post, comment :: HeaderShape(line, pre, n, post, comment)
  {
    if Kind(line) == SectionLine && ParseName(line) == Some(n) {
      HeaderHasShape(line, n);
    }
    if pre, post, comment :| HeaderShape(line, pre, n, post, comment) {
      HeaderReadsItsName(line, pre, n, post, comment);
    }
  }

  /** A key and a value round '=', with blanks anywhere between, then blanks, a newline or a comment. */
  predicate PairShape(line: string, k: string, v: string, before: string, mid: string, post: string, ws: string, comment: string) {
    && line == before + k + mid + "=" + post + v + ws + comment
    && AllBlank(before) && AllBlank(mid) && AllBlank(post) && CleanKey(k) && CleanValue(v) && ValueTail(ws, comment)
  }

  lemma PairHasShape(line: string)
    requires Line(line) && Kind(line) == KeyValueLine && ParseKeyValue(line).Some?
    ensures var (k, v) := ParseKeyValue(line).value;
            exists before, mid, post, ws, comment :: PairShape(line, k, v, before, mid, post, ws, comment)
  {
    var e, stop := First(line, '='), BodyEnd(line);
    var (p, q) := KeySpan(line, e);
    var (r, t) := ValueSpan(line, e, stop);
    ParsedPairIsClean(line);
    CutAtSpans(line, p, q, e, r, t, stop);
    BlankParts(line, p, q, e, r, t, stop);
    assert PairShape(line, line[p..q], line[r..t], line[..p], line[q..e], line[e + 1..r], line[t..stop], line[stop..]);
  }

  lemma CutAtSpans(line: string, p: nat, q: nat, e: nat, r: nat, t: nat, stop: nat)
    requires p <= q <= e < r <= t <= stop <= |line| && line[e] == '='
    ensures line == line[..p] + line[p..q] + line[q..e] + "=" + line[e + 1..r] + line[r..t] + line[t..stop] + line[stop..]
  {
  }

  lemma BlankParts(line: string, p: nat, q: nat, e: nat, r: nat, t: nat, stop: nat)
    requires 0 < e < stop == BodyEnd(line) && KeySpan(line, e) == (p, q) && ValueSpan(line, e, stop) == (r, t)
    ensures AllBlank(line[..p]) && AllBlank(line[q..e]) && AllBlank(line[e + 1..r]) && ValueTail(line[t..stop], line[stop..])
  {
    BlankPart(line, 0, p);
    BlankPart(line, q, e);
    BlankPart(line, e + 1, r);
    assert line[0..p] == line[..p];
    assert forall i | 0 <= i < stop - t :: line[t..stop][i] == line[t + i];
  }

  /** A line is accepted as the pair of k and v exactly when it has the shape of one. */
  lemma PairsExactly(line: string, k: string, v: string)
    requires Line(line)
    ensures IsPair(line, k, v) <==>
            exists before, mid, post, ws, comment :: PairShape(line, k, v, before, mid, post, ws, comment)
  {
    if IsPair(line, k, v) {
      PairHasShape(line);
    }
    if before, mid, post, ws, comment :| PairShape(line, k, v, before, mid, post, ws, comment) {
      KeyValueRoundTrip(before, k, mid, post, v, ws, comment);
    }
  }

  /** A line is blank exactly when only blanks stand in front of its newline, and a note when only blanks stand in front of a comment. */
  lemma SkippedExactly(line: string)
    ensures Kind(line) == BlankLine <==> exists p :: 0 <= p < |line| && line[p] == '\n' && AllBlank(line[..p])
    ensures Kind(line) == NoteLine <==> exists p :: 0 <= p < |line| && line[p] == ';' && AllBlank(line[..p])
  {
    var s := SkipFrom(line, 0, |line|);
    BlanksInFront(line, s);
    if s < |line| {
      assert AllBlank(line[..s]);
    }
    if p :| 0 <= p < |line| && (line[p] == '\n' || line[p] == ';') && AllBlank(line[..p]) {
      FirstNotBlank(line, p);
    }
  }

  lemma BlanksInFront(line: string, s: nat)
    requires s == SkipFrom(line, 0, |line|)
    ensures AllBlank(line[..s])
    ensures s < |line| && line[s] == ';' ==> First(line, ';') == s
    ensures Kind(line) == NoteLine ==> s < |line| && line[s] == ';'
  {
    assert forall i | 0 <= i < s :: line[..s][i] == line[i];
  }

  lemma FirstNotBlank(line: string, p: nat)
    requires p < |line| && !Blank(line[p]) && AllBlank(line[..p])
    ensures SkipFrom(line, 0, |line|) == p
  {
    assert forall i | 0 <= i < p :: line[..p][i] == line[i];
  }
}
