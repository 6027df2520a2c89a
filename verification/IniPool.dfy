/** The two-half string pool: bump allocation, and the copying that moves linked strings to the other half. */
module IniPool {

  const SIZE := 3072
  const FILES := 2
  const POOL_ERROR := -9
  const POOL_OUT := -10
  const NUL := '\0'

  // ---------- strings in memory ----------

  predicate NulFree(s: string) {
    forall i | 0 <= i < |s| :: s[i] != NUL
  }

  /** The pointer a reads the string s: its characters, then the terminator. */
  predicate Reads(mem: seq<char>, a: int, s: string) {
    && 0 <= a && a + |s| < |mem| && NulFree(s)
    && mem[a + |s|] == NUL
    && forall i | 0 <= i < |s| :: mem[a + i] == s[i]
  }

  predicate Zero(mem: seq<char>, lo: int, hi: int) {
    0 <= lo && hi <= |mem| && forall i | lo <= i < hi :: mem[i] == NUL
  }

  // The bytes of s at a, terminator included, lie in front of lo or from hi on.
  predicate Outside(a: int, s: string, lo: int, hi: int) {
    a + |s| < lo || hi <= a
  }

  predicate Apart(a: int, s: string, b: int, t: string) {
    a + |s| < b || b + |t| < a
  }

  /** mem with s written at a, and no terminator behind it. */
  function Write(mem: seq<char>, a: nat, s: string): (r: seq<char>)
    requires a + |s| <= |mem|
    ensures |r| == |mem|
    ensures forall i | 0 <= i < |mem| :: r[i] == if a <= i < a + |s| then s[i - a] else mem[i]
  {
    mem[..a] + s + mem[a + |s|..]
  }

  /** A copied string is read back exactly when the byte behind it was zero already. */
  lemma CopyReadsExactly(mem: seq<char>, a: nat, s: string)
    requires a + |s| < |mem| && NulFree(s)
    ensures Reads(Write(mem, a, s), a, s) <==> mem[a + |s|] == NUL
  {
  }

  /** Writing leaves every string apart from it as it was. */
  lemma WriteKeeps(mem: seq<char>, a: nat, s: string, b: int, t: string)
    requires a + |s| <= |mem| && Reads(mem, b, t) && (b + |t| < a || a + |s| <= b)
    ensures Reads(Write(mem, a, s), b, t)
  {
  }

  // ---------- room ----------

  /** The bytes the strings take, terminators included. */
  function Total(strs: seq<string>): (n: nat)
    ensures n >= |strs|
  {
    if strs == [] then 0 else Total(strs[..|strs| - 1]) + |strs[|strs| - 1]| + 1
  }

  lemma TotalStep(strs: seq<string>, i: nat)
    requires i < |strs|
    ensures Total(strs[..i + 1]) == Total(strs[..i]) + |strs[i]| + 1
  {
    assert strs[..i + 1][..i] == strs[..i];
  }

  lemma {:induction false} TotalMonotone(strs: seq<string>, i: nat)
    requires i <= |strs|
    ensures Total(strs[..i]) <= Total(strs)
    decreases |strs| - i
  {
    if i < |strs| {
      TotalStep(strs, i);
      TotalMonotone(strs, i + 1);
    } else {
      assert strs[..i] == strs;
    }
  }

  function Range(lo: int, n: nat): (r: set<int>)
    ensures |r| == n
    ensures forall x :: x in r <==> lo <= x < lo + n
  {
    if n == 0 then {} else Range(lo, n - 1) + {lo + n - 1}
  }

  function Bytes(a: int, s: string): set<int> {
    Range(a, |s| + 1)
  }

  function AllBytes(cells: seq<int>, strs: seq<string>): set<int>
    requires |cells| == |strs|
  {
    set i, x | 0 <= i < |cells| && x in Bytes(cells[i], strs[i]) :: x
  }

  predicate Disjoint(cells: seq<int>, strs: seq<string>)
    requires |cells| == |strs|
  {
    forall i, j | 0 <= i < j < |cells| :: Apart(cells[i], strs[i], cells[j], strs[j])
  }

  lemma {:induction false} AllBytesCount(cells: seq<int>, strs: seq<string>)
    requires |cells| == |strs| && Disjoint(cells, strs)
    ensures |AllBytes(cells, strs)| == Total(strs)
    decreases |cells|
  {
    if cells == [] {
      assert AllBytes(cells, strs) == {};
    } else {
      var n := |cells| - 1;
      var front := AllBytes(cells[..n], strs[..n]);
      AllBytesCount(cells[..n], strs[..n]);
      LastBytes(cells, strs);
      assert front !! Bytes(cells[n], strs[n]);
    }
  }

  lemma LastBytes(cells: seq<int>, strs: seq<string>)
    requires |cells| == |strs| > 0
    ensures var n := |cells| - 1;
            AllBytes(cells, strs) == AllBytes(cells[..n], strs[..n]) + Bytes(cells[n], strs[n])
  {
    var n := |cells| - 1;
    var front := AllBytes(cells[..n], strs[..n]);
    forall x | x in front ensures x in AllBytes(cells, strs) {
      var i :| 0 <= i < n && x in Bytes(cells[..n][i], strs[..n][i]);
      assert x in Bytes(cells[i], strs[i]);
    }
    forall x | x in AllBytes(cells, strs) ensures x in front || x in Bytes(cells[n], strs[n]) {
      var i :| 0 <= i < |cells| && x in Bytes(cells[i], strs[i]);
      if i < n {
        assert x in Bytes(cells[..n][i], strs[..n][i]);
      }
    }
  }

  lemma SubsetCount(a: set<int>, b: set<int>)
    requires a <= b
    ensures |a| <= |b|
  {
    assert b == a + (b - a);
  }

  /** Live bytes never exceed the bytes bump-allocated: disjoint strings fit in the interval they lie in. */
  lemma LiveFitsAllocated(cells: seq<int>, strs: seq<string>, lo: int, hi: int)
    requires |cells| == |strs| && Disjoint(cells, strs) && lo <= hi
    requires forall i | 0 <= i < |cells| :: lo <= cells[i] && cells[i] + |strs[i]| < hi
    ensures Total(strs) <= hi - lo
  {
    AllBytesCount(cells, strs);
    var range := Range(lo, hi - lo);
    assert AllBytes(cells, strs) <= range;
    SubsetCount(AllBytes(cells, strs), range);
  }

  // ---------- the pool and the pointers into it ----------

  /** The pointers of a file, in the order the copying loop visits them, are laid out one behind another from at. */
  predicate LaidOut(cells: seq<int>, strs: seq<string>, at: int)
    requires |cells| == |strs|
  {
    forall i | 0 <= i < |cells| :: cells[i] == at + Total(strs[..i])
  }

  // LaidOut for the first n pointers.
  predicate LaidPrefix(cells: seq<int>, strs: seq<string>, at: int, n: int)
    requires |cells| == |strs|
  {
    0 <= n <= |cells| && forall i | 0 <= i < n :: cells[i] == at + Total(strs[..i])
  }

  lemma LaidOutDisjoint(cells: seq<int>, strs: seq<string>, at: int)
    requires |cells| == |strs| && LaidOut(cells, strs, at)
    ensures Disjoint(cells, strs)
    ensures forall i | 0 <= i < |cells| :: at <= cells[i] && cells[i] + |strs[i]| < at + Total(strs)
  {
    forall i, j | 0 <= i < j < |cells| ensures Apart(cells[i], strs[i], cells[j], strs[j]) {
      TotalStep(strs, i);
      TotalMonotone(strs[..j], i + 1);
      assert strs[..j][..i + 1] == strs[..i + 1];
    }
    forall i | 0 <= i < |cells| ensures at <= cells[i] && cells[i] + |strs[i]| < at + Total(strs) {
      TotalStep(strs, i);
      TotalMonotone(strs, i + 1);
    }
  }

  /** Every linked pointer reads its string. */
  predicate Linked(mem: seq<char>, cells: seq<seq<int>>, strs: seq<seq<string>>) {
    && |cells| == |strs| == FILES
    && forall f | 0 <= f < FILES ::
         && |cells[f]| == |strs[f]|
         && forall i | 0 <= i < |cells[f]| :: Reads(mem, cells[f][i], strs[f][i])
  }

  // No linked string touches [lo, hi).
  predicate ClearOf(cells: seq<seq<int>>, strs: seq<seq<string>>, lo: int, hi: int)
    requires |cells| == |strs| == FILES && forall f | 0 <= f < FILES :: |cells[f]| == |strs[f]|
  {
    forall f, i | 0 <= f < FILES && 0 <= i < |cells[f]| :: Outside(cells[f][i], strs[f][i], lo, hi)
  }

  // All linked strings lie in [lo, hi), pairwise apart within their file.
  predicate Within(cells: seq<seq<int>>, strs: seq<seq<string>>, lo: int, hi: int)
    requires |cells| == |strs| == FILES && forall f | 0 <= f < FILES :: |cells[f]| == |strs[f]|
  {
    && (forall f, i | 0 <= f < FILES && 0 <= i < |cells[f]| :: lo <= cells[f][i] && cells[f][i] + |strs[f][i]| < hi)
    && (forall f | 0 <= f < FILES :: Disjoint(cells[f], strs[f]))
  }

  lemma MoveKeepsLinked(mem: seq<char>, cells: seq<seq<int>>, strs: seq<seq<string>>, f: nat, i: nat, a: nat, hi: int)
    requires Linked(mem, cells, strs) && f < FILES && i < |cells[f]|
    requires a + |strs[f][i]| < hi <= |mem| && Zero(mem, a, hi) && ClearOf(cells, strs, a, hi)
    ensures var mem' := Write(mem, a, strs[f][i]);
            var cells' := cells[f := cells[f][i := a]];
            && Linked(mem', cells', strs)
            && ClearOf(cells', strs, a + |strs[f][i]| + 1, hi)
            && Zero(mem', a + |strs[f][i]| + 1, hi)
  {
    var s := strs[f][i];
    var mem' := Write(mem, a, s);
    var cells' := cells[f := cells[f][i := a]];
    CopyReadsExactly(mem, a, s);
    forall g, j | 0 <= g < FILES && 0 <= j < |cells'[g]|
      ensures Reads(mem', cells'[g][j], strs[g][j]) && Outside(cells'[g][j], strs[g][j], a + |s| + 1, hi) {
      if g != f || j != i {
        assert cells'[g][j] == cells[g][j];
        assert Outside(cells[g][j], strs[g][j], a, hi);
        WriteKeeps(mem, a, s, cells[g][j], strs[g][j]);
      }
    }
  }

  function Twice(i: nat, n: int): int {
    if i == 0 then 0 else if i == 1 then n else 2 * n
  }

  /** What the flip has done after i turns of its loop, in a new half that starts at base: file 0, when used, has been
      copied i times and file 1 not at all; otherwise file 1, when used, has been copied in the second turn. */
  predicate Turned(i: nat, p: nat, used: seq<bool>, cells: seq<seq<int>>, before: seq<seq<int>>, strs: seq<seq<string>>,
                   len: int, base: int) {
    && |used| == |strs| == |before| == |cells| == FILES && |cells[0]| == |strs[0]| && |cells[1]| == |strs[1]|
    && if used[0] then
         && p == 0 && len == Twice(i, Total(strs[0])) && cells[1] == before[1]
         && (i > 0 ==> LaidOut(cells[0], strs[0], base + len - Total(strs[0])))
       else
         && p == (if i < 2 || !used[1] then i else 1)
         && len == (if i == 2 && used[1] then Total(strs[1]) else 0)
         && (i == 2 && used[1] ==> LaidOut(cells[1], strs[1], base))
  }

  function Inserted<T>(x: seq<T>, i: nat, e: T): (r: seq<T>)
    requires i <= |x|
    ensures |r| == |x| + 1
    ensures forall j | 0 <= j < |r| :: r[j] == if j < i then x[j] else if j == i then e else x[j - 1]
  {
    x[..i] + [e] + x[i..]
  }

  // One more string, in [lo, hi) and apart from the others, in file f.
  lemma InsertedLinked(mem: seq<char>, cells: seq<seq<int>>, strs: seq<seq<string>>, f: nat, i: nat, at: int, s: string,
                       lo: int, hi: int)
    requires Linked(mem, cells, strs) && Within(cells, strs, lo, hi) && f < FILES && i <= |cells[f]|
    requires Reads(mem, at, s) && lo <= at && at + |s| < hi
    requires forall g, j | 0 <= g < FILES && 0 <= j < |cells[g]| :: Apart(cells[g][j], strs[g][j], at, s)
    ensures var (cs, ss) := (cells[f := Inserted(cells[f], i, at)], strs[f := Inserted(strs[f], i, s)]);
            Linked(mem, cs, ss) && Within(cs, ss, lo, hi) && forall top | hi <= top :: ClearOf(cs, ss, hi, top)
  {
    InsertedApart(cells[f], strs[f], i, at, s);
  }

  lemma InsertedClear(mem: seq<char>, cells: seq<seq<int>>, strs: seq<seq<string>>, f: nat, i: nat, at: int, s: string,
                      lo: int, hi: int)
    requires Linked(mem, cells, strs) && ClearOf(cells, strs, lo, hi) && f < FILES && i <= |cells[f]|
    requires Reads(mem, at, s) && at + |s| < lo
    ensures var (cs, ss) := (cells[f := Inserted(cells[f], i, at)], strs[f := Inserted(strs[f], i, s)]);
            Linked(mem, cs, ss) && ClearOf(cs, ss, lo, hi)
  {
  }

  function Without<T>(x: seq<T>, i: nat): (r: seq<T>)
    requires i < |x|
    ensures |r| == |x| - 1
    ensures forall j | 0 <= j < |r| :: r[j] == if j < i then x[j] else x[j + 1]
  {
    x[..i] + x[i + 1..]
  }

  lemma WithoutLinked(mem: seq<char>, cells: seq<seq<int>>, strs: seq<seq<string>>, f: nat, i: nat, lo: int, hi: int)
    requires Linked(mem, cells, strs) && Within(cells, strs, lo, hi) && f < FILES && i < |cells[f]|
    ensures var (cs, ss) := (cells[f := Without(cells[f], i)], strs[f := Without(strs[f], i)]);
            Linked(mem, cs, ss) && Within(cs, ss, lo, hi) && forall top | hi <= top :: ClearOf(cs, ss, hi, top)
  {
    WithoutApart(cells[f], strs[f], i);
  }

  lemma WithoutApart(cells: seq<int>, strs: seq<string>, i: nat)
    requires |cells| == |strs| && i < |cells| && Disjoint(cells, strs)
    ensures Disjoint(Without(cells, i), Without(strs, i))
  {
  }

  lemma InsertedApart(cells: seq<int>, strs: seq<string>, i: nat, at: int, s: string)
    requires |cells| == |strs| && i <= |cells| && Disjoint(cells, strs)
    requires forall j | 0 <= j < |cells| :: Apart(cells[j], strs[j], at, s)
    ensures Disjoint(Inserted(cells, i, at), Inserted(strs, i, s))
  {
  }

  // ---------- a half that is not zero ----------

  /** mem after the strings have been copied one behind the other from at on, as the copying loop does. */
  function CopiedAll(mem: seq<char>, at: nat, strs: seq<string>): (r: seq<char>)
    requires at + Total(strs) <= |mem|
    ensures |r| == |mem|
  {
    if strs == [] then mem
    else
      var n := |strs| - 1;
      Write(CopiedAll(mem, at, strs[..n]), at + Total(strs[..n]), strs[n])
  }

  // Where string i ends up, and the byte behind it.
  function PlaceOf(at: nat, strs: seq<string>, i: nat): (p: nat)
    requires i < |strs|
    ensures p == at + Total(strs[..i])
  {
    at + Total(strs[..i])
  }

  lemma PlacesInOrder(at: nat, strs: seq<string>, i: nat)
    requires i < |strs|
    ensures PlaceOf(at, strs, i) + |strs[i]| < at + Total(strs)
  {
    TotalStep(strs, i);
    TotalMonotone(strs, i + 1);
  }

  /** Every string is there, and no byte behind one has changed. */
  lemma {:induction false} CopiedBytes(mem: seq<char>, at: nat, strs: seq<string>, i: nat, j: nat)
    requires at + Total(strs) <= |mem| && i < |strs| && j <= |strs[i]|
    ensures PlaceOf(at, strs, i) + j < |mem|
    ensures CopiedAll(mem, at, strs)[PlaceOf(at, strs, i) + j] ==
            if j < |strs[i]| then strs[i][j] else mem[PlaceOf(at, strs, i) + j]
  {
    var first := strs[..|strs| - 1];
    if i < |first| {
      CopiedBytes(mem, at, first, i, j);
      NotInLast(mem, at, strs, first, i, j);
    } else {
      CopiedLast(mem, at, strs, j);
    }
  }

  lemma NotInLast(mem: seq<char>, at: nat, strs: seq<string>, first: seq<string>, i: nat, j: nat)
    requires at + Total(strs) <= |mem| && i + 1 < |strs| && first == strs[..|strs| - 1] && j <= |strs[i]|
    ensures PlaceOf(at, strs, i) == PlaceOf(at, first, i) && PlaceOf(at, strs, i) + j < |mem|
    ensures CopiedAll(mem, at, strs)[PlaceOf(at, strs, i) + j] == CopiedAll(mem, at, first)[PlaceOf(at, strs, i) + j]
  {
    SamePlace(at, strs, first, i);
    LastCopyAt(mem, at, strs, PlaceOf(at, strs, i) + j);
  }

  lemma CopiedLast(mem: seq<char>, at: nat, strs: seq<string>, j: nat)
    requires at + Total(strs) <= |mem| && strs != [] && j <= |strs[|strs| - 1]|
    ensures var i := |strs| - 1;
            && PlaceOf(at, strs, i) + j < |mem|
            && CopiedAll(mem, at, strs)[PlaceOf(at, strs, i) + j]
            == if j < |strs[i]| then strs[i][j] else mem[PlaceOf(at, strs, i) + j]
  {
    var i := |strs| - 1;
    PlacesInOrder(at, strs, i);
    LastCopyAt(mem, at, strs, PlaceOf(at, strs, i) + j);
    if j == |strs[i]| {
      BehindUnchanged(mem, at, strs[..i], PlaceOf(at, strs, i) + j);
    }
  }

  lemma SamePlace(at: nat, strs: seq<string>, first: seq<string>, i: nat)
    requires strs != [] && first == strs[..|strs| - 1] && i < |first|
    ensures PlaceOf(at, strs, i) == PlaceOf(at, first, i) && PlaceOf(at, first, i) + |first[i]| < at + Total(first)
  {
    assert first[..i] == strs[..i];
    PlacesInOrder(at, first, i);
  }

  lemma LastCopyAt(mem: seq<char>, at: nat, strs: seq<string>, p: nat)
    requires at + Total(strs) <= |mem| && strs != [] && p < |mem|
    ensures var n := |strs| - 1;
            var a := at + Total(strs[..n]);
            CopiedAll(mem, at, strs)[p] == if a <= p < a + |strs[n]| then strs[n][p - a] else CopiedAll(mem, at, strs[..n])[p]
  {
    var n := |strs| - 1;
    WriteAt(CopiedAll(mem, at, strs[..n]), at + Total(strs[..n]), strs[n], p);
  }

  lemma WriteAt(mem: seq<char>, a: nat, s: string, p: nat)
    requires a + |s| <= |mem| && p < |mem|
    ensures Write(mem, a, s)[p] == if a <= p < a + |s| then s[p - a] else mem[p]
  {
  }

  lemma {:induction false} BehindUnchanged(mem: seq<char>, at: nat, strs: seq<string>, p: nat)
    requires at + Total(strs) <= p < |mem|
    ensures CopiedAll(mem, at, strs)[p] == mem[p]
  {
    if strs != [] {
      BehindUnchanged(mem, at, strs[..|strs| - 1], p);
    }
  }

  /** Copied into any half, the strings are read back exactly when the byte behind each place was zero already. */
  lemma CopiedReadsExactly(mem: seq<char>, at: nat, strs: seq<string>)
    requires at + Total(strs) <= |mem| && forall i | 0 <= i < |strs| :: NulFree(strs[i])
    ensures forall i | 0 <= i < |strs| :: PlaceOf(at, strs, i) + |strs[i]| < |mem|
    ensures (forall i | 0 <= i < |strs| :: Reads(CopiedAll(mem, at, strs), PlaceOf(at, strs, i), strs[i]))
       <==> (forall i | 0 <= i < |strs| :: mem[PlaceOf(at, strs, i) + |strs[i]|] == NUL)
  {
    forall i | 0 <= i < |strs|
      ensures PlaceOf(at, strs, i) + |strs[i]| < |mem|
      ensures Reads(CopiedAll(mem, at, strs), PlaceOf(at, strs, i), strs[i]) <==> mem[PlaceOf(at, strs, i) + |strs[i]|] == NUL
    {
      CopiedOne(mem, at, strs, i);
    }
  }

  lemma CopiedOne(mem: seq<char>, at: nat, strs: seq<string>, i: nat)
    requires at + Total(strs) <= |mem| && i < |strs| && NulFree(strs[i])
    ensures PlaceOf(at, strs, i) + |strs[i]| < |mem|
    ensures Reads(CopiedAll(mem, at, strs), PlaceOf(at, strs, i), strs[i]) <==> mem[PlaceOf(at, strs, i) + |strs[i]|] == NUL
  {
    var r, p, s := CopiedAll(mem, at, strs), PlaceOf(at, strs, i), strs[i];
    PlacesInOrder(at, strs, i);
    forall j | 0 <= j < |s|
      ensures r[p + j] == s[j]
    {
      CopiedBytes(mem, at, strs, i, j);
    }
    CopiedBytes(mem, at, strs, i, |s|);
  }

  class Pool {
    const mem: array<char>
    var back: bool
    var current: int
    var currLen: int
    var used: seq<bool>
    var cells: seq<seq<int>>
    ghost var strs: seq<seq<string>>

    function Base(): int
      reads this`back
    {
      if back then SIZE else 0
    }

    ghost predicate Sound()
      reads this, mem
    {
      && mem.Length == 2 * SIZE && |used| == FILES
      && Linked(mem[..], cells, strs)
      && (forall f | 0 <= f < FILES && !used[f] :: cells[f] == [])
      && Base() <= current < Base() + SIZE
      && Zero(mem[..], current, Base() + SIZE)
      && ClearOf(cells, strs, current, Base() + SIZE)
    }

    /** All linked strings live in the active half, bump-allocated below current. */
    ghost predicate Compact()
      reads this, mem
    {
      Sound() && Within(cells, strs, Base(), current) && current - Base() <= currLen
    }

    ghost predicate OtherHalfZero()
      reads this, mem
    {
      mem.Length == 2 * SIZE && if back then Zero(mem[..], 0, SIZE) else Zero(mem[..], SIZE, 2 * SIZE)
    }

    constructor ()
      ensures Compact() && OtherHalfZero() && currLen == 0 && fresh(mem)
      ensures used == [false, false] && strs == [[], []] && !back
    {
      mem := new char[2 * SIZE](_ => NUL);
      back, current, currLen := false, 0, 0;
      used, cells, strs := [false, false], [[], []], [[], []];
    }

    method StrIntLen(a: int, ghost s: string) returns (n: nat)
      requires Reads(mem[..], a, s)
      ensures n == |s|
    {
      n := 0;
      ghost var m := mem[..];
      assert forall i | 0 <= i < |s| :: m[a + i] == s[i] && s[i] != NUL;
      while mem[a + n] != NUL
        invariant 0 <= n <= |s| && (n < |s| ==> m[a + n] == s[n] && s[n] != NUL)
        decreases |s| - n
      {
        assert m[a + n] == mem[a + n];
        n := n + 1;
      }
      assert m[a + n] == mem[a + n];
    }

    // memcpy inside the pool; source and target do not overlap.
    method CopyBytes(source: nat, target: nat, n: nat)
      requires source + n <= mem.Length && target + n <= mem.Length
      requires source + n <= target || target + n <= source
      modifies mem
      ensures mem[..] == Write(old(mem[..]), target, old(mem[source..source + n]))
    {
      var i := 0;
      while i < n
        invariant 0 <= i <= n
        invariant forall j | 0 <= j < mem.Length ::
                    mem[j] == if target <= j < target + i then old(mem[source + j - target]) else old(mem[j])
      {
        mem[target + i] := mem[source + i];
        i := i + 1;
      }
    }

    // Room was found for the linked string i of file f: it is copied to current and its pointer moved.
    method MoveString(f: nat, i: nat, len: nat)
      requires Sound() && f < FILES && i < |cells[f]| && len == |strs[f][i]| && current + len + 1 < Base() + SIZE
      modifies this`current, this`cells, mem
      ensures Sound()
      ensures current == old(current) + len + 1 && cells == old(cells)[f := old(cells[f])[i := old(current)]]
    {
      ghost var s := strs[f][i];
      ghost var m := mem[..];
      var source := cells[f][i];
      assert Reads(m, source, s) && Outside(source, s, current, Base() + SIZE);
      MoveKeepsLinked(m, cells, strs, f, i, current, Base() + SIZE);
      assert mem[source..source + len] == s by {
        assert forall j | 0 <= j < |s| :: m[source + j] == s[j];
      }
      CopyBytes(source, current, len);
      cells := cells[f := cells[f][i := current]];
      current := current + len + 1;
    }

    // One string of the copying loop: counted, and copied if it still fits.
    method CopyString(f: nat, i: nat) returns (ret: int)
      requires Sound() && f < FILES && i < |cells[f]| && current == Base() + currLen
      modifies this`current, this`currLen, this`cells, mem
      ensures Sound() && current - Base() <= currLen == old(currLen) + |strs[f][i]| + 1
      ensures ret == if currLen < SIZE then 0 else POOL_ERROR
      ensures ret == 0 ==> current == Base() + currLen && cells == old(cells)[f := old(cells[f])[i := old(current)]]
      ensures ret != 0 ==> cells == old(cells)
    {
      assert Reads(mem[..], cells[f][i], strs[f][i]);
      var len := StrIntLen(cells[f][i], strs[f][i]);
      currLen := currLen + len + 1;
      if currLen >= SIZE {
        return POOL_ERROR;
      }
      MoveString(f, i, len);
      return 0;
    }

    // One turn of the loop below.
    method CopyNext(f: nat, i: nat, ghost at: int) returns (ret: int)
      requires Sound() && f < FILES && i < |cells[f]| && current == Base() + currLen && LaidPrefix(cells[f], strs[f], at, i)
      requires current == at + Total(strs[f][..i])
      modifies this`current, this`currLen, this`cells, mem
      ensures Sound() && current - Base() <= currLen && cells[1 - f] == old(cells[1 - f])
      ensures ret == 0 || ret == POOL_ERROR
      ensures currLen == old(currLen) - Total(strs[f][..i]) + Total(strs[f][..i + 1])
      ensures ret == 0 <==> currLen < SIZE
      ensures currLen <= old(currLen) - Total(strs[f][..i]) + Total(strs[f])
      ensures ret == 0 ==> current == Base() + currLen && LaidPrefix(cells[f], strs[f], at, i + 1)
    {
      TotalStep(strs[f], i);
      TotalMonotone(strs[f], i + 1);
      ret := CopyString(f, i);
    }

    /** The copying of one file's strings, as far as they fit. */
    method CopyFile(f: nat) returns (ret: int)
      requires Sound() && f < FILES && current == Base() + currLen
      modifies this`current, this`currLen, this`cells, mem
      ensures Sound() && current - Base() <= currLen && cells[1 - f] == old(cells[1 - f])
      ensures ret == 0 || ret == POOL_ERROR
      ensures ret == 0 <==> old(currLen) + Total(strs[f]) < SIZE
      ensures ret == POOL_ERROR ==> SIZE <= currLen
      ensures ret == 0 ==> current == Base() + currLen && currLen == old(currLen) + Total(strs[f])
      ensures ret == 0 ==> LaidOut(cells[f], strs[f], old(current))
    {
      var i := 0;
      ghost var at, len0 := current, currLen;
      assert Total(strs[f][..0]) == 0;
      while i < |cells[f]|
        invariant Sound() && 0 <= i <= |cells[f]| && current == Base() + currLen
        invariant cells[1 - f] == old(cells[1 - f])
        invariant currLen == len0 + Total(strs[f][..i]) < SIZE
        invariant LaidPrefix(cells[f], strs[f], at, i)
        decreases |strs[f]| - i
      {
        ret := CopyNext(f, i, at);
        if ret < 0 {
          return;
        }
        i := i + 1;
      }
      assert strs[f][..i] == strs[f];
      return 0;
    }

    // One turn of the loop over files; p moves on only past an unused file.
    method AdjustTurn(p: nat, ghost i: nat, ghost before: seq<seq<int>>) returns (ret: int, next: nat)
      requires Sound() && i < 2 && |before| == FILES && Turned(i, p, used, cells, before, strs, currLen, Base()) && current == Base() + currLen
      requires Total(strs[0]) < SIZE && Total(strs[1]) < SIZE
      modifies this`current, this`currLen, this`cells, mem
      ensures Sound() && current - Base() <= currLen && (ret == 0 || ret == POOL_ERROR)
      ensures ret == POOL_ERROR <==> used[0] && SIZE <= Twice(i + 1, Total(strs[0]))
      ensures ret == POOL_ERROR ==> SIZE <= currLen
      ensures ret == 0 ==> current == Base() + currLen && Turned(i + 1, next, used, cells, before, strs, currLen, Base())
    {
      ret, next := 0, p;
      if !used[p] {
        next := p + 1;
      } else {
        ret := CopyFile(p);
      }
    }

    method StartOtherHalf()
      requires Compact() && OtherHalfZero()
      modifies this`back, this`current, this`currLen
      ensures Sound() && back == !old(back) && current == Base() && currLen == 0
      ensures Total(strs[0]) < SIZE && Total(strs[1]) < SIZE
    {
      RoomInEachFile();
      back := !back;
      current, currLen := Base(), 0;
      FlippedSound();
    }

    /** The flip. Every linked pointer goes on reading its string (strs is not changed, and Sound links it). It fails
        exactly when file 0 is in use and twice its strings do not fit; when it succeeds, everything linked is in the
        new half exactly when file 0 is unused or nothing of file 1 is linked. */
    method IniFileMemoryAdjust() returns (ret: int)
      requires Compact() && OtherHalfZero()
      modifies this`back, this`current, this`currLen, this`cells, mem
      ensures Sound() && current - Base() <= currLen && back == !old(back)
      ensures ret == 0 || ret == POOL_ERROR
      ensures ret == POOL_ERROR <==> used[0] && SIZE <= 2 * Total(strs[0])
      ensures ret == POOL_ERROR ==> SIZE <= currLen
      ensures ret == 0 ==> current == Base() + currLen
      ensures ret == 0 && used[0] ==>
                && currLen == 2 * Total(strs[0])
                && LaidOut(cells[0], strs[0], Base() + Total(strs[0])) && cells[1] == old(cells[1])
      ensures ret == 0 && !used[0] ==>
                && currLen == Total(strs[1]) && LaidOut(cells[1], strs[1], Base())
      ensures ret == 0 ==> (Compact() <==> !used[0] || cells[1] == [])
    {
      ghost var half := Base();
      StartOtherHalf();
      ghost var before := cells;
      var p := 0;
      var i := 0;
      while i < FILES
        invariant back == !old(back) && 0 <= i <= FILES && before == old(cells)
        invariant Sound() && current == Base() + currLen && Turned(i, p, used, cells, before, strs, currLen, Base())
      {
        ret, p := AdjustTurn(p, i, before);
        if ret < 0 {
          return;
        }
        i := i + 1;
      }
      assert !used[0] && !used[1] ==> strs[1] == [];
      AfterFlip(before);
      return 0;
    }

    lemma AfterFlip(before: seq<seq<int>>)
      requires Sound() && current == Base() + currLen && Turned(2, if used[0] then 0 else if used[1] then 1 else 2, used, cells, before, strs, currLen, Base())
      requires |before| == FILES && forall i | 0 <= i < |before[1]| :: Base() != SIZE - Base() <= before[1][i] < 2 * SIZE - Base()
      ensures Compact() <==> !used[0] || cells[1] == []
    {
      if used[0] {
        LaidOutDisjoint(cells[0], strs[0], Base() + Total(strs[0]));
      } else if used[1] {
        LaidOutDisjoint(cells[1], strs[1], Base());
      }
    }

    lemma RoomInEachFile()
      requires Compact()
      ensures forall f | 0 <= f < FILES :: Total(strs[f]) < SIZE
    {
      forall f | 0 <= f < FILES ensures Total(strs[f]) < SIZE {
        LiveFitsAllocated(cells[f], strs[f], Base(), current);
      }
    }

    // Right behind the flip: nothing is allocated in the new half, and every string lies in the old one.
    lemma FlippedSound()
      requires mem.Length == 2 * SIZE && |used| == FILES && Linked(mem[..], cells, strs)
      requires forall f | 0 <= f < FILES && !used[f] :: cells[f] == []
      requires current == Base() && Zero(mem[..], Base(), Base() + SIZE)
      requires Within(cells, strs, SIZE - Base(), 2 * SIZE - Base())
      ensures Sound()
    {
      forall f, i | 0 <= f < FILES && 0 <= i < |cells[f]|
        ensures Outside(cells[f][i], strs[f][i], Base(), Base() + SIZE) {
        assert SIZE - Base() <= cells[f][i] && cells[f][i] + |strs[f][i]| < 2 * SIZE - Base();
      }
    }

    /** What a flip would count: file 0 twice, or file 1 alone. */
    ghost function FlippedLength(): nat
      requires |used| == |strs| == FILES
      reads this
    {
      if used[0] then 2 * Total(strs[0]) else Total(strs[1])
    }

    /** Storing a string: exactly when it succeeds, where it then is, and what it leaves alone. */
    method StorageCharMemory(src: string) returns (ret: int, at: int)
      requires Sound() && current - Base() <= currLen && NulFree(src)
      requires SIZE <= currLen + |src| + 1 ==> Compact() && OtherHalfZero()
      modifies this`back, this`current, this`currLen, this`cells, mem
      ensures Sound() && current - Base() <= currLen
      ensures old(currLen) + |src| + 1 < SIZE ==> ret == 0 && cells == old(cells) && (old(Compact()) ==> Compact())
      ensures old(currLen) + |src| + 1 < SIZE ==> back == old(back) && currLen == old(currLen) + |src| + 1
      ensures old(currLen) + |src| + 1 < SIZE ==> (old(OtherHalfZero()) ==> OtherHalfZero())
      ensures SIZE <= old(currLen) + |src| + 1 ==>
                ret == if used[0] && SIZE <= 2 * Total(strs[0]) then POOL_ERROR
                       else if SIZE <= FlippedLength() + |src| + 1 then POOL_OUT
                       else 0
      ensures SIZE <= old(currLen) + |src| + 1 ==>
                && back == !old(back)
                && (if ret == POOL_ERROR then SIZE <= currLen else currLen == FlippedLength() + |src| + 1)
                && (ret != POOL_ERROR && used[0] ==> cells[1] == old(cells[1]))
      ensures ret == 0 ==> Reads(mem[..], at, src) && Base() <= at && at + |src| < current
      ensures ret == 0 ==> forall f, i | 0 <= f < FILES && 0 <= i < |cells[f]| :: Apart(cells[f][i], strs[f][i], at, src)
    {
      at := 0;
      currLen := currLen + |src| + 1;
      if currLen >= SIZE {
        ret := IniFileMemoryAdjust();
        if ret < 0 {
          return;
        }
        currLen := currLen + |src| + 1;
        if currLen >= SIZE {
          return POOL_OUT, at;
        }
      }
      ret := 0;
      at := Allocate(src);
    }

    // The memcpy of storage_char_memory: src at current, and the terminator that was there before.
    method Allocate(src: string) returns (at: int)
      requires Sound() && NulFree(src) && current + |src| + 1 < Base() + SIZE
      modifies this`current, mem
      ensures Sound() && at == old(current) && current == at + |src| + 1
      ensures old(OtherHalfZero()) ==> OtherHalfZero()
      ensures old(Compact()) && current - Base() <= currLen ==> Compact()
      ensures Reads(mem[..], at, src)
      ensures forall f, i | 0 <= f < FILES && 0 <= i < |cells[f]| :: Apart(cells[f][i], strs[f][i], at, src)
    {
      at := current;
      ghost var m := mem[..];
      CopyReadsExactly(m, at, src);
      forall f, i | 0 <= f < FILES && 0 <= i < |cells[f]|
        ensures Reads(Write(m, at, src), cells[f][i], strs[f][i]) {
        assert Outside(cells[f][i], strs[f][i], current, Base() + SIZE);
        WriteKeeps(m, at, src, cells[f][i], strs[f][i]);
      }
      WriteText(at, src);
      current := current + |src| + 1;
    }

    method WriteText(at: nat, src: string)
      requires at + |src| < mem.Length
      modifies mem
      ensures mem[..] == Write(old(mem[..]), at, src)
    {
      ghost var m := mem[..];
      var i := 0;
      while i < |src|
        invariant 0 <= i <= |src|
        invariant forall j | 0 <= j < mem.Length :: mem[j] == if at <= j < at + i then src[j - at] else m[j]
      {
        mem[at + i] := src[i];
        i := i + 1;
      }
      assert mem[..] == Write(m, at, src);
    }

    /** A file slot is taken into use. */
    method UseFile(f: nat)
      requires Compact() && f < FILES && !used[f]
      modifies this`used
      ensures Compact() && used == old(used)[f := true]
    {
      used := used[f := true];
    }

    /** Linking a stored string in place of an old one keeps the pool compact. */
    method Relink(f: nat, i: nat, at: int, ghost s: string)
      requires Compact() && f < FILES && i < |cells[f]|
      requires Reads(mem[..], at, s) && Base() <= at && at + |s| < current
      requires forall g, j | 0 <= g < FILES && 0 <= j < |cells[g]| :: Apart(cells[g][j], strs[g][j], at, s)
      modifies this`cells, this`strs
      ensures Compact()
      ensures cells == old(cells)[f := old(cells[f])[i := at]] && strs == old(strs)[f := old(strs[f])[i := s]]
    {
      cells := cells[f := cells[f][i := at]];
      strs := strs[f := strs[f][i := s]];
    }

    /** Dropping a pointer keeps the pool compact; its bytes stay allocated. */
    method Unlink(f: nat, i: nat)
      requires Compact() && f < FILES && i < |cells[f]|
      modifies this`cells, this`strs
      ensures Compact()
      ensures cells == old(cells)[f := Without(old(cells)[f], i)] && strs == old(strs)[f := Without(old(strs)[f], i)]
    {
      WithoutLinked(mem[..], cells, strs, f, i, Base(), current);
      cells := cells[f := Without(cells[f], i)];
      strs := strs[f := Without(strs[f], i)];
    }

    /** Linking a stored string as a new one, anywhere in the order of the copying loop, keeps the pool compact. */
    method Link(f: nat, i: nat, at: int, ghost s: string)
      requires Sound() && f < FILES && used[f] && i <= |cells[f]|
      requires Reads(mem[..], at, s) && Base() <= at && at + |s| < current
      requires forall g, j | 0 <= g < FILES && 0 <= j < |cells[g]| :: Apart(cells[g][j], strs[g][j], at, s)
      modifies this`cells, this`strs
      ensures Sound() && (old(Compact()) ==> Compact())
      ensures cells == old(cells)[f := Inserted(old(cells)[f], i, at)] && strs == old(strs)[f := Inserted(old(strs)[f], i, s)]
    {
      InsertedClear(mem[..], cells, strs, f, i, at, s, current, Base() + SIZE);
      if Within(cells, strs, Base(), current) {
        InsertedLinked(mem[..], cells, strs, f, i, at, s, Base(), current);
      }
      cells := cells[f := Inserted(cells[f], i, at)];
      strs := strs[f := Inserted(strs[f], i, s)];
    }
  }

  // ---------- two runs of the pool ----------

  function Letters(n: nat): (s: string)
    ensures |s| == n && NulFree(s)
  {
    seq(n, i => 'a')
  }

  // Nothing has flipped yet.
  ghost predicate Ready(pool: Pool)
    reads pool, pool.mem
  {
    pool.Compact() && pool.OtherHalfZero() && !pool.back
  }

  // A string of n letters is stored and linked behind those of file f.
  method StoreLast(pool: Pool, f: nat, n: nat)
    requires Ready(pool) && f < FILES && pool.used[f] && pool.currLen + n + 1 < SIZE
    modifies pool, pool.mem
    ensures Ready(pool) && pool.currLen == old(pool.currLen) + n + 1 && pool.used == old(pool.used)
    ensures pool.strs == old(pool.strs)[f := old(pool.strs[f]) + [Letters(n)]]
    ensures Total(pool.strs[f]) == Total(old(pool.strs[f])) + n + 1
  {
    var ret, at := pool.StorageCharMemory(Letters(n));
    ghost var strs := pool.strs[f];
    pool.Link(f, |pool.cells[f]|, at, Letters(n));
    assert pool.strs[f] == strs + [Letters(n)];
    assert pool.strs[f][..|strs|] == strs;
  }

  // The last string of file f, n letters, is replaced by n others.
  method StoreAgain(pool: Pool, f: nat, n: nat)
    requires Ready(pool) && f < FILES && pool.currLen + n + 1 < SIZE
    requires pool.strs[f] != [] && pool.strs[f][|pool.strs[f]| - 1] == Letters(n)
    modifies pool, pool.mem
    ensures Ready(pool) && pool.currLen == old(pool.currLen) + n + 1
    ensures pool.used == old(pool.used) && pool.strs == old(pool.strs)
  {
    var ret, at := pool.StorageCharMemory(Letters(n));
    ghost var strs := pool.strs;
    pool.Relink(f, |pool.cells[f]| - 1, at, Letters(n));
    assert pool.strs[f] == strs[f];
  }

  method OpenPool() returns (pool: Pool)
    ensures fresh(pool) && fresh(pool.mem) && Ready(pool) && pool.currLen == 0
    ensures pool.used == [true, false] && pool.strs == [[], []]
  {
    pool := new Pool();
    pool.UseFile(0);
  }

  // Two strings of n letters for file 0.
  method StoreTwo(pool: Pool, n: nat)
    requires Ready(pool) && pool.currLen == 0 && pool.used == [true, false] && pool.strs == [[], []]
    requires 2 * (n + 1) < SIZE
    modifies pool, pool.mem
    ensures Ready(pool) && pool.currLen == 2 * (n + 1) && pool.used == [true, false]
    ensures |pool.strs| == FILES && pool.strs[0] == [Letters(n), Letters(n)] && pool.strs[1] == []
    ensures Total(pool.strs[0]) == 2 * (n + 1)
  {
    StoreLast(pool, 0, n);
    assert pool.strs[0] == [] + [Letters(n)] && pool.strs[1] == [];
    StoreLast(pool, 0, n);
    assert pool.strs[0] == [Letters(n)] + [Letters(n)];
  }

  // 2000 bytes linked, and 3000 allocated.
  method Fill(pool: Pool)
    requires Ready(pool) && pool.currLen == 0 && pool.used == [true, false] && pool.strs == [[], []]
    modifies pool, pool.mem
    ensures Ready(pool) && pool.currLen == 3000 && pool.used == [true, false]
    ensures |pool.strs| == FILES && Total(pool.strs[0]) == 2000 && pool.strs[1] == []
  {
    StoreTwo(pool, 999);
    StoreAgain(pool, 0, 999);
  }

  /**
   * A pool refuses a string although the linked ones and it would fit a half: file 0 is opened, two strings are stored,
   * the second is replaced, and the next one is refused with the pool error.
   */
  method RefusedWithRoom() returns (pool: Pool, ret: int)
    ensures fresh(pool) && pool.Sound()
    ensures ret == POOL_ERROR && Total(pool.strs[0]) + Total(pool.strs[1]) + |Letters(99)| + 1 < SIZE
  {
    pool := OpenPool();
    Fill(pool);
    var at;
    ret, at := pool.StorageCharMemory(Letters(99));
  }

  // Of 3000 bytes allocated 1000 are linked for either file.
  method FillBoth(pool: Pool)
    requires Ready(pool) && pool.currLen == 0 && pool.used == [true, true] && pool.strs == [[], []]
    modifies pool, pool.mem
    ensures Ready(pool) && pool.currLen == 3000 && pool.used == [true, true]
    ensures Total(pool.strs[0]) == 1000 && pool.strs[1] == [Letters(999)]
  {
    StoreLast(pool, 0, 999);
    StoreLast(pool, 1, 999);
    StoreAgain(pool, 1, 999);
    assert [] + [Letters(999)] == [Letters(999)];
  }

  /**
   * A flip that succeeds and leaves file 1 behind: both files are opened and given a string each, file 1's is replaced,
   * and the next string flips the pool. It is stored in the new half; file 1's string stays in the old one.
   */
  method LeavesFileOneBehind() returns (pool: Pool, ret: int)
    ensures fresh(pool) && pool.Sound() && ret == 0 && pool.back
    ensures pool.strs[1] == [Letters(999)] && pool.cells[1][0] + |Letters(999)| < SIZE && !pool.Compact()
  {
    pool := OpenPool();
    pool.UseFile(1);
    FillBoth(pool);
    assert pool.cells[1][0] + |Letters(999)| < pool.current <= SIZE;
    var at;
    ret, at := pool.StorageCharMemory(Letters(99));
    assert pool.cells[1][0] < SIZE == pool.Base();
  }
}
