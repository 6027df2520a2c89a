/** The table of scan results: one record for each address and port, concluding with the least value seen. */
module ResultTable {

  const NONE := -2
  const UNDECIDED := 10
  const SCANS := 6

  datatype Record = Record(ip: string, portno: int, service: string, result: seq<int>, conclusion: int)

  /** A result handed to push_result: of it, only the value at its own scan type is read. */
  datatype Push = Push(ip: string, portno: int, service: string, scan: nat, value: int)

  predicate Fits(p: Push) {
    p.scan < SCANS
  }

  predicate Same(r: Record, p: Push) {
    r.portno == p.portno && r.ip == p.ip
  }

  predicate WfRecord(r: Record) {
    |r.result| == SCANS
  }

  predicate Wf(records: seq<Record>) {
    forall i | 0 <= i < |records| :: WfRecord(records[i])
  }

  /** Where the record of p is, or |records|. */
  function Find(records: seq<Record>, p: Push): (i: nat)
    ensures i <= |records|
    ensures i < |records| ==> Same(records[i], p)
    ensures forall j | 0 <= j < i :: !Same(records[j], p)
  {
    if records == [] || Same(records[0], p) then 0 else 1 + Find(records[1..], p)
  }

  function Min(a: int, b: int): int {
    if a < b then a else b
  }

  // The least of c and the first n values that are not NONE.
  function Least(c: int, values: seq<int>, n: nat): int
    requires n <= |values|
  {
    if n == 0 then c
    else if values[n - 1] == NONE then Least(c, values, n - 1)
    else Min(Least(c, values, n - 1), values[n - 1])
  }

  const Blank := [NONE, NONE, NONE, NONE, NONE, NONE]

  function Fresh(p: Push): (r: Record)
    ensures WfRecord(r)
  {
    Record(p.ip, p.portno, p.service, Blank, UNDECIDED)
  }

  function Updated(r: Record, p: Push): (u: Record)
    requires WfRecord(r) && Fits(p)
    ensures WfRecord(u)
  {
    var result := r.result[p.scan := p.value];
    r.(result := result, conclusion := Least(r.conclusion, result, SCANS))
  }

  /** The table after push_result. */
  function After(records: seq<Record>, p: Push): (r: seq<Record>)
    requires Wf(records) && Fits(p)
    ensures Wf(r)
  {
    var i := Find(records, p);
    if i == |records| then [Updated(Fresh(p), p)] + records
    else records[i := Updated(records[i], p)]
  }

  class Results {
    var records: seq<Record>
    var count: nat

    ghost predicate Valid()
      reads this
    {
      Wf(records) && count == |records|
    }

    constructor ()
      ensures Valid() && records == []
    {
      records, count := [], 0;
    }

    method PushResult(p: Push)
      requires Valid() && Fits(p)
      modifies this
      ensures Valid() && records == After(old(records), p)
    {
      var at := 0;
      while at < |records| && !(records[at].portno == p.portno && records[at].ip == p.ip)
        invariant 0 <= at <= |records|
        invariant Find(records, p) == at + Find(records[at..], p)
      {
        assert records[at..][1..] == records[at + 1..];
        at := at + 1;
      }
      assert Find(records, p) == at;
      if at == |records| {
        records := [Fresh(p)] + records;
        count := count + 1;
        at := 0;
      }
      var result := records[at].result[p.scan := p.value];
      var conclusion := records[at].conclusion;
      var i := 0;
      while i < SCANS
        invariant 0 <= i <= SCANS && conclusion == Least(records[at].conclusion, result, i)
      {
        if result[i] != NONE {
          conclusion := Min(conclusion, result[i]);
        }
        i := i + 1;
      }
      records := records[at := records[at].(result := result, conclusion := conclusion)];
    }
  }

  // ---------- any sequence of pushes ----------

  /** The table after the pushes, the last of the sequence being the latest. */
  function Table(pushes: seq<Push>): (records: seq<Record>)
    requires forall i | 0 <= i < |pushes| :: Fits(pushes[i])
    ensures Wf(records)
  {
    if pushes == [] then [] else After(Table(pushes[..|pushes| - 1]), pushes[|pushes| - 1])
  }

  predicate Alike(p: Push, q: Push) {
    p.ip == q.ip && p.portno == q.portno
  }

  /** The least value, NONE apart, ever pushed for p's address and port, or UNDECIDED if that is less. */
  function LeastPushed(pushes: seq<Push>, p: Push): int {
    if pushes == [] then UNDECIDED
    else
      var q := pushes[|pushes| - 1];
      var before := LeastPushed(pushes[..|pushes| - 1], p);
      if Alike(p, q) && q.value != NONE then Min(before, q.value) else before
  }

  /** The value last pushed for p's address and port under a scan type. */
  function LastPushed(pushes: seq<Push>, p: Push, scan: nat): int {
    if pushes == [] then NONE
    else
      var q := pushes[|pushes| - 1];
      if Alike(p, q) && q.scan == scan then q.value else LastPushed(pushes[..|pushes| - 1], p, scan)
  }

  predicate Seen(pushes: seq<Push>, p: Push) {
    exists i :: 0 <= i < |pushes| && Alike(p, pushes[i])
  }

  // The record holds the last values, none of them below its conclusion, which is the least.
  predicate Sums(r: Record, pushes: seq<Push>, p: Push) {
    && WfRecord(r) && r.conclusion == LeastPushed(pushes, p)
    && (forall s | 0 <= s < 6 :: r.result[s] == LastPushed(pushes, p, s) && (r.result[s] == NONE || r.conclusion <= r.result[s]))
  }

  // Values no less than c leave it; only the one just stored can be.
  lemma {:induction false} LeastStored(c: int, values: seq<int>, scan: nat, n: nat)
    requires scan < |values| && n <= |values|
    requires forall i | 0 <= i < |values| && i != scan && values[i] != NONE :: c <= values[i]
    ensures Least(c, values, n) == if n <= scan || values[scan] == NONE then c else Min(c, values[scan])
  {
    if n > 0 {
      LeastStored(c, values, scan, n - 1);
    }
  }

  lemma {:induction false} FindAlike(records: seq<Record>, p: Push, q: Push)
    requires Alike(p, q)
    ensures Find(records, p) == Find(records, q)
  {
    if records != [] {
      FindAlike(records[1..], p, q);
    }
  }

  // An update of one record, its key kept, moves no other.
  lemma {:induction false} FindUpdated(records: seq<Record>, at: nat, r: Record, p: Push)
    requires at < |records| && r.ip == records[at].ip && r.portno == records[at].portno
    ensures Find(records[at := r], p) == Find(records, p)
  {
    if at == 0 {
      assert records[at := r][1..] == records[1..];
    } else {
      FindUpdated(records[1..], at - 1, r, p);
      assert records[at := r][1..] == records[1..][at - 1 := r];
    }
  }

  // Where p's record is after a push of q.
  lemma FindAfter(records: seq<Record>, p: Push, q: Push)
    requires Wf(records) && Fits(q)
    ensures var (i, at, after) := (Find(records, p), Find(records, q), After(records, q));
            && |after| == |records| + (if at == |records| then 1 else 0)
            && Find(after, p) == (if at < |records| then i else if Alike(p, q) then 0 else i + 1)
            && (at < |records| && Alike(p, q) ==> at == i && after[i] == Updated(records[i], q))
            && (at == |records| && Alike(p, q) ==> i == |records| && after[0] == Updated(Fresh(q), q))
            && (!Alike(p, q) && i < |records| ==> after[Find(after, p)] == records[i])
  {
    var at, after := Find(records, q), After(records, q);
    if Alike(p, q) {
      FindAlike(records, p, q);
    }
    if at < |records| {
      FindUpdated(records, at, Updated(records[at], q), p);
    } else {
      assert after[1..] == records;
    }
  }

  // A record that sums up the pushes before q sums up q too, once updated.
  lemma UpdatedSums(r: Record, before: seq<Push>, q: Push, p: Push)
    requires Sums(r, before, p) && Fits(q) && Alike(p, q)
    ensures Sums(Updated(r, q), before + [q], p)
  {
    LeastStored(r.conclusion, r.result[q.scan := q.value], q.scan, SCANS);
    assert (before + [q])[..|before|] == before;
  }

  lemma {:induction false} FreshSums(q: Push, before: seq<Push>, p: Push)
    requires !Seen(before, p)
    ensures Sums(Fresh(q), before, p)
  {
    if before != [] {
      var first := before[..|before| - 1];
      SeenMore(first, before[|before| - 1], p);
      assert before == first + [before[|before| - 1]];
      FreshSums(q, first, p);
    }
  }

  lemma SeenMore(before: seq<Push>, q: Push, p: Push)
    ensures Seen(before + [q], p) <==> Seen(before, p) || Alike(p, q)
  {
    var after := before + [q];
    assert after[|before|] == q && forall i | 0 <= i < |before| :: after[i] == before[i];
  }

  /**
   * After any pushes there is a record for an address and port exactly when one was pushed; it holds the last values
   * and concludes with the least.
   */
  lemma {:induction false} RecordExactly(pushes: seq<Push>, p: Push)
    requires forall i | 0 <= i < |pushes| :: Fits(pushes[i])
    ensures Find(Table(pushes), p) < |Table(pushes)| <==> Seen(pushes, p)
    ensures Seen(pushes, p) ==> Sums(Table(pushes)[Find(Table(pushes), p)], pushes, p)
  {
    if pushes != [] {
      var before, q := pushes[..|pushes| - 1], pushes[|pushes| - 1];
      assert pushes == before + [q];
      RecordExactly(before, p);
      FindAfter(Table(before), p, q);
      SeenMore(before, q, p);
      RecordFollows(Table(before), before, q, p);
    }
  }

  lemma RecordFollows(records: seq<Record>, before: seq<Push>, q: Push, p: Push)
    requires Wf(records) && Fits(q)
    requires Find(records, p) < |records| <==> Seen(before, p)
    requires Seen(before, p) ==> Sums(records[Find(records, p)], before, p)
    ensures var after := After(records, q);
            Seen(before + [q], p) ==> Find(after, p) < |after| && Sums(after[Find(after, p)], before + [q], p)
  {
    FindAfter(records, p, q);
    SeenMore(before, q, p);
    if Alike(p, q) {
      if Seen(before, p) {
        UpdatedSums(records[Find(records, p)], before, q, p);
      } else {
        FreshSums(q, before, p);
        UpdatedSums(Fresh(q), before, q, p);
      }
    } else if Seen(before, p) {
      OthersSum(records[Find(records, p)], before, q, p);
    }
  }

  lemma OthersSum(r: Record, before: seq<Push>, q: Push, p: Push)
    requires Sums(r, before, p) && !Alike(p, q)
    ensures Sums(r, before + [q], p)
  {
    assert (before + [q])[..|before|] == before;
  }

  // Push i is the first for p's address and port.
  predicate FirstOf(pushes: seq<Push>, p: Push, i: nat) {
    i < |pushes| && Alike(p, pushes[i]) && forall j | 0 <= j < i :: !Alike(p, pushes[j])
  }

  /** A record has the address and port asked for, and keeps the service of the first push for them. */
  lemma {:induction false} KeepsFirstService(pushes: seq<Push>, p: Push) returns (i: nat)
    requires (forall i | 0 <= i < |pushes| :: Fits(pushes[i])) && Seen(pushes, p)
    ensures FirstOf(pushes, p, i) && Find(Table(pushes), p) < |Table(pushes)|
    ensures var r := Table(pushes)[Find(Table(pushes), p)];
            r.ip == p.ip && r.portno == p.portno && r.service == pushes[i].service
  {
    var before, q := pushes[..|pushes| - 1], pushes[|pushes| - 1];
    assert pushes == before + [q];
    RecordExactly(pushes, p);
    RecordExactly(before, p);
    SeenMore(before, q, p);
    FindAfter(Table(before), p, q);
    if Seen(before, p) {
      i := KeepsFirstService(before, p);
      assert forall j | 0 <= j <= i :: pushes[j] == before[j];
    } else {
      i := |before|;
      assert forall j | 0 <= j < i :: pushes[j] == before[j];
    }
  }

  /** No address and port has two records. */
  lemma {:induction false} OneRecordEach(pushes: seq<Push>)
    requires forall i | 0 <= i < |pushes| :: Fits(pushes[i])
    ensures KeysApart(Table(pushes))
  {
    if pushes != [] {
      var before, q := pushes[..|pushes| - 1], pushes[|pushes| - 1];
      OneRecordEach(before);
      KeysStayApart(Table(before), q);
    }
  }

  predicate KeysApart(records: seq<Record>) {
    forall i, j | 0 <= i < j < |records| :: records[i].ip != records[j].ip || records[i].portno != records[j].portno
  }

  lemma KeysStayApart(records: seq<Record>, q: Push)
    requires Wf(records) && Fits(q) && KeysApart(records)
    ensures KeysApart(After(records, q))
  {
    var at, after := Find(records, q), After(records, q);
    if at == |records| {
      assert forall j | 0 < j < |after| :: after[j] == records[j - 1] && !Same(records[j - 1], q);
    } else {
      assert forall j | 0 <= j < |after| :: after[j].ip == records[j].ip && after[j].portno == records[j].portno;
    }
  }

  // LeastPushed is the least of a set of values: below all of them, and one of them.
  predicate Bound(pushes: seq<Push>, p: Push, c: int) {
    c <= 10 && forall i | 0 <= i < |pushes| :: Alike(p, pushes[i]) && pushes[i].value != NONE ==> c <= pushes[i].value
  }

  predicate Reached(pushes: seq<Push>, p: Push, c: int) {
    c == 10 || exists i :: 0 <= i < |pushes| && Alike(p, pushes[i]) && pushes[i].value == c && c != NONE
  }

  lemma {:induction false} LeastIsLeast(pushes: seq<Push>, p: Push)
    ensures Bound(pushes, p, LeastPushed(pushes, p)) && Reached(pushes, p, LeastPushed(pushes, p))
  {
    if pushes != [] {
      var before, q := pushes[..|pushes| - 1], pushes[|pushes| - 1];
      LeastIsLeast(before, p);
      assert forall i | 0 <= i < |before| :: pushes[i] == before[i];
    }
  }

  /** The conclusion of every address and port is the same in whatever order the results come. */
  lemma OrderDoesNotMatter(a: seq<Push>, b: seq<Push>, p: Push)
    requires multiset(a) == multiset(b) && forall i | 0 <= i < |a| :: Fits(a[i])
    ensures (forall i | 0 <= i < |b| :: Fits(b[i])) && (Seen(a, p) <==> Seen(b, p))
    ensures Seen(a, p) ==>
              Find(Table(a), p) < |Table(a)| && Find(Table(b), p) < |Table(b)|
              && Table(a)[Find(Table(a), p)].conclusion == Table(b)[Find(Table(b), p)].conclusion
  {
    SameMembers(a, b);
    SameMembers(b, a);
    RecordExactly(a, p);
    RecordExactly(b, p);
    LeastIsLeast(a, p);
    LeastIsLeast(b, p);
  }

  lemma SameMembers(a: seq<Push>, b: seq<Push>)
    requires multiset(a) == multiset(b)
    ensures forall i | 0 <= i < |b| :: b[i] in a
  {
    forall i | 0 <= i < |b|
      ensures b[i] in a
    {
      assert b[i] in multiset(b);
    }
  }
}
