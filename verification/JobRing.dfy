/** The job queue of the thread pool: a bounded ring, two semaphores, any number of producers and workers. */
module JobRing {
  import opened Wrappers

  datatype Job = Null | Job(id: int)

  /** Where a thread is; t is the running number of the index it has taken. Used: it has filled, or run, its slot. */
  datatype Phase = Idle | Ticket | Hold(t: nat, slot: nat) | Used(t: nat, slot: nat) | Cleared(t: nat, slot: nat)

  datatype Queue = Queue(
    free: nat,
    valid: nat,
    push: nat,
    pop: nat,
    producers: seq<Phase>,
    workers: seq<Phase>,
    slots: seq<Job>,
    // how often the two indices have moved, the job filled in under each number, and the job run under it
    pushed: nat,
    popped: nat,
    jobs: map<nat, Job>,
    ran: map<nat, Job>)

  datatype Action =
    | WaitFree(i: nat)
    | TakeFree(i: nat)
    | Fill(i: nat, job: Job)
    | PostValid(i: nat)
    | WaitValid(i: nat)
    | TakeValid(i: nat)
    | RunJob(i: nat)
    | Clear(i: nat)
    | PostFree(i: nat)

  /** The state after frame_threadpool_init, with its threads idle; the slots hold whatever the allocated memory held. */
  function Start(memory: seq<Job>, producers: nat): (s: Queue)
    requires |memory| > 0
    ensures Shape(s)
  {
    Queue(|memory|, 0, 0, 0, seq(producers, i => Idle), seq(|memory|, i => Idle), memory, 0, 0, map[], map[])
  }

  predicate Has(p: Phase) {
    p.Hold? || p.Used? || p.Cleared?
  }

  predicate Shape(s: Queue) {
    && |s.slots| > 0 && s.push < |s.slots| && s.pop < |s.slots|
    && (forall i | 0 <= i < |s.producers| :: Has(s.producers[i]) ==> s.producers[i].slot < |s.slots|)
    && (forall i | 0 <= i < |s.workers| :: Has(s.workers[i]) ==> s.workers[i].slot < |s.slots|)
  }

  predicate OfProducer(a: Action) {
    a.WaitFree? || a.TakeFree? || a.Fill? || a.PostValid?
  }

  predicate Enabled(s: Queue, a: Action) {
    && a.i < (if OfProducer(a) then |s.producers| else |s.workers|)
    && match a {
         case WaitFree(i) => s.producers[i].Idle? && s.free > 0
         case TakeFree(i) => s.producers[i].Ticket?
         case Fill(i, _) => s.producers[i].Hold?
         case PostValid(i) => s.producers[i].Used?
         case WaitValid(i) => s.workers[i].Idle? && s.valid > 0
         case TakeValid(i) => s.workers[i].Ticket?
         case RunJob(i) => s.workers[i].Hold?
         case Clear(i) => s.workers[i].Used?
         case PostFree(i) => s.workers[i].Cleared?
       }
  }

  function Wrap(i: nat, size: nat): nat {
    if i + 1 == size then 0 else i + 1
  }

  /** A wrapping index after n moves. */
  function At(n: nat, size: nat): (i: nat)
    requires size > 0
    ensures i < size
  {
    if n == 0 then 0 else Wrap(At(n - 1, size), size)
  }

  lemma {:induction false} AtAhead(n: nat, k: nat, size: nat)
    requires k <= size && size > 0
    ensures At(n + k, size) == At(n, size) + k - if At(n, size) + k < size then 0 else size
  {
    if k > 0 {
      AtAhead(n, k - 1, size);
    }
  }

  /** Within one round an index names one number. */
  lemma SameSlot(t: nat, u: nat, size: nat)
    requires size > 0 && t <= u < t + size && At(t, size) == At(u, size)
    ensures t == u
  {
    AtAhead(t, u - t, size);
  }

  function Next(s: Queue, a: Action): (s': Queue)
    requires Shape(s) && Enabled(s, a)
    ensures Shape(s')
  {
    match a {
      case WaitFree(i) => s.(free := s.free - 1, producers := s.producers[i := Ticket])
      case TakeFree(i) =>
        s.(push := Wrap(s.push, |s.slots|), pushed := s.pushed + 1, producers := s.producers[i := Hold(s.pushed, s.push)])
      case Fill(i, job) =>
        var p := s.producers[i];
        s.(slots := s.slots[p.slot := job], jobs := s.jobs[p.t := job], producers := s.producers[i := Used(p.t, p.slot)])
      case PostValid(i) => s.(valid := s.valid + 1, producers := s.producers[i := Idle])
      case WaitValid(i) => s.(valid := s.valid - 1, workers := s.workers[i := Ticket])
      case TakeValid(i) =>
        s.(pop := Wrap(s.pop, |s.slots|), popped := s.popped + 1, workers := s.workers[i := Hold(s.popped, s.pop)])
      case RunJob(i) =>
        var w := s.workers[i];
        s.(ran := s.ran[w.t := s.slots[w.slot]], workers := s.workers[i := Used(w.t, w.slot)])
      case Clear(i) =>
        var w := s.workers[i];
        s.(slots := s.slots[w.slot := Null], workers := s.workers[i := Cleared(w.t, w.slot)])
      case PostFree(i) => s.(free := s.free + 1, workers := s.workers[i := Idle])
    }
  }

  // ---------- counting, for any number of threads ----------

  function Tickets(ps: seq<Phase>): nat {
    if ps == [] then 0 else (if ps[0].Ticket? then 1 else 0) + Tickets(ps[1..])
  }

  function Held(ps: seq<Phase>): nat {
    if ps == [] then 0 else (if Has(ps[0]) then 1 else 0) + Held(ps[1..])
  }

  lemma {:induction false} OneChanges(ps: seq<Phase>, i: nat, p: Phase)
    requires i < |ps|
    ensures Tickets(ps[i := p]) == Tickets(ps) - (if ps[i].Ticket? then 1 else 0) + if p.Ticket? then 1 else 0
    ensures Held(ps[i := p]) == Held(ps) - (if Has(ps[i]) then 1 else 0) + if Has(p) then 1 else 0
  {
    if i == 0 {
      assert ps[i := p][1..] == ps[1..];
    } else {
      OneChanges(ps[1..], i - 1, p);
      assert ps[i := p][1..] == ps[1..][i - 1 := p];
    }
  }

  // Numbers posted to the workers, and numbers released by them.
  function Given(s: Queue): int {
    s.pushed - Held(s.producers)
  }

  function Released(s: Queue): int {
    s.popped - Held(s.workers)
  }

  predicate Counts(s: Queue) {
    && s.valid + Tickets(s.workers) == Given(s) - s.popped
    && s.free + Tickets(s.producers) == |s.slots| + Released(s) - s.pushed
    && Released(s) >= 0
  }

  predicate Placed(ps: seq<Phase>, size: nat)
    requires size > 0
  {
    forall i | 0 <= i < |ps| && Has(ps[i]) :: ps[i].slot == At(ps[i].t, size)
  }

  predicate Indices(s: Queue)
    requires Shape(s)
  {
    && s.push == At(s.pushed, |s.slots|) && s.pop == At(s.popped, |s.slots|)
    && Placed(s.producers, |s.slots|) && Placed(s.workers, |s.slots|)
  }

  lemma CountsKept(s: Queue, a: Action)
    requires Shape(s) && Enabled(s, a) && Counts(s)
    ensures Counts(Next(s, a))
  {
    if OfProducer(a) {
      OneChanges(s.producers, a.i, Next(s, a).producers[a.i]);
    } else {
      OneChanges(s.workers, a.i, Next(s, a).workers[a.i]);
    }
  }

  lemma IndicesKept(s: Queue, a: Action)
    requires Shape(s) && Enabled(s, a) && Indices(s)
    ensures Indices(Next(s, a))
  {
  }

  // ---------- order, when both kinds of thread post in the order of their numbers ----------

  /** If a posts, then the lowest number any of its kind holds. */
  predicate InOrder(s: Queue, a: Action)
    requires Enabled(s, a)
  {
    match a {
      case PostValid(i) => forall j | 0 <= j < |s.producers| && Has(s.producers[j]) :: s.producers[i].t <= s.producers[j].t
      case PostFree(_) => ReleasesLowest(s, a)
      case _ => true
    }
  }

  predicate ReleasesLowest(s: Queue, a: Action)
    requires Enabled(s, a) && a.PostFree?
  {
    forall j | 0 <= j < |s.workers| && Has(s.workers[j]) :: s.workers[a.i].t <= s.workers[j].t
  }

  predicate InHands(ps: seq<Phase>, n: int) {
    exists i :: 0 <= i < |ps| && Has(ps[i]) && ps[i].t == n
  }

  // The numbers held are those between low and high, each in one hand.
  predicate Hands(ps: seq<Phase>, low: int, high: int) {
    && (forall n | low <= n < high :: InHands(ps, n))
    && (forall i | 0 <= i < |ps| && Has(ps[i]) :: low <= ps[i].t < high)
    && (forall i, j | 0 <= i < j < |ps| && Has(ps[i]) && Has(ps[j]) :: ps[i].t != ps[j].t)
  }

  // Number t has been cleared by a worker that has not posted yet.
  predicate IsCleared(s: Queue, t: nat) {
    exists i :: 0 <= i < |s.workers| && s.workers[i].Cleared? && s.workers[i].t == t
  }

  // Number t's job is in its slot.
  predicate Stored(s: Queue, t: nat)
    requires |s.slots| > 0
  {
    t in s.jobs && s.slots[At(t, |s.slots|)] == s.jobs[t]
  }

  predicate Contents(s: Queue)
    requires Shape(s)
  {
    && (forall t | Released(s) <= t < Given(s) && 0 <= t :: IsCleared(s, t) || Stored(s, t))
    && (forall i | 0 <= i < |s.producers| && s.producers[i].Used? :: Stored(s, s.producers[i].t))
  }

  // What has been run, and that each number was run as the job filled in under it.
  predicate RanRight(s: Queue) {
    && (forall t | t in s.ran :: t < s.popped && t in s.jobs && s.ran[t] == s.jobs[t])
    && (forall t | 0 <= t < Released(s) :: t in s.ran)
    && (forall i | 0 <= i < |s.workers| :: s.workers[i].Hold? ==> s.workers[i].t !in s.ran)
    && (forall i | 0 <= i < |s.workers| :: s.workers[i].Used? || s.workers[i].Cleared? ==> s.workers[i].t in s.ran)
  }

  predicate Fifo(s: Queue) {
    && Shape(s) && Counts(s) && Indices(s)
    && Hands(s.producers, Given(s), s.pushed) && Hands(s.workers, Released(s), s.popped)
    && Contents(s) && RanRight(s)
  }

  /** The window: at most a ringful of numbers between the oldest not released and the newest taken. */
  lemma Window(s: Queue)
    requires Counts(s)
    ensures 0 <= Released(s) <= s.popped <= Given(s) <= s.pushed <= Released(s) + |s.slots|
    ensures s.free + s.valid + (Tickets(s.producers) + Held(s.producers)) + (Tickets(s.workers) + Held(s.workers)) == |s.slots|
  {
  }

  lemma StillInHands(ps: seq<Phase>, i: nat, p: Phase)
    requires i < |ps|
    ensures forall n {:trigger InHands(ps[i := p], n)} | InHands(ps, n) && (Has(ps[i]) && ps[i].t == n ==> Has(p) && p.t == n) ::
              InHands(ps[i := p], n)
  {
    forall n | InHands(ps, n) && (Has(ps[i]) && ps[i].t == n ==> Has(p) && p.t == n)
      ensures InHands(ps[i := p], n)
    {
      var j :| 0 <= j < |ps| && Has(ps[j]) && ps[j].t == n;
      assert Has(ps[i := p][j]) && ps[i := p][j].t == n;
    }
  }

  lemma HandsTake(ps: seq<Phase>, i: nat, slot: nat, low: int, high: nat)
    requires Hands(ps, low, high) && i < |ps| && low <= high && !Has(ps[i])
    ensures Hands(ps[i := Hold(high, slot)], low, high + 1)
  {
    var after := ps[i := Hold(high, slot)];
    assert Has(after[i]) && after[i].t == high;
    StillInHands(ps, i, Hold(high, slot));
  }

  lemma HandsStay(ps: seq<Phase>, i: nat, p: Phase, low: int, high: nat)
    requires Hands(ps, low, high) && i < |ps| && (if Has(p) then Has(ps[i]) && p.t == ps[i].t else !Has(ps[i]))
    ensures Hands(ps[i := p], low, high)
  {
    StillInHands(ps, i, p);
  }

  lemma PostsLowest(ps: seq<Phase>, i: nat, low: int, high: nat)
    requires Hands(ps, low, high) && i < |ps| && Has(ps[i])
    requires forall j | 0 <= j < |ps| && Has(ps[j]) :: ps[i].t <= ps[j].t
    ensures ps[i].t == low
  {
    assert InHands(ps, low);
  }

  lemma HandsPost(ps: seq<Phase>, i: nat, low: int, high: nat)
    requires Hands(ps, low, high) && i < |ps| && Has(ps[i])
    requires forall j | 0 <= j < |ps| && Has(ps[j]) :: ps[i].t <= ps[j].t
    ensures Hands(ps[i := Idle], low + 1, high)
  {
    PostsLowest(ps, i, low, high);
    StillInHands(ps, i, Idle);
  }

  lemma ProducerHandsKept(s: Queue, a: Action)
    requires Shape(s) && Counts(s) && Enabled(s, a) && InOrder(s, a) && OfProducer(a)
    requires Hands(s.producers, Given(s), s.pushed)
    ensures Hands(Next(s, a).producers, Given(Next(s, a)), Next(s, a).pushed)
  {
    var ps, p' := s.producers, Next(s, a).producers[a.i];
    OneChanges(ps, a.i, p');
    Window(s);
    match a {
      case TakeFree(i) => HandsTake(ps, i, s.push, Given(s), s.pushed);
      case PostValid(i) => HandsPost(ps, i, Given(s), s.pushed);
      case _ => HandsStay(ps, a.i, p', Given(s), s.pushed);
    }
  }

  lemma WorkerHandsKept(s: Queue, a: Action)
    requires Shape(s) && Counts(s) && Enabled(s, a) && InOrder(s, a) && !OfProducer(a)
    requires Hands(s.workers, Released(s), s.popped)
    ensures Hands(Next(s, a).workers, Released(Next(s, a)), Next(s, a).popped)
  {
    var ps, p' := s.workers, Next(s, a).workers[a.i];
    OneChanges(ps, a.i, p');
    Window(s);
    match a {
      case TakeValid(i) => HandsTake(ps, i, s.pop, Released(s), s.popped);
      case PostFree(i) => HandsPost(ps, i, Released(s), s.popped);
      case _ => HandsStay(ps, a.i, p', Released(s), s.popped);
    }
  }

  lemma HandsKept(s: Queue, a: Action)
    requires Shape(s) && Counts(s) && Enabled(s, a) && InOrder(s, a)
    requires Hands(s.producers, Given(s), s.pushed) && Hands(s.workers, Released(s), s.popped)
    ensures var s' := Next(s, a);
            Hands(s'.producers, Given(s'), s'.pushed) && Hands(s'.workers, Released(s'), s'.popped)
  {
    if OfProducer(a) {
      ProducerHandsKept(s, a);
    } else {
      WorkerHandsKept(s, a);
    }
  }

  // A slot is written only under its own number: the others of the window keep their jobs.
  lemma OthersKeepTheirSlots(size: nat, low: nat, n: nat, t: nat)
    requires size > 0 && low <= n < low + size && low <= t < low + size && t != n
    ensures At(t, size) != At(n, size)
  {
    if At(t, size) == At(n, size) {
      SameSlot(if t < n then t else n, if t < n then n else t, size);
    }
  }

  lemma ContentsKeptByFill(s: Queue, a: Action)
    requires Fifo(s) && Enabled(s, a) && a.Fill?
    ensures Contents(Next(s, a))
  {
    var s', p := Next(s, a), s.producers[a.i];
    OneChanges(s.producers, a.i, s'.producers[a.i]);
    Window(s);
    var low := Released(s);
    assert low <= p.t < low + |s.slots|;
    forall t: nat | low <= t < low + |s.slots| && t != p.t && Stored(s, t)
      ensures Stored(s', t)
    {
      OthersKeepTheirSlots(|s.slots|, low, p.t, t);
    }
    assert Stored(s', p.t);
    forall t: nat | low <= t < Given(s)
      ensures IsCleared(s', t) || Stored(s', t)
    {
      assert s'.workers == s.workers;
      assert IsCleared(s, t) ==> IsCleared(s', t);
    }
  }

  lemma ContentsKeptByClear(s: Queue, a: Action)
    requires Fifo(s) && Enabled(s, a) && a.Clear?
    ensures Contents(Next(s, a))
  {
    var s', w := Next(s, a), s.workers[a.i];
    OneChanges(s.workers, a.i, s'.workers[a.i]);
    Window(s);
    var low := Released(s);
    assert low <= w.t < low + |s.slots|;
    forall t: nat | low <= t < low + |s.slots| && t != w.t && Stored(s, t)
      ensures Stored(s', t)
    {
      OthersKeepTheirSlots(|s.slots|, low, w.t, t);
    }
    assert s'.workers[a.i].Cleared? && s'.workers[a.i].t == w.t;
    forall t: nat | low <= t < Given(s)
      ensures IsCleared(s', t) || Stored(s', t)
    {
      if IsCleared(s, t) {
        var i :| 0 <= i < |s.workers| && s.workers[i].Cleared? && s.workers[i].t == t;
        assert s'.workers[i] == s.workers[i];
      }
    }
  }

  lemma ContentsKeptByPostValid(s: Queue, a: Action)
    requires Fifo(s) && Enabled(s, a) && InOrder(s, a) && a.PostValid?
    ensures Contents(Next(s, a))
  {
    var s' := Next(s, a);
    OneChanges(s.producers, a.i, Idle);
    PostsLowest(s.producers, a.i, Given(s), s.pushed);
    assert Given(s') == Given(s) + 1 && Released(s') == Released(s);
    assert Stored(s, s.producers[a.i].t);
    forall t: nat | Released(s) <= t < Given(s')
      ensures IsCleared(s', t) || Stored(s', t)
    {
      assert IsCleared(s, t) ==> IsCleared(s', t);
      assert Stored(s, t) ==> Stored(s', t);
    }
  }

  // The steps that write no slot and post nothing to the workers.
  lemma ContentsKeptByOthers(s: Queue, a: Action)
    requires Fifo(s) && Enabled(s, a) && InOrder(s, a) && !a.Fill? && !a.Clear? && !a.PostValid?
    ensures Contents(Next(s, a))
  {
    var s' := Next(s, a);
    OthersStore(s, a);
    if OfProducer(a) {
      OneChanges(s.producers, a.i, s'.producers[a.i]);
      assert s'.workers == s.workers;
      assert forall t | IsCleared(s, t) :: IsCleared(s', t);
    } else {
      OneChanges(s.workers, a.i, s'.workers[a.i]);
      ClearedUntilReleased(s, a);
    }
    assert Given(s') == Given(s) && Released(s') >= Released(s);
  }

  lemma OthersStore(s: Queue, a: Action)
    requires Shape(s) && Enabled(s, a) && !a.Fill? && !a.Clear? && !a.PostValid?
    ensures forall t: nat | Stored(s, t) :: Stored(Next(s, a), t)
    ensures forall i | 0 <= i < |s.producers| && Next(s, a).producers[i].Used? :: s.producers[i] == Next(s, a).producers[i]
  {
  }

  lemma ClearedUntilReleased(s: Queue, a: Action)
    requires Shape(s) && Enabled(s, a) && InOrder(s, a) && !OfProducer(a)
    requires Hands(s.workers, Released(s), s.popped)
    ensures forall t | IsCleared(s, t) && (a.PostFree? ==> t != Released(s)) :: IsCleared(Next(s, a), t)
  {
    if a.PostFree? {
      PostsLowest(s.workers, a.i, Released(s), s.popped);
    }
    forall t | IsCleared(s, t) && (a.PostFree? ==> t != Released(s))
      ensures IsCleared(Next(s, a), t)
    {
      var i :| 0 <= i < |s.workers| && s.workers[i].Cleared? && s.workers[i].t == t;
      assert Next(s, a).workers[i] == s.workers[i];
    }
  }

  lemma ContentsKept(s: Queue, a: Action)
    requires Fifo(s) && Enabled(s, a) && InOrder(s, a)
    ensures Contents(Next(s, a))
  {
    match a {
      case Fill(_, _) => ContentsKeptByFill(s, a);
      case Clear(_) => ContentsKeptByClear(s, a);
      case PostValid(_) => ContentsKeptByPostValid(s, a);
      case _ => ContentsKeptByOthers(s, a);
    }
  }

  lemma RunsItsJob(s: Queue, i: nat)
    requires Fifo(s) && i < |s.workers| && s.workers[i].Hold?
    ensures Stored(s, s.workers[i].t) && s.slots[s.workers[i].slot] == s.jobs[s.workers[i].t]
  {
    var t := s.workers[i].t;
    Window(s);
    assert Released(s) <= t < Given(s);
    assert !IsCleared(s, t);
  }

  lemma RanRightKept(s: Queue, a: Action)
    requires Fifo(s) && Enabled(s, a) && InOrder(s, a)
    ensures RanRight(Next(s, a))
  {
    var s' := Next(s, a);
    Window(s);
    if OfProducer(a) {
      RanRightKeptByProducer(s, a);
    } else {
      OneChanges(s.workers, a.i, s'.workers[a.i]);
      RanRightKeptByWorker(s, a);
    }
  }

  lemma RanRightKeptByProducer(s: Queue, a: Action)
    requires Fifo(s) && Enabled(s, a) && OfProducer(a)
    ensures RanRight(Next(s, a))
  {
    Window(s);
    if a.Fill? {
      assert s.producers[a.i].t >= s.popped;
    }
  }

  lemma RanRightKeptByWorker(s: Queue, a: Action)
    requires Fifo(s) && Enabled(s, a) && InOrder(s, a) && !OfProducer(a)
    requires Released(Next(s, a)) == Released(s) + if a.PostFree? then 1 else 0
    ensures RanRight(Next(s, a))
  {
    var s' := Next(s, a);
    if a.RunJob? {
      RunsItsJob(s, a.i);
    } else if a.PostFree? {
      PostsLowest(s.workers, a.i, Released(s), s.popped);
    }
  }

  lemma FifoKept(s: Queue, a: Action)
    requires Fifo(s) && Enabled(s, a) && InOrder(s, a)
    ensures Fifo(Next(s, a))
  {
    CountsKept(s, a);
    IndicesKept(s, a);
    HandsKept(s, a);
    ContentsKept(s, a);
    RanRightKept(s, a);
  }

  // ---------- every run ----------

  /** The state after a run, if each of its steps could be taken. */
  function Run(memory: seq<Job>, producers: nat, run: seq<Action>): (s: Option<Queue>)
    requires |memory| > 0
    ensures s.Some? ==> Shape(s.value)
  {
    if run == [] then Some(Start(memory, producers))
    else
      var before := Run(memory, producers, run[..|run| - 1]);
      if before.Some? && Enabled(before.value, run[|run| - 1])
      then Some(Next(before.value, run[|run| - 1]))
      else None
  }

  lemma {:induction false} NoneHeld(ps: seq<Phase>)
    requires forall i | 0 <= i < |ps| :: ps[i] == Idle
    ensures Tickets(ps) == Held(ps) == 0
  {
    if ps != [] {
      NoneHeld(ps[1..]);
    }
  }

  /**
   * Any number of threads, any interleaving: the two semaphores and the threads at work are the ring's size together,
   * and the pop index is behind the push index by no more than the ring's size.
   */
  lemma {:induction false} CountsEveryRun(memory: seq<Job>, producers: nat, run: seq<Action>)
    requires |memory| > 0 && Run(memory, producers, run).Some?
    ensures var s := Run(memory, producers, run).value;
            && |s.slots| == |memory| && Counts(s) && Indices(s)
            && s.free + s.valid + (Tickets(s.producers) + Held(s.producers)) + (Tickets(s.workers) + Held(s.workers)) == |memory|
            && 0 <= s.pushed - s.popped <= |memory|
  {
    var s := Run(memory, producers, run).value;
    if run == [] {
      NoneHeld(s.producers);
      NoneHeld(s.workers);
    } else {
      var first, a := run[..|run| - 1], run[|run| - 1];
      CountsEveryRun(memory, producers, first);
      CountsKept(Run(memory, producers, first).value, a);
      IndicesKept(Run(memory, producers, first).value, a);
    }
    Window(s);
  }

  /** Every step posts the lowest number held. */
  predicate Ordered(memory: seq<Job>, producers: nat, run: seq<Action>)
    requires |memory| > 0
  {
    run == [] || (
      var before := Run(memory, producers, run[..|run| - 1]);
      && Ordered(memory, producers, run[..|run| - 1])
      && (before.Some? && Enabled(before.value, run[|run| - 1]) ==> InOrder(before.value, run[|run| - 1])))
  }

  lemma {:induction false} FifoEveryRun(memory: seq<Job>, producers: nat, run: seq<Action>)
    requires |memory| > 0 && Run(memory, producers, run).Some? && Ordered(memory, producers, run)
    ensures Fifo(Run(memory, producers, run).value)
  {
    var s := Run(memory, producers, run).value;
    if run == [] {
      NoneHeld(s.producers);
      NoneHeld(s.workers);
    } else {
      var first, a := run[..|run| - 1], run[|run| - 1];
      FifoEveryRun(memory, producers, first);
      FifoKept(Run(memory, producers, first).value, a);
    }
  }

  /**
   * In an ordered run the n-th job taken is the n-th filled in, it is run once, and every released slot's job has been run;
   * a worker about to run finds its job still in the slot.
   */
  lemma JobsRunInOrder(memory: seq<Job>, producers: nat, run: seq<Action>)
    requires |memory| > 0 && Run(memory, producers, run).Some? && Ordered(memory, producers, run)
    ensures var s := Run(memory, producers, run).value;
            && (forall t | t in s.ran :: t in s.jobs && s.ran[t] == s.jobs[t])
            && (forall t | 0 <= t < Released(s) :: t in s.ran)
            && (forall i | 0 <= i < |s.workers| && s.workers[i].Hold? ::
                  && s.workers[i].t !in s.ran
                  && s.workers[i].t in s.jobs && s.slots[s.workers[i].slot] == s.jobs[s.workers[i].t])
  {
    FifoEveryRun(memory, producers, run);
    var s := Run(memory, producers, run).value;
    forall i | 0 <= i < |s.workers| && s.workers[i].Hold?
      ensures s.workers[i].t in s.jobs && s.slots[s.workers[i].slot] == s.jobs[s.workers[i].t]
    {
      RunsItsJob(s, i);
    }
  }

  lemma {:induction false} ThreadsStay(memory: seq<Job>, producers: nat, run: seq<Action>)
    requires |memory| > 0 && Run(memory, producers, run).Some?
    ensures |Run(memory, producers, run).value.producers| == producers && |Run(memory, producers, run).value.workers| == |memory|
  {
    if run != [] {
      ThreadsStay(memory, producers, run[..|run| - 1]);
    }
  }

  /** Every release is of the lowest number a worker holds. */
  predicate ReleasedInOrder(memory: seq<Job>, producers: nat, run: seq<Action>)
    requires |memory| > 0
  {
    run == [] || (
      var before, a := Run(memory, producers, run[..|run| - 1]), run[|run| - 1];
      && ReleasedInOrder(memory, producers, run[..|run| - 1])
      && (before.Some? && Enabled(before.value, a) && a.PostFree? ==> ReleasesLowest(before.value, a)))
  }

  lemma OneProducerIsInOrder(s: Queue, a: Action)
    requires Enabled(s, a) && |s.producers| == 1 && (a.PostFree? ==> ReleasesLowest(s, a))
    ensures InOrder(s, a)
  {
  }

  /** With one producer the workers' releases alone decide. */
  lemma {:induction false} OneProducerIsOrdered(memory: seq<Job>, run: seq<Action>)
    requires |memory| > 0 && Run(memory, 1, run).Some? && ReleasedInOrder(memory, 1, run)
    ensures Ordered(memory, 1, run)
  {
    if run != [] {
      OneProducerIsOrdered(memory, run[..|run| - 1]);
      ThreadsStay(memory, 1, run[..|run| - 1]);
      OneProducerIsInOrder(Run(memory, 1, run[..|run| - 1]).value, run[|run| - 1]);
    }
  }

  /** So does a single worker. */
  lemma {:induction false} OneWorkerReleasesInOrder(memory: seq<Job>, producers: nat, run: seq<Action>)
    requires |memory| == 1 && Run(memory, producers, run).Some?
    ensures ReleasedInOrder(memory, producers, run)
  {
    if run != [] {
      OneWorkerReleasesInOrder(memory, producers, run[..|run| - 1]);
      ThreadsStay(memory, producers, run[..|run| - 1]);
      OneWorkerReleasesLowest(Run(memory, producers, run[..|run| - 1]).value, run[|run| - 1]);
    }
  }

  lemma OneWorkerReleasesLowest(s: Queue, a: Action)
    requires Enabled(s, a) && |s.workers| == 1
    ensures a.PostFree? ==> ReleasesLowest(s, a)
  {
  }

  // ---------- a ring of one slot ----------

  lemma {:induction false} OneHeld(ps: seq<Phase>, i: nat)
    requires i < |ps| && Has(ps[i])
    ensures Held(ps) >= 1
  {
    if i > 0 {
      OneHeld(ps[1..], i - 1);
    }
  }

  lemma {:induction false} TwoHeld(ps: seq<Phase>, i: nat, j: nat)
    requires i < j < |ps| && Has(ps[i]) && Has(ps[j])
    ensures Held(ps) >= 2
  {
    if i > 0 {
      TwoHeld(ps[1..], i - 1, j - 1);
    } else {
      OneHeld(ps[1..], j - 1);
    }
  }

  lemma OnlyOneHeld(ps: seq<Phase>, i: nat, j: nat)
    requires i < |ps| && j < |ps| && Has(ps[i]) && Has(ps[j]) && Held(ps) <= 1
    ensures i == j
  {
    if i < j {
      TwoHeld(ps, i, j);
    } else if j < i {
      TwoHeld(ps, j, i);
    }
  }

  lemma OneHandIsInOrder(s: Queue, a: Action)
    requires Enabled(s, a) && Held(s.producers) <= 1 && Held(s.workers) <= 1
    ensures InOrder(s, a)
  {
    match a {
      case PostValid(i) =>
        forall j | 0 <= j < |s.producers| && Has(s.producers[j]) ensures j == i {
          OnlyOneHeld(s.producers, i, j);
        }
      case PostFree(i) =>
        forall j | 0 <= j < |s.workers| && Has(s.workers[j]) ensures j == i {
          OnlyOneHeld(s.workers, i, j);
        }
      case _ =>
    }
  }

  /** With one slot there is one hand at a time, whatever the number of producers. */
  lemma {:induction false} OneSlotIsOrdered(memory: seq<Job>, producers: nat, run: seq<Action>)
    requires |memory| == 1 && Run(memory, producers, run).Some?
    ensures Ordered(memory, producers, run)
  {
    if run != [] {
      var first := run[..|run| - 1];
      OneSlotIsOrdered(memory, producers, first);
      CountsEveryRun(memory, producers, first);
      OneHandIsInOrder(Run(memory, producers, first).value, run[|run| - 1]);
    }
  }

  // ---------- out of order ----------

  lemma OneMore(memory: seq<Job>, producers: nat, run: seq<Action>, a: Action)
    requires |memory| > 0 && Run(memory, producers, run).Some? && Enabled(Run(memory, producers, run).value, a)
    ensures Run(memory, producers, run + [a]) == Some(Next(Run(memory, producers, run).value, a))
  {
    assert (run + [a])[..|run|] == run;
  }

  // Producer 0 takes an index.
  lemma TakeSlot(memory: seq<Job>, producers: nat, run: seq<Action>) returns (more: seq<Action>)
    requires |memory| > 0 && Run(memory, producers, run).Some?
    requires var s := Run(memory, producers, run).value; |s.producers| > 0 && s.producers[0] == Idle && s.free > 0
    ensures var s := Run(memory, producers, run).value;
            Run(memory, producers, more) == Some(
              s.(free := s.free - 1, push := Wrap(s.push, |s.slots|), pushed := s.pushed + 1,
                 producers := s.producers[0 := Hold(s.pushed, s.push)]))
  {
    var s := Run(memory, producers, run).value;
    more := run;
    OneMore(memory, producers, more, WaitFree(0));
    more := more + [WaitFree(0)];
    OneMore(memory, producers, more, TakeFree(0));
    more := more + [TakeFree(0)];
    assert s.producers[0 := Ticket][0 := Hold(s.pushed, s.push)] == s.producers[0 := Hold(s.pushed, s.push)];
  }

  /** Producer 0 submits a job. */
  lemma Submit(memory: seq<Job>, producers: nat, run: seq<Action>, job: Job) returns (more: seq<Action>)
    requires |memory| > 0 && Run(memory, producers, run).Some?
    requires var s := Run(memory, producers, run).value; |s.producers| > 0 && s.producers[0] == Idle && s.free > 0
    ensures var s := Run(memory, producers, run).value;
            Run(memory, producers, more) == Some(
              s.(free := s.free - 1, valid := s.valid + 1, push := Wrap(s.push, |s.slots|), pushed := s.pushed + 1,
                 slots := s.slots[s.push := job], jobs := s.jobs[s.pushed := job]))
  {
    var s := Run(memory, producers, run).value;
    more := TakeSlot(memory, producers, run);
    OneMore(memory, producers, more, Fill(0, job));
    more := more + [Fill(0, job)];
    OneMore(memory, producers, more, PostValid(0));
    more := more + [PostValid(0)];
    assert s.producers[0 := Hold(s.pushed, s.push)][0 := Used(s.pushed, s.push)][0 := Idle] == s.producers;
  }

  /** Worker i takes an index, */
  lemma Take(memory: seq<Job>, producers: nat, run: seq<Action>, i: nat) returns (more: seq<Action>)
    requires |memory| > 0 && Run(memory, producers, run).Some?
    requires var s := Run(memory, producers, run).value; i < |s.workers| && s.workers[i] == Idle && s.valid > 0
    ensures var s := Run(memory, producers, run).value;
            Run(memory, producers, more) == Some(
              s.(valid := s.valid - 1, pop := Wrap(s.pop, |s.slots|), popped := s.popped + 1,
                 workers := s.workers[i := Hold(s.popped, s.pop)]))
  {
    var s := Run(memory, producers, run).value;
    more := run;
    OneMore(memory, producers, more, WaitValid(i));
    more := more + [WaitValid(i)];
    OneMore(memory, producers, more, TakeValid(i));
    more := more + [TakeValid(i)];
    assert s.workers[i := Ticket][i := Hold(s.popped, s.pop)] == s.workers[i := Hold(s.popped, s.pop)];
  }

  /** and runs what is in the slot. */
  lemma TakeAndRun(memory: seq<Job>, producers: nat, run: seq<Action>, i: nat) returns (more: seq<Action>)
    requires |memory| > 0 && Run(memory, producers, run).Some?
    requires var s := Run(memory, producers, run).value; i < |s.workers| && s.workers[i] == Idle && s.valid > 0
    ensures var s := Run(memory, producers, run).value;
            Run(memory, producers, more) == Some(
              s.(valid := s.valid - 1, pop := Wrap(s.pop, |s.slots|), popped := s.popped + 1,
                 ran := s.ran[s.popped := s.slots[s.pop]], workers := s.workers[i := Used(s.popped, s.pop)]))
  {
    var s := Run(memory, producers, run).value;
    more := Take(memory, producers, run, i);
    OneMore(memory, producers, more, RunJob(i));
    more := more + [RunJob(i)];
    assert s.workers[i := Hold(s.popped, s.pop)][i := Used(s.popped, s.pop)] == s.workers[i := Used(s.popped, s.pop)];
  }

  /** Worker i clears and releases its slot. */
  lemma Release(memory: seq<Job>, producers: nat, run: seq<Action>, i: nat) returns (more: seq<Action>)
    requires |memory| > 0 && Run(memory, producers, run).Some?
    requires var s := Run(memory, producers, run).value; i < |s.workers| && s.workers[i].Used?
    ensures var s := Run(memory, producers, run).value;
            Run(memory, producers, more) == Some(
              s.(free := s.free + 1, slots := s.slots[s.workers[i].slot := Null], workers := s.workers[i := Idle]))
  {
    var s := Run(memory, producers, run).value;
    more := run;
    OneMore(memory, producers, more, Clear(i));
    more := more + [Clear(i)];
    OneMore(memory, producers, more, PostFree(i));
    more := more + [PostFree(i)];
    assert s.workers[i := Cleared(s.workers[i].t, s.workers[i].slot)][i := Idle] == s.workers[i := Idle];
  }

  // Producer 0 has submitted n jobs and nobody else has moved.
  predicate Filled(s: Queue, memory: seq<Job>, producers: nat, n: nat)
    requires 0 < |memory| == |s.slots|
  {
    var start := Start(memory, producers);
    && s.producers == start.producers && s.workers == start.workers
    && s.free == |memory| - n && s.valid == n && s.push == At(n, |memory|) && s.pushed == n
    && s.pop == s.popped == 0
    && (n > 0 ==> 0 in s.jobs && s.jobs[0] == s.slots[0] == Job(0))
  }

  lemma {:induction false} FillRing(memory: seq<Job>, producers: nat, n: nat) returns (run: seq<Action>)
    requires 0 < |memory| && n <= |memory| && producers > 0
    ensures var s := Run(memory, producers, run);
            s.Some? && |s.value.slots| == |memory| && Filled(s.value, memory, producers, n)
  {
    if n == 0 {
      run := [];
    } else {
      run := FillRing(memory, producers, n - 1);
      run := Submit(memory, producers, run, Job(n - 1));
      AtAhead(0, n - 1, |memory|);
    }
  }

  // The producer 0 has come round to slot 0, which worker 0 holds under number 0 with the job filled in.
  predicate ComeRound(s: Queue) {
    && |s.producers| > 0 && s.producers[0] == Idle && |s.workers| > 1 && s.workers[0] == Hold(0, 0)
    && s.push == 0 && s.pushed > 0 && 0 in s.jobs && s.jobs[0] == Job(0)
  }

  lemma FirstTaken(memory: seq<Job>, producers: nat) returns (run: seq<Action>)
    requires |memory| >= 2 && producers > 0
    ensures var s := Run(memory, producers, run);
            s.Some? && ComeRound(s.value) && s.value.valid > 0 && s.value.workers[1] == Idle
  {
    var size := |memory|;
    run := FillRing(memory, producers, size);
    AtAhead(0, size, size);
    run := Take(memory, producers, run, 0);
  }

  lemma SecondReleasesFirst(memory: seq<Job>, producers: nat) returns (run: seq<Action>)
    requires |memory| >= 2 && producers > 0
    ensures var s := Run(memory, producers, run); s.Some? && ComeRound(s.value) && s.value.free > 0
  {
    run := FirstTaken(memory, producers);
    run := TakeAndRun(memory, producers, run, 1);
    run := Release(memory, producers, run, 1);
  }

  /**
   * Two workers or more: worker 0 has taken the first job, worker 1 runs the second and releases first, and the producer
   * puts the next round's job into the slot worker 0 still holds. Worker 0 then runs that one in place of the first.
   */
  lemma RunsTheWrongJob(memory: seq<Job>, producers: nat) returns (run: seq<Action>)
    requires |memory| >= 2 && producers > 0
    ensures var s := Run(memory, producers, run);
            s.Some? && 0 in s.value.jobs && 0 in s.value.ran && s.value.jobs[0] == Job(0) && s.value.ran[0] == Job(1)
  {
    run := SecondReleasesFirst(memory, producers);
    run := Submit(memory, producers, run, Job(1));
    OneMore(memory, producers, run, RunJob(0));
    run := run + [RunJob(0)];
  }

  /** What has been run is what was filled in under its number, and every released number has been run. */
  predicate RunsAsFilled(s: Queue) {
    && (forall t | t in s.ran :: t in s.jobs && s.ran[t] == s.jobs[t])
    && (forall t | 0 <= t < Released(s) :: t in s.ran)
  }

  /**
   * Whatever the memory held and however many threads submit, every run of the pool runs its jobs as they were filled in
   * exactly when the pool was made for one worker, and so with a queue of one slot.
   */
  lemma JobsRunExactly(memory: seq<Job>, producers: nat)
    requires |memory| > 0 && producers > 0
    ensures (forall run | Run(memory, producers, run).Some? :: RunsAsFilled(Run(memory, producers, run).value))
            <==> |memory| == 1
  {
    if |memory| == 1 {
      forall run | Run(memory, producers, run).Some? ensures RunsAsFilled(Run(memory, producers, run).value) {
        OneSlotIsOrdered(memory, producers, run);
        JobsRunInOrder(memory, producers, run);
      }
    } else {
      var run := RunsTheWrongJob(memory, producers);
      assert !RunsAsFilled(Run(memory, producers, run).value);
    }
  }

  /**
   * Two workers, one producer, and the second worker releases first: the producer fills the slot the first worker
   * still holds, the first worker clears it, and the third job is lost.
   */
  lemma OutOfOrderLosesAJob(memory: seq<Job>) returns (run: seq<Action>)
    requires |memory| == 2
    ensures var s := Run(memory, 1, run);
            s.Some? && 2 in s.value.jobs && 2 in s.value.ran && s.value.jobs[2] == Job(3) && s.value.ran[2] == Null
  {
    run := Submit(memory, 1, [], Job(1));
    run := Submit(memory, 1, run, Job(2));
    run := TakeAndRun(memory, 1, run, 0);
    run := TakeAndRun(memory, 1, run, 1);
    run := Release(memory, 1, run, 1);
    run := Submit(memory, 1, run, Job(3));
    run := Release(memory, 1, run, 0);
    run := TakeAndRun(memory, 1, run, 1);
  }

  /**
   * Two producers: the second posts first, and a worker takes the slot the first has yet to fill. It calls whatever the
   * allocated memory held.
   */
  lemma LateFillRunsTheMemory(memory: seq<Job>) returns (run: seq<Action>)
    requires |memory| == 2
    ensures var s := Run(memory, 2, run); s.Some? && 0 !in s.value.jobs && 0 in s.value.ran && s.value.ran[0] == memory[0]
  {
    run := TwoTaken(memory);
    OneMore(memory, 2, run, Fill(1, Job(1)));
    run := run + [Fill(1, Job(1))];
    OneMore(memory, 2, run, PostValid(1));
    run := run + [PostValid(1)];
    run := TakeAndRun(memory, 2, run, 0);
  }

  // Each of two producers has taken an index.
  lemma TwoTaken(memory: seq<Job>) returns (run: seq<Action>)
    requires |memory| == 2
    ensures var s, start := Run(memory, 2, run), Start(memory, 2);
            s == Some(start.(free := 0, pushed := 2, producers := [Hold(0, 0), Hold(1, 1)]))
  {
    run := [];
    OneMore(memory, 2, run, WaitFree(0));
    run := run + [WaitFree(0)];
    OneMore(memory, 2, run, TakeFree(0));
    run := run + [TakeFree(0)];
    OneMore(memory, 2, run, WaitFree(1));
    run := run + [WaitFree(1)];
    OneMore(memory, 2, run, TakeFree(1));
    run := run + [TakeFree(1)];
    assert Run(memory, 2, run).value.producers == [Hold(0, 0), Hold(1, 1)];
  }

  // ---------- the program's own variables ----------

  /** thread_pool_ and its threads' locals; each method is one step of one thread. */
  class ThreadPool {
    var freeSem: nat
    var validSem: nat
    var pushIndex: nat
    var popIndex: nat
    var queue: array<Job>
    var producers: seq<Phase>
    var workers: seq<Phase>
    // running numbers, for the reader only
    var pushed: nat
    var popped: nat
    ghost var jobs: map<nat, Job>
    ghost var ran: map<nat, Job>

    ghost function State(): Queue
      reads this, queue
    {
      Queue(freeSem, validSem, pushIndex, popIndex, producers, workers, queue[..], pushed, popped, jobs, ran)
    }

    /** frame_threadpool_init */
    constructor (memory: seq<Job>, callers: nat)
      requires |memory| > 0
      ensures State() == Start(memory, callers) && fresh(queue)
    {
      freeSem, validSem, pushIndex, popIndex := |memory|, 0, 0, 0;
      queue := new Job[|memory|](i requires 0 <= i < |memory| => memory[i]);
      producers, workers := seq(callers, i => Idle), seq(|memory|, i => Idle);
      pushed, popped, jobs, ran := 0, 0, map[], map[];
      new;
      assert queue[..] == memory;
    }

    /** The wait on job_free_sem or job_valid_sem, for a thread that need not sleep. */
    method SemWait(a: Action)
      requires Enabled(State(), a) && Shape(State()) && (a.WaitFree? || a.WaitValid?)
      modifies this
      ensures queue == old(queue) && State() == Next(old(State()), a)
    {
      if a.WaitFree? {
        freeSem := freeSem - 1;
        producers := producers[a.i := Ticket];
      } else {
        validSem := validSem - 1;
        workers := workers[a.i := Ticket];
      }
    }

    /** get_free_job_index, once it has waited: the part under its lock. */
    method GetFreeJobIndex(i: nat)
      requires Enabled(State(), TakeFree(i)) && Shape(State())
      modifies this
      ensures queue == old(queue) && State() == Next(old(State()), TakeFree(i))
    {
      var index := pushIndex;
      pushIndex := pushIndex + 1;
      if pushIndex == queue.Length {
        pushIndex := 0;
      }
      producers := producers[i := Hold(pushed, index)];
      pushed := pushed + 1;
    }

    /** get_valid_job_index */
    method GetValidJobIndex(i: nat)
      requires Enabled(State(), TakeValid(i)) && Shape(State())
      modifies this
      ensures queue == old(queue) && State() == Next(old(State()), TakeValid(i))
    {
      var index := popIndex;
      popIndex := popIndex + 1;
      if popIndex == queue.Length {
        popIndex := 0;
      }
      workers := workers[i := Hold(popped, index)];
      popped := popped + 1;
    }

    /** frame_add_job_queue fills its slot. */
    method FillSlot(i: nat, job: Job)
      requires Enabled(State(), Fill(i, job)) && Shape(State())
      modifies this, queue
      ensures queue == old(queue) && State() == Next(old(State()), Fill(i, job))
    {
      var p := producers[i];
      queue[p.slot] := job;
      jobs := jobs[p.t := job];
      producers := producers[i := Used(p.t, p.slot)];
    }

    /** thread_routine calls what is in its slot, */
    method CallJob(i: nat) returns (called: Job)
      requires Enabled(State(), RunJob(i)) && Shape(State())
      modifies this
      ensures queue == old(queue) && State() == Next(old(State()), RunJob(i))
      ensures called == queue[old(workers)[i].slot]
    {
      var w := workers[i];
      called := queue[w.slot];
      ran := ran[w.t := called];
      workers := workers[i := Used(w.t, w.slot)];
    }

    /** clears the slot, */
    method ClearSlot(i: nat)
      requires Enabled(State(), Clear(i)) && Shape(State())
      modifies this, queue
      ensures queue == old(queue) && State() == Next(old(State()), Clear(i))
    {
      var w := workers[i];
      queue[w.slot] := Null;
      workers := workers[i := Cleared(w.t, w.slot)];
    }

    /** and posts it free, as a producer posts its slot valid. */
    method SemPost(a: Action)
      requires Enabled(State(), a) && Shape(State()) && (a.PostValid? || a.PostFree?)
      modifies this
      ensures queue == old(queue) && State() == Next(old(State()), a)
    {
      if a.PostValid? {
        validSem := validSem + 1;
        producers := producers[a.i := Idle];
      } else {
        freeSem := freeSem + 1;
        workers := workers[a.i := Idle];
      }
    }
  }
}
