/**
 * The ring of ten request slots that submit, send, receive and call back pass round:
 * four wrapping indices, four counting semaphores, and the steps of the four threads.
 */
module EsRing {
  import opened Wrappers

  const LEN := 10

  // The four stages. Stage k waits on semaphore k and posts semaphore k + 1; the caller posts the free slots.
  const SUBMIT := 0
  const SEND := 1
  const RECV := 2
  const CALL := 3

  function After(k: nat): nat {
    if k == CALL then SUBMIT else k + 1
  }

  datatype Request = Nothing | Request(id: int)

  /** A slot: what was asked in it, and its sta_ field. */
  datatype Slot = Slot(request: Request, sta: nat)

  /**
   * Where a thread is between two semaphore operations. Hold: it has its index;
   * Checked: it has looked at sta_; Late: the sender after its post, before its store of sta_.
   */
  datatype Phase = Idle | Ticket | Hold | Checked | Acted | Marked | Late

  /** A thread: its phase, its local index, and the requests it has dealt with. */
  datatype Thread = Thread(phase: Phase, slot: nat, log: seq<Request>)

  datatype Ring = Ring(
    sems: seq<nat>,
    next: seq<nat>,
    threads: seq<Thread>,
    slots: seq<Slot>,
    // some thread found an sta_ it calls impossible
    surprised: bool,
    // the receiver looked at a slot whose sender had yet to store sta_
    overtaken: bool)

  datatype Action =
    | Wait(k: nat)
    | Take(k: nat)
    | Check(k: nat)
    | Act(k: nat, request: Request)
    | Mark(k: nat)
    | Post(k: nat)

  const Resting := Thread(Idle, 0, [])
  const Empty := Slot(Nothing, 0)

  /** The state es_server_init leaves. */
  const Start := Ring([LEN, 0, 0, 0], [0, 0, 0, 0], [Resting, Resting, Resting, Resting],
                      [Empty, Empty, Empty, Empty, Empty, Empty, Empty, Empty, Empty, Empty], false, false)

  // ---------- the steps ----------

  predicate Shape(s: Ring) {
    && |s.sems| == |s.next| == |s.threads| == 4 && |s.slots| == LEN
    && forall k | 0 <= k < 4 :: s.next[k] < LEN && s.threads[k].slot < LEN
  }

  predicate Enabled(s: Ring, a: Action)
    requires Shape(s)
  {
    && a.k < 4
    && var p := s.threads[a.k].phase;
       match a {
         case Wait(k) => p == Idle && s.sems[k] > 0
         case Take(k) => p == Ticket
         case Check(k) => p == Hold
         case Act(k, r) => p == Checked && (k == SUBMIT ==> r != Nothing)
         case Mark(k) => p == if k == SEND then Late else Acted
         case Post(k) => p == if k == SEND then Acted else Marked
       }
  }

  /** The request a thread deals with: the submitter's own, or the one in its slot. */
  function Dealt(s: Ring, k: nat, r: Request): Request
    requires Shape(s) && k < 4
  {
    if k == SUBMIT then r else s.slots[s.threads[k].slot].request
  }

  function Next(s: Ring, a: Action): (s': Ring)
    requires Shape(s) && Enabled(s, a)
    ensures Shape(s')
  {
    var t := s.threads[a.k];
    match a {
      case Wait(k) =>
        s.(sems := s.sems[k := s.sems[k] - 1], threads := s.threads[k := t.(phase := Ticket)])
      case Take(k) =>
        s.(next := s.next[k := if s.next[k] + 1 >= LEN then 0 else s.next[k] + 1],
           threads := s.threads[k := t.(phase := Hold, slot := s.next[k])])
      case Check(k) =>
        s.(surprised := s.surprised || s.slots[t.slot].sta != k,
           overtaken := s.overtaken || (k == RECV && s.threads[SEND].phase == Late && s.threads[SEND].slot == t.slot),
           threads := s.threads[k := t.(phase := Checked)])
      case Act(k, r) =>
        s.(slots := if k == SUBMIT then s.slots[t.slot := s.slots[t.slot].(request := r)] else s.slots,
           threads := s.threads[k := t.(phase := Acted, log := t.log + [Dealt(s, k, r)])])
      case Mark(k) =>
        s.(slots := s.slots[t.slot := Slot(if k == CALL then Nothing else s.slots[t.slot].request, After(k))],
           threads := s.threads[k := t.(phase := if k == SEND then Idle else Marked)])
      case Post(k) =>
        s.(sems := s.sems[After(k) := s.sems[After(k)] + 1],
           threads := s.threads[k := t.(phase := if k == SEND then Late else Idle)])
    }
  }

  // ---------- what every step keeps ----------

  // How many indices stage k has taken, and how many slots it has passed on.
  function Taken(t: Thread): nat {
    |t.log| + if t.phase == Hold || t.phase == Checked then 1 else 0
  }

  function Passed(t: Thread): int {
    |t.log| - if t.phase == Acted || t.phase == Marked then 1 else 0
  }

  /** Slots waiting for stage k: the semaphore, and the one its thread has waited for. */
  function Waiting(s: Ring, k: nat): nat
    requires Shape(s) && k < 4
  {
    s.sems[k] + if s.threads[k].phase == Ticket then 1 else 0
  }

  function InHand(s: Ring, k: nat): (n: int)
    requires Shape(s) && k < 4
  {
    Taken(s.threads[k]) - Passed(s.threads[k])
  }

  predicate PhaseOk(k: nat, t: Thread) {
    && (t.phase == Late ==> k == SEND) && (t.phase == Marked ==> k != SEND)
    && (t.phase in {Acted, Marked, Late} ==> t.log != [])
  }

  // What waits for the next stage is what stage k has passed on and the next has not taken; the caller passes on ten free slots more.
  predicate Linked(s: Ring, k: nat)
    requires Shape(s) && k < 4
  {
    Waiting(s, After(k)) == Passed(s.threads[k]) - Taken(s.threads[After(k)]) + if k == CALL then LEN else 0
  }

  predicate Counts(s: Ring)
    requires Shape(s)
  {
    forall k | 0 <= k < 4 :: PhaseOk(k, s.threads[k]) && Linked(s, k)
  }

  // The index a thread has in hand, or used last, is the last it has taken.
  predicate IndexOk(next: nat, t: Thread) {
    && next == Taken(t) % LEN
    && (t.phase !in {Idle, Ticket} ==> Taken(t) > 0 && t.slot == (Taken(t) - 1) % LEN)
  }

  predicate Indices(s: Ring)
    requires Shape(s)
  {
    forall k | 0 <= k < 4 :: IndexOk(s.next[k], s.threads[k])
  }

  // How many slots the thread has stored sta_ in; the caller empties them with it.
  function Stored(t: Thread): int {
    |t.log| - if t.phase == Acted || t.phase == Late then 1 else 0
  }

  /** Request t is in slot t % LEN from its filling to its emptying, and the other slots are empty. */
  predicate Contents(s: Ring)
    requires Shape(s)
  {
    && (forall t | Stored(s.threads[CALL]) <= t < |s.threads[SUBMIT].log| && 0 <= t ::
          s.slots[t % LEN].request == s.threads[SUBMIT].log[t])
    && (forall t | |s.threads[SUBMIT].log| <= t < Stored(s.threads[CALL]) + LEN :: s.slots[t % LEN].request == Nothing)
  }

  predicate Orders(s: Ring)
    requires Shape(s)
  {
    && (forall k | 0 <= k < 4 :: s.threads[k].log <= s.threads[SUBMIT].log)
    && forall t | 0 <= t < |s.threads[SUBMIT].log| :: s.threads[SUBMIT].log[t] != Nothing
  }

  predicate Inv(s: Ring) {
    Shape(s) && Counts(s) && Indices(s) && Contents(s) && Orders(s)
  }

  lemma PhaseKept(s: Ring, a: Action)
    requires Shape(s) && Enabled(s, a) && PhaseOk(a.k, s.threads[a.k])
    ensures PhaseOk(a.k, Next(s, a).threads[a.k])
    ensures forall k | 0 <= k < 4 && k != a.k :: Next(s, a).threads[k] == s.threads[k]
  {
  }

  lemma LinkKept(s: Ring, a: Action, k: nat)
    requires Shape(s) && Enabled(s, a) && k < 4 && Linked(s, k) && PhaseOk(a.k, s.threads[a.k])
    ensures Linked(Next(s, a), k)
  {
    PhaseKept(s, a);
    if a.k == k {
      assert Waiting(Next(s, a), After(k)) == Waiting(s, After(k)) + if a.Post? then 1 else 0;
    }
  }

  lemma CountsKept(s: Ring, a: Action)
    requires Shape(s) && Counts(s) && Enabled(s, a)
    ensures Counts(Next(s, a))
  {
    PhaseKept(s, a);
    forall k | 0 <= k < 4
      ensures PhaseOk(k, Next(s, a).threads[k]) && Linked(Next(s, a), k)
    {
      LinkKept(s, a, k);
      assert PhaseOk(k, s.threads[k]);
    }
  }

  /** The four stages follow one another, and the first is at most ten slots ahead of the last. */
  lemma Chain(s: Ring)
    requires Shape(s) && Counts(s)
    ensures Passed(s.threads[CALL]) <= Taken(s.threads[CALL]) <= Passed(s.threads[RECV]) <= Taken(s.threads[RECV])
    ensures Taken(s.threads[RECV]) <= Passed(s.threads[SEND]) <= Taken(s.threads[SEND]) <= Passed(s.threads[SUBMIT])
    ensures Passed(s.threads[SUBMIT]) <= Taken(s.threads[SUBMIT]) <= Passed(s.threads[CALL]) + LEN
  {
    assert Linked(s, SUBMIT) && Linked(s, SEND) && Linked(s, RECV) && Linked(s, CALL);
  }

  lemma Wrap(n: nat)
    ensures (if n % LEN + 1 >= LEN then 0 else n % LEN + 1) == (n + 1) % LEN
  {
  }

  lemma IndexKept(s: Ring, a: Action)
    requires Shape(s) && Enabled(s, a) && PhaseOk(a.k, s.threads[a.k]) && IndexOk(s.next[a.k], s.threads[a.k])
    ensures IndexOk(Next(s, a).next[a.k], Next(s, a).threads[a.k])
  {
    var t, t' := s.threads[a.k], Next(s, a).threads[a.k];
    if a.Take? {
      Wrap(Taken(t));
    } else {
      assert Taken(t') == Taken(t) && Next(s, a).next == s.next;
    }
  }

  lemma IndicesKept(s: Ring, a: Action)
    requires Shape(s) && Counts(s) && Indices(s) && Enabled(s, a)
    ensures Indices(Next(s, a))
  {
    PhaseKept(s, a);
    assert PhaseOk(a.k, s.threads[a.k]);
    IndexKept(s, a);
    assert forall k | 0 <= k < 4 && k != a.k :: Next(s, a).next[k] == s.next[k] && IndexOk(s.next[k], s.threads[k]);
  }

  lemma SameSlot(t: int, u: int)
    requires t % LEN == u % LEN && t < u + LEN && u < t + LEN
    ensures t == u
  {
  }

  /** Storing in the slot of request n leaves the other nine slots of the ring alone. */
  lemma StoreInRing(slots: seq<Slot>, e: int, n: int, x: Slot)
    requires |slots| == LEN && e <= n < e + LEN
    ensures forall t | e <= t < e + LEN :: slots[n % LEN := x][t % LEN] == if t == n then x else slots[t % LEN]
    ensures (e + LEN) % LEN == e % LEN
  {
    forall t | e <= t < e + LEN && t != n
      ensures t % LEN != n % LEN
    {
      if t % LEN == n % LEN {
        SameSlot(t, n);
      }
    }
  }

  lemma FillKeepsContents(s: Ring, a: Action)
    requires Inv(s) && Enabled(s, a) && a.Act? && a.k == SUBMIT
    ensures Contents(Next(s, a))
  {
    var n, e := |s.threads[SUBMIT].log|, Stored(s.threads[CALL]);
    Chain(s);
    assert PhaseOk(CALL, s.threads[CALL]);
    assert s.threads[SUBMIT].slot == n % LEN && 0 <= e <= n < e + LEN;
    StoreInRing(s.slots, e, n, Next(s, a).slots[n % LEN]);
  }

  lemma EmptyKeepsContents(s: Ring, a: Action)
    requires Inv(s) && Enabled(s, a) && a.Mark? && a.k == CALL
    ensures Contents(Next(s, a))
  {
    var n, e := |s.threads[SUBMIT].log|, Stored(s.threads[CALL]);
    Chain(s);
    assert PhaseOk(CALL, s.threads[CALL]);
    assert s.threads[CALL].slot == e % LEN && 0 <= e < n <= e + LEN;
    StoreInRing(s.slots, e, e, Next(s, a).slots[e % LEN]);
  }

  lemma ContentsKept(s: Ring, a: Action)
    requires Inv(s) && Enabled(s, a)
    ensures Contents(Next(s, a))
  {
    if a.Act? && a.k == SUBMIT {
      FillKeepsContents(s, a);
    } else if a.Mark? && a.k == CALL {
      EmptyKeepsContents(s, a);
    } else {
      var s' := Next(s, a);
      assert s'.threads[SUBMIT].log == s.threads[SUBMIT].log && Stored(s'.threads[CALL]) == Stored(s.threads[CALL]);
      assert forall i | 0 <= i < LEN :: s'.slots[i].request == s.slots[i].request;
    }
  }

  /** A later stage finds in its slot the request submitted at its turn. */
  lemma FindsItsRequest(s: Ring, k: nat)
    requires Inv(s) && 0 < k < 4 && s.threads[k].phase in {Hold, Checked}
    ensures |s.threads[k].log| < |s.threads[k - 1].log| <= |s.threads[SUBMIT].log|
    ensures s.slots[s.threads[k].slot].request == s.threads[SUBMIT].log[|s.threads[k].log|]
  {
    Chain(s);
    assert PhaseOk(k, s.threads[k]) && PhaseOk(CALL, s.threads[CALL]);
    assert s.threads[k].log <= s.threads[SUBMIT].log && s.threads[k - 1].log <= s.threads[SUBMIT].log;
  }

  lemma LogGrows(s: Ring, a: Action)
    requires Inv(s) && Enabled(s, a)
    ensures var log := s.threads[a.k].log;
            Next(s, a).threads[a.k].log == if a.Act? then log + [Dealt(s, a.k, a.request)] else log
    ensures a.Act? ==> Dealt(s, a.k, a.request) != Nothing
    ensures a.Act? && a.k != SUBMIT ==> s.threads[a.k].log + [Dealt(s, a.k, a.request)] <= s.threads[SUBMIT].log
  {
    if a.Act? && a.k != SUBMIT {
      FindsItsRequest(s, a.k);
      assert s.threads[a.k].log <= s.threads[SUBMIT].log;
    }
  }

  lemma OrdersKept(s: Ring, a: Action)
    requires Inv(s) && Enabled(s, a)
    ensures Orders(Next(s, a))
  {
    assert PhaseOk(a.k, s.threads[a.k]);
    PhaseKept(s, a);
    LogGrows(s, a);
    var before, log := s.threads[SUBMIT].log, Next(s, a).threads[SUBMIT].log;
    assert before <= log;
    forall k | 0 <= k < 4
      ensures Next(s, a).threads[k].log <= log
    {
      assert s.threads[k].log <= before;
    }
  }

  lemma InvKept(s: Ring, a: Action)
    requires Inv(s) && Enabled(s, a)
    ensures Inv(Next(s, a))
  {
    CountsKept(s, a);
    IndicesKept(s, a);
    ContentsKept(s, a);
    OrdersKept(s, a);
  }

  // ---------- sta_ ----------

  /** The sta_ of the slot of request t, were every store made before the next stage looks. */
  function Expected(s: Ring, t: int): nat
    requires Shape(s)
  {
    if t < Stored(s.threads[RECV]) then CALL
    else if t < Stored(s.threads[SEND]) then RECV
    else if t < Stored(s.threads[SUBMIT]) then SEND
    else SUBMIT
  }

  function Looked(t: Thread): nat {
    |t.log| + if t.phase == Checked then 1 else 0
  }

  predicate StaRight(s: Ring)
    requires Shape(s)
  {
    && Looked(s.threads[RECV]) <= Stored(s.threads[SEND])
    && forall t | Stored(s.threads[CALL]) <= t < Stored(s.threads[CALL]) + LEN :: s.slots[t % LEN].sta == Expected(s, t)
  }

  predicate StaInv(s: Ring)
    requires Shape(s)
  {
    s.surprised == s.overtaken && (!s.overtaken ==> StaRight(s))
  }

  /** The stores of sta_ follow one another as the stages do. */
  lemma StoresInOrder(s: Ring)
    requires Inv(s) && Looked(s.threads[RECV]) <= Stored(s.threads[SEND])
    ensures Stored(s.threads[CALL]) <= Stored(s.threads[RECV]) <= Stored(s.threads[SEND]) <= Stored(s.threads[SUBMIT])
    ensures Stored(s.threads[SUBMIT]) <= Stored(s.threads[CALL]) + LEN && 0 <= Stored(s.threads[CALL])
    ensures Taken(s.threads[CALL]) <= Stored(s.threads[RECV]) && Taken(s.threads[SEND]) <= Stored(s.threads[SUBMIT])
    ensures Taken(s.threads[SUBMIT]) <= Stored(s.threads[CALL]) + LEN && Taken(s.threads[RECV]) <= |s.threads[SEND].log|
  {
    Chain(s);
    assert PhaseOk(SUBMIT, s.threads[SUBMIT]) && PhaseOk(SEND, s.threads[SEND])
        && PhaseOk(RECV, s.threads[RECV]) && PhaseOk(CALL, s.threads[CALL]);
  }

  /** A thread that looks finds the wrong sta_ exactly when it is the receiver overtaking the sender's store. */
  lemma LooksRight(s: Ring, k: nat)
    requires Inv(s) && StaRight(s) && k < 4 && s.threads[k].phase == Hold
    ensures s.slots[s.threads[k].slot].sta != k
       <==> (k == RECV && s.threads[SEND].phase == Late && s.threads[SEND].slot == s.threads[RECV].slot)
    ensures s.slots[s.threads[RECV].slot].sta == RECV && k == RECV ==> |s.threads[RECV].log| < Stored(s.threads[SEND])
  {
    StoresInOrder(s);
    assert IndexOk(s.next[k], s.threads[k]) && IndexOk(s.next[SEND], s.threads[SEND]);
    assert PhaseOk(k, s.threads[k]) && PhaseOk(SEND, s.threads[SEND]);
    var c := |s.threads[k].log|;
    assert s.slots[c % LEN].sta == Expected(s, c);
    if k == RECV && s.threads[SEND].phase == Late && s.threads[SEND].slot == s.threads[RECV].slot {
      SameSlot(c, |s.threads[SEND].log| - 1);
    }
  }

  lemma StaKeptByCheck(s: Ring, a: Action)
    requires Inv(s) && StaInv(s) && Enabled(s, a) && a.Check?
    ensures StaInv(Next(s, a))
  {
    if !s.overtaken {
      LooksRight(s, a.k);
      var s' := Next(s, a);
      assert forall t :: Expected(s', t) == Expected(s, t);
    }
  }

  lemma MarkStores(s: Ring, a: Action)
    requires Shape(s) && Enabled(s, a) && a.Mark? && PhaseOk(a.k, s.threads[a.k])
    ensures Stored(Next(s, a).threads[a.k]) == Stored(s.threads[a.k]) + 1
    ensures Looked(Next(s, a).threads[a.k]) == Looked(s.threads[a.k])
    ensures forall j | 0 <= j < 4 && j != a.k :: Next(s, a).threads[j] == s.threads[j]
    ensures var i := s.threads[a.k].slot;
            Next(s, a).slots == s.slots[i := Next(s, a).slots[i]] && Next(s, a).slots[i].sta == After(a.k)
  {
  }

  // Where in the ring the slot is that is stored in.
  lemma MarkPlace(s: Ring, k: nat)
    requires Inv(s) && Looked(s.threads[RECV]) <= Stored(s.threads[SEND]) && k < 4
    requires s.threads[k].phase == if k == SEND then Late else Acted
    ensures var n, e := Stored(s.threads[k]), Stored(s.threads[CALL]);
            && s.threads[k].slot == n % LEN && e <= n < e + LEN
            && (k != CALL && k != SUBMIT ==> n < Stored(s.threads[k - 1]))
  {
    StoresInOrder(s);
    assert IndexOk(s.next[k], s.threads[k]) && PhaseOk(k, s.threads[k]);
  }

  lemma StaKeptByMark(s: Ring, a: Action)
    requires Inv(s) && StaRight(s) && Enabled(s, a) && a.Mark?
    ensures StaRight(Next(s, a))
  {
    assert PhaseOk(a.k, s.threads[a.k]);
    MarkStores(s, a);
    MarkPlace(s, a.k);
    StoresInOrder(s);
    var s', n := Next(s, a), Stored(s.threads[a.k]);
    ExpectedMoves(s, s', a.k);
    StaWritten(s, s', a.k, s'.slots[n % LEN]);
  }

  lemma StaWritten(s: Ring, s': Ring, k: nat, x: Slot)
    requires Shape(s) && Shape(s') && k < 4 && StaRight(s)
    requires forall j | 0 <= j < 4 :: Stored(s'.threads[j]) == Stored(s.threads[j]) + if j == k then 1 else 0
    requires Looked(s'.threads[RECV]) == Looked(s.threads[RECV])
    requires Stored(s.threads[CALL]) <= Stored(s.threads[k]) < Stored(s.threads[CALL]) + LEN
    requires s'.slots == s.slots[Stored(s.threads[k]) % LEN := x] && x.sta == After(k)
    requires forall t :: t != Stored(s.threads[k]) || k == CALL ==> Expected(s', t) == Expected(s, t)
    requires k != CALL ==> Expected(s', Stored(s.threads[k])) == After(k)
    requires Stored(s.threads[CALL]) <= Stored(s.threads[RECV]) <= Stored(s.threads[SEND]) <= Stored(s.threads[SUBMIT])
    requires Stored(s.threads[SUBMIT]) <= Stored(s.threads[CALL]) + LEN
    ensures StaRight(s')
  {
    var e := Stored(s.threads[CALL]);
    StoreInRing(s.slots, e, Stored(s.threads[k]), x);
    assert Expected(s, e + LEN) == SUBMIT;
    assert forall t | e <= t < e + LEN :: s.slots[t % LEN].sta == Expected(s, t);
  }

  lemma ExpectedMoves(s: Ring, s': Ring, k: nat)
    requires Shape(s) && Shape(s') && k < 4
    requires forall j | 0 <= j < 4 :: Stored(s'.threads[j]) == Stored(s.threads[j]) + if j == k then 1 else 0
    requires Stored(s.threads[CALL]) <= Stored(s.threads[RECV]) <= Stored(s.threads[SEND]) <= Stored(s.threads[SUBMIT])
    requires k != CALL && k != SUBMIT ==> Stored(s.threads[k]) < Stored(s.threads[k - 1])
    ensures forall t :: t != Stored(s.threads[k]) || k == CALL ==> Expected(s', t) == Expected(s, t)
    ensures k != CALL ==> Expected(s', Stored(s.threads[k])) == After(k)
  {
  }

  lemma StaKept(s: Ring, a: Action)
    requires Inv(s) && StaInv(s) && Enabled(s, a)
    ensures StaInv(Next(s, a))
  {
    if a.Check? {
      StaKeptByCheck(s, a);
    } else if s.overtaken {
    } else if a.Mark? {
      StaKeptByMark(s, a);
    } else {
      StaKeptByOthers(s, a);
    }
  }

  lemma StaKeptByOthers(s: Ring, a: Action)
    requires Inv(s) && StaRight(s) && Enabled(s, a) && !a.Check? && !a.Mark?
    ensures StaRight(Next(s, a))
  {
    PhaseKept(s, a);
    var s' := Next(s, a);
    assert PhaseOk(a.k, s.threads[a.k]);
    StoredSame(s, a);
    assert forall t :: Expected(s', t) == Expected(s, t);
    assert forall i | 0 <= i < LEN :: s'.slots[i].sta == s.slots[i].sta;
  }

  lemma StoredSame(s: Ring, a: Action)
    requires Shape(s) && Enabled(s, a) && PhaseOk(a.k, s.threads[a.k]) && !a.Check? && !a.Mark?
    ensures Stored(Next(s, a).threads[a.k]) == Stored(s.threads[a.k])
    ensures Looked(Next(s, a).threads[a.k]) == Looked(s.threads[a.k])
  {
  }

  // ---------- every run ----------

  /** The state after a run, if each of its steps could be taken. */
  function Run(run: seq<Action>): (s: Option<Ring>)
    ensures s.Some? ==> Shape(s.value)
  {
    if run == [] then Some(Start)
    else
      var before := Run(run[..|run| - 1]);
      if before.Some? && Enabled(before.value, run[|run| - 1]) then
        Some(Next(before.value, run[|run| - 1]))
      else None
  }

  predicate Initial(s: Ring) {
    && Shape(s) && !s.surprised && !s.overtaken
    && (forall k | 0 <= k < 4 :: s.threads[k] == Resting && s.next[k] == 0 && s.sems[k] == if k == SUBMIT then LEN else 0)
    && (forall i | 0 <= i < LEN :: s.slots[i] == Empty)
  }

  lemma InitialOk(s: Ring)
    requires Initial(s)
    ensures Inv(s) && StaInv(s)
  {
  }

  lemma {:induction false} EveryState(run: seq<Action>)
    requires Run(run).Some?
    ensures Inv(Run(run).value) && StaInv(Run(run).value)
  {
    if run == [] {
      assert Initial(Start);
      InitialOk(Start);
    } else {
      var first, a := run[..|run| - 1], run[|run| - 1];
      EveryState(first);
      InvKept(Run(first).value, a);
      StaKept(Run(first).value, a);
    }
  }

  /** Whatever the interleaving: the called back requests are a prefix of the answered, these of the sent, these of the submitted. */
  lemma CalledInOrder(run: seq<Action>)
    requires Run(run).Some?
    ensures var ts := Run(run).value.threads;
            ts[CALL].log <= ts[RECV].log <= ts[SEND].log <= ts[SUBMIT].log <= ts[SUBMIT].log
  {
    EveryState(run);
    var s := Run(run).value;
    Chain(s);
    forall k | 0 < k < 4
      ensures s.threads[k].log <= s.threads[k - 1].log
    {
      assert PhaseOk(k, s.threads[k]) && PhaseOk(k - 1, s.threads[k - 1]);
      assert s.threads[k].log <= s.threads[SUBMIT].log && s.threads[k - 1].log <= s.threads[SUBMIT].log;
    }
  }

  /** The four semaphores, the slots just waited for and the slots in hand are ten together. */
  lemma TenSlots(run: seq<Action>)
    requires Run(run).Some?
    ensures var s := Run(run).value;
            && (forall k | 0 <= k < 4 :: 0 <= InHand(s, k) <= 1)
            && Waiting(s, SUBMIT) + InHand(s, SUBMIT) + Waiting(s, SEND) + InHand(s, SEND)
               + Waiting(s, RECV) + InHand(s, RECV) + Waiting(s, CALL) + InHand(s, CALL) == LEN
  {
    EveryState(run);
    var s := Run(run).value;
    assert Linked(s, SUBMIT) && Linked(s, SEND) && Linked(s, RECV) && Linked(s, CALL);
  }

  datatype Place = HeldBy(k: nat) | WaitsFor(k: nat)

  predicate Holds(s: Ring, k: nat, i: nat)
    requires Shape(s) && k < 4
  {
    InHand(s, k) == 1 && s.threads[k].slot == i
  }

  /** i is one of the Waiting(s, k) slots from index k on, round the ring. */
  predicate Waits(s: Ring, k: nat, i: nat)
    requires Shape(s) && k < 4
  {
    InRow(s.next[k], Waiting(s, k), i)
  }

  predicate InRow(from: nat, n: nat, i: nat) {
    exists w :: 0 <= w < n && i == Round(from, w)
  }

  // The w-th slot from slot i on.
  function Round(i: nat, w: nat): nat {
    (i + w) % LEN
  }

  // The number of the submission slot i is for.
  function TicketOf(s: Ring, i: nat): int
    requires Shape(s)
  {
    Passed(s.threads[CALL]) + (i - Passed(s.threads[CALL])) % LEN
  }

  function PlaceOf(s: Ring, i: nat): Place
    requires Shape(s)
  {
    PlaceFor(TicketOf(s, i), Taken(s.threads[CALL]), Passed(s.threads[RECV]), Taken(s.threads[RECV]),
             Passed(s.threads[SEND]), Taken(s.threads[SEND]), Passed(s.threads[SUBMIT]), Taken(s.threads[SUBMIT]))
  }

  // The arc number t lies in, the stages from the caller back to the submitter each with what it has passed on and taken.
  function PlaceFor(t: int, called: int, received: int, receiving: int, sent: int, sending: int, filled: int, filling: int): Place
  {
    if t < called then HeldBy(CALL)
    else if t < received then WaitsFor(CALL)
    else if t < receiving then HeldBy(RECV)
    else if t < sent then WaitsFor(RECV)
    else if t < sending then HeldBy(SEND)
    else if t < filled then WaitsFor(SEND)
    else if t < filling then HeldBy(SUBMIT)
    else WaitsFor(SUBMIT)
  }

  lemma ArcsFor(t: int, first: int, called: int, received: int, receiving: int, sent: int, sending: int, filled: int, filling: int)
    requires first <= called <= received <= receiving <= sent <= sending <= filled <= filling && first <= t
    ensures var p := PlaceFor(t, called, received, receiving, sent, sending, filled, filling);
            && (p == HeldBy(CALL) <==> first <= t < called) && (p == WaitsFor(CALL) <==> called <= t < received)
            && (p == HeldBy(RECV) <==> received <= t < receiving) && (p == WaitsFor(RECV) <==> receiving <= t < sent)
            && (p == HeldBy(SEND) <==> sent <= t < sending) && (p == WaitsFor(SEND) <==> sending <= t < filled)
            && (p == HeldBy(SUBMIT) <==> filled <= t < filling) && (p == WaitsFor(SUBMIT) <==> filling <= t)
  {
  }

  lemma TicketInRing(s: Ring, i: nat)
    requires Shape(s)
    ensures Passed(s.threads[CALL]) <= TicketOf(s, i) < Passed(s.threads[CALL]) + LEN
  {
  }

  lemma Arcs(s: Ring, k: nat, i: nat)
    requires Inv(s) && k < 4
    ensures PlaceOf(s, i) == HeldBy(k) <==> Passed(s.threads[k]) <= TicketOf(s, i) < Taken(s.threads[k])
    ensures PlaceOf(s, i) == WaitsFor(k) <==>
            Taken(s.threads[k]) <= TicketOf(s, i) < Passed(s.threads[Before(k)]) + if k == SUBMIT then LEN else 0
  {
    Chain(s);
    TicketInRing(s, i);
    ArcsFor(TicketOf(s, i), Passed(s.threads[CALL]), Taken(s.threads[CALL]), Passed(s.threads[RECV]), Taken(s.threads[RECV]),
            Passed(s.threads[SEND]), Taken(s.threads[SEND]), Passed(s.threads[SUBMIT]), Taken(s.threads[SUBMIT]));
  }

  // The stage in front.
  function Before(k: nat): (j: nat)
    requires k < 4
    ensures j < 4 && After(j) == k
  {
    if k == SUBMIT then CALL else k - 1
  }

  lemma TicketOfExactly(s: Ring, i: nat, t: int)
    requires Shape(s) && i < LEN && Passed(s.threads[CALL]) <= t < Passed(s.threads[CALL]) + LEN
    ensures t % LEN == i <==> TicketOf(s, i) == t
  {
    var u := TicketOf(s, i);
    assert u % LEN == i;
    if t % LEN == i {
      SameSlot(t, u);
    }
  }

  lemma HandIsPassed(s: Ring, k: nat)
    requires Inv(s) && k < 4
    ensures Passed(s.threads[k]) <= Taken(s.threads[k]) <= Passed(s.threads[k]) + 1
    ensures InHand(s, k) == 1 ==> Passed(s.threads[k]) >= 0 && s.threads[k].slot == Passed(s.threads[k]) % LEN
    ensures InHand(s, k) == 1 ==> Passed(s.threads[CALL]) <= Passed(s.threads[k]) < Passed(s.threads[CALL]) + LEN
  {
    Chain(s);
    assert PhaseOk(k, s.threads[k]) && IndexOk(s.next[k], s.threads[k]);
  }

  /** The ring falls into eight arcs: slot i is in hand of stage k exactly when its place says so, */
  lemma HeldExactly(s: Ring, k: nat, i: nat)
    requires Inv(s) && k < 4 && i < LEN
    ensures Holds(s, k, i) <==> PlaceOf(s, i) == HeldBy(k)
  {
    Arcs(s, k, i);
    HandIsPassed(s, k);
    if InHand(s, k) == 1 {
      TicketOfExactly(s, i, Passed(s.threads[k]));
    }
  }

  // The submissions whose slots wait for stage k.
  lemma WaitingTickets(s: Ring, k: nat, i: nat)
    requires Inv(s) && k < 4 && i < LEN
    ensures PlaceOf(s, i) == WaitsFor(k) <==> Taken(s.threads[k]) <= TicketOf(s, i) < Taken(s.threads[k]) + Waiting(s, k)
    ensures s.next[k] == Taken(s.threads[k]) % LEN
    ensures Passed(s.threads[CALL]) <= Taken(s.threads[k]) <= Taken(s.threads[k]) + Waiting(s, k) <= Passed(s.threads[CALL]) + LEN
  {
    Arcs(s, k, i);
    Chain(s);
    assert Linked(s, Before(k)) && IndexOk(s.next[k], s.threads[k]);
  }

  /** and it waits for stage k exactly when its place says so. So it is in one arc only. */
  lemma WaitsExactly(s: Ring, k: nat, i: nat)
    requires Inv(s) && k < 4 && i < LEN
    ensures Waits(s, k, i) <==> PlaceOf(s, i) == WaitsFor(k)
  {
    WaitingTickets(s, k, i);
    RoundTickets(Passed(s.threads[CALL]), Taken(s.threads[k]), Waiting(s, k), i);
  }

  lemma RoundTickets(first: int, n: nat, waiting: nat, i: nat)
    requires i < LEN && first <= n <= n + waiting <= first + LEN
    ensures InRow(n % LEN, waiting, i) <==> n <= first + (i - first) % LEN < n + waiting
  {
    var t := first + (i - first) % LEN;
    assert t % LEN == i;
    if w :| 0 <= w < waiting && i == Round(n % LEN, w) {
      AddMod(n, w);
      SameSlot(t, n + w);
    }
    if n <= t < n + waiting {
      AddMod(n, t - n);
      assert i == Round(n % LEN, t - n);
    }
  }

  lemma AddMod(n: nat, w: nat)
    ensures Round(n % LEN, w) == (n + w) % LEN
  {
  }

  /** No slot is in the hands of two stages, or waiting for one while in the hands of another. */
  lemma OneOwner(run: seq<Action>, j: nat, k: nat, i: nat)
    requires Run(run).Some? && j < 4 && k < 4 && i < LEN
    ensures var s := Run(run).value;
            && (Holds(s, j, i) && Holds(s, k, i) ==> j == k)
            && (Waits(s, j, i) && Waits(s, k, i) ==> j == k)
            && !(Holds(s, j, i) && Waits(s, k, i))
  {
    EveryState(run);
    var s := Run(run).value;
    HeldExactly(s, j, i);
    HeldExactly(s, k, i);
    WaitsExactly(s, j, i);
    WaitsExactly(s, k, i);
  }

  /** A slot is filled only when its last request has been called back and released. */
  lemma FillsOnlyReleased(run: seq<Action>)
    requires Run(run).Some? && Run(run).value.threads[SUBMIT].phase in {Hold, Checked}
    ensures var s := Run(run).value;
            && s.slots[s.threads[SUBMIT].slot].request == Nothing
            && (|s.threads[SUBMIT].log| >= LEN ==> |s.threads[SUBMIT].log| - LEN < Passed(s.threads[CALL]))
  {
    EveryState(run);
    var s := Run(run).value;
    Chain(s);
    assert PhaseOk(CALL, s.threads[CALL]) && IndexOk(s.next[SUBMIT], s.threads[SUBMIT]);
    assert s.slots[|s.threads[SUBMIT].log| % LEN].request == Nothing;
  }

  /** The threads never wait for one another for ever: while a request is not released, one of them can take a step. */
  lemma NeverStuck(run: seq<Action>)
    requires Run(run).Some?
    requires Passed(Run(run).value.threads[CALL]) < |Run(run).value.threads[SUBMIT].log|
    ensures exists a :: Enabled(Run(run).value, a) && !(a.Wait? && a.k == SUBMIT)
  {
    EveryState(run);
    var s := Run(run).value;
    Chain(s);
    if k :| 0 <= k < 4 && s.threads[k].phase != Idle {
      Moves(s, k);
    } else {
      assert PhaseOk(CALL, s.threads[CALL]) && Linked(s, SUBMIT) && Linked(s, SEND) && Linked(s, RECV);
      var k :| 0 < k < 4 && s.sems[k] > 0;
      assert Enabled(s, Wait(k));
    }
  }

  /**
   * When an idle stage may go on: the submitter while fewer than ten requests are unreleased, every other stage while the
   * one before has passed on more than it has dealt with.
   */
  lemma GoesOnExactly(run: seq<Action>, k: nat)
    requires Run(run).Some? && k < 4 && Run(run).value.threads[k].phase == Idle
    ensures var s := Run(run).value;
            Enabled(s, Wait(k)) <==>
            |s.threads[k].log| < Passed(s.threads[Before(k)]) + (if k == SUBMIT then 10 else 0)
  {
    EveryState(run);
    assert Linked(Run(run).value, Before(k));
  }

  lemma Moves(s: Ring, k: nat)
    requires Inv(s) && k < 4 && s.threads[k].phase != Idle
    ensures exists a :: Enabled(s, a) && !(a.Wait? && a.k == SUBMIT)
  {
    var p := s.threads[k].phase;
    assert PhaseOk(k, s.threads[k]);
    assert Enabled(s, Take(k)) || Enabled(s, Check(k)) || Enabled(s, Act(k, Request(0))) || Enabled(s, Mark(k)) || Enabled(s, Post(k));
  }

  /** "Never been here" is reported exactly in the runs where the receiver overtakes the sender's store of sta_. */
  lemma SurprisedExactly(run: seq<Action>)
    requires Run(run).Some?
    ensures Run(run).value.surprised <==> Run(run).value.overtaken
  {
    EveryState(run);
  }

  lemma OneMore(run: seq<Action>, a: Action)
    requires Run(run).Some? && Enabled(Run(run).value, a)
    ensures Run(run + [a]) == Some(Next(Run(run).value, a))
  {
    assert (run + [a])[..|run|] == run;
  }

  // One request submitted, sent and passed on by a sender that has yet to store sta_.
  lemma Sent() returns (run: seq<Action>)
    ensures Run(run).Some?
    ensures var s := Run(run).value;
            && s.sems[RECV] == 1 && s.next[RECV] == 0 && s.threads[RECV] == Resting
            && s.threads[SEND].phase == Late && s.threads[SEND].slot == 0 && !s.surprised
  {
    run := Submitted();
    var s := Run(run).value;
    OneMore(run, Wait(SEND));
    run := run + [Wait(SEND)];
    OneMore(run, Take(SEND));
    run := run + [Take(SEND)];
    OneMore(run, Check(SEND));
    run := run + [Check(SEND)];
    OneMore(run, Act(SEND, Nothing));
    run := run + [Act(SEND, Nothing)];
    OneMore(run, Post(SEND));
    run := run + [Post(SEND)];
  }

  lemma Submitted() returns (run: seq<Action>)
    ensures Run(run).Some?
    ensures var s := Run(run).value;
            && s.sems[SEND] == 1 && s.sems[RECV] == 0 && s.next[SEND] == 0 && s.next[RECV] == 0 && !s.surprised
            && s.threads[SEND] == Resting && s.threads[RECV] == Resting && s.slots[0].sta == SEND
  {
    run := [];
    OneMore(run, Wait(SUBMIT));
    run := run + [Wait(SUBMIT)];
    OneMore(run, Take(SUBMIT));
    run := run + [Take(SUBMIT)];
    OneMore(run, Check(SUBMIT));
    run := run + [Check(SUBMIT)];
    OneMore(run, Act(SUBMIT, Request(0)));
    run := run + [Act(SUBMIT, Request(0))];
    OneMore(run, Mark(SUBMIT));
    run := run + [Mark(SUBMIT)];
    OneMore(run, Post(SUBMIT));
    run := run + [Post(SUBMIT)];
  }

  /** There is such a run. */
  lemma SurpriseHappens() returns (run: seq<Action>)
    ensures Run(run).Some? && Run(run).value.surprised
  {
    run := Sent();
    OneMore(run, Wait(RECV));
    run := run + [Wait(RECV)];
    OneMore(run, Take(RECV));
    run := run + [Take(RECV)];
    OneMore(run, Check(RECV));
    run := run + [Check(RECV)];
    SurprisedExactly(run);
  }

  // ---------- the program's own variables ----------

  /** es_info and es_res_array, with the threads' locals; each method is one step of one thread. */
  class EsServer {
    var freeNum: nat
    var sendNum: nat
    var recvNum: nat
    var callNum: nat
    var insertIndex: nat
    var sendIndex: nat
    var recvIndex: nat
    var callIndex: nat
    var slots: array<Slot>
    var threads: seq<Thread>
    ghost var surprised: bool
    ghost var overtaken: bool

    ghost function State(): Ring
      reads this, slots
    {
      Ring([freeNum, sendNum, recvNum, callNum], [insertIndex, sendIndex, recvIndex, callIndex], threads, slots[..],
           surprised, overtaken)
    }

    /** es_server_init */
    constructor ()
      ensures State() == Start && fresh(slots)
    {
      freeNum, sendNum, recvNum, callNum := LEN, 0, 0, 0;
      insertIndex, sendIndex, recvIndex, callIndex := 0, 0, 0, 0;
      slots := new Slot[LEN](i => Empty);
      threads := [Resting, Resting, Resting, Resting];
      surprised, overtaken := false, false;
    }

    /** sem_wait, for a thread that need not sleep. */
    method SemWait(k: nat)
      requires Shape(State()) && Enabled(State(), Wait(k))
      modifies this
      ensures slots == old(slots) && State() == Next(old(State()), Wait(k))
    {
      if k == SUBMIT {
        freeNum := freeNum - 1;
      } else if k == SEND {
        sendNum := sendNum - 1;
      } else if k == RECV {
        recvNum := recvNum - 1;
      } else {
        callNum := callNum - 1;
      }
      threads := threads[k := threads[k].(phase := Ticket)];
    }

    /** sem_post */
    method SemPost(k: nat)
      requires Shape(State()) && Enabled(State(), Post(k))
      modifies this
      ensures slots == old(slots) && State() == Next(old(State()), Post(k))
    {
      if k == SUBMIT {
        sendNum := sendNum + 1;
      } else if k == SEND {
        recvNum := recvNum + 1;
      } else if k == RECV {
        callNum := callNum + 1;
      } else {
        freeNum := freeNum + 1;
      }
      threads := threads[k := threads[k].(phase := if k == SEND then Late else Idle)];
    }

    /** get_insert_index, once it has waited. */
    method GetInsertIndex()
      requires Shape(State()) && Enabled(State(), Take(SUBMIT))
      modifies this
      ensures slots == old(slots) && State() == Next(old(State()), Take(SUBMIT))
    {
      var index := insertIndex;
      insertIndex := insertIndex + 1;
      if insertIndex >= LEN {
        insertIndex := 0;
      }
      threads := threads[SUBMIT := threads[SUBMIT].(phase := Hold, slot := index)];
    }

    /** get_send_index */
    method GetSendIndex()
      requires Shape(State()) && Enabled(State(), Take(SEND))
      modifies this
      ensures slots == old(slots) && State() == Next(old(State()), Take(SEND))
    {
      var index := sendIndex;
      sendIndex := sendIndex + 1;
      if sendIndex >= LEN {
        sendIndex := 0;
      }
      threads := threads[SEND := threads[SEND].(phase := Hold, slot := index)];
    }

    /** get_recv_index */
    method GetRecvIndex()
      requires Shape(State()) && Enabled(State(), Take(RECV))
      modifies this
      ensures slots == old(slots) && State() == Next(old(State()), Take(RECV))
    {
      var index := recvIndex;
      recvIndex := recvIndex + 1;
      if recvIndex >= LEN {
        recvIndex := 0;
      }
      threads := threads[RECV := threads[RECV].(phase := Hold, slot := index)];
    }

    /** get_call_index */
    method GetCallIndex()
      requires Shape(State()) && Enabled(State(), Take(CALL))
      modifies this
      ensures slots == old(slots) && State() == Next(old(State()), Take(CALL))
    {
      var index := callIndex;
      callIndex := callIndex + 1;
      if callIndex >= LEN {
        callIndex := 0;
      }
      threads := threads[CALL := threads[CALL].(phase := Hold, slot := index)];
    }

    /** The test of sta_ every thread makes of the slot it has taken. */
    method CheckSta(k: nat) returns (neverBeenHere: bool)
      requires Shape(State()) && Enabled(State(), Check(k))
      modifies this
      ensures slots == old(slots) && State() == Next(old(State()), Check(k))
      ensures neverBeenHere == (slots[old(threads)[k].slot].sta != k)
    {
      neverBeenHere := slots[threads[k].slot].sta != k;
      surprised := surprised || neverBeenHere;
      overtaken := overtaken || (k == RECV && threads[SEND].phase == Late && threads[SEND].slot == threads[k].slot);
      threads := threads[k := threads[k].(phase := Checked)];
    }

    /** The submitter fills its slot; the others send, complete or call back what is in theirs. */
    method DealWith(k: nat, request: Request)
      requires Shape(State()) && Enabled(State(), Act(k, request))
      modifies this, slots
      ensures slots == old(slots) && State() == Next(old(State()), Act(k, request))
    {
      var t := threads[k];
      if k == SUBMIT {
        slots[t.slot] := slots[t.slot].(request := request);
      }
      threads := threads[k := t.(phase := Acted, log := t.log + [slots[t.slot].request])];
    }

    /** The store of sta_, with which the caller empties the slot. */
    method StoreSta(k: nat)
      requires Shape(State()) && Enabled(State(), Mark(k))
      modifies this, slots
      ensures slots == old(slots) && State() == Next(old(State()), Mark(k))
    {
      var t := threads[k];
      slots[t.slot] := Slot(if k == CALL then Nothing else slots[t.slot].request, After(k));
      threads := threads[k := t.(phase := if k == SEND then Idle else Marked)];
    }
  }
}
