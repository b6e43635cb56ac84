/** The per-owner sequence of NFSv4.0: the queue of requests that want the owner's seqid,
    the sleep and wake-up of the tasks behind its head, and the counter that must agree
    with the server's (section 8.1.5 of RFC 3530). */
module SeqidQueue {
  import opened Common
  import opened Lists

  type Tid = nat

  const NFS4ERR_RESOURCE: nat := 10018
  const NFS4ERR_NOFILEHANDLE: nat := 10020
  const NFS4ERR_STALE_CLIENTID: nat := 10022
  const NFS4ERR_STALE_STATEID: nat := 10023
  const NFS4ERR_BAD_STATEID: nat := 10025
  const NFS4ERR_BAD_SEQID: nat := 10026
  const NFS4ERR_BADXDR: nat := 10036

  /** seqid_mutating_err */
  predicate SeqidMutatingErr(err: nat) {
    !(err == NFS4ERR_STALE_CLIENTID || err == NFS4ERR_STALE_STATEID || err == NFS4ERR_BAD_STATEID
      || err == NFS4ERR_BAD_SEQID || err == NFS4ERR_BADXDR || err == NFS4ERR_RESOURCE || err == NFS4ERR_NOFILEHANDLE)
  }

  /** The seven errors, by number, after which the sequence does not advance: RESOURCE,
      NOFILEHANDLE, STALE_CLIENTID, STALE_STATEID, BAD_STATEID, BAD_SEQID and BADXDR. */
  lemma NotCountedIff(err: nat)
    ensures !SeqidMutatingErr(err) <==> err in {10018, 10020, 10022, 10023, 10025, 10026, 10036}
  {
  }

  // ---------- tasks, counter and server ----------

  datatype Task = Out | Ready | Asleep | Past

  /** The one request under way: sent with a seqid, or answered and not yet accounted. */
  datatype Flight = NoFlight | Sent(t: Tid, seqid: nat) | Answered(t: Tid, err: nat)

  datatype State = State(queue: seq<Tid>, tasks: map<Tid, Task>, counter: nat, expected: nat, flight: Flight)

  datatype Event =
    | Start(t: Tid)              // a task is about to run its prepare function
    | Wait(t: Tid)               // nfs_wait_on_sequence
    | Signal(t: Tid)             // a sleeper is woken for another reason
    | Send(t: Tid)
    | Serve(err: nat)            // the server executes the request, err 0 for success
    | Account                    // nfs_increment_seqid when the reply is decoded
    | Lose                       // the call ends without a decoded reply
    | Release(t: Tid)            // nfs_release_seqid

  function TaskOf(s: State, t: Tid): (r: Task) {
    if t in s.tasks then s.tasks[t] else Out
  }

  /** The server of section 8.1.5: it refuses a wrong seqid, and otherwise steps its
      expectation unless the error is one of those that do not. */
  function ServerAnswer(expected: nat, seqid: nat, err: nat): (r: (nat, nat)) {
    if seqid != expected then (NFS4ERR_BAD_SEQID, expected)
    else (err, if SeqidMutatingErr(err) then Succ(expected) else expected)
  }

  predicate Enabled(s: State, e: Event) {
    match e
    case Start(t) => TaskOf(s, t).Out?
    case Wait(t) => TaskOf(s, t).Ready?
    case Signal(t) => TaskOf(s, t).Asleep?
    case Send(t) => TaskOf(s, t).Past? && s.flight.NoFlight?
    case Serve(err) => s.flight.Sent? && err != NFS4ERR_BAD_SEQID
    case Account => s.flight.Answered?
    case Lose => !s.flight.NoFlight?
    case Release(t) => t in s.queue && !TaskOf(s, t).Asleep? && (s.flight.NoFlight? || s.flight.t != t)
  }

  function Join(q: seq<Tid>, t: Tid): (r: seq<Tid>) {
    if t in q then q else q + [t]
  }

  /** rpc_wake_up_queued_task on the head of the list, if there is one. */
  function WakeHead(q: seq<Tid>, tasks: map<Tid, Task>): (r: map<Tid, Task>) {
    if q != [] && q[0] in tasks && tasks[q[0]].Asleep? then tasks[q[0] := Ready] else tasks
  }

  function Apply(s: State, e: Event): (r: State)
    requires Enabled(s, e)
  {
    match e
    case Start(t) => s.(tasks := s.tasks[t := Ready])
    case Wait(t) =>
      var q := Join(s.queue, t);
      s.(queue := q, tasks := s.tasks[t := if q[0] == t then Past else Asleep])
    case Signal(t) => s.(tasks := s.tasks[t := Ready])
    case Send(t) => s.(flight := Sent(t, s.counter))
    case Serve(err) =>
      var (answer, next) := ServerAnswer(s.expected, s.flight.seqid, err);
      s.(expected := next, flight := Answered(s.flight.t, answer))
    case Account =>
      s.(counter := if SeqidMutatingErr(s.flight.err) then Succ(s.counter) else s.counter, flight := NoFlight)
    case Lose => s.(flight := NoFlight)
    case Release(t) =>
      var q := Without(s.queue, t);
      s.(queue := q, tasks := WakeHead(q, s.tasks[t := Out]))
  }

  // ---------- the invariant ----------

  /** The head is never asleep, nobody sleeps outside the queue, and whoever is past the
      wait is the head. */
  ghost predicate QueueOk(s: State) {
    && NoDups(s.queue)
    && (forall t :: TaskOf(s, t).Past? ==> s.queue != [] && s.queue[0] == t)
    && (forall t :: TaskOf(s, t).Asleep? ==> t in s.queue && s.queue[0] != t)
  }

  /** ... and the request under way is that task's. */
  ghost predicate QueueInv(s: State) {
    QueueOk(s) && (!s.flight.NoFlight? ==> TaskOf(s, s.flight.t).Past?)
  }

  /** Client and server agree on the seqid, up to a reply that is on its way. */
  ghost predicate CounterOk(s: State) {
    match s.flight
    case NoFlight => s.counter == s.expected
    case Sent(_, n) => s.counter == s.expected && n == s.counter
    case Answered(_, err) =>
      err != NFS4ERR_BAD_SEQID && s.expected == if SeqidMutatingErr(err) then Succ(s.counter) else s.counter
  }

  ghost predicate Inv(s: State) {
    QueueInv(s) && CounterOk(s) && s.counter < 0x1_0000_0000
  }

  /** The reply to a request that the server has counted does not arrive. */
  predicate LosesCounted(s: State, e: Event) {
    e.Lose? && s.flight.Answered? && SeqidMutatingErr(s.flight.err)
  }

  lemma StepKeepsQueue(s: State, e: Event)
    requires QueueInv(s) && Enabled(s, e)
    ensures QueueInv(Apply(s, e))
  {
    var s' := Apply(s, e);
    match e {
      case Wait(t) => WaitKeeps(s, t);
      case Release(t) => ReleaseKeeps(s, t);
      case _ =>
        assert forall t :: TaskOf(s', t).Past? ==> TaskOf(s, t).Past?;
        assert forall t :: TaskOf(s', t).Asleep? ==> TaskOf(s, t).Asleep?;
    }
  }

  /** Every step keeps queue and counter right, except exactly that loss, after which the
      client is one behind. */
  lemma StepKeepsIff(s: State, e: Event)
    requires Inv(s) && Enabled(s, e)
    ensures Inv(Apply(s, e)) <==> !LosesCounted(s, e)
    ensures LosesCounted(s, e) ==> Apply(s, e).expected == Succ(Apply(s, e).counter) != Apply(s, e).counter
  {
    StepKeepsQueue(s, e);
  }

  /** What follows from such a loss: the next request of the owner is refused. */
  lemma NextIsRefused(s: State, t: Tid, err: nat)
    requires s.expected != s.counter && Enabled(s, Send(t)) && err != NFS4ERR_BAD_SEQID
    ensures Apply(Apply(s, Send(t)), Serve(err)).flight == Answered(t, NFS4ERR_BAD_SEQID)
  {
  }

  lemma WaitKeeps(s: State, t: Tid)
    requires QueueInv(s) && Enabled(s, Wait(t))
    ensures QueueInv(Apply(s, Wait(t)))
  {
    var s' := Apply(s, Wait(t));
    assert forall u :: u in s.queue ==> u in s'.queue;
    assert t in s'.queue by {
      if t !in s.queue { assert s'.queue[|s.queue|] == t; }
    }
    forall u | TaskOf(s', u).Past? ensures s'.queue[0] == u {
      if u != t { assert TaskOf(s, u).Past?; }
    }
    forall u | TaskOf(s', u).Asleep? ensures u in s'.queue && s'.queue[0] != u {
      if u != t { assert TaskOf(s, u).Asleep?; }
    }
  }

  lemma ReleaseKeeps(s: State, t: Tid)
    requires QueueInv(s) && Enabled(s, Release(t))
    ensures QueueInv(Apply(s, Release(t)))
  {
    var s' := Apply(s, Release(t));
    WithoutKeeps(s.queue, t);
    forall u | TaskOf(s', u).Past? ensures s'.queue != [] && s'.queue[0] == u {
      assert TaskOf(s, u).Past? && u != t;
    }
    forall u | TaskOf(s', u).Asleep? ensures u in s'.queue && s'.queue[0] != u {
      assert TaskOf(s, u).Asleep? && u != t;
    }
  }

  // ---------- runs ----------

  ghost predicate Initial(s: State) {
    s.queue == [] && s.tasks == map[] && s.counter == s.expected < 0x1_0000_0000 && s.flight.NoFlight?
  }

  ghost predicate Next(s: State, s': State) {
    exists e :: Enabled(s, e) && s' == Apply(s, e)
  }

  ghost predicate IsRun(run: seq<State>) {
    && |run| > 0 && Initial(run[0])
    && forall i, j {:trigger Next(run[i], run[j])} :: 0 <= i && j == i + 1 && j < |run| ==> Next(run[i], run[j])
  }

  lemma {:induction false} RunsKeepQueue(run: seq<State>, i: nat)
    requires IsRun(run) && i < |run|
    ensures QueueInv(run[i])
  {
    if i > 0 {
      RunsKeepQueue(run, i - 1);
      assert Next(run[i - 1], run[i]);
      var e :| Enabled(run[i - 1], e) && run[i] == Apply(run[i - 1], e);
      StepKeepsQueue(run[i - 1], e);
    }
  }

  /** In every run, whatever is lost: at most one request per owner is past the wait, it is
      the head, and the head is never left asleep. */
  lemma RunsAreOrdered(run: seq<State>, i: nat)
    requires IsRun(run) && i < |run|
    ensures forall t, u :: TaskOf(run[i], t).Past? && TaskOf(run[i], u).Past? ==> t == u
    ensures forall t :: TaskOf(run[i], t).Past? ==> run[i].queue != [] && run[i].queue[0] == t
    ensures run[i].queue != [] ==> !TaskOf(run[i], run[i].queue[0]).Asleep?
  {
    RunsKeepQueue(run, i);
  }

  /** A step that loses no counted request. */
  ghost predicate CleanNext(s: State, s': State) {
    exists e :: Enabled(s, e) && !LosesCounted(s, e) && s' == Apply(s, e)
  }

  ghost predicate IsCleanRun(run: seq<State>) {
    && |run| > 0 && Initial(run[0])
    && forall i, j {:trigger CleanNext(run[i], run[j])} ::
         0 <= i && j == i + 1 && j < |run| ==> CleanNext(run[i], run[j])
  }

  /** In every run that loses no counted request, the client's counter is what the server
      expects whenever no request is under way, so none is ever refused for its seqid. */
  lemma {:induction false} CleanRunsAgree(run: seq<State>, i: nat)
    requires IsCleanRun(run) && i < |run|
    ensures Inv(run[i])
    ensures run[i].flight.NoFlight? ==> run[i].counter == run[i].expected
    ensures run[i].flight.Answered? ==> run[i].flight.err != NFS4ERR_BAD_SEQID
  {
    if i > 0 {
      CleanRunsAgree(run, i - 1);
      assert CleanNext(run[i - 1], run[i]);
      var e :| Enabled(run[i - 1], e) && !LosesCounted(run[i - 1], e) && run[i] == Apply(run[i - 1], e);
      StepKeepsIff(run[i - 1], e);
    }
  }

  lemma StepKeepsOrder(s: State, e: Event, a: Tid, b: Tid)
    requires QueueInv(s) && Enabled(s, e) && Before(s.queue, a, b)
    requires e != Release(a) && e != Release(b)
    ensures Before(Apply(s, e).queue, a, b)
  {
    match e {
      case Wait(t) =>
        var i, j :| 0 <= i < j < |s.queue| && s.queue[i] == a && s.queue[j] == b;
        assert Apply(s, e).queue[i] == a && Apply(s, e).queue[j] == b;
      case Release(t) => WithoutOrder(s.queue, t, a, b);
      case _ =>
    }
  }

  lemma NextKeepsOrder(s: State, s': State, a: Tid, b: Tid)
    requires QueueInv(s) && Next(s, s') && Before(s.queue, a, b) && a in s'.queue && b in s'.queue
    ensures Before(s'.queue, a, b)
  {
    var e :| Enabled(s, e) && s' == Apply(s, e);
    if e.Release? { WithoutKeeps(s.queue, e.t); }
    StepKeepsOrder(s, e, a, b);
  }

  lemma LaterWaits(s: State, a: Tid, b: Tid)
    requires QueueInv(s) && Before(s.queue, a, b)
    ensures !TaskOf(s, b).Past?
  {
    var q := s.queue;
    var i, j :| 0 <= i < j < |q| && q[i] == a && q[j] == b;
    assert q[0] == b ==> j == 0;
  }

  /** Whoever joins the queue comes after all who are in it. */
  lemma NewcomerIsLast(s: State, s': State, a: Tid, b: Tid)
    requires QueueInv(s) && Next(s, s') && a in s.queue && a in s'.queue && b !in s.queue && b in s'.queue
    ensures Before(s'.queue, a, b)
  {
    var e :| Enabled(s, e) && s' == Apply(s, e);
    match e {
      case Wait(t) =>
        var i :| 0 <= i < |s.queue| && s.queue[i] == a;
        assert s'.queue[i] == a && s'.queue[|s.queue|] == b;
      case Release(t) => WithoutKeeps(s.queue, t);
      case _ =>
    }
  }

  lemma ArrivalStep(run: seq<State>, j: nat, a: Tid, b: Tid)
    requires IsRun(run) && 0 < j < |run| && a in run[j - 1].queue && a in run[j].queue && b in run[j].queue
    requires b in run[j - 1].queue ==> Before(run[j - 1].queue, a, b)
    ensures Before(run[j].queue, a, b)
  {
    RunsKeepQueue(run, j - 1);
    assert Next(run[j - 1], run[j]);
    if b in run[j - 1].queue {
      NextKeepsOrder(run[j - 1], run[j], a, b);
    } else {
      NewcomerIsLast(run[j - 1], run[j], a, b);
    }
  }

  lemma {:induction false} ArrivalOrder(run: seq<State>, i: nat, j: nat, a: Tid, b: Tid)
    requires IsRun(run) && i <= j < |run| && b !in run[i].queue && b in run[j].queue
    requires forall k :: i <= k <= j ==> a in run[k].queue
    ensures Before(run[j].queue, a, b)
    decreases j
  {
    if b in run[j - 1].queue { ArrivalOrder(run, i, j - 1, a, b); }
    ArrivalStep(run, j, a, b);
  }

  /** First in, first out: a is queued when b is not; as long as a stays queued, b never gets
      past the wait, however often it comes and goes. */
  lemma FirstInFirstOut(run: seq<State>, i: nat, j: nat, a: Tid, b: Tid)
    requires IsRun(run) && i <= j < |run| && b !in run[i].queue
    requires forall k :: i <= k <= j ==> a in run[k].queue
    ensures !TaskOf(run[j], b).Past?
    ensures b in run[j].queue ==> Before(run[j].queue, a, b)
  {
    RunsKeepQueue(run, j);
    if b in run[j].queue {
      ArrivalOrder(run, i, j, a, b);
      LaterWaits(run[j], a, b);
    }
  }

  // ---------- struct nfs_seqid_counter ----------

  class SeqidCounter {
    var list: seq<Tid>
    var asleep: set<Tid>
    var counter: nat

    /** The fields show state s of the machine above. */
    ghost predicate Shows(s: State)
      reads this
    {
      && list == s.queue && counter == s.counter
      && forall t :: t in asleep <==> TaskOf(s, t).Asleep?
    }

    /** nfs_wait_on_sequence, called by a running task; true is -EAGAIN */
    method WaitOnSequence(t: Tid, ghost s: State) returns (again: bool)
      requires QueueInv(s) && Shows(s) && Enabled(s, Wait(t))
      modifies this
      ensures Shows(Apply(s, Wait(t))) && (again <==> TaskOf(Apply(s, Wait(t)), t).Asleep?)
      ensures list == Join(old(list), t) && (again <==> list[0] != t)
    {
      if t !in list {
        list := list + [t];
        assert list[|list| - 1] == t;
      }
      if list[0] == t { return false; }
      asleep := asleep + {t};
      return true;
    }

    /** nfs_release_seqid of a queued request; for one that is not queued nothing happens */
    method ReleaseSeqid(t: Tid, ghost s: State)
      requires QueueInv(s) && Shows(s) && (t in s.queue ==> Enabled(s, Release(t)))
      modifies this
      ensures Shows(if t in s.queue then Apply(s, Release(t)) else s)
      ensures list == Without(old(list), t)
      ensures asleep == old(asleep) - if t in old(list) && list != [] then {list[0]} else {}
    {
      if t !in list { return; }
      WithoutKeeps(list, t);
      list := Without(list, t);
      if list != [] { asleep := asleep - {list[0]}; }
    }

    /** nfs_increment_seqid: its list of statuses is exactly the server's rule. */
    method IncrementSeqid(status: int, ghost s: State)
      requires status <= 0 && Shows(s) && s.flight.Answered? && s.flight.err == -status
      modifies this`counter
      ensures Shows(Apply(s, Account))
      ensures counter == if SeqidMutatingErr(-status) then Succ(old(counter)) else old(counter)
    {
      var err: nat := -status;
      if err != 0 {
        if err == NFS4ERR_BAD_SEQID {
          return;
        }
        if err == NFS4ERR_STALE_CLIENTID || err == NFS4ERR_STALE_STATEID || err == NFS4ERR_BAD_STATEID
           || err == NFS4ERR_BADXDR || err == NFS4ERR_RESOURCE || err == NFS4ERR_NOFILEHANDLE {
          return;
        }
      }
      counter := Succ(counter);
    }
  }
}
