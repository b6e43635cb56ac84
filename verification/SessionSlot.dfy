/** One NFSv4.1 session slot: the client's sequence number, the mark left by a call whose
    answer was lost, and the server's rule of section 2.10.6.1 of RFC 5661. */
module SessionSlot {
  import opened Common

  /** sr_status after a SEQUENCE operation; RpcFailed is the initial value 1. */
  datatype Status = Success | RpcFailed | Delay | BadSlot | Misordered | FalseRetry | OtherError

  datatype Slot = Slot(seqNr: nat, interrupted: bool)

  /** What nfs41_sequence_done does: the slot, whether it is released, and whether the
      call is restarted. */
  datatype Done = Done(slot: Slot, released: bool, restart: bool)

  /** nfs41_sequence_done; alive says whether the RPC layer can still restart the call. */
  function SequenceDone(slot: Slot, sent: bool, status: Status, alive: bool): (r: Done) {
    if !sent then Done(slot, true, false)
    else
      var clear, bump := slot.(interrupted := false), Slot(Succ(slot.seqNr), false);
      match status
      case Success => Done(bump, true, false)
      case RpcFailed => Done(slot.(interrupted := true), true, false)
      case Delay => Done(clear, !alive, alive)
      case BadSlot => Done(clear, true, alive)
      case Misordered =>
        if slot.interrupted then Done(bump, true, alive)
        else if slot.seqNr != 1 then Done(Slot(1, false), true, alive)
        else Done(clear, true, false)
      case FalseRetry => Done(bump, true, alive)
      case OtherError => Done(bump, true, false)
  }

  /** struct nfs4_slot, with nfs41_sequence_done updating it in place. */
  class NfsSlot {
    var seqNr: nat
    var wasInterrupted: bool

    function View(): (s: Slot)
      reads this
    {
      Slot(seqNr, wasInterrupted)
    }

    method SequenceDoneInPlace(sent: bool, status: Status, alive: bool) returns (released: bool, restart: bool)
      modifies this
      ensures Done(View(), released, restart) == SequenceDone(old(View()), sent, status, alive)
    {
      if !sent { return true, false; }
      var interrupted := false;
      if wasInterrupted {
        wasInterrupted := false;
        interrupted := true;
      }
      match status {
        case Success => seqNr := Succ(seqNr);
        case RpcFailed => wasInterrupted := true;
        case Delay => return !alive, alive;
        case BadSlot => return true, alive;
        case Misordered =>
          if interrupted {
            seqNr := Succ(seqNr);
            return true, alive;
          }
          if seqNr != 1 {
            seqNr := 1;
            return true, alive;
          }
        case FalseRetry =>
          seqNr := Succ(seqNr);
          return true, alive;
        case OtherError => seqNr := Succ(seqNr);
      }
      return true, false;
    }
  }

  // ---------- the slot, the network and the server ----------

  datatype Phase =
    | Free
    | Prepared                   // the call has the slot and is not transmitted (again) yet
    | Flying(again: bool)        // sent; again if the server has seen this very call
    | Answer(status: Status)     // the server's answer is on its way back

  /** last is the number the server accepted last; status is the caller's sr_status, which
      only a new slot and a decoded reply write; uses and releases are counted. */
  datatype State = State(slot: Slot, last: nat, phase: Phase, status: Status, uses: nat, releases: nat)

  datatype Event =
    | Setup
    | NotSent                    // the call ends before it is transmitted (again)
    | Send
    | Serve(detect: bool, busy: bool)
    | Receive(alive: bool)
    | Lose(alive: bool)          // the call ends without a decoded reply

  /** The server: the next number is accepted; the last one is answered with DELAY while the
      call runs, and else from the cache if it is the same call, or with FALSE_RETRY if the
      server detects a different one; anything else is out of order. */
  function ServerAnswer(last: nat, seqNr: nat, again: bool, detect: bool, busy: bool): (r: (nat, Status)) {
    if seqNr == Succ(last) then (seqNr, if busy then Delay else Success)
    else if seqNr == last then (last, if busy then Delay else if !again && detect then FalseRetry else Success)
    else (last, Misordered)
  }

  predicate Enabled(s: State, e: Event) {
    match e
    case Setup => s.phase.Free?
    case NotSent => s.phase.Prepared?
    case Send => s.phase.Prepared?
    case Serve(_, _) => s.phase.Flying?
    case Receive(_) => s.phase.Answer?
    case Lose(_) => s.phase.Flying? || s.phase.Answer?
  }

  /** nfs41_sequence_done with the stored status; a restarted call keeps slot and status. */
  function Finish(s: State, sent: bool, alive: bool): (r: State) {
    var d := SequenceDone(s.slot, sent, s.status, alive);
    if d.released then s.(slot := d.slot, phase := Free, releases := s.releases + 1)
    else s.(slot := d.slot, phase := Prepared)
  }

  function Apply(s: State, e: Event): (r: State)
    requires Enabled(s, e)
  {
    match e
    case Setup => s.(phase := Prepared, status := RpcFailed, uses := s.uses + 1)
    case NotSent => Finish(s, false, true)
    case Send => s.(phase := Flying(s.status == Delay))
    case Serve(detect, busy) =>
      var (last, st) := ServerAnswer(s.last, s.slot.seqNr, s.phase.again, detect, busy);
      s.(last := last, phase := Answer(st))
    case Receive(alive) => Finish(s.(status := s.phase.status), true, alive)
    case Lose(alive) => Finish(s, true, alive)
  }

  // ---------- the invariant ----------

  /** A call with the slot whose number the server has accepted and answered with DELAY. */
  predicate Delayed(s: State) { !s.phase.Free? && s.status == Delay }

  /** The client is one past the server, or level with it, and then only while a call is
      unanswered or delayed or the slot is marked interrupted. */
  ghost predicate InStep(s: State) {
    || s.slot.seqNr == Succ(s.last)
    || (s.slot.seqNr == s.last && (s.slot.interrupted || s.phase.Flying? || s.phase.Answer? || Delayed(s)))
  }

  ghost predicate PhaseOk(s: State) {
    && s.slot.seqNr < 0x1_0000_0000 && s.last < 0x1_0000_0000
    && (s.phase.Answer? ==> (s.phase.status == Success || s.phase.status == Delay || s.phase.status == FalseRetry)
                            && s.slot.seqNr == s.last)
    && (!s.phase.Free? ==> s.status == RpcFailed || s.status == Delay)
    && (Delayed(s) ==> s.slot.seqNr == s.last && !s.slot.interrupted)
    && s.uses == s.releases + if s.phase.Free? then 0 else 1
  }

  ghost predicate Inv(s: State) {
    InStep(s) && PhaseOk(s)
  }

  /** A call that was told DELAY, now or before, gives the slot back with the number already
      used and without the interrupted mark: it cannot be restarted after that answer, or
      after the loss of a later one, or it is never sent again. */
  predicate AbandonsDelayed(s: State, e: Event) {
    match e
    case Receive(alive) => !alive && s.phase == Answer(Delay)
    case Lose(alive) => !alive && s.status == Delay
    case NotSent => s.status == Delay
    case _ => false
  }

  /** Every step keeps client and server in step, except exactly those. */
  lemma StepKeepsIff(s: State, e: Event)
    requires Inv(s) && Enabled(s, e)
    ensures PhaseOk(Apply(s, e)) && (InStep(Apply(s, e)) <==> !AbandonsDelayed(s, e))
  {
  }

  /** The server never finds such a slot out of order. */
  lemma NeverMisordered(s: State, e: Event)
    requires Inv(s) && Enabled(s, e) && e.Serve?
    ensures Apply(s, e).phase != Answer(Misordered)
  {
  }

  /** A success or a detected false retry leaves the slot free, unmarked and one ahead. */
  lemma AnswerRepairs(s: State, alive: bool)
    requires PhaseOk(s) && (s.phase == Answer(Success) || s.phase == Answer(FalseRetry))
    ensures var s' := Apply(s, Receive(alive));
      s'.phase.Free? && !s'.slot.interrupted && s'.slot.seqNr == Succ(s'.last) && s'.releases == s.releases + 1
  {
  }

  ghost predicate Initial(s: State) {
    s.last == 0 && s.slot == Slot(1, false) && s.phase.Free? && s.uses == s.releases == 0
  }

  ghost predicate Next(s: State, s': State) {
    exists e :: Enabled(s, e) && !AbandonsDelayed(s, e) && s' == Apply(s, e)
  }

  ghost predicate IsRun(run: seq<State>) {
    && |run| > 0 && Initial(run[0])
    && forall i, j {:trigger Next(run[i], run[j])} :: 0 <= i && j == i + 1 && j < |run| ==> Next(run[i], run[j])
  }

  lemma {:induction false} RunsStayInStep(run: seq<State>, i: nat)
    requires IsRun(run) && i < |run|
    ensures Inv(run[i])
    ensures run[i].phase.Free? ==> run[i].uses == run[i].releases
    ensures run[i].phase.Free? && !run[i].slot.interrupted ==> run[i].slot.seqNr == Succ(run[i].last)
    ensures run[i].phase.Answer? ==> run[i].phase.status != Misordered
  {
    if i > 0 {
      RunsStayInStep(run, i - 1);
      assert Next(run[i - 1], run[i]);
      var e :| Enabled(run[i - 1], e) && !AbandonsDelayed(run[i - 1], e) && run[i] == Apply(run[i - 1], e);
      StepKeepsIff(run[i - 1], e);
    }
  }

  // ---------- runs with abandoned calls ----------

  ghost predicate AnyNext(s: State, s': State) {
    exists e :: Enabled(s, e) && s' == Apply(s, e)
  }

  ghost predicate IsAnyRun(run: seq<State>) {
    && |run| > 0 && Initial(run[0])
    && forall i, j {:trigger AnyNext(run[i], run[j])} :: 0 <= i && j == i + 1 && j < |run| ==> AnyNext(run[i], run[j])
  }

  /** All that can go wrong: the numbers are level although nothing says so. */
  ghost predicate Level(s: State) {
    PhaseOk(s) && (s.slot.seqNr == Succ(s.last) || s.slot.seqNr == s.last)
  }

  lemma LevelKept(s: State, e: Event)
    requires Level(s) && Enabled(s, e)
    ensures Level(Apply(s, e)) && Apply(s, e).phase != Answer(Misordered)
  {
  }

  /** In every run whatsoever the numbers are level or one apart, no call is answered
      SEQ_MISORDERED, and each use of the slot is released once. */
  lemma {:induction false} AnyRunStaysLevel(run: seq<State>, i: nat)
    requires IsAnyRun(run) && i < |run|
    ensures Level(run[i]) && (run[i].phase.Free? ==> run[i].uses == run[i].releases)
    ensures run[i].phase.Answer? ==> run[i].phase.status != Misordered
  {
    if i > 0 {
      AnyRunStaysLevel(run, i - 1);
      assert AnyNext(run[i - 1], run[i]);
      var e :| Enabled(run[i - 1], e) && run[i] == Apply(run[i - 1], e);
      LevelKept(run[i - 1], e);
    }
  }

  /** An abandoned slot is mended by the next call that gets another answer than DELAY,
      however often it was delayed first: the slot ends up one ahead again. */
  lemma AbandonedIsMended(s: State, alive: bool)
    requires Level(s) && s.phase.Answer? && s.phase.status != Delay
    ensures var s' := Apply(s, Receive(alive)); s'.phase.Free? && Inv(s') && s'.slot.seqNr == Succ(s'.last)
  {
  }

  /** The three ways to abandon a call are reachable from a fresh slot: the answer DELAY ends
      it, the answer to its second transmission is lost, or there is no second one. */
  lemma AbandonIsReachable(last: Event)
    requires last == Receive(false) || last == Lose(false) || last == NotSent
    ensures var s0 := State(Slot(1, false), 0, Free, Success, 0, 0);
      var s1 := Apply(Apply(Apply(s0, Setup), Send), Serve(false, true));
      var s2 := if last.Receive? then s1 else Apply(s1, Receive(true));
      var s3 := if last.Lose? then Apply(s2, Send) else s2;
      && Initial(s0) && Enabled(s3, last) && Apply(s3, last).phase.Free?
      && Apply(s3, last).slot == Slot(1, false) && Apply(s3, last).last == 1
  {
  }

  // ---------- answers that refuse the SEQUENCE operation ----------

  predicate TriedAgain(slot: Slot, status: Status) {
    || status == Delay || status == BadSlot || status == FalseRetry
    || (status == Misordered && (slot.interrupted || slot.seqNr != 1))
  }

  /** The call is tried again exactly after DELAY, BADSLOT, a detected false retry, and a
      number out of order that the slot can explain: by an interrupted call, or by the server
      having started afresh.  After DELAY alone it keeps the slot. */
  lemma RestartIff(slot: Slot, status: Status, alive: bool)
    ensures var d := SequenceDone(slot, true, status, alive);
      && (d.restart <==> alive && TriedAgain(slot, status))
      && (!d.released <==> alive && status == Delay)
      && !SequenceDone(slot, false, status, alive).restart && SequenceDone(slot, false, status, alive).slot == slot
  {
  }

  /** The server refuses a call and leaves its own number alone. */
  function Refused(s: State, status: Status, alive: bool): (r: State)
    requires s.phase.Flying?
  {
    Apply(s.(phase := Answer(status)), Receive(alive))
  }

  /** Which refusals leave client and server in step: BADSLOT those that were one ahead, any
      other error those that were level, which is when a lost call had been executed. */
  lemma RefusedInStepIff(s: State, status: Status, alive: bool)
    requires Inv(s) && s.phase.Flying? && (status == BadSlot || status == OtherError)
    ensures var t := Refused(s, status, alive);
      && t.phase.Free? && t.last == s.last
      && (InStep(t) <==> if status == BadSlot then s.slot.seqNr == Succ(s.last) else s.slot.seqNr == s.last)
  {
  }

  /** A number out of order: the client takes the next one if its last call was interrupted,
      and else begins at 1 again, as for a slot the server has set up anew. */
  lemma MisorderedRestarts(s: State, alive: bool)
    requires s.phase.Flying? && s.slot.seqNr < 0x1_0000_0000
    ensures var t := Refused(s, Misordered, alive);
      && t.phase.Free? && !t.slot.interrupted
      && t.slot.seqNr == (if s.slot.interrupted then Succ(s.slot.seqNr) else 1)
      && (s.last == 0 && !s.slot.interrupted ==> InStep(t))
  {
  }
}
