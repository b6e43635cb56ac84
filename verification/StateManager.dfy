/** The one-manager protocol of the NFSv4 state manager: work bits are posted by any task,
    MANAGER_RUNNING is the manager's ownership of the client, and a manager that gives it
    up looks once more for work that was posted meanwhile. */
module StateManager {

  datatype Bit = PurgeState | LeaseExpired | SessionReset | BindConn | CheckLease | Moved | LeaseMoved
               | ReclaimReboot | ReclaimNograce | Delegreturn

  type Mid = nat

  datatype Pc =
    | Creating     // nfs4_schedule_state_manager won the bit and is in kthread_run
    | Body         // inside the loop of nfs4_state_manager
    | Cleared      // has cleared MANAGER_RUNNING, about to read cl_state
    | Recheck      // saw cl_state != 0, about to test_and_set MANAGER_RUNNING
    | Gone

  /** pending: tasks that have set a work bit and not yet called schedule. */
  datatype State = State(work: set<Bit>, running: bool, pending: nat, managers: map<Mid, Pc>)

  datatype Event =
    | Post(b: Bit)
    | Schedule(m: Mid)
    | Created(m: Mid)
    | CreateFails(m: Mid)
    | Handle(m: Mid, left: set<Bit>)     // sections of the loop body: any change of the work bits
    | Clear(m: Mid)                      // nfs4_clear_state_manager_bit at the end of a pass
    | Look(m: Mid)                       // the test of cl_state
    | Again(m: Mid)                      // test_and_set of MANAGER_RUNNING
    | ErrorExit(m: Mid)                  // out_error

  function PcOf(s: State, m: Mid): (pc: Pc) {
    if m in s.managers then s.managers[m] else Gone
  }

  function SetPc(s: State, m: Mid, pc: Pc): (r: State) {
    s.(managers := s.managers[m := pc])
  }

  predicate Enabled(s: State, e: Event) {
    match e
    case Post(_) => true
    case Schedule(m) => s.pending > 0 && PcOf(s, m).Gone?
    case Created(m) => PcOf(s, m).Creating?
    case CreateFails(m) => PcOf(s, m).Creating?
    case Handle(m, _) => PcOf(s, m).Body?
    case Clear(m) => PcOf(s, m).Body?
    case Look(m) => PcOf(s, m).Cleared?
    case Again(m) => PcOf(s, m).Recheck?
    case ErrorExit(m) => PcOf(s, m).Body?
  }

  function Apply(s: State, e: Event): (r: State)
    requires Enabled(s, e)
  {
    match e
    case Post(b) => s.(work := s.work + {b}, pending := s.pending + 1)
    case Schedule(m) =>
      var s1 := s.(pending := s.pending - 1);
      if s.running then s1 else SetPc(s1.(running := true), m, Creating)
    case Created(m) => SetPc(s, m, Body)
    case CreateFails(m) => SetPc(s.(running := false), m, Gone)
    case Handle(m, left) => s.(work := left)
    case Clear(m) => SetPc(s.(running := false), m, Cleared)
    case Look(m) => if s.work == {} && !s.running then SetPc(s, m, Gone) else SetPc(s, m, Recheck)
    case Again(m) => if s.running then SetPc(s, m, Gone) else SetPc(s.(running := true), m, Body)
    case ErrorExit(m) => SetPc(s.(running := false), m, Gone)
  }

  // ---------- the invariant ----------

  predicate Owns(pc: Pc) { pc.Creating? || pc.Body? }

  predicate Looking(pc: Pc) { pc.Cleared? || pc.Recheck? }

  /** MANAGER_RUNNING is set exactly while one manager owns it. */
  ghost predicate OneOwner(s: State) {
    && (forall m, k :: Owns(PcOf(s, m)) && Owns(PcOf(s, k)) ==> m == k)
    && (s.running <==> exists m :: Owns(PcOf(s, m)))
  }

  /** Somebody will still act on the work bits: the owner, a task that is about to
      schedule, or a manager that is about to look again. */
  ghost predicate Attended(s: State) {
    s.running || s.pending > 0 || exists m :: Looking(PcOf(s, m))
  }

  ghost predicate NotStranded(s: State) {
    s.work != {} ==> Attended(s)
  }

  ghost predicate Inv(s: State) {
    OneOwner(s) && NotStranded(s)
  }

  /** The two exits that give up MANAGER_RUNNING without looking again. */
  ghost predicate GivesUpBlindly(s: State, e: Event) {
    && (e.CreateFails? || e.ErrorExit?)
    && s.work != {} && s.pending == 0 && forall m :: !Looking(PcOf(s, m))
  }

  lemma OwnerKept(s: State, e: Event)
    requires OneOwner(s) && Enabled(s, e)
    ensures OneOwner(Apply(s, e))
  {
    var s' := Apply(s, e);
    if e.Post? || e.Handle? {
      assert forall k :: PcOf(s', k) == PcOf(s, k);
    } else {
      assert forall k :: k != e.m ==> PcOf(s', k) == PcOf(s, k);
      OwnerMoves(s, s', e.m);
    }
  }

  lemma OwnerMoves(s: State, s': State, m: Mid)
    requires OneOwner(s) && forall k :: k != m ==> PcOf(s', k) == PcOf(s, k)
    requires Owns(PcOf(s', m)) ==> s'.running && (!s.running || Owns(PcOf(s, m)))
    requires !Owns(PcOf(s', m)) ==> (s'.running <==> s.running && !Owns(PcOf(s, m)))
    ensures OneOwner(s')
  {
    if s.running {
      var k :| Owns(PcOf(s, k));
      assert k != m ==> Owns(PcOf(s', k));
    }
    if k :| Owns(PcOf(s', k)) { assert k != m ==> Owns(PcOf(s, k)); }
  }

  /** A step leaves work unattended exactly when it is one of those exits and nobody else
      was about to look. */
  lemma StrandedIff(s: State, e: Event)
    requires Inv(s) && Enabled(s, e)
    ensures NotStranded(Apply(s, e)) <==> !GivesUpBlindly(s, e)
  {
    var s' := Apply(s, e);
    OwnerKept(s, e);
    match e {
      case Handle(m, left) => assert Owns(PcOf(s, m));
      case Clear(m) => assert Looking(PcOf(s', m));
      case Look(m) => if !(s.work == {} && !s.running) { assert Looking(PcOf(s', m)); }
      case Again(m) =>
      case Post(b) =>
      case _ => assert forall k :: Looking(PcOf(s', k)) == Looking(PcOf(s, k));
    }
  }

  /** A manager that has given up MANAGER_RUNNING goes exactly when it then finds no bit set. */
  lemma LeavesIff(s: State, m: Mid)
    requires Enabled(s, Look(m))
    ensures PcOf(Apply(s, Look(m)), m).Gone? <==> s.work == {} && !s.running
  {
  }

  /** A manager that sees work goes on exactly when no other has taken the client over. */
  lemma TakesOverIff(s: State, m: Mid)
    requires Enabled(s, Again(m))
    ensures PcOf(Apply(s, Again(m)), m).Body? <==> !s.running
    ensures Apply(s, Again(m)).running
  {
  }

  /** A manager whose work is done ends, and leaves the client to nobody. */
  lemma IdleManagerEnds(s: State, m: Mid)
    requires OneOwner(s) && PcOf(s, m).Body? && s.work == {}
    ensures var t := Apply(Apply(s, Clear(m)), Look(m));
      PcOf(t, m).Gone? && !t.running && t.work == {} && forall k :: k != m ==> PcOf(t, k) == PcOf(s, k)
  {
  }

  /** A task that schedules starts a manager exactly when none runs. */
  lemma SchedulesIff(s: State, m: Mid)
    requires Enabled(s, Schedule(m))
    ensures PcOf(Apply(s, Schedule(m)), m).Creating? <==> !s.running
    ensures Apply(s, Schedule(m)).running
  {
  }

  // ---------- runs ----------

  ghost predicate Initial(s: State) {
    s.work == {} && !s.running && s.pending == 0 && s.managers == map[]
  }

  ghost predicate Next(s: State, s': State) {
    exists e :: Enabled(s, e) && !GivesUpBlindly(s, e) && s' == Apply(s, e)
  }

  ghost predicate IsRun(run: seq<State>) {
    && |run| > 0 && Initial(run[0])
    && forall i, j {:trigger Next(run[i], run[j])} :: 0 <= i && j == i + 1 && j < |run| ==> Next(run[i], run[j])
  }

  ghost predicate Quiet(s: State) {
    s.pending == 0 && forall m :: PcOf(s, m).Gone?
  }

  /** In every run without a blind exit, one manager at most owns the client, and when
      every task has scheduled and every manager has gone, no work is left. */
  lemma {:induction false} RunsStrandNothing(run: seq<State>, i: nat)
    requires IsRun(run) && i < |run|
    ensures Inv(run[i])
    ensures Quiet(run[i]) ==> run[i].work == {} && !run[i].running
  {
    if i > 0 {
      RunsStrandNothing(run, i - 1);
      assert Next(run[i - 1], run[i]);
      var e :| Enabled(run[i - 1], e) && !GivesUpBlindly(run[i - 1], e) && run[i] == Apply(run[i - 1], e);
      OwnerKept(run[i - 1], e);
      StrandedIff(run[i - 1], e);
    }
  }
}
