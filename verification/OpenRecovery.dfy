/** nfs4_open_recover beside everything that may go on meanwhile: files are closed, opened
    from the cache and opened through a delegation while the state manager reclaims the
    three modes one after the other with so_lock dropped.

    Ordinary OPEN and CLOSE calls wait until the recovery is over. */
module OpenRecovery {
  import opened Common
  import opened OpenState
  import Runs = OpenStateRuns

  /** Where the recovery stands; a mode is tested, reclaimed, stored, counted and dropped. */
  datatype Stage =
    | Off
    | Testing(m: Mode)
    | Asked(m: Mode)
    | Stored(m: Mode)
    | Counted(m: Mode)
    | Done

  /** users: the openers that tasks hold; half: delegated opens that have stored the stateid
      and not yet counted; asked: a CLOSE has been started; closed: a task has closed a file
      since the recovery began; other: what the server's stateids have in common. */
  datatype State = State(core: Core, stage: Stage, users: PerMode<nat>, half: PerMode<nat>,
                         asked: bool, closed: bool, other: nat)

  datatype Event =
    | Begin                                         // the flags are cleared
    | Test                                          // n_rdwr, n_wronly or n_rdonly is read
    | Store(id: Stateid, deleg: Option<Stateid>)    // the reclaim was granted
    | Count
    | Drop                                          // nfs4_close_state of the helper
    | CachedOpen(m: Mode)
    | DelegStore(m: Mode, id: Stateid)
    | DelegCount(m: Mode)
    | CloseFile(m: Mode)

  function After(m: Mode): (s: Stage) {
    match m case RW => Testing(W) case W => Testing(R) case R => Done
  }

  predicate Enabled(s: State, e: Event) {
    match e
    case Begin => s.stage.Off?
    case Test => s.stage.Testing?
    case Store(id, _) => s.stage.Asked? && id.other == s.other
    case Count => s.stage.Stored?
    case Drop => s.stage.Counted? && N(s.core, s.stage.m) > 0
    case CachedOpen(m) => CanOpenCached(s.core, m)
    case DelegStore(_, _) => true
    case DelegCount(m) => s.half.At(m) > 0
    case CloseFile(m) => s.users.At(m) > 0 && N(s.core, m) > 0
  }

  function Apply(s: State, e: Event): (r: State)
    requires Enabled(s, e)
  {
    match e
    case Begin => s.(core := Runs.ClearAll(s.core), stage := Testing(RW), asked := false, closed := false)
    case Test => s.(stage := if N(s.core, s.stage.m) > 0 then Asked(s.stage.m) else After(s.stage.m))
    case Store(id, deleg) => s.(core := UpdateStateid(s.core, Some(id), deleg, s.stage.m), stage := Stored(s.stage.m))
    case Count => s.(core := CountOpener(s.core, s.stage.m), stage := Counted(s.stage.m))
    case Drop =>
      var (c, call) := CloseOpener(s.core, s.stage.m);
      s.(core := c, stage := After(s.stage.m), asked := s.asked || call)
    case CachedOpen(m) => s.(core := CountOpener(s.core, m), users := s.users.With(m, s.users.At(m) + 1))
    case DelegStore(m, id) =>
      s.(core := UpdateStateid(s.core, None, Some(id), m), half := s.half.With(m, s.half.At(m) + 1))
    case DelegCount(m) =>
      s.(core := CountOpener(s.core, m), users := s.users.With(m, s.users.At(m) + 1),
         half := s.half.With(m, s.half.At(m) - 1))
    case CloseFile(m) =>
      var (c, call) := CloseOpener(s.core, m);
      s.(core := c, users := s.users.With(m, s.users.At(m) - 1), asked := s.asked || call, closed := true)
  }

  // ---------- the invariant ----------

  /** The helper's own opener. */
  function Own(s: State, m: Mode): (n: nat) { if s.stage == Counted(m) then 1 else 0 }

  /** The counters are the tasks' openers and, for a moment, the helper's. */
  ghost predicate CountsOk(s: State) {
    && s.core.n.r == s.users.r + Own(s, R)
    && s.core.n.w == s.users.w + Own(s, W)
    && s.core.n.rw == s.users.rw + Own(s, RW)
  }

  function Rank(m: Mode): (n: nat) { match m case RW => 0 case W => 1 case R => 2 }

  /** The recovery is past the point where it stores mode m, or found nobody using it. */
  predicate Passed(s: Stage, m: Mode) {
    match s
    case Off => false
    case Testing(k) => Rank(m) < Rank(k)
    case Asked(k) => Rank(m) < Rank(k)
    case Stored(k) => Rank(m) <= Rank(k)
    case Counted(k) => Rank(m) <= Rank(k)
    case Done => true
  }

  ghost predicate CoveredAt(s: State, m: Mode) {
    Passed(s.stage, m) && s.users.At(m) > 0 ==> Flag(s.core, m) || s.core.delegated
  }

  /** Whoever uses a mode the recovery has passed is covered by its flag or a delegation, and
      a delegated open between its halves finds the delegation still there. */
  ghost predicate Covered(s: State) {
    && CoveredAt(s, R) && CoveredAt(s, W) && CoveredAt(s, RW)
    && (s.half != PerMode(0, 0, 0) ==> s.core.delegated)
  }

  /** A wasted flag never goes unnoticed, except until the helper has dropped its opener. */
  ghost predicate CloseOk(s: State) {
    !s.stage.Off? && !s.stage.Stored? && !s.stage.Counted? && Wasted(s.core) ==> s.asked
  }

  /** As long as no task closes a file: only modes in use are flagged or being reclaimed, and
      no CLOSE is started. */
  ghost predicate QuietOk(s: State) {
    !s.stage.Off? && !s.closed ==>
      && !s.asked
      && (s.core.flags.r ==> s.users.r > 0)
      && (s.core.flags.w ==> s.users.w > 0)
      && (s.core.flags.rw ==> s.users.rw > 0)
      && (s.stage.Asked? || s.stage.Stored? || s.stage.Counted? ==> s.users.At(s.stage.m) > 0)
  }

  ghost predicate StateidOk(s: State) {
    && (!s.stage.Off? && s.core.open ==> s.core.openStateid.other == s.other)
    && (s.stage.Stored? || s.stage.Counted? ==> Flag(s.core, s.stage.m))
  }

  ghost predicate Inv(s: State) {
    CountsOk(s) && ModeIsUnion(s.core) && Covered(s) && CloseOk(s) && QuietOk(s) && StateidOk(s)
  }

  /** The steps that take the delegation away from a delegated open between its halves: the
      clearing of the flags, and a close that leaves no opener. */
  ghost predicate Races(s: State, e: Event)
    requires Enabled(s, e)
  {
    && s.half != PerMode(0, 0, 0)
    && (e.Begin? || ((e.CloseFile? || e.Drop?) && Apply(s, e).core.n == PerMode(0, 0, 0)))
  }

  lemma CountsKept(s: State, e: Event)
    requires CountsOk(s) && Enabled(s, e)
    ensures CountsOk(Apply(s, e))
  {
    match e {
      case Drop => CloseCounts(s.core, s.stage.m);
      case CloseFile(m) => ClosingCounts(s, m);
      case CachedOpen(m) => OpeningCounts(s, e, m);
      case DelegCount(m) => OpeningCounts(s, e, m);
      case Store(id, deleg) => StoreCounts(s.core, id, deleg, s.stage.m);
      case _ =>
    }
  }

  lemma ClosingCounts(s: State, m: Mode)
    requires CountsOk(s) && Enabled(s, CloseFile(m))
    ensures CountsOk(Apply(s, CloseFile(m)))
  {
    CloseCounts(s.core, m);
  }

  lemma OpeningCounts(s: State, e: Event, m: Mode)
    requires CountsOk(s) && Enabled(s, e) && (e == CachedOpen(m) || e == DelegCount(m))
    ensures CountsOk(Apply(s, e))
  {
  }

  lemma CloseCounts(c: Core, m: Mode)
    requires N(c, m) > 0
    ensures CloseOpener(c, m).0.n == c.n.With(m, N(c, m) - 1)
  {
  }

  lemma StoreCounts(c: Core, id: Stateid, deleg: Option<Stateid>, m: Mode)
    ensures UpdateStateid(c, Some(id), deleg, m).n == c.n
  {
  }

  lemma ModeKept(s: State, e: Event)
    requires ModeIsUnion(s.core) && Enabled(s, e)
    ensures ModeIsUnion(Apply(s, e).core)
  {
    match e {
      case Count => CountOpenerUnion(s.core, s.stage.m);
      case Drop => CloseOpenerUnion(s.core, s.stage.m);
      case CachedOpen(m) => CountOpenerUnion(s.core, m);
      case DelegCount(m) => CountOpenerUnion(s.core, m);
      case CloseFile(m) => CloseOpenerUnion(s.core, m);
      case _ =>
    }
  }

  lemma StateidKept(s: State, e: Event)
    requires Inv(s) && Enabled(s, e)
    ensures StateidOk(Apply(s, e))
  {
  }

  lemma CoveredKeptIff(s: State, e: Event)
    requires Inv(s) && Enabled(s, e)
    ensures Covered(Apply(s, e)) <==> !Races(s, e)
  {
    match e {
      case CloseFile(m) => ClosesCovered(s, e);
      case Drop => ClosesCovered(s, e);
      case Store(id, deleg) => StoreCovered(s, id, deleg);
      case _ =>
    }
  }

  lemma ClosesCovered(s: State, e: Event)
    requires Inv(s) && Enabled(s, e) && (e.CloseFile? || e.Drop?)
    ensures Covered(Apply(s, e)) <==> !Races(s, e)
  {
  }

  lemma StoreCovered(s: State, id: Stateid, deleg: Option<Stateid>)
    requires Inv(s) && Enabled(s, Store(id, deleg))
    ensures Covered(Apply(s, Store(id, deleg)))
  {
    FlagKeptIff(if deleg.Some? then s.core.(stateid := deleg.value, delegated := true) else s.core, id, s.stage.m);
  }

  lemma CloseKept(s: State, e: Event)
    requires Inv(s) && Enabled(s, e)
    ensures CloseOk(Apply(s, e))
  {
  }

  lemma QuietKept(s: State, e: Event)
    requires Inv(s) && Enabled(s, e)
    ensures QuietOk(Apply(s, e))
  {
  }

  /** Every step of the recovery and of the tasks beside it keeps the invariant, except
      exactly those races. */
  lemma StepKeepsIff(s: State, e: Event)
    requires Inv(s) && Enabled(s, e)
    ensures Inv(Apply(s, e)) <==> !Races(s, e)
  {
    CountsKept(s, e);
    ModeKept(s, e);
    StateidKept(s, e);
    CoveredKeptIff(s, e);
    CloseKept(s, e);
    QuietKept(s, e);
  }

  // ---------- runs ----------

  /** Any state of affairs before the recovery: the counters are right, and so is the
      delegation. */
  ghost predicate Initial(s: State) {
    s.stage.Off? && CountsOk(s) && ModeIsUnion(s.core) && (s.half != PerMode(0, 0, 0) ==> s.core.delegated)
  }

  ghost predicate Next(s: State, t: State) {
    exists e :: Enabled(s, e) && !Races(s, e) && t == Apply(s, e)
  }

  ghost predicate IsRun(run: seq<State>) {
    && |run| > 0 && Initial(run[0])
    && forall i, j {:trigger Next(run[i], run[j])} :: 0 <= i && j == i + 1 && j < |run| ==> Next(run[i], run[j])
  }

  lemma {:induction false} RunsKeepInv(run: seq<State>, i: nat)
    requires IsRun(run) && i < |run|
    ensures Inv(run[i])
  {
    if i > 0 {
      RunsKeepInv(run, i - 1);
      assert Next(run[i - 1], run[i]);
      var e :| Enabled(run[i - 1], e) && !Races(run[i - 1], e) && run[i] == Apply(run[i - 1], e);
      StepKeepsIff(run[i - 1], e);
    }
  }

  /** What a recovery that runs to its end guarantees, whatever went on beside it: the
      counters are the tasks' own, every mode in use is covered, access that nobody uses any
      more is not kept at the server without a CLOSE on its way, and no CLOSE is started if
      no task has closed a file. */
  lemma RecoveryGuarantees(run: seq<State>, i: nat, srv: Runs.Server)
    requires IsRun(run) && i < |run| && run[i].stage.Done?
    ensures run[i].core.n == run[i].users && ModeIsUnion(run[i].core)
    ensures Runs.Covered(Runs.State(run[i].core, srv, Runs.Free, run[i].half, 0))
    ensures Wasted(run[i].core) ==> run[i].asked
    ensures !run[i].closed ==> !run[i].asked && forall m :: Flag(run[i].core, m) ==> run[i].users.At(m) > 0
  {
    RunsKeepInv(run, i);
  }

  /** The race of the first kind: a delegated open stores its stateid, the recovery clears
      the delegated bit and finds no opener in any mode, and the open is counted then. */
  lemma RecoveryRaceUncovers(d: Stateid)
    ensures var core := Core(PerMode(0, 0, 0), NO_FLAGS, false, false, false, NO_ACCESS, d, d);
      var s0 := State(core, Off, PerMode(0, 0, 0), PerMode(0, 0, 0), false, false, d.other);
      var s1 := Apply(s0, DelegStore(R, d));
      var s5 := Apply(Apply(Apply(Apply(s1, Begin), Test), Test), Test);
      var s6 := Apply(s5, DelegCount(R));
      && Initial(s0) && Races(s1, Begin) && s6.stage.Done?
      && N(s6.core, R) == 1 && s6.core.flags == NO_FLAGS && !s6.core.delegated
  {
  }
}
