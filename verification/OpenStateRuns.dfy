/** Every interleaving of RPC opens, cached opens, delegated opens and closes of one open
    state.

    A step is what the source does under one lock.  The owner's seqid lets at most one
    OPEN, OPEN_DOWNGRADE or CLOSE be under way; an open through a delegation and the two
    halves of __update_open_stateid are separate steps, because the stateid is updated
    under the seqlock and the counters under so_lock. */
module OpenStateRuns {
  import opened Common
  import opened OpenState

  /** The request that holds the owner's seqid. */
  datatype Rpc =
    | Free
    | Opening(m: Mode)
    | Granted(m: Mode, id: Stateid)   // the server has replied, nothing stored yet
    | Stored(m: Mode)                 // stateid and flag stored, opener not counted yet
    | Closing(keep: Access)

  /** What the server has on record: granted modes, and the stateid it last gave out. */
  datatype Server = Server(modes: PerMode<bool>, id: Stateid)

  /** half: delegated opens that have stored the stateid and not yet counted; tasks: CLOSE
      tasks that have been started and have not yet decided what to send. */
  datatype State = State(core: Core, srv: Server, rpc: Rpc, half: PerMode<nat>, tasks: nat)

  datatype Event =
    | OpenSend(m: Mode)
    | OpenGrant
    | OpenFail
    | OpenStore(deleg: Option<Stateid>)
    | OpenCount
    | CachedOpen(m: Mode)
    | DelegStore(m: Mode, delegId: Stateid)
    | DelegCount(m: Mode)
    | CloseFile(m: Mode)
    | CloseSend
    | CloseSkip
    | CloseDone
    | CloseError
    | CloseRetry

  predicate Enabled(s: State, e: Event) {
    match e
    case OpenSend(_) => s.rpc.Free?
    case OpenGrant => s.rpc.Opening?
    case OpenFail => s.rpc.Opening?
    case OpenStore(_) => s.rpc.Granted?
    case OpenCount => s.rpc.Stored?
    case CachedOpen(m) => CanOpenCached(s.core, m)
    case DelegStore(_, _) => true
    case DelegCount(m) => s.half.At(m) > 0
    case CloseFile(m) => N(s.core, m) > 0
    case CloseSend => s.rpc.Free? && s.tasks > 0 && ClosePrepare(s.core).0
    case CloseSkip => s.rpc.Free? && s.tasks > 0 && !ClosePrepare(s.core).0
    case CloseDone => s.rpc.Closing?
    case CloseError => s.rpc.Closing?
    case CloseRetry => s.rpc.Closing?
  }

  function NextId(srv: Server): (id: Stateid) {
    Stateid(srv.id.other, srv.id.seqid + 1)
  }

  /** The server: one "other" per open state, a new seqid for every change, and after
      OPEN_DOWNGRADE or CLOSE only the opens within the remaining access. */
  function Grant(srv: Server, m: Mode): (r: Server) {
    Server(srv.modes.With(m, true), NextId(srv))
  }

  function Downgrade(srv: Server, keep: Access): (r: Server) {
    Server(PerMode(srv.modes.r && keep.read, srv.modes.w && keep.write, srv.modes.rw && keep == Access(true, true)),
           NextId(srv))
  }

  function Apply(s: State, e: Event): (r: State)
    requires Enabled(s, e)
  {
    match e
    case OpenSend(m) => s.(rpc := Opening(m))
    case OpenGrant => s.(srv := Grant(s.srv, s.rpc.m), rpc := Granted(s.rpc.m, NextId(s.srv)))
    case OpenFail => s.(rpc := Free)
    case OpenStore(deleg) => s.(core := UpdateStateid(s.core, Some(s.rpc.id), deleg, s.rpc.m), rpc := Stored(s.rpc.m))
    case OpenCount => s.(core := CountOpener(s.core, s.rpc.m), rpc := Free)
    case CachedOpen(m) => s.(core := CountOpener(s.core, m))
    case DelegStore(m, deleg) =>
      s.(core := UpdateStateid(s.core, None, Some(deleg), m), half := s.half.With(m, s.half.At(m) + 1))
    case DelegCount(m) => s.(core := CountOpener(s.core, m), half := s.half.With(m, s.half.At(m) - 1))
    case CloseFile(m) =>
      var (c, call) := CloseOpener(s.core, m);
      s.(core := c, tasks := if call then s.tasks + 1 else s.tasks)
    case CloseSend => s.(rpc := Closing(ClosePrepare(s.core).1), tasks := s.tasks - 1)
    case CloseSkip => s.(tasks := s.tasks - 1)
    case CloseDone =>
      s.(core := ClearOpenStateid(s.core, Some(NextId(s.srv)), s.rpc.keep),
         srv := Downgrade(s.srv, s.rpc.keep), rpc := Free)
    case CloseError => s.(core := ClearOpenStateid(s.core, None, s.rpc.keep), rpc := Free)
    case CloseRetry => s.(rpc := Free, tasks := s.tasks + 1)
  }

  // ---------- the invariant ----------

  /** m is flagged and no CLOSE or OPEN_DOWNGRADE under way will drop the flag. */
  ghost predicate Secure(s: State, m: Mode) {
    Flag(s.core, m) && (s.rpc.Closing? ==> !Drops(s.rpc.keep, m))
  }

  ghost predicate CoveredAt(s: State, m: Mode) {
    N(s.core, m) > 0 ==> Secure(s, m) || s.core.delegated
  }

  /** Every mode with an opener is held at the server or through the delegation, and a
      delegated open that is between its halves finds the delegation still there. */
  ghost predicate Covered(s: State) {
    && CoveredAt(s, R) && CoveredAt(s, W) && CoveredAt(s, RW)
    && (s.half != PerMode(0, 0, 0) ==> s.core.delegated)
  }

  /** The server's record of granted modes includes every flag. */
  ghost predicate FlagsGranted(s: State) {
    && (s.core.flags.r ==> s.srv.modes.r)
    && (s.core.flags.w ==> s.srv.modes.w)
    && (s.core.flags.rw ==> s.srv.modes.rw)
  }

  ghost predicate KnownToServer(s: State) {
    && FlagsGranted(s)
    && (s.core.open && !s.rpc.Granted? ==> s.core.openStateid == s.srv.id)
    && (s.rpc.Granted? ==> s.srv.modes.At(s.rpc.m) && s.rpc.id == s.srv.id)
    && (s.core.open && s.rpc.Granted? ==> s.core.openStateid.other == s.rpc.id.other
                                          && s.core.openStateid.seqid < s.rpc.id.seqid)
    && (s.rpc.Stored? ==> Flag(s.core, s.rpc.m))
    && (s.rpc.Closing? ==> s.rpc.keep != Access(true, true)
                           && (s.rpc.keep.read ==> s.srv.modes.r) && (s.rpc.keep.write ==> s.srv.modes.w))
  }

  ghost predicate Inv(s: State) {
    ModeIsUnion(s.core) && Covered(s) && KnownToServer(s)
  }

  // ---------- the one step that can break it ----------

  /** The last opener closes, which gives up the delegation, while a delegated open is
      between its two halves. */
  ghost predicate Races(s: State, e: Event) {
    && e.CloseFile? && N(s.core, e.m) > 0
    && CloseOpener(s.core, e.m).0.n == PerMode(0, 0, 0) && s.half != PerMode(0, 0, 0)
  }

  lemma ModeKept(s: State, e: Event)
    requires ModeIsUnion(s.core) && Enabled(s, e)
    ensures ModeIsUnion(Apply(s, e).core)
  {
    match e {
      case OpenCount => CountOpenerUnion(s.core, s.rpc.m);
      case CachedOpen(m) => CountOpenerUnion(s.core, m);
      case DelegCount(m) => CountOpenerUnion(s.core, m);
      case CloseFile(m) => CloseOpenerUnion(s.core, m);
      case _ =>
    }
  }

  lemma ServerKept(s: State, e: Event)
    requires Inv(s) && Enabled(s, e)
    ensures KnownToServer(Apply(s, e))
  {
    match e {
      case CloseSend => PrepareGivesUpIdleModes(s.core);
      case OpenStore(deleg) =>
        var c := if deleg.Some? then s.core.(stateid := deleg.value, delegated := true) else s.core;
        FlagKeptIff(c, s.rpc.id, s.rpc.m);
      case _ =>
    }
  }

  /** Every step keeps the openers covered, except exactly that race. */
  lemma CoveredKeptIff(s: State, e: Event)
    requires Inv(s) && Enabled(s, e)
    ensures Covered(Apply(s, e)) <==> !Races(s, e)
  {
    match e {
      case CloseSend => PrepareGivesUpIdleModes(s.core);
      case CloseFile(m) => CloseCovered(s, m);
      case CloseDone => AnswerCovered(s);
      case OpenStore(deleg) => StoreCovered(s, deleg);
      case _ =>
    }
  }

  lemma CloseCovered(s: State, m: Mode)
    requires Inv(s) && N(s.core, m) > 0
    ensures Covered(Apply(s, CloseFile(m))) <==> !Races(s, CloseFile(m))
  {
  }

  lemma AnswerCovered(s: State)
    requires Inv(s) && s.rpc.Closing?
    ensures Covered(Apply(s, CloseDone))
  {
  }

  lemma StoreCovered(s: State, deleg: Option<Stateid>)
    requires Inv(s) && s.rpc.Granted?
    ensures Covered(Apply(s, OpenStore(deleg)))
  {
  }

  lemma StepKeepsIff(s: State, e: Event)
    requires Inv(s) && Enabled(s, e)
    ensures Inv(Apply(s, e)) <==> !Races(s, e)
  {
    ModeKept(s, e);
    ServerKept(s, e);
    CoveredKeptIff(s, e);
  }

  // ---------- runs ----------

  ghost predicate Initial(s: State) {
    && s.core.n == s.half == PerMode(0, 0, 0) && s.core.flags == s.srv.modes == NO_FLAGS && !s.core.open
    && s.core.mode == NO_ACCESS && s.rpc.Free? && s.tasks == 0
  }

  ghost predicate Next(s: State, s': State) {
    exists e :: Enabled(s, e) && !Races(s, e) && s' == Apply(s, e)
  }

  ghost predicate IsRun(run: seq<State>) {
    && |run| > 0 && Initial(run[0])
    && forall i, j {:trigger Next(run[i], run[j])} :: 0 <= i && j == i + 1 && j < |run| ==> Next(run[i], run[j])
  }

  /** In every run without the race: the mode mask is the union of the modes in use, every
      mode with an opener is flagged or the state is delegated, and no CLOSE or
      OPEN_DOWNGRADE under way will change that. */
  lemma {:induction false} RunsAreCovered(run: seq<State>, i: nat)
    requires IsRun(run) && i < |run|
    ensures Inv(run[i])
  {
    if i > 0 {
      RunsAreCovered(run, i - 1);
      assert Next(run[i - 1], run[i]);
      var e :| Enabled(run[i - 1], e) && !Races(run[i - 1], e) && run[i] == Apply(run[i - 1], e);
      StepKeepsIff(run[i - 1], e);
    }
  }

  /** In every run: whenever no OPEN reply waits to be stored, the stateid held is the last one
      the server gave out. */
  lemma RunsHoldLatest(run: seq<State>, i: nat)
    requires IsRun(run) && i < |run| && run[i].core.open && !run[i].rpc.Granted?
    ensures run[i].core.openStateid == run[i].srv.id
  {
    RunsAreCovered(run, i);
  }

  /** What that means for the server: it has every mode in use on record, unless the
      delegation stands in for it, and a downgrade under way goes to a recorded mode. */
  lemma InUseIsGranted(s: State, m: Mode)
    requires Inv(s) && N(s.core, m) > 0
    ensures s.srv.modes.At(m) || s.core.delegated
    ensures s.rpc.Closing? && !s.core.delegated ==> Downgrade(s.srv, s.rpc.keep).modes.At(m)
  {
  }

  /** When an open needs no call: without a delegation exactly when somebody has the file open
      in that mode, and with one only if the server has granted the mode itself. */
  lemma CachedOpenIff(s: State, m: Mode)
    requires Inv(s)
    ensures !s.core.delegated ==> (Enabled(s, CachedOpen(m)) <==> N(s.core, m) > 0)
    ensures Enabled(s, CachedOpen(m)) ==> s.srv.modes.At(m) && N(s.core, m) > 0
    ensures s.core.delegated && Flag(s.core, m) && N(s.core, m) > 0 ==> Enabled(s, CachedOpen(m))
  {
  }

  /** A fresh open state after one delegated open for reading has run to its end and a
      second one has stored its stateid. */
  function BetweenHalves(): (s: State) {
    var id, d := Stateid(0, 0), Stateid(7, 1);
    var core := Core(PerMode(1, 0, 0), NO_FLAGS, false, true, false, Mask(R), d, id);
    State(core, Server(NO_FLAGS, id), Free, PerMode(1, 0, 0), 0)
  }

  /** The race is reachable: the first opener closes, and the second half then counts an
      opener that neither a flag nor the delegation covers. */
  lemma RaceUncovers()
    ensures var id, d := Stateid(0, 0), Stateid(7, 1);
      var s0 := State(Core(PerMode(0, 0, 0), NO_FLAGS, false, false, false, NO_ACCESS, id, id),
                      Server(NO_FLAGS, id), Free, PerMode(0, 0, 0), 0);
      && Initial(s0)
      && BetweenHalves() == Apply(Apply(Apply(s0, DelegStore(R, d)), DelegCount(R)), DelegStore(R, d))
    ensures Inv(BetweenHalves()) && Races(BetweenHalves(), CloseFile(R))
    ensures var s := Apply(Apply(BetweenHalves(), CloseFile(R)), DelegCount(R));
      N(s.core, R) == 1 && s.core.flags == NO_FLAGS && !s.core.delegated
  {
  }

  /** A server that changes the stateid's "other" loses the flag of the open it has just
      granted. */
  lemma NewOtherUncovers(c: Core, id: Stateid, m: Mode)
    requires c.open && id.other != c.openStateid.other && N(c, m) == 0 && !c.delegated
    ensures var d := CountOpener(UpdateStateid(c, Some(id), None, m), m);
      N(d, m) == 1 && !Flag(d, m) && !d.delegated
  {
  }

  // ---------- the stateid that reads and writes use ----------

  /** Without a delegation the state's stateid is the open stateid. */
  ghost predicate StateidOk(s: State) {
    !s.core.delegated && (s.core.n != PerMode(0, 0, 0) || s.rpc.Stored?) ==> s.core.stateid == s.core.openStateid
  }

  /** The last opener closes, which gives up the delegation, while an OPEN that brought it is
      between its two halves. */
  ghost predicate LosesDelegation(s: State, e: Event) {
    && e.CloseFile? && N(s.core, e.m) > 0 && CloseOpener(s.core, e.m).0.n == PerMode(0, 0, 0)
    && s.core.delegated && s.rpc.Stored? && s.core.stateid != s.core.openStateid
  }

  lemma StateidKeptIff(s: State, e: Event)
    requires Inv(s) && StateidOk(s) && Enabled(s, e)
    ensures StateidOk(Apply(s, e)) <==> !LosesDelegation(s, e)
  {
    match e {
      case OpenStore(deleg) =>
        var c := if deleg.Some? then s.core.(stateid := deleg.value, delegated := true) else s.core;
        StoreKeepsNewest(c.(flags := c.flags.With(s.rpc.m, true)), s.rpc.id);
      case CloseDone => StateidAfterClose(s);
      case _ =>
    }
  }

  lemma StateidAfterClose(s: State)
    requires Inv(s) && s.rpc.Closing?
    ensures StateidOk(Apply(s, CloseDone))
  {
  }

  ghost predicate SteadyNext(s: State, s': State) {
    exists e :: Enabled(s, e) && !Races(s, e) && !LosesDelegation(s, e) && s' == Apply(s, e)
  }

  ghost predicate IsSteadyRun(run: seq<State>) {
    && |run| > 0 && Initial(run[0])
    && forall i, j {:trigger SteadyNext(run[i], run[j])} ::
         0 <= i && j == i + 1 && j < |run| ==> SteadyNext(run[i], run[j])
  }

  /** In every run without the two races: whoever has the file open uses a delegation or the
      last stateid the server gave out, unless a newer one is just arriving. */
  lemma {:induction false} RunsUseLatest(run: seq<State>, i: nat)
    requires IsSteadyRun(run) && i < |run|
    ensures Inv(run[i]) && StateidOk(run[i])
    ensures run[i].core.n != PerMode(0, 0, 0) && !run[i].core.delegated && run[i].core.open && !run[i].rpc.Granted?
      ==> run[i].core.stateid == run[i].srv.id
  {
    if i > 0 {
      RunsUseLatest(run, i - 1);
      assert SteadyNext(run[i - 1], run[i]);
      var s := run[i - 1];
      var e :| Enabled(s, e) && !Races(s, e) && !LosesDelegation(s, e) && run[i] == Apply(s, e);
      StepKeepsIff(s, e);
      StateidKeptIff(s, e);
    }
  }

  /** The second race is reachable too: an OPEN for writing brings a delegation while a reader
      has one, the reader closes before the writer is counted, and the writer is left with
      the delegation's stateid and no delegated bit. */
  lemma DelegationIsLost(d: Stateid)
    requires d.other != 0
    ensures var id := Stateid(0, 0);
      var s0 := State(Core(PerMode(0, 0, 0), NO_FLAGS, false, false, false, NO_ACCESS, id, id),
                      Server(NO_FLAGS, id), Free, PerMode(0, 0, 0), 0);
      var s1 := Apply(Apply(s0, DelegStore(R, d)), DelegCount(R));
      var s2 := Apply(Apply(Apply(s1, OpenSend(W)), OpenGrant), OpenStore(Some(d)));
      && Initial(s0) && LosesDelegation(s2, CloseFile(R)) && !Races(s2, CloseFile(R))
      && var s := Apply(Apply(s2, CloseFile(R)), OpenCount);
         N(s.core, W) == 1 && !s.core.delegated && s.core.stateid == d && s.core.openStateid == s.srv.id != d
  {
  }

  // ---------- every wasted flag is given up ----------

  /** A wasted flag has a CLOSE task, is about to be counted, or is the idle read-write open
      that nfs4_close_prepare leaves alone. */
  ghost predicate WasteOk(s: State) {
    match s.rpc
    case Stored(m) =>
      var c := CountOpener(s.core, m); Flag(s.core, m) && (Wasted(c) ==> s.tasks > 0 || KeepsReadWrite(c))
    case Closing(keep) =>
      // what is kept and has become idle since has a task of its own
      && (keep.read && s.core.flags.r && s.core.n.r == 0 && s.core.n.rw == 0 ==> s.tasks > 0)
      && (keep.write && s.core.flags.w && s.core.n.w == 0 && s.core.n.rw == 0 ==> s.tasks > 0)
    case _ => Wasted(s.core) ==> s.tasks > 0 || KeepsReadWrite(s.core)
  }

  lemma WasteKept(s: State, e: Event)
    requires KnownToServer(s) && WasteOk(s) && Enabled(s, e)
    ensures WasteOk(Apply(s, e))
  {
    match e {
      case CloseFile(m) => WasteAfterClose(s, m);
      case OpenStore(deleg) => WasteAfterStore(s, deleg);
      case CloseSend => CloseSentIff(s.core);
      case CloseSkip => CloseSentIff(s.core);
      case _ =>
    }
  }

  lemma WasteAfterClose(s: State, m: Mode)
    requires WasteOk(s) && N(s.core, m) > 0
    ensures WasteOk(Apply(s, CloseFile(m)))
  {
    CloseAskedIff(s.core, m);
  }

  lemma WasteAfterStore(s: State, deleg: Option<Stateid>)
    requires KnownToServer(s) && WasteOk(s) && s.rpc.Granted?
    ensures WasteOk(Apply(s, OpenStore(deleg)))
  {
    FlagKeptIff(if deleg.Some? then s.core.(stateid := deleg.value, delegated := true) else s.core, s.rpc.id, s.rpc.m);
  }

  /** In every run: when no request is under way and no CLOSE task is left, no flag is kept at
      the server for access that nobody uses, except the idle read-write open beside one of
      its halves. */
  lemma {:induction false} RunsLeakNothing(run: seq<State>, i: nat)
    requires IsRun(run) && i < |run|
    ensures WasteOk(run[i])
    ensures run[i].rpc.Free? && run[i].tasks == 0 && Wasted(run[i].core) ==> KeepsReadWrite(run[i].core)
  {
    if i > 0 {
      RunsLeakNothing(run, i - 1);
      RunsAreCovered(run, i - 1);
      assert Next(run[i - 1], run[i]);
      var e :| Enabled(run[i - 1], e) && !Races(run[i - 1], e) && run[i] == Apply(run[i - 1], e);
      WasteKept(run[i - 1], e);
    }
  }

  /** A CLOSE that was asked for is sent as soon as the seqid is free, and answered it leaves
      nothing wasted. */
  lemma AskedIsSent(s: State)
    requires Inv(s) && s.rpc.Free? && s.tasks > 0 && Wasted(s.core) && !KeepsReadWrite(s.core)
    ensures Enabled(s, CloseSend)
    ensures var t := Apply(Apply(s, CloseSend), CloseDone);
      !Wasted(t.core) && t.core.n == s.core.n && forall m :: Flag(t.core, m) <==> Flag(s.core, m) && N(s.core, m) > 0
  {
    CloseSentIff(s.core);
    CloseEndsWaste(s.core, Some(NextId(s.srv)));
  }

  function Opened(s: State, m: Mode): (r: State)
    requires s.rpc.Free?
  {
    Apply(Apply(Apply(Apply(s, OpenSend(m)), OpenGrant), OpenStore(None)), OpenCount)
  }

  /** The exception is reachable: the file is opened for both and then for reading, and the
      first opener closes.  The CLOSE task it starts sends nothing, and the server keeps the
      file open for writing. */
  lemma ReadWriteIsKept()
    ensures var id := Stateid(0, 0);
      var s0 := State(Core(PerMode(0, 0, 0), NO_FLAGS, false, false, false, NO_ACCESS, id, id),
                      Server(NO_FLAGS, id), Free, PerMode(0, 0, 0), 0);
      var s2 := Opened(Opened(s0, RW), R);
      var s3 := Apply(s2, CloseFile(RW));
      && Initial(s0) && s3.tasks == 1 && Enabled(s3, CloseSkip)
      && var s := Apply(s3, CloseSkip);
         s.tasks == 0 && s.core.n == PerMode(1, 0, 0) && Wasted(s.core) && KeepsReadWrite(s.core) && s.srv.modes.rw
  {
  }

  // ---------- recovery ----------

  /** nfs4_open_recover_helper for one mode, with the stateid the server answered. */
  function RecoverMode(c: Core, m: Mode, id: Stateid, deleg: Option<Stateid>): (r: (Core, bool)) {
    CloseOpener(CountOpener(UpdateStateid(c, Some(id), deleg, m), m), m)
  }

  function ClearAll(c: Core): (r: Core) {
    c.(flags := NO_FLAGS, delegated := false, open := false)
  }

  function Recoverable(c: Core, m: Mode, ids: PerMode<Stateid>, deleg: Option<Stateid>): (r: (Core, bool)) {
    if N(c, m) > 0 then RecoverMode(c, m, ids.At(m), deleg) else (c, false)
  }

  /** The loop of nfs4_open_recover over the three modes. */
  function Recover(c: Core, ids: PerMode<Stateid>, deleg: Option<Stateid>): (r: (Core, bool)) {
    var (c1, k1) := Recoverable(ClearAll(c), RW, ids, deleg);
    var (c2, k2) := Recoverable(c1, W, ids, deleg);
    var (c3, k3) := Recoverable(c2, R, ids, deleg);
    (c3, k1 || k2 || k3)
  }

  /** One mode's recovery counts nobody twice, starts no CLOSE, and flags just that mode. */
  lemma RecoverModeExact(c: Core, m: Mode, id: Stateid, deleg: Option<Stateid>)
    requires ModeIsUnion(c) && N(c, m) > 0
    requires (c.flags.r ==> c.n.r > 0) && (c.flags.w ==> c.n.w > 0) && (c.flags.rw ==> c.n.rw > 0)
    requires c.open ==> c.openStateid.other == id.other
    ensures var (d, call) := RecoverMode(c, m, id, deleg);
      && !call && d.n == c.n && d.flags == c.flags.With(m, true) && d.mode == c.mode
      && d.open && d.openStateid.other == id.other && (d.nograce == c.nograce)
  {
  }

  /** Successful recovery restores coverage with the counters unchanged and sends no CLOSE. */
  lemma RecoverExact(c: Core, ids: PerMode<Stateid>, deleg: Option<Stateid>)
    requires ModeIsUnion(c)
    requires ids.r.other == ids.w.other == ids.rw.other
    ensures var (d, call) := Recover(c, ids, deleg);
      && !call && d.n == c.n && d.mode == c.mode
      && forall m :: Flag(d, m) <==> N(c, m) > 0
  {
    var c0 := ClearAll(c);
    if N(c0, RW) > 0 { RecoverModeExact(c0, RW, ids.rw, deleg); }
    var (c1, _) := Recoverable(c0, RW, ids, deleg);
    if N(c1, W) > 0 { RecoverModeExact(c1, W, ids.w, deleg); }
    var (c2, _) := Recoverable(c1, W, ids, deleg);
    if N(c2, R) > 0 { RecoverModeExact(c2, R, ids.r, deleg); }
  }
}
