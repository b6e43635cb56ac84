/** The share-mode bookkeeping of one NFSv4 open state: the counters of openers, the
    flags that say which modes the server has granted, and the decision between CLOSE,
    OPEN_DOWNGRADE and doing nothing. */
module OpenState {
  import opened Common

  /** FMODE_READ, FMODE_WRITE and both. */
  datatype Mode = R | W | RW

  datatype Stateid = Stateid(other: nat, seqid: nat)

  const NO_ACCESS := Access(false, false)

  /** Something per mode. */
  datatype PerMode<+T> = PerMode(r: T, w: T, rw: T) {
    function At(m: Mode): (v: T) {
      match m case R => r case W => w case RW => rw
    }
    function With(m: Mode, v: T): (p: PerMode<T>)
      ensures p.At(m) == v && forall k: Mode :: k != m ==> p.At(k) == At(k)
    {
      match m case R => this.(r := v) case W => this.(w := v) case RW => this.(rw := v)
    }
  }

  const NO_FLAGS := PerMode(false, false, false)

  /** struct nfs4_state: counters, NFS_O_*_STATE bits, NFS_OPEN_STATE, NFS_DELEGATED_STATE,
      NFS_STATE_RECLAIM_NOGRACE, the mode mask and the two stateids. */
  datatype Core = Core(n: PerMode<nat>, flags: PerMode<bool>, open: bool, delegated: bool, nograce: bool,
                       mode: Access, stateid: Stateid, openStateid: Stateid)

  function N(c: Core, m: Mode): (k: nat) {
    c.n.At(m)
  }

  predicate Flag(c: Core, m: Mode) {
    c.flags.At(m)
  }

  function Mask(m: Mode): (a: Access) {
    match m case R => Access(true, false) case W => Access(false, true) case RW => Access(true, true)
  }

  function Or(a: Access, b: Access): (r: Access) {
    Access(a.read || b.read, a.write || b.write)
  }

  /** The union of the modes that have openers. */
  function Union(c: Core): (a: Access) {
    Access(c.n.r > 0 || c.n.rw > 0, c.n.w > 0 || c.n.rw > 0)
  }

  // ---------- opening ----------

  /** can_open_cached, for an open without O_EXCL or O_TRUNC */
  predicate CanOpenCached(c: Core, m: Mode) {
    Flag(c, m) && N(c, m) > 0
  }

  /** update_open_stateflags */
  function CountOpener(c: Core, m: Mode): (r: Core) {
    c.(n := c.n.With(m, N(c, m) + 1), mode := Or(c.mode, Mask(m)))
  }

  /** nfs_need_update_open_stateid: may drop every flag when the server switched to
      another stateid. */
  function NeedUpdate(c: Core, id: Stateid): (r: (Core, bool)) {
    if !c.open then (c.(open := true), true)
    else if id.other != c.openStateid.other then
      (c.(flags := NO_FLAGS,
          nograce := c.nograce || CanOpenCached(c, R) || CanOpenCached(c, W) || CanOpenCached(c, RW)), true)
    else (c, id.seqid > c.openStateid.seqid)
  }

  function StoreStateid(c: Core, id: Stateid): (r: Core) {
    var (d, update) := NeedUpdate(c, id);
    if !update then d else d.(stateid := if d.delegated then d.stateid else id, openStateid := id)
  }

  /** nfs_set_open_stateid_locked */
  function SetOpenStateid(c: Core, id: Stateid, m: Mode): (r: Core) {
    StoreStateid(c.(flags := c.flags.With(m, true)), id)
  }

  /** The seqlock half of __update_open_stateid. */
  function UpdateStateid(c: Core, id: Option<Stateid>, deleg: Option<Stateid>, m: Mode): (r: Core) {
    var d := if deleg.Some? then c.(stateid := deleg.value, delegated := true) else c;
    if id.Some? then SetOpenStateid(d, id.value, m) else d
  }

  // ---------- closing ----------

  /** Whether nfs_clear_open_stateid_locked drops the flag of mode m for a CLOSE or
      OPEN_DOWNGRADE to access a. */
  predicate Drops(a: Access, m: Mode) {
    match m case R => !a.read case W => !a.write case RW => true
  }

  function ClearOpenStateid(c: Core, id: Option<Stateid>, a: Access): (r: Core) {
    var d := c.(flags := PerMode(c.flags.r && a.read, c.flags.w && a.write, false), open := c.open && a != NO_ACCESS);
    if id.None? then d else StoreStateid(d, id.value)
  }

  /** __nfs4_close: the new state, and whether a CLOSE task is started. */
  function CloseOpener(c: Core, m: Mode): (r: (Core, bool))
    requires N(c, m) > 0
  {
    var d := c.(n := c.n.With(m, N(c, m) - 1));
    var noR := d.n.rw == 0 && d.n.r == 0;
    var noW := d.n.rw == 0 && d.n.w == 0;
    var call := (noR && (d.flags.r || d.flags.rw)) || (noW && (d.flags.w || d.flags.rw));
    (d.(mode := Access(!noR, !noW), delegated := d.delegated && !(noR && noW)), call)
  }

  /** nfs4_close_prepare: whether to send anything, and the access to keep. */
  function ClosePrepare(c: Core): (r: (bool, Access)) {
    var held := c.flags;
    var keep := if c.n.rw == 0 then Access(c.n.r > 0 && held.r, c.n.w > 0 && held.w)
                else if held.rw then Access(true, true) else NO_ACCESS;
    var call := (c.n.rw == 0 && ((c.n.r == 0 && held.r) || (c.n.w == 0 && held.w))) || (keep == NO_ACCESS && held.rw);
    (call, keep)
  }

  // ---------- what each of them guarantees ----------

  ghost predicate ModeIsUnion(c: Core) {
    c.mode == Union(c)
  }

  lemma CountOpenerUnion(c: Core, m: Mode)
    requires ModeIsUnion(c)
    ensures ModeIsUnion(CountOpener(c, m))
  {
  }

  lemma CloseOpenerUnion(c: Core, m: Mode)
    requires N(c, m) > 0
    ensures ModeIsUnion(CloseOpener(c, m).0)
  {
  }

  /** Whatever CLOSE or OPEN_DOWNGRADE is sent, no mode it gives up is both flagged and in
      use; and a downgrade goes to a mode that is
      flagged as granted. */
  lemma PrepareGivesUpIdleModes(c: Core)
    requires ClosePrepare(c).0
    ensures forall m :: Drops(ClosePrepare(c).1, m) && N(c, m) > 0 ==> !Flag(c, m)
    ensures ClosePrepare(c).1 != Access(true, true)
    ensures ClosePrepare(c).1.read ==> c.flags.r
    ensures ClosePrepare(c).1.write ==> c.flags.w
  {
  }

  /** A flag stands for access that nobody uses. */
  ghost predicate Wasted(c: Core) {
    var noR, noW := c.n.rw == 0 && c.n.r == 0, c.n.rw == 0 && c.n.w == 0;
    (noR && (c.flags.r || c.flags.rw)) || (noW && (c.flags.w || c.flags.rw))
  }

  /** A read-write open is idle, but one half of its access is in use under a flag of its own
      and the other half has no flag of its own. */
  ghost predicate KeepsReadWrite(c: Core) {
    && c.n.rw == 0 && c.flags.rw
    && (|| (c.n.r > 0 && c.flags.r && c.n.w == 0 && !c.flags.w)
        || (c.n.w > 0 && c.flags.w && c.n.r == 0 && !c.flags.r))
  }

  /** __nfs4_close asks for a CLOSE exactly when a flag is wasted. */
  lemma CloseAskedIff(c: Core, m: Mode)
    requires N(c, m) > 0
    ensures CloseOpener(c, m).1 <==> Wasted(CloseOpener(c, m).0)
  {
  }

  /** nfs4_close_prepare sends something exactly when a flag is wasted, except that it leaves
      an idle read-write open alone while one half of it is kept; and when the read-write
      flag is the only one although both halves are in use, through a delegation. */
  lemma CloseSentIff(c: Core)
    ensures ClosePrepare(c).0 <==>
      || (Wasted(c) && !KeepsReadWrite(c))
      || (c.n.rw == 0 && c.flags.rw && c.n.r > 0 && c.n.w > 0 && !c.flags.r && !c.flags.w)
    ensures ClosePrepare(c).0 ==>
      ClosePrepare(c).1 == Access(c.n.r > 0 && c.flags.r, c.n.w > 0 && c.flags.w)
  {
  }

  /** What is sent gives up all waste: afterwards exactly the flags of modes in use are left. */
  lemma CloseEndsWaste(c: Core, id: Option<Stateid>)
    requires ClosePrepare(c).0 && (id.Some? && c.open ==> id.value.other == c.openStateid.other)
    ensures var d := ClearOpenStateid(c, id, ClosePrepare(c).1);
      !Wasted(d) && d.n == c.n && forall m :: Flag(d, m) <==> Flag(c, m) && N(c, m) > 0
  {
    CloseSentIff(c);
  }

  /** Storing a stateid keeps the newest: of two with the same "other", the one with the
      larger seqid, and otherwise the one that came last. */
  lemma StoreKeepsNewest(c: Core, id: Stateid)
    ensures var d := StoreStateid(c, id);
      && d.open
      && d.openStateid ==
           (if c.open && id.other == c.openStateid.other && id.seqid <= c.openStateid.seqid then c.openStateid else id)
      && (d.openStateid == id && d.openStateid != c.openStateid && !c.delegated ==> d.stateid == id)
      && (c.delegated ==> d.stateid == c.stateid)
  {
  }

  /** An OPEN reply leaves the mode flagged exactly when the state held no stateid yet or
      the server kept the stateid's "other" part. */
  lemma FlagKeptIff(c: Core, id: Stateid, m: Mode)
    ensures Flag(SetOpenStateid(c, id, m), m) <==> !c.open || id.other == c.openStateid.other
  {
  }

  /** A changed "other" drops every flag, and marks the state for recovery exactly when a mode
      in use was flagged. */
  lemma NewOtherMarks(c: Core, id: Stateid)
    requires c.open && id.other != c.openStateid.other
    ensures var d := StoreStateid(c, id);
      && d.flags == NO_FLAGS && d.openStateid == id && d.n == c.n
      && (d.nograce <==> c.nograce || exists m :: Flag(c, m) && N(c, m) > 0)
  {
    assert Flag(c, R) == c.flags.r && Flag(c, W) == c.flags.w && Flag(c, RW) == c.flags.rw;
  }

  /** An OPEN behind a full CLOSE: the answer to the CLOSE sets NFS_OPEN_STATE again, so the
      new open keeps its flag exactly when the CLOSE brought no stateid or the OPEN brings
      the same "other", although after a CLOSE the server is free to choose another. */
  lemma FlagAfterCloseIff(c: Core, closeId: Option<Stateid>, id: Stateid, m: Mode)
    ensures ClearOpenStateid(c, closeId, NO_ACCESS).open <==> closeId.Some?
    ensures Flag(SetOpenStateid(ClearOpenStateid(c, closeId, NO_ACCESS), id, m), m)
      <==> closeId.None? || id.other == closeId.value.other
  {
    FlagKeptIff(ClearOpenStateid(c, closeId, NO_ACCESS), id, m);
  }
}
