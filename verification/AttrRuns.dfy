/** Runs of the attribute cache of one inode beside any number of other inodes: requests
    begin, their replies arrive in any order, and the rest of the client does what it likes
    with the fields that are not the cache's own. */
module AttrRuns {
  import opened Common
  import opened AttrCache

  /** asked: the generation numbers of the requests sent and not yet answered. */
  datatype State = State(i: Inode, counter: nat, asked: set<nat>)

  datatype How = Plain | AfterOp | OwnWrite

  datatype Event =
    | Begin                                   // nfs_fattr_init
    | Elsewhere                               // another inode moves the counter
    | Reply(how: How, f: Fattr, e: Env)       // nfs_refresh_inode, nfs_post_op_update_inode and its force_wcc form
    | Zap(now: int)                           // nfs_zap_caches
    | Setattr(mode: Option<Mode>, uid: Option<int>, gid: Option<int>)   // nfs_setattr_update_inode
    | Local(attrs: Attrs, requests: nat, pages: bool, valid: Flags)    // writes, page cache, revalidation

  function Answer(how: How, i: Inode, f: Fattr, e: Env, l: Limits, counter: nat): (r: (Inode, nat, Status)) {
    match how
    case Plain => Refresh(i, f, e, l, counter)
    case AfterOp => PostOp(i, f, e, l, counter)
    case OwnWrite => ForceWcc(i, f, e, l, counter)
  }

  /** nfs_setattr_update_inode; a new mode keeps the bits outside S_IALLUGO */
  function SetattrUpdate(i: Inode, mode: Option<Mode>, uid: Option<int>, gid: Option<int>): (r: Inode) {
    if mode.None? && uid.None? && gid.None? then i
    else
      var a := i.attrs;
      var m := if mode.Some? then TakePerm(a.mode, mode.value) else a.mode;
      Invalidate(i.(attrs := a.(mode := m, uid := Get(uid, a.uid), gid := Get(gid, a.gid))),
                 NONE.(access := true, acl := true))
  }

  /** A successful setattr: what was set is cached, the type of the file stays, and access
      rights and ACL are in doubt exactly if something was set. */
  lemma SetattrMeaning(i: Inode, mode: Option<Mode>, uid: Option<int>, gid: Option<int>)
    ensures var r := SetattrUpdate(i, mode, uid, gid);
      var some := mode.Some? || uid.Some? || gid.Some?;
      && TypeBits(r.attrs.mode) == TypeBits(i.attrs.mode)
      && Perm(r.attrs.mode) == Perm(if mode.Some? then mode.value else i.attrs.mode)
      && r.attrs.uid == (if uid.Some? then uid.value else i.attrs.uid)
      && r.attrs.gid == (if gid.Some? then gid.value else i.attrs.gid)
      && (r.valid.access <==> i.valid.access || some) && (r.valid.acl <==> i.valid.acl || some)
      && r.times == i.times && r.attrs.size == i.attrs.size && r.attrs.version == i.attrs.version
  {
    if mode.Some? { TakePermExact(i.attrs.mode, mode.value); }
  }

  predicate Enabled(s: State, ev: Event) {
    ev.Reply? ==> ev.f.gencount in s.asked
  }

  function Apply(s: State, ev: Event, l: Limits): (r: State) {
    match ev
    case Begin => s.(counter := s.counter + 1, asked := s.asked + {s.counter + 1})
    case Elsewhere => s.(counter := s.counter + 1)
    case Reply(how, f, e) =>
      var r := Answer(how, s.i, f, e, l, s.counter);
      State(r.0, r.1, s.asked - {f.gencount})
    case Zap(now) => s.(i := Zapped(s.i, l, now))
    case Setattr(mode, uid, gid) => s.(i := SetattrUpdate(s.i, mode, uid, gid))
    case Local(attrs, requests, pages, valid) =>
      s.(i := s.i.(attrs := attrs.(mode := s.i.attrs.mode), requests := requests, pages := pages, valid := valid))
  }

  ghost predicate LimitsOk(l: Limits) { l.regMin <= l.regMax && l.dirMin <= l.dirMax }

  ghost predicate Inv(s: State, l: Limits) {
    && Min(l, Type(s.i)) <= s.i.times.timeo <= Max(l, Type(s.i))
    && s.i.times.gencount <= s.counter
    && forall g :: g in s.asked ==> g <= s.counter
  }

  /** What a new inode of nfs_fhget looks like. */
  ghost predicate Init(s: State, l: Limits) {
    && s.i.times.timeo == Min(l, Type(s.i)) && s.i.times.gencount <= s.counter && s.asked == {} && !s.i.stale
  }

  /** Never back: what later states keep of earlier ones. */
  ghost predicate Later(s: State, t: State) {
    && TypeBits(t.i.attrs.mode) == TypeBits(s.i.attrs.mode) && t.i.fileid == s.i.fileid
    && s.i.times.gencount <= t.i.times.gencount && s.counter <= t.counter
    && (s.i.stale ==> t.i.stale)
    && s.i.lookups <= t.i.lookups
  }

  ghost predicate Next(s: State, t: State, l: Limits) {
    exists ev :: Enabled(s, ev) && t == Apply(s, ev, l)
  }

  ghost predicate IsRun(run: seq<State>, l: Limits) {
    && |run| > 0 && Init(run[0], l)
    && forall i, j {:trigger Next(run[i], run[j], l)} :: 0 <= i && j == i + 1 && j < |run| ==> Next(run[i], run[j], l)
  }

  /** attr_gencount moves together with the counter, and then beyond every number handed out
      so far; the timeout stays in its limits. */
  ghost predicate Moved(i: Inode, counter: nat, j: Inode, counter': nat, l: Limits) {
    && TypeBits(j.attrs.mode) == TypeBits(i.attrs.mode) && j.fileid == i.fileid
    && (i.stale ==> j.stale) && i.lookups <= j.lookups
    && ((j.times.gencount == i.times.gencount && counter' == counter) || j.times.gencount == counter' == counter + 1)
    && (j.times.timeo == i.times.timeo || Min(l, Type(i)) <= j.times.timeo <= Max(l, Type(i)))
  }

  lemma TimesMove(i: Inode, f: Fattr, e: Env, l: Limits, counter: nat)
    requires LimitsOk(l) && Min(l, Type(i)) <= i.times.timeo
    ensures var t := NewTimes(i, f, e, l, counter);
      && Min(l, Type(i)) <= t.timeo && (t.timeo == i.times.timeo || t.timeo <= Max(l, Type(i)))
      && t.gencount == if Detected(i, f) then counter + 1 else i.times.gencount
  {
  }

  lemma UpdateMoves(i: Inode, f: Fattr, e: Env, l: Limits, counter: nat)
    requires LimitsOk(l) && Min(l, Type(i)) <= i.times.timeo
    ensures var r := UpdateInode(i, f, e, l, counter); Moved(i, counter, r.0, r.1, l)
  {
    TimesMove(i, f, e, l, counter);
  }

  lemma RefreshMoves(i: Inode, f: Fattr, e: Env, l: Limits, counter: nat)
    requires LimitsOk(l) && Min(l, Type(i)) <= i.times.timeo
    ensures var r := RefreshLocked(i, f, e, l, counter); Moved(i, counter, r.0, r.1, l)
  {
    if InFull(i, f, e, counter) {
      UpdateMoves(i, HandleLayoutcommit(f, e), e, l, counter);
    } else {
      var r := CheckInode(i, HandleLayoutcommit(f, e), e);
      assert r.0.times.gencount == i.times.gencount && r.0.times.timeo == i.times.timeo;
    }
  }

  lemma AnswerMoves(how: How, i: Inode, f: Fattr, e: Env, l: Limits, counter: nat)
    requires LimitsOk(l) && Min(l, Type(i)) <= i.times.timeo
    ensures var r := Answer(how, i, f, e, l, counter); Moved(i, counter, r.0, r.1, l)
  {
    match how
    case Plain => RefreshMoves(i, f, e, l, counter);
    case AfterOp => RefreshMoves(Suspect(i), f, e, l, counter);
    case OwnWrite => RefreshMoves(Suspect(i), Forced(i, f, counter), e, l, counter);
  }

  lemma GencountMoves(s: State, ev: Event, l: Limits)
    requires LimitsOk(l) && Inv(s, l)
    ensures var t := Apply(s, ev, l);
      t.i.times.gencount == s.i.times.gencount || t.i.times.gencount == t.counter == s.counter + 1
  {
    if ev.Reply? { AnswerMoves(ev.how, s.i, ev.f, ev.e, l, s.counter); }
  }

  lemma StepKeeps(s: State, ev: Event, l: Limits)
    requires LimitsOk(l) && Inv(s, l) && Enabled(s, ev)
    ensures var t := Apply(s, ev, l); Inv(t, l) && Later(s, t)
  {
    if ev.Reply? { AnswerMoves(ev.how, s.i, ev.f, ev.e, l, s.counter); }
  }

  lemma {:induction false} RunsKeep(run: seq<State>, l: Limits, a: nat, b: nat)
    requires LimitsOk(l) && IsRun(run, l) && a <= b < |run|
    ensures Inv(run[b], l) && Later(run[a], run[b])
    decreases b
  {
    if b > 0 {
      RunsKeep(run, l, if a < b then a else b - 1, b - 1);
      assert Next(run[b - 1], run[b], l);
      var ev :| Enabled(run[b - 1], ev) && run[b] == Apply(run[b - 1], ev, l);
      StepKeeps(run[b - 1], ev, l);
    }
  }

  /** The reply is applied in full by the function it goes to. */
  ghost predicate AppliedInFull(s: State, how: How, f: Fattr, e: Env) {
    match how
    case Plain => HasAttrs(f) && InFull(s.i, f, e, s.counter)
    case AfterOp => HasAttrs(f) && InFull(Suspect(s.i), f, e, s.counter)
    case OwnWrite => HasAttrs(f) && InFull(Suspect(s.i), Forced(s.i, f, s.counter), e, s.counter)
  }

  /** The central promise: a request begun at step b, a change of the attributes detected
      later, at step d, then its reply at step j.  The reply is applied in full only if its
      ctime or its size is strictly larger than the cached one. */
  lemma OvertakenReplyIsNotTrusted(run: seq<State>, l: Limits, b: nat, d: nat, j: nat, how: How, f: Fattr, e: Env)
    requires LimitsOk(l) && IsRun(run, l) && b <= d < j < |run|
    requires f.gencount == run[b].counter                                     // begun by step b
    requires run[d].i.times.gencount != run[d + 1].i.times.gencount           // detected at step d
    requires Enabled(run[j], Reply(how, f, e))
    requires AppliedInFull(run[j], how, f, e)
    ensures CtimeNeedUpdate(run[j].i, f) || SizeNeedUpdate(run[j].i, f)
  {
    RunsKeep(run, l, b, d);
    RunsKeep(run, l, d + 1, j);
    assert Next(run[d], run[d + 1], l);
    var ev :| Enabled(run[d], ev) && run[d + 1] == Apply(run[d], ev, l);
    GencountMoves(run[d], ev, l);
  }

  /** And the other way: a reply to a request begun after the last detected change is trusted. */
  lemma UnovertakenReplyIsTrusted(run: seq<State>, l: Limits, b: nat, j: nat, f: Fattr, e: Env)
    requires LimitsOk(l) && IsRun(run, l) && b < j < |run|
    requires run[b + 1] == Apply(run[b], Begin, l) && f.gencount == run[b + 1].counter
    requires run[b].i.times.gencount == run[j].i.times.gencount
    requires HasAttrs(f)
    ensures AppliedInFull(run[j], Plain, f, e)
    ensures AppliedInFull(run[j], AfterOp, f, e)
    ensures AppliedInFull(run[j], OwnWrite, f, e)
  {
    RunsKeep(run, l, 0, b);
  }
}
