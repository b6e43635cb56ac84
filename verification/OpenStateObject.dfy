/** struct nfs4_state as an object: the functions of nfs4proc.c and nfs4state.c that
    update it in place, each proved against its value-level specification. */
module OpenStateObject {
  import opened Common
  import opened OpenState
  import Runs = OpenStateRuns

  class Nfs4State {
    var nRdonly: nat
    var nWronly: nat
    var nRdwr: nat
    var oRdonly: bool
    var oWronly: bool
    var oRdwr: bool
    var open: bool
    var delegated: bool
    var nograce: bool
    var mode: Access
    var stateid: Stateid
    var openStateid: Stateid

    function View(): (c: Core)
      reads this
    {
      Core(PerMode(nRdonly, nWronly, nRdwr), PerMode(oRdonly, oWronly, oRdwr),
           open, delegated, nograce, mode, stateid, openStateid)
    }

    constructor (id: Stateid)
      ensures View() == Core(PerMode(0, 0, 0), NO_FLAGS, false, false, false, NO_ACCESS, id, id)
    {
      nRdonly, nWronly, nRdwr := 0, 0, 0;
      oRdonly, oWronly, oRdwr, open, delegated, nograce := false, false, false, false, false, false;
      mode, stateid, openStateid := NO_ACCESS, id, id;
    }

    /** update_open_stateflags */
    method UpdateOpenStateflags(m: Mode)
      modifies this
      ensures View() == CountOpener(old(View()), m)
    {
      match m {
        case W => nWronly := nWronly + 1;
        case R => nRdonly := nRdonly + 1;
        case RW => nRdwr := nRdwr + 1;
      }
      mode := Or(mode, Mask(m));
    }

    /** nfs_test_and_clear_all_open_stateid */
    method TestAndClearAllOpenStateid()
      modifies this
      ensures View() == old(View()).(flags := NO_FLAGS,
        nograce := old(nograce) || (old(oRdonly) && nRdonly > 0) || (old(oWronly) && nWronly > 0)
          || (old(oRdwr) && nRdwr > 0))
    {
      var needRecover := false;
      if oRdonly && nRdonly != 0 { needRecover := true; }
      oRdonly := false;
      if oWronly && nWronly != 0 { needRecover := true; }
      oWronly := false;
      if oRdwr && nRdwr != 0 { needRecover := true; }
      oRdwr := false;
      if needRecover { nograce := true; }
    }

    /** nfs_need_update_open_stateid */
    method NeedUpdateOpenStateid(id: Stateid) returns (update: bool)
      modifies this
      ensures (View(), update) == NeedUpdate(old(View()), id)
    {
      if !open {
        open := true;
        return true;
      }
      if id.other != openStateid.other {
        TestAndClearAllOpenStateid();
        return true;
      }
      return id.seqid > openStateid.seqid;
    }

    /** The common end of nfs_set_open_stateid_locked and nfs_clear_open_stateid_locked */
    method StoreIfNewer(id: Stateid)
      modifies this
      ensures View() == StoreStateid(old(View()), id)
    {
      var update := NeedUpdateOpenStateid(id);
      if !update { return; }
      if !delegated { stateid := id; }
      openStateid := id;
    }

    /** nfs_set_open_stateid_locked */
    method SetOpenStateidLocked(id: Stateid, m: Mode)
      modifies this
      ensures View() == SetOpenStateid(old(View()), id, m)
    {
      match m {
        case R => oRdonly := true;
        case W => oWronly := true;
        case RW => oRdwr := true;
      }
      StoreIfNewer(id);
    }

    /** nfs_clear_open_stateid_locked */
    method ClearOpenStateidLocked(id: Option<Stateid>, keep: Access)
      modifies this
      ensures View() == ClearOpenStateid(old(View()), id, keep)
    {
      oRdwr := false;
      match keep {
        case Access(false, true) => oRdonly := false;
        case Access(true, false) => oWronly := false;
        case Access(false, false) =>
          oRdonly := false;
          oWronly := false;
          open := false;
        case Access(true, true) =>
      }
      if id.Some? { StoreIfNewer(id.value); }
    }

    /** __update_open_stateid, run to its end */
    method UpdateOpenStateid(id: Option<Stateid>, deleg: Option<Stateid>, m: Mode)
      modifies this
      ensures View() == CountOpener(UpdateStateid(old(View()), id, deleg, m), m)
    {
      if deleg.Some? {
        stateid := deleg.value;
        delegated := true;
      }
      if id.Some? { SetOpenStateidLocked(id.value, m); }
      UpdateOpenStateflags(m);
    }

    /** __nfs4_close */
    method Close(m: Mode) returns (callClose: bool)
      requires N(View(), m) > 0
      modifies this
      ensures (View(), callClose) == CloseOpener(old(View()), m)
      ensures ModeIsUnion(View())
    {
      match m {
        case R => nRdonly := nRdonly - 1;
        case W => nWronly := nWronly - 1;
        case RW => nRdwr := nRdwr - 1;
      }
      callClose := false;
      var read, write := true, true;
      if nRdwr == 0 {
        if nRdonly == 0 {
          read := false;
          callClose := callClose || oRdonly || oRdwr;
        }
        if nWronly == 0 {
          write := false;
          callClose := callClose || oWronly || oRdwr;
        }
        if !read && !write { delegated := false; }
      }
      mode := Access(read, write);
    }

    /** nfs4_close_prepare's decision */
    method PrepareClose() returns (call: bool, keep: Access)
      ensures (call, keep) == ClosePrepare(View())
      ensures call ==> forall m :: Drops(keep, m) && N(View(), m) > 0 ==> !Flag(View(), m)
    {
      var read, write := false, false;
      call := false;
      if nRdwr == 0 {
        if nRdonly == 0 { call := call || oRdonly; } else if oRdonly { read := true; }
        if nWronly == 0 { call := call || oWronly; } else if oWronly { write := true; }
      } else if oRdwr {
        read, write := true, true;
      }
      if !read && !write { call := call || oRdwr; }
      keep := Access(read, write);
      if call { PrepareGivesUpIdleModes(View()); }
    }

    /** Only modes in use are flagged, and any stateid held has the given "other". */
    ghost predicate Recovering(other: nat)
      reads this
    {
      && ModeIsUnion(View()) && (open ==> openStateid.other == other)
      && (oRdonly ==> nRdonly > 0) && (oWronly ==> nWronly > 0) && (oRdwr ==> nRdwr > 0)
    }

    /** nfs4_open_recover_helper, for a reclaim the server granted */
    method OpenRecoverHelper(m: Mode, id: Stateid, deleg: Option<Stateid>) returns (callClose: bool)
      requires Recovering(id.other) && N(View(), m) > 0
      modifies this
      ensures Recovering(id.other) && !callClose
      ensures View().n == old(View().n) && mode == old(mode) && View().flags == old(View().flags).With(m, true)
    {
      Runs.RecoverModeExact(View(), m, id, deleg);
      UpdateOpenStateid(Some(id), deleg, m);
      callClose := Close(m);
    }

    /** nfs4_open_recover when the server answers every reclaim: the counters and the mode
        stay, exactly the modes in use are flagged, and no CLOSE is started. */
    method OpenRecover(ids: PerMode<Stateid>, deleg: Option<Stateid>) returns (closes: bool)
      requires ModeIsUnion(View()) && ids.r.other == ids.w.other == ids.rw.other
      modifies this
      ensures !closes && View().n == old(View().n) && mode == old(mode)
      ensures oRdonly == (nRdonly > 0) && oWronly == (nWronly > 0) && oRdwr == (nRdwr > 0)
      ensures !delegated ==> stateid == openStateid
    {
      oRdwr, oWronly, oRdonly, delegated, open := false, false, false, false, false;
      closes := false;
      if nRdwr != 0 { closes := OpenRecoverHelper(RW, ids.rw, deleg); }
      if nWronly != 0 {
        var c := OpenRecoverHelper(W, ids.w, deleg);
        closes := closes || c;
      }
      if nRdonly != 0 {
        var c := OpenRecoverHelper(R, ids.r, deleg);
        closes := closes || c;
      }
      if !delegated { stateid := openStateid; }
    }
  }
}
