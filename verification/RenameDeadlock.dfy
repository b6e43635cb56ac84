/** Deadlock freedom of the directory mutexes.

    A wait always goes from a lower to a higher rank.  Directories rank by depth, and
    everything under the one directory that a cross-directory rename is waiting for
    ranks above everything else; files rank above directories, by address. */
module RenameDeadlock {
  import opened Common
  import opened DirTree
  import opened RenameLocks
  import opened RenameSafety

  /** t holds the rename mutex and waits for the mutex of directory n. */
  ghost predicate CrossWants(s: State, t: TaskId, n: Node) {
    && t in s.tasks && RenameMutex in Holds(s.tasks[t])
    && Want(s.tasks[t]) == Some(IMutex(n)) && n in s.dirs
  }

  ghost predicate UnderBarrier(s: State, n: Node) {
    exists t, b :: CrossWants(s, t, b) && Above(s.tree, b, n)
  }

  /** bound exceeds the depth of every directory some task waits for. */
  ghost predicate DepthBound(s: State, bound: nat)
    requires Rooted(s.tree)
  {
    forall t :: t in s.tasks && Want(s.tasks[t]).Some? && Want(s.tasks[t]).value.IMutex? ==>
      Depth(s.tree, Want(s.tasks[t]).value.n) < bound
  }

  lemma DepthBoundExists(s: State) returns (bound: nat)
    requires Rooted(s.tree)
    ensures DepthBound(s, bound)
  {
    bound := DepthBoundFor(s, s.tasks.Keys);
  }

  lemma {:induction false} DepthBoundFor(s: State, ts: set<TaskId>) returns (bound: nat)
    requires Rooted(s.tree) && ts <= s.tasks.Keys
    ensures forall t :: t in ts && Want(s.tasks[t]).Some? && Want(s.tasks[t]).value.IMutex? ==>
      Depth(s.tree, Want(s.tasks[t]).value.n) < bound
  {
    bound := 0;
    if ts != {} {
      var t :| t in ts;
      bound := DepthBoundFor(s, ts - {t});
      if Want(s.tasks[t]).Some? && Want(s.tasks[t]).value.IMutex? {
        bound := bound + Depth(s.tree, Want(s.tasks[t]).value.n) + 1;
      }
    }
  }

  ghost function DirRank(s: State, bound: nat, n: Node): (r: nat)
    requires Rooted(s.tree)
  {
    1 + Depth(s.tree, n) + if UnderBarrier(s, n) then bound else 0
  }

  ghost function Rank(s: State, bound: nat, t: TaskId): (r: nat)
    requires Rooted(s.tree) && t in s.tasks
  {
    match Want(s.tasks[t])
    case Some(IMutex(n)) => if n in s.dirs then DirRank(s, bound, n) else 2 * bound + 2 + n
    case _ => 0
  }

  /** Only one task can be a waiting cross-directory rename, so its directory is the
      only barrier. */
  lemma BarrierUnique(s: State, u: TaskId, b: Node, n: Node)
    requires MutualExclusion(s) && CrossWants(s, u, b)
    ensures UnderBarrier(s, n) <==> Above(s.tree, b, n)
  {
    if UnderBarrier(s, n) {
      var t, c :| CrossWants(s, t, c) && Above(s.tree, c, n);
      assert t == u;
    }
  }

  lemma BarrierPassesDown(s: State, n: Node)
    ensures UnderBarrier(s, Par(s.tree, n)) ==> UnderBarrier(s, n)
  {
    if UnderBarrier(s, Par(s.tree, n)) {
      var t, b :| CrossWants(s, t, b) && Above(s.tree, b, Par(s.tree, n));
      AboveStep(s.tree, b, n);
    }
  }

  /** A cross-directory rename never waits for a directory above one it holds. */
  lemma CrossTopDown(s: State, u: TaskId, b: Node, n: Node)
    requires Inv(s) && CrossWants(s, u, b) && IMutex(n) in Holds(s.tasks[u])
    ensures !UnderBarrier(s, n) && n in s.dirs && UnderBarrier(s, b)
  {
    var pc := s.tasks[u];
    assert TaskOk(s, pc);
    BarrierUnique(s, u, b, n);
    BarrierUnique(s, u, b, b);
    AboveStep(s.tree, b, b);
    match pc {
      case WantSecond(nd, od, ord) => LockOrderTopDown(s.tree, nd, od);
      case Victims(nd, od, act, vs, k) =>
        assert k == 0;
        assert b != s.tree.root && Par(s.tree, b) == nd && !Above(s.tree, b, od);
        ProperParent(s.tree, b);
      case _ =>
    }
  }

  /** A task inside one directory waits for a child of the directory it holds. */
  lemma SingleGoesDown(s: State, u: TaskId, b: Node, n: Node)
    requires Inv(s) && u in s.tasks && RenameMutex !in Holds(s.tasks[u])
    requires Want(s.tasks[u]) == Some(IMutex(b)) && b in s.dirs && IMutex(n) in Holds(s.tasks[u])
    ensures n in s.dirs && b != s.tree.root && Par(s.tree, b) == n
  {
    assert TaskOk(s, s.tasks[u]);
    assert s.tasks[u].Victims? && s.tasks[u].next == 0;
  }

  /** Files are locked in address order, after every directory. */
  lemma FilesComeLast(s: State, u: TaskId, b: Node, n: Node)
    requires Inv(s) && u in s.tasks
    requires Want(s.tasks[u]) == Some(IMutex(b)) && b !in s.dirs && IMutex(n) in Holds(s.tasks[u])
    ensures n in s.dirs || n < b
  {
    var pc := s.tasks[u];
    assert TaskOk(s, pc);
    match pc {
      case WantSecond(nd, od, ord) => LockOrderTopDown(s.tree, nd, od);
      case WantFirst(nd, od, ord) => LockOrderTopDown(s.tree, nd, od);
      case _ =>
    }
  }

  /** Rank strictly increases along every wait. */
  lemma WaitsGoUp(s: State, bound: nat, t: TaskId, u: TaskId)
    requires Inv(s) && DepthBound(s, bound) && WaitsFor(s, t, u) && Want(s.tasks[u]).Some?
    ensures Rank(s, bound, t) < Rank(s, bound, u)
  {
    var pc := s.tasks[u];
    assert TaskOk(s, pc);
    match Want(s.tasks[t]).value {
      case RenameMutex => assert Want(pc).value.IMutex?;
      case IMutex(n) =>
        assert Want(pc).value.IMutex?;
        var b := Want(pc).value.n;
        if b !in s.dirs {
          FilesComeLast(s, u, b, n);
        } else if RenameMutex in Holds(pc) {
          assert CrossWants(s, u, b);
          CrossTopDown(s, u, b, n);
        } else {
          SingleGoesDown(s, u, b, n);
          DepthStep(s.tree, b);
          BarrierPassesDown(s, b);
        }
    }
  }

  // ---------- no cycle ----------

  ghost predicate WaitChain(s: State, ts: seq<TaskId>) {
    forall i :: 0 <= i < |ts| - 1 ==> WaitsFor(s, ts[i], ts[i + 1])
  }

  ghost predicate WaitCycle(s: State, ts: seq<TaskId>) {
    |ts| > 0 && WaitChain(s, ts) && WaitsFor(s, ts[|ts| - 1], ts[0])
  }

  lemma {:induction false} ChainClimbs(s: State, bound: nat, ts: seq<TaskId>, i: nat)
    requires Inv(s) && DepthBound(s, bound) && WaitCycle(s, ts) && i < |ts|
    ensures ts[0] in s.tasks && ts[i] in s.tasks && Rank(s, bound, ts[i]) >= Rank(s, bound, ts[0])
  {
    if i > 0 {
      ChainClimbs(s, bound, ts, i - 1);
      assert WaitsFor(s, ts[i - 1], ts[i - 1 + 1]);
      assert Want(s.tasks[ts[i]]).Some? by {
        if i < |ts| - 1 { assert WaitsFor(s, ts[i], ts[i + 1]); }
      }
      WaitsGoUp(s, bound, ts[i - 1], ts[i]);
    }
  }

  lemma NoWaitCycle(s: State, ts: seq<TaskId>)
    requires Inv(s)
    ensures !WaitCycle(s, ts)
  {
    if WaitCycle(s, ts) {
      var bound := DepthBoundExists(s);
      ChainClimbs(s, bound, ts, |ts| - 1);
      assert Want(s.tasks[ts[0]]).Some? by {
        if |ts| > 1 { assert WaitsFor(s, ts[0], ts[0 + 1]); }
      }
      WaitsGoUp(s, bound, ts[|ts| - 1], ts[0]);
    }
  }

  /** Deadlock freedom for every interleaving: no state of any run has a cycle of
      waiting tasks, while renames keep reshaping the tree. */
  lemma RunsNeverDeadlock(run: seq<State>, i: nat, ts: seq<TaskId>)
    requires IsRun(run) && i < |run|
    ensures !WaitCycle(run[i], ts)
  {
    RunsAreSafe(run, i);
    NoWaitCycle(run[i], ts);
  }

  // ---------- progress ----------

  ghost function Higher(s: State, bound: nat, t: TaskId): (r: set<TaskId>)
    requires Rooted(s.tree) && t in s.tasks
  {
    set u | u in s.tasks && Rank(s, bound, t) < Rank(s, bound, u)
  }

  /** Following the waits from any busy task leads to one that can take a step. */
  lemma {:induction false} FindRunnable(s: State, bound: nat, t: TaskId) returns (u: TaskId, e: Event)
    requires Inv(s) && DepthBound(s, bound) && t in s.tasks && !s.tasks[t].Idle?
    ensures u in s.tasks && !s.tasks[u].Idle? && Enabled(s, u, e)
    decreases Higher(s, bound, t)
  {
    var pc := s.tasks[t];
    assert TaskOk(s, pc);
    if Want(pc).None? {
      u, e := t, Abort;
    } else if !Blocked(s, t) {
      u, e := t, Take;
    } else {
      var v :| WaitsFor(s, t, v);
      if Want(s.tasks[v]).None? {
        assert TaskOk(s, s.tasks[v]);
        u, e := v, Abort;
      } else {
        WaitsGoUp(s, bound, t, v);
        assert v in Higher(s, bound, t) && v !in Higher(s, bound, v);
        u, e := FindRunnable(s, bound, v);
      }
    }
  }

  lemma Progress(s: State, t: TaskId)
    requires Inv(s) && t in s.tasks && !s.tasks[t].Idle?
    ensures exists u, e :: u in s.tasks && !s.tasks[u].Idle? && Enabled(s, u, e)
  {
    var bound := DepthBoundExists(s);
    var u, e := FindRunnable(s, bound, t);
  }
}
