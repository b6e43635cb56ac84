/** Every interleaving of the tasks of RenameLocks keeps the tree a tree, never leaves
    a live object in a removed directory, and never deadlocks. */
module RenameSafety {
  import opened Common
  import opened DirTree
  import opened RenameLocks

  // ---------- steps that only move one task's program counter ----------

  lemma OnlyPcChanges(s: State, t: TaskId, pc: Pc)
    requires Inv(s) && t in s.tasks && TaskOk(s, pc)
    requires forall u :: u in s.tasks && u != t ==> Holds(pc) !! Holds(s.tasks[u])
    ensures Inv(Set(s, t, pc))
  {
    var s' := Set(s, t, pc);
    assert forall n :: Live(s', n) == Live(s, n) && Exists(s', n) == Exists(s, n);
    forall u | u in s'.tasks ensures TaskOk(s', s'.tasks[u]) {
      TaskOkFrame(s, s', if u == t then pc else s.tasks[u]);
    }
  }

  /** A task's reliance is on the tree, the directories and the dead, not on the other
      program counters. */
  lemma TaskOkFrame(s: State, s': State, pc: Pc)
    requires Rooted(s.tree) && s'.tree == s.tree && s'.dirs == s.dirs && s'.dead == s.dead && TaskOk(s, pc)
    ensures TaskOk(s', pc)
  {
    assert forall n :: Exists(s', n) == Exists(s, n);
  }

  lemma OneMoreVictim(n: Node, o: Node, act: Action, vs: seq<Node>, k: nat)
    requires k < |vs|
    ensures Holds(Victims(n, o, act, vs, k + 1)) == Holds(Victims(n, o, act, vs, k)) + {IMutex(vs[k])}
  {
    var before := set i | 0 <= i < k && i < |vs| :: IMutex(vs[i]);
    var after := set i | 0 <= i < k + 1 && i < |vs| :: IMutex(vs[i]);
    assert after == before + {IMutex(vs[k])};
  }

  /** Being granted a mutex adds exactly that mutex to what the task holds. */
  lemma TakeHolds(s: State, pc: Pc)
    requires TreeOk(s) && TaskOk(s, pc) && Want(pc).Some?
    ensures Holds(AfterTake(s, pc)) == Holds(pc) + {Want(pc).value}
    ensures TaskOk(s, AfterTake(s, pc))
  {
    match pc {
      case WantSecond(n, o, ord) => LockOrderTopDown(s.tree, n, o);
      case Victims(n, o, act, vs, k) => OneMoreVictim(n, o, act, vs, k);
      case _ =>
    }
  }

  lemma TakeKeeps(s: State, t: TaskId)
    requires Inv(s) && Enabled(s, t, Take)
    ensures Inv(Apply(s, t, Take))
  {
    var pc := s.tasks[t];
    TakeHolds(s, pc);
    forall u | u in s.tasks && u != t ensures Holds(AfterTake(s, pc)) !! Holds(s.tasks[u]) {
      assert !WaitsFor(s, t, u);
    }
    OnlyPcChanges(s, t, AfterTake(s, pc));
  }

  /** The checks against the trap are what makes the chosen action safe. */
  lemma ChooseKeeps(s: State, t: TaskId, act: Action)
    requires Inv(s) && Enabled(s, t, Choose(act))
    ensures Inv(Apply(s, t, Choose(act)))
  {
    var pc := s.tasks[t];
    assert TaskOk(s, pc);
    match act {
      case Move(src, target) =>
        TrapMeaning(s.tree, pc.newDir, pc.oldDir, src);
        if target.Some? { TrapMeaning(s.tree, pc.newDir, pc.oldDir, target.value); }
      case Swap(src, other) =>
        TrapMeaning(s.tree, pc.newDir, pc.oldDir, src);
        TrapMeaning(s.tree, pc.newDir, pc.oldDir, other);
      case Remove(v) =>
    }
    var pc' := Victims(pc.newDir, pc.oldDir, act, VictimList(s.dirs, act), 0);
    assert Holds(pc') == Holds(pc);
    OnlyPcChanges(s, t, pc');
  }

  // ---------- create ----------

  /** The checks against the trap let through exactly the operations on live objects of live
      directories that put nothing under itself. */
  lemma AllowedExact(s: State, newDir: Node, oldDir: Node, act: Action)
    requires TreeOk(s)
    ensures Allowed(s, newDir, oldDir, LockOrder(s.tree, newDir, oldDir).trap, act) <==>
      newDir !in s.dead && oldDir !in s.dead && ActionOk(s, newDir, oldDir, act) && AllLive(s, act)
  {
    match act {
      case Move(src, target) =>
        if Exists(s, src) { TrapMeaning(s.tree, newDir, oldDir, src); }
        if target.Some? && Exists(s, target.value) { TrapMeaning(s.tree, newDir, oldDir, target.value); }
      case Swap(src, other) =>
        if Exists(s, src) { TrapMeaning(s.tree, newDir, oldDir, src); }
        if Exists(s, other) { TrapMeaning(s.tree, newDir, oldDir, other); }
      case Remove(v) =>
    }
  }

  /** What an action works on has not been removed. */
  ghost predicate AllLive(s: State, act: Action) {
    match act
    case Move(src, target) => Live(s, src) && (target.Some? ==> Live(s, target.value))
    case Swap(src, other) => Live(s, src) && Live(s, other)
    case Remove(v) => Live(s, v)
  }

  /** x is removed, replaced, or a file that moves. */
  ghost predicate Touched(s: State, act: Action, x: Node) {
    match act
    case Move(src, target) => (src !in s.dirs && x == src) || target == Some(x)
    case Swap(src, other) => x !in s.dirs && (x == src || x == other)
    case Remove(v) => x == v
  }

  /** At the change itself the task holds both parents' mutexes, that of every object that is
      removed or replaced, and that of every file that moves. */
  lemma ChangesAreLocked(s: State, t: TaskId, x: Node)
    requires Inv(s) && Enabled(s, t, Commit)
    ensures var pc := s.tasks[t];
      && IMutex(pc.newDir) in Holds(pc) && IMutex(pc.oldDir) in Holds(pc)
      && (pc.newDir != pc.oldDir ==> RenameMutex in Holds(pc))
      && (Touched(s, pc.act, x) ==> IMutex(x) in Holds(pc))
  {
    var pc := s.tasks[t];
    var vs := pc.victims;
    assert vs == VictimList(s.dirs, pc.act) && pc.next == |vs|;
    assert forall i :: 0 <= i < |vs| ==> IMutex(vs[i]) in Holds(pc);
    match pc.act {
      case Move(src, Some(target)) =>
        if src !in s.dirs { TwoNonDirsHas(s.dirs, src, target); } else { assert vs[0] == target; }
      case Move(src, None) => assert src !in s.dirs ==> vs[0] == src;
      case Swap(src, other) => TwoNonDirsHas(s.dirs, src, other);
      case Remove(v) => assert vs[0] == v;
    }
  }

  lemma TwoNonDirsHas(dirs: set<Node>, a: Node, b: Node)
    ensures a !in dirs ==> a in TwoNonDirs(dirs, a, b)
    ensures b !in dirs ==> b in TwoNonDirs(dirs, a, b)
  {
    var x := if a < b then a else b;
    var y := if a < b then b else a;
    var front := if x in dirs then [] else [x];
    var back := if y in dirs || y == x then [] else [y];
    assert x !in dirs ==> x in front;
    assert y !in dirs && y != x ==> y in back;
    assert TwoNonDirs(dirs, a, b) == front + back;
  }

  /** Only nodes of the tree are above a directory of the tree. */
  lemma {:induction false} AboveExists(s: State, a: Node, b: Node)
    requires TreeOk(s) && b in s.dirs && Above(s.tree, a, b)
    ensures a in s.dirs
    decreases Depth(s.tree, b)
  {
    AboveStep(s.tree, a, b);
    DepthStep(s.tree, b);
    if a != b {
      if b == s.tree.root { RootOnTop(s.tree, a); }
      else {
        assert Exists(s, b);
        AboveExists(s, a, Par(s.tree, b));
      }
    }
  }

  /** Adding a leaf leaves lock_rename's decisions about existing directories alone. */
  lemma LeafKeepsOrder(s: State, tree': Tree, n: Node, a: Node, b: Node)
    requires TreeOk(s) && n !in s.dirs && Rooted(tree') && tree'.root == s.tree.root && a in s.dirs && b in s.dirs
    requires forall y :: y != n ==> Par(tree', y) == Par(s.tree, y)
    ensures forall x :: Above(tree', x, b) <==> Above(s.tree, x, b)
    ensures LockOrder(tree', a, b) == LockOrder(s.tree, a, b)
  {
    forall d, x | d in {a, b} ensures Above(tree', x, d) <==> Above(s.tree, x, d) {
      if Above(s.tree, n, d) { AboveExists(s, n, d); }
      SameAbove(s.tree, tree', x, d);
    }
    forall c, d | c in {a, b} && d in {a, b} ensures ChildToward(tree', c, d) == ChildToward(s.tree, c, d) {
      ChildTowardMeaning(s.tree, c, d);
      ChildTowardMeaning(tree', c, d);
      forall p: Node ensures IsChildToward(tree', c, d, p) <==> IsChildToward(s.tree, c, d, p) {
        if Above(s.tree, n, d) { AboveExists(s, n, d); }
      }
      SameAnswer(ChildToward(s.tree, c, d), ChildToward(tree', c, d));
    }
  }

  lemma SameAnswer(o1: Option<Node>, o2: Option<Node>)
    requires forall p: Node :: o1 == Some(p) <==> o2 == Some(p)
    ensures o1 == o2
  {
    if o1.Some? { assert o1 == Some(o1.value); }
    if o2.Some? { assert o2 == Some(o2.value); }
  }

  lemma CreateKeeps(s: State, t: TaskId, n: Node, isDir: bool)
    requires Inv(s) && Enabled(s, t, Create(n, isDir))
    ensures Inv(Apply(s, t, Create(n, isDir)))
  {
    var s' := Apply(s, t, Create(n, isDir));
    var d := s.tasks[t].newDir;
    assert TaskOk(s, s.tasks[t]);
    if Above(s.tree, n, d) { AboveExists(s, n, d); }
    ReparentExact(s.tree, n, d);
    assert forall y :: y != n ==> Par(s'.tree, y) == Par(s.tree, y);
    assert forall y :: Exists(s', y) <==> Exists(s, y) || y == n;
    forall u | u in s'.tasks ensures TaskOk(s', s'.tasks[u]) {
      if u != t { CreateTaskOk(s, s', n, s.tasks[u]); }
    }
  }

  lemma CreateTaskOk(s: State, s': State, n: Node, pc: Pc)
    requires TreeOk(s) && TaskOk(s, pc) && n !in s.tree.parent && n != s.tree.root
    requires Rooted(s'.tree) && s'.tree.root == s.tree.root && s.dirs <= s'.dirs <= s.dirs + {n} && s'.dead == s.dead
    requires forall y :: y != n ==> Par(s'.tree, y) == Par(s.tree, y)
    requires forall y :: Exists(s', y) <==> Exists(s, y) || y == n
    ensures TaskOk(s', pc)
  {
    if pc.WantFirst? || pc.WantSecond? || pc.Parents? || pc.Victims? {
      LeafKeepsOrder(s, s'.tree, n, pc.newDir, pc.oldDir);
      LeafKeepsOrder(s, s'.tree, n, pc.oldDir, pc.newDir);
    }
  }

  // ---------- commit ----------

  /** What an action does, object by object: who gets which parent, and who is removed. */
  lemma EffectExact(s: State, newDir: Node, act: Action, x: Node)
    requires TreeOk(s) && x != s.tree.root
    requires act.Swap? ==> act.src != act.other && Exists(s, act.src) && Exists(s, act.other)
    ensures var t := Effect(s, newDir, act);
      && t.dirs == s.dirs && t.tasks == s.tasks && t.tree.root == s.tree.root
      && (x in t.dead <==> x in s.dead || (act.Move? && act.target == Some(x)) || (act.Remove? && act.victim == x))
      && Par(t.tree, x) ==
           (if act.Move? && x == act.src then newDir
            else if act.Swap? && x == act.src then Par(s.tree, act.other)
            else if act.Swap? && x == act.other then Par(s.tree, act.src)
            else Par(s.tree, x))
  {
  }

  /** The step that makes the change makes all of it, for that task alone, and lets go of every
      mutex. */
  lemma CommitDoes(s: State, t: TaskId, x: Node)
    requires Inv(s) && Enabled(s, t, Commit) && x != s.tree.root
    ensures var act, newDir, u := s.tasks[t].act, s.tasks[t].newDir, Apply(s, t, Commit);
      && u.tasks == s.tasks[t := Idle] && u.dirs == s.dirs
      && (x in u.dead <==> x in s.dead || (act.Move? && act.target == Some(x)) || (act.Remove? && act.victim == x))
      && Par(u.tree, x) ==
           (if act.Move? && x == act.src then newDir
            else if act.Swap? && x == act.src then Par(s.tree, act.other)
            else if act.Swap? && x == act.other then Par(s.tree, act.src)
            else Par(s.tree, x))
  {
    EffectExact(s, s.tasks[t].newDir, s.tasks[t].act, x);
  }

  /** A new object appears under the locked directory, alive, and nothing else changes. */
  lemma CreateDoes(s: State, t: TaskId, n: Node, isDir: bool, x: Node)
    requires Inv(s) && Enabled(s, t, Create(n, isDir))
    ensures var u := Apply(s, t, Create(n, isDir));
      && u.tasks == s.tasks[t := Idle] && u.dead == s.dead
      && Exists(u, n) && Par(u.tree, n) == s.tasks[t].newDir
      && (x in u.dirs <==> x in s.dirs || (isDir && x == n))
      && (x != n && x != s.tree.root ==> (Exists(u, x) <==> Exists(s, x)) && Par(u.tree, x) == Par(s.tree, x))
  {
  }

  /** The new tree of an action that passed the checks is a tree. */
  lemma EffectRooted(s: State, newDir: Node, oldDir: Node, act: Action)
    requires TreeOk(s) && newDir in s.dirs && oldDir in s.dirs && ActionOk(s, newDir, oldDir, act)
    ensures Rooted(Effect(s, newDir, act).tree)
  {
    match act {
      case Move(src, target) => ReparentExact(s.tree, src, newDir);
      case Swap(src, other) => ExchangeExact(s.tree, src, other);
      case Remove(v) =>
    }
  }

  /** An action inside one directory changes no parent. */
  lemma SingleDirSameTree(s: State, d: Node, act: Action)
    requires ActionOk(s, d, d, act)
    ensures Effect(s, d, act).tree == s.tree
  {
    match act {
      case Move(src, target) => assert s.tree.parent[src := d] == s.tree.parent;
      case Swap(src, other) => assert s.tree.parent[src := d][other := d] == s.tree.parent;
      case Remove(v) =>
    }
  }

  /** A directory dies only under its own mutex. */
  lemma DeathIsLocked(s: State, pc: Pc, x: Node)
    requires Rooted(s.tree) && TaskOk(s, pc) && pc.Victims? && pc.next == |pc.victims|
    requires x in s.dirs && x !in s.dead && x in Effect(s, pc.newDir, pc.act).dead
    ensures IMutex(x) in Holds(pc)
  {
    assert pc.victims == [x];
    assert pc.victims[0] == x;
  }

  /** What the other tasks rely on survives a commit of task t. */
  lemma CommitTaskOk(s: State, t: TaskId, u: TaskId)
    requires Inv(s) && Enabled(s, t, Commit) && u in s.tasks && u != t
    requires TreeOk(Apply(s, t, Commit))
    ensures TaskOk(Apply(s, t, Commit), s.tasks[u])
  {
    var s' := Apply(s, t, Commit);
    var pc, qc := s.tasks[t], s.tasks[u];
    assert TaskOk(s, pc) && TaskOk(s, qc);
    assert s'.dirs == s.dirs && s'.tree.root == s.tree.root;
    if qc.Victims? {
      forall x | x in {qc.newDir, qc.oldDir} ensures x !in s'.dead {
        assert IMutex(x) in Holds(qc);
        if x in s'.dead { DeathIsLocked(s, pc, x); }
      }
    }
    if pc.newDir == pc.oldDir {
      SingleDirSameTree(s, pc.newDir, pc.act);
      assert forall n :: Exists(s', n) == Exists(s, n);
    } else {
      assert RenameMutex in Holds(pc) && RenameMutex !in Holds(qc);
      if qc.Victims? {
        assert IMutex(pc.newDir) in Holds(pc) && IMutex(pc.oldDir) in Holds(pc) && IMutex(qc.newDir) in Holds(qc);
        assert forall n :: Par(s.tree, n) == qc.newDir ==> Par(s'.tree, n) == qc.newDir;
        assert forall n :: Exists(s, n) ==> Exists(s', n);
        forall n | n != s'.tree.root && Par(s'.tree, n) == qc.newDir ensures !Above(s'.tree, n, qc.newDir) {
          ProperParent(s'.tree, n);
        }
      }
    }
  }

  lemma CommitKeeps(s: State, t: TaskId)
    requires Inv(s) && Enabled(s, t, Commit)
    ensures Inv(Apply(s, t, Commit))
  {
    var s' := Apply(s, t, Commit);
    var pc := s.tasks[t];
    assert TaskOk(s, pc);
    EffectRooted(s, pc.newDir, pc.oldDir, pc.act);
    assert forall n :: Exists(s', n) <==> Exists(s, n);
    assert TreeOk(s');
    forall u | u in s'.tasks ensures TaskOk(s', s'.tasks[u]) {
      if u != t { CommitTaskOk(s, t, u); }
    }
    CommitNoOrphans(s, t);
  }

  lemma CommitNoOrphans(s: State, t: TaskId)
    requires Inv(s) && Enabled(s, t, Commit)
    ensures NoOrphans(Apply(s, t, Commit))
  {
    var s' := Apply(s, t, Commit);
    var pc := s.tasks[t];
    assert TaskOk(s, pc);
    forall n | Live(s', n) ensures Par(s'.tree, n) !in s'.dead {
      assert Live(s, n);
    }
  }

  // ---------- every run ----------

  lemma StepKeeps(s: State, t: TaskId, e: Event)
    requires Inv(s) && Enabled(s, t, e)
    ensures Inv(Apply(s, t, e))
  {
    match e {
      case Take => TakeKeeps(s, t);
      case Choose(act) => ChooseKeeps(s, t, act);
      case Create(n, isDir) => CreateKeeps(s, t, n, isDir);
      case Commit => CommitKeeps(s, t);
      case StartCross(n, o) => OnlyPcChanges(s, t, WantRename(n, o));
      case StartSingle(d) => OnlyPcChanges(s, t, WantParent(d));
      case Abort => OnlyPcChanges(s, t, Idle);
    }
  }

  ghost predicate Initial(s: State) {
    TreeOk(s) && NoOrphans(s) && forall t :: t in s.tasks ==> s.tasks[t].Idle?
  }

  ghost predicate Next(s: State, s': State) {
    Rooted(s.tree) && exists t, e :: Enabled(s, t, e) && s' == Apply(s, t, e)
  }

  ghost predicate IsRun(run: seq<State>) {
    && |run| > 0 && Initial(run[0])
    && forall i, j {:trigger Next(run[i], run[j])} :: 0 <= i && j == i + 1 && j < |run| ==> Next(run[i], run[j])
  }

  lemma {:induction false} RunsAreSafe(run: seq<State>, i: nat)
    requires IsRun(run) && i < |run|
    ensures Inv(run[i])
  {
    if i > 0 {
      RunsAreSafe(run, i - 1);
      assert Next(run[i - 1], run[i]);
      var t, e :| Enabled(run[i - 1], t, e) && run[i] == Apply(run[i - 1], t, e);
      StepKeeps(run[i - 1], t, e);
    }
  }
}
