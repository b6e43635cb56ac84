/** Rename, rmdir, unlink and create as concurrent tasks.

    The shared state is the tree, the set of directories, and the set of removed
    objects (a removed directory keeps its parent pointer; it is only dead).  Each
    event is one atomic step: taking one mutex, checking under the mutexes held, or
    the change itself.  Which task holds which mutex follows from its program
    counter. */
module RenameLocks {
  import opened Common
  import opened DirTree

  type TaskId = nat

  datatype Lock = RenameMutex | IMutex(n: Node)

  /** What vfs_rename, vfs_rmdir or vfs_unlink is about to do. */
  datatype Action =
    | Move(src: Node, target: Option<Node>)
    | Swap(src: Node, other: Node)
    | Remove(victim: Node)

  datatype Pc =
    | Idle
    // lock_rename(newDir, oldDir) of two different directories
    | WantRename(newDir: Node, oldDir: Node)
    | WantFirst(newDir: Node, oldDir: Node, order: Order)
    | WantSecond(newDir: Node, oldDir: Node, order: Order)
    // any operation on one directory, including lock_rename(dir, dir)
    | WantParent(dir: Node)
    // the parents are locked; trap is what lock_rename returned
    | Parents(newDir: Node, oldDir: Node, trap: Option<Node>)
    // inside vfs_*: victims[..next] are locked as well
    | Victims(newDir: Node, oldDir: Node, act: Action, victims: seq<Node>, next: nat)

  datatype State = State(tree: Tree, dirs: set<Node>, dead: set<Node>, tasks: map<TaskId, Pc>)

  datatype Event =
    | StartCross(newDir: Node, oldDir: Node)
    | StartSingle(dir: Node)
    | Take
    | Choose(act: Action)
    | Create(n: Node, isDir: bool)
    | Commit
    | Abort

  // ---------- locks ----------

  ghost function ParentLocks(newDir: Node, oldDir: Node): (r: set<Lock>) {
    {IMutex(newDir), IMutex(oldDir)} + (if newDir == oldDir then {} else {RenameMutex})
  }

  ghost function Holds(pc: Pc): (r: set<Lock>) {
    match pc
    case Idle => {}
    case WantRename(_, _) => {}
    case WantParent(_) => {}
    case WantFirst(_, _, _) => {RenameMutex}
    case WantSecond(_, _, o) => {RenameMutex, IMutex(o.first)}
    case Parents(n, o, _) => ParentLocks(n, o)
    case Victims(n, o, _, vs, k) => ParentLocks(n, o) + (set i | 0 <= i < k && i < |vs| :: IMutex(vs[i]))
  }

  ghost function Want(pc: Pc): (r: Option<Lock>) {
    match pc
    case WantRename(_, _) => Some(RenameMutex)
    case WantParent(d) => Some(IMutex(d))
    case WantFirst(_, _, o) => Some(IMutex(o.first))
    case WantSecond(_, _, o) => Some(IMutex(o.second))
    case Victims(_, _, _, vs, k) => if k < |vs| then Some(IMutex(vs[k])) else None
    case _ => None
  }

  /** Task t sleeps on a mutex that u holds; a mutex is not recursive, so u may be t. */
  ghost predicate WaitsFor(s: State, t: TaskId, u: TaskId) {
    t in s.tasks && u in s.tasks && Want(s.tasks[t]).Some? && Want(s.tasks[t]).value in Holds(s.tasks[u])
  }

  ghost predicate Blocked(s: State, t: TaskId) {
    exists u :: WaitsFor(s, t, u)
  }

  // ---------- checks and effects ----------

  predicate Exists(s: State, n: Node) { n in s.tree.parent && n != s.tree.root }

  predicate Live(s: State, n: Node) { Exists(s, n) && n !in s.dead }

  /** lock_two_nondirectories: the non-directories among a and b, by address. */
  function TwoNonDirs(dirs: set<Node>, a: Node, b: Node): (r: seq<Node>) {
    var x := if a < b then a else b;
    var y := if a < b then b else a;
    (if x in dirs then [] else [x]) + (if y in dirs || y == x then [] else [y])
  }

  /** The mutexes vfs_rename, vfs_rmdir and vfs_unlink take on what they change. */
  function VictimList(dirs: set<Node>, act: Action): (r: seq<Node>) {
    match act
    case Move(src, None) => if src in dirs then [] else [src]
    case Move(src, Some(target)) => if src in dirs then [target] else TwoNonDirs(dirs, src, target)
    case Swap(src, other) => TwoNonDirs(dirs, src, other)
    case Remove(v) => [v]
  }

  /** The checks of renameat2, may_delete and may_create under the parents' mutexes. */
  predicate Allowed(s: State, newDir: Node, oldDir: Node, trap: Option<Node>, act: Action) {
    && newDir !in s.dead && oldDir !in s.dead
    && match act
       case Move(src, target) =>
         && Live(s, src) && Par(s.tree, src) == oldDir && Some(src) != trap
         && (target.Some? ==>
               && Live(s, target.value) && Par(s.tree, target.value) == newDir && target != trap
               && target.value != src && (src in s.dirs <==> target.value in s.dirs))
       case Swap(src, other) =>
         && Live(s, src) && Par(s.tree, src) == oldDir && Some(src) != trap
         && Live(s, other) && Par(s.tree, other) == newDir && Some(other) != trap && other != src
       case Remove(v) => newDir == oldDir && Live(s, v) && Par(s.tree, v) == newDir
  }

  /** The file system refuses to remove a directory that still has entries. */
  ghost predicate Empty(s: State, d: Node) {
    forall n :: Live(s, n) ==> Par(s.tree, n) != d
  }

  ghost predicate Removable(s: State, act: Action) {
    match act
    case Move(_, Some(target)) => Empty(s, target)
    case Remove(v) => Empty(s, v)
    case _ => true
  }

  function Effect(s: State, newDir: Node, act: Action): (r: State) {
    match act
    case Move(src, None) => s.(tree := Reparent(s.tree, src, newDir))
    case Move(src, Some(target)) => s.(tree := Reparent(s.tree, src, newDir), dead := s.dead + {target})
    case Swap(src, other) => s.(tree := DirTree.Exchange(s.tree, src, other))
    case Remove(v) => s.(dead := s.dead + {v})
  }

  function Set(s: State, t: TaskId, pc: Pc): (r: State) {
    s.(tasks := s.tasks[t := pc])
  }

  /** The program counter after the wanted mutex has been granted. */
  ghost function AfterTake(s: State, pc: Pc): (r: Pc)
    requires Rooted(s.tree)
  {
    match pc
    case WantRename(n, o) => WantFirst(n, o, LockOrder(s.tree, n, o))
    case WantFirst(n, o, ord) => WantSecond(n, o, ord)
    case WantSecond(n, o, ord) => Parents(n, o, ord.trap)
    case WantParent(d) => Parents(d, d, None)
    case Victims(n, o, act, vs, k) => Victims(n, o, act, vs, k + 1)
    case _ => pc
  }

  ghost predicate Enabled(s: State, t: TaskId, e: Event)
    requires Rooted(s.tree)
  {
    && t in s.tasks
    && var pc := s.tasks[t];
       match e
       case StartCross(n, o) => pc.Idle? && n in s.dirs && o in s.dirs && n != o
       case StartSingle(d) => pc.Idle? && d in s.dirs
       case Take => Want(pc).Some? && !Blocked(s, t)
       case Choose(act) => pc.Parents? && Allowed(s, pc.newDir, pc.oldDir, pc.trap, act)
       case Create(n, _) =>
         && pc.Parents? && pc.newDir == pc.oldDir && pc.newDir !in s.dead
         && n !in s.tree.parent && n != s.tree.root
       case Commit => pc.Victims? && pc.next == |pc.victims| && Removable(s, pc.act)
       case Abort => pc.Parents? || (pc.Victims? && pc.next == |pc.victims|)
  }

  ghost function Apply(s: State, t: TaskId, e: Event): (r: State)
    requires Rooted(s.tree) && Enabled(s, t, e)
  {
    var pc := s.tasks[t];
    match e
    case StartCross(n, o) => Set(s, t, WantRename(n, o))
    case StartSingle(d) => Set(s, t, WantParent(d))
    case Take => Set(s, t, AfterTake(s, pc))
    case Choose(act) => Set(s, t, Victims(pc.newDir, pc.oldDir, act, VictimList(s.dirs, act), 0))
    case Create(n, isDir) =>
      Set(s.(tree := Reparent(s.tree, n, pc.newDir), dirs := if isDir then s.dirs + {n} else s.dirs), t, Idle)
    case Commit => Set(Effect(s, pc.newDir, pc.act), t, Idle)
    case Abort => Set(s, t, Idle)
  }

  // ---------- the invariant ----------

  ghost predicate TreeOk(s: State) {
    && Rooted(s.tree)
    && s.tree.root in s.dirs && s.tree.root !in s.dead
    && (forall n :: n in s.dirs ==> n in s.tree.parent || n == s.tree.root)
    && (forall n :: Exists(s, n) ==> Par(s.tree, n) in s.dirs)
  }

  /** No live object sits in a removed directory. */
  ghost predicate NoOrphans(s: State) {
    forall n :: Live(s, n) ==> Par(s.tree, n) !in s.dead
  }

  ghost predicate MutualExclusion(s: State) {
    forall t, u :: t in s.tasks && u in s.tasks && t != u ==> Holds(s.tasks[t]) !! Holds(s.tasks[u])
  }

  ghost predicate ActionOk(s: State, newDir: Node, oldDir: Node, act: Action)
  {
    match act
    case Move(src, target) =>
      && Exists(s, src) && Par(s.tree, src) == oldDir && !Above(s.tree, src, newDir)
      && (target.Some? ==>
            && Exists(s, target.value) && Par(s.tree, target.value) == newDir
            && !Above(s.tree, target.value, oldDir)
            && target.value != src && (src in s.dirs <==> target.value in s.dirs))
    case Swap(src, other) =>
      && Exists(s, src) && Par(s.tree, src) == oldDir && !Above(s.tree, src, newDir)
      && Exists(s, other) && Par(s.tree, other) == newDir && !Above(s.tree, other, oldDir) && other != src
    case Remove(v) => newDir == oldDir && Exists(s, v) && Par(s.tree, v) == newDir
  }

  /** What each task may rely on while others run. */
  ghost predicate TaskOk(s: State, pc: Pc)
    requires Rooted(s.tree)
  {
    match pc
    case Idle => true
    case WantRename(n, o) => n in s.dirs && o in s.dirs && n != o
    case WantParent(d) => d in s.dirs
    case WantFirst(n, o, ord) => n in s.dirs && o in s.dirs && n != o && ord == LockOrder(s.tree, n, o)
    case WantSecond(n, o, ord) => n in s.dirs && o in s.dirs && n != o && ord == LockOrder(s.tree, n, o)
    case Parents(n, o, trap) => n in s.dirs && o in s.dirs && trap == LockOrder(s.tree, n, o).trap
    case Victims(n, o, act, vs, k) =>
      && n in s.dirs && o in s.dirs && n !in s.dead && o !in s.dead
      && ActionOk(s, n, o, act) && vs == VictimList(s.dirs, act) && k <= |vs|
  }

  ghost predicate Inv(s: State) {
    && TreeOk(s) && NoOrphans(s) && MutualExclusion(s)
    && forall t :: t in s.tasks ==> TaskOk(s, s.tasks[t])
  }
}
