/** renameat2 and vfs_rename run to completion by one task: the order of the checks,
    the error each gives, and what a caller learns from it. */
module RenameOps {
  import opened Common
  import opened DirTree
  import L = RenameLocks

  datatype Errno = Ok | ENOENT | EEXIST | ENOTDIR | EISDIR | EINVAL | ENOTEMPTY | FsError

  /** Arguments after the two lookups: src or target is None for a negative dentry;
      the slash flags say that the name was followed by a slash. */
  datatype Request = Request(oldDir: Node, src: Option<Node>, srcSlash: bool,
                             newDir: Node, target: Option<Node>, dstSlash: bool,
                             noReplace: bool, exchange: bool)

  class Namespace {
    var tree: Tree
    var dirs: set<Node>
    var dead: set<Node>

    ghost function View(): (s: L.State)
      reads this
    {
      L.State(tree, dirs, dead, map[])
    }

    ghost predicate Valid()
      reads this
    {
      L.TreeOk(View()) && L.NoOrphans(View())
    }

    /** What lookup_hash can return: live children of the two directories. */
    ghost predicate Found(r: Request)
      reads this
    {
      && r.oldDir in dirs && r.newDir in dirs
      && (r.src.Some? ==> L.Live(View(), r.src.value) && Par(tree, r.src.value) == r.oldDir)
      && (r.target.Some? ==> L.Live(View(), r.target.value) && Par(tree, r.target.value) == r.newDir)
    }

    /** The tree a request asks for. */
    ghost function Asked(r: Request): (t: Tree)
      requires r.src.Some? && (r.exchange ==> r.target.Some?)
      reads this
    {
      if r.exchange then DirTree.Exchange(tree, r.src.value, r.target.value)
      else Reparent(tree, r.src.value, r.newDir)
    }

    /** The request names what it needs: flags that go together, a source, for an exchange a
        target, and none where nothing may be replaced. */
    ghost predicate Named(r: Request)
      reads this
    {
      && !(r.noReplace && r.exchange) && r.src.Some?
      && (r.exchange ==> r.target.Some?) && !(r.noReplace && r.target.Some?)
    }

    /** A slash follows the name of something that is not, or will not be, a directory. */
    ghost predicate SlashAfterFile(r: Request)
      requires Named(r)
      reads this
    {
      || (r.src.value !in dirs && (r.srcSlash || (!r.exchange && r.dstSlash)))
      || (r.exchange && r.target.value !in dirs && r.dstSlash)
    }

    /** The source is above the directory it is to go to, or the target above the source's. */
    ghost predicate SourceAbove(r: Request)
      requires Named(r)
      reads this
    {
      Above(tree, r.src.value, r.newDir)
    }

    ghost predicate TargetAbove(r: Request)
      reads this
    {
      r.target.Some? && Above(tree, r.target.value, r.oldDir)
    }

    /** renameat2 hands the request on to vfs_rename. */
    ghost predicate Passes(r: Request)
      reads this
    {
      Named(r) && !SlashAfterFile(r) && !SourceAbove(r) && !TargetAbove(r)
    }

    /** A directory is to replace a directory, or something else something else. */
    ghost predicate KindsAgree(r: Request)
      requires Named(r)
      reads this
    {
      r.exchange || r.target.None? || (r.src.value in dirs <==> r.target.value in dirs)
    }

    /** renameat2's own checks: each answer exactly when it is due. */
    method Precheck(r: Request) returns (e: Errno)
      requires Valid() && Found(r)
      ensures e == Ok <==> Passes(r)
      ensures e == ENOENT <==> !(r.noReplace && r.exchange) && (r.src.None? || (r.exchange && r.target.None?))
      ensures e == EEXIST <==> !r.exchange && r.src.Some? && r.noReplace && r.target.Some?
      ensures e == ENOTDIR <==> Named(r) && SlashAfterFile(r)
      ensures e == EINVAL <==>
        || (r.noReplace && r.exchange)
        || (Named(r) && !SlashAfterFile(r) && (SourceAbove(r) || (r.exchange && TargetAbove(r))))
      ensures e == ENOTEMPTY <==>
        Named(r) && !SlashAfterFile(r) && !SourceAbove(r) && !r.exchange && TargetAbove(r)
      ensures e == Ok && r.src != r.target ==> Rooted(Asked(r))
      ensures e == EINVAL && Named(r) ==> r.src != r.target && !Rooted(Asked(r))
    {
      if r.noReplace && r.exchange { return EINVAL; }
      var order := LockRename(tree, r.newDir, r.oldDir);
      if r.src.None? { return ENOENT; }
      if r.noReplace && r.target.Some? { return EEXIST; }
      if r.exchange {
        if r.target.None? { return ENOENT; }
        if r.target.value !in dirs && r.dstSlash { return ENOTDIR; }
      }
      if r.src.value !in dirs {
        if r.srcSlash { return ENOTDIR; }
        if !r.exchange && r.dstSlash { return ENOTDIR; }
      }
      TrapMeaning(tree, r.newDir, r.oldDir, r.src.value);
      if r.target.Some? { TrapMeaning(tree, r.newDir, r.oldDir, r.target.value); }
      if r.exchange && r.src != r.target {
        ExchangeExact(tree, r.src.value, r.target.value);
      } else {
        ReparentExact(tree, r.src.value, r.newDir);
      }
      if r.src == r.target { ProperParent(tree, r.src.value); }
      if r.src == order.trap { return EINVAL; }
      if r.target.Some? && r.target == order.trap { return if r.exchange then EINVAL else ENOTEMPTY; }
      return Ok;
    }

    /** renameat2.  fs is the answer of the file system's own rename, which refuses to
        replace a directory that has entries. */
    method RenameAt2(r: Request, fs: Errno) returns (e: Errno)
      requires Valid() && Found(r)
      requires fs == Ok && !r.exchange && r.target.Some? ==> L.Empty(View(), r.target.value)
      modifies this
      ensures Valid() && dirs == old(dirs)
      // when it succeeds, and what it then does
      ensures e == Ok <==>
        old(Passes(r)) && (r.src == r.target || (old(KindsAgree(r)) && r.newDir !in old(dead) && fs == Ok))
      ensures e != Ok || r.src == r.target ==> View() == old(View())
      ensures e == Ok && r.src != r.target ==>
        && View() == L.Effect(old(View()), r.newDir,
             if r.exchange then L.Swap(r.src.value, r.target.value) else L.Move(r.src.value, r.target))
        && tree == old(Asked(r))
        && dead == old(dead) + (if !r.exchange && r.target.Some? then {r.target.value} else {})
      // each error exactly when it is due
      ensures e == ENOENT <==>
        || (!(r.noReplace && r.exchange) && (r.src.None? || (r.exchange && r.target.None?)))
        || (old(Passes(r)) && r.src != r.target && old(KindsAgree(r)) && r.newDir in old(dead))
      ensures e == EEXIST <==> !r.exchange && r.src.Some? && r.noReplace && r.target.Some?
      ensures e == ENOTDIR <==>
        || (old(Named(r)) && old(SlashAfterFile(r)))
        || (old(Passes(r)) && r.src.value in dirs && !old(KindsAgree(r)))
      ensures e == EISDIR <==> old(Passes(r)) && r.src.value !in dirs && !old(KindsAgree(r))
      ensures e == EINVAL <==>
        || (r.noReplace && r.exchange)
        || (old(Named(r)) && !old(SlashAfterFile(r)) && (old(SourceAbove(r)) || (r.exchange && old(TargetAbove(r)))))
      ensures e == ENOTEMPTY <==>
        old(Named(r)) && !old(SlashAfterFile(r)) && !old(SourceAbove(r)) && !r.exchange && old(TargetAbove(r))
      ensures e == FsError <==>
        old(Passes(r)) && r.src != r.target && old(KindsAgree(r)) && r.newDir !in old(dead) && fs != Ok
    {
      e := Precheck(r);
      if e != Ok || r.src == r.target { return; }
      if r.oldDir in dead { return ENOENT; }
      if r.target.Some? && !r.exchange {
        if r.src.value in dirs && r.target.value !in dirs { return ENOTDIR; }
        if r.src.value !in dirs && r.target.value in dirs { return EISDIR; }
      }
      if r.newDir in dead { return ENOENT; }
      if fs != Ok { return FsError; }
      ghost var before := View();
      if r.exchange {
        tree := DirTree.Exchange(tree, r.src.value, r.target.value);
      } else {
        tree := Reparent(tree, r.src.value, r.newDir);
        if r.target.Some? { dead := dead + {r.target.value}; }
      }
      assert forall n :: L.Exists(View(), n) <==> L.Exists(before, n);
      assert forall n :: L.Live(View(), n) ==> L.Live(before, n);
    }
  }
}
