/** The attribute cache of an inode: what a reply of the server does to it. */
module AttrCache {
  import opened Common

  /** umode_t: the file type in the upper four bits and the permissions in the lower twelve. */
  type Mode = m: nat | m < 0x1_0000

  const S_IFREG: Mode := 0x8000
  const S_IFDIR: Mode := 0x4000
  const S_IFLNK: Mode := 0xa000

  /** mode & S_IALLUGO, the lower twelve bits */
  function Perm(m: Mode): (r: Mode) { m % 0x1000 }

  /** mode & S_IFMT, the others; in sixteen bits this is also mode & ~S_IALLUGO */
  function TypeBits(m: Mode): (r: Mode) { m - m % 0x1000 }

  /** a | b of a type and permissions, which have no bit in common */
  function Joined(a: Mode, b: Mode): (r: Mode)
    requires Perm(a) == 0 && TypeBits(b) == 0
  {
    a + b
  }

  datatype Kind = Reg | Dir | Lnk | Other

  /** S_ISREG, S_ISDIR and S_ISLNK */
  function KindOf(m: Mode): (k: Kind) {
    if TypeBits(m) == S_IFREG then Reg
    else if TypeBits(m) == S_IFDIR then Dir
    else if TypeBits(m) == S_IFLNK then Lnk
    else Other
  }

  /** The mode of a file that takes over the permissions of a reply. */
  function TakePerm(m: Mode, n: Mode): (r: Mode) { Joined(TypeBits(m), Perm(n)) }

  lemma TakePermExact(m: Mode, n: Mode)
    ensures TypeBits(TakePerm(m, n)) == TypeBits(m) && Perm(TakePerm(m, n)) == Perm(n)
    ensures Perm(n) == Perm(m) ==> TakePerm(m, n) == m
  {
  }

  /** cache_validity */
  datatype Flags = Flags(attr: bool, atime: bool, data: bool, access: bool, acl: bool, pagecache: bool, forced: bool)

  const NONE := Flags(false, false, false, false, false, false, false)

  function Or(a: Flags, b: Flags): (r: Flags) {
    Flags(a.attr || b.attr, a.atime || b.atime, a.data || b.data, a.access || b.access,
          a.acl || b.acl, a.pagecache || b.pagecache, a.forced || b.forced)
  }

  function And(a: Flags, b: Flags): (r: Flags) {
    Flags(a.attr && b.attr, a.atime && b.atime, a.data && b.data, a.access && b.access,
          a.acl && b.acl, a.pagecache && b.pagecache, a.forced && b.forced)
  }

  /** The attributes that NFS compares and copies; times are in nanoseconds. */
  datatype Attrs = Attrs(version: int, mtime: int, ctime: int, atime: int, size: int,
                         mode: Mode, uid: int, gid: int, nlink: int)

  /** What only this file's functions change. */
  datatype Times = Times(timeo: nat, since: int, read: int, gencount: nat)

  datatype Inode = Inode(fileid: int, attrs: Attrs, requests: nat, pages: bool,
                         valid: Flags, stale: bool, times: Times, lookups: nat)

  function Type(i: Inode): (k: Kind) { KindOf(i.attrs.mode) }

  /** struct nfs_fattr, with its valid bits as options; others: RDEV or FSID is there.  Type
      and permissions are valid apart from each other, but share one mode. */
  datatype Fattr = Fattr(fileid: Option<int>, mountedOn: Option<int>,
                         typed: bool, moded: bool, mode: Mode, others: bool,
                         change: Option<int>, mtime: Option<int>, ctime: Option<int>, atime: Option<int>,
                         size: Option<int>,
                         uid: Option<int>, gid: Option<int>, nlink: Option<int>,
                         preChange: Option<int>, preMtime: Option<int>, preCtime: Option<int>, preSize: Option<int>,
                         started: int, gencount: nat)

  /** server->caps */
  datatype Caps = Caps(change: bool, mtime: bool, ctime: bool, atime: bool,
                       mode: bool, owner: bool, group: bool, nlink: bool)

  /** What the functions look up elsewhere. */
  datatype Env = Env(caps: Caps, delegation: bool, delegatedAttrs: bool, layoutcommit: bool, now: int)

  /** acregmin and friends */
  datatype Limits = Limits(regMin: nat, regMax: nat, dirMin: nat, dirMax: nat)

  function Min(l: Limits, k: Kind): (n: nat) { if k.Dir? then l.dirMin else l.regMin }

  function Max(l: Limits, k: Kind): (n: nat) { if k.Dir? then l.dirMax else l.regMax }

  function Get(o: Option<int>, x: int): (r: int) { if o.Some? then o.value else x }

  /** o carries a value other than x */
  predicate Differs(o: Option<int>, x: int) { o.Some? && o.value != x }

  /** valid & NFS_ATTR_FATTR */
  predicate HasAttrs(f: Fattr) {
    f.fileid.Some? || f.typed || f.moded || f.others || f.change.Some? || f.mtime.Some? || f.ctime.Some?
    || f.atime.Some? || f.size.Some? || f.uid.Some? || f.gid.Some? || f.nlink.Some?
  }

  predicate NoPreOp(f: Fattr) { f.preChange.None? && f.preMtime.None? && f.preCtime.None? && f.preSize.None? }

  // ---------- is the reply fresh, and is it about this file ----------

  predicate CtimeNeedUpdate(i: Inode, f: Fattr) { f.ctime.Some? && f.ctime.value > i.attrs.ctime }

  predicate SizeNeedUpdate(i: Inode, f: Fattr) { f.size.Some? && f.size.value > i.attrs.size }

  predicate AttrsNeedUpdate(i: Inode, f: Fattr, counter: nat) {
    f.gencount > i.times.gencount || CtimeNeedUpdate(i, f) || SizeNeedUpdate(i, f) || i.times.gencount > counter
  }

  /** nfs_fileid_valid */
  predicate FileidValid(i: Inode, f: Fattr) {
    var ret1 := f.fileid.Some? ==> i.fileid == f.fileid.value;
    var ret2 := f.mountedOn.Some? ==> i.fileid == f.mountedOn.value;
    ret1 || ret2
  }

  predicate OtherType(i: Inode, f: Fattr) { f.typed && TypeBits(f.mode) != TypeBits(i.attrs.mode) }

  predicate Foreign(i: Inode, f: Fattr) { !FileidValid(i, f) || OtherType(i, f) }

  // ---------- what a reply tells ----------

  /** A pre-operation attribute matches what is cached: the client knows the change as its own. */
  predicate Own(pre: Option<int>, post: Option<int>, cached: int) { pre.Some? && post.Some? && pre.value == cached }

  predicate OwnSize(i: Inode, f: Fattr) { Own(f.preSize, f.size, i.attrs.size) && i.requests == 0 }

  predicate WccHit(i: Inode, f: Fattr) {
    Own(f.preChange, f.change, i.attrs.version) || Own(f.preCtime, f.ctime, i.attrs.ctime)
    || Own(f.preMtime, f.mtime, i.attrs.mtime) || OwnSize(i, f)
  }

  /** Somebody else changed the file. */
  predicate ChangeSeen(i: Inode, f: Fattr) {
    Differs(f.change, i.attrs.version) && !Own(f.preChange, f.change, i.attrs.version)
  }

  predicate SizeSeen(i: Inode, f: Fattr) {
    Differs(f.size, i.attrs.size) && (if i.requests == 0 then !OwnSize(i, f) else f.size.value > i.attrs.size)
  }

  predicate PermDiffers(f: Fattr, m: Mode) { f.moded && Perm(f.mode) != Perm(m) }

  predicate ModeSeen(i: Inode, f: Fattr) {
    PermDiffers(f, i.attrs.mode) || Differs(f.uid, i.attrs.uid) || Differs(f.gid, i.attrs.gid)
  }

  predicate LinksSeen(i: Inode, f: Fattr) { Differs(f.nlink, i.attrs.nlink) }

  /** A full update finds the attributes changed. */
  predicate Detected(i: Inode, f: Fattr) {
    WccHit(i, f) || ChangeSeen(i, f) || SizeSeen(i, f) || ModeSeen(i, f) || LinksSeen(i, f)
  }

  /** Nothing vouches for the cached data. */
  predicate Distrust(i: Inode, e: Env) { !e.delegation || i.valid.forced }

  // ---------- the new state, field by field ----------

  function NewMode(m: Mode, f: Fattr): (r: Mode) { if f.moded then TakePerm(m, f.mode) else m }

  function NewAttrs(i: Inode, f: Fattr): (a: Attrs) {
    var a := i.attrs;
    Attrs(Get(f.change, a.version), Get(f.mtime, a.mtime), Get(f.ctime, a.ctime), Get(f.atime, a.atime),
          if f.size.Some? && (i.requests == 0 || f.size.value > a.size) then f.size.value else a.size,
          NewMode(a.mode, f), Get(f.uid, a.uid), Get(f.gid, a.gid), Get(f.nlink, a.nlink))
  }

  /** An attribute the server can send is missing from the reply. */
  predicate NoChange(f: Fattr, c: Caps) { f.change.None? && c.change }

  predicate Incomplete(f: Fattr, c: Caps) {
    NoChange(f, c) || (f.mtime.None? && c.mtime) || (f.ctime.None? && c.ctime) || f.size.None?
    || (!f.moded && c.mode) || (f.uid.None? && c.owner) || (f.gid.None? && c.group) || (f.nlink.None? && c.nlink)
  }

  predicate NoAtime(f: Fattr, c: Caps) { f.atime.None? && c.atime }

  /** INVALID_DATA is raised, by the update itself or by a directory's own change. */
  predicate RaisesData(i: Inode, f: Fattr, e: Env) {
    && i.pages
    && (|| (Distrust(i, e) && !Type(i).Other?
            && (ChangeSeen(i, f) || SizeSeen(i, f) || (Type(i).Dir? && LinksSeen(i, f))))
        || (Type(i).Dir? && (Own(f.preChange, f.change, i.attrs.version) || Own(f.preMtime, f.mtime, i.attrs.mtime))))
  }

  function NewFlags(i: Inode, f: Fattr, e: Env): (v: Flags) {
    var v := i.valid;
    var open := Distrust(i, e);
    Flags(v.attr && Incomplete(f, e.caps),
          v.atime && (NoChange(f, e.caps) || NoAtime(f, e.caps)),
          v.data || RaisesData(i, f, e),
          v.access || (open && (ChangeSeen(i, f) || ModeSeen(i, f))),
          v.acl || (open && (ChangeSeen(i, f) || ModeSeen(i, f))),
          (v.pagecache && (NoChange(f, e.caps) || f.size.None?)) || (open && ChangeSeen(i, f) && !SizeSeen(i, f)),
          v.forced && (Incomplete(f, e.caps) || NoAtime(f, e.caps)))
  }

  /** The timeout and the generation number: back to the minimum on a change, else doubled up
      to the maximum once it has run out. */
  function Ticked(t: Times, changed: bool, now: int, l: Limits, k: Kind, counter: nat): (r: Times) {
    if changed then Times(Min(l, k), now, t.read, counter + 1)
    else if t.since <= now < t.since + t.timeo then t
    else t.(timeo := if 2 * t.timeo > Max(l, k) then Max(l, k) else 2 * t.timeo, since := now)
  }

  function NewTimes(i: Inode, f: Fattr, e: Env, l: Limits, counter: nat): (t: Times) {
    Ticked(i.times.(read := f.started), Detected(i, f), e.now, l, Type(i), counter)
  }

  /** nfs_update_inode on a reply about this file */
  function Updated(i: Inode, f: Fattr, e: Env, l: Limits, counter: nat): (r: Inode) {
    i.(attrs := NewAttrs(i, f), valid := NewFlags(i, f, e), times := NewTimes(i, f, e, l, counter),
       lookups := if Type(i).Dir? && ChangeSeen(i, f) then i.lookups + 1 else i.lookups)
  }

  /** nfs_set_cache_invalid */
  function Invalidate(i: Inode, v: Flags): (r: Inode) {
    i.(valid := Or(i.valid, v.(data := v.data && i.pages)))
  }

  /** nfs_zap_caches_locked */
  function Zapped(i: Inode, l: Limits, now: int): (r: Inode) {
    Invalidate(i.(times := i.times.(timeo := Min(l, Type(i)), since := now)),
               Flags(true, false, !Type(i).Other?, true, true, true, false))
  }

  datatype Status = Ok | ESTALE | EIO

  /** nfs_update_inode: the new inode, the new generation counter and the status. */
  function UpdateInode(i: Inode, f: Fattr, e: Env, l: Limits, counter: nat): (r: (Inode, nat, Status)) {
    if Foreign(i, f) then (Zapped(i.(stale := true), l, e.now), counter, ESTALE)
    else (Updated(i, f, e, l, counter), if Detected(i, f) then counter + 1 else counter, Ok)
  }

  /** nfs_check_inode_attributes */
  function Doubts(i: Inode, f: Fattr): (v: Flags) {
    var size := Differs(f.size, i.attrs.size) && i.requests == 0;
    var change := Differs(f.change, i.attrs.version);
    Flags(change || Differs(f.mtime, i.attrs.mtime) || size || ModeSeen(i, f) || LinksSeen(i, f),
          Differs(f.atime, i.attrs.atime), false, ModeSeen(i, f), ModeSeen(i, f), change || size, false)
  }

  function CheckInode(i: Inode, f: Fattr, e: Env): (r: (Inode, Status)) {
    if e.delegatedAttrs then (i, Ok)
    else if Differs(f.fileid, i.fileid) || OtherType(i, f) then (i, EIO)
    else (Invalidate(i, Doubts(i, f)).(times := i.times.(read := f.started)), Ok)
  }

  /** nfs_inode_attrs_handle_layoutcommit */
  function HandleLayoutcommit(f: Fattr, e: Env): (r: Fattr) {
    if e.layoutcommit then f.(change := None, mtime := None, ctime := None, size := None) else f
  }

  /** nfs_refresh_inode_locked applies the reply in full, rather than only comparing. */
  predicate InFull(i: Inode, f: Fattr, e: Env, counter: nat) {
    AttrsNeedUpdate(i, HandleLayoutcommit(f, e), counter)
  }

  function RefreshLocked(i: Inode, f: Fattr, e: Env, l: Limits, counter: nat): (r: (Inode, nat, Status)) {
    var g := HandleLayoutcommit(f, e);
    if InFull(i, f, e, counter) then UpdateInode(i, g, e, l, counter)
    else var r := CheckInode(i, g, e); (r.0, counter, r.1)
  }

  function Refresh(i: Inode, f: Fattr, e: Env, l: Limits, counter: nat): (r: (Inode, nat, Status)) {
    if HasAttrs(f) then RefreshLocked(i, f, e, l, counter) else (i, counter, Ok)
  }

  /** An operation that changes the inode has been answered. */
  function Suspect(i: Inode): (r: Inode) {
    Invalidate(i, NONE.(attr := true, pagecache := true, data := Type(i).Dir?))
  }

  function PostOp(i: Inode, f: Fattr, e: Env, l: Limits, counter: nat): (r: (Inode, nat, Status)) {
    if HasAttrs(f) then RefreshLocked(Suspect(i), f, e, l, counter) else (Suspect(i), counter, Ok)
  }

  function Else(pre: Option<int>, post: Option<int>, cached: int): (r: Option<int>) {
    if post.Some? && pre.None? then Some(cached) else pre
  }

  /** The pre-operation attributes that nfs_post_op_update_inode_force_wcc makes up, or drops
      from a stale reply. */
  function Forced(i: Inode, f: Fattr, counter: nat): (r: Fattr) {
    if !HasAttrs(f) || !AttrsNeedUpdate(i, f, counter)
    then f.(preChange := None, preSize := None, preMtime := None, preCtime := None)
    else f.(preChange := Else(f.preChange, f.change, i.attrs.version),
            preCtime := Else(f.preCtime, f.ctime, i.attrs.ctime),
            preMtime := Else(f.preMtime, f.mtime, i.attrs.mtime), preSize := Else(f.preSize, f.size, i.attrs.size))
  }

  function ForceWcc(i: Inode, f: Fattr, e: Env, l: Limits, counter: nat): (r: (Inode, nat, Status)) {
    PostOp(i, Forced(i, f, counter), e, l, counter)
  }

  // ---------- own writes and foreign writes ----------

  /** Every attribute comes with a pre-operation attribute that matches the cache. */
  predicate AllOwn(i: Inode, f: Fattr) {
    && (f.change.Some? ==> Own(f.preChange, f.change, i.attrs.version))
    && (f.size.Some? ==> Own(f.preSize, f.size, i.attrs.size))
  }

  lemma OwnUpdateKeepsDataIff(i: Inode, f: Fattr, e: Env, l: Limits, counter: nat)
    requires Type(i).Reg? && AllOwn(i, f) && !Foreign(i, f)
    ensures var r := UpdateInode(i, f, e, l, counter).0;
      r.valid.data != i.valid.data <==>
        !i.valid.data && i.pages && Distrust(i, e) && i.requests > 0 && SizeNeedUpdate(i, f)
  {
  }

  lemma CheckKeepsData(i: Inode, f: Fattr, e: Env)
    ensures CheckInode(i, f, e).0.valid.data == i.valid.data
  {
  }

  lemma OwnRefreshKeepsDataIff(i: Inode, f: Fattr, e: Env, l: Limits, counter: nat)
    requires Type(i).Reg? && !Foreign(i, f) && (InFull(i, f, e, counter) ==> AllOwn(i, f))
    ensures var r := RefreshLocked(i, f, e, l, counter).0;
      r.valid.data != i.valid.data <==>
        !i.valid.data && i.pages && Distrust(i, e) && i.requests > 0 && !e.layoutcommit && SizeNeedUpdate(i, f)
  {
    var h := HandleLayoutcommit(f, e);
    if InFull(i, f, e, counter) {
      OwnUpdateKeepsDataIff(i, h, e, l, counter);
    } else {
      CheckKeepsData(i, h, e);
    }
  }

  lemma ForcedIsOwn(i: Inode, f: Fattr, counter: nat)
    requires NoPreOp(f)
    ensures var g := Forced(i, f, counter);
      && HasAttrs(g) == HasAttrs(f) && Foreign(i, g) == Foreign(i, f) && SizeNeedUpdate(i, g) == SizeNeedUpdate(i, f)
      && (HasAttrs(f) && AttrsNeedUpdate(i, f, counter) ==> AllOwn(i, g))
      && (forall e :: InFull(i, g, e, counter) ==> AttrsNeedUpdate(i, f, counter))
  {
  }

  /** A forced-WCC reply without pre-operation attributes, about a regular file: INVALID_DATA
      changes in one case only, when writes are still queued and the file turns out longer
      than the client thinks. */
  lemma OwnWritesKeepDataIff(i: Inode, f: Fattr, e: Env, l: Limits, counter: nat)
    requires Type(i).Reg? && NoPreOp(f) && !Foreign(i, f)
    ensures var r := ForceWcc(i, f, e, l, counter).0;
      r.valid.data != i.valid.data <==>
        !i.valid.data && i.pages && Distrust(i, e) && i.requests > 0 && !e.layoutcommit && SizeNeedUpdate(i, f)
  {
    ForcedIsOwn(i, f, counter);
    if HasAttrs(f) {
      OwnRefreshKeepsDataIff(Suspect(i), Forced(i, f, counter), e, l, counter);
    }
  }

  /** With no queued writes the client's own writes never throw its pages away. */
  lemma OwnWritesDoNotPoison(i: Inode, f: Fattr, e: Env, l: Limits, counter: nat)
    requires Type(i).Reg? && NoPreOp(f) && !Foreign(i, f) && i.requests == 0
    ensures ForceWcc(i, f, e, l, counter).0.valid.data == i.valid.data
  {
    OwnWritesKeepDataIff(i, f, e, l, counter);
  }

  /** The client's own write counts as a change of the attributes whenever its reply, if it is
      fresh, carries one of them; the size only with no further writes queued. */
  lemma OwnWritesAreDetected(i: Inode, f: Fattr, counter: nat)
    requires NoPreOp(f) && AttrsNeedUpdate(i, f, counter)
    ensures WccHit(Suspect(i), Forced(i, f, counter)) <==>
      HasAttrs(f) && (f.change.Some? || f.ctime.Some? || f.mtime.Some? || (f.size.Some? && i.requests == 0))
  {
  }

  /** A reply is applied in full exactly if its request began after the last detected change,
      or it has a later ctime or a larger size, as long as the counter has not wrapped. */
  lemma AppliedInFullIff(i: Inode, f: Fattr, e: Env, counter: nat)
    requires !e.layoutcommit && i.times.gencount <= counter
    ensures InFull(i, f, e, counter) <==>
      || f.gencount - i.times.gencount > 0
      || (f.ctime.Some? && f.ctime.value - i.attrs.ctime > 0)
      || (f.size.Some? && f.size.value - i.attrs.size > 0)
  {
  }

  /** When a reply is refused.  Applied in full: if its type differs, or both identifiers are
      there and neither matches.  Compared only: if its type or its fileid differs, unless a
      delegation makes the comparison needless.  A refused reply changes no attribute. */
  lemma RefusedIff(i: Inode, f: Fattr, e: Env, l: Limits, counter: nat)
    requires HasAttrs(f) && !e.layoutcommit
    ensures var r, full := Refresh(i, f, e, l, counter), InFull(i, f, e, counter);
      var otherType := f.typed && f.mode - f.mode % 0x1000 != i.attrs.mode - i.attrs.mode % 0x1000;
      var otherId := f.fileid.Some? && f.fileid.value != i.fileid;
      var otherMount := f.mountedOn.Some? && f.mountedOn.value != i.fileid;
      && (r.2 == ESTALE <==> full && (otherType || (otherId && otherMount)))
      && (r.2 == EIO <==> !full && !e.delegatedAttrs && (otherType || otherId))
      && (r.2 == ESTALE ==> r.0.attrs == i.attrs && r.0.stale && r.0.valid.attr)
      && (r.2 == EIO ==> r.0 == i)
  {
  }

  /** Cached lookups in a directory have to be checked again exactly when somebody else changed
      it. */
  lemma LookupsInDoubtIff(i: Inode, f: Fattr, e: Env, l: Limits, counter: nat)
    requires !Foreign(i, f) && InFull(i, f, e, counter) && !e.layoutcommit
    ensures RefreshLocked(i, f, e, l, counter).0.lookups ==
      i.lookups + (if Type(i) == Dir && f.change.Some? && f.change.value != i.attrs.version
                      && f.preChange != Some(i.attrs.version) then 1 else 0)
  {
  }

  /** A plain refresh, without pre-operation attributes, that brings another change attribute:
      the pages are invalidated exactly when it is applied in full to a file that can have
      pages and has them, and no delegation vouches for them. */
  lemma ForeignWriteIff(i: Inode, f: Fattr, e: Env, l: Limits, counter: nat)
    requires NoPreOp(f) && !Foreign(i, f) && Differs(f.change, i.attrs.version) && !i.valid.data && !e.layoutcommit
    ensures Refresh(i, f, e, l, counter).0.valid.data <==>
      InFull(i, f, e, counter) && i.pages && !Type(i).Other? && Distrust(i, e)
  {
  }

  /** A plain refresh, without pre-operation attributes, applied in full: the cached access
      rights and the ACL become invalid exactly when the change attribute, the permissions,
      the owner or the group differ and no delegation vouches for the cache. */
  lemma ForeignChmodIff(i: Inode, f: Fattr, e: Env, l: Limits, counter: nat)
    requires NoPreOp(f) && !Foreign(i, f) && !e.layoutcommit && InFull(i, f, e, counter) && HasAttrs(f)
    requires !i.valid.access && !i.valid.acl
    ensures var r := Refresh(i, f, e, l, counter).0;
      var differ :=
        || (f.change.Some? && f.change.value != i.attrs.version)
        || (f.moded && Perm(f.mode) != Perm(i.attrs.mode))
        || (f.uid.Some? && f.uid.value != i.attrs.uid)
        || (f.gid.Some? && f.gid.value != i.attrs.gid);
      && (r.valid.access <==> differ && (!e.delegation || i.valid.forced))
      && (r.valid.acl <==> differ && (!e.delegation || i.valid.forced))
  {
  }

  /** How long the attributes are trusted after a reply applied in full: the minimum when it
      brought a change; as long as before while that time had not run out; and twice as long,
      up to the maximum, once it had. */
  lemma TimeoutMeaning(i: Inode, f: Fattr, e: Env, l: Limits, counter: nat)
    requires !Foreign(i, f) && !e.layoutcommit && InFull(i, f, e, counter) && HasAttrs(f)
    ensures var r := Refresh(i, f, e, l, counter);
      var lo, hi := Min(l, Type(i)), Max(l, Type(i));
      var ranOut := e.now < i.times.since || i.times.since + i.times.timeo <= e.now;
      && (Detected(i, f) <==> r.1 == counter + 1)
      && (Detected(i, f) ==> r.0.times.timeo == lo && r.0.times.since == e.now && r.0.times.gencount == counter + 1)
      && (!Detected(i, f) && !ranOut ==> r.0.times.timeo == i.times.timeo && r.0.times.since == i.times.since)
      && (!Detected(i, f) && ranOut ==>
            && r.0.times.since == e.now && r.0.times.timeo <= hi
            && (r.0.times.timeo == hi || r.0.times.timeo == i.times.timeo + i.times.timeo))
      && r.0.times.read == f.started
  {
  }

  /** A reply that is not applied in full changes no attribute and no page state; it may only
      raise doubts, and it raises INVALID_ATTR whenever its change attribute differs. */
  lemma StaleReplyOnlyDoubts(i: Inode, f: Fattr, e: Env, l: Limits, counter: nat)
    requires !InFull(i, f, e, counter)
    ensures var r := Refresh(i, f, e, l, counter);
      && r.0.attrs == i.attrs && r.0.valid.data == i.valid.data
      && r.1 == counter && r.0.times.gencount == i.times.gencount
      && Or(r.0.valid, i.valid) == r.0.valid
      && (r.2.Ok? && !e.delegatedAttrs && !e.layoutcommit && Differs(f.change, i.attrs.version) ==> r.0.valid.attr)
  {
  }

  /** Attribute by attribute: a reply applied in full replaces what it carries and leaves the
      rest; the size only if no writes are queued or it has grown, the mode in its permissions. */
  lemma ReplyIsTaken(i: Inode, f: Fattr, e: Env, l: Limits, counter: nat)
    requires !Foreign(i, f) && InFull(i, f, e, counter) && !e.layoutcommit
    ensures var a, b := i.attrs, RefreshLocked(i, f, e, l, counter).0.attrs;
      && (if f.change.Some? then b.version == f.change.value else b.version == a.version)
      && (if f.mtime.Some? then b.mtime == f.mtime.value else b.mtime == a.mtime)
      && (if f.ctime.Some? then b.ctime == f.ctime.value else b.ctime == a.ctime)
      && (if f.atime.Some? then b.atime == f.atime.value else b.atime == a.atime)
      && (if f.uid.Some? then b.uid == f.uid.value else b.uid == a.uid)
      && (if f.gid.Some? then b.gid == f.gid.value else b.gid == a.gid)
      && (if f.nlink.Some? then b.nlink == f.nlink.value else b.nlink == a.nlink)
      && b.size == (if f.size.Some? && (i.requests == 0 || f.size.value > a.size) then f.size.value else a.size)
      && TypeBits(b.mode) == TypeBits(a.mode) && Perm(b.mode) == (if f.moded then Perm(f.mode) else Perm(a.mode))
  {
    TakePermExact(i.attrs.mode, f.mode);
  }

  /** What a reply applied in full leaves to be revalidated: the attributes, the access time
      and a forced revalidation only if it misses something that the server could have sent;
      the pages if it misses the size or the change attribute, or if somebody else changed
      the file and the size does not already tell. */
  lemma StillToRevalidateIff(i: Inode, f: Fattr, e: Env, l: Limits, counter: nat)
    requires !Foreign(i, f) && InFull(i, f, e, counter) && !e.layoutcommit
    ensures var v, c := RefreshLocked(i, f, e, l, counter).0.valid, e.caps;
      var noChange, noAtime := f.change.None? && c.change, f.atime.None? && c.atime;
      var misses := noChange || (f.mtime.None? && c.mtime) || (f.ctime.None? && c.ctime) || f.size.None?
        || (!f.moded && c.mode) || (f.uid.None? && c.owner) || (f.gid.None? && c.group) || (f.nlink.None? && c.nlink);
      && (v.attr <==> i.valid.attr && misses)
      && (v.atime <==> i.valid.atime && (noChange || noAtime))
      && (v.forced <==> i.valid.forced && (misses || noAtime))
      && (v.pagecache <==>
            || (i.valid.pagecache && (noChange || f.size.None?))
            || ((!e.delegation || i.valid.forced) && ChangeSeen(i, f) && !SizeSeen(i, f)))
  {
  }

  /** A reply that is only compared: which doubts it raises. */
  lemma ComparedIff(i: Inode, f: Fattr, e: Env, l: Limits, counter: nat)
    requires !InFull(i, f, e, counter) && HasAttrs(f) && !e.layoutcommit && !e.delegatedAttrs
    requires !Differs(f.fileid, i.fileid) && !OtherType(i, f)
    ensures var r, a := Refresh(i, f, e, l, counter).0, i.attrs;
      var owner := (f.moded && Perm(f.mode) != Perm(a.mode)) || Differs(f.uid, a.uid) || Differs(f.gid, a.gid);
      var content := Differs(f.change, a.version) || (Differs(f.size, a.size) && i.requests == 0);
      && (r.valid.attr <==> i.valid.attr || content || owner || Differs(f.mtime, a.mtime) || Differs(f.nlink, a.nlink))
      && (r.valid.pagecache <==> i.valid.pagecache || content)
      && (r.valid.access <==> i.valid.access || owner) && (r.valid.acl <==> i.valid.acl || owner)
      && (r.valid.atime <==> i.valid.atime || Differs(f.atime, a.atime))
      && r.times == i.times.(read := f.started)
  {
  }

  /** After an operation that changes the inode, and after a zap, everything cached is in doubt;
      pages only where there are some, of a directory after an operation and of any file that
      can have them after a zap. */
  lemma DoubtsAfterChange(i: Inode, l: Limits, now: int)
    ensures var s, z := Suspect(i), Zapped(i, l, now);
      && s.valid.attr && s.valid.pagecache && (s.valid.data <==> i.valid.data || (i.pages && Type(i).Dir?))
      && s.attrs == i.attrs && s.times == i.times && s.valid.access == i.valid.access && s.valid.acl == i.valid.acl
      && z.valid.attr && z.valid.access && z.valid.acl && z.valid.pagecache
      && (z.valid.data <==> i.valid.data || (i.pages && !Type(i).Other?))
      && z.attrs == i.attrs && z.times == i.times.(timeo := Min(l, Type(i)), since := now)
  {
  }

  /** The reply applied in full and then once more: the second time it reports a change iff one
      of its pre-operation attributes equals the attribute after the operation. */
  lemma SecondTimeQuietIff(i: Inode, f: Fattr, e: Env, l: Limits, counter: nat)
    ensures var r := Updated(i, f, e, l, counter);
      Detected(r, f) <==>
        || (f.change.Some? && f.preChange == f.change)
        || (f.ctime.Some? && f.preCtime == f.ctime)
        || (f.mtime.Some? && f.preMtime == f.mtime)
        || (f.size.Some? && f.preSize == f.size && i.requests == 0)
  {
  }

  /** A reply with every attribute, applied in full, leaves nothing to revalidate: the cache
      holds the reply's values, except a size that queued writes are still to move. */
  lemma CompleteReplyIsCurrent(i: Inode, f: Fattr, e: Env, l: Limits, counter: nat)
    requires !Foreign(i, f) && !Incomplete(f, e.caps) && !NoAtime(f, e.caps)
    requires InFull(i, f, e, counter) && !e.layoutcommit
    ensures var r := RefreshLocked(i, f, e, l, counter).0;
      && !r.valid.attr && !r.valid.atime && !r.valid.forced
      && (r.attrs.size == f.size.value || (i.requests > 0 && f.size.value < r.attrs.size == i.attrs.size))
      && !Differs(f.change, r.attrs.version) && !Differs(f.mtime, r.attrs.mtime) && !Differs(f.ctime, r.attrs.ctime)
      && !ModeSeen(r, f) && !LinksSeen(r, f)
  {
  }

  /** A reply about another file, applied in full: its attributes are taken over iff it
      misses, or matches, the mounted-on identifier; else the inode goes stale, keeps its
      attributes and must revalidate. */
  lemma OtherFileAppliedIff(i: Inode, f: Fattr, e: Env, l: Limits, counter: nat)
    requires Differs(f.fileid, i.fileid) && !OtherType(i, f) && InFull(i, f, e, counter)
    ensures var r := Refresh(i, f, e, l, counter);
      && (r.2.Ok? <==> f.mountedOn.None? || f.mountedOn.value == i.fileid)
      && (r.2.Ok? ==> r.0.attrs == NewAttrs(i, HandleLayoutcommit(f, e)))
      && (!r.2.Ok? ==> r.2.ESTALE? && r.0.stale && r.0.attrs == i.attrs && r.0.valid.attr && r.1 == counter)
  {
  }
}
