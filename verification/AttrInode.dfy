/** The functions of fs/nfs/inode.c that update an inode in place from a reply, each proved
    against AttrCache's field-by-field description of the result. */
module AttrInode {
  import opened Common
  import opened AttrCache

  /** nfs_attr_generation_counter */
  class Generation {
    var counter: nat

    constructor ()
      ensures counter == 0
    {
      counter := 0;
    }

    /** nfs_inc_attr_generation_counter */
    method Inc() returns (n: nat)
      modifies this
      ensures n == counter == old(counter) + 1
    {
      counter := counter + 1;
      n := counter;
    }
  }

  const ALL := Flags(true, true, true, true, true, true, true)

  /** nfs_wcc_update_inode: what is known as the client's own change is taken over first. */
  function WccUpdated(i: Inode, f: Fattr): (r: Inode) {
    var a := i.attrs;
    i.(attrs := a.(
         version := if Own(f.preChange, f.change, a.version) then f.change.value else a.version,
         ctime := if Own(f.preCtime, f.ctime, a.ctime) then f.ctime.value else a.ctime,
         mtime := if Own(f.preMtime, f.mtime, a.mtime) then f.mtime.value else a.mtime,
         size := if OwnSize(i, f) then f.size.value else a.size),
       valid := i.valid.(data := i.valid.data || (Type(i).Dir? && i.pages &&
         (Own(f.preChange, f.change, a.version) || Own(f.preMtime, f.mtime, a.mtime)))))
  }

  /** The tests of nfs_wcc_update_inode; data says that a directory has changed. */
  method TakeOwn(a: Attrs, requests: nat, f: Fattr) returns (b: Attrs, data: bool, hit: bool)
    ensures data == (Own(f.preChange, f.change, a.version) || Own(f.preMtime, f.mtime, a.mtime))
    ensures hit == (data || Own(f.preCtime, f.ctime, a.ctime) || (Own(f.preSize, f.size, a.size) && requests == 0))
    ensures b == a.(
      version := if Own(f.preChange, f.change, a.version) then f.change.value else a.version,
      ctime := if Own(f.preCtime, f.ctime, a.ctime) then f.ctime.value else a.ctime,
      mtime := if Own(f.preMtime, f.mtime, a.mtime) then f.mtime.value else a.mtime,
      size := if Own(f.preSize, f.size, a.size) && requests == 0 then f.size.value else a.size)
  {
    hit, data := false, false;
    var v, c, m, s := a.version, a.ctime, a.mtime, a.size;
    if f.preChange.Some? && f.change.Some? && v == f.preChange.value {
      v, data, hit := f.change.value, true, true;
    }
    if f.preCtime.Some? && f.ctime.Some? && c == f.preCtime.value {
      c, hit := f.ctime.value, true;
    }
    if f.preMtime.Some? && f.mtime.Some? && m == f.preMtime.value {
      m, data, hit := f.mtime.value, true, true;
    }
    if f.preSize.Some? && f.size.Some? && s == f.preSize.value && requests == 0 {
      s, hit := f.size.value, true;
    }
    b := a.(version := v, ctime := c, mtime := m, size := s);
  }

  /** The saved validity bits that the attributes missing from a reply bring back. */
  function LostData(f: Fattr, caps: Caps): (m: Flags) {
    var some := (f.mtime.None? && caps.mtime) || (f.ctime.None? && caps.ctime) || f.size.None?;
    if NoChange(f, caps) then ALL
    else Flags(some, NoAtime(f, caps), false, false, false, f.size.None?, some || NoAtime(f, caps))
  }

  function LostOwner(f: Fattr, caps: Caps): (m: Flags) {
    var some := (!f.moded && caps.mode) || (f.uid.None? && caps.owner) || (f.gid.None? && caps.group);
    var any := some || (f.nlink.None? && caps.nlink);
    Flags(any, false, false, some, some, false, any)
  }

  /** The part of nfs_update_inode that copies the change attribute, the times and the size. */
  method CopyData(a: Attrs, requests: nat, f: Fattr, caps: Caps)
    returns (b: Attrs, changed: bool, resized: bool, lost: Flags)
    ensures changed == Differs(f.change, a.version)
    ensures resized == (Differs(f.size, a.size) && (requests == 0 || f.size.value > a.size))
    ensures b == a.(version := Get(f.change, a.version), mtime := Get(f.mtime, a.mtime), ctime := Get(f.ctime, a.ctime),
                    atime := Get(f.atime, a.atime), size := if resized then f.size.value else a.size)
    ensures lost == LostData(f, caps)
  {
    changed, resized, lost := false, false, NONE;
    var v, m, c, s, at := a.version, a.mtime, a.ctime, a.size, a.atime;
    if f.change.Some? {
      if v != f.change.value {
        changed := true;
        v := f.change.value;
      }
    } else if caps.change {
      lost := ALL;
    }
    if f.mtime.Some? {
      m := f.mtime.value;
    } else if caps.mtime {
      lost := lost.(attr := true, forced := true);
    }
    if f.ctime.Some? {
      c := f.ctime.value;
    } else if caps.ctime {
      lost := lost.(attr := true, forced := true);
    }
    if f.size.Some? {
      if f.size.value != s && (requests == 0 || f.size.value > s) {
        s := f.size.value;
        resized := true;
      }
    } else {
      lost := lost.(attr := true, pagecache := true, forced := true);
    }
    if f.atime.Some? {
      at := f.atime.value;
    } else if caps.atime {
      lost := lost.(atime := true, forced := true);
    }
    b := a.(version := v, mtime := m, ctime := c, atime := at, size := s);
  }

  /** The part that copies mode, owner, group and link count. */
  method CopyOwner(a: Attrs, f: Fattr, caps: Caps) returns (b: Attrs, owner: bool, links: bool, lost: Flags)
    ensures owner == (PermDiffers(f, a.mode) || Differs(f.uid, a.uid) || Differs(f.gid, a.gid))
    ensures links == Differs(f.nlink, a.nlink)
    ensures b == a.(mode := NewMode(a.mode, f), uid := Get(f.uid, a.uid), gid := Get(f.gid, a.gid),
                    nlink := Get(f.nlink, a.nlink))
    ensures lost == LostOwner(f, caps)
  {
    owner, links, lost := false, false, NONE;
    var m, u, g, n := a.mode, a.uid, a.gid, a.nlink;
    TakePermExact(a.mode, f.mode);
    if f.moded {
      if Perm(m) != Perm(f.mode) {
        var newmode := TypeBits(m);
        newmode := Joined(newmode, Perm(f.mode));
        m := newmode;
        owner := true;
      }
    } else if caps.mode {
      lost := lost.(attr := true, access := true, acl := true, forced := true);
    }
    if f.uid.Some? {
      if u != f.uid.value {
        u := f.uid.value;
        owner := true;
      }
    } else if caps.owner {
      lost := lost.(attr := true, access := true, acl := true, forced := true);
    }
    if f.gid.Some? {
      if g != f.gid.value {
        g := f.gid.value;
        owner := true;
      }
    } else if caps.group {
      lost := lost.(attr := true, access := true, acl := true, forced := true);
    }
    if f.nlink.Some? {
      if n != f.nlink.value {
        n := f.nlink.value;
        links := true;
      }
    } else if caps.nlink {
      lost := lost.(attr := true, forced := true);
    }
    b := a.(mode := m, uid := u, gid := g, nlink := n);
  }

  /** Each attribute that differs from the cached one casts its doubts. */
  method CompareAttributes(i: Inode, f: Fattr) returns (invalid: Flags)
    ensures invalid == Doubts(i, f)
  {
    var attr, access, reval, at := false, false, false, false;
    var a := i.attrs;
    if f.change.Some? && a.version != f.change.value { attr, reval := true, true; }
    if f.mtime.Some? && a.mtime != f.mtime.value { attr := true; }
    if f.size.Some? && a.size != f.size.value && i.requests == 0 { attr, reval := true, true; }
    if f.moded && Perm(a.mode) != Perm(f.mode) { attr, access := true, true; }
    if f.uid.Some? && a.uid != f.uid.value { attr, access := true, true; }
    if f.gid.Some? && a.gid != f.gid.value { attr, access := true, true; }
    if f.nlink.Some? && a.nlink != f.nlink.value { attr := true; }
    if f.atime.Some? && a.atime != f.atime.value { at := true; }
    invalid := Flags(attr, at, false, access, access, reval, false);
  }

  /** The bits that a full update raises at its end, from what its parts found. */
  function Raised(kind: Kind, changed: bool, resized: bool, owner: bool, links: bool): (v: Flags) {
    Flags(false, false, !kind.Other? && (changed || resized || (kind.Dir? && links)),
          changed || owner, changed || owner, changed && !resized, false)
  }

  lemma LostIsIncomplete(f: Fattr, caps: Caps)
    ensures var m := Or(LostData(f, caps), LostOwner(f, caps));
      && m.attr == Incomplete(f, caps) && m.forced == (Incomplete(f, caps) || NoAtime(f, caps))
      && m.atime == (NoChange(f, caps) || NoAtime(f, caps)) && m.pagecache == (NoChange(f, caps) || f.size.None?)
  {
  }

  function Found(i: Inode, f: Fattr): (v: Flags) {
    Raised(Type(i), ChangeSeen(i, f), SizeSeen(i, f), ModeSeen(i, f), LinksSeen(i, f))
  }

  /** The bits a full update ends with, from those it saved, those after its first step, those
      the missing attributes bring back and those it raises. */
  function Merge(save: Flags, wcc: Flags, lost: Flags, raised: Flags): (v: Flags) {
    Or(Or(wcc, And(save, lost)), raised)
  }

  /** The bits after the clearing and nfs_wcc_update_inode. */
  function AfterWcc(i: Inode, f: Fattr): (v: Flags) {
    var own := Own(f.preChange, f.change, i.attrs.version) || Own(f.preMtime, f.mtime, i.attrs.mtime);
    Flags(false, false, i.valid.data || (Type(i).Dir? && i.pages && own), i.valid.access, i.valid.acl, false, false)
  }

  /** The bits that a full update clears first. */
  function Cleared(v: Flags): (r: Flags) { v.(attr := false, atime := false, forced := false, pagecache := false) }

  lemma WccOnCleared(i: Inode, f: Fattr)
    ensures var w := WccUpdated(i.(valid := Cleared(i.valid)), f);
      && w == i.(attrs := WccUpdated(i, f).attrs, valid := AfterWcc(i, f))
      && WccHit(i.(valid := Cleared(i.valid)), f) == WccHit(i, f)
  {
  }

  function Lost(f: Fattr, caps: Caps): (v: Flags) { Or(LostData(f, caps), LostOwner(f, caps)) }

  lemma StepsCopy(i: Inode, f: Fattr, a: Attrs, b: Attrs)
    requires var w := WccUpdated(i, f).attrs;
      && a == w.(version := Get(f.change, w.version), mtime := Get(f.mtime, w.mtime), ctime := Get(f.ctime, w.ctime),
                 atime := Get(f.atime, w.atime), size := if SizeSeen(i, f) then f.size.value else w.size)
      && b == a.(mode := NewMode(a.mode, f), uid := Get(f.uid, a.uid), gid := Get(f.gid, a.gid),
                 nlink := Get(f.nlink, a.nlink))
    ensures b == NewAttrs(i, f)
  {
    var w := WccUpdated(i, f).attrs;
    assert b.size == NewAttrs(i, f).size;
  }

  lemma MergeData(i: Inode, f: Fattr, e: Env, lost: Flags)
    ensures var own := Own(f.preChange, f.change, i.attrs.version) || Own(f.preMtime, f.mtime, i.attrs.mtime);
      NewFlags(i, f, e).data ==
        (|| i.valid.data || (Type(i).Dir? && i.pages && own) || (i.valid.data && lost.data)
         || (Distrust(i, e) && Found(i, f).data && i.pages))
  {
  }

  lemma MergeRest(i: Inode, f: Fattr, e: Env)
    ensures var n := NewFlags(i, f, e); var m := Or(LostData(f, e.caps), LostOwner(f, e.caps)); var r := Found(i, f);
      && n.attr == (i.valid.attr && m.attr) && n.atime == (i.valid.atime && m.atime)
      && n.forced == (i.valid.forced && m.forced)
      && n.pagecache == ((i.valid.pagecache && m.pagecache) || (Distrust(i, e) && r.pagecache))
      && n.access == (i.valid.access || (Distrust(i, e) && r.access))
      && n.acl == (i.valid.acl || (Distrust(i, e) && r.acl))
      && !r.attr && !r.atime && !r.forced
  {
    LostIsIncomplete(f, e.caps);
  }

  /** The update in its steps gives the bits that AttrCache describes as a whole. */
  lemma StepsGiveFlags(i: Inode, f: Fattr, e: Env, r: Flags)
    requires r == if Distrust(i, e) then Found(i, f).(data := Found(i, f).data && i.pages) else NONE
    ensures NewFlags(i, f, e) == Merge(i.valid, AfterWcc(i, f), Lost(f, e.caps), r)
  {
    MergeData(i, f, e, Lost(f, e.caps));
    MergeRest(i, f, e);
  }

  /** The masks keep the type of the file. */
  lemma TypeStays(i: Inode, f: Fattr)
    ensures KindOf(NewAttrs(i, f).mode) == Type(i)
  {
    TakePermExact(i.attrs.mode, f.mode);
  }

  /** After the client's own change is taken over, the comparison sees just the others'. */
  lemma StepsSee(i: Inode, f: Fattr)
    ensures var w := WccUpdated(i, f);
      && Differs(f.change, w.attrs.version) == ChangeSeen(i, f)
      && (Differs(f.size, w.attrs.size) && (i.requests == 0 || f.size.value > w.attrs.size)) == SizeSeen(i, f)
  {
  }

  /** Both copying parts, after the client's own change has turned i's attributes into w. */
  method CopyAll(ghost i: Inode, w: Attrs, requests: nat, f: Fattr, caps: Caps)
    returns (b: Attrs, changed: bool, some: bool, raised: Flags, lost: Flags)
    requires w == WccUpdated(i, f).attrs && requests == i.requests
    ensures b == NewAttrs(i, f) && lost == Lost(f, caps) && raised == Found(i, f) && changed == ChangeSeen(i, f)
    ensures some == (ChangeSeen(i, f) || SizeSeen(i, f) || ModeSeen(i, f) || LinksSeen(i, f))
  {
    StepsSee(i, f);
    var a, resized, lost1 := w, false, NONE;
    a, changed, resized, lost1 := CopyData(w, requests, f, caps);
    var owner, links, lost2;
    b, owner, links, lost2 := CopyOwner(a, f, caps);
    StepsCopy(i, f, a, b);
    lost := Or(lost1, lost2);
    raised := Raised(KindOf(b.mode), changed, resized, owner, links);
    some := changed || resized || owner || links;
  }

  class NfsInode {
    const fileid: int
    const limits: Limits
    var attrs: Attrs
    var requests: nat
    var pages: bool
    var valid: Flags
    var stale: bool
    var times: Times
    var lookups: nat

    function View(): (i: Inode)
      reads this
    {
      Inode(fileid, attrs, requests, pages, valid, stale, times, lookups)
    }

    /** nfs_fhget on a new inode, with the attributes it got */
    constructor (fileid: int, limits: Limits, attrs: Attrs, valid: Flags, f: Fattr, now: int)
      ensures this.fileid == fileid && this.limits == limits
      ensures View() == Inode(fileid, attrs, 0, false, valid, false,
                              Times(Min(limits, KindOf(attrs.mode)), now, f.started, f.gencount), 0)
    {
      this.fileid, this.limits, this.attrs := fileid, limits, attrs;
      requests, pages, this.valid, stale, lookups := 0, false, valid, false, 0;
      times := Times(Min(limits, KindOf(attrs.mode)), now, f.started, f.gencount);
    }

    /** nfs_set_cache_invalid */
    method SetCacheInvalid(flags: Flags)
      modifies this
      ensures View() == Invalidate(old(View()), flags)
    {
      var v := flags;
      if !pages { v := v.(data := false); }
      valid := Or(valid, v);
    }

    /** nfs_zap_caches_locked */
    method ZapCachesLocked(now: int)
      modifies this
      ensures View() == Zapped(old(View()), limits, now)
    {
      times := times.(timeo := Min(limits, KindOf(attrs.mode)), since := now);
      if KindOf(attrs.mode).Reg? || KindOf(attrs.mode).Dir? || KindOf(attrs.mode).Lnk? {
        SetCacheInvalid(Flags(true, false, true, true, true, true, false));
      } else {
        SetCacheInvalid(Flags(true, false, false, true, true, true, false));
      }
    }

    /** nfs_wcc_update_inode */
    method WccUpdateInode(f: Fattr) returns (hit: bool)
      modifies this
      ensures hit == WccHit(old(View()), f)
      ensures View() == WccUpdated(old(View()), f)
    {
      var b, data;
      b, data, hit := TakeOwn(attrs, requests, f);
      if data { SetCacheInvalid(NONE.(data := KindOf(attrs.mode).Dir?)); }
      attrs := b;
    }

    /** attrtimeo and attr_gencount */
    method AdjustTimes(changed: bool, now: int, g: Generation)
      modifies this`times, g
      ensures times == Ticked(old(times), changed, now, limits, KindOf(attrs.mode), old(g.counter))
      ensures g.counter == old(g.counter) + if changed then 1 else 0
    {
      var k := KindOf(attrs.mode);
      if changed {
        var n := g.Inc();
        times := Times(Min(limits, k), now, times.read, n);
      } else if !(times.since <= now < times.since + times.timeo) {
        var timeo := 2 * times.timeo;
        if timeo > Max(limits, k) { timeo := Max(limits, k); }
        times := times.(timeo := timeo, since := now);
      }
    }

    /** The first half of nfs_update_inode: attributes are copied, and the bits of those that
        are missing come back. */
    method TakeAttributes(f: Fattr, caps: Caps) returns (detected: bool, raised: Flags)
      modifies this
      ensures View() == old(View()).(attrs := NewAttrs(old(View()), f),
        valid := Or(AfterWcc(old(View()), f), And(old(valid), Lost(f, caps))),
        lookups := if KindOf(attrs.mode).Dir? && ChangeSeen(old(View()), f) then old(lookups) + 1 else old(lookups))
      ensures detected == Detected(old(View()), f) && raised == Found(old(View()), f)
    {
      ghost var i := View();
      WccOnCleared(i, f);
      var save := valid;
      valid := Cleared(valid);
      var hit := WccUpdateInode(f);
      var b, changed, some, found, lost := CopyAll(i, attrs, requests, f, caps);
      attrs := b;
      valid := Or(valid, And(save, lost));
      lookups := lookups + if changed && KindOf(attrs.mode).Dir? then 1 else 0;
      detected, raised := hit || some, found;
    }

    /** The second half: timeout and generation number, then the bits of what was found,
        unless a delegation vouches for the cache. */
    method Conclude(started: int, detected: bool, raised: Flags, distrust: bool, now: int, g: Generation)
      modifies this`times, this`valid, g
      ensures times == Ticked(old(times).(read := started), detected, now, limits, KindOf(attrs.mode), old(g.counter))
      ensures valid == if distrust then Or(old(valid), raised.(data := raised.data && pages)) else old(valid)
      ensures g.counter == old(g.counter) + if detected then 1 else 0
    {
      times := times.(read := started);
      AdjustTimes(detected, now, g);
      if distrust { valid := Or(valid, raised.(data := raised.data && pages)); }
    }

    /** nfs_update_inode once the reply is known to be about this file */
    method ApplyReply(f: Fattr, e: Env, g: Generation)
      modifies this, g
      ensures View() == Updated(old(View()), f, e, limits, old(g.counter))
      ensures g.counter == old(g.counter) + if Detected(old(View()), f) then 1 else 0
    {
      ghost var i := View();
      var save := valid;
      var detected, raised := TakeAttributes(f, e.caps);
      var distrust := !e.delegation || save.forced;
      Conclude(f.started, detected, raised, distrust, e.now, g);
      TypeStays(i, f);
      StepsGiveFlags(i, f, e, if distrust then raised.(data := raised.data && i.pages) else NONE);
    }

    /** nfs_update_inode */
    method UpdateInode(f: Fattr, e: Env, g: Generation) returns (status: Status)
      modifies this, g
      ensures (View(), g.counter, status) == AttrCache.UpdateInode(old(View()), f, e, limits, old(g.counter))
    {
      if !FileidValid(View(), f) || (f.typed && TypeBits(attrs.mode) != TypeBits(f.mode)) {
        stale := true;
        ZapCachesLocked(e.now);
        return ESTALE;
      }
      ApplyReply(f, e, g);
      return Ok;
    }

    /** nfs_check_inode_attributes */
    method CheckInodeAttributes(f: Fattr, e: Env) returns (status: Status)
      modifies this
      ensures (View(), status) == CheckInode(old(View()), f, e)
    {
      if e.delegatedAttrs { return Ok; }
      if f.fileid.Some? && fileid != f.fileid.value { return EIO; }
      if f.typed && TypeBits(attrs.mode) != TypeBits(f.mode) { return EIO; }
      var invalid := CompareAttributes(View(), f);
      SetCacheInvalid(invalid);
      times := times.(read := f.started);
      return Ok;
    }

    method RefreshInodeLocked(f: Fattr, e: Env, g: Generation) returns (status: Status)
      modifies this, g
      ensures (View(), g.counter, status) == RefreshLocked(old(View()), f, e, limits, old(g.counter))
    {
      var h := HandleLayoutcommit(f, e);
      if AttrsNeedUpdate(View(), h, g.counter) {
        status := UpdateInode(h, e, g);
      } else {
        status := CheckInodeAttributes(h, e);
      }
    }

    method RefreshInode(f: Fattr, e: Env, g: Generation) returns (status: Status)
      modifies this, g
      ensures (View(), g.counter, status) == Refresh(old(View()), f, e, limits, old(g.counter))
    {
      if !HasAttrs(f) { return Ok; }
      status := RefreshInodeLocked(f, e, g);
    }

    /** nfs_post_op_update_inode */
    method PostOpUpdateInode(f: Fattr, e: Env, g: Generation) returns (status: Status)
      modifies this, g
      ensures (View(), g.counter, status) == PostOp(old(View()), f, e, limits, old(g.counter))
    {
      var invalid := NONE.(attr := true, pagecache := true);
      if KindOf(attrs.mode).Dir? { invalid := invalid.(data := true); }
      SetCacheInvalid(invalid);
      if !HasAttrs(f) { return Ok; }
      status := RefreshInodeLocked(f, e, g);
    }

    /** nfs_post_op_update_inode_force_wcc */
    method PostOpUpdateInodeForceWcc(f0: Fattr, e: Env, g: Generation) returns (status: Status)
      modifies this, g
      ensures (View(), g.counter, status) == ForceWcc(old(View()), f0, e, limits, old(g.counter))
    {
      var f := f0;
      if !HasAttrs(f) || !AttrsNeedUpdate(View(), f, g.counter) {
        f := f.(preChange := None, preSize := None, preMtime := None, preCtime := None);
      } else {
        if f.change.Some? && f.preChange.None? { f := f.(preChange := Some(attrs.version)); }
        if f.ctime.Some? && f.preCtime.None? { f := f.(preCtime := Some(attrs.ctime)); }
        if f.mtime.Some? && f.preMtime.None? { f := f.(preMtime := Some(attrs.mtime)); }
        if f.size.Some? && f.preSize.None? { f := f.(preSize := Some(attrs.size)); }
      }
      assert f == Forced(View(), f0, g.counter);
      status := PostOpUpdateInode(f, e, g);
    }
  }
}
