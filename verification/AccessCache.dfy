/** The access cache of one inode: a search tree and an LRU list of the same entries. */
module AccessCache {
  import opened Common
  import opened AccessTree

  /** invalid is NFS_INO_INVALID_ACCESS; onLru is NFS_INO_ACL_LRU_SET. */
  datatype Cache = Cache(tree: Tree, lru: seq<Entry>, onLru: bool, invalid: bool)

  ghost predicate OnePerCred(lru: seq<Entry>) {
    forall i, j :: 0 <= i < j < |lru| ==> lru[i].cred != lru[j].cred
  }

  /** Tree and list hold the same entries, one per credential. */
  ghost predicate Ok(c: Cache) {
    && Ordered(c.tree) && OnePerCred(c.lru)
    && (forall i :: 0 <= i < |c.lru| ==> Lookup(c.tree, c.lru[i].cred) == Some(c.lru[i]))
    && (forall k :: Lookup(c.tree, k).Some? ==> Lookup(c.tree, k).value in c.lru)
  }

  /** list_del of the entry for a credential */
  function Unlink(lru: seq<Entry>, k: Cred): (r: seq<Entry>) {
    if lru == [] then [] else if lru[0].cred == k then lru[1..] else [lru[0]] + Unlink(lru[1..], k)
  }

  lemma {:induction false} UnlinkExact(lru: seq<Entry>, k: Cred)
    requires OnePerCred(lru)
    ensures OnePerCred(Unlink(lru, k))
    ensures forall e :: e in Unlink(lru, k) <==> e in lru && e.cred != k
    ensures |Unlink(lru, k)| == |lru| - if exists e :: e in lru && e.cred == k then 1 else 0
  {
    if lru != [] {
      assert lru == [lru[0]] + lru[1..];
      assert OnePerCred(lru[1..]) by {
        forall i, j | 0 <= i < j < |lru[1..]| ensures lru[1..][i].cred != lru[1..][j].cred {
          assert lru[1..][i] == lru[i + 1] && lru[1..][j] == lru[j + 1];
        }
      }
      assert forall e :: e in lru[1..] ==> e.cred != lru[0].cred;
      UnlinkExact(lru[1..], k);
      if lru[0].cred != k {
        var r, rest := Unlink(lru, k), Unlink(lru[1..], k);
        forall i, j | 0 <= i < j < |r| ensures r[i].cred != r[j].cred {
          if i == 0 { assert r[j] in rest; }
        }
      }
    }
  }

  // ---------- operations ----------

  /** nfs_access_add_rbtree */
  function AddEntry(c: Cache, e: Entry): (r: Cache) {
    c.(tree := Insert(c.tree, e), lru := Unlink(c.lru, e.cred) + [e])
  }

  /** The stale branch of nfs_access_get_cached, and the shrinker's removal. */
  function DropEntry(c: Cache, k: Cred): (r: Cache) {
    c.(tree := Erase(c.tree, k), lru := Unlink(c.lru, k))
  }

  /** The list_move_tail of a hit. */
  function Touch(c: Cache, e: Entry): (r: Cache) {
    c.(lru := Unlink(c.lru, e.cred) + [e])
  }

  /** __nfs_access_zap_cache */
  function ZapEntries(c: Cache): (r: Cache) {
    c.(tree := Leaf, lru := [], invalid := false)
  }

  predicate Fresh(e: Entry, now: nat, attrtimeo: nat, delegated: bool) {
    delegated || e.jiffies <= now < e.jiffies + attrtimeo
  }

  /** What the locked lookup answers. */
  function LockedLookup(c: Cache, k: Cred, now: nat, attrtimeo: nat, delegated: bool): (r: Option<Entry>) {
    if c.invalid then None
    else match Lookup(c.tree, k)
      case None => None
      case Some(e) => if Fresh(e, now, attrtimeo, delegated) then Some(e) else None
  }

  /** The locked lookup answers e exactly when the cache is valid, e is the entry of the
      credential, and it has not outlived the attribute timeout or a delegation vouches. */
  lemma LockedLookupIff(c: Cache, k: Cred, now: nat, attrtimeo: nat, delegated: bool, e: Entry)
    ensures LockedLookup(c, k, now, attrtimeo, delegated) == Some(e) <==>
      !c.invalid && Lookup(c.tree, k) == Some(e) && (delegated || (e.jiffies <= now && now - e.jiffies < attrtimeo))
  {
  }

  // ---------- what they keep ----------

  lemma AddKeeps(c: Cache, e: Entry)
    requires Ok(c)
    ensures Ok(AddEntry(c, e))
    ensures forall k :: Lookup(AddEntry(c, e).tree, k) == if k == e.cred then Some(e) else Lookup(c.tree, k)
    ensures |AddEntry(c, e).lru| == |c.lru| + if Lookup(c.tree, e.cred).Some? then 0 else 1
  {
    var r := AddEntry(c, e);
    InsertOrdered(c.tree, e);
    UnlinkExact(c.lru, e.cred);
    forall k ensures Lookup(r.tree, k) == if k == e.cred then Some(e) else Lookup(c.tree, k) {
      LookupInsert(c.tree, e, k);
    }
    assert forall f :: f in r.lru <==> f in Unlink(c.lru, e.cred) || f == e;
    forall i | 0 <= i < |r.lru| ensures Lookup(r.tree, r.lru[i].cred) == Some(r.lru[i]) {
      if i < |r.lru| - 1 { assert r.lru[i] in Unlink(c.lru, e.cred); }
    }
    forall i, j | 0 <= i < j < |r.lru| ensures r.lru[i].cred != r.lru[j].cred {
      assert r.lru[i] in Unlink(c.lru, e.cred);
    }
  }

  lemma DropKeeps(c: Cache, k: Cred)
    requires Ok(c)
    ensures Ok(DropEntry(c, k))
    ensures forall j :: Lookup(DropEntry(c, k).tree, j) == if j == k then None else Lookup(c.tree, j)
    ensures |DropEntry(c, k).lru| == |c.lru| - if Lookup(c.tree, k).Some? then 1 else 0
  {
    var r := DropEntry(c, k);
    EraseOrdered(c.tree, k);
    UnlinkExact(c.lru, k);
    forall j ensures Lookup(r.tree, j) == if j == k then None else Lookup(c.tree, j) { LookupErase(c.tree, k, j); }
    forall i | 0 <= i < |r.lru| ensures Lookup(r.tree, r.lru[i].cred) == Some(r.lru[i]) { assert r.lru[i] in c.lru; }
  }

  lemma TouchKeeps(c: Cache, e: Entry)
    requires Ok(c) && Lookup(c.tree, e.cred) == Some(e)
    ensures Ok(Touch(c, e)) && |Touch(c, e).lru| == |c.lru|
  {
    var r := Touch(c, e);
    UnlinkExact(c.lru, e.cred);
    forall i | 0 <= i < |r.lru| ensures Lookup(r.tree, r.lru[i].cred) == Some(r.lru[i]) {
      if i < |r.lru| - 1 { assert r.lru[i] in Unlink(c.lru, e.cred); }
    }
    forall i, j | 0 <= i < j < |r.lru| ensures r.lru[i].cred != r.lru[j].cred {
      assert r.lru[i] in Unlink(c.lru, e.cred);
    }
    assert r.lru[|r.lru| - 1] == e;
    forall k | Lookup(r.tree, k).Some? ensures Lookup(r.tree, k).value in r.lru {
      if k != e.cred { assert Lookup(r.tree, k).value in Unlink(c.lru, e.cred); }
    }
  }

  /** An entry that is added or hit becomes the last of the list, where the lock-free lookup
      looks, and the others keep their places. */
  lemma NewestIsLast(c: Cache, e: Entry)
    ensures var a, h := AddEntry(c, e).lru, Touch(c, e).lru;
      && a == h && |a| > 0 && a[|a| - 1] == e && a[..|a| - 1] == Unlink(c.lru, e.cred)
  {
  }

  lemma ListedIsInTree(c: Cache)
    requires Ok(c) && c.lru != []
    ensures c.tree != Leaf
  {
    assert Lookup(c.tree, c.lru[0].cred) == Some(c.lru[0]);
  }

  // ---------- the inode's fields ----------

  class InodeAccess {
    var tree: Tree
    var lru: seq<Entry>
    var onLru: bool
    var invalid: bool

    function View(): (c: Cache)
      reads this
    {
      Cache(tree, lru, onLru, invalid)
    }

    constructor ()
      ensures View() == Cache(Leaf, [], false, false) && Ok(View())
    {
      tree, lru, onLru, invalid := Leaf, [], false, false;
    }

    /** nfs_access_add_rbtree; freed says that an older entry was replaced. */
    method AddRbtree(e: Entry) returns (freed: bool)
      requires Ok(View())
      modifies this
      ensures Ok(View()) && View() == AddEntry(old(View()), e)
      ensures freed <==> Lookup(old(tree), e.cred).Some?
    {
      AddKeeps(View(), e);
      var found := Search(tree, e.cred);
      freed := found.Some?;
      tree := Insert(tree, e);
      lru := Unlink(lru, e.cred) + [e];
    }

    /** __nfs_access_zap_cache: unhook entries until the tree is empty; as many are freed
        as the list held. */
    method Zap() returns (freed: nat)
      requires Ok(View())
      modifies this
      ensures View() == ZapEntries(old(View())) && Ok(View()) && freed == |old(lru)|
    {
      freed := 0;
      while tree != Leaf
        invariant Ok(View()) && freed + |lru| == |old(lru)| && onLru == old(onLru)
        decreases |lru|
      {
        var k := First(tree).cred;
        FirstIsLeast(tree);
        DropKeeps(View(), k);
        tree := Erase(tree, k);
        lru := Unlink(lru, k);
        freed := freed + 1;
      }
      if lru != [] { ListedIsInTree(View()); }
      invalid := false;
    }

    /** nfs_access_zap_cache: nothing to do while the inode is not on the global list. */
    method ZapCache() returns (freed: nat)
      requires Ok(View())
      modifies this
      ensures Ok(View())
      ensures View() == if old(onLru) then ZapEntries(old(View())).(onLru := false) else old(View())
      ensures freed == if old(onLru) then |old(lru)| else 0
    {
      if !onLru { return 0; }
      onLru := false;
      freed := Zap();
    }

    /** nfs_access_get_cached: a fresh entry moves to the end of the list, a stale one leaves
        the cache, and an invalidated cache is emptied. */
    method GetCached(k: Cred, now: nat, attrtimeo: nat, delegated: bool) returns (r: Option<Entry>)
      requires Ok(View())
      modifies this
      ensures Ok(View()) && r == LockedLookup(old(View()), k, now, attrtimeo, delegated)
      ensures old(invalid) ==> View() == if old(onLru) then ZapEntries(old(View())).(onLru := false) else old(View())
      ensures r.Some? ==> View() == Touch(old(View()), r.value)
      ensures r.None? && !old(invalid) ==>
        View() == if Lookup(old(tree), k).Some? then DropEntry(old(View()), k) else old(View())
      ensures r.None? && !invalid ==> Lookup(tree, k).None?
    {
      if invalid {
        var freed := ZapCache();
        return None;
      }
      var cache := Search(tree, k);
      if cache.None? { return None; }
      if !Fresh(cache.value, now, attrtimeo, delegated) {
        DropKeeps(View(), k);
        tree := Erase(tree, k);
        lru := Unlink(lru, k);
        return None;
      }
      TouchKeeps(View(), cache.value);
      lru := Unlink(lru, k) + [cache.value];
      return cache;
    }
  }
}
