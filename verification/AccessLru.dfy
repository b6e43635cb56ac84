/** All access caches together: the global LRU list of inodes, the global entry count, and
    the shrinker.

    nfs_access_add_cache is three steps (tree, count, global list) and freeing an entry is
    counted after the locks are dropped, so the state also says what is still to be done. */
module AccessLru {
  import opened Common
  import opened Lists
  import opened AccessTree
  import opened AccessCache

  /** toCount and toFree: additions and removals not yet counted; toList[i]: adders of
      inode i that have not yet looked at the global list; toZap: zaps that have found an
      inode's LRU bit set and not yet taken the locks. */
  datatype State = State(caches: seq<Cache>, list: seq<nat>, nr: int, toCount: nat, toFree: nat, toList: seq<nat>,
                         toZap: multiset<nat>)

  datatype Event =
    | AddTree(i: nat, e: Entry)
    | AddCount
    | AddList(i: nat)
    | Hit(i: nat, k: Cred)
    | Expire(i: nat, k: Cred)
    | ZapTest(i: nat)             // the test of the LRU bit before the locks
    | Zap(i: nat)
    | Scan                        // one iteration of the shrinker's loop
    | FreeOne
    | Invalidate(i: nat)

  function Total(cs: seq<Cache>): (n: nat) {
    if cs == [] then 0 else |cs[0].lru| + Total(cs[1..])
  }

  lemma {:induction false} TotalUpdate(cs: seq<Cache>, i: nat, c: Cache)
    requires i < |cs|
    ensures Total(cs[i := c]) == Total(cs) - |cs[i].lru| + |c.lru|
  {
    if i == 0 {
      assert cs[i := c][1..] == cs[1..];
    } else {
      assert cs[i := c][1..] == cs[1..][i - 1 := c];
      TotalUpdate(cs[1..], i - 1, c);
    }
  }

  predicate Enabled(s: State, e: Event) {
    match e
    case AddTree(i, _) => i < |s.caches| && i < |s.toList|
    case AddCount => s.toCount > 0
    case AddList(i) => i < |s.caches| && i < |s.toList| && s.toList[i] > 0
    case Hit(i, k) => i < |s.caches| && Lookup(s.caches[i].tree, k).Some?
    case Expire(i, k) => i < |s.caches| && Lookup(s.caches[i].tree, k).Some?
    case ZapTest(i) => i < |s.caches|
    case Zap(i) => i < |s.caches| && i in s.toZap
    case Scan => s.list != [] && s.list[0] < |s.caches|
    case FreeOne => s.toFree > 0
    case Invalidate(i) => i < |s.caches|
  }

  function Put(s: State, i: nat, c: Cache): (r: State)
    requires i < |s.caches|
  {
    s.(caches := s.caches[i := c])
  }

  /** The body of the shrinker's loop for the first inode of the list. */
  function ScanFirst(s: State): (r: State)
    requires s.list != [] && s.list[0] < |s.caches|
  {
    var i := s.list[0];
    var c := s.caches[i];
    if c.lru == [] then Put(s, i, c.(onLru := false)).(list := s.list[1..])
    else
      var d := DropEntry(c, c.lru[0].cred);
      if d.lru != [] then Put(s, i, d).(list := s.list[1..] + [i], toFree := s.toFree + 1)
      else Put(s, i, d.(onLru := false)).(list := s.list[1..], toFree := s.toFree + 1)
  }

  function Apply(s: State, e: Event): (r: State)
    requires Enabled(s, e)
  {
    match e
    case AddTree(i, en) =>
      var c := s.caches[i];
      Put(s, i, AddEntry(c, en)).(toCount := s.toCount + 1,
        toFree := s.toFree + (if Lookup(c.tree, en.cred).Some? then 1 else 0),
        toList := s.toList[i := s.toList[i] + 1])
    case AddCount => s.(nr := s.nr + 1, toCount := s.toCount - 1)
    case AddList(i) =>
      var c := s.caches[i];
      var s1 := s.(toList := s.toList[i := s.toList[i] - 1]);
      if c.onLru then s1 else Put(s1, i, c.(onLru := true)).(list := s.list + [i])
    case Hit(i, k) => Put(s, i, Touch(s.caches[i], Lookup(s.caches[i].tree, k).value))
    case Expire(i, k) => Put(s, i, DropEntry(s.caches[i], k)).(toFree := s.toFree + 1)
    case ZapTest(i) => if s.caches[i].onLru then s.(toZap := s.toZap + multiset{i}) else s
    case Zap(i) =>
      var c := s.caches[i];
      Put(s, i, ZapEntries(c).(onLru := false)).(
        list := if c.onLru then Without(s.list, i) else s.list,
        toFree := s.toFree + |c.lru|, toZap := s.toZap - multiset{i})
    case Scan => ScanFirst(s)
    case FreeOne => s.(nr := s.nr - 1, toFree := s.toFree - 1)
    case Invalidate(i) => Put(s, i, s.caches[i].(invalid := true))
  }

  // ---------- the invariant ----------

  ghost predicate ListOk(s: State) {
    && |s.toList| == |s.caches| && NoDups(s.list)
    && (forall i :: i in s.list ==> i < |s.caches|)
    && (forall i :: 0 <= i < |s.caches| ==> (i in s.list <==> s.caches[i].onLru))
    && (forall i :: 0 <= i < |s.caches| && s.caches[i].lru != [] ==> s.caches[i].onLru || s.toList[i] > 0)
  }

  ghost predicate Inv(s: State) {
    && ListOk(s)
    && (forall i :: 0 <= i < |s.caches| ==> AccessCache.Ok(s.caches[i]))
    && s.nr + s.toCount == Total(s.caches) + s.toFree
  }

  lemma StepKeeps(s: State, e: Event)
    requires Inv(s) && Enabled(s, e)
    ensures Inv(Apply(s, e))
  {
    match e {
      case AddTree(i, en) => AddTreeKeeps(s, i, en);
      case AddList(i) => AddListKeeps(s, i);
      case Hit(i, k) => HitKeeps(s, i, k);
      case Expire(i, k) => ExpireKeeps(s, i, k);
      case Zap(i) => ZapKeeps(s, i);
      case Scan => ScanKeeps(s);
      case Invalidate(i) => TotalUpdate(s.caches, i, s.caches[i].(invalid := true));
      case ZapTest(i) =>
      case AddCount =>
      case FreeOne =>
    }
  }

  lemma AddTreeKeeps(s: State, i: nat, en: Entry)
    requires Inv(s) && Enabled(s, AddTree(i, en))
    ensures Inv(Apply(s, AddTree(i, en)))
  {
    AddKeeps(s.caches[i], en);
    TotalUpdate(s.caches, i, AddEntry(s.caches[i], en));
  }

  lemma HitKeeps(s: State, i: nat, k: Cred)
    requires Inv(s) && Enabled(s, Hit(i, k))
    ensures Inv(Apply(s, Hit(i, k)))
  {
    var en := Lookup(s.caches[i].tree, k).value;
    TouchKeeps(s.caches[i], en);
    TotalUpdate(s.caches, i, Touch(s.caches[i], en));
  }

  lemma ExpireKeeps(s: State, i: nat, k: Cred)
    requires Inv(s) && Enabled(s, Expire(i, k))
    ensures Inv(Apply(s, Expire(i, k)))
  {
    DropKeeps(s.caches[i], k);
    TotalUpdate(s.caches, i, DropEntry(s.caches[i], k));
  }

  lemma AddListKeeps(s: State, i: nat)
    requires Inv(s) && Enabled(s, AddList(i))
    ensures Inv(Apply(s, AddList(i)))
  {
    if !s.caches[i].onLru {
      var s' := Apply(s, AddList(i));
      TotalUpdate(s.caches, i, s.caches[i].(onLru := true));
      assert forall j :: j in s'.list <==> j in s.list || j == i;
    }
  }

  lemma ZapKeeps(s: State, i: nat)
    requires Inv(s) && Enabled(s, Zap(i))
    ensures Inv(Apply(s, Zap(i)))
  {
    WithoutKeeps(s.list, i);
    TotalUpdate(s.caches, i, ZapEntries(s.caches[i]).(onLru := false));
  }

  /** The head of the list is taken off, or put at the end, with its cache changed. */
  lemma HeadMoves(s: State, c: Cache, keep: bool)
    requires ListOk(s) && s.list != [] && c.onLru == keep && (c.lru != [] ==> keep)
    ensures s.list[0] < |s.caches|
    ensures ListOk(Put(s, s.list[0], c).(list := if keep then s.list[1..] + [s.list[0]] else s.list[1..]))
  {
    var i, rest := s.list[0], s.list[1..];
    assert i in s.list;
    assert s.list == [i] + rest;
    assert i !in rest;
    var list' := if keep then rest + [i] else rest;
    assert forall j :: j in list' <==> (j in s.list && j != i) || (keep && j == i);
  }

  lemma ScanKeeps(s: State)
    requires Inv(s) && Enabled(s, Scan)
    ensures Inv(ScanFirst(s)) && |ScanFirst(s).list| <= |s.list|
  {
    var i := s.list[0];
    var c := s.caches[i];
    if c.lru == [] {
      HeadMoves(s, c.(onLru := false), false);
      TotalUpdate(s.caches, i, c.(onLru := false));
    } else {
      assert Lookup(c.tree, c.lru[0].cred) == Some(c.lru[0]);
      DropKeeps(c, c.lru[0].cred);
      var d := DropEntry(c, c.lru[0].cred);
      var d' := if d.lru != [] then d else d.(onLru := false);
      assert i in s.list;
      HeadMoves(s, d', d.lru != []);
      TotalUpdate(s.caches, i, d');
    }
  }

  /** A scan takes exactly the least recently used entry of the first inode, out of its list
      and its tree, and passes the turn to the next inode; an inode without entries leaves the
      global list instead. */
  lemma ScanFreesOldest(s: State)
    requires Inv(s) && Enabled(s, Scan)
    ensures var i := s.list[0]; var c, t := s.caches[i], ScanFirst(s); var d := t.caches[i];
      && |t.caches| == |s.caches| && (forall j :: 0 <= j < |s.caches| && j != i ==> t.caches[j] == s.caches[j])
      && d.lru == (if c.lru == [] then [] else c.lru[1..])
      && (forall k :: Lookup(d.tree, k) == if c.lru != [] && k == c.lru[0].cred then None else Lookup(c.tree, k))
      && t.toFree == s.toFree + (if c.lru == [] then 0 else 1)
      && t.list == s.list[1..] + (if d.lru == [] then [] else [i])
      && (d.onLru <==> d.lru != [])
  {
    var i := s.list[0];
    var c := s.caches[i];
    assert i in s.list;
    if c.lru == [] {
      assert c.tree == Leaf by {
        if c.tree != Leaf { FirstIsLeast(c.tree); }
      }
    } else {
      DropKeeps(c, c.lru[0].cred);
    }
  }

  /** What each step does to the answers of inode i: an added entry answers for its
      credential, an expired one no longer does, a zap ends all answers, and a hit, the
      counting and the global list change none. */
  lemma StepAnswers(s: State, e: Event, i: nat, k: Cred)
    requires Inv(s) && Enabled(s, e) && i < |s.caches| && !e.Scan?
    ensures var t := Apply(s, e);
      && |t.caches| == |s.caches|
      && Lookup(t.caches[i].tree, k) ==
           (if e.AddTree? && e.i == i && e.e.cred == k then Some(e.e)
            else if (e.Expire? && e.i == i && e.k == k) || (e.Zap? && e.i == i) then None
            else Lookup(s.caches[i].tree, k))
      && (e.Hit? && e.i == i ==> var q := t.caches[i].lru; |q| > 0 && Some(q[|q| - 1]) == Lookup(s.caches[i].tree, e.k))
      && (t.caches[i].invalid <==> (s.caches[i].invalid || e == Invalidate(i)) && e != Zap(i))
  {
    match e {
      case AddTree(j, en) => LookupInsert(s.caches[j].tree, en, k);
      case Expire(j, c) => LookupErase(s.caches[j].tree, c, k);
      case _ =>
    }
  }

  // ---------- runs ----------

  ghost predicate Initial(s: State) {
    && (forall i :: 0 <= i < |s.caches| ==> s.caches[i] == Cache(Leaf, [], false, false))
    && s.list == [] && s.nr == 0 && s.toCount == s.toFree == 0
    && |s.toList| == |s.caches| && (forall i :: 0 <= i < |s.toList| ==> s.toList[i] == 0) && s.toZap == multiset{}
  }

  lemma {:induction false} EmptyTotal(cs: seq<Cache>)
    requires forall i :: 0 <= i < |cs| ==> cs[i].lru == []
    ensures Total(cs) == 0
  {
    if cs != [] { EmptyTotal(cs[1..]); }
  }

  ghost predicate Next(s: State, s': State) {
    exists e :: Enabled(s, e) && s' == Apply(s, e)
  }

  ghost predicate IsRun(run: seq<State>) {
    && |run| > 0 && Initial(run[0])
    && forall i, j {:trigger Next(run[i], run[j])} :: 0 <= i && j == i + 1 && j < |run| ==> Next(run[i], run[j])
  }

  /** After any mix of operations, when none is half done: the count is the number of
      entries, and every inode with entries is on the global list. */
  lemma {:induction false} RunsStayConsistent(run: seq<State>, n: nat)
    requires IsRun(run) && n < |run|
    ensures Inv(run[n])
    ensures run[n].toCount == run[n].toFree == 0 ==> run[n].nr == Total(run[n].caches)
    ensures (forall i :: 0 <= i < |run[n].toList| ==> run[n].toList[i] == 0) ==>
      forall i :: 0 <= i < |run[n].caches| && run[n].caches[i].lru != [] ==> i in run[n].list
  {
    if n == 0 {
      EmptyTotal(run[0].caches);
    } else {
      RunsStayConsistent(run, n - 1);
      assert Next(run[n - 1], run[n]);
      var e :| Enabled(run[n - 1], e) && run[n] == Apply(run[n - 1], e);
      StepKeeps(run[n - 1], e);
    }
  }

  ghost predicate FirstHasEntries(s: State) {
    s.list != [] && s.list[0] < |s.caches| && s.caches[s.list[0]].lru != []
  }

  /** The loop of nfs_access_cache_shrinker: the list is walked with the successor taken
      first, so after an inode went to the tail the walk goes on at the new head, and it
      ends with the inode that was last when visited. */
  method Shrink(s: State, nrToScan: nat) returns (r: State)
    requires Inv(s)
    ensures Inv(r) && r.nr == s.nr && |r.list| <= |s.list|
    ensures Total(r.caches) + r.toFree == Total(s.caches) + s.toFree
    ensures r.toFree - s.toFree <= nrToScan
    // each turn frees an entry or takes an inode off the list, until the list has run short
    ensures (r.toFree - s.toFree) + (|s.list| - |r.list|) >= nrToScan || |r.list| <= 1
    ensures nrToScan > 0 && FirstHasEntries(s) ==> r.toFree > s.toFree
  {
    r := s;
    var left, more := nrToScan, s.list != [];
    while left > 0 && more
      invariant Inv(r) && r.nr == s.nr && r.toCount == s.toCount && |r.list| <= |s.list|
      invariant more ==> r.list != []
      invariant 0 <= left && r.toFree - s.toFree + left <= nrToScan
      invariant (r.toFree - s.toFree) + (|s.list| - |r.list|) + left >= nrToScan && r.toFree >= s.toFree
      invariant !more ==> |r.list| <= 1
      invariant left < nrToScan && FirstHasEntries(s) ==> r.toFree > s.toFree
      invariant left == nrToScan ==> r == s && (more <==> s.list != [])
    {
      left := left - 1;
      more := |r.list| > 1;
      assert r.list[0] in r.list;
      ScanKeeps(r);
      ScanFreesOldest(r);
      r := ScanFirst(r);
    }
  }
}
