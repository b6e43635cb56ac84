/** nfs_access_get_cached_rcu, which looks at the access cache of an inode without its lock.

    The functions that change the cache hold i_lock and write the tree and the list one after
    the other; here every such write is a step.  The reader reads INVALID_ACCESS, then the
    tail of the list, each at some state of the run. */
module AccessRcu {
  import opened Common
  import opened AccessTree
  import opened AccessCache

  /** Who holds i_lock and what is left to do; base is the cache before the first write. */
  datatype Work =
    | Idle
    | Inserted(base: Cache, e: Entry)      // add: in the tree, not yet listed
    | Replaced(base: Cache, e: Entry)      // add: took an older entry's place in the tree
    | Appended(base: Cache, e: Entry)      // ... and is listed, as the older one still is
    | Lifted(base: Cache, e: Entry)        // hit: off the list, about to be put at its end
    | Expired(base: Cache, k: Cred)        // stale: out of the tree, still listed
    | Scanned(base: Cache, k: Cred)        // shrinker: off the list, still in the tree
    | Zapping                              // zap, between two entries
    | Zapped(base: Cache, k: Cred)         // zap: out of the tree, still listed

  /** next is the first address not used yet. */
  datatype State = State(c: Cache, work: Work, next: nat)

  datatype Event =
    | AddTree(k: Cred, jiffies: nat, mask: nat)
    | AddList
    | HitLift(k: Cred)
    | ExpireTree(k: Cred)
    | ScanList
    | ZapBegin
    | ZapTree
    | Finish                               // the last write, and the unlock
    | Invalidate

  predicate Enabled(s: State, ev: Event) {
    match ev
    case AddTree(_, _, _) => s.work.Idle?
    case AddList => s.work.Replaced?
    case HitLift(k) => s.work.Idle? && !s.c.invalid && Lookup(s.c.tree, k).Some?
    case ExpireTree(k) => s.work.Idle? && !s.c.invalid && Lookup(s.c.tree, k).Some?
    case ScanList => s.work.Idle? && s.c.lru != []
    case ZapBegin => s.work.Idle?
    case ZapTree => s.work.Zapping? && s.c.tree != Leaf
    case Finish => !s.work.Idle? && !s.work.Replaced? && (s.work.Zapping? ==> s.c.tree == Leaf)
    case Invalidate => s.work.Idle?
  }

  function Apply(s: State, ev: Event): (r: State)
    requires Enabled(s, ev)
  {
    var c := s.c;
    match ev
    case AddTree(k, jiffies, mask) =>
      var e := Entry(s.next, k, jiffies, mask);
      var work := if Lookup(c.tree, k).Some? then Replaced(c, e) else Inserted(c, e);
      State(c.(tree := Insert(c.tree, e)), work, s.next + 1)
    case AddList => s.(c := c.(lru := c.lru + [s.work.e]), work := Appended(s.work.base, s.work.e))
    case HitLift(k) => s.(c := c.(lru := Unlink(c.lru, k)), work := Lifted(c, Lookup(c.tree, k).value))
    case ExpireTree(k) => s.(c := c.(tree := Erase(c.tree, k)), work := Expired(c, k))
    case ScanList => s.(c := c.(lru := c.lru[1..]), work := Scanned(c, c.lru[0].cred))
    case ZapBegin => s.(work := Zapping)
    case ZapTree => s.(c := c.(tree := Erase(c.tree, First(c.tree).cred)), work := Zapped(c, First(c.tree).cred))
    case Finish => FinishWork(s)
    case Invalidate => s.(c := c.(invalid := true))
  }

  function FinishWork(s: State): (r: State)
    requires Enabled(s, Finish)
  {
    var c := s.c;
    match s.work
    case Inserted(_, e) => s.(c := c.(lru := c.lru + [e]), work := Idle)
    case Appended(_, e) => s.(c := c.(lru := Unlink(c.lru, e.cred)), work := Idle)
    case Lifted(_, e) => s.(c := c.(lru := c.lru + [e]), work := Idle)
    case Expired(_, k) => s.(c := c.(lru := Unlink(c.lru, k)), work := Idle)
    case Scanned(_, k) => s.(c := c.(tree := Erase(c.tree, k)), work := Idle)
    case Zapped(_, k) => s.(c := c.(lru := Unlink(c.lru, k)), work := Zapping)
    case Zapping => s.(c := c.(invalid := false), work := Idle)
  }

  // ---------- what holds between the writes ----------

  /** Tree and list, each exactly as many writes away from base as have been made. */
  ghost predicate WorkOk(s: State) {
    match s.work
    case Idle => Ok(s.c)
    case Zapping => Ok(s.c)
    case Inserted(b, e) => Ok(b) && Lookup(b.tree, e.cred).None? && s.c == b.(tree := Insert(b.tree, e))
    case Replaced(b, e) => Ok(b) && Lookup(b.tree, e.cred).Some? && s.c == b.(tree := Insert(b.tree, e))
    case Appended(b, e) =>
      Ok(b) && Lookup(b.tree, e.cred).Some? && s.c == b.(tree := Insert(b.tree, e), lru := b.lru + [e])
    case Lifted(b, e) => Ok(b) && Lookup(b.tree, e.cred) == Some(e) && s.c == b.(lru := Unlink(b.lru, e.cred))
    case Expired(b, k) => Ok(b) && Lookup(b.tree, k).Some? && s.c == b.(tree := Erase(b.tree, k))
    case Zapped(b, k) => Ok(b) && Lookup(b.tree, k).Some? && s.c == b.(tree := Erase(b.tree, k))
    case Scanned(b, k) => Ok(b) && b.lru != [] && b.lru[0].cred == k && s.c == b.(lru := b.lru[1..])
  }

  ghost predicate AddrsOk(s: State) {
    && (forall e :: e in s.c.lru ==> e.addr < s.next)
    && (forall k :: Lookup(s.c.tree, k).Some? ==> Lookup(s.c.tree, k).value.addr < s.next)
  }

  ghost predicate Inv(s: State) { WorkOk(s) && AddrsOk(s) }

  ghost predicate InTree(s: State, e: Entry) { Lookup(s.c.tree, e.cred) == Some(e) }

  ghost predicate Listed(s: State, e: Entry) { e in s.c.lru }

  /** The lock holder has taken e out of the tree and not yet off the list. */
  ghost predicate Unhooked(w: Work, e: Entry) {
    match w
    case Expired(_, k) => e.cred == k
    case Zapped(_, k) => e.cred == k
    case Replaced(_, n) => e.cred == n.cred && e != n
    case Appended(_, n) => e.cred == n.cred && e != n
    case _ => false
  }

  /** At every moment a listed entry, the tail for one, is what the tree holds for its
      credential if and only if its removal from the tree has not yet happened. */
  lemma ListedInTreeIff(s: State, e: Entry)
    requires Inv(s) && Listed(s, e)
    ensures InTree(s, e) <==> !Unhooked(s.work, e)
  {
    match s.work
    case Inserted(b, n) => LookupInsert(b.tree, n, e.cred);
    case Replaced(b, n) => LookupInsert(b.tree, n, e.cred);
    case Appended(b, n) => LookupInsert(b.tree, n, e.cred);
    case Expired(b, k) => LookupErase(b.tree, k, e.cred);
    case Zapped(b, k) => LookupErase(b.tree, k, e.cred);
    case Lifted(b, n) => UnlinkExact(b.lru, n.cred);
    case Scanned(b, k) => assert e in b.lru;
    case _ =>
  }

  lemma {:induction false} UnlinkAbsent(lru: seq<Entry>, k: Cred)
    requires forall e :: e in lru ==> e.cred != k
    ensures Unlink(lru, k) == lru
  {
    if lru != [] { UnlinkAbsent(lru[1..], k); }
  }

  lemma {:induction false} UnlinkFirst(lru: seq<Entry>, e: Entry)
    requires exists f :: f in lru && f.cred == e.cred
    ensures Unlink(lru + [e], e.cred) == Unlink(lru, e.cred) + [e]
  {
    assert (lru + [e])[1..] == lru[1..] + [e];
    if lru[0].cred != e.cred {
      assert lru == [lru[0]] + lru[1..];
      UnlinkFirst(lru[1..], e);
    }
  }

  /** All writes of an operation together are the operation that holders of the lock see. */
  lemma WritesAddUp(s: State)
    requires WorkOk(s) && Enabled(s, Finish)
    ensures var c := FinishWork(s).c;
      match s.work
      case Inserted(b, e) => c == AddEntry(b, e)
      case Appended(b, e) => c == AddEntry(b, e)
      case Lifted(b, e) => c == Touch(b, e)
      case Expired(b, k) => c == DropEntry(b, k)
      case Scanned(b, k) => c == DropEntry(b, k)
      case Zapped(b, k) => c == DropEntry(b, k)
      case Zapping => c == ZapEntries(s.c)
      case _ => true
  {
    match s.work
    case Inserted(b, e) =>
      forall f | f in b.lru ensures f.cred != e.cred { assert Lookup(b.tree, f.cred) == Some(f); }
      UnlinkAbsent(b.lru, e.cred);
    case Appended(b, e) =>
      assert Lookup(b.tree, e.cred).value in b.lru;
      UnlinkFirst(b.lru, e);
    case Zapping => if s.c.lru != [] { ListedIsInTree(s.c); }
    case _ =>
  }

  lemma FinishKeeps(s: State)
    requires Inv(s) && Enabled(s, Finish)
    ensures WorkOk(FinishWork(s))
  {
    WritesAddUp(s);
    match s.work
    case Inserted(b, e) => AddKeeps(b, e);
    case Appended(b, e) => AddKeeps(b, e);
    case Lifted(b, e) => TouchKeeps(b, e);
    case Expired(b, k) => DropKeeps(b, k);
    case Scanned(b, k) => DropKeeps(b, k);
    case Zapped(b, k) => DropKeeps(b, k);
    case Zapping =>
  }

  // ---------- what a step does to one entry ----------

  /** A step brings an entry into the tree only as a new one, and onto the list only from
      the tree; it keeps the flag meanwhile. */
  lemma StepEntry(s: State, ev: Event, e: Entry)
    requires Inv(s) && Enabled(s, ev)
    ensures var t := Apply(s, ev);
      && s.next <= t.next
      && (InTree(t, e) && !InTree(s, e) ==> ev.AddTree? && e.addr == s.next < t.next && t.c.invalid == s.c.invalid)
      && (Listed(t, e) ==> Listed(s, e) || InTree(s, e))
  {
    var c := s.c;
    match ev
    case AddTree(k, j, m) => LookupInsert(c.tree, Entry(s.next, k, j, m), e.cred);
    case ExpireTree(k) => LookupErase(c.tree, k, e.cred);
    case ZapTree => LookupErase(c.tree, First(c.tree).cred, e.cred);
    case HitLift(k) => UnlinkExact(c.lru, k);
    case AddList => LookupInsert(s.work.base.tree, s.work.e, s.work.e.cred);
    case Finish => FinishEntry(s, e);
    case ScanList =>
    case ZapBegin =>
    case Invalidate =>
  }

  lemma FinishEntry(s: State, e: Entry)
    requires Inv(s) && Enabled(s, Finish)
    ensures var t := FinishWork(s); (InTree(t, e) ==> InTree(s, e)) && (Listed(t, e) ==> Listed(s, e) || InTree(s, e))
  {
    match s.work
    case Inserted(b, n) => LookupInsert(b.tree, n, n.cred);
    case Appended(b, n) => UnlinkMembers(s.c.lru, n.cred);
    case Expired(b, k) => UnlinkMembers(s.c.lru, k);
    case Zapped(b, k) => UnlinkMembers(s.c.lru, k);
    case Scanned(b, k) => LookupErase(b.tree, k, e.cred);
    case Lifted(b, n) =>
    case Zapping =>
  }

  lemma {:induction false} UnlinkMembers(lru: seq<Entry>, k: Cred)
    ensures forall e :: e in Unlink(lru, k) ==> e in lru
  {
    if lru != [] { UnlinkMembers(lru[1..], k); }
  }

  lemma StepKeeps(s: State, ev: Event)
    requires Inv(s) && Enabled(s, ev)
    ensures Inv(Apply(s, ev))
  {
    var t := Apply(s, ev);
    if ev.Finish? { FinishKeeps(s); }
    if ev.ZapTree? { FirstIsLeast(s.c.tree); }
    forall e | e in t.c.lru ensures e.addr < t.next { StepEntry(s, ev, e); }
    forall k | Lookup(t.c.tree, k).Some? ensures Lookup(t.c.tree, k).value.addr < t.next {
      StepEntry(s, ev, Lookup(t.c.tree, k).value);
    }
  }

  // ---------- runs ----------

  ghost predicate Initial(s: State) { s == State(Cache(Leaf, [], s.c.onLru, false), Idle, 0) }

  ghost predicate Next(s: State, t: State) {
    exists ev :: Enabled(s, ev) && t == Apply(s, ev)
  }

  ghost predicate IsRun(run: seq<State>) {
    && |run| > 0 && Initial(run[0])
    && forall i, j {:trigger Next(run[i], run[j])} :: 0 <= i && j == i + 1 && j < |run| ==> Next(run[i], run[j])
  }

  lemma {:induction false} RunsStayConsistent(run: seq<State>, i: nat)
    requires IsRun(run) && i < |run|
    ensures Inv(run[i])
  {
    if i > 0 {
      RunsStayConsistent(run, i - 1);
      assert Next(run[i - 1], run[i]);
      var ev :| Enabled(run[i - 1], ev) && run[i] == Apply(run[i - 1], ev);
      StepKeeps(run[i - 1], ev);
    }
  }

  // ---------- the reader ----------

  ghost predicate Tail(s: State, e: Entry) { s.c.lru != [] && s.c.lru[|s.c.lru| - 1] == e }

  /** The lock-free lookup hits e: INVALID_ACCESS was clear when it was read, at state a, and
      e was the tail, with the right credential and fresh, when that was read, at state b. */
  ghost predicate RcuHit(run: seq<State>, a: nat, b: nat, k: Cred, e: Entry, now: nat, timeo: nat, delegated: bool) {
    a <= b < |run| && !run[a].c.invalid && Tail(run[b], e) && e.cred == k && Fresh(e, now, timeo, delegated)
  }

  /** Already out of the tree, though still listed. */
  ghost predicate Gone(s: State, e: Entry) { Listed(s, e) && Unhooked(s.work, e) }

  ghost predicate EntersUnderFlag(s: State, t: State, e: Entry) { s.c.invalid && !InTree(s, e) && InTree(t, e) }

  /** Added after INVALID_ACCESS was set, which the reader did not see. */
  ghost predicate AddedUnderFlag(run: seq<State>, a: nat, b: nat, e: Entry)
    requires b < |run|
  {
    exists i, j :: a <= i && j == i + 1 && j <= b && EntersUnderFlag(run[i], run[j], e)
  }

  ghost predicate Known(s: State, e: Entry) { Listed(s, e) || InTree(s, e) }

  ghost predicate Answers(s: State, e: Entry) { !s.c.invalid && InTree(s, e) }

  /** e is being added, by a task that still holds the lock. */
  ghost predicate Adding(w: Work, e: Entry) { (w.Inserted? || w.Replaced? || w.Appended?) && w.e == e }

  /** How one step treats an entry. */
  ghost predicate Evolves(s: State, t: State, e: Entry) {
    && s.next <= t.next
    && (InTree(t, e) && !InTree(s, e) ==> e.addr == s.next < t.next && t.c.invalid == s.c.invalid)
    && (Known(t, e) ==> Known(s, e) || InTree(t, e))
    && (Known(t, e) && s.c.invalid ==> t.c.invalid)
    && (InTree(t, e) && !InTree(s, e) ==> Adding(t.work, e))
    && (Adding(s.work, e) ==> t.c.invalid == s.c.invalid && (t.work.Idle? || Adding(t.work, e)))
    && (Adding(t.work, e) && !Adding(s.work, e) ==> s.work.Idle? && InTree(t, e) && !InTree(s, e))
    && (t.c.invalid && !s.c.invalid ==> s.work.Idle?)
  }

  /** What is known of an entry at one moment. */
  ghost predicate Sound(s: State, e: Entry) {
    && (Known(s, e) ==> e.addr < s.next)
    && (Listed(s, e) ==> (InTree(s, e) <==> !Unhooked(s.work, e)))
  }

  /** The life of one entry in a run. */
  ghost predicate Life(run: seq<State>, e: Entry) {
    && (forall i :: 0 <= i < |run| ==> Sound(run[i], e))
    && (forall i, j :: 0 <= i && j == i + 1 && j < |run| ==> Evolves(run[i], run[j], e))
  }

  lemma SoundAt(s: State, e: Entry)
    requires Inv(s)
    ensures Sound(s, e)
  {
    if Listed(s, e) { ListedInTreeIff(s, e); }
  }

  lemma NextEvolves(s: State, t: State, e: Entry)
    requires Inv(s) && Next(s, t)
    ensures Evolves(s, t, e)
  {
    var ev :| Enabled(s, ev) && t == Apply(s, ev);
    StepEntry(s, ev, e);
    if ev.Finish? { WritesAddUp(s); }
    StepAdds(s, ev, e);
  }

  lemma StepAdds(s: State, ev: Event, e: Entry)
    requires Inv(s) && Enabled(s, ev)
    ensures var t := Apply(s, ev);
      && (Adding(s.work, e) ==> t.c.invalid == s.c.invalid && (t.work.Idle? || Adding(t.work, e)))
      && (Adding(t.work, e) && !Adding(s.work, e) ==> s.work.Idle? && InTree(t, e) && !InTree(s, e))
      && (ev.AddTree? && InTree(t, e) && !InTree(s, e) ==> Adding(t.work, e))
      && (t.c.invalid && !s.c.invalid ==> s.work.Idle?)
  {
    if ev.AddTree? { LookupInsert(s.c.tree, Entry(s.next, ev.k, ev.jiffies, ev.mask), e.cred); }
  }

  lemma RunGivesLife(run: seq<State>, e: Entry)
    requires IsRun(run)
    ensures Life(run, e)
  {
    forall i | 0 <= i < |run| ensures Sound(run[i], e) {
      RunsStayConsistent(run, i);
      SoundAt(run[i], e);
    }
    forall i, j | 0 <= i && j == i + 1 && j < |run| ensures Evolves(run[i], run[j], e) {
      RunsStayConsistent(run, i);
      NextEvolves(run[i], run[j], e);
    }
  }

  lemma {:induction false} FindMoment(run: seq<State>, a: nat, b: nat, e: Entry) returns (m: nat)
    requires Life(run, e) && a <= b < |run| && !run[a].c.invalid && Known(run[b], e)
    requires !Gone(run[a], e) && !AddedUnderFlag(run, a, b, e)
    ensures a <= m <= b && Answers(run[m], e)
    decreases b
  {
    m := b;
    assert Sound(run[a], e);
    if a < b {
      assert Evolves(run[b - 1], run[b], e) && !EntersUnderFlag(run[b - 1], run[b], e);
      if Known(run[b - 1], e) {
        m := FindMoment(run, a, b - 1, e);
      }
    }
  }

  lemma {:induction false} GoneForGood(run: seq<State>, a: nat, m: nat, e: Entry)
    requires Life(run, e) && a <= m < |run| && Gone(run[a], e)
    ensures !InTree(run[m], e) && e.addr < run[m].next
    decreases m
  {
    assert Sound(run[a], e);
    if a < m {
      GoneForGood(run, a, m - 1, e);
      assert Evolves(run[m - 1], run[m], e);
    }
  }

  lemma {:induction false} NextGrows(run: seq<State>, m: nat, i: nat, e: Entry)
    requires Life(run, e) && m <= i < |run|
    ensures run[m].next <= run[i].next
    decreases i
  {
    if m < i {
      NextGrows(run, m, i - 1, e);
      assert Evolves(run[i - 1], run[i], e);
    }
  }

  lemma {:induction false} FlaggedForLife(run: seq<State>, i: nat, m: nat, e: Entry)
    requires Life(run, e) && i < m < |run| && EntersUnderFlag(run[i], run[i + 1], e)
    ensures e.addr < run[m].next && (Known(run[m], e) ==> run[m].c.invalid)
    decreases m
  {
    assert Evolves(run[m - 1], run[m], e);
    if i + 1 < m { FlaggedForLife(run, i, m - 1, e); }
  }

  lemma NeverAnswered(run: seq<State>, i: nat, m: nat, e: Entry)
    requires Life(run, e) && i + 1 < |run| && m < |run| && EntersUnderFlag(run[i], run[i + 1], e)
    ensures !Answers(run[m], e)
  {
    if m <= i {
      assert Evolves(run[i], run[i + 1], e) && Sound(run[m], e);
      NextGrows(run, m, i, e);
    } else {
      FlaggedForLife(run, i, m, e);
    }
  }

  ghost predicate LockedAnswerBetween(run: seq<State>, a: nat, b: nat, k: Cred, e: Entry,
                                      now: nat, timeo: nat, delegated: bool)
    requires b < |run|
  {
    exists m :: a <= m <= b && LockedLookup(run[m].c, k, now, timeo, delegated) == Some(e)
  }

  /** Every hit without the lock, in every run: what it returns is what the locked lookup's
      code finds in the tree and the flag of some moment between its two reads, if and only
      if the entry was not already out of the tree at the first read and was not added under
      an INVALID_ACCESS set since. */
  lemma RcuHitIsRightIff(run: seq<State>, a: nat, b: nat, k: Cred, e: Entry, now: nat, timeo: nat, delegated: bool)
    requires IsRun(run) && RcuHit(run, a, b, k, e, now, timeo, delegated)
    ensures LockedAnswerBetween(run, a, b, k, e, now, timeo, delegated)
      <==> !Gone(run[a], e) && !AddedUnderFlag(run, a, b, e)
  {
    RunGivesLife(run, e);
    if !Gone(run[a], e) && !AddedUnderFlag(run, a, b, e) {
      var m := FindMoment(run, a, b, e);
      assert LockedLookup(run[m].c, k, now, timeo, delegated) == Some(e);
    }
    forall m | a <= m <= b && LockedLookup(run[m].c, k, now, timeo, delegated) == Some(e)
      ensures !Gone(run[a], e) && !AddedUnderFlag(run, a, b, e)
    {
      assert Answers(run[m], e);
      if Gone(run[a], e) { GoneForGood(run, a, m, e); }
      forall i, j | a <= i && j == i + 1 && j <= b ensures !EntersUnderFlag(run[i], run[j], e) {
        if EntersUnderFlag(run[i], run[j], e) { NeverAnswered(run, i, m, e); }
      }
    }
  }

  /** When the flag is still clear at the second read, the hit is the locked answer of that
      very moment, unless the lock holder has the entry out of the tree already. */
  lemma RcuHitAtTailIff(run: seq<State>, a: nat, b: nat, k: Cred, e: Entry, now: nat, timeo: nat, delegated: bool)
    requires IsRun(run) && RcuHit(run, a, b, k, e, now, timeo, delegated) && !run[b].c.invalid
    ensures LockedLookup(run[b].c, k, now, timeo, delegated) == Some(e) <==> !Unhooked(run[b].work, e)
  {
    RunGivesLife(run, e);
    assert Sound(run[b], e);
  }

  // ---------- moments at which the lock is free ----------

  ghost predicate FreeBetween(run: seq<State>, a: nat, b: nat)
    requires b < |run|
  {
    exists u :: a <= u <= b && run[u].work.Idle?
  }

  ghost predicate FreeAnswerBetween(run: seq<State>, a: nat, b: nat, k: Cred, e: Entry,
                                    now: nat, timeo: nat, delegated: bool)
    requires b < |run|
  {
    exists m :: a <= m <= b && run[m].work.Idle? && LockedLookup(run[m].c, k, now, timeo, delegated) == Some(e)
  }

  lemma {:induction false} StillClear(run: seq<State>, a: nat, b: nat, e: Entry)
    requires Life(run, e) && a < b < |run| && !run[a].c.invalid && !FreeBetween(run, a, b - 1)
    ensures !run[b].c.invalid
    decreases b
  {
    assert Evolves(run[b - 1], run[b], e);
    if a < b - 1 { StillClear(run, a, b - 1, e); }
  }

  lemma {:induction false} AddingClear(run: seq<State>, a: nat, b: nat, e: Entry)
    requires Life(run, e) && a <= b < |run| && !run[a].c.invalid && Adding(run[b].work, e)
    requires !AddedUnderFlag(run, a, b, e)
    ensures !run[b].c.invalid
    decreases b
  {
    if a < b {
      assert Evolves(run[b - 1], run[b], e) && !EntersUnderFlag(run[b - 1], run[b], e);
      if Adding(run[b - 1].work, e) { AddingClear(run, a, b - 1, e); }
    }
  }

  lemma {:induction false} FindFree(run: seq<State>, a: nat, b: nat, e: Entry) returns (m: nat)
    requires Life(run, e) && a <= b < |run| && !run[a].c.invalid && Known(run[b], e) && FreeBetween(run, a, b)
    requires !AddedUnderFlag(run, a, b, e) && !Adding(run[b].work, e)
    ensures a <= m <= b && run[m].work.Idle? && Answers(run[m], e)
    decreases b
  {
    m := b;
    assert Sound(run[b], e);
    if !(run[b].work.Idle? && !run[b].c.invalid) {
      assert a < b;
      var p := b - 1;
      assert Evolves(run[p], run[b], e) && !EntersUnderFlag(run[p], run[b], e);
      if Adding(run[p].work, e) { AddingClear(run, a, p, e); }
      if !FreeBetween(run, a, p) { StillClear(run, a, b, e); }
      m := FindFree(run, a, p, e);
    }
  }

  lemma {:induction false} AddingIsNew(run: seq<State>, m: nat, b: nat, e: Entry)
    requires Life(run, e) && m <= b < |run| && run[m].work.Idle? && Adding(run[b].work, e)
    ensures !InTree(run[m], e)
    decreases b
  {
    var p := b - 1;
    assert Evolves(run[p], run[b], e);
    if Adding(run[p].work, e) {
      AddingIsNew(run, m, p, e);
    } else {
      NextGrows(run, m, p, e);
      assert Sound(run[m], e);
    }
  }

  /** The same for the answers a locked lookup could really have given, at moments when the
      lock is free: there must have been one between the two reads, and the task that added
      the entry, if it was added then, must have released the lock. */
  lemma RcuHitIsLockedIff(run: seq<State>, a: nat, b: nat, k: Cred, e: Entry, now: nat, timeo: nat, delegated: bool)
    requires IsRun(run) && RcuHit(run, a, b, k, e, now, timeo, delegated)
    ensures FreeAnswerBetween(run, a, b, k, e, now, timeo, delegated)
      <==> FreeBetween(run, a, b) && !AddedUnderFlag(run, a, b, e) && !Adding(run[b].work, e)
  {
    RunGivesLife(run, e);
    if FreeBetween(run, a, b) && !AddedUnderFlag(run, a, b, e) && !Adding(run[b].work, e) {
      var m := FindFree(run, a, b, e);
      assert LockedLookup(run[m].c, k, now, timeo, delegated) == Some(e);
    }
    forall m | a <= m <= b && run[m].work.Idle? && LockedLookup(run[m].c, k, now, timeo, delegated) == Some(e)
      ensures FreeBetween(run, a, b) && !AddedUnderFlag(run, a, b, e) && !Adding(run[b].work, e)
    {
      assert Answers(run[m], e);
      if Adding(run[b].work, e) { AddingIsNew(run, m, b, e); }
      forall i, j | a <= i && j == i + 1 && j <= b ensures !EntersUnderFlag(run[i], run[j], e) {
        if EntersUnderFlag(run[i], run[j], e) { NeverAnswered(run, i, m, e); }
      }
    }
  }

  // ---------- runs that show the conditions are needed ----------

  function Do(s: State, evs: seq<Event>): (run: seq<State>)
    decreases |evs|
  {
    if evs == [] || !Enabled(s, evs[0]) then [s] else [s] + Do(Apply(s, evs[0]), evs[1..])
  }

  lemma DoOne(s: State, ev: Event, evs: seq<Event>)
    requires Enabled(s, ev)
    ensures Do(s, [ev] + evs) == [s] + Do(Apply(s, ev), evs)
  {
    assert ([ev] + evs)[1..] == evs;
  }

  lemma {:induction false} DoIsRun(s: State, evs: seq<Event>)
    ensures var run := Do(s, evs);
      && |run| > 0 && run[0] == s
      && forall i, j {:trigger Next(run[i], run[j])} :: 0 <= i && j == i + 1 && j < |run| ==> Next(run[i], run[j])
    decreases |evs|
  {
    if evs != [] && Enabled(s, evs[0]) {
      var rest := Do(Apply(s, evs[0]), evs[1..]);
      DoIsRun(Apply(s, evs[0]), evs[1..]);
      var run := Do(s, evs);
      forall i, j | 0 <= i && j == i + 1 && j < |run| ensures Next(run[i], run[j]) {
        if i > 0 { assert run[i] == rest[i - 1] && run[j] == rest[j - 1]; }
      }
    }
  }

  const EMPTY := State(Cache(Leaf, [], true, false), Idle, 0)

  /** A zap without INVALID_ACCESS, as after setting an ACL: a reader that comes between the
      write to the tree and the write to the list hits the entry that is going away. */
  lemma MidZapHit(k: Cred, jiffies: nat, mask: nat, now: nat, timeo: nat)
    ensures var e := Entry(0, k, jiffies, mask);
      var run := Do(EMPTY, [AddTree(k, jiffies, mask), Finish, ZapBegin, ZapTree]);
      && IsRun(run) && |run| == 5 && RcuHit(run, 4, 4, k, e, now, timeo, true)
      && Gone(run[4], e) && LockedLookup(run[4].c, k, now, timeo, true) == None
  {
    var evs := [AddTree(k, jiffies, mask), Finish, ZapBegin, ZapTree];
    var e := Entry(0, k, jiffies, mask);
    DoIsRun(EMPTY, evs);
    var s1 := Apply(EMPTY, evs[0]);
    assert s1.c.tree == Node(Leaf, e, Leaf);
    var s2 := Apply(s1, Finish);
    assert s2.c.lru == [e];
    var s3 := Apply(s2, ZapBegin);
    var s4 := Apply(s3, ZapTree);
    DoOne(s3, ZapTree, []);
    DoOne(s2, ZapBegin, [ZapTree]);
    DoOne(s1, Finish, [ZapBegin, ZapTree]);
    DoOne(EMPTY, evs[0], [Finish, ZapBegin, ZapTree]);
    assert Do(EMPTY, evs) == [EMPTY, s1, s2, s3, s4];
  }

  /** An entry added after an invalidation that the reader did not see. */
  lemma LateAddHit(k: Cred, jiffies: nat, mask: nat, now: nat, timeo: nat)
    ensures var e := Entry(0, k, jiffies, mask);
      var run := Do(EMPTY, [Invalidate, AddTree(k, jiffies, mask), Finish]);
      && IsRun(run) && |run| == 4 && RcuHit(run, 0, 3, k, e, now, timeo, true)
      && AddedUnderFlag(run, 0, 3, e) && LockedLookup(run[3].c, k, now, timeo, true) == None
  {
    var evs := [Invalidate, AddTree(k, jiffies, mask), Finish];
    var e := Entry(0, k, jiffies, mask);
    DoIsRun(EMPTY, evs);
    var s1 := Apply(EMPTY, Invalidate);
    var s2 := Apply(s1, evs[1]);
    assert s2.c.tree == Node(Leaf, e, Leaf);
    var s3 := Apply(s2, Finish);
    DoOne(s2, Finish, []);
    DoOne(s1, evs[1], [Finish]);
    DoOne(EMPTY, Invalidate, [evs[1], Finish]);
    var run := Do(EMPTY, evs);
    assert run == [EMPTY, s1, s2, s3];
    assert EntersUnderFlag(run[1], run[2], e);
  }
}
