/** Page-cache invalidation: NFS_INO_INVALID_DATA, the bit lock NFS_INO_INVALIDATING of
    __nfs_revalidate_mapping, and the lock-free check of
    nfs_readdir_inode_mapping_valid, which reads the two in that order. */
module Invalidation {

  type Tid = nat
  type Page = nat     // every page read in gets a new identifier

  datatype Task =
    | Idle
    | Marked                      // holds i_lock, has set INVALIDATING
    | Shooting                    // has cleared INVALID_DATA and dropped i_lock

  /** A reader between its two checks; seen are the pages that were stale at the first. */
  datatype Reader = NotReading | SawNoInvalidData(seen: set<Page>)

  /** goal: the pages the invalidator has promised to remove. */
  datatype State = State(cached: set<Page>, stale: set<Page>, next: Page,
                         invalidData: bool, invalidating: bool, goal: set<Page>,
                         tasks: map<Tid, Task>, readers: map<Tid, Reader>)

  datatype Event =
    | ReadPage                     // a page is read from the server
    | Detect                       // the file is found changed: nfs_set_cache_invalid
    | Mark(t: Tid)                 // i_lock, INVALIDATING clear and INVALID_DATA set: set INVALIDATING
    | ClearData(t: Tid)            // clear INVALID_DATA, drop i_lock
    | Shoot(t: Tid, p: Page)       // one page leaves the cache
    | Finish(t: Tid)               // clear_bit_unlock, after every page of the goal is gone
    | Evict(p: Page)
    | FirstCheck(r: Tid)           // a reader sees INVALID_DATA clear
    | SecondCheck(r: Tid)          // ... and then INVALIDATING clear
    | GiveUp(r: Tid)

  function TaskOf(s: State, t: Tid): (k: Task) { if t in s.tasks then s.tasks[t] else Idle }

  function ReaderOf(s: State, r: Tid): (k: Reader) { if r in s.readers then s.readers[r] else NotReading }

  /** Nobody is inside the section that set INVALIDATING under i_lock. */
  ghost predicate LockFree(s: State) {
    forall t :: !TaskOf(s, t).Marked?
  }

  ghost predicate Enabled(s: State, e: Event) {
    match e
    case ReadPage => true
    case Detect => LockFree(s)
    case Mark(t) => TaskOf(s, t).Idle? && LockFree(s) && !s.invalidating && s.invalidData
    case ClearData(t) => TaskOf(s, t).Marked?
    case Shoot(t, p) => TaskOf(s, t).Shooting? && p in s.cached
    case Finish(t) => TaskOf(s, t).Shooting? && s.goal !! s.cached
    case Evict(p) => p in s.cached
    case FirstCheck(r) => ReaderOf(s, r).NotReading? && !s.invalidData
    case SecondCheck(r) => ReaderOf(s, r).SawNoInvalidData? && !s.invalidating
    case GiveUp(r) => ReaderOf(s, r).SawNoInvalidData?
  }

  function Uncache(s: State, p: Page): (r: State) {
    s.(cached := s.cached - {p}, stale := s.stale - {p})
  }

  ghost function Apply(s: State, e: Event): (r: State)
    requires Enabled(s, e)
  {
    match e
    case ReadPage => s.(cached := s.cached + {s.next}, next := s.next + 1)
    case Detect => s.(stale := s.cached, invalidData := s.invalidData || s.cached != {})
    case Mark(t) => s.(tasks := s.tasks[t := Marked], invalidating := true, goal := s.cached)
    case ClearData(t) => s.(tasks := s.tasks[t := Shooting], invalidData := false, goal := s.cached)
    case Shoot(t, p) => Uncache(s, p)
    case Finish(t) => s.(tasks := s.tasks[t := Idle], invalidating := false, goal := {})
    case Evict(p) => Uncache(s, p)
    case FirstCheck(r) => s.(readers := s.readers[r := SawNoInvalidData(s.stale)])
    case SecondCheck(r) => s.(readers := s.readers[r := NotReading])
    case GiveUp(r) => s.(readers := s.readers[r := NotReading])
  }

  // ---------- the invariant ----------

  ghost predicate Busy(s: State, t: Tid) { !TaskOf(s, t).Idle? }

  /** INVALIDATING is set exactly while one task invalidates. */
  ghost predicate OneInvalidator(s: State) {
    && (forall t, u :: Busy(s, t) && Busy(s, u) ==> t == u)
    && (s.invalidating <==> exists t :: Busy(s, t))
    && (forall t :: TaskOf(s, t).Marked? ==> s.invalidData)
  }

  /** Stale pages are announced by INVALID_DATA, or are about to be removed. */
  ghost predicate StaleIsAnnounced(s: State) {
    && s.stale <= s.cached && (forall p :: p in s.cached ==> p < s.next)
    && (s.invalidData || (s.stale <= s.goal && (s.stale != {} ==> s.invalidating)))
  }

  /** What a reader saw stale is gone, or is about to be removed by the task that holds
      INVALIDATING. */
  ghost predicate ReadersOk(s: State) {
    forall r :: ReaderOf(s, r).SawNoInvalidData? ==>
      var left := ReaderOf(s, r).seen * s.cached;
      && (forall p :: p in ReaderOf(s, r).seen ==> p < s.next)
      && (left != {} ==> s.invalidating && left <= s.goal)
  }

  ghost predicate Inv(s: State) {
    OneInvalidator(s) && StaleIsAnnounced(s) && ReadersOk(s)
  }

  lemma OneInvalidatorKept(s: State, e: Event)
    requires Inv(s) && Enabled(s, e)
    ensures OneInvalidator(Apply(s, e))
  {
    var s' := Apply(s, e);
    match e {
      case Mark(t) =>
        assert forall u :: u != t ==> TaskOf(s', u) == TaskOf(s, u) && Busy(s', u) == Busy(s, u);
        assert Busy(s', t);
      case ClearData(t) =>
        assert Busy(s, t) && Busy(s', t);
        forall u | u != t ensures TaskOf(s', u).Idle? && !Busy(s', u) {
          assert TaskOf(s', u) == TaskOf(s, u) && Busy(s', u) == Busy(s, u);
        }
      case Finish(t) =>
        assert forall u :: u != t ==> TaskOf(s', u) == TaskOf(s, u);
        assert Busy(s, t) && !Busy(s', t);
        forall u ensures !Busy(s', u) { if u != t { assert Busy(s', u) == Busy(s, u); } }
      case _ => assert forall u :: TaskOf(s', u) == TaskOf(s, u) && Busy(s', u) == Busy(s, u);
    }
  }

  lemma StaleKept(s: State, e: Event)
    requires Inv(s) && Enabled(s, e)
    ensures StaleIsAnnounced(Apply(s, e))
  {
    match e {
      case ClearData(t) => assert Busy(s, t);
      case _ =>
    }
  }

  lemma ReadersKept(s: State, e: Event)
    requires Inv(s) && Enabled(s, e)
    ensures ReadersOk(Apply(s, e))
  {
    var s' := Apply(s, e);
    forall r | ReaderOf(s', r).SawNoInvalidData?
      ensures var left := ReaderOf(s', r).seen * s'.cached;
        (forall p :: p in ReaderOf(s', r).seen ==> p < s'.next) && (left != {} ==> s'.invalidating && left <= s'.goal)
    {
      if !(e.FirstCheck? && e.r == r) {
        assert ReaderOf(s, r) == ReaderOf(s', r);
        assert ReaderOf(s', r).seen * s'.cached <= ReaderOf(s, r).seen * s.cached;
      }
    }
  }

  lemma StepKeeps(s: State, e: Event)
    requires Inv(s) && Enabled(s, e)
    ensures Inv(Apply(s, e))
  {
    OneInvalidatorKept(s, e);
    StaleKept(s, e);
    ReadersKept(s, e);
  }

  ghost predicate Initial(s: State) {
    && s.cached == s.stale == s.goal == {} && !s.invalidData && !s.invalidating
    && s.tasks == map[] && s.readers == map[]
  }

  ghost predicate Next(s: State, s': State) {
    exists e :: Enabled(s, e) && s' == Apply(s, e)
  }

  ghost predicate IsRun(run: seq<State>) {
    && |run| > 0 && Initial(run[0])
    && forall i, j {:trigger Next(run[i], run[j])} :: 0 <= i && j == i + 1 && j < |run| ==> Next(run[i], run[j])
  }

  lemma {:induction false} RunsKeepInv(run: seq<State>, i: nat)
    requires IsRun(run) && i < |run|
    ensures Inv(run[i])
  {
    if i > 0 {
      RunsKeepInv(run, i - 1);
      assert Next(run[i - 1], run[i]);
      var e :| Enabled(run[i - 1], e) && run[i] == Apply(run[i - 1], e);
      StepKeeps(run[i - 1], e);
    }
  }

  /** In every run: stale pages imply one of the two bits, one task at a time invalidates,
      and a reader that passes both checks sees no page that was stale at its first. */
  lemma RunsAnnounceStale(run: seq<State>, i: nat, t: Tid, u: Tid, r: Tid)
    requires IsRun(run) && i < |run|
    ensures run[i].stale != {} ==> run[i].invalidData || run[i].invalidating
    ensures Busy(run[i], t) && Busy(run[i], u) ==> t == u
    ensures Enabled(run[i], SecondCheck(r)) ==> ReaderOf(run[i], r).seen * run[i].cached == {}
  {
    RunsKeepInv(run, i);
  }

  // ---------- the same without the book-keeping of stale pages ----------

  /** The file is found changed in the step after run[d]. */
  ghost predicate DetectedAt(run: seq<State>, d: nat) {
    d + 1 < |run| && Enabled(run[d], Detect) && run[d + 1] == Apply(run[d], Detect)
  }

  lemma StaleStays(s: State, t: State, p: Page)
    requires Inv(s) && Next(s, t) && p < s.next && (p in s.stale || p !in s.cached)
    ensures p < t.next && (p in t.stale || p !in t.cached)
  {
  }

  lemma {:induction false} OldPagesAreStale(run: seq<State>, d: nat, j: nat, p: Page)
    requires IsRun(run) && DetectedAt(run, d) && d < j < |run| && p in run[d].cached
    ensures p < run[j].next && (p in run[j].stale || p !in run[j].cached)
    decreases j
  {
    RunsKeepInv(run, j - 1);
    if j > d + 1 {
      OldPagesAreStale(run, d, j - 1, p);
      assert Next(run[j - 1], run[j]);
      StaleStays(run[j - 1], run[j], p);
    }
  }

  /** A page that was cached when the file was found changed and still is: one of the two bits
      is set. */
  lemma OldPagesAreAnnounced(run: seq<State>, d: nat, j: nat, p: Page)
    requires IsRun(run) && DetectedAt(run, d) && d < j < |run| && p in run[d].cached && p in run[j].cached
    ensures run[j].invalidData || run[j].invalidating
  {
    OldPagesAreStale(run, d, j, p);
    RunsKeepInv(run, j);
  }

  lemma SeenStays(s: State, t: State, r: Tid)
    requires Next(s, t) && ReaderOf(s, r).SawNoInvalidData? && ReaderOf(t, r).SawNoInvalidData?
    ensures ReaderOf(t, r) == ReaderOf(s, r)
  {
  }

  lemma {:induction false} SeenSince(run: seq<State>, c: nat, j: nat, r: Tid)
    requires IsRun(run) && c < j < |run| && Enabled(run[c], FirstCheck(r)) && run[c + 1] == Apply(run[c], FirstCheck(r))
    requires forall k :: c < k <= j ==> ReaderOf(run[k], r).SawNoInvalidData?
    ensures ReaderOf(run[j], r) == SawNoInvalidData(run[c].stale)
    decreases j
  {
    if j > c + 1 {
      SeenSince(run, c, j - 1, r);
      assert Next(run[j - 1], run[j]);
      SeenStays(run[j - 1], run[j], r);
    }
  }

  /** A reader whose two checks come after the file was found changed, the first at c and the
      second at j, finds no page that was cached then. */
  lemma ReaderMissesOldPages(run: seq<State>, d: nat, c: nat, j: nat, r: Tid, p: Page)
    requires IsRun(run) && DetectedAt(run, d) && p in run[d].cached && d < c < j < |run|
    requires Enabled(run[c], FirstCheck(r)) && run[c + 1] == Apply(run[c], FirstCheck(r))
    requires forall k :: c < k <= j ==> ReaderOf(run[k], r).SawNoInvalidData?
    requires Enabled(run[j], SecondCheck(r))
    ensures p !in run[j].cached
  {
    OldPagesAreStale(run, d, c, p);
    SeenSince(run, c, j, r);
    RunsAnnounceStale(run, j, r, r, r);
    ghost var both := ReaderOf(run[j], r).seen * run[j].cached;
    if p in run[c].stale {
      assert p in both <==> p in run[j].cached;
    } else {
      GoneForGood(run, c, j, p);
    }
  }

  lemma {:induction false} GoneForGood(run: seq<State>, c: nat, j: nat, p: Page)
    requires IsRun(run) && c <= j < |run| && p < run[c].next && p !in run[c].cached
    ensures p < run[j].next && p !in run[j].cached
    decreases j
  {
    if c < j {
      GoneForGood(run, c, j - 1, p);
      assert Next(run[j - 1], run[j]);
    }
  }

  /** The order of the two checks matters: a reader that looked at INVALIDATING first could
      then find INVALID_DATA clear with a stale page still cached. */
  lemma ReversedChecksMissStale()
    ensures var s0 := State({0}, {0}, 1, true, false, {}, map[], map[]);
      && Inv(s0) && !s0.invalidating
      && Enabled(s0, Mark(0)) && Enabled(Apply(s0, Mark(0)), ClearData(0))
      && var s2 := Apply(Apply(s0, Mark(0)), ClearData(0));
         !s2.invalidData && 0 in s2.stale && 0 in s2.cached
  {
    var s0 := State({0}, {0}, 1, true, false, {}, map[], map[]);
    assert forall t :: TaskOf(s0, t).Idle? && ReaderOf(s0, t).NotReading?;
  }
}
