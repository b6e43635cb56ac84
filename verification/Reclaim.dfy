/** The list so_states of an open owner and the pass that reclaims its states after a
    server reboot.  Write-mode states are kept in front, so that they are reclaimed before
    the server can hand out read delegations. */
module Reclaim {
  import opened Common
  import opened Lists

  type Id = nat

  datatype Owner = Owner(states: seq<Id>, mode: map<Id, Access>)

  function ModeOf(o: Owner, x: Id): (a: Access) {
    if x in o.mode then o.mode[x] else Access(false, false)
  }

  predicate Writes(o: Owner, x: Id) { ModeOf(o, x).write }

  /** No write-mode state comes after a state without write mode. */
  ghost predicate WritersFirst(o: Owner) {
    forall a, b :: Before(o.states, a, b) && Writes(o, b) ==> Writes(o, a)
  }

  ghost predicate Valid(o: Owner) {
    NoDups(o.states) && WritersFirst(o)
  }

  /** nfs4_get_open_state: a new, stateless entry at the end. */
  function Add(o: Owner, x: Id): (r: Owner)
    requires x !in o.states
  {
    Owner(o.states + [x], o.mode[x := Access(false, false)])
  }

  /** nfs4_put_open_state when the last reference goes. */
  function Remove(o: Owner, x: Id): (r: Owner) {
    o.(states := Without(o.states, x))
  }

  /** nfs4_state_set_mode_locked */
  function SetMode(o: Owner, x: Id, a: Access): (r: Owner)
    requires x in o.states
  {
    if ModeOf(o, x) == a then o
    else
      var states := if a.write == Writes(o, x) then o.states
                    else if a.write then [x] + Without(o.states, x)
                    else Without(o.states, x) + [x];
      Owner(states, o.mode[x := a])
  }

  lemma RemoveKeeps(o: Owner, x: Id)
    requires Valid(o)
    ensures Valid(Remove(o, x))
    ensures forall y :: y in Remove(o, x).states <==> y in o.states && y != x
  {
    WithoutKeeps(o.states, x);
    var r := Remove(o, x);
    forall a, b | Before(r.states, a, b) && Writes(r, b) ensures Writes(r, a) {
      WithoutOrderBack(o.states, x, a, b);
    }
  }

  lemma AddKeeps(o: Owner, x: Id)
    requires Valid(o) && x !in o.states
    ensures Valid(Add(o, x))
  {
    var r := Add(o, x);
    forall a, b | Before(r.states, a, b) && Writes(r, b) ensures Writes(r, a) {
      var i, j :| 0 <= i < j < |r.states| && r.states[i] == a && r.states[j] == b;
      assert o.states[i] == a && o.states[j] == b;
      assert Before(o.states, a, b);
    }
  }

  /** The list without x keeps its order, whatever becomes of x's own mode. */
  lemma RestInOrder(o: Owner, x: Id, a: Id, b: Id)
    requires Valid(o) && Before(Without(o.states, x), a, b) && Writes(o, b)
    ensures Writes(o, a) && a != x && b != x
  {
    WithoutOrderBack(o.states, x, a, b);
    WithoutKeeps(o.states, x);
    BeforeMembers(Without(o.states, x), a, b);
  }

  lemma BehindFront(rest: seq<Id>, x: Id, a: Id, b: Id)
    requires Before([x] + rest, a, b)
    ensures a == x || Before(rest, a, b)
  {
    var q := [x] + rest;
    var i, j :| 0 <= i < j < |q| && q[i] == a && q[j] == b;
    if i > 0 { assert rest[i - 1] == a && rest[j - 1] == b; }
  }

  lemma BeforeEnd(rest: seq<Id>, x: Id, a: Id, b: Id)
    requires Before(rest + [x], a, b)
    ensures b == x || Before(rest, a, b)
  {
    var q := rest + [x];
    var i, j :| 0 <= i < j < |q| && q[i] == a && q[j] == b;
    if j < |rest| { assert rest[i] == a && rest[j] == b; }
  }

  /** Changing a state's mode keeps the writers in front and loses nobody. */
  lemma SetModeKeeps(o: Owner, x: Id, m: Access)
    requires Valid(o) && x in o.states
    ensures Valid(SetMode(o, x, m))
    ensures forall y :: y in SetMode(o, x, m).states <==> y in o.states
    ensures forall y :: ModeOf(SetMode(o, x, m), y) == if y == x then m else ModeOf(o, y)
  {
    if ModeOf(o, x) != m && m.write != Writes(o, x) {
      var r := SetMode(o, x, m);
      MovedHasAll(o.states, x, m.write);
      forall a, b | Before(r.states, a, b) && Writes(r, b) ensures Writes(r, a) {
        MovedInOrder(o, x, m, a, b);
      }
    }
  }

  lemma MovedHasAll(q: seq<Id>, x: Id, front: bool)
    requires NoDups(q) && x in q
    ensures var r := if front then [x] + Without(q, x) else Without(q, x) + [x];
      NoDups(r) && forall y :: y in r <==> y in q
  {
    WithoutKeeps(q, x);
  }

  lemma MovedInOrder(o: Owner, x: Id, m: Access, a: Id, b: Id)
    requires Valid(o) && x in o.states && ModeOf(o, x) != m && m.write != Writes(o, x)
    requires var r := SetMode(o, x, m); Before(r.states, a, b) && Writes(r, b)
    ensures Writes(SetMode(o, x, m), a)
  {
    var rest := Without(o.states, x);
    if m.write { BehindFront(rest, x, a, b); } else { BeforeEnd(rest, x, a, b); }
    if Before(rest, a, b) {
      WithoutKeeps(o.states, x);
      BeforeMembers(rest, a, b);
      RestInOrder(o, x, a, b);
    }
  }

  // ---------- the pass ----------

  /** What other tasks may do while the owner's lock is dropped. */
  datatype Op = OpAdd(x: Id) | OpRemove(x: Id) | OpMode(x: Id, a: Access)

  function Changed(o: Owner, op: Op): (r: Owner) {
    match op
    case OpAdd(x) => if x in o.states then o else Add(o, x)
    case OpRemove(x) => Remove(o, x)
    case OpMode(x, a) => if x in o.states then SetMode(o, x, a) else o
  }

  lemma ChangedKeeps(o: Owner, op: Op)
    requires Valid(o)
    ensures Valid(Changed(o, op))
    ensures forall y :: y in Changed(o, op).states ==> y in o.states || op == OpAdd(y)
  {
    match op {
      case OpAdd(x) => if x !in o.states { AddKeeps(o, x); }
      case OpRemove(x) => RemoveKeeps(o, x);
      case OpMode(x, a) => if x in o.states { SetModeKeeps(o, x, a); }
    }
  }

  /** Nobody removes y or changes its mode. */
  predicate Spares(op: Op, y: Id) { op.OpAdd? || op.x != y }

  lemma ChangedSpares(o: Owner, op: Op, y: Id)
    requires Valid(o) && y in o.states && Spares(op, y)
    ensures y in Changed(o, op).states && ModeOf(Changed(o, op), y) == ModeOf(o, y)
  {
    match op {
      case OpAdd(x) =>
      case OpRemove(x) => RemoveKeeps(o, x);
      case OpMode(x, a) => if x in o.states { SetModeKeeps(o, x, a); }
    }
  }

  /** How recover_open and reclaim_locks ended for one state.  The last two end the pass. */
  datatype Outcome = Recovered | CannotRecover | RetryNograce | Abort | AbortNograce

  predicate Aborts(o: Outcome) { o.Abort? || o.AbortNograce? }

  /** What becomes of a state's two other bits when its recovery ends. */
  predicate Settled(o: Outcome, nograce: bool, broken: bool, wasNograce: bool, wasBroken: bool) {
    && (nograce <==> (wasNograce && !o.Recovered?) || o.RetryNograce? || o.AbortNograce?)
    && (broken <==> wasBroken || o.CannotRecover?)
  }

  // ---------- what the pass keeps, on values ----------

  /** The owner's list and the three bits of its states: RECLAIM_REBOOT, RECLAIM_NOGRACE, and
      an open stateid that is no longer valid. */
  datatype Snap = Snap(owner: Owner, flagged: set<Id>, nograce: set<Id>, broken: set<Id>)

  /** A valid state that is open in some mode. */
  predicate Worth(s: Snap, x: Id) { x !in s.broken && ModeOf(s.owner, x) != Access(false, false) }

  /** y is to be reclaimed and nobody interferes: flagged, valid, open in some mode, and left
      alone by the other tasks. */
  ghost predicate Steady(s: Snap, ops: nat -> seq<Op>, y: Id) {
    && y in s.owner.states && y in s.flagged && Worth(s, y)
    && forall i, k :: 0 <= k < |ops(i)| ==> Spares(ops(i)[k], y)
  }

  /** The scan of t from s takes x: the first flagged state worth recovering; it has the flag
      of x taken, and of the others in front of it. */
  ghost predicate Scanned(s: Snap, t: Snap, x: Id) {
    && t == s.(flagged := t.flagged) && t.flagged <= s.flagged
    && x in s.owner.states && x in s.flagged && x !in t.flagged && Worth(s, x)
    && (forall y :: y in s.flagged && y !in t.flagged && y != x ==> y in s.owner.states && !Worth(s, y))
    && (forall y :: Before(s.owner.states, y, x) ==> y !in t.flagged)
    && (!Writes(s.owner, x) ==> forall y :: y in s.owner.states && y in t.flagged ==> !Writes(s.owner, y))
  }

  /** Other tasks have changed the list of s to that of t. */
  ghost predicate OthersDid(s: Snap, t: Snap, ops: seq<Op>) {
    && t == s.(owner := t.owner) && Valid(t.owner)
    && (forall y :: y in t.owner.states && y in s.flagged ==> y in s.owner.states)
    && (forall y :: y in s.owner.states && (forall k :: 0 <= k < |ops| ==> Spares(ops[k], y)) ==>
          y in t.owner.states && ModeOf(t.owner, y) == ModeOf(s.owner, y))
  }

  /** The states in handed, taken one after the other, were flagged in a and are not in b. */
  ghost predicate Taken(a: Snap, b: Snap, handed: seq<Id>) {
    && b.flagged <= a.flagged && NoDups(handed)
    && (forall x :: x in handed ==> x in a.flagged && x !in b.flagged)
    && (forall x :: x in b.broken ==> x in a.broken || x in handed)
  }

  /** Every steady state has been handed over or still waits unchanged. */
  ghost predicate NoneLost(a: Snap, b: Snap, ops: nat -> seq<Op>, handed: seq<Id>) {
    forall y :: Steady(a, ops, y) ==>
      y in b.owner.states && ModeOf(b.owner, y) == ModeOf(a.owner, y) && (y in b.flagged || y in handed)
  }

  /** A steady writer, and a steady state without write mode. */
  ghost predicate SteadyPair(s: Snap, ops: nat -> seq<Op>, y: Id, z: Id) {
    Steady(s, ops, y) && Writes(s.owner, y) && Steady(s, ops, z) && !Writes(s.owner, z)
  }

  /** Among the steady states, writers have been handed over before the others. */
  ghost predicate WritersLed(a: Snap, ops: nat -> seq<Op>, handed: seq<Id>) {
    forall y, z :: SteadyPair(a, ops, y, z) && z in handed ==> Before(handed, y, z)
  }

  /** The other two bits are as the recoveries have left them. */
  ghost predicate BitsOk(a: Snap, b: Snap, outcomes: nat -> Outcome, handed: seq<Id>) {
    && (forall i :: 0 <= i < |handed| ==>
          var x := handed[i]; Settled(outcomes(i), x in b.nograce, x in b.broken, x in a.nograce, x in a.broken))
    && (forall y :: y !in handed ==> (y in b.nograce <==> y in a.nograce) && (y in b.broken <==> y in a.broken))
  }

  lemma AppendNoDups(q: seq<Id>, x: Id)
    requires NoDups(q) && x !in q
    ensures NoDups(q + [x]) && forall y :: y in q + [x] <==> y in q || y == x
  {
  }

  lemma AppendBefore(q: seq<Id>, x: Id, a: Id, b: Id)
    ensures Before(q, a, b) ==> Before(q + [x], a, b)
    ensures a in q ==> Before(q + [x], a, x)
  {
    if Before(q, a, b) {
      var i, j :| 0 <= i < j < |q| && q[i] == a && q[j] == b;
      assert (q + [x])[i] == a && (q + [x])[j] == b;
    }
    if a in q {
      var i :| 0 <= i < |q| && q[i] == a;
      assert (q + [x])[i] == a && (q + [x])[|q|] == x;
    }
  }

  lemma TakenOn(a: Snap, s: Snap, t: Snap, u: Snap, x: Id, handed: seq<Id>, ops: seq<Op>)
    requires Taken(a, s, handed) && Scanned(s, t, x) && OthersDid(t, u, ops)
    ensures Taken(a, u, handed + [x])
  {
    AppendNoDups(handed, x);
  }

  lemma NoneLostOn(a: Snap, s: Snap, t: Snap, u: Snap, x: Id, handed: seq<Id>, ops: nat -> seq<Op>)
    requires Taken(a, s, handed) && NoneLost(a, s, ops, handed) && Scanned(s, t, x) && OthersDid(t, u, ops(|handed|))
    ensures NoneLost(a, u, ops, handed + [x])
  {
    AppendNoDups(handed, x);
    forall y | Steady(a, ops, y)
      ensures y in u.owner.states && ModeOf(u.owner, y) == ModeOf(a.owner, y) && (y in u.flagged || y in handed + [x])
    {
      assert forall k :: 0 <= k < |ops(|handed|)| ==> Spares(ops(|handed|)[k], y);
    }
  }

  lemma WritersLedOn(a: Snap, s: Snap, t: Snap, x: Id, handed: seq<Id>, ops: nat -> seq<Op>)
    requires NoneLost(a, s, ops, handed) && WritersLed(a, ops, handed) && Scanned(s, t, x) && Taken(a, s, handed)
    ensures WritersLed(a, ops, handed + [x])
  {
    AppendNoDups(handed, x);
    forall y, z | SteadyPair(a, ops, y, z) && z in handed + [x] ensures Before(handed + [x], y, z)
    {
      AppendBefore(handed, x, y, z);
      if z !in handed { LedBy(a, s, t, x, handed, ops, y); }
    }
  }

  /** A steady writer has been handed over when a state without write mode is taken. */
  lemma LedBy(a: Snap, s: Snap, t: Snap, x: Id, handed: seq<Id>, ops: nat -> seq<Op>, y: Id)
    requires NoneLost(a, s, ops, handed) && Scanned(s, t, x) && Taken(a, s, handed)
    requires Steady(a, ops, y) && Writes(a.owner, y) && Steady(a, ops, x) && !Writes(a.owner, x)
    ensures y in handed
  {
  }

  lemma BitsOn(a: Snap, s: Snap, u: Snap, x: Id, handed: seq<Id>, outcomes: nat -> Outcome)
    requires BitsOk(a, s, outcomes, handed) && x !in handed && NoDups(handed)
    requires Settled(outcomes(|handed|), x in u.nograce, x in u.broken, x in s.nograce, x in s.broken)
    requires forall y :: y != x ==> (y in u.nograce <==> y in s.nograce) && (y in u.broken <==> y in s.broken)
    ensures BitsOk(a, u, outcomes, handed + [x])
  {
    var q := handed + [x];
    forall i | 0 <= i < |q|
      ensures Settled(outcomes(i), q[i] in u.nograce, q[i] in u.broken, q[i] in a.nograce, q[i] in a.broken)
    {
      if i < |handed| { assert handed[i] in handed; }
    }
  }

  /** Behind a state without write mode nobody has it. */
  lemma AllBehind(o: Owner, flagged: set<Id>, i: nat)
    requires Valid(o) && i < |o.states| && forall k :: 0 <= k <= i ==> o.states[k] !in flagged
    ensures !Writes(o, o.states[i]) ==> forall z :: z in o.states && z in flagged ==> !Writes(o, z)
    ensures forall z :: Before(o.states, z, o.states[i]) ==> z !in flagged
  {
    var y := o.states[i];
    forall z | z in o.states && z in flagged ensures Writes(o, z) ==> Writes(o, y) {
      var k :| 0 <= k < |o.states| && o.states[k] == z;
      assert i < k;
      assert Before(o.states, y, z);
    }
    forall z | Before(o.states, z, y) ensures z !in flagged {
      var a, b :| 0 <= a < b < |o.states| && o.states[a] == z && o.states[b] == y;
      assert b == i;
    }
  }

  // ---------- the owner ----------

  class StateOwner {
    var owner: Owner
    var flagged: set<Id>
    var nograce: set<Id>
    var broken: set<Id>

    function View(): (s: Snap)
      reads this
    {
      Snap(owner, flagged, nograce, broken)
    }

    ghost predicate Ok()
      reads this
    {
      Valid(owner)
    }

    /** Flagged states that are still on the list: what the pass has left to do. */
    ghost function Left(): (r: set<Id>)
      reads this
    {
      set x | x in owner.states && x in flagged
    }

    /** The scan from restart to the first flagged state worth recovering. */
    method NextToReclaim() returns (found: bool, x: Id)
      requires Ok()
      modifies this`flagged
      ensures found <==> exists y :: y in owner.states && y in old(flagged) && Worth(old(View()), y)
      ensures found ==> Scanned(old(View()), View(), x)
      ensures !found ==> Left() == {} && flagged <= old(flagged)
    {
      found, x := false, 0;
      var i := 0;
      while i < |owner.states|
        invariant 0 <= i <= |owner.states| && flagged <= old(flagged)
        invariant forall k :: 0 <= k < i ==>
          owner.states[k] !in flagged && (owner.states[k] in old(flagged) ==> !Worth(old(View()), owner.states[k]))
        invariant forall y :: y in old(flagged) && y !in flagged ==> exists k :: 0 <= k < i && owner.states[k] == y
      {
        var y := owner.states[i];
        if y in flagged {
          flagged := flagged - {y};
          if y !in broken && ModeOf(owner, y) != Access(false, false) {
            AllBehind(owner, flagged, i);
            assert Worth(old(View()), y);
            return true, y;
          }
        }
        i := i + 1;
      }
    }

    /** One change made by somebody else under the owner's lock. */
    method OtherTask(op: Op)
      requires Ok()
      modifies this`owner
      ensures Ok() && owner == Changed(old(owner), op)
    {
      ChangedKeeps(owner, op);
      match op {
        case OpAdd(x) => if x !in owner.states { owner := Add(owner, x); }
        case OpRemove(x) => owner := Remove(owner, x);
        case OpMode(x, a) => if x in owner.states { owner := SetMode(owner, x, a); }
      }
    }

    /** All changes of one recovery's duration. */
    method OtherTasks(ops: seq<Op>)
      requires Ok() && forall k :: 0 <= k < |ops| && ops[k].OpAdd? ==> ops[k].x !in flagged
      modifies this`owner
      ensures OthersDid(old(View()), View(), ops)
    {
      var k := 0;
      while k < |ops|
        invariant 0 <= k <= |ops| && OthersDid(old(View()), View(), ops)
      {
        ChangedKeeps(owner, ops[k]);
        forall y | y in owner.states && Spares(ops[k], y)
          ensures y in Changed(owner, ops[k]).states && ModeOf(Changed(owner, ops[k]), y) == ModeOf(owner, y)
        {
          ChangedSpares(owner, ops[k], y);
        }
        OtherTask(ops[k]);
        k := k + 1;
      }
    }

    /** What the end of one recovery does to the state's bits. */
    method Settle(x: Id, end: Outcome)
      modifies this`nograce, this`broken
      ensures Settled(end, x in nograce, x in broken, x in old(nograce), x in old(broken))
      ensures forall y :: y != x ==> (y in nograce <==> y in old(nograce)) && (y in broken <==> y in old(broken))
      ensures broken <= old(broken) + {x}
    {
      match end {
        case Recovered => nograce := nograce - {x};
        case CannotRecover => broken := broken + {x};
        case RetryNograce => nograce := nograce + {x};
        case Abort =>
        case AbortNograce => nograce := nograce + {x};
      }
    }

    /** One recovery, from restart to the next: the state it takes, and what the pass that
        began at a has kept.  !found ends the pass. */
    method ReclaimOne(ghost a: Snap, outcomes: nat -> Outcome, ops: nat -> seq<Op>, handed: seq<Id>)
      returns (found: bool, x: Id)
      requires Ok() && PassOk(a, View(), outcomes, ops, handed)
      requires forall i, k :: 0 <= k < |ops(i)| && ops(i)[k].OpAdd? ==> ops(i)[k].x !in a.flagged
      modifies this
      ensures Ok()
      ensures found ==> PassOk(a, View(), outcomes, ops, handed + [x]) && Left() < old(Left())
      ensures !found ==> Left() == {} && Taken(a, View(), handed) && BitsOk(a, View(), outcomes, handed)
      ensures !found ==> forall y :: Steady(a, ops, y) ==> y in handed
    {
      ghost var todo, s := Left(), View();
      found, x := NextToReclaim();
      if !found {
        NothingWaits(a, s, ops, handed);
        return;
      }
      ghost var t := View();
      assert x in todo && x !in Left() && Left() <= todo;
      OtherTasks(ops(|handed|));
      ghost var u := View();
      HandOn(a, s, t, u, x, handed, outcomes, ops);
      Settle(x, outcomes(|handed|));
      SettleOn(a, u, View(), x, handed, outcomes, ops);
    }

    /** nfs4_reclaim_open_state for the reboot pass.  The i-th recovery, of handed[i], ends as
        outcomes(i) says, while others change the list as ops(i) says; a state added meanwhile
        is new, so it is not flagged. */
    method ReclaimOpenState(outcomes: nat -> Outcome, ops: nat -> seq<Op>) returns (aborted: bool, handed: seq<Id>)
      requires Ok() && forall i, k :: 0 <= k < |ops(i)| && ops(i)[k].OpAdd? ==> ops(i)[k].x !in flagged
      modifies this
      // nothing is flagged by the pass; what is handed to recovery was, and is not handed twice
      ensures Ok() && Taken(old(View()), View(), handed)
      // without an abort nothing is left flagged and every steady state has been handed over
      ensures !aborted ==> Left() == {} && forall y :: Steady(old(View()), ops, y) ==> y in handed
      ensures WritersLed(old(View()), ops, handed)
      ensures BitsOk(old(View()), View(), outcomes, handed)
      // only an aborting recovery ends the pass early
      ensures aborted <==> handed != [] && Aborts(outcomes(|handed| - 1))
      ensures forall i :: 0 <= i < |handed| - 1 ==> !Aborts(outcomes(i))
    {
      handed, aborted := [], false;
      ghost var a := View();
      while !aborted
        invariant Ok() && PassOk(a, View(), outcomes, ops, handed)
        invariant aborted <==> handed != [] && Aborts(outcomes(|handed| - 1))
        invariant forall i :: 0 <= i < |handed| - 1 ==> !Aborts(outcomes(i))
        decreases !aborted, Left()
      {
        var found, x := ReclaimOne(a, outcomes, ops, handed);
        if !found { return; }
        handed := handed + [x];
        aborted := Aborts(outcomes(|handed| - 1));
      }
    }
  }

  /** What the pass that began at a has kept when it stands at b. */
  ghost predicate PassOk(a: Snap, b: Snap, outcomes: nat -> Outcome, ops: nat -> seq<Op>, handed: seq<Id>) {
    && Taken(a, b, handed) && NoneLost(a, b, ops, handed)
    && WritersLed(a, ops, handed) && BitsOk(a, b, outcomes, handed)
  }

  lemma HandOn(a: Snap, s: Snap, t: Snap, u: Snap, x: Id, handed: seq<Id>, outcomes: nat -> Outcome,
               ops: nat -> seq<Op>)
    requires PassOk(a, s, outcomes, ops, handed) && Scanned(s, t, x) && OthersDid(t, u, ops(|handed|))
    ensures Taken(a, u, handed + [x]) && NoneLost(a, u, ops, handed + [x]) && WritersLed(a, ops, handed + [x])
    ensures BitsOk(a, u, outcomes, handed) && x !in handed && NoDups(handed)
  {
    TakenOn(a, s, t, u, x, handed, ops(|handed|));
    NoneLostOn(a, s, t, u, x, handed, ops);
    WritersLedOn(a, s, t, x, handed, ops);
  }

  lemma SettleOn(a: Snap, u: Snap, v: Snap, x: Id, handed: seq<Id>, outcomes: nat -> Outcome, ops: nat -> seq<Op>)
    requires Taken(a, u, handed + [x]) && NoneLost(a, u, ops, handed + [x]) && WritersLed(a, ops, handed + [x])
    requires BitsOk(a, u, outcomes, handed) && x !in handed && NoDups(handed)
    requires v == u.(nograce := v.nograce, broken := v.broken)
    requires Settled(outcomes(|handed|), x in v.nograce, x in v.broken, x in u.nograce, x in u.broken)
    requires forall y :: y != x ==> (y in v.nograce <==> y in u.nograce) && (y in v.broken <==> y in u.broken)
    ensures PassOk(a, v, outcomes, ops, handed + [x])
  {
    BitsOn(a, u, v, x, handed, outcomes);
    assert x in handed + [x];
  }

  /** Nothing flagged is worth recovering: every steady state has been handed over. */
  lemma NothingWaits(a: Snap, s: Snap, ops: nat -> seq<Op>, handed: seq<Id>)
    requires Taken(a, s, handed) && NoneLost(a, s, ops, handed)
    requires forall y :: y in s.owner.states && y in s.flagged ==> !Worth(s, y)
    ensures forall y :: Steady(a, ops, y) ==> y in handed
  {
  }
}
