/** Following symbolic links in the component-by-component walk: link_path_walk,
    nested_symlink and follow_link call each other, bounded by 40 links in all and 8 levels
    of nesting.

    The meaning is Stacked, a walk over a stack of paths: a link in the middle of a path puts
    the rest of that path on the stack, a link at its end does not.  Without the limit on the
    stack it is Flat, which simply puts a link's target in front of what is left. */
module SymlinkWalk {
  import opened Common

  type Node = nat
  type Name = string

  const MAX_LINKS: nat := 40
  const MAX_NESTED_LINKS: nat := 8

  datatype Component = Dot | DotDot | Norm(name: Name)

  datatype Kind = File | Dir(child: map<Name, Node>) | Link(absolute: bool, target: seq<Component>)

  datatype Fs = Fs(root: Node, kind: map<Node, Kind>, parent: map<Node, Node>)

  datatype Result = Ok(node: Node) | ENOENT | ENOTDIR | ELOOP

  function KindOf(fs: Fs, n: Node): (k: Kind) { if n in fs.kind then fs.kind[n] else File }

  predicate CanLookup(fs: Fs, n: Node) { KindOf(fs, n).Dir? }

  predicate IsLink(fs: Fs, n: Node) { KindOf(fs, n).Link? }

  /** One component, not following a link it names. */
  function Step(fs: Fs, cur: Node, c: Component): (r: Result) {
    match KindOf(fs, cur)
    case Dir(child) =>
      (match c
       case Dot => Ok(cur)
       case DotDot => Ok(if cur in fs.parent then fs.parent[cur] else cur)
       case Norm(x) => if x in child then Ok(child[x]) else ENOENT)
    case _ => ENOTDIR
  }

  /** Directories have directories as parents; the root is a directory. */
  predicate GoodFs(fs: Fs) {
    CanLookup(fs, fs.root) && forall n | n in fs.parent :: CanLookup(fs, fs.parent[n])
  }

  function Base(fs: Fs, cur: Node, link: Node): (b: Node)
    requires IsLink(fs, link)
  {
    if KindOf(fs, link).absolute then fs.root else cur
  }

  // ---------- the flat walk ----------

  function Flat(fs: Fs, cur: Node, path: seq<Component>, budget: nat): (r: Result)
    decreases budget, |path|, 1
  {
    if path == [] then Ok(cur)
    else match Step(fs, cur, path[0])
      case Ok(n) => if IsLink(fs, n) then FlatLink(fs, cur, n, path[1..], budget) else Flat(fs, n, path[1..], budget)
      case e => e
  }

  /** Standing at cur in front of a link, with rest still to walk after it. */
  function FlatLink(fs: Fs, cur: Node, link: Node, rest: seq<Component>, budget: nat): (r: Result)
    requires IsLink(fs, link)
    decreases budget, |rest|, 0
  {
    if budget == 0 then ELOOP
    else Flat(fs, Base(fs, cur, link), KindOf(fs, link).target + rest, budget - 1)
  }

  // ---------- the walk over a stack of paths ----------

  function Concat(stack: seq<seq<Component>>): (r: seq<Component>) {
    if stack == [] then [] else stack[0] + Concat(stack[1..])
  }

  /** Walk path, then the paths of the stack; each of those waits behind one nested link. */
  function Stacked(fs: Fs, cur: Node, path: seq<Component>, stack: seq<seq<Component>>, budget: nat): (r: Result)
    decreases budget, |stack|, |path|, 1
  {
    if path == [] then
      if stack == [] then Ok(cur) else Stacked(fs, cur, stack[0], stack[1..], budget)
    else match Step(fs, cur, path[0])
      case Ok(n) =>
        if IsLink(fs, n) then StackedLink(fs, cur, n, path[1..], stack, budget)
        else Stacked(fs, n, path[1..], stack, budget)
      case e => e
  }

  /** In front of a link with rest to come in the same path. */
  function StackedLink(fs: Fs, cur: Node, link: Node, rest: seq<Component>, stack: seq<seq<Component>>, budget: nat)
    : (r: Result)
    requires IsLink(fs, link)
    decreases budget, |stack|, |rest|, 0
  {
    if budget == 0 || TooNested(rest, stack) then ELOOP
    else Stacked(fs, Base(fs, cur, link), KindOf(fs, link).target, Push(rest, stack), budget - 1)
  }

  predicate TooNested(rest: seq<Component>, stack: seq<seq<Component>>) { rest != [] && |stack| >= MAX_NESTED_LINKS }

  function Push(rest: seq<Component>, stack: seq<seq<Component>>): (r: seq<seq<Component>>) {
    if rest == [] then stack else [rest] + stack
  }

  /** The walk meets a link in the middle of a path when eight others are waiting, before
      anything else ends it. */
  predicate MeetsLimit(fs: Fs, cur: Node, path: seq<Component>, stack: seq<seq<Component>>, budget: nat)
    decreases budget, |stack|, |path|
  {
    if path == [] then stack != [] && MeetsLimit(fs, cur, stack[0], stack[1..], budget)
    else match Step(fs, cur, path[0])
      case Ok(n) =>
        if !IsLink(fs, n) then MeetsLimit(fs, n, path[1..], stack, budget)
        else if budget == 0 || TooNested(path[1..], stack) then budget > 0
        else MeetsLimit(fs, Base(fs, cur, n), KindOf(fs, n).target, Push(path[1..], stack), budget - 1)
      case _ => false
  }

  /** Which walks the nesting limit stops: the walk over the stack is the flat walk, except
      that it answers ELOOP exactly where it meets the limit. */
  lemma {:induction false} StackedIsFlat(fs: Fs, cur: Node, path: seq<Component>, stack: seq<seq<Component>>,
                                         budget: nat)
    ensures Stacked(fs, cur, path, stack, budget) ==
      if MeetsLimit(fs, cur, path, stack, budget) then ELOOP else Flat(fs, cur, path + Concat(stack), budget)
    decreases budget, |stack|, |path|
  {
    if path == [] {
      if stack != [] {
        assert path + Concat(stack) == stack[0] + Concat(stack[1..]);
        StackedIsFlat(fs, cur, stack[0], stack[1..], budget);
      }
    } else {
      var rest, all := path[1..], path + Concat(stack);
      assert all[0] == path[0] && all[1..] == rest + Concat(stack);
      match Step(fs, cur, path[0])
      case Ok(n) =>
        if !IsLink(fs, n) {
          StackedIsFlat(fs, n, rest, stack, budget);
        } else if budget > 0 && !TooNested(rest, stack) {
          StackedIsFlat(fs, Base(fs, cur, n), KindOf(fs, n).target, Push(rest, stack), budget - 1);
          PushConcat(rest, stack);
        }
      case _ =>
    }
  }

  lemma PushConcat(rest: seq<Component>, stack: seq<seq<Component>>)
    ensures Concat(Push(rest, stack)) == rest + Concat(stack)
  {
    if rest != [] { assert ([rest] + stack)[1..] == stack; }
  }

  function Tail(last: Option<Component>): (r: seq<Component>) {
    match last case None => [] case Some(c) => [c]
  }

  // ---------- the kernel's walk ----------

  datatype Move = Moved | Stopped(link: Node) | Failed(error: Result)

  class Nd {
    const fs: Fs
    var cur: Node
    var last: Option<Component>
    var total: nat          // current->total_link_count
    var depth: nat          // nd->depth
    var linkCount: nat      // current->link_count

    ghost predicate Valid()
      reads this
    {
      && GoodFs(fs) && depth == linkCount <= MAX_NESTED_LINKS && total <= MAX_LINKS
    }

    function Left(): (n: int)
      reads this
    {
      MAX_LINKS - total
    }

    constructor (fs: Fs, start: Node)
      requires GoodFs(fs)
      ensures Valid() && this.fs == fs && cur == start && total == 0 && linkCount == 0
    {
      this.fs, cur, last, total, depth, linkCount := fs, start, None, 0, 0, 0;
    }

    /** walk_component on nd->last */
    method WalkComponent(ghost rest: seq<Component>, ghost stack: seq<seq<Component>>) returns (m: Move)
      requires Valid() && CanLookup(fs, cur)
      modifies this`cur
      ensures m.Moved? ==>
        && !IsLink(fs, cur)
        && Stacked(fs, old(cur), Tail(last) + rest, stack, Left()) == Stacked(fs, cur, rest, stack, Left())
      ensures m.Stopped? ==>
        && cur == old(cur) && IsLink(fs, m.link)
        && Stacked(fs, cur, Tail(last) + rest, stack, Left()) == StackedLink(fs, cur, m.link, rest, stack, Left())
      ensures m.Failed? ==> !m.error.Ok? && Stacked(fs, old(cur), Tail(last) + rest, stack, Left()) == m.error
    {
      assert last.Some? ==> (Tail(last) + rest)[1..] == rest;
      if last.None? {
        assert Tail(last) + rest == rest;
        return Moved;
      }
      var r := Step(fs, cur, last.value);
      if !r.Ok? { return Failed(r); }
      if IsLink(fs, r.node) { return Stopped(r.node); }
      cur := r.node;
      return Moved;
    }

    /** follow_link: start on the link's target and leave its last component in nd->last */
    method FollowLink(link: Node, ghost stack: seq<seq<Component>>) returns (r: Result)
      requires Valid() && CanLookup(fs, cur) && IsLink(fs, link) && |stack| == linkCount
      modifies this
      ensures Valid() && linkCount == old(linkCount) && total >= old(total)
      ensures r.Ok? ==> total > old(total) && CanLookup(fs, cur)
      ensures StackedLink(fs, old(cur), link, [], stack, old(Left()))
        == if r.Ok? then Stacked(fs, cur, Tail(last), stack, Left()) else r
      decreases Left(), 0
    {
      if total >= MAX_LINKS { return ELOOP; }
      total := total + 1;
      cur := Base(fs, cur, link);
      last := None;
      r := LinkPathWalk(KindOf(fs, link).target, stack);
    }

    /** nested_symlink: follow a link met inside a path, and any further links its last
        component turns out to be */
    method NestedSymlink(link: Node, ghost rest: seq<Component>, ghost stack: seq<seq<Component>>) returns (r: Result)
      requires Valid() && CanLookup(fs, cur) && IsLink(fs, link) && |stack| == linkCount && rest != []
      modifies this
      ensures Valid() && linkCount == old(linkCount) && total >= old(total)
      ensures r.Ok? ==> !IsLink(fs, cur)
      ensures StackedLink(fs, old(cur), link, rest, stack, old(Left()))
        == if r.Ok? then Stacked(fs, cur, rest, stack, Left()) else r
      decreases Left(), 1
    {
      if linkCount >= MAX_NESTED_LINKS { return ELOOP; }
      assert depth < MAX_NESTED_LINKS;
      depth := depth + 1;
      linkCount := linkCount + 1;
      ghost var goal := StackedLink(fs, cur, link, rest, stack, Left());
      ghost var deeper := [rest] + stack;
      assert deeper[1..] == stack;
      var next, more := link, true;
      r := Ok(cur);
      while more
        invariant Valid() && linkCount == old(linkCount) + 1 && total >= old(total)
        invariant more ==>
          && r.Ok? && CanLookup(fs, cur) && IsLink(fs, next)
          && goal == StackedLink(fs, cur, next, [], deeper, Left())
        invariant !more ==> goal == if r.Ok? then Stacked(fs, cur, rest, stack, Left()) else r
        invariant !more && r.Ok? ==> !IsLink(fs, cur)
        decreases more, Left()
      {
        r := FollowLink(next, deeper);
        if !r.Ok? {
          more := false;
        } else {
          assert Tail(last) + [] == Tail(last);
          var m := WalkComponent([], deeper);
          match m {
            case Moved => more, r := false, Ok(cur);
            case Stopped(l) => next := l;
            case Failed(e) => more, r := false, e;
          }
        }
      }
      linkCount := linkCount - 1;
      depth := depth - 1;
    }

    /** link_path_walk: all components but the last, which is left in nd->last */
    method LinkPathWalk(path: seq<Component>, ghost stack: seq<seq<Component>>) returns (r: Result)
      requires Valid() && CanLookup(fs, cur) && last.None? && |stack| == linkCount
      modifies this
      ensures Valid() && linkCount == old(linkCount) && total >= old(total)
      ensures r.Ok? ==> CanLookup(fs, cur)
      ensures Stacked(fs, old(cur), path, stack, old(Left()))
        == if r.Ok? then Stacked(fs, cur, Tail(last), stack, Left()) else r
      decreases Left(), 2
    {
      if path == [] { return Ok(cur); }
      ghost var goal := Stacked(fs, cur, path, stack, Left());
      var i := 0;
      assert path[0..] == path;
      while i < |path| - 1
        invariant 0 <= i < |path| && Valid() && CanLookup(fs, cur)
        invariant linkCount == old(linkCount) && total >= old(total)
        invariant goal == Stacked(fs, cur, path[i..], stack, Left())
      {
        last := Some(path[i]);
        ghost var more := path[i + 1..];
        assert path[i..] == Tail(last) + more;
        var m := WalkComponent(more, stack);
        match m {
          case Moved =>
          case Failed(e) => return e;
          case Stopped(link) =>
            r := NestedSymlink(link, more, stack);
            if !r.Ok? { return; }
        }
        if !CanLookup(fs, cur) {
          NotADirectory(fs, cur, more, stack, Left());
          return ENOTDIR;
        }
        i := i + 1;
      }
      last := Some(path[i]);
      assert path[i..] == Tail(last);
      r := Ok(cur);
    }

    /** path_lookupat with LOOKUP_FOLLOW: it ends for every symlink graph, follows at most
        40 links, never trips the depth assertion, and answers exactly what the walk over a
        stack of at most eight paths answers. */
    method PathLookup(path: seq<Component>) returns (r: Result)
      requires Valid() && CanLookup(fs, cur) && total == 0 && linkCount == 0
      modifies this
      ensures Valid() && linkCount == old(linkCount) && total <= 40
      ensures r.Ok? ==> r == Ok(cur)
      ensures r == Stacked(fs, old(cur), path, [], 40)
      ensures r == if MeetsLimit(fs, old(cur), path, [], 40) then ELOOP else Flat(fs, old(cur), path, 40)
    {
      ghost var goal := Stacked(fs, cur, path, [], MAX_LINKS);
      StackedIsFlat(fs, cur, path, [], MAX_LINKS);
      assert path + Concat([]) == path;
      last := None;
      r := LinkPathWalk(path, []);
      while r.Ok?
        invariant Valid() && linkCount == old(linkCount)
        invariant r.Ok? ==> CanLookup(fs, cur)
        invariant goal == if r.Ok? then Stacked(fs, cur, Tail(last), [], Left()) else r
        decreases r.Ok?, Left()
      {
        assert Tail(last) + [] == Tail(last);
        var m := WalkComponent([], []);
        match m {
          case Moved => return Ok(cur);
          case Failed(e) => return e;
          case Stopped(link) => r := FollowLink(link, []);
        }
      }
    }
  }

  lemma NotADirectory(fs: Fs, cur: Node, path: seq<Component>, stack: seq<seq<Component>>, budget: nat)
    requires path != [] && !CanLookup(fs, cur)
    ensures Stacked(fs, cur, path, stack, budget) == ENOTDIR
  {
  }

  /** In directory cur, name x is a link to one of names. */
  ghost predicate LeadsInto(fs: Fs, cur: Node, x: Name, names: set<Name>) {
    && Step(fs, cur, Norm(x)).Ok?
    && exists y :: y in names && KindOf(fs, Step(fs, cur, Norm(x)).node) == Link(false, [Norm(y)])
  }

  /** Links that only lead to one another, as those of a cycle do: every walk into them
      answers ELOOP, with or without the nesting limit. */
  lemma {:induction false} CycleIsELOOP(fs: Fs, cur: Node, names: set<Name>, x: Name, budget: nat)
    requires x in names
    requires forall y {:trigger LeadsInto(fs, cur, y, names)} :: y in names ==> LeadsInto(fs, cur, y, names)
    ensures Flat(fs, cur, [Norm(x)], budget) == ELOOP && Stacked(fs, cur, [Norm(x)], [], budget) == ELOOP
    decreases budget
  {
    assert LeadsInto(fs, cur, x, names);
    assert [Norm(x)][1..] == [];
    if budget > 0 {
      var y :| y in names && KindOf(fs, Step(fs, cur, Norm(x)).node) == Link(false, [Norm(y)]);
      assert [Norm(y)] + [] == [Norm(y)];
      CycleIsELOOP(fs, cur, names, y, budget - 1);
    }
  }

  /** An absolute link leads to where its target leads from the root, whichever directory it
      is met in; a relative one to where its target leads from there. */
  lemma LinkBase(fs: Fs, cur: Node, link: Node, rest: seq<Component>, budget: nat)
    requires IsLink(fs, link) && budget > 0
    ensures var k := KindOf(fs, link);
      && (k.absolute ==> FlatLink(fs, cur, link, rest, budget) == Flat(fs, fs.root, k.target + rest, budget - 1))
      && (!k.absolute ==> FlatLink(fs, cur, link, rest, budget) == Flat(fs, cur, k.target + rest, budget - 1))
      && (k.absolute ==> forall other ::
            FlatLink(fs, other, link, rest, budget) == FlatLink(fs, cur, link, rest, budget))
  {
  }

  /** A link met with more of its path to come is too deep exactly behind eight others. */
  lemma TooNestedIff(rest: seq<Component>, stack: seq<seq<Component>>)
    ensures TooNested(rest, stack) <==> rest != [] && |stack| >= 8
  {
  }

  /** One component that is no link, and one that is. */
  lemma FlatStep(fs: Fs, cur: Node, c: Component, rest: seq<Component>, budget: nat)
    ensures var r := Step(fs, cur, c);
      Flat(fs, cur, [c] + rest, budget) ==
        if !r.Ok? then r
        else if IsLink(fs, r.node) then FlatLink(fs, cur, r.node, rest, budget)
        else Flat(fs, r.node, rest, budget)
  {
    assert ([c] + rest)[1..] == rest;
  }
}
