/** The batched path walk: components that miss the dentry cache are queued, ".." takes
    the last queued name back, and the queue is resolved by one COMPOUND of LOOKUPs.

    Its meaning is given by Walk, the component-by-component walk, over the same
    file system.  The file system holds plain directories and files. */
module BatchedWalk {

  type Node = nat
  type Name = string

  datatype Component = Dot | DotDot | Norm(name: Name)

  datatype Fs = Fs(root: Node, parent: map<Node, Node>, child: map<(Node, Name), Node>, dirs: set<Node>)

  datatype Result = Ok(node: Node) | ENOENT | ENOTDIR

  const CHAIN_LIMIT: nat := 30

  function Parent(fs: Fs, d: Node): (p: Node) {
    if d in fs.parent then fs.parent[d] else fs.root
  }

  ghost predicate GoodFs(fs: Fs) {
    forall d, x :: (d, x) in fs.child ==> Parent(fs, fs.child[(d, x)]) == d
  }

  // ---------- the component-by-component walk ----------

  /** One component from node cur (link_path_walk checks that cur can be looked up in). */
  function Step(fs: Fs, cur: Node, c: Component): (r: Result) {
    if cur !in fs.dirs then ENOTDIR
    else match c
      case Dot => Ok(cur)
      case DotDot => Ok(Parent(fs, cur))
      case Norm(x) => if (cur, x) in fs.child then Ok(fs.child[(cur, x)]) else ENOENT
  }

  function Walk(fs: Fs, cur: Node, path: seq<Component>): (r: Result)
    decreases |path|
  {
    if path == [] then Ok(cur)
    else match Step(fs, cur, path[0])
      case Ok(next) => Walk(fs, next, path[1..])
      case e => e
  }

  lemma {:induction false} WalkAppend(fs: Fs, cur: Node, p: seq<Component>, q: seq<Component>)
    ensures Walk(fs, cur, p + q) == match Walk(fs, cur, p) case Ok(n) => Walk(fs, n, q) case e => e
    decreases |p|
  {
    if p == [] {
      assert p + q == q;
    } else {
      assert (p + q)[0] == p[0] && (p + q)[1..] == p[1..] + q;
      match Step(fs, cur, p[0]) {
        case Ok(next) => WalkAppend(fs, next, p[1..], q);
        case _ =>
      }
    }
  }

  function Names(chain: seq<Name>): (r: seq<Component>) {
    seq(|chain|, i requires 0 <= i < |chain| => Norm(chain[i]))
  }

  lemma NamesPush(chain: seq<Name>, x: Name)
    ensures Names(chain + [x]) == Names(chain) + [Norm(x)]
  {
  }

  lemma NamesPop(chain: seq<Name>)
    requires chain != []
    ensures Names(chain) == Names(chain[..|chain| - 1]) + [Norm(chain[|chain| - 1])]
  {
    assert chain == chain[..|chain| - 1] + [chain[|chain| - 1]];
    NamesPush(chain[..|chain| - 1], chain[|chain| - 1]);
  }

  // ---------- what the batched walk resolves ----------

  /** The check that the walk has arrived at a directory, when there is more to come. */
  function Checked(done: seq<Component>, rest: seq<Component>): (r: seq<Component>) {
    if rest == [] then done else done + [Dot]
  }

  /** The components that are really resolved when the names in pend are queued and
      path is still to come.  hits[0] says whether the dentry cache knows the next name
      looked up with an empty queue. */
  function Cancel(pend: seq<Name>, path: seq<Component>, hits: seq<bool>): (r: seq<Component>)
    requires |path| == |hits|
    decreases |path|
  {
    if path == [] then Names(pend)
    else
      var rest, more := path[1..], hits[1..];
      match path[0]
      case Dot =>
        if pend == [] then Checked([Dot], rest) + Cancel([], rest, more) else Cancel(pend, rest, more)
      case DotDot =>
        if pend == [] then Checked([DotDot], rest) + Cancel([], rest, more)
        else Cancel(pend[..|pend| - 1], rest, more)
      case Norm(x) =>
        if pend == [] && hits[0] then Checked([Norm(x)], rest) + Cancel([], rest, more)
        else if |pend| + 1 >= CHAIN_LIMIT then Checked(Names(pend + [x]), rest) + Cancel([], rest, more)
        else Cancel(pend + [x], rest, more)
  }

  /** Every "." and ".." that was absorbed by the queue stood behind names that lead
      from cur to a directory. */
  ghost predicate AbsorbedInDirs(fs: Fs, cur: Node, pend: seq<Name>, path: seq<Component>, hits: seq<bool>)
    requires |path| == |hits|
    decreases |path|, 0
  {
    path != [] ==>
      var rest, more := path[1..], hits[1..];
      match path[0]
      case Dot =>
        if pend == [] then AbsorbedFrom(fs, cur, [Dot], rest, more)
        else EndsInDir(fs, cur, pend) && AbsorbedInDirs(fs, cur, pend, rest, more)
      case DotDot =>
        if pend == [] then AbsorbedFrom(fs, cur, [DotDot], rest, more)
        else EndsInDir(fs, cur, pend) && AbsorbedInDirs(fs, cur, pend[..|pend| - 1], rest, more)
      case Norm(x) =>
        if pend == [] && hits[0] then AbsorbedFrom(fs, cur, [Norm(x)], rest, more)
        else if |pend| + 1 >= CHAIN_LIMIT then AbsorbedFrom(fs, cur, Names(pend + [x]), rest, more)
        else AbsorbedInDirs(fs, cur, pend + [x], rest, more)
  }

  ghost predicate EndsInDir(fs: Fs, cur: Node, pend: seq<Name>) {
    Walk(fs, cur, Names(pend)).Ok? && Walk(fs, cur, Names(pend)).node in fs.dirs
  }

  /** The same once the components done have been resolved, when they can be. */
  ghost predicate AbsorbedFrom(fs: Fs, cur: Node, done: seq<Component>, rest: seq<Component>, more: seq<bool>)
    requires |rest| == |more|
    decreases |rest|, 1
  {
    Walk(fs, cur, done).Ok? ==> AbsorbedInDirs(fs, Walk(fs, cur, done).node, [], rest, more)
  }

  // ---------- batched and component-by-component walk agree ----------

  /** After resolving done, both walks continue from the same node. */
  lemma AgreeAfter(fs: Fs, cur: Node, done: seq<Component>, rest: seq<Component>, more: seq<bool>)
    requires |rest| == |more|
    requires forall m :: Walk(fs, cur, done) == Ok(m) ==> Agree(fs, m, [], rest, more)
    ensures Walk(fs, cur, done + rest).Ok? <==>
      Walk(fs, cur, Checked(done, rest) + Cancel([], rest, more)).Ok? && AbsorbedFrom(fs, cur, done, rest, more)
    ensures Walk(fs, cur, done + rest).Ok? ==>
      Walk(fs, cur, Checked(done, rest) + Cancel([], rest, more)) == Walk(fs, cur, done + rest)
  {
    WalkAppend(fs, cur, done, rest);
    WalkAppend(fs, cur, done, [Dot]);
    WalkAppend(fs, cur, Checked(done, rest), Cancel([], rest, more));
    match Walk(fs, cur, done) {
      case Ok(m) =>
        assert Agree(fs, m, [], rest, more);
        assert Names([]) + rest == rest;
        assert [Dot][1..] == [];
      case _ =>
    }
  }

  ghost predicate Agree(fs: Fs, cur: Node, pend: seq<Name>, path: seq<Component>, hits: seq<bool>)
    requires |path| == |hits|
  {
    var one, batched := Walk(fs, cur, Names(pend) + path), Walk(fs, cur, Cancel(pend, path, hits));
    (one.Ok? <==> batched.Ok? && AbsorbedInDirs(fs, cur, pend, path, hits)) && (one.Ok? ==> batched == one)
  }

  /** The component-by-component walk succeeds exactly when the batched walk does and
      nothing was absorbed behind a name that is missing or not a directory; then both
      reach the same node. */
  lemma {:induction false} BatchedAgrees(fs: Fs, cur: Node, pend: seq<Name>, path: seq<Component>, hits: seq<bool>)
    requires GoodFs(fs) && |path| == |hits|
    ensures Agree(fs, cur, pend, path, hits)
    decreases |path|
  {
    if path == [] {
      assert Names(pend) + path == Names(pend);
    } else {
      var c, rest, more := path[0], path[1..], hits[1..];
      assert path == [c] + rest;
      forall m ensures Agree(fs, m, [], rest, more) {
        BatchedAgrees(fs, m, [], rest, more);
      }
      if pend == [] && (c.Dot? || c.DotDot? || hits[0]) {
        assert Names(pend) + path == [c] + rest;
        AgreeAfter(fs, cur, [c], rest, more);
      } else if c.Norm? {
        NamesPush(pend, c.name);
        assert Names(pend) + path == Names(pend + [c.name]) + rest;
        if |pend| + 1 >= CHAIN_LIMIT {
          AgreeAfter(fs, cur, Names(pend + [c.name]), rest, more);
        } else {
          BatchedAgrees(fs, cur, pend + [c.name], rest, more);
        }
      } else {
        BatchedAgrees(fs, cur, if c.Dot? then pend else pend[..|pend| - 1], rest, more);
        AgreeAbsorbed(fs, cur, pend, c, rest, hits);
      }
    }
  }

  /** A "." or ".." that the queue absorbs. */
  lemma AgreeAbsorbed(fs: Fs, cur: Node, pend: seq<Name>, c: Component, rest: seq<Component>, hits: seq<bool>)
    requires GoodFs(fs) && !c.Norm? && pend != [] && |rest| + 1 == |hits|
    requires Agree(fs, cur, if c.Dot? then pend else pend[..|pend| - 1], rest, hits[1..])
    ensures Agree(fs, cur, pend, [c] + rest, hits)
  {
    assert ([c] + rest)[1..] == rest;
    assert Names(pend) + ([c] + rest) == Names(pend) + [c] + rest;
    if c.Dot? { AbsorbedDot(fs, cur, pend, rest); } else { AbsorbedDotDot(fs, cur, pend, rest); }
  }

  lemma AbsorbedDot(fs: Fs, cur: Node, pend: seq<Name>, rest: seq<Component>)
    ensures Walk(fs, cur, Names(pend) + [Dot] + rest) ==
      match Walk(fs, cur, Names(pend))
      case Ok(m) => if m in fs.dirs then Walk(fs, cur, Names(pend) + rest) else ENOTDIR
      case e => e
  {
    assert Names(pend) + [Dot] + rest == Names(pend) + ([Dot] + rest);
    WalkAppend(fs, cur, Names(pend), [Dot] + rest);
    WalkAppend(fs, cur, Names(pend), rest);
    assert ([Dot] + rest)[1..] == rest;
  }

  /** ".." behind a directory leads back to where its name was looked up. */
  lemma AbsorbedDotDot(fs: Fs, cur: Node, pend: seq<Name>, rest: seq<Component>)
    requires GoodFs(fs) && pend != []
    ensures Walk(fs, cur, Names(pend) + [DotDot] + rest) ==
      match Walk(fs, cur, Names(pend))
      case Ok(m) => if m in fs.dirs then Walk(fs, cur, Names(pend[..|pend| - 1]) + rest) else ENOTDIR
      case e => e
  {
    var less, x := pend[..|pend| - 1], pend[|pend| - 1];
    NamesPop(pend);
    assert Names(pend) + [DotDot] + rest == Names(pend) + ([DotDot] + rest);
    WalkAppend(fs, cur, Names(pend), [DotDot] + rest);
    WalkAppend(fs, cur, Names(less), [Norm(x)]);
    WalkAppend(fs, cur, Names(less), rest);
    assert ([DotDot] + rest)[1..] == rest;
    match Walk(fs, cur, Names(less)) {
      case Ok(m) => assert [Norm(x)][1..] == [];
      case _ =>
    }
  }

  /** A missing name and "..", both queued: the batched walk stays where it is, the other
      one reports ENOENT. */
  lemma MissingDotDot(fs: Fs, cur: Node, x: Name)
    requires cur in fs.dirs && (cur, x) !in fs.child
    ensures Walk(fs, cur, [Norm(x), DotDot]) == ENOENT
    ensures Walk(fs, cur, Cancel([], [Norm(x), DotDot], [false, false])) == Ok(cur)
  {
    var path, hits := [Norm(x), DotDot], [false, false];
    assert path[1..] == [DotDot] && hits[1..] == [false] && [] + [x] == [x];
    assert Cancel([], path, hits) == Cancel([x], [DotDot], [false]);
    assert [DotDot][1..] == [] && [x][..0] == [];
    assert Cancel([x], [DotDot], [false]) == Names([]) == [];
  }

  /** A file and ".", both queued: the batched walk reaches the file, the other one reports
      ENOTDIR. */
  lemma FileDot(fs: Fs, cur: Node, x: Name)
    requires cur in fs.dirs && (cur, x) in fs.child && fs.child[(cur, x)] !in fs.dirs
    ensures Walk(fs, cur, [Norm(x), Dot]) == ENOTDIR
    ensures Walk(fs, cur, Cancel([], [Norm(x), Dot], [false, false])) == Ok(fs.child[(cur, x)])
  {
    var path, hits := [Norm(x), Dot], [false, false];
    assert path[1..] == [Dot] && hits[1..] == [false] && [] + [x] == [x];
    assert Cancel([], path, hits) == Cancel([x], [Dot], [false]);
    assert [Dot][1..] == [];
    assert Cancel([x], [Dot], [false]) == Names([x]) == [Norm(x)];
    assert [Norm(x)][1..] == [];
  }

  /** The converse needs the condition: "missing/.." is resolved by the batched walk and
      refused by the component-by-component walk, and so is "file/.". */
  lemma LexicalCancelDiffers()
    ensures var fs := Fs(0, map[1 := 0], map[(0, "file") := 1], {0});
      && GoodFs(fs)
      && Walk(fs, 0, [Norm("missing"), DotDot]) == ENOENT
      && Walk(fs, 0, Cancel([], [Norm("missing"), DotDot], [false, false])) == Ok(0)
      && Walk(fs, 0, [Norm("file"), Dot]) == ENOTDIR
      && Walk(fs, 0, Cancel([], [Norm("file"), Dot], [false, false])) == Ok(1)
  {
    var fs := Fs(0, map[1 := 0], map[(0, "file") := 1], {0});
    assert |"missing"| != |"file"|;
    MissingDotDot(fs, 0, "missing");
    FileDot(fs, 0, "file");
  }
}
