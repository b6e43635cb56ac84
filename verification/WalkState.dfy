/** struct nameidata with the queue of the batched walk, and the functions that change
    it, each proved against the specification in BatchedWalk. */
module WalkState {
  import opened BatchedWalk

  /** The server's COMPOUND: LOOKUPs from dir until one fails. */
  method ChainLookupRpc(fs: Fs, dir: Node, chain: seq<Name>) returns (handles: seq<Node>, r: Result)
    ensures r == Walk(fs, dir, Names(chain))
    ensures r.Ok? ==> |handles| == |chain|
    ensures |handles| <= |chain|
    ensures forall i :: 0 <= i < |handles| ==> Walk(fs, dir, Names(chain[..i + 1])) == Ok(handles[i])
  {
    handles, r := [], Ok(dir);
    var i := 0;
    assert chain[..0] == [];
    while i < |chain|
      invariant 0 <= i <= |chain| && |handles| == i && r.Ok?
      invariant r == Walk(fs, dir, Names(chain[..i]))
      invariant forall k :: 0 <= k < i ==> Walk(fs, dir, Names(chain[..k + 1])) == Ok(handles[k])
    {
      assert chain[..i + 1] == chain[..i] + [chain[i]];
      NamesPush(chain[..i], chain[i]);
      WalkAppend(fs, dir, Names(chain[..i]), [Norm(chain[i])]);
      assert [Norm(chain[i])][1..] == [];
      r := Step(fs, r.node, Norm(chain[i]));
      if !r.Ok? {
        assert chain == chain[..i + 1] + chain[i + 1..];
        assert Names(chain) == Names(chain[..i + 1]) + Names(chain[i + 1..]);
        WalkAppend(fs, dir, Names(chain[..i + 1]), Names(chain[i + 1..]));
        return;
      }
      handles := handles + [r.node];
      i := i + 1;
    }
    assert chain[..|chain|] == chain;
  }

  class Nameidata {
    var path: Node
    var chain: seq<Name>
    var chainSize: nat
    var chainParent: Node
    /** whether chainParent's i_mutex is held */
    var locked: bool

    /** Between components: the size is the queue length, below the limit, and the
        parent's mutex is held exactly while names are queued. */
    ghost predicate Valid()
      reads this
    {
      && chainSize == |chain| < CHAIN_LIMIT
      && (locked <==> chain != [])
      && (chain != [] ==> chainParent == path)
    }

    constructor (start: Node)
      ensures Valid() && path == start && chain == []
    {
      path, chain, chainSize, chainParent, locked := start, [], 0, start, false;
    }

    /** dchain_list_pop */
    method DchainListPop()
      requires chain != [] && chainSize == |chain|
      modifies this`chain, this`chainSize
      ensures chain == old(chain)[..|old(chain)| - 1] && chainSize == |chain|
    {
      chain := chain[..|chain| - 1];
      chainSize := chainSize - 1;
    }

    /** free_dchain_list */
    method FreeDchainList()
      modifies this`chain, this`chainSize
      ensures chain == [] && chainSize == 0
    {
      chain, chainSize := [], 0;
    }

    /** nfs_fill_dchain_list: the walk moves to the last dentry it instantiated. */
    method FillDchainList(handles: seq<Node>)
      requires |handles| == |chain| > 0
      modifies this`path
      ensures path == handles[|handles| - 1]
    {
      var i := 0;
      while i < |chain|
        invariant 0 <= i <= |chain| && (i > 0 ==> path == handles[i - 1])
      {
        path := handles[i];
        i := i + 1;
      }
    }

    /** chain_lookup: resolve the whole queue, empty it, drop the mutex. */
    method ChainLookup(fs: Fs) returns (r: Result)
      requires chain != [] && locked && chainParent == path
      modifies this
      ensures r == Walk(fs, old(path), Names(old(chain)))
      ensures r.Ok? ==> path == r.node
      ensures Valid() && chain == []
    {
      var handles;
      handles, r := ChainLookupRpc(fs, path, chain);
      if r.Ok? {
        FillDchainList(handles);
        assert chain[..|chain| - 1 + 1] == chain;
      }
      FreeDchainList();
      locked := false;
    }

    /** walk_chain for one component; hit says whether the dentry cache answers a lookup
        made with an empty queue. */
    method WalkChain(fs: Fs, c: Component, hit: bool) returns (r: Result)
      requires Valid() && path in fs.dirs
      modifies this
      ensures Valid() && (r.Ok? ==> r == Ok(path)) && (!r.Ok? ==> chain == [])
      ensures c.Dot? ==> r.Ok? && chain == old(chain) && path == old(path)
      ensures c.DotDot? && old(chain) != [] ==> r.Ok? && chain == old(chain)[..|old(chain)| - 1] && path == old(path)
      ensures c.DotDot? && old(chain) == [] ==> r == Step(fs, old(path), DotDot) && chain == []
      ensures c.Norm? && old(chain) == [] && hit ==> r == Step(fs, old(path), c) && chain == []
      ensures c.Norm? && !(old(chain) == [] && hit) ==>
        var queued := old(chain) + [c.name];
        if |queued| < 30 then r.Ok? && chain == queued && path == old(path)
        else r == Walk(fs, old(path), Names(queued)) && chain == []
    {
      if !c.Norm? {
        if chainSize > 0 && c.DotDot? {
          DchainListPop();
          if chainSize == 0 { locked := false; }
        } else if c.DotDot? {
          path := Parent(fs, path);
        }
        return Ok(path);
      }
      var cached := chainSize == 0 && hit;
      if chainSize == 0 {
        chainParent := path;
        locked := true;
      }
      if cached {
        FreeDchainList();
        locked := false;
        if (path, c.name) !in fs.child { return ENOENT; }
        path := fs.child[(path, c.name)];
        return Ok(path);
      }
      chain := chain + [c.name];
      chainSize := chainSize + 1;
      if chainSize >= CHAIN_LIMIT {
        r := ChainLookup(fs);
        return r;
      }
      return Ok(path);
    }

    /** One component of the machine is one component of Cancel. */
    ghost predicate Resolves(fs: Fs, start: Node, all: seq<Component>, rest: seq<Component>, more: seq<bool>)
      requires |rest| == |more|
      reads this
    {
      Walk(fs, start, all) == Walk(fs, path, Cancel(chain, rest, more))
    }

    /** link_path_walk: every component but the last, each followed by the check that the
        walk stands on a directory. */
    method LinkPathWalk(fs: Fs, comps: seq<Component>, hits: seq<bool>) returns (r: Result)
      requires Valid() && chain == [] && path in fs.dirs && |comps| == |hits| > 0
      modifies this
      ensures Valid()
      ensures r.Ok? ==> path in fs.dirs
      ensures r.Ok? ==>
        Resolves(fs, old(path), Cancel([], comps, hits), comps[|comps| - 1..], hits[|comps| - 1..])
      ensures !r.Ok? ==> chain == [] && r == Walk(fs, old(path), Cancel([], comps, hits))
    {
      ghost var start, all := path, Cancel([], comps, hits);
      var i := 0;
      assert comps[0..] == comps && hits[0..] == hits;
      while i < |comps| - 1
        invariant 0 <= i < |comps| && Valid() && path in fs.dirs
        invariant Resolves(fs, start, all, comps[i..], hits[i..])
      {
        ghost var rest, more := comps[i + 1..], hits[i + 1..];
        assert comps[i..][1..] == rest && hits[i..][1..] == more;
        ghost var before, queue := path, chain;
        r := WalkChain(fs, comps[i], hits[i]);
        StepResolves(fs, before, queue, path, chain, comps[i], hits[i], r, rest, more);
        if !r.Ok? { return; }
        if path !in fs.dirs { return ENOTDIR; }
        i := i + 1;
      }
      r := Ok(path);
    }

    /** path_lookupat: link_path_walk, then lookup_last, which flushes what is queued. */
    method PathLookup(fs: Fs, comps: seq<Component>, hits: seq<bool>) returns (r: Result)
      requires Valid() && chain == [] && path in fs.dirs && |comps| == |hits|
      modifies this
      ensures r == Walk(fs, old(path), Cancel([], comps, hits))
      ensures r.Ok? ==> path == r.node
      ensures chain == [] && chainSize == 0 && !locked
    {
      if |comps| == 0 { return Ok(path); }
      ghost var start := path;
      r := LinkPathWalk(fs, comps, hits);
      if !r.Ok? { return; }
      var last := |comps| - 1;
      ghost var before, queue := path, chain;
      r := WalkChain(fs, comps[last], hits[last]);
      StepResolves(fs, before, queue, path, chain, comps[last], hits[last], r, [], []);
      assert comps[last..] == [comps[last]] + [] && hits[last..] == [hits[last]] + [];
      if !r.Ok? || chainSize == 0 { return; }
      r := ChainLookup(fs);
    }

    /** The promise of the patch: when the component-by-component walk succeeds, the
        batched walk reaches the same node, whatever was cached. */
    method BatchedLookup(fs: Fs, comps: seq<Component>, hits: seq<bool>) returns (r: Result)
      requires Valid() && chain == [] && path in fs.dirs && |comps| == |hits| && GoodFs(fs)
      modifies this
      ensures Walk(fs, old(path), comps).Ok? <==>
        r.Ok? && AbsorbedInDirs(fs, old(path), [], comps, hits)
      ensures Walk(fs, old(path), comps).Ok? ==> r == Walk(fs, old(path), comps) && path == r.node
    {
      BatchedAgrees(fs, path, [], comps, hits);
      assert Names([]) + comps == comps;
      r := PathLookup(fs, comps, hits);
    }
  }

  /** What one walk_chain call does to the components still to be resolved. */
  lemma StepResolves(fs: Fs, before: Node, queue: seq<Name>, path: Node, chain: seq<Name>,
                     c: Component, hit: bool, r: Result, rest: seq<Component>, more: seq<bool>)
    requires |rest| == |more| && before in fs.dirs && (r.Ok? ==> r == Ok(path)) && |queue| < CHAIN_LIMIT
    requires c.Dot? ==> r.Ok? && chain == queue && path == before
    requires c.DotDot? && queue != [] ==> r.Ok? && chain == queue[..|queue| - 1] && path == before
    requires c.DotDot? && queue == [] ==> r == Step(fs, before, DotDot) && chain == []
    requires c.Norm? && queue == [] && hit ==> r == Step(fs, before, c) && chain == []
    requires c.Norm? && !(queue == [] && hit) ==>
      if |queue| + 1 < CHAIN_LIMIT then r.Ok? && chain == queue + [c.name] && path == before
      else r == Walk(fs, before, Names(queue + [c.name])) && chain == []
    ensures var all := Cancel(queue, [c] + rest, [hit] + more);
      Walk(fs, before, all) ==
        (if !r.Ok? then r
         else if path !in fs.dirs && rest != [] then ENOTDIR
         else Walk(fs, path, Cancel(chain, rest, more)))
  {
    assert ([c] + rest)[1..] == rest && ([hit] + more)[1..] == more;
    if queue == [] && (!c.Norm? || hit) {
      ResolveNow(fs, before, [c], rest, more);
      assert [c][1..] == [];
    } else if c.Norm? && |queue| + 1 >= CHAIN_LIMIT {
      ResolveNow(fs, before, Names(queue + [c.name]), rest, more);
    }
  }

  lemma ResolveNow(fs: Fs, cur: Node, done: seq<Component>, rest: seq<Component>, more: seq<bool>)
    requires |rest| == |more|
    ensures Walk(fs, cur, Checked(done, rest) + Cancel([], rest, more)) ==
      match Walk(fs, cur, done)
      case Ok(m) => if m !in fs.dirs && rest != [] then ENOTDIR else Walk(fs, m, Cancel([], rest, more))
      case e => e
  {
    WalkAppend(fs, cur, done, [Dot]);
    WalkAppend(fs, cur, Checked(done, rest), Cancel([], rest, more));
    assert [Dot][1..] == [];
  }
}
