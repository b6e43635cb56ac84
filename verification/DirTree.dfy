/** The directory tree that rename reshapes, as a parent map.

    A node is a dentry, identified by its address.  As in the kernel the root is its
    own parent.  Looking up the parent of a node that is not in the tree gives the
    root, so ancestry is total. */
module DirTree {
  import opened Common

  type Node = nat

  datatype Tree = Tree(root: Node, parent: map<Node, Node>)

  function Par(t: Tree, n: Node): (p: Node) {
    if n in t.parent && n != t.root then t.parent[n] else t.root
  }

  /** The node k steps above n. */
  ghost function Up(t: Tree, n: Node, k: nat): (r: Node)
    decreases k
  {
    if k == 0 then n else Up(t, Par(t, n), k - 1)
  }

  /** a is b or one of its ancestors. */
  ghost predicate Above(t: Tree, a: Node, b: Node) {
    exists k: nat :: Up(t, b, k) == a
  }

  /** The structure is an acyclic rooted tree: every node leads up to the root. */
  ghost predicate Rooted(t: Tree) {
    forall n :: Above(t, t.root, n)
  }

  // ---------- depth ----------

  /** Steps from n up to the root, given that some k steps are enough. */
  ghost function Steps(t: Tree, n: Node, k: nat): (d: nat)
    requires Up(t, n, k) == t.root
    decreases k
  {
    if n == t.root then 0 else 1 + Steps(t, Par(t, n), k - 1)
  }

  lemma {:induction false} StepsUnique(t: Tree, n: Node, k: nat, j: nat)
    requires Up(t, n, k) == t.root && Up(t, n, j) == t.root
    ensures Steps(t, n, k) == Steps(t, n, j)
    decreases k
  {
    if n != t.root {
      StepsUnique(t, Par(t, n), k - 1, j - 1);
    }
  }

  ghost function Depth(t: Tree, n: Node): (d: nat)
    requires Rooted(t)
  {
    assert Above(t, t.root, n);
    var k: nat :| Up(t, n, k) == t.root;
    Steps(t, n, k)
  }

  lemma DepthStep(t: Tree, n: Node)
    requires Rooted(t)
    ensures n == t.root <==> Depth(t, n) == 0
    ensures n != t.root ==> Depth(t, n) == Depth(t, Par(t, n)) + 1
  {
    assert Above(t, t.root, n) && Above(t, t.root, Par(t, n));
    var k: nat :| Up(t, n, k) == t.root && Depth(t, n) == Steps(t, n, k);
    if n != t.root {
      var j: nat :| Up(t, Par(t, n), j) == t.root && Depth(t, Par(t, n)) == Steps(t, Par(t, n), j);
      StepsUnique(t, Par(t, n), k - 1, j);
      assert Steps(t, n, k) == 1 + Steps(t, Par(t, n), k - 1);
    }
  }

  // ---------- ancestry ----------

  lemma AboveStep(t: Tree, a: Node, b: Node)
    ensures Above(t, a, b) <==> a == b || Above(t, a, Par(t, b))
  {
    if a == b {
      assert Up(t, b, 0) == a;
    }
    if Above(t, a, b) && a != b {
      var k: nat :| Up(t, b, k) == a;
      assert Up(t, Par(t, b), k - 1) == a;
    }
    if Above(t, a, Par(t, b)) {
      var k: nat :| Up(t, Par(t, b), k) == a;
      assert Up(t, b, k + 1) == a;
    }
  }

  lemma RootOnTop(t: Tree, a: Node)
    requires Above(t, a, t.root)
    ensures a == t.root
  {
    var k: nat :| Up(t, t.root, k) == a;
    RootUp(t, k);
  }

  lemma {:induction false} RootUp(t: Tree, k: nat)
    ensures Up(t, t.root, k) == t.root
  {
    if k > 0 { RootUp(t, k - 1); }
  }

  /** Ancestors lie strictly higher; so ancestry is antisymmetric. */
  lemma {:induction false} AboveDepth(t: Tree, a: Node, b: Node)
    requires Rooted(t) && Above(t, a, b)
    ensures Depth(t, a) <= Depth(t, b)
    ensures Depth(t, a) == Depth(t, b) ==> a == b
    decreases Depth(t, b)
  {
    AboveStep(t, a, b);
    DepthStep(t, b);
    if a != b {
      if b == t.root { RootOnTop(t, a); } else { AboveDepth(t, a, Par(t, b)); }
    }
  }

  lemma AboveTransitive(t: Tree, a: Node, b: Node, c: Node)
    requires Above(t, a, b) && Above(t, b, c)
    ensures Above(t, a, c)
  {
    var k: nat :| Up(t, c, k) == b;
    AboveUp(t, a, c, k);
  }

  lemma {:induction false} AboveUp(t: Tree, a: Node, c: Node, k: nat)
    requires Above(t, a, Up(t, c, k))
    ensures Above(t, a, c)
    decreases k
  {
    if k > 0 {
      AboveUp(t, a, Par(t, c), k - 1);
      AboveStep(t, a, c);
    }
  }

  /** A node is not above its own parent. */
  lemma ProperParent(t: Tree, x: Node)
    requires Rooted(t) && x != t.root
    ensures !Above(t, x, Par(t, x))
  {
    DepthStep(t, x);
    if Above(t, x, Par(t, x)) { AboveDepth(t, x, Par(t, x)); }
  }

  lemma ParentAbove(t: Tree, x: Node, b: Node)
    ensures Above(t, x, b) ==> Above(t, Par(t, x), b)
  {
    AboveStep(t, Par(t, x), Par(t, x));
    AboveStep(t, Par(t, x), x);
    if Above(t, x, b) { AboveTransitive(t, Par(t, x), x, b); }
  }

  // ---------- d_ancestor and lock_rename ----------

  /** d_ancestor(a, b) in the tree's own terms: the child of a on the way up from b. */
  ghost function ChildToward(t: Tree, a: Node, b: Node): (r: Option<Node>)
    requires Rooted(t)
    decreases Depth(t, b)
  {
    if b == t.root then None
    else if Par(t, b) == a then Some(b)
    else DepthStep(t, b); ChildToward(t, a, Par(t, b))
  }

  /** p is a child of a that is b or above b. */
  ghost predicate IsChildToward(t: Tree, a: Node, b: Node, p: Node) {
    p != t.root && Par(t, p) == a && Above(t, p, b)
  }

  /** What a caller may rely on: the answer is the only child of a that is above b,
      and there is one exactly when a is a proper ancestor of b. */
  lemma {:induction false} ChildTowardMeaning(t: Tree, a: Node, b: Node)
    requires Rooted(t)
    ensures forall p: Node :: ChildToward(t, a, b) == Some(p) <==> IsChildToward(t, a, b, p)
    ensures ChildToward(t, a, b).Some? <==> a != b && Above(t, a, b)
    decreases Depth(t, b)
  {
    DepthStep(t, b);
    AboveStep(t, a, b);
    if b == t.root {
      forall p ensures !IsChildToward(t, a, b, p) {
        if Above(t, p, b) { RootOnTop(t, p); }
      }
      if Above(t, a, b) { RootOnTop(t, a); }
    } else {
      ProperParent(t, b);
      AboveStep(t, b, b);
      AboveStep(t, a, a);
      if Par(t, b) == a {
        forall p | IsChildToward(t, a, b, p) ensures p == b {
          AboveStep(t, p, b);
          ProperParent(t, p);
        }
      } else {
        ChildTowardMeaning(t, a, Par(t, b));
        forall p ensures IsChildToward(t, a, b, p) <==> IsChildToward(t, a, Par(t, b), p) {
          AboveStep(t, p, b);
        }
      }
    }
  }

  /** The loop of d_ancestor. */
  method DAncestor(t: Tree, a: Node, b: Node) returns (r: Option<Node>)
    requires Rooted(t)
    ensures r == ChildToward(t, a, b)
  {
    var p := b;
    while p != t.root
      invariant ChildToward(t, a, p) == ChildToward(t, a, b)
      decreases Depth(t, p)
    {
      DepthStep(t, p);
      if Par(t, p) == a { return Some(p); }
      p := Par(t, p);
    }
    return None;
  }

  /** What lock_rename decides: the two directories in locking order, and the trap. */
  datatype Order = Order(first: Node, second: Node, trap: Option<Node>)

  ghost function LockOrder(t: Tree, p1: Node, p2: Node): (o: Order)
    requires Rooted(t)
  {
    if p1 == p2 then Order(p1, p1, None)
    else if ChildToward(t, p2, p1).Some? then Order(p2, p1, ChildToward(t, p2, p1))
    else Order(p1, p2, ChildToward(t, p1, p2))
  }

  method LockRename(t: Tree, p1: Node, p2: Node) returns (o: Order)
    requires Rooted(t)
    ensures o == LockOrder(t, p1, p2)
  {
    if p1 == p2 { return Order(p1, p1, None); }
    var p := DAncestor(t, p2, p1);
    if p.Some? { return Order(p2, p1, p); }
    p := DAncestor(t, p1, p2);
    return Order(p1, p2, p);
  }

  /** The directory locked second is never above the one locked first. */
  lemma LockOrderTopDown(t: Tree, p1: Node, p2: Node)
    requires Rooted(t) && p1 != p2
    ensures var o := LockOrder(t, p1, p2); {o.first, o.second} == {p1, p2} && !Above(t, o.second, o.first)
  {
    ChildTowardMeaning(t, p2, p1);
    ChildTowardMeaning(t, p1, p2);
    if Above(t, p2, p1) && Above(t, p1, p2) {
      AboveDepth(t, p1, p2);
      AboveDepth(t, p2, p1);
    }
  }

  /** The trap without reference to how it is found: a child of p2 is the trap exactly
      when it is above p1, and a child of p1 exactly when it is above p2. */
  lemma TrapMeaning(t: Tree, p1: Node, p2: Node, x: Node)
    requires Rooted(t) && x != t.root
    ensures Par(t, x) == p2 ==> (LockOrder(t, p1, p2).trap == Some(x) <==> Above(t, x, p1))
    ensures Par(t, x) == p1 ==> (LockOrder(t, p1, p2).trap == Some(x) <==> Above(t, x, p2))
  {
    ProperParent(t, x);
    if p1 != p2 {
      ChildTowardMeaning(t, p2, p1);
      ChildTowardMeaning(t, p1, p2);
      ParentAbove(t, x, p1);
      ParentAbove(t, x, p2);
      LockOrderTopDown(t, p1, p2);
      LockOrderTopDown(t, p2, p1);
      assert IsChildToward(t, p2, p1, x) <==> Par(t, x) == p2 && Above(t, x, p1);
      assert IsChildToward(t, p1, p2, x) <==> Par(t, x) == p1 && Above(t, x, p2);
    }
  }

  // ---------- re-parenting ----------

  /** d_move: x becomes a child of p. */
  function Reparent(t: Tree, x: Node, p: Node): (r: Tree) {
    t.(parent := t.parent[x := p])
  }

  /** d_exchange: x and y swap parents. */
  function Exchange(t: Tree, x: Node, y: Node): (r: Tree) {
    t.(parent := t.parent[x := Par(t, y)][y := Par(t, x)])
  }

  /** Two trees that agree along the first k steps up from b agree on where they lead. */
  lemma {:induction false} UpSame(t: Tree, t': Tree, b: Node, k: nat)
    requires forall j: nat :: j < k ==> Par(t', Up(t, b, j)) == Par(t, Up(t, b, j))
    ensures Up(t', b, k) == Up(t, b, k)
    decreases k
  {
    if k > 0 {
      assert Up(t, b, 0) == b;
      forall j: nat | j < k - 1 ensures Par(t', Up(t, Par(t, b), j)) == Par(t, Up(t, Par(t, b), j)) {
        assert Up(t, b, j + 1) == Up(t, Par(t, b), j);
      }
      UpSame(t, t', Par(t, b), k - 1);
    }
  }

  /** The first time the way up from b meets a. */
  lemma {:induction false} FirstHit(t: Tree, a: Node, b: Node, k: nat) returns (m: nat)
    requires Up(t, b, k) == a
    ensures Up(t, b, m) == a && forall j: nat :: j < m ==> Up(t, b, j) != a
    decreases k
  {
    if j: nat :| j < k && Up(t, b, j) == a {
      m := FirstHit(t, a, b, j);
    } else {
      m := k;
    }
  }

  /** a stays above b when only a, and nodes that are not above b, are re-parented. */
  lemma PathSurvives(t: Tree, t': Tree, a: Node, b: Node)
    requires Above(t, a, b)
    requires forall y :: Par(t', y) == Par(t, y) || y == a || !Above(t, y, b)
    ensures Above(t', a, b)
  {
    var k: nat :| Up(t, b, k) == a;
    var m := FirstHit(t, a, b, k);
    forall j: nat | j < m ensures Par(t', Up(t, b, j)) == Par(t, Up(t, b, j)) {
      assert Above(t, Up(t, b, j), b);
    }
    UpSame(t, t', b, m);
    assert Up(t', b, m) == a;
  }

  /** When no re-parented node is above b, b keeps exactly its ancestors. */
  lemma SameAbove(t: Tree, t': Tree, a: Node, b: Node)
    requires forall y :: Par(t', y) == Par(t, y) || !Above(t, y, b)
    ensures Above(t', a, b) <==> Above(t, a, b)
  {
    forall k: nat ensures Up(t', b, k) == Up(t, b, k) {
      forall j: nat | j < k ensures Par(t', Up(t, b, j)) == Par(t, Up(t, b, j)) {
        assert Above(t, Up(t, b, j), b);
      }
      UpSame(t, t', b, k);
    }
    if Above(t, a, b) { var k: nat :| Up(t, b, k) == a; assert Up(t', b, k) == a; }
    if Above(t', a, b) { var k: nat :| Up(t', b, k) == a; assert Up(t, b, k) == a; }
  }

  /** Moving x under p keeps the tree a tree exactly when x is not above p. */
  lemma ReparentExact(t: Tree, x: Node, p: Node)
    requires Rooted(t) && x != t.root
    ensures Rooted(Reparent(t, x, p)) <==> !Above(t, x, p)
  {
    var t' := Reparent(t, x, p);
    assert forall y :: y != x ==> Par(t', y) == Par(t, y);
    if Above(t, x, p) {
      PathSurvives(t, t', x, p);
      if Rooted(t') { ProperParent(t', x); }
    } else {
      SameAbove(t, t', t.root, p);
      AboveStep(t', t.root, x);
      forall n ensures Above(t', t.root, n) {
        if Above(t, x, n) {
          PathSurvives(t, t', x, n);
          AboveTransitive(t', t.root, x, n);
        } else {
          SameAbove(t, t', t.root, n);
        }
      }
    }
  }

  /** Exchanging x and y keeps the tree a tree exactly when neither is above the
      other's parent. */
  lemma ExchangeExact(t: Tree, x: Node, y: Node)
    requires Rooted(t) && x != t.root && y != t.root && x != y
    ensures Rooted(Exchange(t, x, y)) <==> !Above(t, x, Par(t, y)) && !Above(t, y, Par(t, x))
  {
    var t' := Exchange(t, x, y);
    assert forall z :: z != x && z != y ==> Par(t', z) == Par(t, z);
    ProperParent(t, x);
    ProperParent(t, y);
    if Above(t, x, Par(t, y)) {
      PathSurvives(t, t', x, Par(t, y));
      if Rooted(t') { ProperParent(t', x); }
    } else if Above(t, y, Par(t, x)) {
      PathSurvives(t, t', y, Par(t, x));
      if Rooted(t') { ProperParent(t', y); }
    } else {
      var t1 := Reparent(t, x, Par(t, y));
      ReparentExact(t, x, Par(t, y));
      SameAbove(t, t1, y, Par(t, x));
      ReparentExact(t1, y, Par(t, x));
      assert Reparent(t1, y, Par(t, x)) == t';
    }
  }
}
