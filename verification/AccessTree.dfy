/** The search tree of access-cache entries, ordered by credential.  Rebalancing is not
    modelled: any ordered tree will do. */
module AccessTree {
  import opened Common

  type Cred = nat

  /** addr tells apart two entries made for the same credential. */
  datatype Entry = Entry(addr: nat, cred: Cred, jiffies: nat, mask: nat)

  datatype Tree = Leaf | Node(left: Tree, entry: Entry, right: Tree)

  ghost function Creds(t: Tree): (r: set<Cred>) {
    match t
    case Leaf => {}
    case Node(l, e, r) => Creds(l) + {e.cred} + Creds(r)
  }

  ghost predicate Ordered(t: Tree) {
    match t
    case Leaf => true
    case Node(l, e, r) =>
      && Ordered(l) && Ordered(r)
      && (forall c :: c in Creds(l) ==> c < e.cred) && (forall c :: c in Creds(r) ==> e.cred < c)
  }

  /** What the tree holds for a credential. */
  function Lookup(t: Tree, c: Cred): (r: Option<Entry>)
    ensures r.Some? ==> r.value.cred == c
  {
    match t
    case Leaf => None
    case Node(l, e, r) => if c < e.cred then Lookup(l, c) else if c > e.cred then Lookup(r, c) else Some(e)
  }

  lemma {:induction false} LookupCreds(t: Tree, c: Cred)
    requires Ordered(t)
    ensures Lookup(t, c).Some? <==> c in Creds(t)
  {
    match t {
      case Leaf =>
      case Node(l, e, r) => LookupCreds(l, c); LookupCreds(r, c);
    }
  }

  /** nfs_access_search_rbtree */
  method Search(root: Tree, c: Cred) returns (r: Option<Entry>)
    ensures r == Lookup(root, c)
  {
    var n := root;
    while n != Leaf
      invariant Lookup(n, c) == Lookup(root, c)
      decreases n
    {
      if c < n.entry.cred {
        n := n.left;
      } else if c > n.entry.cred {
        n := n.right;
      } else {
        return Some(n.entry);
      }
    }
    return None;
  }

  /** The descent of nfs_access_add_rbtree: link a new node, or replace the one found. */
  function Insert(t: Tree, e: Entry): (r: Tree) {
    match t
    case Leaf => Node(Leaf, e, Leaf)
    case Node(l, f, r) =>
      if e.cred < f.cred then Node(Insert(l, e), f, r)
      else if e.cred > f.cred then Node(l, f, Insert(r, e))
      else Node(l, e, r)
  }

  lemma {:induction false} InsertOrdered(t: Tree, e: Entry)
    requires Ordered(t)
    ensures Ordered(Insert(t, e)) && Creds(Insert(t, e)) == Creds(t) + {e.cred}
  {
    match t {
      case Leaf =>
      case Node(l, f, r) => InsertOrdered(l, e); InsertOrdered(r, e);
    }
  }

  lemma {:induction false} LookupInsert(t: Tree, e: Entry, c: Cred)
    ensures Lookup(Insert(t, e), c) == if c == e.cred then Some(e) else Lookup(t, c)
  {
    match t {
      case Leaf =>
      case Node(l, f, r) => LookupInsert(l, e, c); LookupInsert(r, e, c);
    }
  }

  /** rb_first */
  function First(t: Tree): (e: Entry)
    requires t != Leaf
  {
    if t.left == Leaf then t.entry else First(t.left)
  }

  lemma {:induction false} FirstIsLeast(t: Tree)
    requires Ordered(t) && t != Leaf
    ensures First(t).cred in Creds(t) && (forall c :: c in Creds(t) ==> First(t).cred <= c)
    ensures Lookup(t, First(t).cred) == Some(First(t))
  {
    if t.left != Leaf { FirstIsLeast(t.left); }
  }

  /** rb_erase, by credential */
  function Erase(t: Tree, c: Cred): (r: Tree) {
    match t
    case Leaf => Leaf
    case Node(l, e, r) =>
      if c < e.cred then Node(Erase(l, c), e, r)
      else if c > e.cred then Node(l, e, Erase(r, c))
      else if r == Leaf then l
      else Node(l, First(r), Erase(r, First(r).cred))
  }

  lemma {:induction false} EraseOrdered(t: Tree, c: Cred)
    requires Ordered(t)
    ensures Ordered(Erase(t, c)) && Creds(Erase(t, c)) == Creds(t) - {c}
  {
    match t {
      case Leaf =>
      case Node(l, e, r) =>
        if c < e.cred {
          EraseOrdered(l, c);
        } else if c > e.cred {
          EraseOrdered(r, c);
        } else if r != Leaf {
          var least := First(r).cred;
          FirstIsLeast(r);
          EraseOrdered(r, least);
          assert Creds(t) == Creds(l) + {e.cred} + Creds(r);
          assert Creds(Erase(t, c)) == Creds(l) + {least} + (Creds(r) - {least});
        }
    }
  }

  lemma {:induction false} LookupErase(t: Tree, c: Cred, d: Cred)
    requires Ordered(t)
    ensures Lookup(Erase(t, c), d) == if d == c then None else Lookup(t, d)
  {
    match t {
      case Leaf =>
      case Node(l, e, r) =>
        LookupErase(l, c, d);
        LookupErase(r, c, d);
        LookupCreds(l, d);
        if c == e.cred && r != Leaf {
          FirstIsLeast(r);
          LookupErase(r, First(r).cred, d);
          LookupCreds(r, d);
        }
    }
  }
}
