/** The readdir page cache of dir.c over a directory that does not change.

    The listing is the server's sequence of entries; each entry carries the cookie
    with which the listing continues after it.  Pages are filled by READDIR replies,
    may be evicted at any moment, and are shared by all open files. */
module Readdir {

  datatype Entry = Entry(cookie: nat, ino: nat, name: string)

  datatype CacheEntry = CacheEntry(cookie: nat, entry: Entry)

  /** struct nfs_cache_array; eofIndex is -1 until the end has been seen. */
  datatype Page = Page(entries: seq<CacheEntry>, last: nat, eofIndex: int)

  datatype Status = Found | EAGAIN | EBADCOOKIE | ELOOP

  ghost predicate GoodListing(l: seq<Entry>) {
    && (forall i :: 0 <= i < |l| ==> l[i].cookie != 0)
    && (forall i, j :: 0 <= i < j < |l| ==> l[i].cookie != l[j].cookie)
  }

  /** The cookie that asks for entry i: zero for the first, else its predecessor's. */
  function Cookie(l: seq<Entry>, i: nat): (c: nat)
    requires i <= |l|
  {
    if i == 0 then 0 else l[i - 1].cookie
  }

  lemma CookieUnique(l: seq<Entry>, i: nat, j: nat)
    requires GoodListing(l) && i <= |l| && j <= |l| && Cookie(l, i) == Cookie(l, j)
    ensures i == j
  {
  }

  // ---------- the server ----------

  /** Where the server resumes for a cookie. */
  function Resume(l: seq<Entry>, cookie: nat): (i: nat)
    ensures i <= |l|
  {
    if l == [] || cookie == 0 then 0
    else if l[|l| - 1].cookie == cookie then |l|
    else Resume(l[..|l| - 1], cookie)
  }

  lemma {:induction false} ResumeAt(l: seq<Entry>, i: nat)
    requires GoodListing(l) && i <= |l|
    ensures Resume(l, Cookie(l, i)) == i
    decreases |l|
  {
    if l != [] && i != 0 && i != |l| {
      var m := l[..|l| - 1];
      assert GoodListing(m) && Cookie(m, i) == Cookie(l, i);
      ResumeAt(m, i);
    }
  }

  /** A READDIR reply: at least one entry unless none is left, and whether it is the end. */
  function Reply(l: seq<Entry>, cookie: nat, batch: nat): (r: (seq<Entry>, bool)) {
    var i := Resume(l, cookie);
    var want := if batch == 0 then 1 else batch;
    var j := if i + want > |l| then |l| else i + want;
    (l[i..j], j == |l|)
  }

  // ---------- pages ----------

  function PageEnd(l: seq<Entry>, cap: nat, s: nat): (e: nat)
    requires s <= |l|
    ensures s <= e <= |l|
  {
    if s + cap > |l| then |l| else s + cap
  }

  function CacheEntries(l: seq<Entry>, s: nat, e: nat): (r: seq<CacheEntry>)
    requires s <= e <= |l|
    ensures |r| == e - s
    ensures forall k :: 0 <= k < e - s ==> r[k] == CacheEntry(Cookie(l, s + k), l[s + k])
  {
    seq(e - s, k requires 0 <= k < e - s => CacheEntry(Cookie(l, s + k), l[s + k]))
  }

  /** What a page that starts at entry s must hold: the entries that fit, the cookie to
      go on with, and the end mark exactly when the listing ends here. */
  function PageAt(l: seq<Entry>, cap: nat, s: nat): (p: Page)
    requires s <= |l|
  {
    var e := PageEnd(l, cap, s);
    Page(CacheEntries(l, s, e), if e == s then 0 else l[e - 1].cookie, if e == |l| then e - s else -1)
  }

  /** The first entry of page p. */
  function Start(cap: nat, p: nat): (s: nat) {
    if p == 0 then 0 else Start(cap, p - 1) + cap
  }

  lemma OneMore(l: seq<Entry>, s: nat, e: nat)
    requires s <= e < |l|
    ensures CacheEntries(l, s, e + 1) == CacheEntries(l, s, e) + [CacheEntry(Cookie(l, e), l[e])]
  {
  }

  /** The page so far: entries s to e, and the cookie of the last of them. */
  ghost predicate Filled(l: seq<Entry>, cap: nat, s: nat, e: nat, entries: seq<CacheEntry>, last: nat, at: nat) {
    && s <= e <= |l| && e - s <= cap && at == Cookie(l, e)
    && entries == CacheEntries(l, s, e) && last == (if e == s then 0 else l[e - 1].cookie)
  }

  /** nfs_readdir_page_filler: one reply goes into the page until it is full. */
  method PageFiller(l: seq<Entry>, cap: nat, batch: seq<Entry>, entries0: seq<CacheEntry>, last0: nat, at0: nat,
                    ghost s: nat, ghost from: nat)
    returns (entries: seq<CacheEntry>, last: nat, at: nat, full: bool)
    requires Filled(l, cap, s, from, entries0, last0, at0)
    requires from + |batch| <= |l| && batch == l[from..from + |batch|]
    ensures Filled(l, cap, s, s + |entries|, entries, last, at) && from <= s + |entries| <= from + |batch|
    ensures full ==> |entries| == cap && s + |entries| < from + |batch|
    ensures !full ==> s + |entries| == from + |batch|
  {
    entries, last, at, full := entries0, last0, at0, false;
    ghost var e := from;
    var i := 0;
    while i < |batch| && !full
      invariant 0 <= i <= |batch| && e == from + i && Filled(l, cap, s, e, entries, last, at)
      invariant full ==> e - s == cap && i < |batch|
      decreases |batch| - i, !full
    {
      if |entries| == cap {
        full := true;
      } else {
        OneMore(l, s, e);
        entries := entries + [CacheEntry(at, batch[i])];
        at := batch[i].cookie;
        last := at;
        e := e + 1;
        i := i + 1;
      }
    }
  }

  /** nfs_readdir_xdr_to_array: READDIR calls until the page is full or the end is seen.
      sizes gives the length of each reply. */
  method FillPage(l: seq<Entry>, cap: nat, cookie: nat, sizes: nat -> nat, ghost s: nat) returns (page: Page)
    requires GoodListing(l) && cap > 0 && s <= |l| && cookie == Cookie(l, s)
    ensures page == PageAt(l, cap, s)
  {
    var entries: seq<CacheEntry>, last, eofIndex := [], 0, -1;
    var at, call, full := cookie, 0, false;
    ghost var e := s;
    while eofIndex < 0 && !full
      invariant Filled(l, cap, s, e, entries, last, at)
      invariant eofIndex == -1 || (eofIndex == e - s && e == |l|)
      invariant full ==> e - s == cap && e < |l| && eofIndex == -1
      decreases |l| - e, eofIndex < 0 && !full
    {
      ResumeAt(l, e);
      var (batch, eof) := Reply(l, at, sizes(call));
      call := call + 1;
      entries, last, at, full := PageFiller(l, cap, batch, entries, last, at, s, e);
      e := s + |entries|;
      if !full && eof { eofIndex := |entries|; }
    }
    page := Page(entries, last, eofIndex);
  }
}
