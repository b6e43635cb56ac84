/** An open directory: nfs_readdir, its search through the page cache, and seeking. */
module ReaddirFile {
  import opened Readdir

  /** The directory inode: its page cache, and what readers check about its attributes. */
  class Directory {
    const listing: seq<Entry>
    const cap: nat
    var pages: map<nat, Page>
    var attrGencount: nat
    var mappingValid: bool

    /** Every cached page is the one its index calls for. */
    ghost predicate Valid()
      reads this
    {
      && GoodListing(listing) && cap > 0
      && forall p :: p in pages ==> Start(cap, p) <= |listing| && pages[p] == PageAt(listing, cap, Start(cap, p))
    }

    constructor (listing: seq<Entry>, cap: nat)
      requires GoodListing(listing) && cap > 0
      ensures Valid() && this.listing == listing && this.cap == cap
    {
      this.listing, this.cap, pages := listing, cap, map[];
    }

    /** Memory pressure or revalidation may drop any pages. */
    method Evict(gone: set<nat>)
      requires Valid()
      modifies this`pages
      ensures Valid() && pages == old(pages) - gone
    {
      pages := pages - gone;
    }

    /** get_cache_page: a missing page is filled from the cookie the reader arrived with,
        and the pages after it are dropped. */
    method GetCachePage(p: nat, cookie: nat, sizes: nat -> nat) returns (page: Page)
      requires Valid() && Start(cap, p) <= |listing| && cookie == Cookie(listing, Start(cap, p))
      modifies this`pages
      ensures Valid() && page == PageAt(listing, cap, Start(cap, p))
    {
      if p in pages { return pages[p]; }
      page := FillPage(listing, cap, cookie, sizes, Start(cap, p));
      pages := (map q | q in pages && q < p :: pages[q])[p := page];
    }
  }

  class DirFile {
    const dir: Directory
    var fpos: nat
    var dirCookie: nat
    var duped: int
    var dupCookie: nat
    var ctxGencount: nat
    // the readdir descriptor
    var pageIndex: nat
    var currentIndex: nat
    var lastCookie: nat
    var entryIndex: nat
    var eof: bool
    var tick: nat

    constructor (dir: Directory)
      requires dir.Valid()
      ensures Valid() && this.dir == dir && fpos == 0
    {
      this.dir := dir;
      fpos, dirCookie, duped, dupCookie, ctxGencount := 0, 0, 0, 0, 0;
      pageIndex, currentIndex, lastCookie, entryIndex, eof, tick := 0, 0, 0, 0, false, 0;
    }

    /** Either the next entry is known by its cookie, or by its number alone. */
    ghost predicate Valid()
      reads this, dir
    {
      dir.Valid() && (dirCookie == 0 || (fpos <= |dir.listing| && dirCookie == Cookie(dir.listing, fpos)))
    }

    /** The descriptor stands at the start of a page that is not past the next entry. */
    ghost predicate DescValid()
      reads this, dir
    {
      && currentIndex == Start(dir.cap, pageIndex) <= |dir.listing|
      && (pageIndex == 0 || currentIndex < |dir.listing|)
      && lastCookie == Cookie(dir.listing, currentIndex)
      && currentIndex <= fpos
    }

    /** The page holds the next entry, at entryIndex. */
    ghost predicate AtNext()
      reads this, dir
    {
      && currentIndex <= |dir.listing|
      && currentIndex + entryIndex == fpos < PageEnd(dir.listing, dir.cap, currentIndex) <= |dir.listing|
    }

    /** nfs_readdir_search_for_pos */
    method SearchForPos(page: Page) returns (st: Status)
      requires Valid() && DescValid() && page == PageAt(dir.listing, dir.cap, currentIndex) && dirCookie == 0
      modifies this
      ensures Valid() && unchanged(this`fpos, this`currentIndex, this`pageIndex, this`lastCookie)
      ensures st == Found ==> AtNext() && eof == old(eof) && dirCookie == Cookie(dir.listing, fpos)
      ensures st == EAGAIN ==>
        && currentIndex + |page.entries| <= fpos && page.eofIndex < 0
        && eof == old(eof) && dirCookie == 0
      ensures st == EBADCOOKIE ==> eof && fpos >= |dir.listing|
      ensures st != ELOOP
    {
      var diff := fpos - currentIndex;
      if diff < 0 { assert false; }
      if diff >= |page.entries| {
        if page.eofIndex >= 0 {
          eof := true;
          return EBADCOOKIE;
        }
        return EAGAIN;
      }
      dirCookie := page.entries[diff].cookie;
      entryIndex := diff;
      return Found;
    }

    /** nfs_readdir_search_for_cookie.  A stable directory never takes the branch that
        reports a readdir loop. */
    method SearchForCookie(page: Page) returns (st: Status)
      requires Valid() && DescValid() && page == PageAt(dir.listing, dir.cap, currentIndex) && dirCookie != 0
      modifies this
      ensures Valid() && unchanged(this`fpos, this`currentIndex, this`pageIndex, this`lastCookie, this`dirCookie)
      ensures st == Found ==> AtNext() && eof == old(eof)
      ensures st == EAGAIN ==> currentIndex + |page.entries| <= fpos && page.eofIndex < 0 && eof == old(eof)
      ensures st == EBADCOOKIE ==> eof && fpos == |dir.listing|
      ensures st != ELOOP
    {
      var i := 0;
      while i < |page.entries|
        invariant 0 <= i <= |page.entries|
        invariant currentIndex + i <= fpos
      {
        if page.entries[i].cookie == dirCookie {
          CookieUnique(dir.listing, currentIndex + i, fpos);
          var newPos := currentIndex + i;
          if ctxGencount != dir.attrGencount || !dir.mappingValid {
            duped := 0;
            ctxGencount := dir.attrGencount;
          } else if newPos < fpos {
            assert false;
          }
          fpos := newPos;
          entryIndex := i;
          return Found;
        }
        i := i + 1;
      }
      if page.eofIndex >= 0 {
        if dirCookie == page.last { eof := true; }
        return EBADCOOKIE;
      }
      return EAGAIN;
    }

    /** nfs_readdir_search_array */
    method SearchArray(page: Page) returns (st: Status)
      requires Valid() && DescValid() && page == PageAt(dir.listing, dir.cap, currentIndex)
      modifies this
      ensures Valid() && DescValid() && unchanged(this`fpos)
      ensures st == Found ==> AtNext() && currentIndex == old(currentIndex) && eof == old(eof)
      ensures st == EAGAIN ==> currentIndex > old(currentIndex) && eof == old(eof)
      ensures st == EBADCOOKIE ==> eof && fpos >= |dir.listing|
      ensures st != ELOOP
    {
      if dirCookie == 0 {
        st := SearchForPos(page);
      } else {
        st := SearchForCookie(page);
      }
      if st == EAGAIN {
        lastCookie := page.last;
        currentIndex := currentIndex + |page.entries|;
        pageIndex := pageIndex + 1;
      }
    }

    /** find_cache_page; any pages may have been evicted since the last call. */
    method FindCachePage(evict: nat -> set<nat>, sizes: nat -> nat) returns (st: Status, page: Page)
      requires Valid() && DescValid()
      modifies this, dir`pages
      ensures Valid() && DescValid() && unchanged(this`fpos)
      ensures st == Found ==> AtNext() && page == PageAt(dir.listing, dir.cap, currentIndex) && eof == old(eof)
      ensures st == EAGAIN ==> currentIndex > old(currentIndex) && eof == old(eof)
      ensures st == EBADCOOKIE ==> eof && fpos >= |dir.listing|
      ensures st != ELOOP
    {
      tick := tick + 1;
      dir.Evict(evict(tick));
      page := dir.GetCachePage(pageIndex, lastCookie, sizes);
      st := SearchArray(page);
    }

    /** readdir_search_pagecache */
    method SearchPagecache(evict: nat -> set<nat>, sizes: nat -> nat) returns (st: Status, page: Page)
      requires Valid() && DescValid()
      modifies this, dir`pages
      ensures Valid() && DescValid() && unchanged(this`fpos)
      ensures st == Found || st == EBADCOOKIE
      ensures st == Found ==> AtNext() && page == PageAt(dir.listing, dir.cap, currentIndex) && eof == old(eof)
      ensures st == EBADCOOKIE ==> eof && fpos >= |dir.listing|
    {
      if pageIndex == 0 {
        currentIndex, lastCookie := 0, 0;
      }
      st, page := FindCachePage(evict, sizes);
      while st == EAGAIN
        invariant Valid() && DescValid() && fpos == old(fpos)
        invariant st == EAGAIN ==> eof == old(eof)
        invariant st == Found ==> AtNext() && page == PageAt(dir.listing, dir.cap, currentIndex) && eof == old(eof)
        invariant st == EBADCOOKIE ==> eof && fpos >= |dir.listing|
        invariant st != ELOOP
        decreases st == EAGAIN, |dir.listing| - currentIndex
      {
        st, page := FindCachePage(evict, sizes);
      }
    }

    /** One entry of the page goes to the caller. */
    method Emit(page: Page, i: nat) returns (e: Entry)
      requires Valid() && DescValid() && page == PageAt(dir.listing, dir.cap, currentIndex)
      requires i < |page.entries| && fpos == currentIndex + i
      modifies this`fpos, this`dirCookie, this`duped
      ensures Valid() && DescValid() && fpos == old(fpos) + 1 <= |dir.listing| && e == dir.listing[old(fpos)]
    {
      PageEntry(dir.listing, dir.cap, currentIndex, i);
      e := page.entries[i].entry;
      fpos := fpos + 1;
      dirCookie := if i < |page.entries| - 1 then page.entries[i + 1].cookie else page.last;
      if duped != 0 { duped := 1; }
    }

    /** nfs_do_filldir: hand entries over until the page ends or the caller's buffer, with
        room for that many more, is full. */
    method DoFilldir(page: Page, room: nat) returns (out: seq<Entry>)
      requires Valid() && DescValid() && AtNext() && page == PageAt(dir.listing, dir.cap, currentIndex) && !eof
      modifies this
      ensures Valid() && DescValid()
      ensures fpos == old(fpos) + |out| <= |dir.listing| && out == dir.listing[old(fpos)..fpos] && |out| <= room
      ensures eof <==> fpos == |dir.listing| || (|out| == room && fpos < PageEnd(dir.listing, dir.cap, currentIndex))
                       || PageEnd(dir.listing, dir.cap, currentIndex) == |dir.listing|
      ensures !eof ==> |out| > 0
      ensures |out| < room ==> fpos == PageEnd(dir.listing, dir.cap, currentIndex)
    {
      ghost var end := PageEnd(dir.listing, dir.cap, currentIndex);
      out := [];
      var i := entryIndex;
      while i < |page.entries|
        invariant Valid() && DescValid() && old(fpos) <= fpos == currentIndex + i <= end && !eof
        invariant out == dir.listing[old(fpos)..fpos] && |out| <= room
        invariant unchanged(this`currentIndex)
      {
        if |out| == room {
          eof := true;
          break;
        }
        NextSlice(dir.listing, old(fpos), fpos);
        var e := Emit(page, i);
        out := out + [e];
        i := i + 1;
      }
      if page.eofIndex >= 0 { eof := true; }
    }

    /** nfs_readdir: with room for that many entries, exactly the next entries of the
        listing are handed over, none lost and none repeated. */
    method Readdir(room: nat, evict: nat -> set<nat>, sizes: nat -> nat) returns (out: seq<Entry>)
      requires Valid()
      modifies this, dir`pages
      ensures Valid()
      ensures fpos == old(fpos) + |out|
      ensures old(fpos) <= |dir.listing| ==> fpos <= |dir.listing| && out == dir.listing[old(fpos)..fpos]
      ensures old(fpos) > |dir.listing| ==> out == []
      ensures |out| <= room && (|out| < room ==> fpos >= |dir.listing|)
    {
      pageIndex, currentIndex, lastCookie, entryIndex, eof := 0, 0, 0, 0, false;
      out := [];
      var n := |dir.listing|;
      while !eof
        invariant Valid() && DescValid() && fpos == old(fpos) + |out|
        invariant old(fpos) <= n ==> fpos <= n && out == dir.listing[old(fpos)..fpos]
        invariant old(fpos) > n ==> out == []
        invariant |out| <= room
        invariant eof ==> |out| == room || fpos >= n
        decreases !eof, n - fpos
      {
        var st, page := SearchPagecache(evict, sizes);
        if st == EBADCOOKIE {
          if dirCookie != 0 && !eof { assert false; }
          break;
        }
        ghost var at := fpos;
        var more := DoFilldir(page, room - |out|);
        JoinSlices(dir.listing, old(fpos), at, fpos);
        out := out + more;
      }
    }

    /** nfs_llseek_dir; whence is 0 (set) or 1 (relative to the current position). */
    method Llseek(offset: int, whence: int) returns (r: int)
      requires Valid()
      modifies this
      ensures Valid()
      ensures var goal := if whence == 1 then offset + old(fpos) else offset;
        if (whence == 0 || whence == 1) && goal >= 0 then r == goal == fpos else r == -22 && fpos == old(fpos)
    {
      var goal := if whence == 1 then offset + fpos else offset;
      if (whence != 0 && whence != 1) || goal < 0 { return -22; }
      if goal != fpos {
        fpos := goal;
        dirCookie := 0;
        duped := 0;
      }
      return goal;
    }

    /** Any sequence of readdir calls with any buffer sizes emits consecutive entries. */
    method ReadAll(rooms: seq<nat>, evict: nat -> set<nat>, sizes: nat -> nat) returns (out: seq<Entry>)
      requires Valid() && fpos <= |dir.listing|
      modifies this, dir`pages
      ensures Valid() && old(fpos) <= fpos <= |dir.listing| && out == dir.listing[old(fpos)..fpos]
      ensures fpos == |dir.listing| || |out| == Sum(rooms)
    {
      out := [];
      var i := 0;
      assert rooms[..0] == [];
      while i < |rooms|
        invariant 0 <= i <= |rooms| && Valid() && old(fpos) <= fpos <= |dir.listing|
        invariant out == dir.listing[old(fpos)..fpos]
        invariant fpos == |dir.listing| || |out| == Sum(rooms[..i])
      {
        var more := Readdir(rooms[i], evict, sizes);
        out := out + more;
        assert rooms[..i + 1] == rooms[..i] + [rooms[i]];
        SumPush(rooms[..i], rooms[i]);
        i := i + 1;
      }
      assert rooms[..|rooms|] == rooms;
    }
  }

  function Sum(s: seq<nat>): (r: nat) {
    if s == [] then 0 else s[0] + Sum(s[1..])
  }

  /** Entry i of a page, and the cookie that follows it. */
  lemma PageEntry(l: seq<Entry>, cap: nat, s: nat, i: nat)
    requires s <= |l| && i < PageEnd(l, cap, s) - s
    ensures var p := PageAt(l, cap, s);
      && p.entries[i].entry == l[s + i]
      && (if i < |p.entries| - 1 then p.entries[i + 1].cookie else p.last) == Cookie(l, s + i + 1)
  {
  }

  lemma JoinSlices(l: seq<Entry>, a: nat, b: nat, c: nat)
    requires a <= b <= c <= |l|
    ensures l[a..b] + l[b..c] == l[a..c]
  {
  }

  lemma NextSlice(l: seq<Entry>, from: nat, to: nat)
    requires from <= to < |l|
    ensures l[from..to + 1] == l[from..to] + [l[to]]
  {
  }

  lemma {:induction false} SumPush(s: seq<nat>, x: nat)
    ensures Sum(s + [x]) == Sum(s) + x
  {
    if s != [] {
      assert (s + [x])[1..] == s[1..] + [x];
      SumPush(s[1..], x);
    }
  }
}
