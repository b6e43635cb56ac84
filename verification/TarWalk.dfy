/** Walking the headers of a tar archive: by byte offset over tfs_read_block
    (tarFS/pbelousov), and by block index over 512-byte blocks (tarFS/ksaltuk). */
module TarWalk {
  import opened Common
  import opened TarReader

  const BLOCK: nat := 512
  const SIZE_OFFSET: nat := 124

  type Header = h: seq<byte> | |h| == BLOCK witness seq(BLOCK, i => 0)

  // ---------- the size field ----------

  predicate OctalDigit(b: byte) { 48 <= b <= 55 }

  function Digit(b: byte): (d: int) { b as int - 48 }

  /** get_tar_octal_field: sscanf with a leading zero reads digits while there are any. */
  function ScanOctal(s: seq<byte>, n: nat): (r: nat)
    decreases |s|
  {
    if s == [] || !OctalDigit(s[0]) then n else ScanOctal(s[1..], n * 8 + Digit(s[0]))
  }

  /** The digit loop of read_octal_int, which stops only at a space or NUL. */
  function OctalUpTo(s: seq<byte>, n: int): (r: int)
    decreases |s|
  {
    if s == [] || s[0] == 32 || s[0] == 0 then n else OctalUpTo(s[1..], n * 8 + Digit(s[0]))
  }

  method ReadOctalInt(data: seq<byte>) returns (n: int)
    ensures n == OctalUpTo(data, 0)
  {
    n := 0;
    var i := 0;
    assert data[0..] == data;
    while i < |data| && data[i] != 32 && data[i] != 0
      invariant 0 <= i <= |data| && OctalUpTo(data[i..], n) == OctalUpTo(data, 0)
    {
      assert data[i..][1..] == data[i + 1..] && data[i..][0] == data[i];
      n := n * 8 + Digit(data[i]);
      i := i + 1;
    }
    if i < |data| { assert data[i..][0] == data[i]; }
  }

  /** Octal digits ended by NUL, k of them. */
  ghost predicate GoodField(s: seq<byte>, k: nat) {
    k < |s| && s[k] == 0 && forall i :: 0 <= i < k ==> OctalDigit(s[i])
  }

  lemma {:induction false} ScansAgree(s: seq<byte>, k: nat, n: nat)
    requires GoodField(s, k)
    ensures ScanOctal(s, n) == OctalUpTo(s, n)
    decreases k
  {
    if k > 0 {
      assert s[0] in s;
      ScansAgree(s[1..], k - 1, n * 8 + Digit(s[0]));
    }
  }

  function SizeField(h: Header): (s: seq<byte>) { h[SIZE_OFFSET..SIZE_OFFSET + 12] }

  function FileSize(h: Header): (n: nat) { ScanOctal(SizeField(h), 0) }

  /** The largest number that k more octal digits can make of n. */
  function Sevens(n: nat, k: nat): (m: nat)
    ensures n <= m
    decreases k
  {
    if k == 0 then n else Sevens(8 * n + 7, k - 1)
  }

  lemma {:induction false} ScanBound(s: seq<byte>, n: nat, m: nat)
    requires n <= m
    ensures ScanOctal(s, n) <= Sevens(m, |s|)
    decreases |s|
  {
    if s != [] && OctalDigit(s[0]) { ScanBound(s[1..], n * 8 + Digit(s[0]), 8 * m + 7); }
  }

  lemma TwelveSevens()
    ensures Sevens(0, 12) == 0xf_ffff_ffff
  {
    assert Sevens(0xff_ffff, 4) == 0xf_ffff_ffff;
    assert Sevens(0xfff, 8) == Sevens(0xff_ffff, 4);
    assert Sevens(0, 12) == Sevens(0xfff, 8);
  }

  /** Twelve digits stay far below the width of an offset. */
  lemma FileSizeFits(h: Header)
    ensures FileSize(h) < 0x10_0000_0000
  {
    var zero: nat := 0;
    ScanBound(SizeField(h), zero, zero);
    TwelveSevens();
  }

  function Pow8(k: nat): (n: nat) { if k == 0 then 1 else 8 * Pow8(k - 1) }

  /** The number that k digits stand for: each digit times its power of eight.  The character
      '0' is 48. */
  function Positional(s: seq<byte>, k: nat): (n: int)
    requires k <= |s|
  {
    if k == 0 then 0 else (s[0] as int - 48) * Pow8(k - 1) + Positional(s[1..], k - 1)
  }

  lemma Shift(n: int, d: int, p: int)
    ensures (n * 8 + d) * p == n * (8 * p) + d * p
  {
  }

  lemma {:induction false} ScanIsPositional(s: seq<byte>, k: nat, n: nat)
    requires GoodField(s, k)
    ensures ScanOctal(s, n) == n * Pow8(k) + Positional(s, k)
    decreases k
  {
    if k > 0 {
      assert s[0] in s;
      ScanIsPositional(s[1..], k - 1, n * 8 + Digit(s[0]));
      Shift(n, Digit(s[0]), Pow8(k - 1));
    }
  }

  /** The size of a file is the octal number in bytes 124 to 135 of its header. */
  lemma FileSizeMeaning(h: Header, k: nat)
    requires GoodField(h[124..136], k)
    ensures FileSize(h) == Positional(h[124..136], k)
  {
    ScanIsPositional(h[124..136], k, 0);
  }

  // ---------- rounding ----------

  /** get_header's rounding: to a whole number of blocks */
  function RoundUp(n: nat): (r: nat) {
    if n != 0 && n % BLOCK != 0 then n + (BLOCK - n % BLOCK) else n
  }

  /** The conversion of unsigned long to int that passing a size to get_blocks_count does. */
  function ToInt(n: int): (r: int) {
    var m := n % 0x1_0000_0000;
    if m < 0x8000_0000 then m else m - 0x1_0000_0000
  }

  /** get_blocks_count, with C's division, which truncates towards zero */
  function BlocksCount(bytes: int): (n: int) {
    var q := if bytes >= 0 then bytes / BLOCK else -(-bytes / BLOCK);
    if bytes % BLOCK != 0 then q + 1 else q
  }

  /** Both drivers skip the same number of blocks exactly when the size is below 2 GiB. */
  lemma SameSkipIff(size: nat)
    ensures BlocksCount(ToInt(size)) * BLOCK == RoundUp(size) <==> size < 0x8000_0000
  {
  }

  lemma RoundUpIsWhole(n: nat)
    ensures RoundUp(n) % BLOCK == 0 && n <= RoundUp(n) < n + BLOCK
  {
  }

  // ---------- the byte-offset walk ----------

  /** The whole header at an offset, if the device has it. */
  ghost function HeaderAt(data: seq<byte>, off: nat): (h: Option<Header>) {
    if off + BLOCK <= |data| then Some(data[off..off + BLOCK]) else None
  }

  /** A header and where it lies. */
  datatype Member = Member(off: nat, h: Header)

  /** All headers from off on. */
  ghost function Headers(data: seq<byte>, off: nat): (r: seq<Member>)
    decreases |data| - off
  {
    match HeaderAt(data, off)
    case None => []
    case Some(h) => [Member(off, h)] + Headers(data, off + RoundUp(FileSize(h)) + BLOCK)
  }

  /** The header at an offset as far as the device can read it. */
  ghost function HeaderOn(d: Device, off: nat): (h: Option<Header>)
    requires d.blockSize > 0
  {
    if Readable(d, off, BLOCK) then HeaderAt(d.data, off) else None
  }

  ghost function HeadersOn(d: Device, off: nat): (r: seq<Member>)
    requires d.blockSize > 0
    decreases |d.data| - off
  {
    match HeaderOn(d, off)
    case None => []
    case Some(h) => [Member(off, h)] + HeadersOn(d, off + RoundUp(FileSize(h)) + BLOCK)
  }

  /** Headers lie on block boundaries, so none straddles two blocks of 512 bytes. */
  lemma {:induction false} HeadersAligned(data: seq<byte>, off: nat)
    requires off % BLOCK == 0
    ensures forall m :: m in Headers(data, off) ==> m.off % BLOCK == 0
    decreases |data| - off
  {
    match HeaderAt(data, off)
    case None =>
    case Some(h) =>
      RoundUpIsWhole(FileSize(h));
      HeadersAligned(data, off + RoundUp(FileSize(h)) + BLOCK);
  }

  /** struct header_pos */
  class HeaderPos {
    var offset: nat
    var offsetNextHeader: nat
    var num: nat

    constructor ()
      ensures offset == 0 && offsetNextHeader == 0 && num == 0
    {
      offset, offsetNextHeader, num := 0, 0, 0;
    }

    /** get_header; 0 when a header was read, 1 at the end of the archive */
    method GetHeader(d: Device, buf: array<byte>) returns (r: int)
      requires Addressable(d) && buf.Length == BLOCK && offsetNextHeader < U64
      modifies this, buf
      ensures offsetNextHeader < U64
      ensures r == 0 || r == 1
      ensures r == 0 <==> HeaderOn(d, old(offsetNextHeader)).Some?
      ensures r == 1 ==> unchanged(this)
      ensures r == 0 ==>
        && offset + BLOCK <= |d.data|
        && HeaderOn(d, old(offsetNextHeader)) == Some(buf[..])
        && offset == old(offsetNextHeader) && num == old(num) + 1
        && offsetNextHeader == offset + RoundUp(FileSize(buf[..])) + BLOCK
    {
      var n, overrun := ReadBlock(d, buf, BLOCK, offsetNextHeader);
      if n < BLOCK {
        return 1;
      }
      assert buf[..n] == buf[..];
      var fileSize := FileSize(buf[..]);
      FileSizeFits(buf[..]);
      if fileSize != 0 && fileSize % BLOCK != 0 {
        fileSize := fileSize + (BLOCK - fileSize % BLOCK);
      }
      offset := offsetNextHeader;
      offsetNextHeader := offsetNextHeader + fileSize + BLOCK;
      num := num + 1;
      return 0;
    }
  }

  lemma WholeBlocks(n: nat, bs: nat)
    requires bs > 0 && n % bs == 0
    ensures n / bs * bs == n && n / bs >= 0
  {
  }

  lemma BlockInside(b: nat, off: nat, size: nat, total: nat, bs: nat)
    requires bs > 0 && size > 0 && off + size <= total && total % bs == 0 && b <= (off + size - 1) / bs
    ensures (b + 1) * bs <= total
  {
    BlocksOfRange(off, size, bs);
    WholeBlocks(total, bs);
    var last := (off + size - 1) / bs;
    BlockStrict(last, total / bs, bs);
    BlockOrder(b + 1, total / bs, bs);
  }

  /** A device of whole blocks with no bad one reads every header that lies on it. */
  lemma {:induction false} GoodDevice(d: Device, off: nat)
    requires d.blockSize > 0 && d.missing == {} && |d.data| % d.blockSize == 0
    ensures HeadersOn(d, off) == Headers(d.data, off)
    decreases |d.data| - off
  {
    if off + BLOCK <= |d.data| {
      forall b: nat | off / d.blockSize <= b <= (off + BLOCK - 1) / d.blockSize
        ensures Bread(d, b).Some? {
        BlockInside(b, off, BLOCK, |d.data|, d.blockSize);
      }
      GoodDevice(d, off + RoundUp(FileSize(HeaderAt(d.data, off).value)) + BLOCK);
    }
  }

  /** Index of the first header that matches, |ms| if none does. */
  ghost function FirstMatch(ms: seq<Member>, hit: Header -> bool): (k: nat)
    ensures k <= |ms|
  {
    if ms == [] || hit(ms[0].h) then 0 else 1 + FirstMatch(ms[1..], hit)
  }

  /** The search with num headers behind it: number and data offset of the header found. */
  ghost function SeekIn(ms: seq<Member>, num: nat, hit: Header -> bool): (r: Option<(nat, nat)>) {
    if ms == [] then None
    else if hit(ms[0].h) then Some((num + 1, ms[0].off + BLOCK))
    else SeekIn(ms[1..], num + 1, hit)
  }

  /** What is found is the first matching header of all, if there is one. */
  lemma {:induction false} SeekMeaning(ms: seq<Member>, num: nat, hit: Header -> bool)
    ensures var k := FirstMatch(ms, hit);
      SeekIn(ms, num, hit) == if k < |ms| then Some((num + k + 1, ms[k].off + BLOCK)) else None
  {
    if ms != [] && !hit(ms[0].h) { SeekMeaning(ms[1..], num + 1, hit); }
  }

  lemma SeekOn(d: Device, off: nat, num: nat, hit: Header -> bool, h: Header)
    requires d.blockSize > 0 && HeaderOn(d, off) == Some(h)
    ensures var next := off + RoundUp(FileSize(h)) + BLOCK;
      SeekIn(HeadersOn(d, off), num, hit)
        == if hit(h) then Some((num + 1, off + BLOCK)) else SeekIn(HeadersOn(d, next), num + 1, hit)
  {
    assert HeadersOn(d, off)[1..] == HeadersOn(d, off + RoundUp(FileSize(h)) + BLOCK);
  }

  /** One turn of seek_header, which is to find goal. */
  method SeekTurn(d: Device, pos: HeaderPos, buf: array<byte>, hit: Header -> bool, ghost goal: Option<(nat, nat)>)
    returns (more: bool, found: bool)
    requires Addressable(d) && buf.Length == BLOCK && pos.offsetNextHeader < U64
    requires SeekIn(HeadersOn(d, pos.offsetNextHeader), pos.num, hit) == goal
    modifies pos, buf
    ensures pos.offsetNextHeader < U64
    ensures more ==>
      && old(pos.offsetNextHeader) < pos.offsetNextHeader && old(pos.offsetNextHeader) < |d.data|
      && SeekIn(HeadersOn(d, pos.offsetNextHeader), pos.num, hit) == goal
    ensures !more ==> goal == if found then Some((pos.num, pos.offset + BLOCK)) else None
  {
    var r := pos.GetHeader(d, buf);
    if r == 1 { return false, false; }
    SeekOn(d, pos.offset, pos.num - 1, hit, buf[..]);
    found := hit(buf[..]);
    more := !found;
  }

  /** seek_header: the first header whose name matches; it ends on every finite device. */
  method SeekHeader(d: Device, hit: Header -> bool) returns (found: bool, number: nat, startByte: nat)
    requires Addressable(d)
    ensures SeekIn(HeadersOn(d, 0), 0, hit) == if found then Some((number, startByte)) else None
  {
    var pos := new HeaderPos();
    var buf := new byte[BLOCK];
    ghost var goal := SeekIn(HeadersOn(d, 0), 0, hit);
    var more := true;
    found := false;
    while more
      invariant fresh(pos) && fresh(buf) && pos.offsetNextHeader < U64
      invariant more ==> SeekIn(HeadersOn(d, pos.offsetNextHeader), pos.num, hit) == goal
      invariant !more ==> goal == if found then Some((pos.num, pos.offset + BLOCK)) else None
      decreases more, |d.data| - pos.offsetNextHeader
    {
      more, found := SeekTurn(d, pos, buf, hit, goal);
    }
    return found, pos.num, pos.offset + BLOCK;
  }

  // ---------- the block-index walk ----------

  /** How many blocks the block walk skips after a header. */
  function Skip(h: Header): (n: int) { BlocksCount(ToInt(OctalUpTo(SizeField(h), 0))) }

  /** The headers create_inode_by_name visits from block i on when no name matches: up to the
      first that is empty, that is not on the device, or that does not lead forwards. */
  ghost function BlockWalk(blocks: seq<Header>, i: nat): (r: seq<nat>)
    decreases |blocks| - i
  {
    if i >= |blocks| || blocks[i][0] == 0 then []
    else if Skip(blocks[i]) >= 0 then [i] + BlockWalk(blocks, i + Skip(blocks[i]) + 1)
    else [i]
  }

  /** No header of the walk from block i on sends it backwards. */
  ghost predicate NeverBack(blocks: seq<Header>, i: nat)
    decreases |blocks| - i
  {
    i >= |blocks| || blocks[i][0] == 0 || (Skip(blocks[i]) >= 0 && NeverBack(blocks, i + Skip(blocks[i]) + 1))
  }

  /** The first of the blocks in w whose header matches. */
  ghost function FirstBlock(blocks: seq<Header>, w: seq<nat>, hit: Header -> bool): (b: Option<nat>) {
    if w == [] then None
    else if w[0] < |blocks| && hit(blocks[w[0]]) then Some(w[0])
    else FirstBlock(blocks, w[1..], hit)
  }

  /** read_octal_int and get_blocks_count on a header, as the loop calls them */
  method GetBlocksCount(h: Header) returns (n: int)
    ensures n == Skip(h)
  {
    var size := ReadOctalInt(SizeField(h));
    n := BlocksCount(ToInt(size));
  }

  /** Where the search stands: at a block, or done.  A block that is not on the device makes
      sb_bread return NULL, which the source follows. */
  datatype Search = At(i: int) | Found(block: nat) | NotFound | Fault

  /** One turn of the loop. */
  function Turn(blocks: seq<Header>, hit: Header -> bool, skip: Header -> int, s: Search): (r: Search) {
    match s
    case At(i) =>
      if i < 0 || i >= |blocks| then Fault
      else if blocks[i][0] == 0 then NotFound
      else if hit(blocks[i]) then Found(i)
      else At(i + skip(blocks[i]) + 1)
    case _ => s
  }

  function After(blocks: seq<Header>, hit: Header -> bool, skip: Header -> int, n: nat): (r: Search) {
    if n == 0 then At(0) else Turn(blocks, hit, skip, After(blocks, hit, skip, n - 1))
  }

  ghost predicate Endless(blocks: seq<Header>, hit: Header -> bool, skip: Header -> int) {
    forall n: nat :: After(blocks, hit, skip, n).At?
  }

  /** The search that stands where it stood before goes round for ever. */
  lemma {:induction false} Repeats(blocks: seq<Header>, hit: Header -> bool, skip: Header -> int,
                                   m: nat, n: nat, k: nat)
    requires m < n && After(blocks, hit, skip, m) == After(blocks, hit, skip, n)
    ensures After(blocks, hit, skip, m + k) == After(blocks, hit, skip, n + k)
  {
    if k > 0 {
      Repeats(blocks, hit, skip, m, n, k - 1);
      OneMore(blocks, hit, skip, m + k - 1);
      OneMore(blocks, hit, skip, n + k - 1);
    }
  }

  lemma {:induction false} GoesOn(blocks: seq<Header>, hit: Header -> bool, skip: Header -> int, n: nat, k: nat)
    requires After(blocks, hit, skip, n).At? && k <= n
    ensures After(blocks, hit, skip, k).At?
    decreases n - k
  {
    if k < n { GoesOn(blocks, hit, skip, n, k + 1); }
  }

  lemma {:induction false} RoundAndRound(blocks: seq<Header>, hit: Header -> bool, skip: Header -> int,
                                         m: nat, n: nat, k: nat)
    requires m < n && After(blocks, hit, skip, m) == After(blocks, hit, skip, n) && After(blocks, hit, skip, n).At?
    ensures After(blocks, hit, skip, k).At?
  {
    if k <= n {
      GoesOn(blocks, hit, skip, n, k);
    } else {
      Repeats(blocks, hit, skip, m, n, k - n);
      RoundAndRound(blocks, hit, skip, m, n, m + (k - n));
    }
  }

  lemma NeverEnds(blocks: seq<Header>, hit: Header -> bool, skip: Header -> int, m: nat, n: nat)
    requires m < n && After(blocks, hit, skip, m) == After(blocks, hit, skip, n) && After(blocks, hit, skip, n).At?
    ensures Endless(blocks, hit, skip)
  {
    forall k: nat ensures After(blocks, hit, skip, k).At? { RoundAndRound(blocks, hit, skip, m, n, k); }
  }

  lemma OneMore(blocks: seq<Header>, hit: Header -> bool, skip: Header -> int, n: nat)
    ensures After(blocks, hit, skip, n + 1) == Turn(blocks, hit, skip, After(blocks, hit, skip, n))
  {
  }

  lemma {:induction false} Bounded(s: set<nat>, n: nat)
    requires forall i :: i in s ==> i < n
    ensures |s| <= n
  {
    if n > 0 { Bounded(s - {n - 1}, n - 1); }
  }

  /** Step k of the search stands at block trail[k]. */
  ghost predicate Trail(blocks: seq<Header>, hit: Header -> bool, skip: Header -> int, trail: seq<nat>) {
    forall k :: 0 <= k < |trail| ==> trail[k] < |blocks| && After(blocks, hit, skip, k) == At(trail[k])
  }

  lemma TrailOn(blocks: seq<Header>, hit: Header -> bool, skip: Header -> int, trail: seq<nat>, i: nat)
    requires Trail(blocks, hit, skip, trail) && i < |blocks| && After(blocks, hit, skip, |trail|) == At(i)
    requires blocks[i][0] != 0 && !hit(blocks[i])
    ensures Trail(blocks, hit, skip, trail + [i])
    ensures After(blocks, hit, skip, |trail| + 1) == At(i + skip(blocks[i]) + 1)
  {
  }

  lemma TrailRepeats(blocks: seq<Header>, hit: Header -> bool, skip: Header -> int, trail: seq<nat>, i: nat)
    requires Trail(blocks, hit, skip, trail) && i in trail && After(blocks, hit, skip, |trail|) == At(i)
    ensures Endless(blocks, hit, skip)
  {
    var k :| 0 <= k < |trail| && trail[k] == i;
    NeverEnds(blocks, hit, skip, k, |trail|);
  }

  /** The search of create_inode_by_name on any archive: its result, or At when it would
      never end.  The set of blocks seen, which the source does not keep, is there to notice
      that. */
  method CreateInodeByName(blocks: seq<Header>, hit: Header -> bool) returns (r: Search)
    ensures r.At? <==> Endless(blocks, hit, Skip)
    ensures !r.At? ==> exists n: nat :: After(blocks, hit, Skip, n) == r
  {
    var i: int, seen: set<nat> := 0, {};
    ghost var trail: seq<nat> := [];
    while 0 <= i < |blocks| && i !in seen
      invariant Trail(blocks, hit, Skip, trail) && After(blocks, hit, Skip, |trail|) == At(i)
      invariant |seen| == |trail| && forall b :: b in seen <==> b in trail
      decreases |blocks| - |seen|
    {
      if blocks[i][0] == 0 || hit(blocks[i]) {
        OneMore(blocks, hit, Skip, |trail|);
        return if blocks[i][0] == 0 then NotFound else Found(i);
      }
      TrailOn(blocks, hit, Skip, trail, i);
      seen, trail := seen + {i}, trail + [i];
      Bounded(seen, |blocks|);
      var skip := GetBlocksCount(blocks[i]);
      i := i + skip + 1;
    }
    if i < 0 || i >= |blocks| {
      OneMore(blocks, hit, Skip, |trail|);
      return Fault;
    }
    TrailRepeats(blocks, hit, Skip, trail, i);
    return At(i);
  }

  /** The walk from a header that leads forwards, one block at a time. */
  lemma WalkCons(blocks: seq<Header>, i: nat, hit: Header -> bool)
    requires i < |blocks| && blocks[i][0] != 0 && Skip(blocks[i]) >= 0
    ensures FirstBlock(blocks, BlockWalk(blocks, i), hit) ==
      if hit(blocks[i]) then Some(i) else FirstBlock(blocks, BlockWalk(blocks, i + Skip(blocks[i]) + 1), hit)
  {
    assert BlockWalk(blocks, i)[1..] == BlockWalk(blocks, i + Skip(blocks[i]) + 1);
  }

  /** s is how the search from block i on ends when no header leads backwards: with the first
      match of the walk if there is one. */
  ghost predicate Resolves(blocks: seq<Header>, hit: Header -> bool, i: nat, s: Search) {
    var b := FirstBlock(blocks, BlockWalk(blocks, i), hit);
    if b.Some? then s == Found(b.value) else s == NotFound || s == Fault
  }

  /** One turn: it ends the search, or leaves the same to be found from the next block on. */
  lemma ForwardTurn(blocks: seq<Header>, hit: Header -> bool, i: nat) returns (next: nat)
    requires NeverBack(blocks, i)
    ensures var s := Turn(blocks, hit, Skip, At(i));
      if s.At? then
        && s == At(next) && i < next && i < |blocks| && NeverBack(blocks, next)
        && forall r :: Resolves(blocks, hit, next, r) ==> Resolves(blocks, hit, i, r)
      else Resolves(blocks, hit, i, s)
  {
    next := i;
    if i < |blocks| && blocks[i][0] != 0 {
      WalkCons(blocks, i, hit);
      next := i + Skip(blocks[i]) + 1;
    }
  }

  /** When no header leads backwards the search ends, with the first match of the walk if
      there is one. */
  lemma {:induction false} ForwardSearchEnds(blocks: seq<Header>, hit: Header -> bool, i: nat, n: nat) returns (m: nat)
    requires NeverBack(blocks, i) && After(blocks, hit, Skip, n) == At(i)
    ensures Resolves(blocks, hit, i, After(blocks, hit, Skip, m))
    decreases |blocks| - i
  {
    OneMore(blocks, hit, Skip, n);
    var next := ForwardTurn(blocks, hit, i);
    m := n + 1;
    if After(blocks, hit, Skip, n + 1).At? { m := ForwardSearchEnds(blocks, hit, next, n + 1); }
  }

  /** What a header whose name does not match does to the search: it passes on forwards, stays
      for ever, goes back, or leaves the device at its front, by the sign of its skip. */
  lemma BackwardSkip(blocks: seq<Header>, hit: Header -> bool, skip: Header -> int, i: nat, n: nat)
    requires After(blocks, hit, skip, n) == At(i) && i < |blocks| && blocks[i][0] != 0 && !hit(blocks[i])
    ensures var far := skip(blocks[i]);
      && (far == -1 ==> Endless(blocks, hit, skip))
      && (far < -1 && After(blocks, hit, skip, n + 2) == Fault <==> i + far + 1 < 0)
      && (far < -1 && i + far + 1 >= 0 ==> exists j: nat :: j < i && After(blocks, hit, skip, n + 1) == At(j))
  {
    var far := skip(blocks[i]);
    OneMore(blocks, hit, skip, n);
    OneMore(blocks, hit, skip, n + 1);
    if far == -1 { NeverEnds(blocks, hit, skip, n, n + 1); }
  }

  /** The sizes that do it: the skip is negative from 2 GiB to 1 KiB below 4 GiB and at 512
      bytes below, and it is -1 there and in one stretch before. */
  lemma NegativeSkipIff(size: nat)
    requires size < 0x1_0000_0000
    ensures BlocksCount(ToInt(size)) < 0 <==> 0x8000_0000 <= size <= 0xffff_fc00 || size == 0xffff_fe00
    ensures BlocksCount(ToInt(size)) == -1 <==> 0xffff_fa00 < size < 0xffff_fc00 || size == 0xffff_fe00
  {
  }

  // ---------- both walks ----------

  /** The archive as the block walk reads it. */
  ghost function InBlocks(data: seq<byte>): (r: seq<Header>) {
    seq(|data| / BLOCK, i requires 0 <= i < |data| / BLOCK => data[i * BLOCK..i * BLOCK + BLOCK])
  }

  lemma InBlocksAt(data: seq<byte>, i: nat)
    ensures HeaderAt(data, i * BLOCK) == if i < |InBlocks(data)| then Some(InBlocks(data)[i]) else None
  {
  }

  /** The size field is digits ended by NUL and the size is below 2 GiB. */
  ghost predicate GoodHeader(h: Header) {
    (exists k :: GoodField(SizeField(h), k)) && FileSize(h) < 0x8000_0000
  }

  /** The headers before the first with an empty name. */
  ghost function BeforeEmpty(ms: seq<Member>): (r: seq<Member>) {
    if ms == [] || ms[0].h[0] == 0 then [] else [ms[0]] + BeforeEmpty(ms[1..])
  }

  /** The headers in the blocks of w, and where they lie. */
  ghost function InBlock(blocks: seq<Header>, w: seq<nat>): (r: seq<Member>) {
    if w == [] || w[0] >= |blocks| then [] else [Member(w[0] * BLOCK, blocks[w[0]])] + InBlock(blocks, w[1..])
  }

  lemma SkipAgrees(h: Header)
    requires GoodHeader(h)
    ensures Skip(h) >= 0 && (Skip(h) + 1) * BLOCK == RoundUp(FileSize(h)) + BLOCK
  {
    var k :| GoodField(SizeField(h), k);
    ScansAgree(SizeField(h), k, 0);
    SameSkipIff(FileSize(h));
  }

  ghost predicate AllGood(ms: seq<Member>) {
    forall m :: m in ms ==> GoodHeader(m.h)
  }

  /** Block i and offset off: from there both walks visit the same headers up to the first
      empty one, and no header leads back. */
  ghost predicate SameVisits(blocks: seq<Header>, data: seq<byte>, i: nat, off: nat) {
    InBlock(blocks, BlockWalk(blocks, i)) == BeforeEmpty(Headers(data, off)) && NeverBack(blocks, i)
  }

  lemma {:induction false} WalksAgree(data: seq<byte>, i: nat)
    requires AllGood(BeforeEmpty(Headers(data, i * BLOCK)))
    ensures SameVisits(InBlocks(data), data, i, i * BLOCK)
    decreases |data| - i * BLOCK
  {
    var blocks := InBlocks(data);
    InBlocksAt(data, i);
    if i < |blocks| && blocks[i][0] != 0 {
      var next := NextVisit(data, i * BLOCK, blocks, i);
      WalksAgree(data, next);
      VisitOne(blocks, data, i, i * BLOCK, next, next * BLOCK);
    }
  }

  lemma NextVisit(data: seq<byte>, off: nat, blocks: seq<Header>, i: nat) returns (next: nat)
    requires off == i * BLOCK && i < |blocks| && HeaderAt(data, off) == Some(blocks[i]) && blocks[i][0] != 0
    requires AllGood(BeforeEmpty(Headers(data, off)))
    ensures Skip(blocks[i]) >= 0 && next == i + Skip(blocks[i]) + 1
    ensures next * BLOCK == off + RoundUp(FileSize(blocks[i])) + BLOCK
    ensures AllGood(BeforeEmpty(Headers(data, next * BLOCK)))
  {
    var h := blocks[i];
    BeforeEmptyCons(data, off, h);
    GoodCons(Member(off, h), BeforeEmpty(Headers(data, off + RoundUp(FileSize(h)) + BLOCK)));
    SkipAgrees(h);
    next := i + Skip(h) + 1;
    assert next * BLOCK == off + RoundUp(FileSize(h)) + BLOCK;
  }

  lemma VisitOne(blocks: seq<Header>, data: seq<byte>, i: nat, off: nat, next: nat, off': nat)
    requires off == i * BLOCK && i < |blocks| && HeaderAt(data, off) == Some(blocks[i]) && blocks[i][0] != 0
    requires Skip(blocks[i]) >= 0 && next == i + Skip(blocks[i]) + 1
    requires off' == off + RoundUp(FileSize(blocks[i])) + BLOCK && SameVisits(blocks, data, next, off')
    ensures SameVisits(blocks, data, i, off)
  {
    BeforeEmptyCons(data, off, blocks[i]);
    InBlockCons(blocks, i);
  }

  lemma BeforeEmptyCons(data: seq<byte>, off: nat, h: Header)
    requires HeaderAt(data, off) == Some(h) && h[0] != 0
    ensures var next := off + RoundUp(FileSize(h)) + BLOCK;
      BeforeEmpty(Headers(data, off)) == [Member(off, h)] + BeforeEmpty(Headers(data, next))
  {
    assert Headers(data, off)[1..] == Headers(data, off + RoundUp(FileSize(h)) + BLOCK);
  }

  lemma GoodCons(m: Member, rest: seq<Member>)
    requires AllGood([m] + rest)
    ensures GoodHeader(m.h) && AllGood(rest)
  {
    assert m in [m] + rest;
    assert forall x :: x in rest ==> x in [m] + rest;
  }

  lemma InBlockCons(blocks: seq<Header>, i: nat)
    requires i < |blocks| && blocks[i][0] != 0 && Skip(blocks[i]) >= 0
    ensures InBlock(blocks, BlockWalk(blocks, i))
      == [Member(i * BLOCK, blocks[i])] + InBlock(blocks, BlockWalk(blocks, i + Skip(blocks[i]) + 1))
  {
    assert BlockWalk(blocks, i)[1..] == BlockWalk(blocks, i + Skip(blocks[i]) + 1);
  }
}
