/** tfs_read_block: reading a byte range of a device through blocks of any size. */
module TarReader {
  import opened Common

  /** A block device: its bytes, its block size, and the blocks that cannot be read. */
  datatype Device = Device(data: seq<byte>, blockSize: nat, missing: set<nat>)

  /** sb_bread */
  function Bread(d: Device, i: nat): (r: Option<seq<byte>>)
    requires d.blockSize > 0
    ensures r.Some? ==> |r.value| == d.blockSize
  {
    if i in d.missing || (i + 1) * d.blockSize > |d.data| then None
    else BlockRange(d, i); Some(d.data[i * d.blockSize..(i + 1) * d.blockSize])
  }

  lemma BlockRange(d: Device, i: nat)
    ensures (i + 1) * d.blockSize == i * d.blockSize + d.blockSize && i * d.blockSize >= 0
  {
  }

  /** The block that holds byte at, and where it starts. */
  lemma BlockOf(at: nat, bs: nat)
    requires bs > 0
    ensures var b := at / bs; b >= 0 && b * bs <= at < b * bs + bs
  {
  }

  lemma BlockOrder(a: nat, b: nat, bs: nat)
    requires a <= b
    ensures a * bs <= b * bs
  {
  }

  lemma BlockStrict(a: nat, b: nat, bs: nat)
    requires a * bs < b * bs
    ensures a < b
  {
    if b <= a { BlockOrder(b, a, bs); }
  }

  /** n bytes from start were delivered: all of them, or up to the first unreadable block. */
  ghost predicate Delivered(d: Device, start: nat, size: nat, n: nat)
    requires d.blockSize > 0
  {
    && n <= size
    && (n == size || exists b: nat :: Bread(d, b).None? && StopsAt(d, start, n, b))
  }

  /** Byte start + n is the first one that lies in block b. */
  ghost predicate StopsAt(d: Device, start: nat, n: nat, b: nat) {
    if n == 0 then b * d.blockSize <= start < b * d.blockSize + d.blockSize else start + n == b * d.blockSize
  }

  /** Every block that start..start + size touches can be read. */
  ghost predicate Readable(d: Device, start: nat, size: nat)
    requires d.blockSize > 0 && size > 0
  {
    AllRead(d, start / d.blockSize, (start + size - 1) / d.blockSize + 1)
  }

  ghost predicate AllRead(d: Device, from: nat, to: nat)
    requires d.blockSize > 0
  {
    forall b: nat :: from <= b < to ==> Bread(d, b).Some?
  }

  method Memcpy(buf: array<byte>, at: nat, src: seq<byte>)
    requires at + |src| <= buf.Length
    modifies buf
    ensures buf[at..at + |src|] == src && buf[..at] == old(buf[..at]) && buf[at + |src|..] == old(buf[at + |src|..])
  {
    var i := 0;
    while i < |src|
      invariant 0 <= i <= |src| && buf[at..at + i] == src[..i]
      invariant buf[..at] == old(buf[..at]) && buf[at + |src|..] == old(buf[at + |src|..])
    {
      buf[at + i] := src[i];
      i := i + 1;
    }
  }

  lemma SliceOfSlice(s: seq<byte>, a: nat, len: nat, offset: nat, n: nat)
    requires a + len <= |s| && offset + n <= len
    ensures s[a..a + len][offset..offset + n] == s[a + offset..a + offset + n]
  {
    var block, part := s[a..a + len], s[a + offset..a + offset + n];
    assert |block[offset..offset + n]| == |part|;
    assert forall k :: 0 <= k < n ==> block[offset..offset + n][k] == part[k];
  }

  /** One sb_bread and the memcpy after it: n bytes of block b from offset on go to buf[seek..]. */
  method CopyBlock(d: Device, buf: array<byte>, seek: nat, b: nat, offset: nat, n: nat) returns (ok: bool)
    requires d.blockSize > 0 && seek + n <= buf.Length && offset + n <= d.blockSize
    modifies buf
    ensures ok == Bread(d, b).Some?
    ensures buf[..seek] == old(buf[..seek])
    ensures ok ==>
      var from := b * d.blockSize + offset;
      from + n <= |d.data| && buf[..seek + n] == old(buf[..seek]) + d.data[from..from + n]
  {
    var bh := Bread(d, b);
    if bh.None? { return false; }
    BlockRange(d, b);
    SliceOfSlice(d.data, b * d.blockSize, d.blockSize, offset, n);
    Memcpy(buf, seek, bh.value[offset..offset + n]);
    assert buf[..seek + n] == buf[..seek] + buf[seek..seek + n];
    return true;
  }

  /** The range start..start + size begins in block first, ends in block last. */
  lemma BlocksOfRange(start: nat, size: nat, bs: nat)
    requires bs > 0 && size > 0
    ensures var first, last := start / bs, (start + size - 1) / bs;
      && 0 <= first <= last
      && first * bs <= start < first * bs + bs
      && last * bs < start + size <= last * bs + bs
      && (first < last ==> (first + 1) * bs <= last * bs)
  {
    var first, last := start / bs, (start + size - 1) / bs;
    BlockOf(start, bs);
    BlockOf(start + size - 1, bs);
    assert (last + 1) * bs == last * bs + bs;
    BlockStrict(first, last + 1, bs);
    if first < last { BlockOrder(first + 1, last, bs); }
  }

  /** The first seek bytes of the buffer are the device's bytes from start on. */
  ghost predicate Holds(d: Device, start: nat, buf: seq<byte>, seek: nat) {
    seek <= |buf| && start + seek <= |d.data| && buf[..seek] == d.data[start..start + seek]
  }

  lemma HoldsMore(d: Device, start: nat, buf: seq<byte>, seek: nat, buf': seq<byte>, n: nat)
    requires Holds(d, start, buf, seek) && seek + n <= |buf'| && start + seek + n <= |d.data|
    requires buf'[..seek + n] == buf[..seek] + d.data[start + seek..start + seek + n]
    ensures Holds(d, start, buf', seek + n)
  {
    assert d.data[start..start + seek] + d.data[start + seek..start + seek + n] == d.data[start..start + seek + n];
  }

  /** The loop over the whole blocks i..last of a read that has come to block i. */
  method ReadWhole(d: Device, buf: array<byte>, start: nat, at: nat, from: nat, last: nat) returns (seek: nat, i: nat)
    requires d.blockSize > 0 && from <= last && start + at == from * d.blockSize
    requires Holds(d, start, buf[..], at) && last * d.blockSize <= start + buf.Length
    modifies buf
    ensures from <= i <= last && at <= seek && start + seek == i * d.blockSize
    ensures Holds(d, start, buf[..], seek)
    ensures i < last ==> Bread(d, i).None?
    ensures AllRead(d, from, i)
  {
    i, seek := from, at;
    while i < last
      invariant from <= i <= last && start + seek == i * d.blockSize && at <= seek
      invariant Holds(d, start, buf[..], seek)
      invariant AllRead(d, from, i)
    {
      BlockOrder(i + 1, last, d.blockSize);
      BlockRange(d, i);
      ghost var before := buf[..];
      var ok := CopyBlock(d, buf, seek, i, 0, d.blockSize);
      if !ok { return; }
      HoldsMore(d, start, before, seek, buf[..], d.blockSize);
      seek := seek + d.blockSize;
      i := i + 1;
    }
  }

  /** What is left of a read after its first block: the whole blocks, then part of the last. */
  method ReadRest(d: Device, buf: array<byte>, size: nat, start: nat, at: nat, from: nat, last: nat) returns (seek: nat)
    requires d.blockSize > 0 && from <= last && size <= buf.Length && 0 < at && start + at == from * d.blockSize
    requires last * d.blockSize < start + size <= last * d.blockSize + d.blockSize
    requires Holds(d, start, buf[..], at)
    modifies buf
    ensures 0 < seek && Delivered(d, start, size, seek)
    ensures seek == size <==> AllRead(d, from, last + 1)
    ensures Holds(d, start, buf[..], seek)
  {
    var i;
    seek, i := ReadWhole(d, buf, start, at, from, last);
    BlockOrder(i, last, d.blockSize);
    if i < last {
      assert StopsAt(d, start, seek, i);
      return;
    }
    var rest := size + start - last * d.blockSize;
    ghost var before := buf[..];
    var ok := CopyBlock(d, buf, seek, last, 0, rest);
    if !ok {
      assert StopsAt(d, start, seek, last);
      return;
    }
    HoldsMore(d, start, before, seek, buf[..], rest);
    seek := seek + rest;
  }

  const U64: nat := 0x1_0000_0000_0000_0000
  const MAX_OFFSET: nat := 0x7fff_ffff_ffff_ffff

  /** Offsets into the device are of type loff_t. */
  ghost predicate Addressable(d: Device) { 0 < d.blockSize < U64 && |d.data| <= MAX_OFFSET }

  /** last_block, computed in 64 bits: nothing at offset 0 ends at the largest number. */
  function LastBlock(start: nat, size: nat, bs: nat): (n: nat)
    requires bs > 0
  {
    (if start + size == 0 then U64 - 1 else start + size - 1) / bs
  }

  /** blocks, an unsigned 64-bit difference */
  function Blocks(start: nat, size: nat, bs: nat): (n: nat)
    requires bs > 0
  {
    (LastBlock(start, size, bs) - start / bs + 1) % U64
  }

  /** How many bytes the first memcpy moves. */
  function FirstCopy(start: nat, size: nat, bs: nat): (n: int)
    requires bs > 0
  {
    if Blocks(start, size, bs) == 1 then size else bs - start % bs
  }

  lemma DivUnique(x: nat, q: nat, bs: nat)
    requires bs > 0 && q * bs <= x < q * bs + bs
    ensures x / bs == q
  {
    BlockOf(x, bs);
    assert (q + 1) * bs == q * bs + bs && (x / bs + 1) * bs == x / bs * bs + bs;
    BlockStrict(q, x / bs + 1, bs);
    BlockStrict(x / bs, q + 1, bs);
  }

  lemma ModIsRest(x: nat, bs: nat)
    requires bs > 0
    ensures x % bs == x - x / bs * bs
  {
  }

  /** The byte before start lies in the same block, or in the one before. */
  lemma PreviousBlock(start: nat, bs: nat)
    requires bs > 0 && start > 0
    ensures (start - 1) / bs == if start % bs != 0 then start / bs else start / bs - 1
  {
    var q := start / bs;
    BlockOf(start, bs);
    ModIsRest(start, bs);
    if start % bs != 0 {
      DivUnique(start - 1, q, bs);
    } else {
      BlockStrict(0, q, bs);
      assert (q - 1) * bs == q * bs - bs;
      DivUnique(start - 1, q - 1, bs);
    }
  }

  /** For nothing to read, the count is 1 exactly inside a block. */
  lemma NothingToRead(start: nat, bs: nat)
    requires 0 < bs < U64 && start < U64
    ensures Blocks(start, 0, bs) == 1 <==> start % bs != 0
    ensures start % bs != 0 ==> LastBlock(start, 0, bs) == start / bs
  {
    if start > 0 {
      PreviousBlock(start, bs);
    } else {
      NotInOneBlock(bs);
      DivUnique(0, 0, bs);
      ModIsRest(0, bs);
    }
  }

  lemma NotInOneBlock(bs: nat)
    requires 0 < bs < U64
    ensures 0 < (U64 - 1) / bs <= U64 - 1
  {
    BlockOf(U64 - 1, bs);
    QuotientSmall(U64 - 1, bs);
  }

  lemma {:induction false} QuotientSmall(a: nat, bs: nat)
    requires bs > 0
    ensures a / bs <= a
  {
    BlockOf(a, bs);
    if a / bs > a { BlockOrder(a + 1, a / bs, bs); }
  }

  /** For a range, the count is 1 exactly when it lies in one block. */
  lemma SomethingToRead(start: nat, size: nat, bs: nat)
    requires bs > 0 && size > 0 && start + size <= U64
    ensures LastBlock(start, size, bs) == (start + size - 1) / bs
    ensures Blocks(start, size, bs) == 1 <==> start / bs == LastBlock(start, size, bs)
  {
    BlocksOfRange(start, size, bs);
    QuotientSmall(start + size - 1, bs);
  }

  /** The first copy stays inside what was asked for if and only if there is something to
      read or the start lies inside a block. */
  lemma FirstCopyFitsIff(start: nat, size: nat, bs: nat)
    requires 0 < bs < U64 && start < U64 && start + size <= U64
    ensures FirstCopy(start, size, bs) <= size <==> size > 0 || start % bs != 0
  {
    BlockOf(start, bs);
    if size == 0 {
      NothingToRead(start, bs);
    } else {
      SomethingToRead(start, size, bs);
      BlocksOfRange(start, size, bs);
    }
  }

  /** What a read does once its blocks are known. */
  method ReadBlocks(d: Device, buf: array<byte>, size: nat, start: nat, first: nat, last: nat) returns (seek: nat)
    requires d.blockSize > 0 && size <= buf.Length && first <= last
    requires first * d.blockSize <= start < first * d.blockSize + d.blockSize
    requires start + size <= last * d.blockSize + d.blockSize
    requires first < last ==> last * d.blockSize < start + size && (first + 1) * d.blockSize <= last * d.blockSize
    modifies buf
    ensures Delivered(d, start, size, seek)
    ensures size > 0 ==> (seek == size <==> AllRead(d, first, last + 1))
    ensures seek > 0 ==> Holds(d, start, buf[..], seek)
  {
    var bs := d.blockSize;
    var offset := start - first * bs;
    var one := first == last;
    var ok := CopyBlock(d, buf, 0, first, offset, if one then size else bs - offset);
    if !ok {
      assert StopsAt(d, start, 0, first);
      return 0;
    }
    if one { return size; }
    BlockRange(d, first);
    seek := ReadRest(d, buf, size, start, bs - offset, first + 1, last);
    assert AllRead(d, first, last + 1) <==> AllRead(d, first + 1, last + 1);
  }

  /** tfs_read_block: exactly the device slice, or a true prefix of it that ends where the
      first unreadable block begins.  Nothing at the start of a readable block is the one
      request that makes it write more than it was asked for; overrun says so. */
  method ReadBlock(d: Device, buf: array<byte>, size: nat, start: nat) returns (seek: nat, overrun: bool)
    requires Addressable(d) && size <= buf.Length && size <= MAX_OFFSET && start < U64
    modifies buf
    ensures overrun <==> size == 0 && start % d.blockSize == 0 && Bread(d, start / d.blockSize).Some?
    ensures !overrun ==> Delivered(d, start, size, seek)
    ensures size > 0 ==> (seek == size <==> Readable(d, start, size))
    ensures seek > 0 ==> Holds(d, start, buf[..], seek)
  {
    var first := start / d.blockSize;
    BlockOf(start, d.blockSize);
    if Bread(d, first).None? {
      assert StopsAt(d, start, 0, first);
      if size > 0 {
        BlocksOfRange(start, size, d.blockSize);
        NotAllRead(d, first, (start + size - 1) / d.blockSize);
      }
      return 0, false;
    }
    BlockRange(d, first);
    var last, copy := Plan(start, size, d.blockSize, first);
    if copy > size { return 0, true; }
    seek := ReadBlocks(d, buf, size, start, first, last);
    overrun := false;
  }

  lemma NotAllRead(d: Device, first: nat, last: nat)
    requires d.blockSize > 0 && Bread(d, first).None?
    ensures first <= last ==> !AllRead(d, first, last + 1)
  {
  }

  /** What is right about the first and last block of a request and the length of its first
      copy: the copy is too long for nothing at the start of a block only. */
  ghost predicate PlanOk(start: nat, size: nat, bs: nat, first: nat, last: nat, copy: int)
    requires bs > 0
  {
    && first == start / bs && (size > 0 ==> last == (start + size - 1) / bs)
    && first * bs <= start < first * bs + bs
    && (copy > size <==> size == 0 && start % bs == 0)
    && (copy <= size ==> first <= last && start + size <= last * bs + bs)
    && (copy <= size && first < last ==> last * bs < start + size && (first + 1) * bs <= last * bs)
  }

  /** The numbers tfs_read_block starts with. */
  method Plan(start: nat, size: nat, bs: nat, first: nat) returns (last: nat, copy: int)
    requires 0 < bs < U64 && start < U64 && start + size <= U64 && first == start / bs
    ensures PlanOk(start, size, bs, first, last, copy)
  {
    PlanIsOk(start, size, bs);
    return LastBlock(start, size, bs), FirstCopy(start, size, bs);
  }

  lemma PlanIsOk(start: nat, size: nat, bs: nat)
    requires 0 < bs < U64 && start < U64 && start + size <= U64
    ensures start / bs >= 0
    ensures PlanOk(start, size, bs, start / bs, LastBlock(start, size, bs), FirstCopy(start, size, bs))
  {
    BlockOf(start, bs);
    FirstCopyFitsIff(start, size, bs);
    if size > 0 {
      SomethingToRead(start, size, bs);
      BlocksOfRange(start, size, bs);
    } else {
      NothingToRead(start, bs);
    }
  }
}
