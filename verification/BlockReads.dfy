/** Byte ranges read through whole blocks (`vol_read` in `src/volumes/volume.c`, `hfs_read_fork_range` in
    `src/hfs/hfs_io.c`). Both compute the blocks to read the same way, and both come out one short for some requests. */
module BlockReads {
  import opened MachineTypes
  import opened Sequences

  /** The blocks both functions read for a request. */
  function BlockCount(offset: nat, size: nat, b: nat): nat
    requires b > 0
  {
    size / b + if (offset + size) % b != 0 then 1 else 0
  }

  /** The blocks a non-empty range has bytes in. */
  function Touched(offset: nat, size: nat, b: nat): nat
    requires b > 0 && size > 0
  {
    (offset + size - 1) / b - offset / b + 1
  }

  /** The parts of the request beyond whole blocks share a block. */
  predicate OneBlockSlack(offset: nat, size: nat, b: nat)
    requires b > 0
  {
    offset % b + size % b < b
  }

  lemma AtLeast(n: int, b: int)
    requires n >= 1 && b > 0
    ensures n * b >= b
  {
    assert n * b == (n - 1) * b + b;
  }

  /** A quotient and remainder are the only ones. */
  lemma Divided(x: int, k: int, y: int, b: int)
    requires b > 0 && x == k * b + y && 0 <= y < b
    ensures x / b == k && x % b == y
  {
    var d := x / b;
    var m := x - d * b;
    assert 0 <= m < b;
    assert (k - d) * b == k * b - d * b && (d - k) * b == d * b - k * b;
    if k > d {
      AtLeast(k - d, b);
    } else if k < d {
      AtLeast(d - k, b);
    }
  }

  /** The parts of a request, and what its end divides into. */
  lemma Parts(offset: nat, size: nat, b: nat, q: int, r: int, p: int, t: int)
    requires b > 0 && q == offset / b && r == offset % b && p == size / b && t == size % b
    ensures 0 <= r < b && 0 <= t < b && offset == q * b + r && size == p * b + t
    ensures (q + p) * b == q * b + p * b && (q + p - 1) * b == q * b + p * b - b && (q + p + 1) * b == q * b + p * b + b
    ensures (p + 1) * b == p * b + b
  {}

  lemma EndDivided(x: int, n: int, e: int, b: int)
    requires b > 0 && x == n * b + e && 0 <= e < 2 * b - 1 && (n + 1) * b == n * b + b
    ensures x / b == (if e < b then n else n + 1) && x % b == (if e < b then e else e - b)
  {
    if e < b {
      Divided(x, n, e, b);
    } else {
      Divided(x, n + 1, e - b, b);
    }
  }

  /** The count is what is needed exactly under that condition, and otherwise one short. */
  lemma CountIsTouched(offset: nat, size: nat, b: nat)
    requires b > 0 && size > 0
    ensures Touched(offset, size, b) == BlockCount(offset, size, b) + if OneBlockSlack(offset, size, b) then 0 else 1
  {
    var q, r, p, t := offset / b, offset % b, size / b, size % b;
    Parts(offset, size, b, q, r, p, t);
    EndDivided(offset + size, q + p, r + t, b);
    if r + t == 0 {
      Divided(offset + size - 1, q + p - 1, b - 1, b);
    } else {
      EndDivided(offset + size - 1, q + p, r + t - 1, b);
    }
  }

  /** The blocks read hold the whole request under the same condition. */
  lemma RequestFits(offset: nat, size: nat, b: nat)
    requires b > 0 && size > 0
    ensures offset % b + size <= BlockCount(offset, size, b) * b <==> OneBlockSlack(offset, size, b)
  {
    var q, r, p, t := offset / b, offset % b, size / b, size % b;
    Parts(offset, size, b, q, r, p, t);
    EndDivided(offset + size, q + p, r + t, b);
  }

  /** Aligned offsets are always safe. */
  lemma AlignedIsSafe(offset: nat, size: nat, b: nat)
    requires b > 0 && offset % b == 0
    ensures OneBlockSlack(offset, size, b)
  {}

  // ----- vol_read -----

  /** Where a volume lies in its source, and its sector sizes, 0 where unknown. */
  datatype Medium = Medium(source: seq<u8>, offset: nat, length: nat, phySectorSize: nat, sectorSize: nat)
  {
    function BlockSize(): (b: nat)
      ensures b > 0
    {
      if phySectorSize > 0 then phySectorSize else if sectorSize > 0 then sectorSize else 512
    }

    /** What is left of a request inside the volume. A length of 0 means it is not known. */
    function Clamped(size: nat, offset: nat): nat {
      if length == 0 then size
      else if offset > length then 0
      else if offset + size > length then length - offset
      else size
    }

    /** What the source has of `count` bytes from `start` on. */
    function Available(start: nat, count: nat): (n: nat)
      ensures n <= count && (n > 0 ==> start + n <= |source|)
    {
      if start >= |source| then 0 else if start + count <= |source| then count else |source| - start
    }

    /** The bytes of whole blocks a request gets, from the start of its first block on. */
    function WholeBytes(size: nat, offset: nat): nat {
      var b := BlockSize();
      WholePart(Available(this.offset + AlignedDown(offset, b), Bytes(BlockCount(offset, size, b), b)), b)
    }

    /** What a request of `size` bytes, already clamped, leaves in the buffer and returns. */
    ghost predicate Delivers(size: nat, offset: nat, before: seq<u8>, after: seq<u8>, n: nat) {
      Outcome(size, offset, offset % BlockSize(), WholeBytes(size, offset), before, after, n)
    }

    /** The whole request, exactly. */
    ghost predicate Whole(size: nat, offset: nat, before: seq<u8>, after: seq<u8>, n: nat) {
      && n == size <= |before| && this.offset + offset + size <= |source|
      && after == source[this.offset + offset..this.offset + offset + size] + before[size..]
    }

    /** What is delivered to a request that begins `lead` bytes into its first block and gets `got` bytes of blocks. */
    ghost predicate Outcome(size: nat, offset: nat, lead: nat, got: nat, before: seq<u8>, after: seq<u8>, n: nat) {
      && |before| == |after|
      && if size == 0 then n == 0 && after == before
         else if got == 0 then n == (if lead == 0 then 0 else size) && after == before
         else
           && n == (if got - lead < size then got - lead else size)
           && n <= |after| && this.offset + offset + n <= |source|
           && after == source[this.offset + offset..this.offset + offset + n] + before[n..]
    }
  }

  /** A clamped request is the part of the request inside the volume. */
  lemma ClampedIsInside(vol: Medium, size: nat, offset: nat, i: nat)
    ensures vol.length == 0 ==> vol.Clamped(size, offset) == size
    ensures vol.length > 0 ==>
              (offset <= i < offset + vol.Clamped(size, offset) <==> offset <= i < offset + size && i < vol.length)
  {}

  /** The block size is the physical sector size, or else the sector size, or else 512. */
  lemma BlockSizes(vol: Medium)
    ensures vol.phySectorSize > 0 ==> vol.BlockSize() == vol.phySectorSize
    ensures vol.phySectorSize == 0 && vol.sectorSize > 0 ==> vol.BlockSize() == vol.sectorSize
    ensures vol.phySectorSize == 0 && vol.sectorSize == 0 ==> vol.BlockSize() == 512
  {}

  /** The start of the block a byte lies in. */
  function AlignedDown(offset: nat, b: nat): (start: nat)
    requires b > 0
    ensures start <= offset < start + b && offset - start == offset % b
  {
    assert offset == offset / b * b + offset % b;
    offset - offset % b
  }

  function Bytes(blocks: nat, b: nat): (n: nat)
    ensures blocks == 0 ==> n == 0
  {
    blocks * b
  }

  /** The bytes of the whole blocks among n bytes. */
  function WholePart(n: nat, b: nat): (w: nat)
    requires b > 0
    ensures w <= n && (w == 0 || w >= b)
  {
    WholeBound(n, b);
    n / b * b
  }

  lemma WholeBound(n: nat, b: nat)
    requires b > 0
    ensures 0 <= n / b * b <= n && (n / b * b == 0 || n / b * b >= b)
  {
    var q, m := n / b, n % b;
    assert n == q * b + m;
    if q >= 1 {
      AtLeast(q, b);
    }
  }

  /** Differences of size_t values. */
  function SizeMinus(x: nat, y: nat): u64 { (x - y) % 0x1_0000_0000_0000_0000 }

  /** A read from `at` has filled the front of the buffer. */
  ghost predicate Holds(vol: Medium, at: nat, n: nat, blocks: seq<u8>) {
    n <= |blocks| && (n > 0 ==> at + n <= |vol.source| && blocks[..n] == vol.source[at..at + n])
  }

  /** vol_blk_get: reads bytes, returns how many whole blocks they were. */
  method VolBlkGet(vol: Medium, buf: array<u8>, count: nat, start: nat, blksz: nat) returns (rval: nat)
    requires blksz > 0 && buf.Length == Bytes(count, blksz)
    modifies buf
    ensures var off, length := vol.offset + Bytes(start, blksz), Bytes(count, blksz);
            && Bytes(rval, blksz) == WholePart(vol.Available(off, length), blksz)
            && (rval == 0 <==> WholePart(vol.Available(off, length), blksz) == 0)
            && Holds(vol, off, vol.Available(off, length), buf[..])
  {
    var off := Bytes(start, blksz) + vol.offset;
    var n := vol.Available(off, buf.Length);
    forall i | 0 <= i < n {
      buf[i] := vol.source[off + i];
    }
    rval := n / blksz;
    WholeBound(n, blksz);
    if rval > 0 {
      AtLeast(rval, blksz);
    }
  }

  /** vol_read */
  method VolRead(vol: Medium, buf: array<u8>, size: nat, offset: nat) returns (bytesRead: nat)
    requires size <= buf.Length && offset + size + vol.BlockSize() < 0x1_0000_0000_0000_0000
    modifies buf
    ensures vol.Delivers(vol.Clamped(size, offset), offset, old(buf[..]), buf[..], bytesRead)
  {
    if vol.length != 0 && offset > vol.length {
      return 0;
    }
    var want := size;
    if vol.length != 0 && offset + size > vol.length {
      want := vol.length - offset;
    }
    if want < 1 {
      return 0;
    }
    bytesRead := ReadBlocks(vol, buf, want, offset);
  }

  /** The rest of vol_read: whole blocks into a buffer of their own, and the part asked for out of it. */
  method ReadBlocks(vol: Medium, buf: array<u8>, size: nat, offset: nat) returns (bytesRead: nat)
    requires 0 < size <= buf.Length && offset + size + vol.BlockSize() < 0x1_0000_0000_0000_0000
    modifies buf
    ensures vol.Delivers(size, offset, old(buf[..]), buf[..], bytesRead)
  {
    var blksz := vol.BlockSize();
    var blockCount := BlockCount(offset, size, blksz);
    CountBound(offset, size, blksz);
    var readBuffer := new u8[Bytes(blockCount, blksz)](_ => 0);
    var startBlock, byteOffset := offset / blksz, offset % blksz;
    StartOfBlock(offset, blksz);
    var readBlocks := VolBlkGet(vol, readBuffer, blockCount, startBlock, blksz);
    ghost var at := vol.offset + AlignedDown(offset, blksz);
    ghost var n := vol.Available(at, Bytes(blockCount, blksz));
    bytesRead := CopyOut(readBuffer, buf, byteOffset, Bytes(readBlocks, blksz), size, vol, offset, at, n);
  }

  lemma StartOfBlock(offset: nat, b: nat)
    requires b > 0
    ensures Bytes(offset / b, b) == AlignedDown(offset, b)
  {
    assert offset == offset / b * b + offset % b;
  }

  lemma FrontReplaced(before: seq<u8>, after: seq<u8>, front: seq<u8>)
    requires |front| <= |before| == |after|
    requires forall i :: 0 <= i < |after| ==> after[i] == if i < |front| then front[i] else before[i]
    ensures after == front + before[|front|..]
  {}

  lemma PartHeld(vol: Medium, at: nat, n: nat, blocks: seq<u8>, i: nat, j: nat)
    requires Holds(vol, at, n, blocks) && 0 < n && i <= j <= n
    ensures blocks[i..j] == vol.source[at + i..at + j]
  {
    SliceOfSlice(blocks, 0, n, i, j);
    SliceOfSlice(vol.source, at, at + n, i, j);
  }

  /** The end of vol_read: the truncated size, and the copy. */
  method CopyOut(readBuffer: array<u8>, buf: array<u8>, byteOffset: nat, got: nat, size: nat,
                 ghost vol: Medium, ghost offset: nat, ghost at: nat, ghost n: nat)
    returns (bytesRead: nat)
    requires readBuffer != buf && 0 < size <= buf.Length && Holds(vol, at, n, readBuffer[..])
    requires at + byteOffset == vol.offset + offset && got <= n && (got > 0 ==> byteOffset < got)
    requires size + byteOffset < 0x1_0000_0000_0000_0000 && got < 0x1_0000_0000_0000_0000
    modifies buf
    ensures vol.Outcome(size, offset, byteOffset, got, old(buf[..]), buf[..], bytesRead)
  {
    var rest := SizeMinus(got, byteOffset);
    bytesRead := if rest < size then rest else size;
    if got != 0 {
      ghost var before, blocks := buf[..], readBuffer[..];
      forall i | 0 <= i < bytesRead {
        buf[i] := readBuffer[byteOffset + i];
      }
      FrontReplaced(before, buf[..], blocks[byteOffset..byteOffset + bytesRead]);
      PartHeld(vol, at, n, blocks, byteOffset, byteOffset + bytesRead);
    }
  }

  lemma CountBound(offset: nat, size: nat, b: nat)
    requires b > 0
    ensures Bytes(BlockCount(offset, size, b), b) <= size + b
  {
    assert size == size / b * b + size % b;
    assert (size / b + 1) * b == size / b * b + b;
  }

  /** When the source has the blocks counted, the request is delivered whole if its slack fits one block. Otherwise the
      read comes out short, or, if no block was counted at all, the size is returned and nothing is read. */
  lemma DeliveredWhole(vol: Medium, size: nat, offset: nat, before: seq<u8>, after: seq<u8>, n: nat)
    requires size > 0 && vol.Delivers(size, offset, before, after, n)
    requires var b := vol.BlockSize();
             vol.offset + AlignedDown(offset, b) + Bytes(BlockCount(offset, size, b), b) <= |vol.source|
    ensures var b := vol.BlockSize();
            if OneBlockSlack(offset, size, b) then
              vol.Whole(size, offset, before, after, n)
            else if BlockCount(offset, size, b) > 0 then n < size
            else n == size && after == before
  {
    var b := vol.BlockSize();
    var count := BlockCount(offset, size, b);
    RequestFits(offset, size, b);
    Divided(count * b, count, 0, b);
    if count > 0 {
      AtLeast(count, b);
    }
    assert vol.WholeBytes(size, offset) == count * b;
  }

  /** One byte at offset 511 of 512-byte blocks: no block is counted, and the byte is reported read. */
  lemma OneByteMissed(vol: Medium, before: seq<u8>, after: seq<u8>, n: nat)
    requires vol.BlockSize() == 512 && vol.Delivers(1, 511, before, after, n)
    ensures BlockCount(511, 1, 512) == 0 && Touched(511, 1, 512) == 1
    ensures n == 1 && after == before
  {
    assert vol.WholeBytes(1, 511) == 0;
  }

  // ----- hfs_read_fork_range -----

  /** A request that fits its blocks reads none beyond the fork. */
  lemma BlocksWithin(offset: nat, size: nat, b: nat, total: nat)
    requires b > 0 && size > 0 && offset + size <= Bytes(total, b) && OneBlockSlack(offset, size, b)
    ensures AlignedDown(offset, b) + Bytes(BlockCount(offset, size, b), b) <= Bytes(total, b)
  {
    var last := offset + size - 1;
    var first, end, count := offset / b, last / b, BlockCount(offset, size, b);
    CountIsTouched(offset, size, b);
    QuotientBelow(last, total, b);
    StartOfBlock(offset, b);
    Distribute(first, count, b);
    Monotone(first + count, total, b);
  }

  lemma Distribute(x: int, y: int, b: int)
    ensures x * b + y * b == (x + y) * b
  {}

  lemma Monotone(x: int, y: int, b: int)
    requires x <= y && b > 0
    ensures x * b <= y * b
  {
    assert (y - x) * b >= 0;
    assert (y - x) * b == y * b - x * b;
  }

  lemma QuotientBelow(x: nat, n: nat, b: nat)
    requires b > 0 && x < n * b
    ensures x / b < n
  {
    assert x == x / b * b + x % b;
    if x / b >= n {
      Monotone(n, x / b, b);
    }
  }

  /** hfs_read_fork_range, on a fork of one extent with these blocks. The C copies out of its block buffer without
      looking how much it holds; `overrun` reports a copy from beyond it. */
  method ReadForkRange(data: seq<u8>, total: nat, b: nat, logicalSize: nat, buf: array<u8>, size: nat, offset: nat)
    returns (n: nat, overrun: bool)
    requires b > 0 && |data| == Bytes(total, b) && logicalSize <= |data| && size <= buf.Length
    modifies buf
    ensures n == if offset > logicalSize then 0 else if offset + size > logicalSize then logicalSize - offset else size
    ensures overrun <==> n > 0 && !OneBlockSlack(offset, n, b)
    ensures !overrun ==> n <= buf.Length && (n > 0 ==> offset + n <= |data|)
    ensures !overrun ==> buf[..] == (if n > 0 then data[offset..offset + n] else []) + old(buf[..])[n..]
  {
    if offset > logicalSize {
      return 0, false;
    }
    n, overrun := size, false;
    if offset + n > logicalSize {
      n := logicalSize - offset;
    }
    if n < 1 {
      return 0, false;
    }
    var byteOffset, length := offset % b, Bytes(BlockCount(offset, n, b), b);
    RequestFits(offset, n, b);
    if byteOffset + n > length {
      return n, true;
    }
    BlocksWithin(offset, n, b, total);
    CopyBlocks(data, AlignedDown(offset, b), length, byteOffset, buf, n);
  }

  /** The blocks into a buffer of their own, and the part asked for out of it. */
  method CopyBlocks(data: seq<u8>, start: nat, length: nat, byteOffset: nat, buf: array<u8>, n: nat)
    requires start + length <= |data| && byteOffset + n <= length && n <= buf.Length
    modifies buf
    ensures buf[..] == data[start + byteOffset..start + byteOffset + n] + old(buf[..])[n..]
  {
    var readBuffer := data[start..start + length];
    forall i | 0 <= i < n {
      buf[i] := readBuffer[byteOffset + i];
    }
  }
}
