/** The kernel's ext4 reader: block mapping and file reads. */
module Ext4 {
  import opened Buffers
  import opened Bytes
  import opened ExtentTree
  import opened FileContents
  import opened IndirectBlocks
  import opened Results

  const SCRATCH_SIZE: nat := 4096

  datatype Outcome = Done(count: nat) | ReadFailed(error: Ext4Error)

  function Min(a: nat, b: nat): nat {
    if a <= b then a else b
  }

  /** How many of `n` bytes from a position on a file has. */
  function Available(inode: Inode, position: nat, n: nat): nat {
    if position >= inode.size then 0 else Min(n, inode.size - position)
  }

  function Sum(sizes: seq<nat>): nat {
    if sizes == [] then 0 else Sum(sizes[..|sizes| - 1]) + sizes[|sizes| - 1]
  }

  lemma SumOfPrefix(sizes: seq<nat>, i: nat)
    requires i < |sizes|
    ensures Sum(sizes[..i + 1]) == Sum(sizes[..i]) + sizes[i]
  {
    assert sizes[..i + 1][..i] == sizes[..i];
  }

  lemma {:induction false} SumGrows(sizes: seq<nat>, i: nat)
    requires i <= |sizes|
    ensures Sum(sizes[..i]) <= Sum(sizes)
  {
    if i < |sizes| {
      assert sizes[..|sizes| - 1][..i] == sizes[..i];
      SumGrows(sizes[..|sizes| - 1], i);
    } else {
      assert sizes[..i] == sizes;
    }
  }

  class Ext4Filesystem {
    const disk: Disk
    /** One page for blocks of which only a part is wanted. */
    const scratch: array<Byte>

    constructor (disk: Disk)
      ensures this.disk == disk && scratch.Length == SCRATCH_SIZE && fresh(scratch)
    {
      this.disk := disk;
      scratch := new Byte[SCRATCH_SIZE](_ => 0);
    }

    /** Walks the extent tree. Index keys are compared with the low 32 bits of the block number. */
    method GetBlockFromExtent(inode: Inode, lb: nat) returns (r: Mapping)
      requires |inode.blockMap| == BLOCK_MAP_LENGTH
      requires Magic(inode.blockMap) == EXT_MAGIC ==>
                 Lookup(TreeOf(disk, inode), lb % BLOCK_LIMIT, lb) != Failed(Invalid)
      ensures r == if Magic(inode.blockMap) != EXT_MAGIC then Failed(Invalid)
                   else Lookup(TreeOf(disk, inode), lb % BLOCK_LIMIT, lb)
    {
      hide Decode, DecodeBlock, Lookup, FirstCover, Fits, KeyAt, ChildBlockAt;
      var node := inode.blockMap;
      if Magic(node) != EXT_MAGIC {
        return Failed(Invalid);
      }
      var key := lb % BLOCK_LIMIT;
      var depth := Depth(node);
      while depth > 0
        invariant Lookup(Decode(disk, node, depth), key, lb) == Lookup(TreeOf(disk, inode), key, lb)
      {
        ReachedNodeFits(disk, node, depth, key, lb);
        var best := ScanIndex(node, key);
        DescendOne(disk, node, depth, key, lb, best);
        if best.None? {
          return Failed(NotFound);
        }
        var buffer := disk.blocks(ChildBlockAt(node, best.value));
        if buffer.None? {
          return Failed(Io);
        }
        node := buffer.value;
        depth := depth - 1;
      }
      ReachedNodeFits(disk, node, depth, key, lb);
      DescendLeaf(disk, node, key, lb);
      r := ScanLeaf(node, lb);
    }

    /** Follows the pointers of a file without extents. */
    method GetBlockIndirect(inode: Inode, logicalBlock: nat) returns (r: Mapping)
      requires WellSized(disk) && |inode.blockMap| == BLOCK_MAP_LENGTH && logicalBlock < Reach(PointersPer(disk))
      ensures r == IndirectLookup(disk, inode.blockMap, logicalBlock)
    {
      hide Follow, Pow, PointerAt, MapEntry;
      var p := disk.blockSize / 4;
      PowersOf(p);
      if logicalBlock < NDIR_BLOCKS {
        return Mapped(MapEntry(inode.blockMap, logicalBlock));
      }
      var lb := logicalBlock - NDIR_BLOCKS;
      if lb < p {
        FollowOne(disk, MapEntry(inode.blockMap, 12), lb);
        var buffer := disk.blocks(MapEntry(inode.blockMap, 12));
        if buffer.None? {
          return Failed(Io);
        }
        return Mapped(PointerAt(buffer.value, lb));
      }
      lb := lb - p;
      if lb < p * p {
        r := GetThroughTwo(MapEntry(inode.blockMap, 13), lb);
        return;
      }
      lb := lb - p * p;
      r := GetThroughThree(MapEntry(inode.blockMap, 14), lb);
    }

    method GetThroughTwo(root: nat, lb: nat) returns (r: Mapping)
      requires WellSized(disk) && lb < PointersPer(disk) * PointersPer(disk)
      ensures lb < Pow(PointersPer(disk), 2) && r == Follow(disk, root, 2, lb)
    {
      hide Follow, Pow, PointerAt;
      var p := disk.blockSize / 4;
      FollowTwo(disk, root, lb);
      var buffer := disk.blocks(root);
      if buffer.None? {
        return Failed(Io);
      }
      var indirect := PointerAt(buffer.value, lb / p);
      FollowOne(disk, indirect, lb % p);
      buffer := disk.blocks(indirect);
      if buffer.None? {
        return Failed(Io);
      }
      return Mapped(PointerAt(buffer.value, lb % p));
    }

    method GetThroughThree(root: nat, lb: nat) returns (r: Mapping)
      requires WellSized(disk) && lb < PointersPer(disk) * PointersPer(disk) * PointersPer(disk)
      ensures lb < Pow(PointersPer(disk), 3) && r == Follow(disk, root, 3, lb)
    {
      hide Follow, Pow, PointerAt;
      var p := disk.blockSize / 4;
      FollowThree(disk, root, lb);
      var buffer := disk.blocks(root);
      if buffer.None? {
        return Failed(Io);
      }
      var double := PointerAt(buffer.value, lb / (p * p));
      FollowTwo(disk, double, lb % (p * p));
      buffer := disk.blocks(double);
      if buffer.None? {
        return Failed(Io);
      }
      var indirect := PointerAt(buffer.value, lb / p % p);
      FollowOne(disk, indirect, lb % p);
      buffer := disk.blocks(indirect);
      if buffer.None? {
        return Failed(Io);
      }
      return Mapped(PointerAt(buffer.value, lb % p));
    }

    method GetBlock(inode: Inode, lb: nat) returns (r: Mapping)
      requires Askable(disk, inode, lb)
      ensures r == BlockOf(disk, inode, lb)
    {
      if inode.usesExtents {
        r := GetBlockFromExtent(inode, lb);
      } else {
        r := GetBlockIndirect(inode, lb);
      }
    }

    /** One chunk of a read: zeros for a hole, straight into the caller's buffer for a whole block, else through the
        scratch page. */
    method ReadChunk(inode: Inode, lb: nat, start: nat, dst: array<Byte>, at: nat, chunk: nat)
      returns (failure: Option<Ext4Error>)
      requires Askable(disk, inode, lb) && start + chunk <= disk.blockSize && at + chunk <= dst.Length
      requires disk.blockSize <= scratch.Length && scratch != dst
      modifies dst, scratch
      ensures failure.Some? ==> BlockBytes(disk, inode, lb) == Lost(failure.value)
      ensures failure.Some? ==> dst[..at] == old(dst[..at]) && dst[at + chunk..] == old(dst[at + chunk..])
      ensures failure.None? ==>
                var c := BlockBytes(disk, inode, lb);
                c.Stored? && Spliced(dst, at, c.bytes[start..start + chunk])
    {
      hide Askable, BlockOf, Zeros;
      AskableIsSized(disk, inode, lb);
      var m := GetBlock(inode, lb);
      if m.Failed? {
        return Some(m.error);
      }
      if m.block == 0 {
        FillZero(dst, at, chunk);
        PartOfZeros(disk.blockSize, start, chunk);
      } else if start == 0 && chunk == disk.blockSize {
        var ok := LoadBlock(disk, m.block, dst, at);
        if !ok {
          return Some(Io);
        }
        BlockLength(disk, m.block);
        assert disk.blocks(m.block).value[0..disk.blockSize] == disk.blocks(m.block).value;
      } else {
        var ok := LoadPart(disk, m.block, scratch, start, dst, at, chunk);
        if !ok {
          return Some(Io);
        }
      }
      return None;
    }

    /** Reads up to `dst.Length` bytes of a file from a byte offset on. On success the count is what the file has
        left or the buffer holds, and the bytes are the file's; it fails exactly with the error of the first block
        that cannot be had, a hole of an extent tree included, or because of the block size. */
    method ReadAtInto(inode: Inode, offset: nat, dst: array<Byte>) returns (r: Outcome)
      requires MapsWhole(disk, inode) && scratch.Length == SCRATCH_SIZE && scratch != dst
      modifies dst, scratch
      ensures r.Done? ==>
                && r.count == (if offset >= inode.size then 0 else Min(dst.Length, inode.size - offset))
                && IsSlice(disk, inode, offset, dst[..r.count]) && dst[r.count..] == old(dst[r.count..])
      ensures r.ReadFailed? ==>
                && offset < inode.size && dst.Length > 0
                && if disk.blockSize == 0 then r.error == Invalid
                   else if disk.blockSize > SCRATCH_SIZE then r.error == NoMem
                   else LosesBefore(disk, inode, offset, Min(dst.Length, inode.size - offset), r.error)
    {
      hide Askable, BlockBytes, BlockNumber, BlockOffset, IsSlice, AllStored, LosesBefore, MapsWhole;
      EmptySlice(disk, inode, offset);
      assert dst[..0] == [];
      if offset >= inode.size || dst.Length == 0 {
        return Done(0);
      }
      if disk.blockSize == 0 {
        return ReadFailed(Invalid);
      }
      if disk.blockSize > SCRATCH_SIZE {
        return ReadFailed(NoMem);
      }
      var toRead := Min(dst.Length, inode.size - offset);
      var total := 0;
      NothingYet(disk, inode, offset);
      while total < toRead
        invariant total <= toRead && dst[toRead..] == old(dst[toRead..])
        invariant IsSlice(disk, inode, offset, dst[..total])
        invariant AllStored(disk, inode, offset, BlockNumber(disk, offset + total))
      {
        var lb, start := BlockNumber(disk, offset + total), BlockOffset(disk, offset + total);
        var chunk := Min(disk.blockSize - start, toRead - total);
        BlockInFile(disk, inode, offset + total);
        ghost var done := dst[..total];
        var failure := ReadChunk(inode, lb, start, dst, total, chunk);
        if failure.Some? {
          LostHere(disk, inode, offset, total, toRead, failure.value);
          return ReadFailed(failure.value);
        }
        ChunkDone(disk, inode, offset, done, dst[total..total + chunk]);
        assert dst[..total + chunk] == done + dst[total..total + chunk];
        total := total + chunk;
      }
      return Done(total);
    }
  }

  /** An open file: every read goes on where the last one ended. */
  class Ext4FileHandle {
    const fs: Ext4Filesystem
    const inode: Inode
    var position: nat

    constructor (fs: Ext4Filesystem, inode: Inode)
      ensures this.fs == fs && this.inode == inode && position == 0
    {
      this.fs := fs;
      this.inode := inode;
      position := 0;
    }

    /** One chunk, through a block buffer. */
    method ReadPart(lb: nat, start: nat, blockBuffer: array<Byte>, buffer: array<Byte>, at: nat, n: nat)
      returns (failure: Option<Ext4Error>)
      requires Askable(fs.disk, inode, lb) && start + n <= fs.disk.blockSize && at + n <= buffer.Length
      requires blockBuffer.Length == fs.disk.blockSize && blockBuffer != buffer
      modifies buffer, blockBuffer
      ensures failure.Some? ==> BlockBytes(fs.disk, inode, lb) == Lost(failure.value) && buffer[..] == old(buffer[..])
      ensures failure.None? ==>
                var c := BlockBytes(fs.disk, inode, lb);
                c.Stored? && Spliced(buffer, at, c.bytes[start..start + n])
    {
      hide Askable, BlockOf, Zeros;
      AskableIsSized(fs.disk, inode, lb);
      var m := fs.GetBlock(inode, lb);
      if m.Failed? {
        return Some(m.error);
      }
      if m.block == 0 {
        FillZero(buffer, at, n);
        PartOfZeros(fs.disk.blockSize, start, n);
      } else {
        var ok := LoadPart(fs.disk, m.block, blockBuffer, start, buffer, at, n);
        if !ok {
          return Some(Io);
        }
      }
      return None;
    }

    /** Reads on from the position. On failure the position is at the block that could not be had, behind bytes that
        were read. */
    method Read(buffer: array<Byte>) returns (r: Outcome)
      requires MapsWhole(fs.disk, inode) && fs.disk.blockSize > 0
      modifies buffer, this`position
      ensures old(position) <= position <= old(position) + buffer.Length
      ensures IsSlice(fs.disk, inode, old(position), buffer[..position - old(position)])
      ensures r.Done? ==>
                && r.count == position - old(position)
                && r.count == if old(position) >= inode.size then 0 else Min(buffer.Length, inode.size - old(position))
      ensures r.ReadFailed? ==>
                && position < inode.size && position - old(position) < buffer.Length
                && Askable(fs.disk, inode, BlockNumber(fs.disk, position))
                && BlockBytes(fs.disk, inode, BlockNumber(fs.disk, position)) == Lost(r.error)
    {
      hide Askable, BlockBytes, BlockNumber, BlockOffset, IsSlice, AllStored, MapsWhole;
      ghost var disk, from := fs.disk, position;
      NothingYet(disk, inode, from);
      assert buffer[..0] == [];
      if position >= inode.size {
        return Done(0);
      }
      var size := Min(buffer.Length, inode.size - position);
      var blockBuffer := new Byte[fs.disk.blockSize](_ => 0);
      var total := 0;
      while total < size
        invariant total <= size && position == from + total
        invariant IsSlice(disk, inode, from, buffer[..total])
        invariant AllStored(disk, inode, from, BlockNumber(disk, from + total))
      {
        var lb, start := BlockNumber(fs.disk, position), BlockOffset(fs.disk, position);
        var n := Min(fs.disk.blockSize - start, size - total);
        BlockInFile(disk, inode, position);
        ghost var done := buffer[..total];
        var failure := ReadPart(lb, start, blockBuffer, buffer, total, n);
        if failure.Some? {
          assert buffer[..total] == done;
          return ReadFailed(failure.value);
        }
        ChunkDone(disk, inode, from, done, buffer[total..total + n]);
        assert buffer[..total + n] == done + buffer[total..total + n];
        position := position + n;
        total := total + n;
      }
      return Done(total);
    }

    /** Reads one after the other, with buffers of any sizes, give the file from the position on: as much as the
        buffers hold together or the file has left, unless a read meets a block that cannot be had. */
    method ReadSuccessively(sizes: seq<nat>) returns (contents: seq<Byte>, failure: Option<Ext4Error>)
      requires MapsWhole(fs.disk, inode) && fs.disk.blockSize > 0
      modifies this`position
      ensures position == old(position) + |contents| && IsSlice(fs.disk, inode, old(position), contents)
      ensures failure.None? ==> |contents| == Available(inode, old(position), Sum(sizes))
      ensures failure.Some? ==>
                && |contents| < Available(inode, old(position), Sum(sizes))
                && Askable(fs.disk, inode, BlockNumber(fs.disk, position))
                && BlockBytes(fs.disk, inode, BlockNumber(fs.disk, position)) == Lost(failure.value)
    {
      hide Askable, BlockBytes, BlockNumber, BlockOffset, IsSlice, MapsWhole;
      contents, failure := [], None;
      EmptySlice(fs.disk, inode, position);
      for i := 0 to |sizes|
        invariant position == old(position) + |contents| && IsSlice(fs.disk, inode, old(position), contents)
        invariant |contents| == Available(inode, old(position), Sum(sizes[..i]))
      {
        SumOfPrefix(sizes, i);
        var buffer := new Byte[sizes[i]](_ => 0);
        var before := position;
        var r := Read(buffer);
        SlicesConcatenate(fs.disk, inode, old(position), contents, buffer[..position - before]);
        contents := contents + buffer[..position - before];
        if r.ReadFailed? {
          failure := Some(r.error);
          SumGrows(sizes, i + 1);
          return;
        }
      }
      assert sizes[..|sizes|] == sizes;
    }
  }
}
