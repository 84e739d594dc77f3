/** The boot loader's ext4 reader. It has one static buffer for map blocks and reports every failure as block 0. */
module Ext4Boot {
  import opened Buffers
  import opened Bytes
  import opened Division
  import opened ExtentTree
  import opened FileContents
  import opened IndirectBlocks

  const BLOCK_BUFFER_SIZE: nat := 4096

  /** What the boot loader makes of a lookup: zero stands for every failure, as it does for a hole. */
  function OrZero(m: Mapping): nat {
    if m.Mapped? then m.block else 0
  }

  /** The block map can be asked: as for the kernel, but index keys are compared with the whole block number. */
  ghost predicate BootAskable(disk: Disk, inode: Inode, lb: nat) {
    && WellSized(disk) && |inode.blockMap| == BLOCK_MAP_LENGTH
    && if inode.usesExtents then
         Magic(inode.blockMap) == EXT_MAGIC ==> Lookup(TreeOf(disk, inode), lb, lb) != Failed(Invalid)
       else
         lb < Reach(PointersPer(disk))
  }

  ghost function BootMapping(disk: Disk, inode: Inode, lb: nat): Mapping
    requires BootAskable(disk, inode, lb)
  {
    if !inode.usesExtents then IndirectLookup(disk, inode.blockMap, lb)
    else if Magic(inode.blockMap) != EXT_MAGIC then Failed(Invalid)
    else Lookup(TreeOf(disk, inode), lb, lb)
  }

  /** The bytes the boot loader takes for logical block `lb`. */
  ghost function BootBytes(disk: Disk, inode: Inode, lb: nat): (c: Chunk)
    requires BootAskable(disk, inode, lb)
    ensures c.Stored? ==> |c.bytes| == disk.blockSize
  {
    Stores(disk, Mapped(OrZero(BootMapping(disk, inode, lb))))
  }

  /** Kernel and boot loader find the same block in every well-formed tree, beyond 32 bits too. */
  lemma SameLookup(t: Tree, lb: nat)
    requires WellFormed(t, 0, BLOCK_LIMIT - 1)
    ensures Lookup(t, lb % BLOCK_LIMIT, lb) == Lookup(t, lb, lb)
  {
    if lb >= BLOCK_LIMIT {
      LookupIsFlatMap(t, 0, BLOCK_LIMIT - 1, lb % BLOCK_LIMIT, lb);
      LookupIsFlatMap(t, 0, BLOCK_LIMIT - 1, lb, lb);
      FlatIsOrdered(t, 0, BLOCK_LIMIT - 1);
    }
  }

  /** Whatever the kernel can read of a file with a well-formed map, the boot loader reads too, byte for byte. */
  lemma BootReadsWhatKernelReads(disk: Disk, inode: Inode, lb: nat)
    requires Askable(disk, inode, lb) && BootAskable(disk, inode, lb)
    requires inode.usesExtents && Magic(inode.blockMap) == EXT_MAGIC ==>
               WellFormed(TreeOf(disk, inode), 0, BLOCK_LIMIT - 1)
    requires BlockBytes(disk, inode, lb).Stored?
    ensures BootBytes(disk, inode, lb) == BlockBytes(disk, inode, lb)
  {
    hide Lookup, WellFormed, Decode, IndirectLookup;
    if inode.usesExtents && Magic(inode.blockMap) == EXT_MAGIC {
      SameLookup(TreeOf(disk, inode), lb);
    }
  }

  /** On every path of pointers to the block, all pointer blocks can be read. */
  ghost predicate PointersReadable(disk: Disk, inode: Inode, lb: nat)
    requires BootAskable(disk, inode, lb) && !inode.usesExtents
  {
    lb >= NDIR_BLOCKS ==>
      var w := WayTo(disk, inode.blockMap, lb);
      WayReadable(disk, w.root, w.level, w.index)
  }

  /** When kernel and boot loader disagree about a block: at a hole of an extent tree, everywhere in a file whose
      tree has a wrong magic number, and where a pointer block cannot be read. A data block that cannot be read is no
      such case. */
  lemma ReadersDisagree(disk: Disk, inode: Inode, lb: nat)
    requires Askable(disk, inode, lb) && BootAskable(disk, inode, lb)
    requires inode.usesExtents && Magic(inode.blockMap) == EXT_MAGIC ==>
               WellFormed(TreeOf(disk, inode), 0, BLOCK_LIMIT - 1)
    ensures BootBytes(disk, inode, lb) != BlockBytes(disk, inode, lb) <==>
            if !inode.usesExtents then !PointersReadable(disk, inode, lb)
            else Magic(inode.blockMap) != EXT_MAGIC || Hole(Flatten(TreeOf(disk, inode)), lb)
  {
    hide Lookup, WellFormed, Decode, Flatten, Follow, WayReadable, Pow, Maps, Hole;
    if !inode.usesExtents {
      if lb >= NDIR_BLOCKS {
        var w := WayTo(disk, inode.blockMap, lb);
        IndirectFollowsWay(disk, inode.blockMap, lb);
        FollowedIffReadable(disk, w.root, w.level, w.index);
      }
    } else if Magic(inode.blockMap) == EXT_MAGIC {
      var t := TreeOf(disk, inode);
      SameLookup(t, lb);
      LookupIsFlatMap(t, 0, BLOCK_LIMIT - 1, lb, lb);
      MappedIsNoHole(Flatten(t), lb);
    }
  }

  lemma MappedIsNoHole(extents: seq<Extent>, lb: nat)
    ensures Hole(extents, lb) <==> !exists p: nat :: Maps(extents, lb, p)
  {
    if e :| e in extents && e.Covers(lb) {
      assert Maps(extents, lb, e.start + (lb - e.first));
    }
  }

  // ---- whole files ----

  /** Byte `k` of the file, as the boot loader sees it, is `v`. */
  ghost predicate BootHas(disk: Disk, inode: Inode, k: nat, v: Byte) {
    && disk.blockSize > 0 && BootAskable(disk, inode, BlockNumber(disk, k))
    && var c := BootBytes(disk, inode, BlockNumber(disk, k));
       c.Stored? && c.bytes[BlockOffset(disk, k)] == v
  }

  ghost predicate BootPrefix(disk: Disk, inode: Inode, bytes: seq<Byte>) {
    forall i :: 0 <= i < |bytes| ==> BootHas(disk, inode, i, bytes[i])
  }

  /** Block `lb` is the first whose bytes the boot loader cannot have, and begins before byte `end`. */
  ghost predicate BootLosesBefore(disk: Disk, inode: Inode, end: nat) {
    exists lb: nat :: lb * disk.blockSize < end && BootFirstLost(disk, inode, lb)
  }

  ghost predicate BootFirstLost(disk: Disk, inode: Inode, lb: nat) {
    && BootAskable(disk, inode, lb) && BootBytes(disk, inode, lb) == Lost(Io)
    && BootStoredBelow(disk, inode, lb)
  }

  ghost predicate BootStoredBelow(disk: Disk, inode: Inode, lb: nat) {
    forall b: nat :: b < lb ==> BootAskable(disk, inode, b) && BootBytes(disk, inode, b).Stored?
  }

  lemma EmptyPrefix(disk: Disk, inode: Inode)
    ensures BootPrefix(disk, inode, [])
  {
  }

  /** The first part of block `lb` extends the blocks before it. */
  lemma BootPrefixGrows(disk: Disk, inode: Inode, lb: nat, done: seq<Byte>, part: seq<Byte>)
    requires BootPrefix(disk, inode, done) && disk.blockSize > 0 && |done| == lb * disk.blockSize
    requires BootAskable(disk, inode, lb) && |part| <= disk.blockSize
    requires BootBytes(disk, inode, lb).Stored? && part == BootBytes(disk, inode, lb).bytes[..|part|]
    ensures BootPrefix(disk, inode, done + part)
  {
    hide BootAskable, BootBytes;
    forall i | 0 <= i < |done + part|
      ensures BootHas(disk, inode, i, (done + part)[i])
    {
      if i < |done| {
        assert BootHas(disk, inode, i, done[i]);
      } else {
        QuotientIs(i, disk.blockSize, lb, i - |done|);
      }
    }
  }

  /** Where the kernel can read the whole prefix, the boot loader has loaded the kernel's view of the file. */
  lemma BootLoadsTheFile(disk: Disk, inode: Inode, bytes: seq<Byte>, view: seq<Byte>)
    requires BootPrefix(disk, inode, bytes) && IsSlice(disk, inode, 0, view) && |bytes| == |view|
    requires inode.usesExtents && |inode.blockMap| == BLOCK_MAP_LENGTH && Magic(inode.blockMap) == EXT_MAGIC ==>
               WellFormed(TreeOf(disk, inode), 0, BLOCK_LIMIT - 1)
    ensures bytes == view
  {
    hide WellFormed, BootAskable, Askable, BootBytes, BlockBytes;
    forall i | 0 <= i < |bytes|
      ensures bytes[i] == view[i]
    {
      assert BootHas(disk, inode, i, bytes[i]) && FileHas(disk, inode, 0 + i, view[i]);
      AskableHasMap(disk, inode, BlockNumber(disk, i));
      BootReadsWhatKernelReads(disk, inode, BlockNumber(disk, i));
    }
  }

  lemma AskableHasMap(disk: Disk, inode: Inode, lb: nat)
    requires Askable(disk, inode, lb)
    ensures |inode.blockMap| == BLOCK_MAP_LENGTH
  {
  }

  lemma FrontOfPart(s: seq<Byte>, at: nat, n: nat, size: nat)
    requires n <= size && at + size <= |s|
    ensures s[at..at + n] == s[at..at + size][..n]
  {
  }

  class BootContext {
    const disk: Disk
    const blockBuffer2: array<Byte>

    constructor (disk: Disk)
      ensures this.disk == disk && blockBuffer2.Length == BLOCK_BUFFER_SIZE && fresh(blockBuffer2)
    {
      this.disk := disk;
      blockBuffer2 := new Byte[BLOCK_BUFFER_SIZE](_ => 0);
    }

    ghost predicate Valid() {
      WellSized(disk) && 0 < disk.blockSize <= blockBuffer2.Length
    }

    /** Reads a map block into the static buffer. */
    method LoadMapBlock(block: nat) returns (ok: bool, node: seq<Byte>)
      requires Valid()
      modifies blockBuffer2
      ensures ok <==> disk.blocks(block).Some?
      ensures ok ==> node == disk.blocks(block).value == blockBuffer2[..disk.blockSize]
    {
      ok := LoadBlock(disk, block, blockBuffer2, 0);
      node := blockBuffer2[0..disk.blockSize];
    }

    method GetBlockExtent(inode: Inode, lb: nat) returns (block: nat)
      requires Valid() && inode.usesExtents && BootAskable(disk, inode, lb)
      modifies blockBuffer2
      ensures block == OrZero(BootMapping(disk, inode, lb))
    {
      hide Decode, DecodeBlock, Lookup, FirstCover, Fits, KeyAt, ChildBlockAt;
      var header := inode.blockMap;
      if Magic(header) != EXT_MAGIC {
        return 0;
      }
      var depth := Depth(header);
      while depth > 0
        invariant Lookup(Decode(disk, header, depth), lb, lb) == Lookup(TreeOf(disk, inode), lb, lb)
      {
        ReachedNodeFits(disk, header, depth, lb, lb);
        var best := ScanIndex(header, lb);
        DescendOne(disk, header, depth, lb, lb, best);
        if best.None? {
          return 0;
        }
        var ok, node := LoadMapBlock(ChildBlockAt(header, best.value));
        if !ok {
          return 0;
        }
        header := node;
        depth := depth - 1;
      }
      ReachedNodeFits(disk, header, depth, lb, lb);
      DescendLeaf(disk, header, lb, lb);
      var m := ScanLeaf(header, lb);
      return OrZero(m);
    }

    method GetBlockIndirect(inode: Inode, logicalBlock: nat) returns (block: nat)
      requires Valid() && !inode.usesExtents && BootAskable(disk, inode, logicalBlock)
      modifies blockBuffer2
      ensures block == OrZero(BootMapping(disk, inode, logicalBlock))
    {
      hide Follow, Pow, PointerAt, MapEntry;
      var p := disk.blockSize / 4;
      PowersOf(p);
      if logicalBlock < NDIR_BLOCKS {
        return MapEntry(inode.blockMap, logicalBlock);
      }
      var lb := logicalBlock - NDIR_BLOCKS;
      if lb < p {
        FollowOne(disk, MapEntry(inode.blockMap, 12), lb);
        block := LoadPointer(MapEntry(inode.blockMap, 12), lb);
        return;
      }
      lb := lb - p;
      if lb < p * p {
        block := GetThroughTwo(MapEntry(inode.blockMap, 13), lb);
        return;
      }
      lb := lb - p * p;
      block := GetThroughThree(MapEntry(inode.blockMap, 14), lb);
    }

    /** Pointer `i` of a map block, zero if it cannot be read. */
    method LoadPointer(block: nat, i: nat) returns (pointer: nat)
      requires Valid() && i < PointersPer(disk)
      modifies blockBuffer2
      ensures pointer == if disk.blocks(block).None? then 0 else PointerAt(disk.blocks(block).value, i)
    {
      var ok, node := LoadMapBlock(block);
      if !ok {
        return 0;
      }
      return PointerAt(node, i);
    }

    method GetThroughTwo(root: nat, lb: nat) returns (block: nat)
      requires Valid() && lb < PointersPer(disk) * PointersPer(disk)
      modifies blockBuffer2
      ensures lb < Pow(PointersPer(disk), 2) && block == OrZero(Follow(disk, root, 2, lb))
    {
      hide Follow, Pow, PointerAt;
      var p := disk.blockSize / 4;
      FollowTwo(disk, root, lb);
      var ok, node := LoadMapBlock(root);
      if !ok {
        return 0;
      }
      var indirect := PointerAt(node, lb / p);
      FollowOne(disk, indirect, lb % p);
      block := LoadPointer(indirect, lb % p);
    }

    method GetThroughThree(root: nat, lb: nat) returns (block: nat)
      requires Valid() && lb < PointersPer(disk) * PointersPer(disk) * PointersPer(disk)
      modifies blockBuffer2
      ensures lb < Pow(PointersPer(disk), 3) && block == OrZero(Follow(disk, root, 3, lb))
    {
      hide Follow, Pow, PointerAt;
      var p := disk.blockSize / 4;
      FollowThree(disk, root, lb);
      var ok, node := LoadMapBlock(root);
      if !ok {
        return 0;
      }
      var double := PointerAt(node, lb / (p * p));
      FollowTwo(disk, double, lb % (p * p));
      ok, node := LoadMapBlock(double);
      if !ok {
        return 0;
      }
      var indirect := PointerAt(node, lb / p % p);
      FollowOne(disk, indirect, lb % p);
      block := LoadPointer(indirect, lb % p);
    }

    method GetBlock(inode: Inode, lb: nat) returns (block: nat)
      requires Valid() && BootAskable(disk, inode, lb)
      modifies blockBuffer2
      ensures block == OrZero(BootMapping(disk, inode, lb))
    {
      if inode.usesExtents {
        block := GetBlockExtent(inode, lb);
      } else {
        block := GetBlockIndirect(inode, lb);
      }
    }

    /** Loads a file, or as much as `maxSize`, block by block. The last block may spill over behind the file. */
    method ReadFile(inode: Inode, dest: array<Byte>, maxSize: nat) returns (ok: bool, sizeOut: nat)
      requires Valid() && dest != blockBuffer2
      requires forall lb: nat :: lb * disk.blockSize < inode.size && lb * disk.blockSize < maxSize ==>
                 BootAskable(disk, inode, lb) && (lb + 1) * disk.blockSize <= dest.Length
      requires maxSize <= dest.Length || inode.size <= dest.Length
      modifies dest, blockBuffer2
      ensures ok ==> sizeOut == (if inode.size > maxSize then maxSize else inode.size)
      ensures ok ==> sizeOut <= dest.Length && BootPrefix(disk, inode, dest[..sizeOut])
      ensures !ok ==> BootLosesBefore(disk, inode, if inode.size > maxSize then maxSize else inode.size)
    {
      hide BootAskable, BootBytes, BootMapping, BootPrefix;
      var fileSize := if inode.size > maxSize then maxSize else inode.size;
      var remaining: nat, done: nat, logicalBlock: nat := fileSize, 0, 0;
      EmptyPrefix(disk, inode);
      assert dest[..0] == [];
      while remaining > 0
        invariant done + remaining == fileSize <= dest.Length
        invariant remaining > 0 ==> done == logicalBlock * disk.blockSize
        invariant BootPrefix(disk, inode, dest[..done]) && BootStoredBelow(disk, inode, logicalBlock)
        decreases remaining
      {
        ghost var before := dest[..done];
        var n := if remaining > disk.blockSize then disk.blockSize else remaining;
        assert (logicalBlock + 1) * disk.blockSize == done + disk.blockSize;
        var read := LoadChunk(inode, logicalBlock, dest, done, n);
        if !read {
          assert BootFirstLost(disk, inode, logicalBlock);
          return false, 0;
        }
        BootPrefixGrows(disk, inode, logicalBlock, before, dest[done..done + n]);
        assert dest[..done + n] == before + dest[done..done + n];
        done := done + n;
        remaining := remaining - n;
        logicalBlock := logicalBlock + 1;
      }
      return true, done;
    }

    /** Loads one block of a file: `n` zeros if it has none, else the whole block. */
    method LoadChunk(inode: Inode, lb: nat, dest: array<Byte>, at: nat, n: nat) returns (ok: bool)
      requires Valid() && dest != blockBuffer2 && BootAskable(disk, inode, lb)
      requires n <= disk.blockSize && at + disk.blockSize <= dest.Length
      modifies dest, blockBuffer2
      ensures !ok ==> BootBytes(disk, inode, lb) == Lost(Io)
      ensures ok ==> BootBytes(disk, inode, lb).Stored?
      ensures ok ==> dest[..at] == old(dest[..at]) && dest[at..at + n] == BootBytes(disk, inode, lb).bytes[..n]
    {
      hide BootAskable, BootMapping, Zeros;
      var block := GetBlock(inode, lb);
      if block == 0 {
        FillZero(dest, at, n);
        PartOfZeros(disk.blockSize, 0, n);
        return true;
      }
      ok := LoadBlock(disk, block, dest, at);
      if ok {
        BlockLength(disk, block);
        FrontOfPart(dest[..], at, n, disk.blockSize);
        assert dest[at..at + n] == dest[..][at..at + n];
        assert dest[at..at + disk.blockSize] == dest[..][at..at + disk.blockSize];
      }
    }
  }
}
