/** Files as bytes: what an inode's block map and the device say about every byte of a file. */
module FileContents {
  import opened Bytes
  import opened Division
  import opened ExtentTree
  import opened IndirectBlocks

  const BLOCK_MAP_LENGTH: nat := 60

  /** What reading needs of an inode: its size, its extents flag and its 60 bytes of block map. */
  datatype Inode = Inode(size: nat, usesExtents: bool, blockMap: seq<Byte>)

  /** The extent tree whose root is in the inode. */
  ghost function TreeOf(disk: Disk, inode: Inode): Tree
    requires |inode.blockMap| == BLOCK_MAP_LENGTH
  {
    Decode(disk, inode.blockMap, Depth(inode.blockMap))
  }

  /** The block map can be asked for this block: the pointers reach it, or no node on the way is overfull. */
  ghost predicate Askable(disk: Disk, inode: Inode, lb: nat) {
    && WellSized(disk) && |inode.blockMap| == BLOCK_MAP_LENGTH
    && if inode.usesExtents then
         Magic(inode.blockMap) == EXT_MAGIC ==> Lookup(TreeOf(disk, inode), lb % BLOCK_LIMIT, lb) != Failed(Invalid)
       else
         lb < Reach(PointersPer(disk))
  }

  /** Where the kernel finds logical block `lb`. Block 0 stands for a hole. */
  ghost function BlockOf(disk: Disk, inode: Inode, lb: nat): Mapping
    requires Askable(disk, inode, lb)
  {
    if !inode.usesExtents then IndirectLookup(disk, inode.blockMap, lb)
    else if Magic(inode.blockMap) != EXT_MAGIC then Failed(Invalid)
    else Lookup(TreeOf(disk, inode), lb % BLOCK_LIMIT, lb)
  }

  datatype Chunk = Stored(bytes: seq<Byte>) | Lost(error: Ext4Error)

  ghost function Zeros(n: nat): (z: seq<Byte>)
    ensures |z| == n
  {
    seq(n, _ => 0)
  }

  /** What a mapped block holds: zeros for a hole, else what the device says. */
  ghost function Stores(disk: Disk, m: Mapping): (c: Chunk)
    requires WellSized(disk)
    ensures c.Stored? ==> |c.bytes| == disk.blockSize
  {
    match m
    case Failed(e) => Lost(e)
    case Mapped(p) =>
      if p == 0 then Stored(Zeros(disk.blockSize))
      else if disk.blocks(p).None? then Lost(Io)
      else Stored(disk.blocks(p).value)
  }

  /** The bytes of logical block `lb`. */
  ghost function BlockBytes(disk: Disk, inode: Inode, lb: nat): (c: Chunk)
    requires Askable(disk, inode, lb)
    ensures c.Stored? ==> |c.bytes| == disk.blockSize
  {
    Stores(disk, BlockOf(disk, inode, lb))
  }

  /** Every block of the file can be asked for. */
  ghost predicate MapsWhole(disk: Disk, inode: Inode) {
    && WellSized(disk) && |inode.blockMap| == BLOCK_MAP_LENGTH
    && (disk.blockSize > 0 ==> forall lb: nat :: lb * disk.blockSize < inode.size ==> Askable(disk, inode, lb))
  }

  /** The block byte `k` of a file lies in, and its place there. */
  function BlockNumber(disk: Disk, k: nat): nat
    requires disk.blockSize > 0
  {
    k / disk.blockSize
  }

  function BlockOffset(disk: Disk, k: nat): (o: nat)
    requires disk.blockSize > 0
    ensures o < disk.blockSize
  {
    k % disk.blockSize
  }

  /** Byte `k` of the file is `v`. */
  ghost predicate FileHas(disk: Disk, inode: Inode, k: nat, v: Byte) {
    && disk.blockSize > 0 && Askable(disk, inode, BlockNumber(disk, k))
    && var c := BlockBytes(disk, inode, BlockNumber(disk, k));
       c.Stored? && c.bytes[BlockOffset(disk, k)] == v
  }

  /** The bytes are the file's bytes from `offset` on. */
  ghost predicate IsSlice(disk: Disk, inode: Inode, offset: nat, bytes: seq<Byte>) {
    forall i :: 0 <= i < |bytes| ==> FileHas(disk, inode, offset + i, bytes[i])
  }

  /** Block `lb` is the first one, from the block of `offset` on, whose bytes cannot be had. */
  ghost predicate FirstLost(disk: Disk, inode: Inode, offset: nat, lb: nat, error: Ext4Error) {
    && disk.blockSize > 0 && BlockNumber(disk, offset) <= lb
    && Askable(disk, inode, lb) && BlockBytes(disk, inode, lb) == Lost(error)
    && AllStored(disk, inode, offset, lb)
  }

  /** The bytes of all blocks from that of `offset` up to `lb` can be had. */
  ghost predicate AllStored(disk: Disk, inode: Inode, offset: nat, lb: nat)
    requires disk.blockSize > 0
  {
    forall b: nat :: BlockNumber(disk, offset) <= b < lb ==>
      Askable(disk, inode, b) && BlockBytes(disk, inode, b).Stored?
  }

  /** Byte `o` of block `lb` is byte `lb * blockSize + o` of the file: a file is its blocks, one after the other. */
  lemma ByteOfBlock(disk: Disk, inode: Inode, lb: nat, o: nat, v: Byte)
    requires o < disk.blockSize && Askable(disk, inode, lb)
    ensures FileHas(disk, inode, lb * disk.blockSize + o, v) <==>
            BlockBytes(disk, inode, lb).Stored? && BlockBytes(disk, inode, lb).bytes[o] == v
  {
    hide Askable, BlockBytes;
    QuotientIs(lb * disk.blockSize + o, disk.blockSize, lb, o);
  }

  // ---- chunks of blocks ----

  lemma WithinBlock(size: nat, current: nat, d: nat)
    requires size > 0 && current % size + d < size
    ensures (current + d) / size == current / size && (current + d) % size == current % size + d
  {
    QuotientIs(current + d, size, current / size, current % size + d);
  }

  /** A part of a block extends a slice that ends where the part begins. */
  lemma SliceGrows(disk: Disk, inode: Inode, offset: nat, done: seq<Byte>, part: seq<Byte>)
    requires IsSlice(disk, inode, offset, done) && disk.blockSize > 0
    requires Askable(disk, inode, BlockNumber(disk, offset + |done|))
    requires BlockOffset(disk, offset + |done|) + |part| <= disk.blockSize
    requires var c := BlockBytes(disk, inode, BlockNumber(disk, offset + |done|));
             var start := BlockOffset(disk, offset + |done|);
             c.Stored? && part == c.bytes[start..start + |part|]
    ensures IsSlice(disk, inode, offset, done + part)
  {
    hide Askable, BlockBytes;
    var current, bytes := offset + |done|, done + part;
    forall i | 0 <= i < |bytes|
      ensures FileHas(disk, inode, offset + i, bytes[i])
    {
      if i < |done| {
        assert bytes[i] == done[i];
      } else {
        WithinBlock(disk.blockSize, current, i - |done|);
        assert offset + i == current + (i - |done|);
      }
    }
  }

  /** The next chunk ends in the same block, or at its end. */
  lemma NextBlock(size: nat, current: nat, chunk: nat)
    requires size > 0 && chunk > 0 && current % size + chunk <= size
    ensures (current + chunk) / size == if current % size + chunk == size then current / size + 1 else current / size
  {
    if current % size + chunk == size {
      QuotientIs(current + chunk, size, current / size + 1, 0);
    } else {
      WithinBlock(size, current, chunk);
    }
  }

  /** Slices that meet make one slice. */
  lemma SlicesConcatenate(disk: Disk, inode: Inode, offset: nat, a: seq<Byte>, b: seq<Byte>)
    requires IsSlice(disk, inode, offset, a) && IsSlice(disk, inode, offset + |a|, b)
    ensures IsSlice(disk, inode, offset, a + b)
  {
    forall i | 0 <= i < |a + b|
      ensures FileHas(disk, inode, offset + i, (a + b)[i])
    {
      if i < |a| {
        assert (a + b)[i] == a[i];
      } else {
        assert (a + b)[i] == b[i - |a|] && offset + i == offset + |a| + (i - |a|);
      }
    }
  }

  /** A file has one byte at every place. */
  lemma SliceIsUnique(disk: Disk, inode: Inode, offset: nat, a: seq<Byte>, b: seq<Byte>)
    requires IsSlice(disk, inode, offset, a) && IsSlice(disk, inode, offset, b) && |a| == |b|
    ensures a == b
  {
    forall i | 0 <= i < |a|
      ensures a[i] == b[i]
    {
      assert FileHas(disk, inode, offset + i, a[i]) && FileHas(disk, inode, offset + i, b[i]);
    }
  }

  /** The block of a byte of the file can be asked for, and starts at or before it. */
  lemma BlockInFile(disk: Disk, inode: Inode, k: nat)
    requires MapsWhole(disk, inode) && disk.blockSize > 0 && k < inode.size
    ensures Askable(disk, inode, BlockNumber(disk, k)) && BlockNumber(disk, k) * disk.blockSize <= k
  {
    assert k == disk.blockSize * BlockNumber(disk, k) + BlockOffset(disk, k);
    var lb: nat := BlockNumber(disk, k);
    assert lb * disk.blockSize < inode.size;
  }

  lemma AskableIsSized(disk: Disk, inode: Inode, lb: nat)
    requires Askable(disk, inode, lb)
    ensures WellSized(disk)
  {
  }

  lemma EmptySlice(disk: Disk, inode: Inode, offset: nat)
    ensures IsSlice(disk, inode, offset, [])
  {
  }

  lemma NothingYet(disk: Disk, inode: Inode, offset: nat)
    requires disk.blockSize > 0
    ensures IsSlice(disk, inode, offset, []) && AllStored(disk, inode, offset, BlockNumber(disk, offset))
  {
  }

  lemma PartOfZeros(size: nat, start: nat, n: nat)
    requires start + n <= size
    ensures Zeros(size)[start..start + n] == Zeros(n)
  {
  }

  /** The first lost block, if any, lies before byte `offset + n`. */
  ghost predicate LosesBefore(disk: Disk, inode: Inode, offset: nat, n: nat, error: Ext4Error) {
    exists lb: nat :: lb * disk.blockSize < offset + n && FirstLost(disk, inode, offset, lb, error)
  }

  /** The chunk that follows `done` bytes belongs to the first lost block. */
  lemma LostHere(disk: Disk, inode: Inode, offset: nat, done: nat, n: nat, error: Ext4Error)
    requires MapsWhole(disk, inode) && disk.blockSize > 0 && done < n && offset + n <= inode.size
    requires AllStored(disk, inode, offset, BlockNumber(disk, offset + done))
    requires Askable(disk, inode, BlockNumber(disk, offset + done))
    requires BlockBytes(disk, inode, BlockNumber(disk, offset + done)) == Lost(error)
    ensures LosesBefore(disk, inode, offset, n, error)
  {
    hide Askable, BlockBytes, AllStored;
    BlockInFile(disk, inode, offset + done);
    QuotientGrows(offset, offset + done, disk.blockSize);
    assert FirstLost(disk, inode, offset, BlockNumber(disk, offset + done), error);
  }

  /** One chunk of a read: the bytes done so far and the blocks seen so far both grow. */
  lemma ChunkDone(disk: Disk, inode: Inode, offset: nat, done: seq<Byte>, part: seq<Byte>)
    requires IsSlice(disk, inode, offset, done) && disk.blockSize > 0 && |part| > 0
    requires AllStored(disk, inode, offset, BlockNumber(disk, offset + |done|))
    requires Askable(disk, inode, BlockNumber(disk, offset + |done|))
    requires BlockOffset(disk, offset + |done|) + |part| <= disk.blockSize
    requires var c := BlockBytes(disk, inode, BlockNumber(disk, offset + |done|));
             var start := BlockOffset(disk, offset + |done|);
             c.Stored? && part == c.bytes[start..start + |part|]
    ensures IsSlice(disk, inode, offset, done + part)
    ensures AllStored(disk, inode, offset, BlockNumber(disk, offset + |done + part|))
  {
    hide Askable, BlockBytes;
    SliceGrows(disk, inode, offset, done, part);
    NextBlock(disk.blockSize, offset + |done|, |part|);
  }

  // ---- holes ----

  /** A hole loses the read of a file with extents, and reads as zeros in a file without. */
  lemma HolesDiffer(disk: Disk, inode: Inode, lb: nat)
    requires Askable(disk, inode, lb)
    ensures inode.usesExtents && Magic(inode.blockMap) == EXT_MAGIC
            && WellFormed(TreeOf(disk, inode), 0, BLOCK_LIMIT - 1) && Hole(Flatten(TreeOf(disk, inode)), lb) ==>
              BlockBytes(disk, inode, lb) == Lost(NotFound)
    ensures !inode.usesExtents && AllReadable(disk, inode.blockMap) && lb < |FlatBlocks(disk, inode.blockMap)|
            && FlatBlocks(disk, inode.blockMap)[lb] == 0 ==>
              BlockBytes(disk, inode, lb) == Stored(Zeros(disk.blockSize))
  {
    hide Flatten, Lookup, WellFormed, Decode, FlatBlocks, IndirectLookup, AllReadable;
    if inode.usesExtents {
      var t := TreeOf(disk, inode);
      if Magic(inode.blockMap) == EXT_MAGIC && WellFormed(t, 0, BLOCK_LIMIT - 1) && Hole(Flatten(t), lb) {
        LookupIsFlatMap(t, 0, BLOCK_LIMIT - 1, lb % BLOCK_LIMIT, lb);
      }
    } else if AllReadable(disk, inode.blockMap) {
      IndirectIsFlat(disk, inode.blockMap, lb);
    }
  }
}
