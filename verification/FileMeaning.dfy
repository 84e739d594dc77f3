/** What the file format means by a block map, and when the two readers give the bytes it means. */
module FileMeaning {
  import opened Bytes
  import opened Division
  import opened Ext4Boot
  import opened ExtentTree
  import opened FileContents
  import opened IndirectBlocks
  import opened Results

  /** Where the contents of a logical block come from: nowhere, because they are zeros, or a block of the device. */
  datatype Place = Zeroed | At(block: nat) | Unreachable(error: Ext4Error)

  /** The place both readers make of a mapping. */
  function PlaceFound(m: Mapping): Place {
    match m
    case Failed(e) => Unreachable(e)
    case Mapped(p) => if p == 0 then Zeroed else At(p)
  }

  ghost function PlaceBytes(disk: Disk, place: Place): (c: Chunk)
    requires WellSized(disk)
    ensures c.Stored? ==> |c.bytes| == disk.blockSize
  {
    match place
    case Zeroed => Stored(Zeros(disk.blockSize))
    case At(p) => if disk.blocks(p).None? then Lost(Io) else Stored(disk.blocks(p).value)
    case Unreachable(e) => Lost(e)
  }

  // ---- extents ----

  /** No two extents cover a block, with the lengths the format means. */
  ghost predicate TrulyApart(extents: seq<Extent>) {
    forall i, j :: 0 <= i < j < |extents| ==> extents[i].first + TrueLength(extents[i].field) <= extents[j].first
  }

  /** The extent a block belongs to. */
  ghost function Owner(extents: seq<Extent>, lb: nat): (o: Option<Extent>)
    ensures o.Some? ==> o.value in extents && o.value.TrulyCovers(lb)
    ensures o.None? ==> forall e :: e in extents ==> !e.TrulyCovers(lb)
  {
    if exists e :: e in extents && e.TrulyCovers(lb) then
      var e :| e in extents && e.TrulyCovers(lb);
      Some(e)
    else None
  }

  lemma OneOwner(extents: seq<Extent>, lb: nat, e: Extent)
    requires TrulyApart(extents) && e in extents && e.TrulyCovers(lb)
    ensures Owner(extents, lb) == Some(e)
  {
    var i :| 0 <= i < |extents| && extents[i] == e;
    var j :| 0 <= j < |extents| && extents[j] == Owner(extents, lb).value;
  }

  /** The true lengths cover what the masked ones cover, and an extent of 32768 blocks besides. */
  lemma CoverIsTrueCover(e: Extent, lb: nat)
    ensures e.Covers(lb) <==> e.TrulyCovers(lb) && e.field != 0x8000
  {
  }

  /** A block of an extent is stored where the extent says, one of an extent never written is zeros, and so is one
      that no extent covers. */
  ghost function MeantByExtents(extents: seq<Extent>, lb: nat): Place {
    match Owner(extents, lb)
    case None => Zeroed
    case Some(e) => if NeverWritten(e.field) then Zeroed else At(e.start + (lb - e.first))
  }

  /** The readers find a block exactly if an extent other than one of 32768 blocks covers it. */
  lemma LookupByOwner(t: Tree, key: nat, lb: nat)
    requires WellFormed(t, 0, BLOCK_LIMIT - 1) && TrulyApart(Flatten(t))
    requires key == lb || lb >= BLOCK_LIMIT - 1
    ensures var o := Owner(Flatten(t), lb);
            Lookup(t, key, lb) ==
            if o.Some? && o.value.field != 0x8000 then Mapped(o.value.start + (lb - o.value.first))
            else Failed(NotFound)
  {
    hide WellFormed, Flatten, Lookup, TrulyApart, Owner;
    LookupIsFlatMap(t, 0, BLOCK_LIMIT - 1, key, lb);
    var es, r, o := Flatten(t), Lookup(t, key, lb), Owner(Flatten(t), lb);
    if r.Mapped? {
      var e :| e in es && e.Covers(lb) && r.block == e.start + (lb - e.first);
      CoverIsTrueCover(e, lb);
      OneOwner(es, lb, e);
    } else if o.Some? {
      CoverIsTrueCover(o.value, lb);
    }
  }

  // ---- pointers ----

  /** Follows pointers as the format means them: a zero pointer at any level leaves everything below it out. */
  ghost function MeantFollow(disk: Disk, block: nat, level: nat, index: nat): Place
    requires WellSized(disk) && PointersPer(disk) > 0 && index < Pow(PointersPer(disk), level)
    decreases level
  {
    if block == 0 then Zeroed
    else if level == 0 then At(block)
    else if disk.blocks(block).None? then Unreachable(Io)
    else
      var below := Pow(PointersPer(disk), level - 1);
      SmallQuotient(index, below, PointersPer(disk));
      MeantFollow(disk, PointerAt(disk.blocks(block).value, index / below), level - 1, index % below)
  }

  /** What is left of a way: so many levels, and the number of the leaf below. */
  datatype Rest = Rest(level: nat, index: nat)

  /** The rest of the way from the first zero pointer above the last level on. */
  ghost function ZeroAbove(disk: Disk, block: nat, level: nat, index: nat): (z: Option<Rest>)
    requires WellSized(disk) && PointersPer(disk) > 0 && index < Pow(PointersPer(disk), level)
    ensures z.Some? ==> z.value.index < Pow(PointersPer(disk), z.value.level)
    decreases level
  {
    if level == 0 then None
    else if block == 0 then Some(Rest(level, index))
    else if disk.blocks(block).None? then None
    else
      var below := Pow(PointersPer(disk), level - 1);
      SmallQuotient(index, below, PointersPer(disk));
      ZeroAbove(disk, PointerAt(disk.blocks(block).value, index / below), level - 1, index % below)
  }

  /** Without such a pointer the readers follow the pointers as meant; with one they go on through block 0, where
      zeros are meant. */
  lemma {:induction false} FollowingZero(disk: Disk, block: nat, level: nat, index: nat)
    requires WellSized(disk) && PointersPer(disk) > 0 && index < Pow(PointersPer(disk), level)
    ensures var z := ZeroAbove(disk, block, level, index);
            if z.None? then PlaceFound(Follow(disk, block, level, index)) == MeantFollow(disk, block, level, index)
            else MeantFollow(disk, block, level, index) == Zeroed
                 && Follow(disk, block, level, index) == Follow(disk, 0, z.value.level, z.value.index)
    decreases level
  {
    if level > 0 && block != 0 && disk.blocks(block).Some? {
      var below := Pow(PointersPer(disk), level - 1);
      SmallQuotient(index, below, PointersPer(disk));
      FollowingZero(disk, PointerAt(disk.blocks(block).value, index / below), level - 1, index % below);
    }
  }

  // ---- files ----

  /** Where the format says that block `lb` is. */
  ghost function MeantPlace(disk: Disk, inode: Inode, lb: nat): Place
    requires Askable(disk, inode, lb)
  {
    if !inode.usesExtents then
      if lb < NDIR_BLOCKS then PlaceFound(Mapped(MapEntry(inode.blockMap, lb)))
      else var w := WayTo(disk, inode.blockMap, lb); MeantFollow(disk, w.root, w.level, w.index)
    else if Magic(inode.blockMap) != EXT_MAGIC then Unreachable(Invalid)
    else MeantByExtents(Flatten(TreeOf(disk, inode)), lb)
  }

  /** The contents of block `lb` as the format means them. */
  ghost function MeantBytes(disk: Disk, inode: Inode, lb: nat): (c: Chunk)
    requires Askable(disk, inode, lb)
    ensures c.Stored? ==> |c.bytes| == disk.blockSize
  {
    PlaceBytes(disk, MeantPlace(disk, inode, lb))
  }

  /** The rest of the way from the first zero pointer above the last level on, if the file has pointers. */
  ghost function ZeroOnWay(disk: Disk, inode: Inode, lb: nat): (z: Option<Rest>)
    requires Askable(disk, inode, lb) && !inode.usesExtents
    ensures z.Some? ==> PointersPer(disk) > 0 && z.value.index < Pow(PointersPer(disk), z.value.level)
  {
    if lb < NDIR_BLOCKS then None
    else var w := WayTo(disk, inode.blockMap, lb); ZeroAbove(disk, w.root, w.level, w.index)
  }

  ghost predicate HasTree(inode: Inode) {
    inode.usesExtents && |inode.blockMap| == BLOCK_MAP_LENGTH && Magic(inode.blockMap) == EXT_MAGIC
  }

  /** The extent tree, if there is one, is well-formed, also with the lengths the format means. */
  ghost predicate Sound(disk: Disk, inode: Inode) {
    HasTree(inode) ==>
      && WellFormed(TreeOf(disk, inode), 0, BLOCK_LIMIT - 1)
      && TrulyApart(Flatten(TreeOf(disk, inode)))
  }

  /** The kernel's guard: a written extent of fewer than 32768 blocks covers the block, and does not store it in block
      0; or no zero pointer above the last level leads there, unless block 0 of the device, taken for a pointer block,
      happens to end in a zero pointer. */
  ghost predicate KernelGuard(disk: Disk, inode: Inode, lb: nat)
    requires Askable(disk, inode, lb)
  {
    if !inode.usesExtents then
      var z := ZeroOnWay(disk, inode, lb);
      z.Some? ==> Follow(disk, 0, z.value.level, z.value.index) == Mapped(0)
    else if Magic(inode.blockMap) != EXT_MAGIC then true
    else
      var o := Owner(Flatten(TreeOf(disk, inode)), lb);
      && o.Some?
      && var p := o.value.start + (lb - o.value.first);
         if NeverWritten(o.value.field) then p == 0 else o.value.field != 0x8000 && p != 0
  }

  /** The boot loader's guard: holes are as good as written extents; but every pointer block has to be readable. */
  ghost predicate BootGuard(disk: Disk, inode: Inode, lb: nat)
    requires Askable(disk, inode, lb)
  {
    if !inode.usesExtents then
      var z := ZeroOnWay(disk, inode, lb);
      if z.None? then lb >= NDIR_BLOCKS ==>
        var w := WayTo(disk, inode.blockMap, lb);
        WayReadable(disk, w.root, w.level, w.index)
      else OrZero(Follow(disk, 0, z.value.level, z.value.index)) == 0
    else if Magic(inode.blockMap) != EXT_MAGIC then false
    else
      var o := Owner(Flatten(TreeOf(disk, inode)), lb);
      o.Some? ==>
        var p := o.value.start + (lb - o.value.first);
        if NeverWritten(o.value.field) then p == 0 else o.value.field != 0x8000 && p != 0
  }

  /** The kernel looks for a block where the format says it is exactly if its guard holds. */
  lemma KernelFindsMeaning(disk: Disk, inode: Inode, lb: nat)
    requires Askable(disk, inode, lb) && Sound(disk, inode)
    ensures PlaceFound(BlockOf(disk, inode, lb)) == MeantPlace(disk, inode, lb) <==> KernelGuard(disk, inode, lb)
  {
    hide Lookup, WellFormed, Decode, Flatten, TrulyApart, Follow, MeantFollow, ZeroAbove, Pow, Owner;
    if HasTree(inode) {
      LookupByOwner(TreeOf(disk, inode), lb % BLOCK_LIMIT, lb);
    } else if !inode.usesExtents && lb >= NDIR_BLOCKS {
      var w := WayTo(disk, inode.blockMap, lb);
      IndirectFollowsWay(disk, inode.blockMap, lb);
      FollowingZero(disk, w.root, w.level, w.index);
    }
  }

  /** And the boot loader, exactly if its own guard holds. */
  lemma BootFindsMeaning(disk: Disk, inode: Inode, lb: nat)
    requires Askable(disk, inode, lb) && BootAskable(disk, inode, lb) && Sound(disk, inode)
    ensures PlaceFound(Mapped(OrZero(BootMapping(disk, inode, lb)))) == MeantPlace(disk, inode, lb)
            <==> BootGuard(disk, inode, lb)
  {
    hide Lookup, WellFormed, Decode, Flatten, TrulyApart, Follow, MeantFollow, ZeroAbove, WayReadable, Pow, Owner;
    if HasTree(inode) {
      LookupByOwner(TreeOf(disk, inode), lb, lb);
    } else if !inode.usesExtents && lb >= NDIR_BLOCKS {
      var w := WayTo(disk, inode.blockMap, lb);
      IndirectFollowsWay(disk, inode.blockMap, lb);
      FollowingZero(disk, w.root, w.level, w.index);
      FollowedIffReadable(disk, w.root, w.level, w.index);
    }
  }

  // ---- bytes ----

  ghost predicate ZerosAt(disk: Disk, block: nat) {
    disk.blocks(block) == Some(Zeros(disk.blockSize))
  }

  /** The kernel's guard for bytes: where it looks in the wrong place, there are zeros by chance. */
  ghost predicate KernelBytesGuard(disk: Disk, inode: Inode, lb: nat)
    requires Askable(disk, inode, lb)
  {
    if !inode.usesExtents then
      var z := ZeroOnWay(disk, inode, lb);
      z.Some? ==>
        var m := Follow(disk, 0, z.value.level, z.value.index);
        m.Mapped? && (m.block == 0 || ZerosAt(disk, m.block))
    else if Magic(inode.blockMap) != EXT_MAGIC then true
    else
      var o := Owner(Flatten(TreeOf(disk, inode)), lb);
      && o.Some? && o.value.field != 0x8000
      && var p := o.value.start + (lb - o.value.first);
         if NeverWritten(o.value.field) then p == 0 || ZerosAt(disk, p) else p != 0 || ZerosAt(disk, 0)
  }

  ghost predicate BootBytesGuard(disk: Disk, inode: Inode, lb: nat)
    requires Askable(disk, inode, lb)
  {
    if !inode.usesExtents then
      var z := ZeroOnWay(disk, inode, lb);
      if z.None? then BootGuard(disk, inode, lb)
      else var p := OrZero(Follow(disk, 0, z.value.level, z.value.index)); p == 0 || ZerosAt(disk, p)
    else if Magic(inode.blockMap) != EXT_MAGIC then false
    else
      var o := Owner(Flatten(TreeOf(disk, inode)), lb);
      o.Some? ==>
        var p := o.value.start + (lb - o.value.first);
        if NeverWritten(o.value.field) then p == 0 || ZerosAt(disk, p)
        else (o.value.field != 0x8000 && p != 0) || ZerosAt(disk, p)
  }

  /** The kernel gives the bytes the format means exactly if its guard for bytes holds. */
  lemma KernelReadsMeaning(disk: Disk, inode: Inode, lb: nat)
    requires Askable(disk, inode, lb) && Sound(disk, inode)
    ensures BlockBytes(disk, inode, lb) == MeantBytes(disk, inode, lb) <==> KernelBytesGuard(disk, inode, lb)
  {
    hide Lookup, WellFormed, Decode, Flatten, TrulyApart, Follow, MeantFollow, ZeroAbove, Pow, Owner, Zeros;
    if HasTree(inode) {
      LookupByOwner(TreeOf(disk, inode), lb % BLOCK_LIMIT, lb);
    } else if !inode.usesExtents && lb >= NDIR_BLOCKS {
      var w := WayTo(disk, inode.blockMap, lb);
      IndirectFollowsWay(disk, inode.blockMap, lb);
      FollowingZero(disk, w.root, w.level, w.index);
    }
  }

  /** And the boot loader, exactly if its own guard for bytes holds. */
  lemma BootReadsMeaning(disk: Disk, inode: Inode, lb: nat)
    requires Askable(disk, inode, lb) && BootAskable(disk, inode, lb) && Sound(disk, inode)
    ensures BootBytes(disk, inode, lb) == MeantBytes(disk, inode, lb) <==> BootBytesGuard(disk, inode, lb)
  {
    hide Lookup, WellFormed, Decode, Flatten, TrulyApart, Follow, MeantFollow, ZeroAbove, WayReadable, Pow, Owner;
    hide Zeros;
    if HasTree(inode) {
      LookupByOwner(TreeOf(disk, inode), lb, lb);
    } else if !inode.usesExtents && lb >= NDIR_BLOCKS {
      var w := WayTo(disk, inode.blockMap, lb);
      IndirectFollowsWay(disk, inode.blockMap, lb);
      FollowingZero(disk, w.root, w.level, w.index);
      FollowedIffReadable(disk, w.root, w.level, w.index);
    }
  }

  /** Byte `k` of the file, as the format means it, is `v`. */
  ghost predicate MeansByte(disk: Disk, inode: Inode, k: nat, v: Byte) {
    && disk.blockSize > 0 && Askable(disk, inode, BlockNumber(disk, k))
    && var c := MeantBytes(disk, inode, BlockNumber(disk, k));
       c.Stored? && c.bytes[BlockOffset(disk, k)] == v
  }

  ghost predicate MeantSlice(disk: Disk, inode: Inode, offset: nat, bytes: seq<Byte>) {
    forall i :: 0 <= i < |bytes| ==> MeansByte(disk, inode, offset + i, bytes[i])
  }

  ghost predicate KernelGuards(disk: Disk, inode: Inode, k: nat) {
    && disk.blockSize > 0 && Askable(disk, inode, BlockNumber(disk, k))
    && KernelBytesGuard(disk, inode, BlockNumber(disk, k))
  }

  ghost predicate BootGuards(disk: Disk, inode: Inode, k: nat) {
    && disk.blockSize > 0 && Askable(disk, inode, BlockNumber(disk, k))
    && BootBytesGuard(disk, inode, BlockNumber(disk, k))
  }

  /** What the kernel delivers is what the format means, as far as the blocks meet the guard. */
  lemma SliceIsMeant(disk: Disk, inode: Inode, offset: nat, bytes: seq<Byte>)
    requires IsSlice(disk, inode, offset, bytes) && Sound(disk, inode)
    requires forall k: nat :: offset <= k < offset + |bytes| ==> KernelGuards(disk, inode, k)
    ensures MeantSlice(disk, inode, offset, bytes)
  {
    hide Askable, Sound, KernelBytesGuard, BlockBytes, MeantBytes;
    forall i | 0 <= i < |bytes|
      ensures MeansByte(disk, inode, offset + i, bytes[i])
    {
      assert FileHas(disk, inode, offset + i, bytes[i]) && KernelGuards(disk, inode, offset + i);
      KernelReadsMeaning(disk, inode, BlockNumber(disk, offset + i));
    }
  }

  /** And what the boot loader loads. */
  lemma PrefixIsMeant(disk: Disk, inode: Inode, bytes: seq<Byte>)
    requires BootPrefix(disk, inode, bytes) && Sound(disk, inode)
    requires forall k: nat :: k < |bytes| ==> BootGuards(disk, inode, k)
    ensures MeantSlice(disk, inode, 0, bytes)
  {
    hide Askable, BootAskable, Sound, BootBytesGuard, BootBytes, MeantBytes;
    forall i | 0 <= i < |bytes|
      ensures MeansByte(disk, inode, 0 + i, bytes[i])
    {
      assert BootHas(disk, inode, i, bytes[i]) && BootGuards(disk, inode, i);
      BootReadsMeaning(disk, inode, BlockNumber(disk, i));
    }
  }

  // ---- failing inputs ----

  /** A small block of the device below: block 0 holds two pointers to block 5, the others their own number. */
  function NumberedBlock(b: nat): seq<Byte> {
    if b == 0 then [5, 0, 0, 0, 5, 0, 0, 0] else seq(8, _ => b % 256)
  }

  const NumberedDisk: Disk := Disk(8, b => Some(NumberedBlock(b)))

  /** One extent of one block, never written, stored in block 5. */
  const UnwrittenMap: seq<Byte> :=
    [0x0A, 0xF3, 1, 0, 4, 0, 0, 0, 0, 0, 0, 0] + [0, 0, 0, 0, 1, 0x80, 0, 0, 5, 0, 0, 0] + seq(36, _ => 0)

  /** A block never written is read as what the device happens to hold there, by both readers. */
  lemma UnwrittenIsRead()
    ensures var f := Inode(8, true, UnwrittenMap);
            && Askable(NumberedDisk, f, 0) && BootAskable(NumberedDisk, f, 0) && Sound(NumberedDisk, f)
            && MeantBytes(NumberedDisk, f, 0) == Stored(Zeros(8))
            && BlockBytes(NumberedDisk, f, 0) == BootBytes(NumberedDisk, f, 0) == Stored([5, 5, 5, 5, 5, 5, 5, 5])
  {
    var f := Inode(8, true, UnwrittenMap);
    var e := Extent(0, 0x8001, 5);
    assert Magic(UnwrittenMap) == EXT_MAGIC && EntryCount(UnwrittenMap) == 1 && Depth(UnwrittenMap) == 0;
    assert ExtentAt(UnwrittenMap, 0) == e;
    assert TreeOf(NumberedDisk, f) == Leaf([e]);
    assert e.TrulyCovers(0);
    OneOwner([e], 0, e);
    assert NumberedBlock(5) == [5, 5, 5, 5, 5, 5, 5, 5];
  }

  /** A zero pointer above the last level leads both readers on through block 0. */
  lemma ZeroPointerIsFollowed()
    ensures var f := Inode(13 * 8, false, Zeros(60));
            && Askable(NumberedDisk, f, 12) && BootAskable(NumberedDisk, f, 12) && Sound(NumberedDisk, f)
            && MeantBytes(NumberedDisk, f, 12) == Stored(Zeros(8))
            && BlockBytes(NumberedDisk, f, 12) == BootBytes(NumberedDisk, f, 12) == Stored([5, 5, 5, 5, 5, 5, 5, 5])
  {
    var pointers := Zeros(60);
    PowersOf(2);
    FollowOne(NumberedDisk, 0, 0);
    assert MapEntry(pointers, 12) == 0;
    assert NumberedBlock(5) == [5, 5, 5, 5, 5, 5, 5, 5];
  }
}
