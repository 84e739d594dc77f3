/** Legacy block mapping: twelve direct pointers and three trees of pointer blocks. */
module IndirectBlocks {
  import opened Bytes
  import opened Division
  import opened ExtentTree

  const NDIR_BLOCKS: nat := 12

  function Pow(p: nat, n: nat): (r: nat)
    ensures p > 0 ==> r > 0
  {
    if n == 0 then 1 else p * Pow(p, n - 1)
  }

  function Times(a: nat, b: nat): nat {
    a * b
  }

  /** Pointers per block. */
  function PointersPer(disk: Disk): nat {
    disk.blockSize / 4
  }

  function PointerAt(block: seq<Byte>, i: nat): nat
    requires 4 * i + 3 < |block|
  {
    ReadU32(block, 4 * i)
  }

  /** How many blocks the pointers of an inode can reach. */
  function Reach(p: nat): nat {
    NDIR_BLOCKS + p + p * p + p * p * p
  }

  // ---- one tree ----

  /** Follows the pointers of a tree of pointer blocks, `level` blocks deep, to its leaf number `index`. */
  ghost function Follow(disk: Disk, block: nat, level: nat, index: nat): Mapping
    requires WellSized(disk) && PointersPer(disk) > 0 && index < Pow(PointersPer(disk), level)
    decreases level
  {
    if level == 0 then Mapped(block)
    else if disk.blocks(block).None? then Failed(Io)
    else
      var below := Pow(PointersPer(disk), level - 1);
      SmallQuotient(index, below, PointersPer(disk));
      Follow(disk, PointerAt(disk.blocks(block).value, index / below), level - 1, index % below)
  }

  /** Every pointer block of the tree can be read. */
  ghost predicate Readable(disk: Disk, block: nat, level: nat)
    requires WellSized(disk)
    decreases level
  {
    level > 0 ==>
      && disk.blocks(block).Some?
      && forall i :: 0 <= i < PointersPer(disk) ==> Readable(disk, PointerAt(disk.blocks(block).value, i), level - 1)
  }

  /** The leaves of the tree, left to right. */
  ghost function Leaves(disk: Disk, block: nat, level: nat): seq<nat>
    requires WellSized(disk) && Readable(disk, block, level)
    decreases level, 0
  {
    if level == 0 then [block] else LeavesFrom(disk, disk.blocks(block).value, level, 0)
  }

  /** The leaves under the pointers from `i` on. */
  ghost function LeavesFrom(disk: Disk, node: seq<Byte>, level: nat, i: nat): seq<nat>
    requires WellSized(disk) && level > 0 && |node| == disk.blockSize && i <= PointersPer(disk)
    requires forall j :: 0 <= j < PointersPer(disk) ==> Readable(disk, PointerAt(node, j), level - 1)
    decreases level - 1, PointersPer(disk) - i + 1
  {
    if i == PointersPer(disk) then []
    else Leaves(disk, PointerAt(node, i), level - 1) + LeavesFrom(disk, node, level, i + 1)
  }

  lemma {:induction false} LeafCount(disk: Disk, block: nat, level: nat)
    requires WellSized(disk) && Readable(disk, block, level)
    ensures |Leaves(disk, block, level)| == Pow(PointersPer(disk), level)
    decreases level, 0
  {
    if level > 0 {
      LeafCountFrom(disk, disk.blocks(block).value, level, 0);
    }
  }

  lemma {:induction false} LeafCountFrom(disk: Disk, node: seq<Byte>, level: nat, i: nat)
    requires WellSized(disk) && level > 0 && |node| == disk.blockSize && i <= PointersPer(disk)
    requires forall j :: 0 <= j < PointersPer(disk) ==> Readable(disk, PointerAt(node, j), level - 1)
    ensures |LeavesFrom(disk, node, level, i)| == Times(PointersPer(disk) - i, Pow(PointersPer(disk), level - 1))
    decreases level - 1, PointersPer(disk) - i + 1
  {
    if i < PointersPer(disk) {
      LeafCount(disk, PointerAt(node, i), level - 1);
      LeafCountFrom(disk, node, level, i + 1);
      OneLess(PointersPer(disk) - i, Pow(PointersPer(disk), level - 1));
      hide Times;
    }
  }

  /** Leaf `r` under pointer `q`, counted from pointer `i` on. */
  lemma {:induction false} LeafUnder(disk: Disk, node: seq<Byte>, level: nat, i: nat, q: nat, below: nat, r: nat,
                                     at: nat)
    requires WellSized(disk) && level > 0 && |node| == disk.blockSize && i <= q < PointersPer(disk)
    requires forall j :: 0 <= j < PointersPer(disk) ==> Readable(disk, PointerAt(node, j), level - 1)
    requires below == Pow(PointersPer(disk), level - 1) && r < below && at == Times(q - i, below) + r
    requires r < |Leaves(disk, PointerAt(node, q), level - 1)|
    ensures at < |LeavesFrom(disk, node, level, i)|
    ensures LeavesFrom(disk, node, level, i)[at] == Leaves(disk, PointerAt(node, q), level - 1)[r]
    decreases q - i
  {
    hide Pow, Leaves, Readable, PointerAt, Times;
    LeafCount(disk, PointerAt(node, i), level - 1);
    NoneLess(below);
    if i < q {
      OneLess(q - i, below);
      LeafUnder(disk, node, level, i + 1, q, below, r, at - below);
    }
  }

  lemma OneLess(n: nat, below: nat)
    requires n > 0
    ensures Times(n, below) == below + Times(n - 1, below)
  {
  }

  lemma NoneLess(below: nat)
    ensures Times(0, below) == 0
  {
  }

  lemma PowStep(p: nat, n: nat)
    requires p > 0 && n > 0
    ensures Pow(p, n) == p * Pow(p, n - 1) && Pow(p, n - 1) > 0
  {
  }

  /** One level of the tree: its leaves are those under its pointers. */
  lemma OneLevel(disk: Disk, block: nat, level: nat)
    requires WellSized(disk) && Readable(disk, block, level) && level > 0
    ensures disk.blocks(block).Some? && |disk.blocks(block).value| == disk.blockSize
    ensures forall j :: 0 <= j < PointersPer(disk) ==> Readable(disk, PointerAt(disk.blocks(block).value, j), level - 1)
    ensures Leaves(disk, block, level) == LeavesFrom(disk, disk.blocks(block).value, level, 0)
  {
  }

  /** One step along the pointers, to pointer `q`; the number of the leaf under it is `r`. */
  lemma FollowStep(disk: Disk, block: nat, level: nat, index: nat, below: nat) returns (q: nat, r: nat)
    requires WellSized(disk) && PointersPer(disk) > 0 && index < Pow(PointersPer(disk), level)
    requires level > 0 && disk.blocks(block).Some? && below == Pow(PointersPer(disk), level - 1)
    ensures q < PointersPer(disk) && r < below && index == Times(q, below) + r
    ensures |disk.blocks(block).value| == disk.blockSize
    ensures Follow(disk, block, level, index) == Follow(disk, PointerAt(disk.blocks(block).value, q), level - 1, r)
  {
    PowStep(PointersPer(disk), level);
    SmallQuotient(index, below, PointersPer(disk));
    q, r := index / below, index % below;
    hide Pow, PointersPer, PointerAt;
    assert index == below * (index / below) + index % below;
  }

  /** Following the pointers finds the leaf with that number. */
  lemma {:induction false} FollowFindsLeaf(disk: Disk, block: nat, level: nat, index: nat)
    requires WellSized(disk) && Readable(disk, block, level) && PointersPer(disk) > 0
    requires index < Pow(PointersPer(disk), level)
    ensures index < |Leaves(disk, block, level)|
    ensures Follow(disk, block, level, index) == Mapped(Leaves(disk, block, level)[index])
    decreases level
  {
    if level > 0 {
      hide Pow, PointersPer, PointerAt, Readable, Leaves, LeavesFrom, Follow, Times;
      OneLevel(disk, block, level);
      var node, below := disk.blocks(block).value, Pow(PointersPer(disk), level - 1);
      var q, r := FollowStep(disk, block, level, index, below);
      FollowFindsLeaf(disk, PointerAt(node, q), level - 1, r);
      LeafUnder(disk, node, level, 0, q, below, r, index);
    }
  }

  // ---- all of an inode's pointers ----

  function MapEntry(blockMap: seq<Byte>, k: nat): nat
    requires 4 * k + 3 < |blockMap|
  {
    ReadU32(blockMap, 4 * k)
  }

  ghost function Direct(blockMap: seq<Byte>): seq<nat>
    requires |blockMap| == 60
  {
    seq(NDIR_BLOCKS, k requires 0 <= k < NDIR_BLOCKS => MapEntry(blockMap, k))
  }

  ghost predicate AllReadable(disk: Disk, blockMap: seq<Byte>)
    requires WellSized(disk) && |blockMap| == 60
  {
    && Readable(disk, MapEntry(blockMap, 12), 1) && Readable(disk, MapEntry(blockMap, 13), 2)
    && Readable(disk, MapEntry(blockMap, 14), 3)
  }

  /** Every block of the file, in order: the direct ones, then the leaves of the three trees. */
  ghost function FlatBlocks(disk: Disk, blockMap: seq<Byte>): seq<nat>
    requires WellSized(disk) && |blockMap| == 60 && AllReadable(disk, blockMap)
  {
    Direct(blockMap) + Leaves(disk, MapEntry(blockMap, 12), 1) + Leaves(disk, MapEntry(blockMap, 13), 2)
    + Leaves(disk, MapEntry(blockMap, 14), 3)
  }

  lemma PowersOf(p: nat)
    ensures Pow(p, 0) == 1 && Pow(p, 1) == p && Pow(p, 2) == p * p && Pow(p, 3) == p * p * p
  {
    assert Pow(p, 1) == p * Pow(p, 0);
    assert Pow(p, 2) == p * Pow(p, 1);
    assert Pow(p, 3) == p * Pow(p, 2);
    assert p * (p * p) == p * p * p;
  }

  /** Where logical block `lb` is found. */
  ghost function IndirectLookup(disk: Disk, blockMap: seq<Byte>, lb: nat): Mapping
    requires WellSized(disk) && |blockMap| == 60 && lb < Reach(PointersPer(disk))
  {
    var p := PointersPer(disk);
    PowersOf(p);
    if lb < NDIR_BLOCKS then Mapped(MapEntry(blockMap, lb))
    else if lb < NDIR_BLOCKS + p then Follow(disk, MapEntry(blockMap, 12), 1, lb - NDIR_BLOCKS)
    else if lb < NDIR_BLOCKS + p + p * p then Follow(disk, MapEntry(blockMap, 13), 2, lb - NDIR_BLOCKS - p)
    else Follow(disk, MapEntry(blockMap, 14), 3, lb - NDIR_BLOCKS - p - p * p)
  }

  /** With every pointer block readable, the lookup indexes the list of all blocks. */
  lemma IndirectIsFlat(disk: Disk, blockMap: seq<Byte>, lb: nat)
    requires WellSized(disk) && |blockMap| == 60 && AllReadable(disk, blockMap) && lb < Reach(PointersPer(disk))
    ensures |FlatBlocks(disk, blockMap)| == Reach(PointersPer(disk))
    ensures IndirectLookup(disk, blockMap, lb) == Mapped(FlatBlocks(disk, blockMap)[lb])
  {
    hide Leaves, Readable, Follow, MapEntry;
    var p := PointersPer(disk);
    PowersOf(p);
    LeafCount(disk, MapEntry(blockMap, 12), 1);
    LeafCount(disk, MapEntry(blockMap, 13), 2);
    LeafCount(disk, MapEntry(blockMap, 14), 3);
    if lb < NDIR_BLOCKS {
    } else if lb < NDIR_BLOCKS + p {
      FollowFindsLeaf(disk, MapEntry(blockMap, 12), 1, lb - NDIR_BLOCKS);
    } else if lb < NDIR_BLOCKS + p + p * p {
      FollowFindsLeaf(disk, MapEntry(blockMap, 13), 2, lb - NDIR_BLOCKS - p);
    } else {
      FollowFindsLeaf(disk, MapEntry(blockMap, 14), 3, lb - NDIR_BLOCKS - p - p * p);
    }
  }

  /** The way to a block that no direct pointer reaches: which tree, how deep, and which of its leaves. */
  datatype Way = Way(root: nat, level: nat, index: nat)

  ghost function WayTo(disk: Disk, blockMap: seq<Byte>, lb: nat): (w: Way)
    requires |blockMap| == 60 && NDIR_BLOCKS <= lb < Reach(PointersPer(disk))
    ensures PointersPer(disk) > 0 && w.level > 0 && w.index < Pow(PointersPer(disk), w.level)
  {
    var p := PointersPer(disk);
    PowersOf(p);
    if lb < NDIR_BLOCKS + p then Way(MapEntry(blockMap, 12), 1, lb - NDIR_BLOCKS)
    else if lb < NDIR_BLOCKS + p + p * p then Way(MapEntry(blockMap, 13), 2, lb - NDIR_BLOCKS - p)
    else Way(MapEntry(blockMap, 14), 3, lb - NDIR_BLOCKS - p - p * p)
  }

  lemma IndirectFollowsWay(disk: Disk, blockMap: seq<Byte>, lb: nat)
    requires WellSized(disk) && |blockMap| == 60 && NDIR_BLOCKS <= lb < Reach(PointersPer(disk))
    ensures var w := WayTo(disk, blockMap, lb);
            IndirectLookup(disk, blockMap, lb) == Follow(disk, w.root, w.level, w.index)
  {
    hide Follow, MapEntry, Pow;
  }

  /** Every pointer block on the way to one leaf can be read. */
  ghost predicate WayReadable(disk: Disk, block: nat, level: nat, index: nat)
    requires WellSized(disk) && PointersPer(disk) > 0 && index < Pow(PointersPer(disk), level)
    decreases level
  {
    level > 0 ==>
      && disk.blocks(block).Some?
      && var below := Pow(PointersPer(disk), level - 1);
         SmallQuotient(index, below, PointersPer(disk));
         WayReadable(disk, PointerAt(disk.blocks(block).value, index / below), level - 1, index % below)
  }

  /** The way is lost exactly at a pointer block that cannot be read. */
  lemma {:induction false} FollowedIffReadable(disk: Disk, block: nat, level: nat, index: nat)
    requires WellSized(disk) && PointersPer(disk) > 0 && index < Pow(PointersPer(disk), level)
    ensures Follow(disk, block, level, index).Mapped? <==> WayReadable(disk, block, level, index)
    ensures Follow(disk, block, level, index).Failed? ==> Follow(disk, block, level, index) == Failed(Io)
    decreases level
  {
    if level > 0 && disk.blocks(block).Some? {
      var below := Pow(PointersPer(disk), level - 1);
      SmallQuotient(index, below, PointersPer(disk));
      FollowedIffReadable(disk, PointerAt(disk.blocks(block).value, index / below), level - 1, index % below);
    }
  }

  // ---- one, two and three levels, spelled out ----

  lemma FollowOne(disk: Disk, block: nat, index: nat)
    requires WellSized(disk) && index < PointersPer(disk)
    ensures index < Pow(PointersPer(disk), 1)
    ensures Follow(disk, block, 1, index) ==
            if disk.blocks(block).None? then Failed(Io) else Mapped(PointerAt(disk.blocks(block).value, index))
  {
    PowersOf(PointersPer(disk));
  }

  lemma FollowTwo(disk: Disk, block: nat, index: nat)
    requires WellSized(disk) && index < PointersPer(disk) * PointersPer(disk)
    ensures index < Pow(PointersPer(disk), 2) && PointersPer(disk) > 0 && index / PointersPer(disk) < PointersPer(disk)
    ensures index % PointersPer(disk) < Pow(PointersPer(disk), 1)
    ensures Follow(disk, block, 2, index) ==
            if disk.blocks(block).None? then Failed(Io)
            else
              Follow(disk, PointerAt(disk.blocks(block).value, index / PointersPer(disk)), 1, index % PointersPer(disk))
  {
    PowersOf(PointersPer(disk));
    SmallQuotient(index, PointersPer(disk), PointersPer(disk));
  }

  lemma FollowThree(disk: Disk, block: nat, index: nat)
    requires WellSized(disk) && index < PointersPer(disk) * PointersPer(disk) * PointersPer(disk)
    ensures var p := PointersPer(disk);
            && p > 0 && p * p > 0 && index < Pow(p, 3) && index / (p * p) < p && index % (p * p) < Pow(p, 2)
            && index % (p * p) / p == index / p % p && index % (p * p) % p == index % p
            && Follow(disk, block, 3, index) ==
               if disk.blocks(block).None? then Failed(Io)
               else Follow(disk, PointerAt(disk.blocks(block).value, index / (p * p)), 2, index % (p * p))
  {
    var p := PointersPer(disk);
    PowersOf(p);
    assert p > 0 && p * p > 0;
    SmallQuotient(index, p * p, p);
    RemainderBySquare(index, p);
  }
}
