/** Building the frame allocator from the firmware memory map. */
module PmmInit {
  import opened Results
  import opened Bitmap
  import opened Sizes
  import opened E820
  import opened Pmm

  const KERNEL_END: nat := 0x100000 + 9 * 1024 * 1024
  const LOW_MEMORY_END: nat := 0x100000
  const KERNEL_STACK_TOP: nat := 0x2000000
  const KERNEL_STACK_SIZE: nat := 0x100000
  /** Bytes of one packed memory map entry. */
  const E820_ENTRY_SIZE: nat := 24

  function BytesFor(frames: nat): nat {
    (frames + 7) / 8
  }

  function PagesUp(bytes: nat): nat {
    (bytes + PAGE_SIZE - 1) / PAGE_SIZE
  }

  function PageAligned(addr: nat): nat {
    if addr % PAGE_SIZE != 0 then (addr / PAGE_SIZE + 1) * PAGE_SIZE else addr
  }

  /** Where the bitmap would start inside an entry: never below the end of the kernel. */
  function BitmapStart(entry: E820Entry): nat {
    if entry.base < KERNEL_END then KERNEL_END else entry.base
  }

  /** The entry is usable and has room for `need` bytes above the kernel. */
  predicate Fits(entry: E820Entry, need: nat) {
    entry.IsUsable() && entry.base + entry.length > BitmapStart(entry)
    && entry.base + entry.length - BitmapStart(entry) >= need
  }

  /** The first entry with room for the bitmap. */
  method FindBitmapRegion(entries: seq<E820Entry>, need: nat) returns (r: Option<nat>)
    ensures r.None? <==> forall i :: 0 <= i < |entries| ==> !Fits(entries[i], need)
    ensures r.Some? ==> exists i :: 0 <= i < |entries| && Fits(entries[i], need) && r.value == BitmapStart(entries[i])
                                    && forall j :: 0 <= j < i ==> !Fits(entries[j], need)
  {
    var i := 0;
    while i < |entries|
      invariant 0 <= i <= |entries|
      invariant forall j :: 0 <= j < i ==> !Fits(entries[j], need)
    {
      var entry := entries[i];
      if entry.IsUsable() {
        var regionStart := BitmapStart(entry);
        var regionEnd := entry.base + entry.length;
        if regionEnd > regionStart && regionEnd - regionStart >= need {
          return Some(regionStart);
        }
      }
      i := i + 1;
    }
    return None;
  }

  /** Frames `[start, end)` become used; `freeFrames` goes down by those that were not. */
  method MarkRegionUsed(start: nat, end: nat, bitmap: array<bv8>, freeFrames: nat, ghost used: seq<bool>)
    returns (freeFrames': nat, ghost used': seq<bool>)
    requires Represents(bitmap[..], used) && freeFrames == FreeCount(used) && end <= |used|
    modifies bitmap
    ensures Represents(bitmap[..], used') && freeFrames' == FreeCount(used')
    ensures |used'| == |used|
    ensures forall f :: 0 <= f < |used| ==> used'[f] == (start <= f < end || used[f])
  {
    freeFrames', used' := freeFrames, used;
    var frame := start;
    while frame < end
      invariant start <= frame && (frame <= end || frame == start)
      invariant |used'| == |used|
      invariant Represents(bitmap[..], used') && freeFrames' == FreeCount(used')
      invariant forall f :: 0 <= f < |used| ==> used'[f] == (start <= f < frame || used[f])
    {
      assert BitAt(bitmap[..], frame) == used'[frame];
      if !Bit(bitmap[frame / 8], frame % 8) {
        freeFrames', used' := FlipFrame(frame, true, bitmap, freeFrames', used');
      }
      frame := frame + 1;
    }
  }

  /** Changes the state of one frame and adjusts the free count. */
  method FlipFrame(frame: nat, value: bool, bitmap: array<bv8>, freeFrames: nat, ghost used: seq<bool>)
    returns (freeFrames': nat, ghost used': seq<bool>)
    requires Represents(bitmap[..], used) && freeFrames == FreeCount(used)
    requires frame < |used| && used[frame] == !value
    modifies bitmap
    ensures used' == used[frame := value]
    ensures Represents(bitmap[..], used') && freeFrames' == FreeCount(used')
  {
    UpdateRepresents(bitmap[..], used, frame, value);
    FreeCountUpdate(used, frame, value);
    ghost var before := bitmap[..];
    bitmap[frame / 8] := WriteBit(bitmap[frame / 8], frame % 8, value);
    assert bitmap[..] == WithBit(before, frame, value);
    used' := used[frame := value];
    freeFrames' := if value then freeFrames - 1 else freeFrames + 1;
  }

  /** A frame of usable memory, according to the first `n` entries. */
  ghost predicate UsableFrame(entries: seq<E820Entry>, n: nat, f: nat)
    requires n <= |entries|
  {
    exists i :: 0 <= i < n && entries[i].IsUsable() && entries[i].HasFrame(f)
  }

  /** Usable entries do not overlap, so a frame of entry `i` is in none before it. */
  lemma NotFreedBefore(entries: seq<E820Entry>, i: nat, f: nat)
    requires WellFormedMap(entries) && i < |entries| && entries[i].IsUsable() && entries[i].HasFrame(f)
    ensures !UsableFrame(entries, i, f)
  {
    forall j | 0 <= j < |entries| && entries[j].IsUsable() && entries[j].HasFrame(f)
      ensures j == i
    {
      UsableEntriesShareNoFrame(entries, j, i, f);
    }
  }

  /** Frees the frames of every usable entry, rounding inwards and clamping to the bitmap. */
  method FreeUsable(entries: seq<E820Entry>, totalFrames: nat, bitmap: array<bv8>, ghost used: seq<bool>)
    returns (freeFrames: nat, ghost used': seq<bool>)
    requires WellFormedMap(entries)
    requires |used| == totalFrames && Represents(bitmap[..], used)
    requires forall f :: 0 <= f < totalFrames ==> used[f]
    modifies bitmap
    ensures |used'| == totalFrames && Represents(bitmap[..], used') && freeFrames == FreeCount(used')
    ensures forall f :: 0 <= f < totalFrames ==> used'[f] == !UsableFrame(entries, |entries|, f)
  {
    hide WellFormedMap, Represents, FreeCount;
    FreeCountZero(used);
    freeFrames, used' := 0, used;
    var i := 0;
    while i < |entries|
      invariant 0 <= i <= |entries|
      invariant |used'| == totalFrames && Represents(bitmap[..], used') && freeFrames == FreeCount(used')
      invariant forall f :: 0 <= f < totalFrames ==> used'[f] == !UsableFrame(entries, i, f)
    {
      var entry := entries[i];
      ghost var before := used';
      if entry.IsUsable() {
        var startFrame := (entry.base + PAGE_SIZE - 1) / PAGE_SIZE;
        var endFrame := (entry.base + entry.length) / PAGE_SIZE;
        if endFrame > totalFrames {
          endFrame := totalFrames;
        }
        if startFrame < totalFrames {
          var frame := startFrame;
          while frame < endFrame
            invariant startFrame <= frame && (frame <= endFrame || frame == startFrame)
            invariant |used'| == totalFrames && Represents(bitmap[..], used') && freeFrames == FreeCount(used')
            invariant forall f :: 0 <= f < totalFrames ==> used'[f] == (before[f] && !(startFrame <= f < frame))
          {
            assert entry.HasFrame(frame);
            NotFreedBefore(entries, i, frame);
            freeFrames, used' := FlipFrame(frame, false, bitmap, freeFrames, used');
            frame := frame + 1;
          }
        }
        assert forall f :: 0 <= f < totalFrames ==> (entry.HasFrame(f) <==> startFrame <= f < endFrame);
      }
      i := i + 1;
    }
  }

  /** Frames the allocator must never hand out: the first 10 MiB, the kernel stack below 32 MiB,
      the bitmap and the memory map. */
  ghost predicate Reserved(f: nat, bitmapBase: nat, bitmapBytes: nat, mapBase: nat, mapBytes: nat) {
    || f < KERNEL_END / PAGE_SIZE
    || (KERNEL_STACK_TOP - KERNEL_STACK_SIZE) / PAGE_SIZE <= f < KERNEL_STACK_TOP / PAGE_SIZE
    || bitmapBase / PAGE_SIZE <= f < PagesUp(bitmapBase + bitmapBytes)
    || mapBase / PAGE_SIZE <= f < PagesUp(mapBase + mapBytes)
  }

  /** A bitmap of all ones: every frame is used. */
  method FillUsed(bitmap: array<bv8>, totalFrames: nat) returns (ghost used: seq<bool>)
    requires bitmap.Length == BytesFor(totalFrames)
    modifies bitmap
    ensures |used| == totalFrames && Represents(bitmap[..], used)
    ensures forall f :: 0 <= f < totalFrames ==> used[f]
  {
    var byteIdx := 0;
    while byteIdx < bitmap.Length
      invariant 0 <= byteIdx <= bitmap.Length
      invariant forall k :: 0 <= k < byteIdx ==> bitmap[k] == 0xFF
    {
      bitmap[byteIdx] := 0xFF;
      byteIdx := byteIdx + 1;
    }
    used := seq(totalFrames, _ => true);
    forall f {:trigger BitAt(bitmap[..], f)} | 0 <= f < 8 * bitmap.Length
      ensures BitAt(bitmap[..], f)
    {
      FullByte(bitmap[f / 8]);
    }
  }

  /** Sets the bits of the last byte that stand for no frame. They are set already. */
  method SetPhantomBits(bitmap: array<bv8>, ghost used: seq<bool>, totalFrames: nat)
    requires |used| == totalFrames && Represents(bitmap[..], used)
    modifies bitmap
    ensures Represents(bitmap[..], used)
  {
    var remainingBits := totalFrames % 8;
    if remainingBits != 0 {
      var lastByteIndex := totalFrames / 8;
      var bit := remainingBits;
      while bit < 8
        invariant remainingBits <= bit <= 8
        invariant Represents(bitmap[..], used)
      {
        ghost var before, f := bitmap[..], 8 * lastByteIndex + bit;
        assert f / 8 == lastByteIndex && f % 8 == bit;
        assert BitAt(before, f);
        bitmap[lastByteIndex] := WriteBit(bitmap[lastByteIndex], bit, true);
        assert bitmap[..] == WithBit(before, f, true);
        forall g {:trigger BitAt(bitmap[..], g)} | 0 <= g < 8 * bitmap.Length
          ensures BitAt(bitmap[..], g) == (g < |used| ==> used[g])
        {
          WithBitAt(before, f, true, g);
          assert BitAt(before, g) == (g < |used| ==> used[g]);
        }
        bit := bit + 1;
      }
    }
  }

  /** What `Init` decided about the machine. */
  datatype Layout = Layout(highest: nat, bitmapBase: nat)

  /** `highest` is the end of the highest usable region, 0 if there is none. */
  ghost predicate IsHighest(entries: seq<E820Entry>, highest: nat) {
    && (forall i :: 0 <= i < |entries| && entries[i].IsUsable() ==> entries[i].End() <= highest)
    && (highest == 0 || exists i :: 0 <= i < |entries| && entries[i].IsUsable() && entries[i].End() == highest)
  }

  /** `base` is where the bitmap goes: in the first entry with room for `need` bytes. */
  ghost predicate IsFirstFit(entries: seq<E820Entry>, need: nat, base: nat) {
    exists i :: 0 <= i < |entries| && Fits(entries[i], need) && base == BitmapStart(entries[i])
                && forall j :: 0 <= j < i ==> !Fits(entries[j], need)
  }

  /** Bytes set aside for the bitmap of a machine that ends at `highest`. */
  function BitmapRoom(highest: nat): nat {
    PagesUp(BytesFor(highest / PAGE_SIZE)) * PAGE_SIZE
  }

  /** Rounded up to a page, the place for the bitmap is still inside the machine. */
  ghost predicate BitmapFits(entries: seq<E820Entry>) {
    forall highest: nat, base: nat :: IsHighest(entries, highest) && IsFirstFit(entries, BitmapRoom(highest), base) ==>
      PagesUp(PageAligned(base) + BytesFor(highest / PAGE_SIZE)) <= highest / PAGE_SIZE
  }

  lemma BitmapHasRoom(entries: seq<E820Entry>, highest: nat, base: nat)
    requires BitmapFits(entries) && IsHighest(entries, highest) && IsFirstFit(entries, BitmapRoom(highest), base)
    ensures PagesUp(PageAligned(base) + BytesFor(highest / PAGE_SIZE)) <= highest / PAGE_SIZE
  {
  }

  /** Usable entries are made of whole pages. */
  ghost predicate WholePages(entries: seq<E820Entry>) {
    forall i :: 0 <= i < |entries| && entries[i].IsUsable() ==>
      entries[i].base % PAGE_SIZE == 0 && entries[i].length % PAGE_SIZE == 0
  }

  /** With entries of whole pages the bitmap lies in usable memory, so its frames are frames of the machine. */
  lemma WholePagesMeansBitmapFits(entries: seq<E820Entry>)
    requires WellFormedMap(entries) && WholePages(entries)
    ensures BitmapFits(entries)
  {
    forall highest: nat, base: nat | IsHighest(entries, highest) && IsFirstFit(entries, BitmapRoom(highest), base)
      ensures PagesUp(PageAligned(base) + BytesFor(highest / PAGE_SIZE)) <= highest / PAGE_SIZE
    {
      BitmapInsideMemory(entries, highest, base);
    }
  }

  /** Where the bitmap goes: behind the kernel, which ends at 10 MiB, inside a usable entry that has room for it, and
      in the first such entry. */
  lemma BitmapIsInUsableMemory(entries: seq<E820Entry>, need: nat, base: nat)
    requires IsFirstFit(entries, need, base) && need > 0
    ensures base >= 0xA0_0000
    ensures exists i :: 0 <= i < |entries| && entries[i].IsUsable()
                        && entries[i].base <= base && base + need <= entries[i].base + entries[i].length
                        && forall j :: 0 <= j < i && entries[j].IsUsable() ==> !RoomBehindKernel(entries[j], need)
  {
  }

  /** So many bytes fit into the part of the entry that lies at 10 MiB or above. */
  predicate RoomBehindKernel(entry: E820Entry, need: nat) {
    entry.base + need <= entry.base + entry.length && 0xA0_0000 + need <= entry.base + entry.length
  }

  /** A frame that counts as usable lies in memory of type 1, which is neither empty nor to be ignored. */
  lemma UsableIsRam(entries: seq<E820Entry>, n: nat, f: nat)
    requires n <= |entries|
    ensures UsableFrame(entries, n, f) <==>
            exists i :: 0 <= i < n && entries[i].regionType == 1 && entries[i].length > 0
                        && (entries[i].acpiExtended == 0 || entries[i].acpiExtended % 2 == 1)
                        && entries[i].base <= f * 4096 && f * 4096 + 4096 <= entries[i].base + entries[i].length
  {
  }

  /** Rounding up to pages. */
  lemma RoundedToPages(n: nat)
    ensures n <= PagesUp(n) * PAGE_SIZE < n + PAGE_SIZE
    ensures PageAligned(n) % PAGE_SIZE == 0 && n <= PageAligned(n) < n + PAGE_SIZE
    ensures n <= 8 * BytesFor(n) < n + 8
  {
  }

  /** The machine ends where the last usable entry does. */
  lemma HighestIsEnd(entries: seq<E820Entry>, highest: nat)
    requires WellFormedMap(entries) && IsHighest(entries, highest)
    ensures forall i :: 0 <= i < |entries| && entries[i].IsUsable() ==> entries[i].base + entries[i].length <= highest
    ensures (exists i :: 0 <= i < |entries| && entries[i].IsUsable()) ==>
              exists i :: 0 <= i < |entries| && entries[i].IsUsable() && entries[i].base + entries[i].length == highest
  {
    forall i | 0 <= i < |entries| && entries[i].IsUsable()
      ensures entries[i].End() == entries[i].base + entries[i].length > 0
    {
    }
  }

  lemma BitmapInsideMemory(entries: seq<E820Entry>, highest: nat, base: nat)
    requires WellFormedMap(entries) && WholePages(entries) && IsHighest(entries, highest)
    requires IsFirstFit(entries, BitmapRoom(highest), base)
    ensures base % PAGE_SIZE == 0
    ensures PagesUp(base + BytesFor(highest / PAGE_SIZE)) <= highest / PAGE_SIZE
  {
    var need := BitmapRoom(highest);
    var i :| 0 <= i < |entries| && Fits(entries[i], need) && base == BitmapStart(entries[i])
             && forall j :: 0 <= j < i ==> !Fits(entries[j], need);
    assert entries[i].IsUsable() && entries[i].End() <= highest;
    hide PagesUp, BytesFor, WellFormedMap, IsHighest, IsFirstFit;
    assert base + need <= highest && base % PAGE_SIZE == 0;
    RoomInPages(base, BytesFor(highest / PAGE_SIZE), highest);
  }

  /** An aligned area with room for whole pages ends on a page of the machine. */
  lemma RoomInPages(base: nat, bytes: nat, highest: nat)
    requires base % PAGE_SIZE == 0 && base + PagesUp(bytes) * PAGE_SIZE <= highest
    ensures PagesUp(base + bytes) <= highest / PAGE_SIZE
  {
    var b := base / PAGE_SIZE;
    assert base == b * PAGE_SIZE;
    assert PagesUp(base + bytes) == b + PagesUp(bytes);
  }

  /** Usable memory goes on to `address`, or begins behind it: the machine has a frame for everything below. */
  ghost predicate UsableBeyond(entries: seq<E820Entry>, address: nat) {
    exists i :: 0 <= i < |entries| && entries[i].IsUsable() && entries[i].End() >= address
  }

  lemma MachineReaches(entries: seq<E820Entry>, highest: nat, address: nat)
    requires IsHighest(entries, highest) && UsableBeyond(entries, address)
    ensures address <= highest
  {
  }

  /** Initialises the allocator; `mapBase` is the physical address of the memory map itself.
      On success a frame is free exactly if it is wholly usable memory and not reserved. */
  method Init(entries: seq<E820Entry>, mapBase: nat)
    returns (r: Result<PhysicalMemoryManager, nat>, layout: Layout)
    requires WellFormedMap(entries) && BitmapFits(entries)
    requires (exists i :: 0 <= i < |entries| && entries[i].IsUsable()) ==>
               && UsableBeyond(entries, KERNEL_STACK_TOP)
               && UsableBeyond(entries, PagesUp(mapBase + |entries| * E820_ENTRY_SIZE) * PAGE_SIZE)
    ensures IsHighest(entries, layout.highest)
    ensures r.Failure? ==>
              r.error == if forall i :: 0 <= i < |entries| ==> !entries[i].IsUsable() then ERR_NO_MEMORY
                         else ERR_NO_BITMAP_REGION
    ensures r == Failure(ERR_NO_BITMAP_REGION) ==>
              forall i :: 0 <= i < |entries| ==> !Fits(entries[i], BitmapRoom(layout.highest))
    ensures r.Success? ==>
              && (exists base: nat :: IsFirstFit(entries, BitmapRoom(layout.highest), base)
                                      && layout.bitmapBase == PageAligned(base))
              && fresh(r.value) && fresh(r.value.bitmap) && r.value.Valid()
              && r.value.totalFrames == layout.highest / PAGE_SIZE
              && forall f :: 0 <= f < r.value.totalFrames ==>
                   (!r.value.used[f] <==>
                    UsableFrame(entries, |entries|, f)
                    && !Reserved(f, layout.bitmapBase, BytesFor(r.value.totalFrames),
                                 mapBase, |entries| * E820_ENTRY_SIZE))
  {
    hide UsableFrame, Reserved, WellFormedMap, BitmapFits;
    var highest := HighestUsableAddress(entries);
    layout := Layout(highest, 0);
    if highest == 0 {
      return Failure(ERR_NO_MEMORY), layout;
    }
    var totalFrames := highest / PAGE_SIZE;
    var bitmapSize := BytesFor(totalFrames);
    var region := FindBitmapRegion(entries, PagesUp(bitmapSize) * PAGE_SIZE);
    if region.None? {
      return Failure(ERR_NO_BITMAP_REGION), layout;
    }
    var bitmapBase := region.value;
    assert IsFirstFit(entries, BitmapRoom(highest), bitmapBase);
    MachineReaches(entries, highest, KERNEL_STACK_TOP);
    MachineReaches(entries, highest, PagesUp(mapBase + |entries| * E820_ENTRY_SIZE) * PAGE_SIZE);
    BitmapHasRoom(entries, highest, bitmapBase);
    bitmapBase := PageAligned(bitmapBase);
    layout := Layout(highest, bitmapBase);
    var pmm := BuildAllocator(entries, highest, bitmapBase, mapBase);
    return Success(pmm), layout;
  }

  /** Fills in the bitmap: all used, then usable memory free, then the reserved areas used again. */
  method BuildAllocator(entries: seq<E820Entry>, highest: nat, bitmapBase: nat, mapBase: nat)
    returns (pmm: PhysicalMemoryManager)
    requires WellFormedMap(entries) && highest >= KERNEL_STACK_TOP
    requires PagesUp(mapBase + |entries| * E820_ENTRY_SIZE) <= highest / PAGE_SIZE
    requires PagesUp(bitmapBase + BytesFor(highest / PAGE_SIZE)) <= highest / PAGE_SIZE
    ensures fresh(pmm) && fresh(pmm.bitmap) && pmm.Valid()
    ensures pmm.totalFrames == highest / PAGE_SIZE
    ensures forall f :: 0 <= f < pmm.totalFrames ==>
              (!pmm.used[f] <==>
               UsableFrame(entries, |entries|, f)
               && !Reserved(f, bitmapBase, BytesFor(pmm.totalFrames), mapBase, |entries| * E820_ENTRY_SIZE))
  {
    hide WellFormedMap, Represents, FreeCount, UsableFrame;
    var totalFrames := highest / PAGE_SIZE;
    var bitmapSize := BytesFor(totalFrames);
    var bitmap := new bv8[bitmapSize];
    ghost var used := FillUsed(bitmap, totalFrames);
    var freeFrames;
    freeFrames, used := FreeUsable(entries, totalFrames, bitmap, used);
    freeFrames, used := MarkRegionUsed(0, LOW_MEMORY_END / PAGE_SIZE, bitmap, freeFrames, used);
    freeFrames, used := MarkRegionUsed(LOW_MEMORY_END / PAGE_SIZE, KERNEL_END / PAGE_SIZE, bitmap, freeFrames, used);
    freeFrames, used := MarkRegionUsed((KERNEL_STACK_TOP - KERNEL_STACK_SIZE) / PAGE_SIZE,
                                       KERNEL_STACK_TOP / PAGE_SIZE, bitmap, freeFrames, used);
    freeFrames, used := MarkRegionUsed(bitmapBase / PAGE_SIZE, PagesUp(bitmapBase + bitmapSize),
                                       bitmap, freeFrames, used);
    var mapBytes := |entries| * E820_ENTRY_SIZE;
    freeFrames, used := MarkRegionUsed(mapBase / PAGE_SIZE, PagesUp(mapBase + mapBytes), bitmap, freeFrames, used);
    SetPhantomBits(bitmap, used, totalFrames);
    pmm := new PhysicalMemoryManager(bitmap, totalFrames, freeFrames, used);
  }
}
