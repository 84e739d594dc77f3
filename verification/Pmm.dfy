/** The physical memory manager: a bitmap allocator of 4 KiB frames. */
module Pmm {
  import opened Results
  import opened Bitmap
  import opened Sizes
  import opened E820

  /** Error codes, as the source numbers them. */
  const ERR_NO_MEMORY: nat := 1
  const ERR_NO_BITMAP_REGION: nat := 2
  const ERR_NO_FREE_FRAMES: nat := 3
  const ERR_SEARCH_FAILED: nat := 4
  const ERR_UNALIGNED: nat := 5
  const ERR_OUT_OF_BOUNDS: nat := 6
  const ERR_DOUBLE_FREE: nat := 7
  const ERR_ZONE_EMPTY: nat := 10
  const ERR_ZONE_SEARCH_FAILED: nat := 11
  const ERR_ZERO_COUNT: nat := 12
  const ERR_NO_RUN: nat := 13

  /** Zone counters are machine words that wrap around. */
  function WrapInc(x: nat): nat {
    if x >= U64_MAX then 0 else x + 1
  }

  function WrapDec(x: nat): nat {
    if x == 0 then U64_MAX else x - 1
  }

  /** Counting up and down is inverse, modulo 2^64. */
  lemma CountersWrap(x: nat)
    requires x <= U64_MAX
    ensures WrapInc(x) == (x + 1) % 0x1_0000_0000_0000_0000 && WrapDec(WrapInc(x)) == x && WrapInc(WrapDec(x)) == x
  {
  }

  /** `f` is the free frame a cyclic search that starts at frame `start` meets first. */
  ghost predicate IsNextFree(used: seq<bool>, start: nat, f: nat) {
    && f < |used|
    && !used[f]
    && if start <= f then
         forall g :: start <= g < f ==> used[g]
       else
         && (forall g :: start <= g < |used| ==> used[g])
         && (forall g :: 0 <= g < f ==> used[g])
  }

  /** `f` is the least free frame of `[lo, hi)`. */
  ghost predicate IsLeastFree(used: seq<bool>, lo: nat, hi: nat, f: nat) {
    && lo <= f < hi <= |used|
    && !used[f]
    && forall g :: lo <= g < f ==> used[g]
  }

  /** `count` free frames in a row, from `base`. */
  ghost predicate FreeRun(used: seq<bool>, base: nat, count: nat) {
    RunIs(used, base, count, false)
  }

  /** Only the first `n` frames of the run were freed: the next one is out of bounds or free already. */
  ghost predicate FreedPart(before: seq<bool>, after: seq<bool>, base: nat, count: nat, n: nat) {
    n < count && after == WithRun(before, base, n, false) && (base + n < |before| ==> !before[base + n])
  }

  lemma FrameAddress(f: nat)
    ensures f * PAGE_SIZE / PAGE_SIZE == f && f * PAGE_SIZE % PAGE_SIZE == 0
  {
  }

  lemma WrapStep(i: nat, size: nat)
    requires i < size
    ensures (i + 1) % size == if i + 1 == size then 0 else i + 1
  {
  }

  class PhysicalMemoryManager {
    const bitmap: array<bv8>
    const totalFrames: nat
    var freeFrames: nat
    /** Byte at which the next search starts. */
    var lastAllocIndex: nat
    /** Free counters of the four zones: hints that start at 0, drift and wrap around. */
    var zoneFree: seq<nat>
    /** Which frames are in use. */
    ghost var used: seq<bool>

    ghost predicate Valid()
      reads this, bitmap
    {
      && |used| == totalFrames
      && Represents(bitmap[..], used)
      && freeFrames == FreeCount(used)
      && (totalFrames > 0 ==> lastAllocIndex < bitmap.Length)
      && |zoneFree| == 4
    }

    /** Takes over a filled-in bitmap; the zone counters start at zero. */
    constructor (bitmap: array<bv8>, totalFrames: nat, freeFrames: nat, ghost used: seq<bool>)
      requires |used| == totalFrames && Represents(bitmap[..], used) && freeFrames == FreeCount(used)
      ensures Valid() && this.bitmap == bitmap && this.totalFrames == totalFrames && this.used == used
      ensures zoneFree == [0, 0, 0, 0] && lastAllocIndex == 0
    {
      this.bitmap := bitmap;
      this.totalFrames := totalFrames;
      this.freeFrames := freeFrames;
      this.lastAllocIndex := 0;
      this.zoneFree := [0, 0, 0, 0];
      this.used := used;
    }

    /** Is the frame in use? Frames out of bounds count as used. */
    method TestBit(frame: nat) returns (r: bool)
      requires Valid()
      ensures r == (frame < totalFrames ==> used[frame])
    {
      if frame >= totalFrames {
        return true;
      }
      assert BitAt(bitmap[..], frame) == used[frame];
      return Bit(bitmap[frame / 8], frame % 8);
    }

    /** Writes one bit of the bitmap, and nothing else. */
    method WriteFrameBit(frame: nat, value: bool)
      requires Represents(bitmap[..], used) && frame < |used|
      modifies bitmap, this`used
      ensures used == old(used)[frame := value]
      ensures Represents(bitmap[..], used)
    {
      UpdateRepresents(bitmap[..], used, frame, value);
      ghost var before := bitmap[..];
      bitmap[frame / 8] := WriteBit(bitmap[frame / 8], frame % 8, value);
      used := used[frame := value];
      assert bitmap[..] == WithBit(before, frame, value);
    }

    /** Marks one free frame as used and moves the search hint to its byte. */
    method TakeFrame(frame: nat)
      requires Valid() && frame < totalFrames && !used[frame]
      modifies this, bitmap
      ensures Valid() && used == old(used)[frame := true]
      ensures freeFrames == old(freeFrames) - 1 && lastAllocIndex == frame / 8
      ensures zoneFree == old(zoneFree)
    {
      FreeCountUpdate(used, frame, true);
      WriteFrameBit(frame, true);
      freeFrames := freeFrames - 1;
      lastAllocIndex := frame / 8;
    }

    /** Allocates the first free frame at or after the search hint, wrapping around. */
    method AllocFrame() returns (r: Result<nat, nat>)
      requires Valid()
      modifies this, bitmap
      ensures Valid()
      ensures r.Failure? <==> old(freeFrames) == 0
      ensures r.Failure? ==> r.error == ERR_NO_FREE_FRAMES && used == old(used)
      ensures r.Success? ==>
                && r.value % PAGE_SIZE == 0
                && IsNextFree(old(used), 8 * old(lastAllocIndex), r.value / PAGE_SIZE)
                && used == old(used)[r.value / PAGE_SIZE := true]
                && freeFrames == old(freeFrames) - 1
                && lastAllocIndex == r.value / PAGE_SIZE / 8
      ensures zoneFree == old(zoneFree)
    {
      if freeFrames == 0 {
        return Failure(ERR_NO_FREE_FRAMES);
      }
      hide FreeCount, IsLeastFree, IsNextFree;
      var frameIndex := SearchFrame();
      if frameIndex.None? {
        FreeCountZero(used);
        return Failure(ERR_SEARCH_FAILED);
      }
      TakeFrame(frameIndex.value);
      FrameAddress(frameIndex.value);
      return Success(frameIndex.value * PAGE_SIZE);
    }

    /** The search of `AllocFrame`: byte by byte from the hint, once around. */
    method SearchFrame() returns (r: Option<nat>)
      requires Valid() && totalFrames > 0
      ensures r.Some? ==> IsNextFree(used, 8 * lastAllocIndex, r.value)
      ensures r.None? ==> forall f :: 0 <= f < totalFrames ==> used[f]
    {
      hide FreeCount;
      var size := bitmap.Length;
      var currentIdx := lastAllocIndex;
      var loopCount := 0;
      while loopCount < size
        invariant 0 <= loopCount <= size
        invariant currentIdx == if lastAllocIndex + loopCount < size then lastAllocIndex + loopCount
                                else lastAllocIndex + loopCount - size
        invariant forall g :: 8 * lastAllocIndex <= g < 8 * (lastAllocIndex + loopCount) && g < totalFrames
                              ==> used[g]
        invariant forall g :: 0 <= g < 8 * (lastAllocIndex + loopCount - size) && g < totalFrames ==> used[g]
      {
        var bitOffset := FirstFreeInByte(currentIdx, 0, totalFrames);
        if bitOffset < 8 {
          return Some(currentIdx * 8 + bitOffset);
        }
        WrapStep(currentIdx, size);
        currentIdx := (currentIdx + 1) % size;
        loopCount := loopCount + 1;
      }
      return None;
    }

    /** The first free frame of `[lo, hi)` in one byte of the bitmap, as a bit number; 8 if there is none. */
    method FirstFreeInByte(byteIdx: nat, lo: nat, hi: nat) returns (bitOffset: nat)
      requires Valid() && byteIdx < bitmap.Length && hi <= totalFrames
      ensures bitOffset <= 8
      ensures forall g :: 8 * byteIdx <= g < 8 * byteIdx + bitOffset && lo <= g < hi ==> used[g]
      ensures bitOffset < 8 ==> lo <= 8 * byteIdx + bitOffset < hi && !used[8 * byteIdx + bitOffset]
    {
      var byteValue := bitmap[byteIdx];
      ByteFrames(byteIdx);
      if byteValue == 0xFF {
        FullByte(byteValue);
        return 8;
      }
      bitOffset := 0;
      while bitOffset < 8
        invariant 0 <= bitOffset <= 8
        invariant forall g :: 8 * byteIdx <= g < 8 * byteIdx + bitOffset && lo <= g < hi ==> used[g]
      {
        var frameIndex := byteIdx * 8 + bitOffset;
        if lo <= frameIndex < hi && !Bit(byteValue, bitOffset) {
          return;
        }
        bitOffset := bitOffset + 1;
      }
    }

    /** What the bits of one byte say about its frames. */
    lemma ByteFrames(byteIdx: nat)
      requires Valid() && byteIdx < bitmap.Length
      ensures forall g :: 8 * byteIdx <= g < 8 * byteIdx + 8 && g < totalFrames ==>
                used[g] == Bit(bitmap[byteIdx], g - 8 * byteIdx)
    {
      forall g | 8 * byteIdx <= g < 8 * byteIdx + 8 && g < totalFrames
        ensures used[g] == Bit(bitmap[byteIdx], g - 8 * byteIdx)
      {
        assert BitAt(bitmap[..], g) == used[g];
        assert g / 8 == byteIdx && g % 8 == g - 8 * byteIdx;
      }
    }

    /** Allocates the least free frame of a zone, provided the zone's counter is not zero. */
    method AllocFrameInZone(zone: MemoryZone) returns (r: Result<nat, nat>)
      requires Valid()
      modifies this, bitmap
      ensures Valid()
      ensures r.Success? <==>
                && old(zoneFree)[zone.Index()] != 0
                && exists f :: zone.StartFrame() <= f < zone.EndFrame(totalFrames) && !old(used)[f]
      ensures r.Success? ==>
                && r.value % PAGE_SIZE == 0
                && IsLeastFree(old(used), zone.StartFrame(), zone.EndFrame(totalFrames), r.value / PAGE_SIZE)
                && used == old(used)[r.value / PAGE_SIZE := true]
                && freeFrames == old(freeFrames) - 1
                && lastAllocIndex == r.value / PAGE_SIZE / 8
                && zoneFree == old(zoneFree)[zone.Index() := old(zoneFree)[zone.Index()] - 1]
      ensures r.Failure? ==>
                && r.error == (if old(zoneFree)[zone.Index()] == 0 then ERR_ZONE_EMPTY else ERR_ZONE_SEARCH_FAILED)
                && used == old(used) && zoneFree == old(zoneFree)
                && lastAllocIndex == old(lastAllocIndex) && freeFrames == old(freeFrames)
    {
      hide FreeCount;
      var z := zone.Index();
      if zoneFree[z] == 0 {
        return Failure(ERR_ZONE_EMPTY);
      }
      var zoneStart := zone.StartFrame();
      var zoneEnd := zone.EndFrame(totalFrames);
      var byteIdx := zoneStart / 8;
      var endByte := (zoneEnd + 7) / 8;
      while byteIdx < endByte
        invariant zoneStart / 8 <= byteIdx
        invariant unchanged(this) && unchanged(bitmap)
        invariant forall g :: zoneStart <= g < zoneEnd && g < 8 * byteIdx ==> used[g]
      {
        var bitOffset := FirstFreeInByte(byteIdx, zoneStart, zoneEnd);
        if bitOffset < 8 {
          var frameIndex := byteIdx * 8 + bitOffset;
          TakeFrame(frameIndex);
          zoneFree := zoneFree[z := zoneFree[z] - 1];
          FrameAddress(frameIndex);
          return Success(frameIndex * PAGE_SIZE);
        }
        byteIdx := byteIdx + 1;
      }
      return Failure(ERR_ZONE_SEARCH_FAILED);
    }

    /** The zone has a free frame, and its counter is not zero. */
    ghost predicate ZoneOffers(zone: MemoryZone)
      requires Valid()
      reads this, bitmap
    {
      zoneFree[zone.Index()] != 0 && exists f :: zone.StartFrame() <= f < zone.EndFrame(totalFrames) && !used[f]
    }

    /** A frame below 4 GiB if the zone counters admit one: the DMA zone first, then DMA32. */
    method AllocDma32Frame() returns (r: Result<nat, nat>)
      requires Valid()
      modifies this, bitmap
      ensures Valid()
      ensures r.Success? ==> TookFrame(r.value) && r.value < DMA32_ZONE_END
      ensures r.Success? ==>
                var zone := if old(ZoneOffers(Dma)) then Dma else Dma32;
                IsLeastFree(old(used), zone.StartFrame(), zone.EndFrame(totalFrames), r.value / PAGE_SIZE)
      ensures r.Success? <==> old(ZoneOffers(Dma) || ZoneOffers(Dma32))
      ensures r.Failure? ==> used == old(used) && freeFrames == old(freeFrames) && zoneFree == old(zoneFree)
      ensures r.Failure? ==> lastAllocIndex == old(lastAllocIndex)
    {
      r := AllocFrameInZone(Dma);
      if r.Success? {
        return r;
      }
      r := AllocFrameInZone(Dma32);
    }

    /** The common part of every single-frame allocation: the frame at `addr` was free and is now used;
        no other frame changed hands. */
    twostate predicate TookFrame(addr: nat)
      reads this
    {
      && addr % PAGE_SIZE == 0
      && addr / PAGE_SIZE < old(|used|)
      && !old(used)[addr / PAGE_SIZE]
      && used == old(used)[addr / PAGE_SIZE := true]
    }

    /** Allocates `count` frames in a row: the first run that is free. */
    method AllocFramesContiguous(count: nat, zone: Option<MemoryZone>) returns (r: Result<nat, nat>)
      requires Valid()
      modifies this, bitmap
      ensures Valid()
      ensures count == 0 ==> r == Failure(ERR_ZERO_COUNT)
      ensures count == 1 && r.Success? ==> TookFrame(r.value) && freeFrames == old(freeFrames) - 1
      ensures count == 1 && zone.None? ==>
                && (r.Failure? <==> old(freeFrames) == 0)
                && (r.Success? ==> IsNextFree(old(used), 8 * old(lastAllocIndex), r.value / PAGE_SIZE))
      ensures count == 1 && zone.Some? ==>
                && (r.Success? <==> old(ZoneOffers(zone.value)))
                && (r.Success? ==> IsLeastFree(old(used), zone.value.StartFrame(), zone.value.EndFrame(totalFrames),
                                               r.value / PAGE_SIZE))
      ensures count > 1 ==>
                var lo := if zone.None? then 0 else zone.value.StartFrame();
                var hi := if zone.None? then totalFrames else zone.value.EndFrame(totalFrames);
                && (r.Failure? ==>
                      && r.error == ERR_NO_RUN
                      && forall b: nat :: lo <= b && b + count <= hi ==> !FreeRun(old(used), b, count))
                && (r.Success? ==>
                      && r.value % PAGE_SIZE == 0
                      && var base := r.value / PAGE_SIZE;
                      && lo <= base && base + count <= hi
                      && FreeRun(old(used), base, count)
                      && (forall b: nat :: lo <= b < base ==> !FreeRun(old(used), b, count))
                      && used == WithRun(old(used), base, count, true)
                      && freeFrames == old(freeFrames) - count)
      ensures r.Failure? ==> used == old(used) && freeFrames == old(freeFrames)
    {
      if count == 0 {
        return Failure(ERR_ZERO_COUNT);
      }
      if count == 1 {
        if zone.Some? {
          r := AllocFrameInZone(zone.value);
        } else {
          r := AllocFrame();
        }
        return r;
      }
      var startFrame := if zone.None? then 0 else zone.value.StartFrame();
      var endFrame := if zone.None? then totalFrames else zone.value.EndFrame(totalFrames);
      var currentFrame := startFrame;
      while currentFrame + count <= endFrame
        invariant startFrame <= currentFrame
        invariant unchanged(this) && unchanged(bitmap)
        invariant forall b: nat :: startFrame <= b < currentFrame ==> !FreeRun(used, b, count)
        decreases endFrame - currentFrame
      {
        var allFree := true;
        var base := currentFrame;
        var offset := 0;
        while offset < count && allFree
          invariant 0 <= offset <= count
          invariant unchanged(this) && unchanged(bitmap)
          invariant allFree ==> currentFrame == base && RunIs(used, base, offset, false)
          invariant !allFree ==> base < currentFrame <= base + count && used[currentFrame - 1]
          decreases count - offset, allFree
        {
          var frame := base + offset;
          var taken := TestBit(frame);
          if taken {
            allFree := false;
            currentFrame := frame + 1;  // jump past this frame
          } else {
            offset := offset + 1;
          }
        }
        if allFree {
          TakeRun(currentFrame, count);
          FrameAddress(currentFrame);
          return Success(currentFrame * PAGE_SIZE);
        }
        forall b: nat | base <= b < currentFrame
          ensures !FreeRun(used, b, count)
        {
          assert b <= currentFrame - 1 < b + count;
        }
      }
      return Failure(ERR_NO_RUN);
    }

    /** Marks a free run as used, frame by frame. */
    method TakeRun(base: nat, count: nat)
      requires Valid() && FreeRun(used, base, count)
      modifies this, bitmap
      ensures Valid() && used == WithRun(old(used), base, count, true)
      ensures freeFrames == old(freeFrames) - count
      ensures lastAllocIndex == old(lastAllocIndex)
    {
      WithEmptyRun(used, base, true);
      var offset := 0;
      while offset < count
        invariant 0 <= offset <= count
        invariant used == WithRun(old(used), base, offset, true)
        invariant Represents(bitmap[..], used)
        invariant freeFrames == old(freeFrames) && lastAllocIndex == old(lastAllocIndex)
        invariant |zoneFree| == 4
      {
        var frame := base + offset;
        WithRunStep(old(used), base, offset, true);
        WriteFrameBit(frame, true);
        var z := MemoryZone.FromAddress(frame * PAGE_SIZE).Index();
        zoneFree := zoneFree[z := WrapDec(zoneFree[z])];
        offset := offset + 1;
      }
      WithRunCount(old(used), base, count, true);
      freeFrames := freeFrames - count;
    }

    /** Gives a frame back; every misuse is reported and changes nothing. */
    method FreeFrame(addr: nat) returns (r: Result<(), nat>)
      requires Valid()
      modifies this, bitmap
      ensures Valid()
      ensures r.Success? <==>
                addr % PAGE_SIZE == 0 && addr / PAGE_SIZE < totalFrames && old(used)[addr / PAGE_SIZE]
      ensures r.Success? ==> used == old(used)[addr / PAGE_SIZE := false] && freeFrames == old(freeFrames) + 1
      ensures r.Success? ==>
                lastAllocIndex == if addr / PAGE_SIZE / 8 < old(lastAllocIndex) then addr / PAGE_SIZE / 8
                                  else old(lastAllocIndex)
      ensures r.Success? ==>
                var z := MemoryZone.FromAddress(addr).Index();
                zoneFree == old(zoneFree)[z := WrapInc(old(zoneFree)[z])]
      ensures r.Failure? ==> used == old(used) && freeFrames == old(freeFrames) && zoneFree == old(zoneFree)
      ensures r.Failure? ==>
                r.error == if addr % PAGE_SIZE != 0 then ERR_UNALIGNED
                           else if addr / PAGE_SIZE >= totalFrames then ERR_OUT_OF_BOUNDS
                           else ERR_DOUBLE_FREE
    {
      if addr % PAGE_SIZE != 0 {
        return Failure(ERR_UNALIGNED);
      }
      var frameIndex := addr / PAGE_SIZE;
      if frameIndex >= totalFrames {
        return Failure(ERR_OUT_OF_BOUNDS);
      }
      var byteIdx := frameIndex / 8;
      assert BitAt(bitmap[..], frameIndex) == used[frameIndex];
      if !Bit(bitmap[byteIdx], frameIndex % 8) {
        return Failure(ERR_DOUBLE_FREE);
      }
      WriteFrameBit(frameIndex, false);
      freeFrames := freeFrames + 1;
      var z := MemoryZone.FromAddress(addr).Index();
      zoneFree := zoneFree[z := WrapInc(zoneFree[z])];
      if byteIdx < lastAllocIndex {
        lastAllocIndex := byteIdx;
      }
      return Success(());
    }

    /** Frees a run frame by frame, stopping at the first frame that cannot be freed. */
    method FreeFramesContiguous(baseAddr: nat, count: nat) returns (r: Result<(), nat>)
      requires Valid()
      modifies this, bitmap
      ensures Valid()
      ensures count == 0 ==> r.Success? && used == old(used)
      ensures count > 0 ==>
                var base := baseAddr / PAGE_SIZE;
                && (r.Success? <==> baseAddr % PAGE_SIZE == 0 && RunIs(old(used), base, count, true))
                && (r.Success? ==> used == WithRun(old(used), base, count, false)
                                   && freeFrames == old(freeFrames) + count)
                && (r.Failure? ==> if baseAddr % PAGE_SIZE != 0 then used == old(used)
                                   else exists n :: FreedPart(old(used), used, base, count, n))
    {
      if count == 0 {
        return Success(());
      }
      if baseAddr % PAGE_SIZE != 0 {
        return Failure(ERR_UNALIGNED);
      }
      r := FreeRunAt(baseAddr / PAGE_SIZE, count);
    }

    /** The loop of `FreeFramesContiguous`, from frame `base` on. */
    method FreeRunAt(base: nat, count: nat) returns (r: Result<(), nat>)
      requires Valid() && count > 0
      modifies this, bitmap
      ensures Valid()
      ensures r.Success? <==> RunIs(old(used), base, count, true)
      ensures r.Success? ==> used == WithRun(old(used), base, count, false) && freeFrames == old(freeFrames) + count
      ensures r.Failure? ==> exists n :: FreedPart(old(used), used, base, count, n)
    {
      hide Represents, FreeCount, IsNextFree, IsLeastFree;
      WithEmptyRun(used, base, false);
      var i := 0;
      while i < count
        invariant 0 <= i <= count
        invariant Valid()
        invariant i > 0 ==> base + i <= totalFrames
        invariant forall f :: base <= f < base + i ==> old(used)[f]
        invariant used == WithRun(old(used), base, i, false)
        invariant freeFrames == old(freeFrames) + i
      {
        FrameAddress(base + i);
        var freed := FreeFrame((base + i) * PAGE_SIZE);
        if freed.Failure? {
          assert FreedPart(old(used), used, base, count, i);
          return Failure(freed.error);
        }
        WithRunStep(old(used), base, i, false);
        i := i + 1;
      }
      return Success(());
    }

    /** The C wrappers report a failed allocation as address 0. */
    method AllocFrameOrZero() returns (addr: nat)
      requires Valid()
      modifies this, bitmap
      ensures Valid()
      ensures addr != 0 ==> TookFrame(addr) && IsNextFree(old(used), 8 * old(lastAllocIndex), addr / PAGE_SIZE)
      ensures addr == 0 <==> old(freeFrames) == 0 || IsNextFree(old(used), 8 * old(lastAllocIndex), 0)
      ensures addr == 0 ==> used == old(used) || (0 < |old(used)| && !old(used)[0] && used == old(used)[0 := true])
    {
      var r := AllocFrame();
      return if r.Success? then r.value else 0;
    }

    method AllocDma32FrameOrZero() returns (addr: nat)
      requires Valid()
      modifies this, bitmap
      ensures Valid()
      ensures addr != 0 ==> TookFrame(addr) && addr < DMA32_ZONE_END
      ensures addr == 0 <==>
                || !old(ZoneOffers(Dma) || ZoneOffers(Dma32))
                || (old(ZoneOffers(Dma)) && !old(used)[0])
      ensures addr == 0 && (|old(used)| == 0 || old(used)[0]) ==>
                used == old(used) && freeFrames == old(freeFrames) && lastAllocIndex == old(lastAllocIndex)
      ensures addr == 0 ==> used == old(used) || (0 < |old(used)| && !old(used)[0] && used == old(used)[0 := true])
    {
      var r := AllocDma32Frame();
      return if r.Success? then r.value else 0;
    }
  }
}
