/** The firmware memory map and the memory zones: what the frame allocator is built from. */
module E820 {
  import opened Sizes

  const DMA_ZONE_END: nat := 16 * 1024 * 1024
  const DMA32_ZONE_END: nat := 4 * 1024 * 1024 * 1024
  const USABLE: nat := 1

  datatype MemoryZone = Dma | Dma32 | Normal | HighMem {
    function StartAddress(): nat {
      match this
      case Dma => 0
      case Dma32 => DMA_ZONE_END
      case Normal => DMA32_ZONE_END
      case HighMem => U64_MAX
    }

    /** Exclusive. */
    function EndAddress(): nat {
      match this
      case Dma => DMA_ZONE_END
      case Dma32 => DMA32_ZONE_END
      case Normal => U64_MAX
      case HighMem => U64_MAX
    }

    /** First frame number of the zone. */
    function StartFrame(): nat {
      StartAddress() / PAGE_SIZE
    }

    /** One past the last frame number of the zone on a machine of `totalFrames` frames. */
    function EndFrame(totalFrames: nat): nat {
      if EndAddress() / PAGE_SIZE < totalFrames then EndAddress() / PAGE_SIZE else totalFrames
    }

    /** Position of the zone's statistics. */
    function Index(): (i: nat)
      ensures i < 4
    {
      match this
      case Dma => 0
      case Dma32 => 1
      case Normal => 2
      case HighMem => 3
    }

    static function FromAddress(addr: nat): MemoryZone {
      if addr < DMA_ZONE_END then Dma
      else if addr < DMA32_ZONE_END then Dma32
      else Normal
    }
  }

  /** The zones in bytes: below 16 MiB, from there to 4 GiB, and above. */
  lemma ZoneLimits(addr: nat)
    ensures MemoryZone.FromAddress(addr) ==
            if addr < 0x100_0000 then Dma else if addr < 0x1_0000_0000 then Dma32 else Normal
    ensures Dma.StartFrame() == 0 && Dma32.StartFrame() == 0x1000 && Normal.StartFrame() == 0x10_0000
  {
  }

  datatype E820Entry = E820Entry(base: nat, length: nat, regionType: nat, acpiExtended: nat) {
    /** End of the region, exclusive; saturates at the largest 64-bit number. */
    function End(): nat {
      if base + length <= U64_MAX then base + length else U64_MAX
    }

    predicate IsValid() {
      length > 0 && (acpiExtended % 2 == 1 || acpiExtended == 0)
    }

    predicate IsUsable() {
      IsValid() && regionType == USABLE
    }

    /** Frame `f` lies wholly inside this entry. */
    predicate HasFrame(f: nat) {
      base <= f * PAGE_SIZE && (f + 1) * PAGE_SIZE <= base + length
    }
  }

  /** What a frame allocator can work with: usable entries end below 2^64, and no two of them overlap. */
  ghost predicate WellFormedMap(entries: seq<E820Entry>) {
    && (forall i :: 0 <= i < |entries| && entries[i].IsUsable() ==> entries[i].base + entries[i].length <= U64_MAX)
    && (forall i, j :: 0 <= i < j < |entries| && entries[i].IsUsable() && entries[j].IsUsable() ==>
          || entries[i].base + entries[i].length <= entries[j].base
          || entries[j].base + entries[j].length <= entries[i].base)
  }

  /** Scans for the end of the highest usable region. */
  method HighestUsableAddress(entries: seq<E820Entry>) returns (highest: nat)
    ensures forall i :: 0 <= i < |entries| && entries[i].IsUsable() ==> entries[i].End() <= highest
    ensures highest == 0 || exists i :: 0 <= i < |entries| && entries[i].IsUsable() && entries[i].End() == highest
  {
    highest := 0;
    var i := 0;
    while i < |entries|
      invariant 0 <= i <= |entries|
      invariant forall k :: 0 <= k < i && entries[k].IsUsable() ==> entries[k].End() <= highest
      invariant highest == 0 || exists k :: 0 <= k < i && entries[k].IsUsable() && entries[k].End() == highest
    {
      if entries[i].IsUsable() {
        if entries[i].End() > highest {
          highest := entries[i].End();
        }
      }
      i := i + 1;
    }
  }

  /** On a well-formed map no frame belongs to two usable entries. */
  lemma UsableEntriesShareNoFrame(entries: seq<E820Entry>, i: nat, j: nat, f: nat)
    requires WellFormedMap(entries) && i < |entries| && j < |entries|
    requires entries[i].IsUsable() && entries[j].IsUsable()
    requires entries[i].HasFrame(f) && entries[j].HasFrame(f)
    ensures i == j
  {
  }

  /** The zones partition the address space below 2^64 - 1: an address lies in the
      bounds of the zone it is classified into, and of no other. */
  lemma ZonesPartition(addr: nat, zone: MemoryZone)
    requires addr < U64_MAX
    ensures zone.StartAddress() <= addr < zone.EndAddress() <==> zone == MemoryZone.FromAddress(addr)
  {
  }
}
