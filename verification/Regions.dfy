/** The registry of demand-paged regions, as values: fixed slots, and what cutting a range out of it means. */
module Regions {
  import opened Results
  import opened Sizes
  import opened PageEntry

  const MAX_REGIONS: nat := 64

  /** Where the contents of a region come from. */
  datatype Backing = ZeroFill | FileBacked(fileOffset: nat, fileSize: nat)

  datatype VmRegion = VmRegion(start: nat, end: nat, flags: Flags, backing: Backing) {
    predicate Has(a: nat) {
      start <= a < end
    }
  }

  type Slots = seq<Option<VmRegion>>

  function AlignDown(addr: nat): nat {
    addr / PAGE_SIZE * PAGE_SIZE
  }

  /** Wraps to zero within a page of 2^64. */
  function AlignUp(addr: nat): nat {
    (addr + PAGE_SIZE - 1) % (U64_MAX + 1) / PAGE_SIZE * PAGE_SIZE
  }

  predicate RangesOverlap(aStart: nat, aEnd: nat, bStart: nat, bEnd: nat) {
    aStart < bEnd && bStart < aEnd
  }

  /** Two ranges that are not empty overlap exactly if they share an address. */
  lemma OverlapMeansShared(aStart: nat, aEnd: nat, bStart: nat, bEnd: nat)
    requires aStart < aEnd && bStart < bEnd
    ensures RangesOverlap(aStart, aEnd, bStart, bEnd) <==>
            exists a: nat :: InRange(a, aStart, aEnd) && InRange(a, bStart, bEnd)
  {
    if RangesOverlap(aStart, aEnd, bStart, bEnd) {
      var a := if aStart < bStart then bStart else aStart;
      assert InRange(a, aStart, aEnd) && InRange(a, bStart, bEnd);
    }
  }

  predicate InRange(a: nat, start: nat, end: nat) {
    start <= a < end
  }

  /** Rounding goes to the nearest page boundary below or above; above the last one it wraps to zero. */
  lemma RoundingToPages(addr: nat)
    requires addr <= U64_MAX
    ensures AlignDown(addr) % PAGE_SIZE == 0 && AlignDown(addr) <= addr < AlignDown(addr) + PAGE_SIZE
    ensures AlignUp(addr) % PAGE_SIZE == 0
    ensures if addr + PAGE_SIZE - 1 <= U64_MAX then addr <= AlignUp(addr) < addr + PAGE_SIZE else AlignUp(addr) == 0
  {
  }

  ghost predicate WholePages(r: VmRegion) {
    r.start < r.end && r.start % PAGE_SIZE == 0 && r.end % PAGE_SIZE == 0
  }

  ghost predicate Apart(r: VmRegion, s: VmRegion) {
    !RangesOverlap(r.start, r.end, s.start, s.end)
  }

  /** Non-empty regions of whole pages, no two of which overlap. */
  ghost predicate Regular(slots: Slots) {
    && (forall i :: 0 <= i < |slots| && slots[i].Some? ==> WholePages(slots[i].value))
    && (forall i, j :: 0 <= i < |slots| && 0 <= j < |slots| && i != j && slots[i].Some? && slots[j].Some? ==>
          Apart(slots[i].value, slots[j].value))
  }

  /** Address `a` is in a region with these flags. */
  ghost predicate Covered(slots: Slots, a: nat, flags: Flags) {
    exists i :: 0 <= i < |slots| && slots[i].Some? && slots[i].value.Has(a) && slots[i].value.flags == flags
  }

  /** In a regular registry an address has one region at most, so its flags are determined. */
  lemma CoveredOnce(slots: Slots, a: nat, f: Flags, g: Flags)
    requires Regular(slots) && Covered(slots, a, f) && Covered(slots, a, g)
    ensures f == g
  {
    var i :| 0 <= i < |slots| && slots[i].Some? && slots[i].value.Has(a) && slots[i].value.flags == f;
    var j :| 0 <= j < |slots| && slots[j].Some? && slots[j].value.Has(a) && slots[j].value.flags == g;
  }

  /** `slots'` says about addresses outside `[from, to)` what `slots` says. */
  ghost predicate SameOutside(slots: Slots, slots': Slots, from: nat, to: nat) {
    forall a: nat, f :: !(from <= a < to) ==> (Covered(slots', a, f) <==> Covered(slots, a, f))
  }

  ghost predicate Clear(slot: Option<VmRegion>, from: nat, to: nat) {
    slot.Some? ==> !RangesOverlap(from, to, slot.value.start, slot.value.end)
  }

  /** Replacing a region by a part of it that has everything outside `[from, to)`. */
  lemma ReplaceSlot(slots: Slots, i: nat, part: Option<VmRegion>, from: nat, to: nat)
    requires Regular(slots) && i < |slots| && slots[i].Some?
    requires part.Some? ==>
               && WholePages(part.value) && part.value.flags == slots[i].value.flags
               && slots[i].value.start <= part.value.start && part.value.end <= slots[i].value.end
    requires forall a: nat :: slots[i].value.Has(a) && !(from <= a < to) ==> part.Some? && part.value.Has(a)
    ensures Regular(slots[i := part]) && SameOutside(slots, slots[i := part], from, to)
  {
    var slots' := slots[i := part];
    forall j, k | 0 <= j < |slots'| && 0 <= k < |slots'| && j != k && slots'[j].Some? && slots'[k].Some?
      ensures Apart(slots'[j].value, slots'[k].value)
    {
      assert Apart(slots[j].value, slots[k].value);
    }
    forall a: nat, f | !(from <= a < to)
      ensures Covered(slots', a, f) <==> Covered(slots, a, f)
    {
      KeepOutside(slots, i, part, a, f);
    }
  }

  lemma KeepOutside(slots: Slots, i: nat, part: Option<VmRegion>, a: nat, f: Flags)
    requires i < |slots| && slots[i].Some?
    requires part.Some? ==> part.value.flags == slots[i].value.flags
    requires slots[i].value.Has(a) <==> part.Some? && part.value.Has(a)
    ensures Covered(slots[i := part], a, f) <==> Covered(slots, a, f)
  {
    var slots' := slots[i := part];
    if Covered(slots, a, f) {
      var k :| 0 <= k < |slots| && slots[k].Some? && slots[k].value.Has(a) && slots[k].value.flags == f;
      assert slots'[k].Some? && slots'[k].value.Has(a) && slots'[k].value.flags == f;
    }
    if Covered(slots', a, f) {
      var k :| 0 <= k < |slots'| && slots'[k].Some? && slots'[k].value.Has(a) && slots'[k].value.flags == f;
      assert slots[k].Some? && slots[k].value.Has(a) && slots[k].value.flags == f;
    }
  }

  /** Filling a free slot with a region that overlaps no other adds its addresses. */
  lemma FillSlot(slots: Slots, j: nat, r: VmRegion)
    requires Regular(slots) && j < |slots| && slots[j].None? && WholePages(r)
    requires forall k :: 0 <= k < |slots| && slots[k].Some? ==> Apart(slots[k].value, r)
    ensures Regular(slots[j := Some(r)])
    ensures forall a: nat, f :: Covered(slots[j := Some(r)], a, f) <==>
              Covered(slots, a, f) || (r.Has(a) && r.flags == f)
  {
    var slots' := slots[j := Some(r)];
    forall a: nat, f
      ensures Covered(slots', a, f) <==> Covered(slots, a, f) || (r.Has(a) && r.flags == f)
    {
      if Covered(slots, a, f) {
        var k :| 0 <= k < |slots| && slots[k].Some? && slots[k].value.Has(a) && slots[k].value.flags == f;
        assert slots'[k].Some? && slots'[k].value.Has(a) && slots'[k].value.flags == f;
      }
      if r.Has(a) && r.flags == f {
        assert slots'[j].Some? && slots'[j].value.Has(a) && slots'[j].value.flags == f;
      }
    }
  }

  /** Cutting a hole out of the middle of a region: the left part stays in its slot, the right part
      goes to a free one. */
  lemma SplitSlot(slots: Slots, i: nat, j: nat, from: nat, to: nat)
    requires Regular(slots) && i < |slots| && j < |slots| && slots[i].Some?
    requires from < to && from % PAGE_SIZE == 0 && to % PAGE_SIZE == 0
    requires slots[i].value.start < from && to < slots[i].value.end
    requires slots[i := Some(slots[i].value.(end := from))][j].None?
    ensures var r := slots[i].value;
            var slots' := slots[i := Some(r.(end := from))][j := Some(r.(start := to))];
            Regular(slots') && SameOutside(slots, slots', from, to)
  {
    var r := slots[i].value;
    var left, right := r.(end := from), r.(start := to);
    var half := slots[i := Some(left)];
    ReplaceSlot(slots, i, Some(left), from, r.end);
    forall k | 0 <= k < |half| && half[k].Some?
      ensures Apart(half[k].value, right)
    {
      assert k != i ==> Apart(slots[k].value, r);
    }
    FillSlot(half, j, right);
    var slots' := half[j := Some(right)];
    forall a: nat, f | !(from <= a < to)
      ensures Covered(slots', a, f) <==> Covered(slots, a, f)
    {
      if r.Has(a) && a >= to {
        OnlyRegion(slots, i, a, f);
        OnlyRegion(slots', j, a, f);
      } else if !(from <= a < r.end) {
        assert Covered(half, a, f) <==> Covered(slots, a, f);
      }
    }
  }

  lemma OnlyRegion(slots: Slots, i: nat, a: nat, f: Flags)
    requires Regular(slots) && i < |slots| && slots[i].Some? && slots[i].value.Has(a)
    ensures Covered(slots, a, f) <==> slots[i].value.flags == f
  {
    assert Covered(slots, a, slots[i].value.flags);
    if Covered(slots, a, f) {
      CoveredOnce(slots, a, f, slots[i].value.flags);
    }
  }

  /** When no slot overlaps the range any more, the range is gone and everything else is as before. */
  ghost predicate CutOut(slots: Slots, slots': Slots, from: nat, to: nat) {
    forall a: nat, f :: Covered(slots', a, f) <==> Covered(slots, a, f) && !(from <= a < to)
  }

  lemma AllClearMeansCut(slots: Slots, slots': Slots, from: nat, to: nat)
    requires SameOutside(slots, slots', from, to)
    requires forall k :: 0 <= k < |slots'| ==> Clear(slots'[k], from, to)
    ensures CutOut(slots, slots', from, to)
  {
    forall a: nat, f | from <= a < to
      ensures !Covered(slots', a, f)
    {
    }
  }

  /** The region reaches beyond the range on both sides. */
  ghost predicate Spans(slot: Option<VmRegion>, from: nat, to: nat) {
    slot.Some? && slot.value.start < from && to < slot.value.end
  }

  /** If one region spans the range, no other one touches it. */
  lemma SpansAlone(slots: Slots, i: nat, from: nat, to: nat)
    requires Regular(slots) && i < |slots| && from < to && Spans(slots[i], from, to)
    ensures forall k :: 0 <= k < |slots| && k != i ==> Clear(slots[k], from, to)
  {
    assert forall k :: 0 <= k < |slots| && k != i && slots[k].Some? ==> Apart(slots[k].value, slots[i].value);
  }

  /** Slot `i` ends at `from` now. */
  function Shortened(slots: Slots, i: nat, from: nat): Slots
    requires i < |slots| && slots[i].Some?
  {
    slots[i := Some(slots[i].value.(end := from))]
  }

  /** A region that spans the range ends where the range begins, and nothing else changed. */
  ghost predicate LostPart(slots: Slots, slots': Slots, from: nat, to: nat) {
    exists i :: 0 <= i < |slots| && Spans(slots[i], from, to) && slots' == Shortened(slots, i, from)
  }

  /** Shortening a region in front of the range without registering the part behind it loses that part. */
  lemma UnregisteredPartIsLost(slots: Slots, i: nat, from: nat, to: nat)
    requires Regular(slots) && i < |slots| && from < to && Spans(slots[i], from, to)
    ensures forall a: nat :: to <= a < slots[i].value.end ==> Covered(slots, a, slots[i].value.flags)
    ensures forall a: nat, f :: to <= a < slots[i].value.end ==>
              !Covered(Shortened(slots, i, from), a, f)
  {
    var r := slots[i].value;
    forall a: nat | to <= a < r.end
      ensures Covered(slots, a, r.flags)
    {
      assert r.Has(a);
    }
    var slots' := Shortened(slots, i, from);
    forall a: nat, f | to <= a < r.end
      ensures !Covered(slots', a, f)
    {
      forall k | 0 <= k < |slots'| && slots'[k].Some?
        ensures !slots'[k].value.Has(a)
      {
        assert k != i ==> Apart(slots[k].value, r);
      }
    }
  }
}
