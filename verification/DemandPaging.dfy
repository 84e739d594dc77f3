/** Demand paging: regions are registered first and populated page by page on faults. */
module DemandPaging {
  import opened Results
  import opened Sizes
  import opened PageEntry
  import opened VirtAddr
  import opened PageTree
  import opened Pmm
  import Bitmap
  import opened Paging
  import opened Conservation
  import opened Regions

  datatype DemandError =
    | InvalidSize
    | Misaligned
    | SizeOverflow
    | Overlap
    | NoSlot
    | NoRegion
    | Present
    | NoFrame
    | NoIdentityMapping
    | OffsetOverflow
    | FreeError
    | PagingFailed(error: PagingError)

  /** Frames of the identity map that this module fills pages through: the first 128 MiB. */
  const FILL_FRAMES: nat := 0x8000

  /** The first free slot has the region now. */
  ghost predicate AddedFirst(slots: Slots, slots': Slots, region: VmRegion) {
    exists j: nat :: IsFirstFree(slots, j) && slots' == slots[j := Some(region)]
  }

  ghost predicate IsFirstFree(slots: Slots, j: nat) {
    j < |slots| && slots[j].None? && forall k :: 0 <= k < j ==> slots[k].Some?
  }

  /** The registry of regions: a fixed array of slots. */
  class RegionRegistry {
    const regions: array<Option<VmRegion>>

    ghost predicate Valid()
      reads this, regions
    {
      regions.Length == MAX_REGIONS && Regular(regions[..])
    }

    constructor ()
      ensures Valid() && fresh(regions)
      ensures forall a: nat, f :: !Covered(regions[..], a, f)
    {
      regions := new Option<VmRegion>[MAX_REGIONS](_ => None);
    }

    /** The index of the first free slot, `MAX_REGIONS` if there is none. */
    method FreeSlot() returns (j: nat)
      requires Valid()
      ensures j <= MAX_REGIONS
      ensures j < MAX_REGIONS ==> regions[j].None?
      ensures forall k :: 0 <= k < j ==> regions[k].Some?
    {
      j := 0;
      while j < MAX_REGIONS && regions[j].Some?
        invariant 0 <= j <= MAX_REGIONS
        invariant forall k :: 0 <= k < j ==> regions[k].Some?
      {
        j := j + 1;
      }
    }

    /** Does any region overlap the range? */
    method Overlaps(from: nat, to: nat) returns (r: bool)
      requires Valid()
      ensures r <==> exists k :: 0 <= k < MAX_REGIONS && !Clear(regions[k], from, to)
    {
      var k := 0;
      while k < MAX_REGIONS
        invariant 0 <= k <= MAX_REGIONS
        invariant forall j :: 0 <= j < k ==> Clear(regions[j], from, to)
      {
        if regions[k].Some? && RangesOverlap(from, to, regions[k].value.start, regions[k].value.end) {
          return true;
        }
        k := k + 1;
      }
      return false;
    }

    /** The region of an address, if it has one. */
    method FindRegion(addr: nat) returns (r: Option<VmRegion>)
      requires Valid()
      ensures r.Some? ==> r.value.Has(addr) && Some(r.value) in regions[..] && WholePages(r.value)
      ensures r.Some? ==> forall f :: Covered(regions[..], addr, f) <==> f == r.value.flags
      ensures r.None? ==> forall f :: !Covered(regions[..], addr, f)
    {
      var k := 0;
      while k < MAX_REGIONS
        invariant 0 <= k <= MAX_REGIONS
        invariant forall j :: 0 <= j < k && regions[j].Some? ==> !regions[j].value.Has(addr)
      {
        if regions[k].Some? && regions[k].value.Has(addr) {
          forall f
            ensures Covered(regions[..], addr, f) <==> f == regions[k].value.flags
          {
            OnlyRegion(regions[..], k, addr, f);
          }
          return regions[k];
        }
        k := k + 1;
      }
      return None;
    }

    /** Registers a region; `size` bytes from `start`, rounded out to whole pages. */
    method Mmap(start: Address, size: nat, flags: Flags, backing: Backing) returns (r: Result<nat, DemandError>)
      requires Valid()
      modifies regions
      ensures Valid()
      ensures r.Success? <==>
                && size > 0
                && (backing.FileBacked? ==> backing.fileOffset % PAGE_SIZE == 0)
                && start + size <= U64_MAX && AlignDown(start) < AlignUp(start + size)
                && (forall k :: 0 <= k < MAX_REGIONS ==>
                    Clear(old(regions[k]), AlignDown(start), AlignUp(start + size)))
                && (exists k :: 0 <= k < MAX_REGIONS && old(regions[k]).None?)
      ensures r.Success? ==>
                && r.value == AlignDown(start)
                && forall a: nat, f :: Covered(regions[..], a, f) <==>
                     Covered(old(regions[..]), a, f)
                     || (AlignDown(start) <= a < AlignUp(start + size) && f == flags)
      ensures r.Success? ==>
                AddedFirst(old(regions[..]), regions[..],
                    VmRegion(AlignDown(start), AlignUp(start + size), flags, backing))
      ensures r.Failure? ==> regions[..] == old(regions[..])
    {
      if size == 0 {
        return Failure(InvalidSize);
      }
      if backing.FileBacked? && backing.fileOffset % PAGE_SIZE != 0 {
        return Failure(Misaligned);
      }
      var startAddr := AlignDown(start);
      if start + size > U64_MAX {
        return Failure(SizeOverflow);
      }
      var endAddr := AlignUp(start + size);
      if endAddr <= startAddr {
        return Failure(InvalidSize);
      }
      var overlap := Overlaps(startAddr, endAddr);
      if overlap {
        return Failure(Overlap);
      }
      var j := FreeSlot();
      if j == MAX_REGIONS {
        return Failure(NoSlot);
      }
      var region := VmRegion(startAddr, endAddr, flags, backing);
      ghost var before := regions[..];
      assert before[j].None?;
      FillSlot(before, j, region);
      regions[j] := Some(region);
      assert regions[..] == before[j := Some(region)] && IsFirstFree(before, j);
      return Success(startAddr);
    }

    /** Takes the range out of every region: drops it, shortens it, or splits it in two.
        Splitting needs a free slot, which the scan may meet again later. */
    method CutRange(from: nat, to: nat) returns (r: Result<(), DemandError>)
      requires Valid() && from < to && from % PAGE_SIZE == 0 && to % PAGE_SIZE == 0
      modifies regions
      ensures Valid()
      ensures r.Success? ==> CutOut(old(regions[..]), regions[..], from, to)
      ensures r.Failure? <==>
                && (exists k :: 0 <= k < MAX_REGIONS && Spans(old(regions[k]), from, to))
                && (forall k :: 0 <= k < MAX_REGIONS ==> old(regions[k]).Some?)
      ensures r.Failure? ==> r.error == NoSlot && LostPart(old(regions[..]), regions[..], from, to)
    {
      ghost var before := regions[..];
      var i := 0;
      while i < MAX_REGIONS
        invariant 0 <= i <= MAX_REGIONS
        invariant Valid() && |before| == MAX_REGIONS && before == old(regions[..])
        invariant forall k :: i <= k < MAX_REGIONS && !Clear(regions[k], from, to) ==> regions[k] == before[k]
        invariant forall k :: i <= k < MAX_REGIONS && !Clear(before[k], from, to) ==> regions[k] == before[k]
        invariant (forall k :: 0 <= k < i ==> !Spans(before[k], from, to)) ==>
                    forall k :: 0 <= k < MAX_REGIONS && Clear(before[k], from, to) ==> regions[k] == before[k]
        invariant forall k :: 0 <= k < i && Spans(before[k], from, to) ==>
                    exists j :: 0 <= j < MAX_REGIONS && before[j].None?
        invariant SameOutside(old(regions[..]), regions[..], from, to)
        invariant forall k :: 0 <= k < i ==> Clear(regions[k], from, to)
      {
        if regions[i].Some? && RangesOverlap(from, to, regions[i].value.start, regions[i].value.end) {
          assert !Clear(regions[i], from, to);
          r := CutSlot(i, from, to);
          if r.Failure? {
            SpansAlone(before, i, from, to);
            assert Spans(before[i], from, to) && regions[..] == Shortened(before, i, from);
            return;
          }
        }
        i := i + 1;
      }
      AllClearMeansCut(old(regions[..]), regions[..], from, to);
      return Success(());
    }

    /** The body of the scan, for a slot that overlaps the range. */
    method CutSlot(i: nat, from: nat, to: nat) returns (r: Result<(), DemandError>)
      requires Valid() && from < to && from % PAGE_SIZE == 0 && to % PAGE_SIZE == 0
      requires i < MAX_REGIONS && !Clear(regions[i], from, to)
      modifies regions
      ensures Valid()
      ensures r.Success? ==> SameOutside(old(regions[..]), regions[..], from, to)
      ensures r.Success? ==> Clear(regions[i], from, to)
      ensures forall k :: 0 <= k < MAX_REGIONS && k != i && regions[k] != old(regions[k]) ==>
                Spans(old(regions[i]), from, to) && old(regions[k]).None? && Clear(regions[k], from, to)
      ensures r.Failure? <==>
                Spans(old(regions[i]), from, to) && forall k :: 0 <= k < MAX_REGIONS ==> old(regions[k]).Some?
      ensures r.Failure? ==> r.error == NoSlot
      ensures r.Failure? ==>
                regions[..] == Shortened(old(regions[..]), i, from)
    {
      var region := regions[i].value;
      if from <= region.start && to >= region.end {
        StoreSlot(i, None, from, to);
        return Success(());
      }
      if from <= region.start && to < region.end {
        StoreSlot(i, Some(region.(start := to)), from, to);
        return Success(());
      }
      if from > region.start && to >= region.end {
        StoreSlot(i, Some(region.(end := from)), from, to);
        return Success(());
      }
      ghost var before := regions[..];
      var right := region.(start := to);
      StoreSlot(i, Some(region.(end := from)), from, region.end);
      var j := FreeSlot();
      if j == MAX_REGIONS {
        return Failure(NoSlot);
      }
      assert before[i := Some(region.(end := from))] == regions[..];
      SplitSlot(before, i, j, from, to);
      regions[j] := Some(right);
      assert regions[..] == before[i := Some(region.(end := from))][j := Some(right)];
      return Success(());
    }

    /** Replaces a region by what is left of it. */
    method StoreSlot(i: nat, part: Option<VmRegion>, from: nat, to: nat)
      requires Valid() && i < MAX_REGIONS && regions[i].Some?
      requires part.Some? ==>
                 && WholePages(part.value) && part.value.flags == regions[i].value.flags
                 && regions[i].value.start <= part.value.start && part.value.end <= regions[i].value.end
      requires forall a: nat :: regions[i].value.Has(a) && !(from <= a < to) ==> part.Some? && part.value.Has(a)
      modifies regions
      ensures Valid() && regions[..] == old(regions[..])[i := part]
      ensures SameOutside(old(regions[..]), regions[..], from, to)
    {
      ReplaceSlot(regions[..], i, part, from, to);
      ghost var before := regions[..];
      regions[i] := part;
      assert regions[..] == before[i := part];
    }
  }

  /** No huge page covers any address of the range. */
  ghost predicate NoHugeIn(leaves: map<Node, Word>, mode: Mode, from: nat, to: nat) {
    forall a: Address :: from <= a < to ==> NoHugeOn(leaves, Path(mode, a))
  }

  /** The range that a request is rounded out to. */
  predicate ValidRange(start: nat, size: nat) {
    size > 0 && start + size <= U64_MAX && AlignDown(start) < AlignUp(start + size)
  }

  /** A valid range has every byte asked for, and no page without one; it is not valid exactly if nothing is asked
      for or
      the end does not fit 64 bits when rounded up to a page. */
  lemma RangeIsRequest(start: Address, size: nat, a: nat)
    ensures ValidRange(start, size) && start <= a < start + size ==> AlignDown(start) <= a < AlignUp(start + size)
    ensures ValidRange(start, size) && AlignDown(start) <= a < AlignUp(start + size) ==>
              start < a / PAGE_SIZE * PAGE_SIZE + PAGE_SIZE && a / PAGE_SIZE * PAGE_SIZE < start + size
    ensures ValidRange(start, size) <==> size > 0 && start + size + PAGE_SIZE - 1 <= U64_MAX
  {
    if start + size <= U64_MAX {
      RoundingToPages(start);
      RoundingToPages(start + size);
    }
    hide AlignDown, AlignUp;
  }

  /** What a file's callback leaves in a zeroed page when it is asked for so many bytes at a position. */
  type ReadAt = (nat, nat) -> Page

  /** What the page at `pageBase` is filled with: zeros, and over them what the file has there. */
  function PageContents(region: VmRegion, pageBase: nat, readAt: ReadAt): Page
    requires region.start <= pageBase
  {
    match region.backing
    case ZeroFill => ZeroPage()
    case FileBacked(offset, size) =>
      var at := offset + (pageBase - region.start);
      if at < size then readAt(at, if size - at < PAGE_SIZE then size - at else PAGE_SIZE) else ZeroPage()
  }

  /** Unmapping a page leaves the frame of the page in use, and then it can be freed. */
  lemma DataStaysUsed(c: Snapshot, d: Snapshot, v: Node, f: nat)
    requires HoldsData(c.used, c.tree, f) && Shrunk(c, d, v) && Consistent(d.mem, d.tree, d.used)
    ensures f < |d.used| && d.used[f] && Consistent(d.mem, d.tree, d.used[f := false])
  {
    hide Holds;
    forall p | p in d.tree.tables
      ensures d.tree.tables[p] != f
    {
      assert c.tree.tables[p] in c.tree.tables.Values;
    }
  }

  lemma EmptyRange(mode: Mode, from: nat)
    ensures RangeSlots(mode, from, from) == {}
  {
  }

  lemma NextPageFits(addr: nat, to: nat)
    requires addr % PAGE_SIZE == 0 && to % PAGE_SIZE == 0 && addr < to
    ensures addr + PAGE_SIZE <= to && (addr + PAGE_SIZE) % PAGE_SIZE == 0
  {
  }

  lemma RemovableSoFar(b: Snapshot, mode: Mode, from: nat, addr: Address, to: nat)
    requires Removable(b, RangeSlots(mode, from, to)) && from <= addr < to && addr % PAGE_SIZE == 0
    ensures Accepted(mode, addr) ==> Removable(b, RangeSlots(mode, from, addr) + {Path(mode, addr)})
  {
    hide Path, Accepted;
    assert RangeSlots(mode, from, addr) <= RangeSlots(mode, from, to);
  }

  lemma NoHugeAt(leaves: map<Node, Word>, mode: Mode, from: nat, to: nat, a: Address)
    requires NoHugeIn(leaves, mode, from, to) && from <= a < to
    ensures NoHugeOn(leaves, Path(mode, a))
  {
  }

  lemma FewerLeaves(leaves: map<Node, Word>, leaves': map<Node, Word>, mode: Mode, from: nat, to: nat)
    requires NoHugeIn(leaves, mode, from, to) && forall q :: q in leaves' ==> q in leaves
    ensures NoHugeIn(leaves', mode, from, to)
  {
    hide Path, On;
  }

  /** Why a page of a region could not be populated: no frame, a frame out of reach, a file position beyond 64 bits,
      or an address that is not accepted or for which no table could be had. */
  ghost predicate CannotPopulate(error: DemandError, mode: Mode, region: VmRegion, pageBase: Address,
                                 before: seq<bool>, after: seq<bool>) {
    match error
    case NoFrame => forall f :: 0 <= f < |before| ==> before[f]
    case NoIdentityMapping => exists f :: 0 <= f < |before| && 0x800_0000 <= f * PAGE_SIZE && !before[f]
    case OffsetOverflow => region.backing.FileBacked? && region.backing.fileOffset + pageBase > U64_MAX + region.start
    case PagingFailed(e) => !Accepted(mode, pageBase) || OutOfFrames(e, before, after)
    case _ => false
  }

  lemma OutOfFramesBefore(error: PagingError, before: seq<bool>, frame: nat, after: seq<bool>)
    requires frame < |before| && OutOfFrames(error, before[frame := true], after)
    ensures OutOfFrames(error, before, after)
  {
  }

  lemma FilledHoldsData(a: Snapshot, f: nat, page: Page)
    requires Consistent(a.mem, a.tree, a.used) && f < |a.used| && !a.used[f]
    ensures var b := Filled(a, f, page); HoldsData(b.used, b.tree, f) && |b.used| <= |b.mem|
  {
  }

  lemma GrowthIsLoose(a: Snapshot, b: Snapshot, v: Node)
    requires Grown(a, b, v)
    ensures GrownLoosely(a, b, v)
  {
  }

  lemma FaultPopulates(a: Snapshot, b: Snapshot, c: Snapshot, range: set<Node>, v: Node, w: Word, page: Page)
    requires Populated(a, b, range) && Consistent(b.mem, b.tree, b.used)
    requires v in range && v !in b.tree.leaves && forall q :: q in a.tree.leaves ==> q !in range
    requires TookAndFilled(b, c, v, w, page) && c.tree.leaves == b.tree.leaves[v := w]
    requires |b.used| <= |b.mem|
    ensures Populated(a, c, range)
  {
    PopulateOne(a, b, c, range, v, w, page);
  }

  lemma SlotInRange(mode: Mode, from: nat, to: nat, va: Address)
    requires from % PAGE_SIZE == 0 && from <= va < to
    ensures from <= AlignDown(va) < to
    ensures Accepted(mode, AlignDown(va)) ==> Path(mode, AlignDown(va)) in RangeSlots(mode, from, to)
  {
    hide Path, Accepted;
    var a: Address := AlignDown(va);
    assert a % PAGE_SIZE == 0;
  }

  lemma StaysNoHuge(leaves: map<Node, Word>, leaves': map<Node, Word>, mode: Mode, from: nat, to: nat)
    requires NoHugeIn(leaves, mode, from, to)
    requires forall v :: Depth(v) == mode.Depth() && NoHugeOn(leaves, v) ==> NoHugeOn(leaves', v)
    ensures NoHugeIn(leaves', mode, from, to)
  {
    hide NoHugeOn;
  }

  /** Registering a range that was clear and cutting it out again changes no address. */
  lemma RegistryRestored(before: Slots, between: Slots, after: Slots, from: nat, to: nat, flags: Flags)
    requires forall k :: 0 <= k < |before| ==> Clear(before[k], from, to)
    requires forall a: nat, f :: Covered(between, a, f) <==> Covered(before, a, f) || (from <= a < to && f == flags)
    requires CutOut(between, after, from, to)
    ensures forall a: nat, f :: Covered(after, a, f) <==> Covered(before, a, f)
  {
    forall a: nat, f | from <= a < to
      ensures !Covered(before, a, f)
    {
    }
  }

  /** No region is in the way, a slot is free, and the position in the file is that of a page. */
  ghost predicate Registrable(slots: Slots, from: nat, to: nat, backing: Backing) {
    && (backing.FileBacked? ==> backing.fileOffset % PAGE_SIZE == 0)
    && (forall k :: 0 <= k < |slots| ==> Clear(slots[k], from, to))
    && (exists k :: 0 <= k < |slots| && slots[k].None?)
  }

  lemma MeansRegistrable(slots: Slots, from: nat, to: nat, backing: Backing)
    requires |slots| == MAX_REGIONS
    ensures Registrable(slots, from, to, backing) <==>
            && (backing.FileBacked? ==> backing.fileOffset % PAGE_SIZE == 0)
            && (forall k :: 0 <= k < MAX_REGIONS ==> Clear(slots[k], from, to))
            && (exists k :: 0 <= k < MAX_REGIONS && slots[k].None?)
  {
  }

  /** A region just registered can be cut out again: nothing spans it. */
  lemma RegisteredRegion(slots: Slots, slots': Slots, region: VmRegion)
    requires AddedFirst(slots, slots', region) && region.start < region.end && |slots| == MAX_REGIONS
    requires forall k :: 0 <= k < |slots| ==> Clear(slots[k], region.start, region.end)
    ensures |slots'| == MAX_REGIONS && Some(region) in slots'
    ensures exists k :: 0 <= k < MAX_REGIONS && !Clear(slots'[k], region.start, region.end)
    ensures forall k :: 0 <= k < MAX_REGIONS ==> !Spans(slots'[k], region.start, region.end)
  {
    var j: nat :| IsFirstFree(slots, j) && slots' == slots[j := Some(region)];
    assert slots'[j] == Some(region) && !Clear(slots'[j], region.start, region.end);
  }

  /** An address has one region at most. */
  lemma TheRegion(slots: Slots, region: VmRegion, va: nat)
    requires Regular(slots) && Some(region) in slots && region.Has(va)
    ensures Covered(slots, va, region.flags)
    ensures forall other: VmRegion :: Some(other) in slots && other.Has(va) ==> other == region
  {
    var i :| 0 <= i < |slots| && slots[i] == Some(region);
    forall other: VmRegion | Some(other) in slots && other.Has(va)
      ensures other == region
    {
      var j :| 0 <= j < |slots| && slots[j] == Some(other);
    }
  }

  /** The slot of the page of an address. */
  ghost function PageOf(mode: Mode, va: Address): Node {
    Path(mode, AlignDown(va))
  }

  /** The slots of the pages that were touched. */
  ghost function Touched(mode: Mode, touches: seq<Address>): set<Node> {
    set va | va in touches :: PageOf(mode, va)
  }

  lemma NothingTouched(mode: Mode)
    ensures Touched(mode, []) == {}
  {
  }

  lemma TouchedOneMore(mode: Mode, touches: seq<Address>, k: nat)
    requires k < |touches|
    ensures Touched(mode, touches[..k + 1]) == Touched(mode, touches[..k]) + {Path(mode, AlignDown(touches[k]))}
  {
    assert PageOf(mode, touches[k]) == Path(mode, AlignDown(touches[k]));
    hide PageOf, Path;
    assert touches[..k + 1] == touches[..k] + [touches[k]];
  }

  /** Every page that `b` maps and `a` does not has the flags of the region, and what the region has at its place. */
  ghost predicate NewPagesAre(a: Snapshot, b: Snapshot, mode: Mode, region: VmRegion, readAt: ReadAt) {
    forall q :: New(a.tree, b.tree, q) ==>
      && b.tree.leaves[q].flags == region.flags.(present := true)
      && b.tree.leaves[q].frame < |b.mem|
      && ShowsPlace(mode, region, readAt, q, b.mem[b.tree.leaves[q].frame])
  }

  /** The slot is that of a page of the region, and these are the contents of that page. */
  ghost predicate ShowsPlace(mode: Mode, region: VmRegion, readAt: ReadAt, q: Node, contents: Page) {
    exists va: Address {:trigger Path(mode, va)} ::
      && region.Has(va) && va % PAGE_SIZE == 0 && Accepted(mode, va)
      && Path(mode, va) == q && contents == PageContents(region, va, readAt)
  }

  lemma NoNewPages(a: Snapshot, mode: Mode, region: VmRegion, readAt: ReadAt)
    ensures NewPagesAre(a, a, mode, region, readAt)
  {
  }

  lemma NextNewPage(a: Snapshot, b: Snapshot, c: Snapshot, range: set<Node>, mode: Mode, region: VmRegion,
                    readAt: ReadAt,
                    va: Address, v: Node, w: Word)
    requires Populated(a, b, range) && NewPagesAre(a, b, mode, region, readAt) && |b.used| <= |b.mem|
    requires region.Has(va) && va % PAGE_SIZE == 0 && Accepted(mode, va) && v == Path(mode, va)
    requires v !in b.tree.leaves && w.flags == region.flags.(present := true)
    requires TookAndFilled(b, c, v, w, PageContents(region, va, readAt)) && c.tree.leaves == b.tree.leaves[v := w]
    ensures NewPagesAre(a, c, mode, region, readAt)
  {
    hide Grown, Path, Accepted, PageContents, ShowsPlace;
    forall q | New(a.tree, c.tree, q) && q != v
      ensures New(a.tree, b.tree, q)
      ensures var f := c.tree.leaves[q].frame; f < |b.mem| && f < |c.mem| && c.mem[f] == b.mem[f]
    {
      assert New(a.tree, b.tree, q);
      StaysFilled(b, c, v, w.frame, PageContents(region, va, readAt), b.tree.leaves[q].frame);
    }
    ShownHere(mode, region, readAt, va);
  }

  lemma ShownHere(mode: Mode, region: VmRegion, readAt: ReadAt, va: Address)
    requires region.Has(va) && va % PAGE_SIZE == 0 && Accepted(mode, va)
    ensures ShowsPlace(mode, region, readAt, Path(mode, va), PageContents(region, va, readAt))
  {
  }

  /** The callback delivers this file, given page by page: asked for what the file has of a page, it fills in that. */
  ghost predicate Delivers(readAt: ReadAt, file: nat -> Page, size: nat) {
    forall p: nat :: p * PAGE_SIZE < size ==>
      readAt(p * PAGE_SIZE, if size - p * PAGE_SIZE < PAGE_SIZE then size - p * PAGE_SIZE else PAGE_SIZE) == file(p)
  }

  lemma DeliveredPage(readAt: ReadAt, file: nat -> Page, size: nat, at: nat, p: nat)
    requires Delivers(readAt, file, size) && at == p * PAGE_SIZE < size
    ensures readAt(at, if size - at < PAGE_SIZE then size - at else PAGE_SIZE) == file(p)
  {
  }

  /** Page `k` of a region shows page `k` of the mapped part of the file, and zeros behind the end of the file. */
  lemma FileIsMapped(a: Snapshot, b: Snapshot, mode: Mode, region: VmRegion, readAt: ReadAt, file: nat -> Page, k: nat)
    requires NewPagesAre(a, b, mode, region, readAt) && region.start % PAGE_SIZE == 0
    requires region.backing.FileBacked? && region.backing.fileOffset % PAGE_SIZE == 0
    requires Delivers(readAt, file, region.backing.fileSize)
    requires region.end <= U64_LIMIT && region.end - region.start <= 0x8000_0000_0000_0000
    requires region.start + k * PAGE_SIZE < region.end && Accepted(mode, region.start + k * PAGE_SIZE)
    requires New(a.tree, b.tree, Path(mode, region.start + k * PAGE_SIZE))
    ensures var w, position := b.tree.leaves[Path(mode, region.start + k * PAGE_SIZE)],
                               region.backing.fileOffset + k * PAGE_SIZE;
            && w.flags == region.flags.(present := true) && w.frame < |b.mem|
            && b.mem[w.frame] ==
               if position >= region.backing.fileSize then ZeroPage()
               else file(region.backing.fileOffset / PAGE_SIZE + k)
  {
    hide Path, Accepted, Delivers, PageContents, ShowsPlace;
    var va: Address := region.start + k * PAGE_SIZE;
    assert va % PAGE_SIZE == 0 && region.Has(va);
    OnlyPlace(mode, region, readAt, va, b.mem[b.tree.leaves[Path(mode, va)].frame]);
    FilePage(region, readAt, file, k);
  }

  /** In a region of at most half the address space a slot stands for one page. */
  lemma OnlyPlace(mode: Mode, region: VmRegion, readAt: ReadAt, va: Address, contents: Page)
    requires region.Has(va) && va % PAGE_SIZE == 0 && Accepted(mode, va)
    requires region.end - region.start <= 0x8000_0000_0000_0000
    requires ShowsPlace(mode, region, readAt, Path(mode, va), contents)
    ensures contents == PageContents(region, va, readAt)
  {
    hide Path, Accepted, PageContents;
    var other: Address :| region.Has(other) && other % PAGE_SIZE == 0 && Accepted(mode, other)
                          && Path(mode, other) == Path(mode, va) && contents == PageContents(region, other, readAt);
    NearbyPagesDiffer(mode, va, other);
  }

  lemma FilePage(region: VmRegion, readAt: ReadAt, file: nat -> Page, k: nat)
    requires region.backing.FileBacked? && region.backing.fileOffset % PAGE_SIZE == 0
    requires Delivers(readAt, file, region.backing.fileSize)
    ensures PageContents(region, region.start + k * PAGE_SIZE, readAt) ==
            if region.backing.fileOffset + k * PAGE_SIZE < region.backing.fileSize
            then file(region.backing.fileOffset / PAGE_SIZE + k)
            else ZeroPage()
  {
    hide Delivers;
    var offset := region.backing.fileOffset;
    if offset + k * PAGE_SIZE < region.backing.fileSize {
      DeliveredPage(readAt, file, region.backing.fileSize, offset + k * PAGE_SIZE, offset / PAGE_SIZE + k);
    }
  }

  /** A page of an anonymous region shows zeros. */
  lemma ZerosAreMapped(a: Snapshot, b: Snapshot, mode: Mode, region: VmRegion, readAt: ReadAt, q: Node)
    requires NewPagesAre(a, b, mode, region, readAt) && region.backing.ZeroFill? && New(a.tree, b.tree, q)
    ensures b.tree.leaves[q].frame < |b.mem| && b.mem[b.tree.leaves[q].frame] == ZeroPage()
  {
    hide Path, Accepted;
  }

  /** A page filled before keeps its contents. */
  lemma StaysFilled(b: Snapshot, c: Snapshot, v: Node, taken: nat, page: Page, f: nat)
    requires HoldsData(b.used, b.tree, f) && taken < |b.used| <= |b.mem| && !b.used[taken]
    requires Grown(Filled(b, taken, page), c, v)
    ensures f < |c.mem| && c.mem[f] == b.mem[f]
  {
    GrowthKeepsFrame(Filled(b, taken, page), c, v, f);
  }

  /** An error of the paging layer, passed on. */
  function Why<T>(r: Result<T, PagingError>): DemandError {
    match r
    case Failure(e) => PagingFailed(e)
    case Success(_) => PagingFailed(NotMapped)
  }

  class DemandPager {
    const pg: PagingManager
    const registry: RegionRegistry

    ghost predicate Valid()
      reads this, pg, pg.pmm, pg.pmm.bitmap, registry, registry.regions
    {
      pg.Valid() && registry.Valid() && registry.regions as object != pg.pmm.bitmap
    }

    constructor (pg: PagingManager)
      requires pg.Valid()
      ensures Valid() && this.pg == pg && fresh(registry) && fresh(registry.regions)
      ensures forall a: nat, f :: !Covered(registry.regions[..], a, f)
    {
      this.pg := pg;
      registry := new RegionRegistry();
    }

    /** Fills one frame that holds no table. */
    method FillFrame(f: nat, page: Page)
      requires pg.Valid() && f < |pg.mem| && f !in pg.tree.tables.Values
      modifies pg`mem
      ensures pg.Valid() && pg.mem == old(pg.mem)[f := page]
    {
      OtherFrame(pg.mem, pg.tree, f, page);
      pg.mem := pg.mem[f := page];
    }

    /** A frame for a new page, in use by nobody. */
    method TakeFrame() returns (r: Result<nat, DemandError>)
      requires pg.Valid()
      modifies pg.pmm, pg.pmm.bitmap
      ensures pg.Valid() && |pg.pmm.used| == old(|pg.pmm.used|)
      ensures r.Success? ==>
                && r.value < |pg.mem| && r.value < |pg.pmm.used| && r.value < FRAME_LIMIT
                && !old(pg.pmm.used)[r.value] && pg.pmm.used == old(pg.pmm.used)[r.value := true]
                && r.value !in pg.tree.tables.Values
      ensures r.Failure? <==> forall f :: 0 <= f < |pg.pmm.used| ==> old(pg.pmm.used)[f]
      ensures r.Failure? ==> r.error == NoFrame
      ensures r.Failure? ==> pg.pmm.used == old(pg.pmm.used)
    {
      Bitmap.FreeCountZero(pg.pmm.used);
      var frame := pg.pmm.AllocFrame();
      if frame.Failure? {
        return Failure(NoFrame);
      }
      return Success(frame.value / PAGE_SIZE);
    }

    /** The fault handler for pages that are not present: populates one page of a region. */
    method HandleFault(va: Address, errorCode: nat, readAt: ReadAt)
      returns (r: Result<(), DemandError>, ghost region: VmRegion)
      requires Valid() && NoHugeOn(pg.tree.leaves, Path(pg.mode, AlignDown(va)))
      modifies pg, pg.pmm, pg.pmm.bitmap
      ensures Valid() && registry.regions[..] == old(registry.regions[..])
      ensures errorCode % 2 == 1 ==> r == Failure(Present)
      ensures errorCode % 2 == 0 && (forall f :: !Covered(registry.regions[..], va, f)) ==> r == Failure(NoRegion)
      ensures r == Failure(Present) || r == Failure(NoRegion) ==> pg.Now() == old(pg.Now())
      ensures r.Failure? ==> pg.tree.leaves == old(pg.tree.leaves)
      ensures r.Failure? && errorCode % 2 == 0 && (exists f :: Covered(registry.regions[..], va, f)) ==>
                && Some(region) in registry.regions[..] && region.Has(va)
                && CannotPopulate(r.error, pg.mode, region, AlignDown(va), old(pg.pmm.used), pg.pmm.used)
      ensures r.Success? ==>
                Some(region) in registry.regions[..] && region.Has(va) && region.start <= AlignDown(va) < region.end
      ensures r.Success? ==>
                var v := Path(pg.mode, AlignDown(va));
                && Accepted(pg.mode, AlignDown(va)) && v in pg.tree.leaves
                && var w := pg.tree.leaves[v];
                && w.flags == region.flags.(present := true)
                && pg.tree.leaves == old(pg.tree.leaves)[v := w]
                && TookAndFilled(old(pg.Now()), pg.Now(), v, w, PageContents(region, AlignDown(va), readAt))
      ensures r.Success? ==> old(Tidy(pg.tree)) ==> Tidy(pg.tree)
    {
      hide Consistent, NoHugeOn, Accepted, TookAndFilled, Regular, Current;
      region := VmRegion(0, 0, NO_FLAGS, ZeroFill);
      if errorCode % 2 == 1 {
        return Failure(Present), region;
      }
      var found := registry.FindRegion(va);
      if found.None? {
        return Failure(NoRegion), region;
      }
      region := found.value;
      assert Covered(registry.regions[..], va, region.flags);
      r := Populate(va, found.value, readAt);
    }

    /** The rest of the handler, once the region is known. */
    method Populate(va: Address, region: VmRegion, readAt: ReadAt) returns (r: Result<(), DemandError>)
      requires pg.Valid() && NoHugeOn(pg.tree.leaves, Path(pg.mode, AlignDown(va)))
      requires WholePages(region) && region.Has(va)
      modifies pg, pg.pmm, pg.pmm.bitmap
      ensures pg.Valid() && region.start <= AlignDown(va) < region.end
      ensures r.Failure? ==> pg.tree.leaves == old(pg.tree.leaves)
      ensures r.Failure? ==>
                CannotPopulate(r.error, pg.mode, region, AlignDown(va), old(pg.pmm.used), pg.pmm.used)
      ensures r.Success? ==>
                var v := Path(pg.mode, AlignDown(va));
                && Accepted(pg.mode, AlignDown(va)) && v in pg.tree.leaves
                && var w := pg.tree.leaves[v];
                && w.flags == region.flags.(present := true)
                && pg.tree.leaves == old(pg.tree.leaves)[v := w]
                && TookAndFilled(old(pg.Now()), pg.Now(), v, w, PageContents(region, AlignDown(va), readAt))
      ensures r.Success? ==> old(Tidy(pg.tree)) ==> Tidy(pg.tree)
    {
      hide Consistent, NoHugeOn, Accepted, TookAndFilled, Current, WholePages;
      var pageBase := AlignDown(va);
      PageInsideRegion(region, va);
      TreeIsConsistent();
      var frame := TakeFrame();
      if frame.Failure? {
        return Failure(frame.error);
      }
      if frame.value >= FILL_FRAMES {
        return Failure(NoIdentityMapping);
      }
      if region.backing.FileBacked? && region.backing.fileOffset + (pageBase - region.start) > U64_MAX {
        return Failure(OffsetOverflow);
      }
      var page := PageContents(region, pageBase, readAt);
      FillFrame(frame.value, page);
      r := InstallPage(pageBase, frame.value, region.flags, old(pg.Now()), page);
    }

    lemma TreeIsConsistent()
      requires pg.Valid()
      ensures Consistent(pg.mem, pg.tree, pg.pmm.used)
    {
    }

    /** Maps the filled frame; `a` is the state before the fault. */
    method InstallPage(pageBase: Address, frame: nat, flags: Flags, ghost a: Snapshot, ghost page: Page)
      returns (r: Result<(), DemandError>)
      requires pg.Valid() && NoHugeOn(pg.tree.leaves, Path(pg.mode, pageBase))
      requires frame < |a.used| && frame < |a.mem| && frame < FRAME_LIMIT && !a.used[frame]
      requires Consistent(a.mem, a.tree, a.used) && pg.Now() == Filled(a, frame, page)
      modifies pg, pg.pmm, pg.pmm.bitmap
      ensures pg.Valid()
      ensures r.Failure? ==> pg.tree.leaves == a.tree.leaves && r.error.PagingFailed?
      ensures r.Failure? && Accepted(pg.mode, pageBase) ==> OutOfFrames(r.error.error, a.used, pg.pmm.used)
      ensures r.Success? ==>
                var v, w := Path(pg.mode, pageBase), Word(frame, flags.(present := true));
                && Accepted(pg.mode, pageBase) && pg.tree.leaves == a.tree.leaves[v := w]
                && TookAndFilled(a, pg.Now(), v, w, page)
                && (Tidy(a.tree) ==> Tidy(pg.tree))
    {
      hide Grown, GrownLoosely, Consistent, MakeEntry, NoHugeOn, Accepted, OutOfFrames;
      FrameEntry(frame, flags.(present := true));
      assert HoldsData(pg.pmm.used, pg.tree, frame) && |pg.pmm.used| <= |pg.mem| by {
        FilledHoldsData(a, frame, page);
      }
      var mapped := pg.MapPage(pageBase, frame * PAGE_SIZE, flags.(present := true));
      if mapped.Failure? {
        if Accepted(pg.mode, pageBase) {
          OutOfFramesBefore(mapped.error, a.used, frame, pg.pmm.used);
        }
        return Failure(Why(mapped));
      }
      GrowthIsLoose(Filled(a, frame, page), pg.Now(), Path(pg.mode, pageBase));
      GrowthKeepsFrame(Filled(a, frame, page), pg.Now(), Path(pg.mode, pageBase), frame);
      return Success(());
    }

    /** Removes the pages of a range and takes the range out of the registry. */
    method Munmap(start: Address, size: nat) returns (r: Result<(), DemandError>)
      requires Valid()
      requires ValidRange(start, size) ==>
                 && NoHugeIn(pg.tree.leaves, pg.mode, AlignDown(start), AlignUp(start + size))
                 && Removable(pg.Now(), RangeSlots(pg.mode, AlignDown(start), AlignUp(start + size)))
      modifies pg, pg.pmm, pg.pmm.bitmap, registry.regions
      ensures Valid()
      ensures r.Success? <==>
                && ValidRange(start, size)
                && var (from, to) := (AlignDown(start), AlignUp(start + size));
                && (exists k :: 0 <= k < MAX_REGIONS && !Clear(old(registry.regions[k]), from, to))
                && !((exists k :: 0 <= k < MAX_REGIONS && Spans(old(registry.regions[k]), from, to))
                     && (forall k :: 0 <= k < MAX_REGIONS ==> old(registry.regions[k]).Some?))
      ensures r.Success? ==>
                var (from, to) := (AlignDown(start), AlignUp(start + size));
                && Removed(old(pg.Now()), pg.Now(), RangeSlots(pg.mode, from, to))
                && CutOut(old(registry.regions[..]), registry.regions[..], from, to)
      ensures r.Success? || r.error == NoSlot ==> old(Tidy(pg.tree)) ==> Tidy(pg.tree)
      ensures r == Failure(NoSlot) ==>
                && ValidRange(start, size)
                && var (from, to) := (AlignDown(start), AlignUp(start + size));
                && (forall k :: 0 <= k < MAX_REGIONS ==> old(registry.regions[k]).Some?)
                && Removed(old(pg.Now()), pg.Now(), RangeSlots(pg.mode, from, to))
                && LostPart(old(registry.regions[..]), registry.regions[..], from, to)
      ensures r.Failure? && r.error != NoSlot ==>
                pg.Now() == old(pg.Now()) && registry.regions[..] == old(registry.regions[..])
    {
      if size == 0 {
        return Failure(InvalidSize);
      }
      if start + size > U64_MAX {
        return Failure(SizeOverflow);
      }
      var from, to := AlignDown(start), AlignUp(start + size);
      if to <= from {
        return Failure(InvalidSize);
      }
      var hasRegion := registry.Overlaps(from, to);
      if !hasRegion {
        return Failure(NoRegion);
      }
      AlignedRange(start, size);
      RemovePages(from, to);
      r := registry.CutRange(from, to);
    }

    lemma AlignedRange(start: nat, size: nat)
      ensures AlignDown(start) % PAGE_SIZE == 0 && AlignUp(start + size) % PAGE_SIZE == 0
      ensures AlignUp(start + size) <= U64_MAX
    {
    }

    /** Unmaps every mapped page of the range and frees its frame. */
    method RemovePages(from: nat, to: nat)
      requires pg.Valid() && from < to <= U64_MAX && from % PAGE_SIZE == 0 && to % PAGE_SIZE == 0
      requires NoHugeIn(pg.tree.leaves, pg.mode, from, to)
      requires Removable(pg.Now(), RangeSlots(pg.mode, from, to))
      modifies pg, pg.pmm, pg.pmm.bitmap
      ensures pg.Valid()
      ensures Removed(old(pg.Now()), pg.Now(), RangeSlots(pg.mode, from, to))
      ensures old(Tidy(pg.tree)) ==> Tidy(pg.tree)
    {
      hide Removed, Removable, RangeSlots, NoHugeIn, Tidy, Consistent, Current, Accepted, Path, NoHugeOn;
      ghost var b := pg.Now();
      NothingRemoved(b);
      EmptyRange(pg.mode, from);
      var addr := from;
      while addr < to
        invariant from <= addr <= to && addr % PAGE_SIZE == 0
        invariant pg.Valid() && NoHugeIn(pg.tree.leaves, pg.mode, from, to)
        invariant Removed(b, pg.Now(), RangeSlots(pg.mode, from, addr))
        invariant old(Tidy(pg.tree)) ==> Tidy(pg.tree)
      {
        NextPageFits(addr, to);
        RangeSlotsStep(pg.mode, from, addr);
        RemovableSoFar(b, pg.mode, from, addr, to);
        NoHugeAt(pg.tree.leaves, pg.mode, from, to, addr);
        ghost var leaves := pg.tree.leaves;
        var removed := RemovePage(addr, b, RangeSlots(pg.mode, from, addr));
        FewerLeaves(leaves, pg.tree.leaves, pg.mode, from, to);
        addr := addr + PAGE_SIZE;
      }
    }

    /** One page of the range; `slots` are those already dealt with. */
    method RemovePage(addr: Address, ghost b: Snapshot, ghost slots: set<Node>) returns (r: Result<(), DemandError>)
      requires pg.Valid() && addr % PAGE_SIZE == 0 && NoHugeOn(pg.tree.leaves, Path(pg.mode, addr))
      requires Removed(b, pg.Now(), slots)
      requires Accepted(pg.mode, addr) ==> Removable(b, slots + {Path(pg.mode, addr)})
      modifies pg, pg.pmm, pg.pmm.bitmap
      ensures pg.Valid() && r.Success?
      ensures Removed(b, pg.Now(), if Accepted(pg.mode, addr) then slots + {Path(pg.mode, addr)} else slots)
      ensures forall q :: q in pg.tree.leaves ==> q in old(pg.tree.leaves)
      ensures old(Tidy(pg.tree)) ==> Tidy(pg.tree)
    {
      hide Removed, Removable, Accepted, Consistent, Shrunk, Path, NoHugeOn, Tidy, PagingManager.Coherent;
      ghost var v := Path(pg.mode, addr);
      pg.PageLookup(addr);
      var phys := pg.TranslateAddress(addr);
      if phys.Failure? {
        if Accepted(pg.mode, addr) {
          RemoveNone(b, pg.Now(), slots, v);
        }
        return Success(());
      }
      ghost var c := pg.Now();
      StillHoldsData(b, c, slots, v);
      var frame := AlignDown(phys.value);
      PageBase(pg.tree.leaves[v].frame);
      var unmapped := pg.UnmapPage(addr);
      if unmapped.Failure? {
        return Failure(Why(unmapped));
      }
      ghost var d := pg.Now();
      RemoveOne(b, c, d, slots, v, c.tree.leaves[v].frame);
      r := GiveBack(frame, c, v);
    }

    /** Frees the frame of a page that was just unmapped. */
    method GiveBack(addr: nat, ghost c: Snapshot, ghost v: Node) returns (r: Result<(), DemandError>)
      requires pg.Valid() && addr % PAGE_SIZE == 0
      requires HoldsData(c.used, c.tree, addr / PAGE_SIZE) && Shrunk(c, pg.Now(), v)
                 && Consistent(c.mem, c.tree, c.used)
      modifies pg.pmm, pg.pmm.bitmap
      ensures pg.Valid() && r.Success?
      ensures pg.pmm.used == old(pg.pmm.used)[addr / PAGE_SIZE := false]
    {
      DataStaysUsed(c, pg.Now(), v, addr / PAGE_SIZE);
      var freed := pg.pmm.FreeFrame(addr);
      if freed.Failure? {
        return Failure(FreeError);
      }
      return Success(());
    }

    lemma PageBase(f: nat)
      ensures AlignDown(f * PAGE_SIZE) == f * PAGE_SIZE && f * PAGE_SIZE % PAGE_SIZE == 0
      ensures f * PAGE_SIZE / PAGE_SIZE == f
    {
    }

    lemma PageHas(region: VmRegion, va: nat)
      requires WholePages(region) && region.Has(va)
      ensures region.Has(AlignDown(va)) && AlignDown(va) % PAGE_SIZE == 0
    {
    }

    /** A program touches an address of a region: if its page is not present the processor reports a fault. */
    method Touch(va: Address, readAt: ReadAt, ghost region: VmRegion, ghost a: Snapshot, ghost range: set<Node>)
      returns (ok: bool, ghost why: DemandError)
      requires Valid() && NoHugeOn(pg.tree.leaves, Path(pg.mode, AlignDown(va)))
      requires Some(region) in registry.regions[..] && region.Has(va)
      requires Populated(a, pg.Now(), range) && NewPagesAre(a, pg.Now(), pg.mode, region, readAt) && Tidy(pg.tree)
      requires Accepted(pg.mode, AlignDown(va)) ==> Path(pg.mode, AlignDown(va)) in range
      requires forall q :: q in a.tree.leaves ==> q !in range
      modifies pg, pg.pmm, pg.pmm.bitmap
      ensures Valid() && registry.regions[..] == old(registry.regions[..])
      ensures ok ==>
                Populated(a, pg.Now(), range) && NewPagesAre(a, pg.Now(), pg.mode, region, readAt) && Tidy(pg.tree)
      ensures ok ==>
                && Accepted(pg.mode, AlignDown(va))
                && pg.tree.leaves.Keys == old(pg.tree.leaves).Keys + {Path(pg.mode, AlignDown(va))}
      ensures !ok ==>
                && pg.tree.leaves == old(pg.tree.leaves)
                && CannotPopulate(why, pg.mode, region, AlignDown(va), old(pg.pmm.used), pg.pmm.used)
      ensures forall v :: Depth(v) == pg.mode.Depth() && NoHugeOn(old(pg.tree.leaves), v) ==>
                NoHugeOn(pg.tree.leaves, v)
    {
      hide Populated, NoHugeOn, Accepted, TookAndFilled, Consistent, Current, Tidy, CannotPopulate, NewPagesAre;
      why := Present;
      var pageBase := AlignDown(va);
      pg.PageLookup(pageBase);
      TreeIsConsistent();
      ghost var v, b := Path(pg.mode, pageBase), pg.Now();
      if pg.TranslateAddress(pageBase).Success? {
        return true, why;
      }
      TheRegion(registry.regions[..], region, va);
      var r;
      ghost var found;
      r, found := HandleFault(va, 0, readAt);
      if r.Failure? {
        return false, r.error;
      }
      ghost var w := pg.tree.leaves[v];
      NoHugeStays(b.tree.leaves, v, w);
      PageHas(region, va);
      FaultPopulates(a, b, pg.Now(), range, v, w, PageContents(region, pageBase, readAt));
      NextNewPage(a, b, pg.Now(), range, pg.mode, region, readAt, pageBase, v, w);
      return true, why;
    }

    /** A program touches addresses of a region, until one touch fails; `mid` is the state before that. */
    method TouchAll(touches: seq<Address>, readAt: ReadAt, ghost region: VmRegion, ghost a: Snapshot,
                    ghost range: set<Node>)
      returns (ok: bool, ghost reached: nat, ghost mid: Snapshot, ghost why: DemandError)
      requires Valid() && a == pg.Now() && Tidy(pg.tree)
      requires Some(region) in registry.regions[..]
      requires region.start % PAGE_SIZE == 0 && region.end % PAGE_SIZE == 0
      requires range == RangeSlots(pg.mode, region.start, region.end)
      requires NoHugeIn(pg.tree.leaves, pg.mode, region.start, region.end)
      requires forall q :: q in a.tree.leaves ==> q !in range
      requires forall k :: 0 <= k < |touches| ==> region.Has(touches[k])
      modifies pg, pg.pmm, pg.pmm.bitmap
      ensures Valid() && registry.regions[..] == old(registry.regions[..]) && reached <= |touches|
      ensures Populated(a, mid, range) && NewPagesAre(a, mid, pg.mode, region, readAt)
      ensures mid.tree.leaves.Keys == a.tree.leaves.Keys + Touched(pg.mode, touches[..reached])
      ensures ok <==> reached == |touches|
      ensures ok ==> mid == pg.Now() && Tidy(pg.tree) && NoHugeIn(pg.tree.leaves, pg.mode, region.start, region.end)
      ensures !ok ==>
                && pg.tree.leaves == mid.tree.leaves
                && CannotPopulate(why, pg.mode, region, AlignDown(touches[reached]), mid.used, pg.pmm.used)
    {
      hide Populated, NewPagesAre, NoHugeIn, Accepted, Consistent, Current, Tidy, RangeSlots, CannotPopulate, Touched;
      reached, mid, why := 0, a, NoSlot;
      NothingPopulated(a, range);
      NoNewPages(a, pg.mode, region, readAt);
      NothingTouched(pg.mode);
      var k := 0;
      while k < |touches|
        invariant 0 <= k <= |touches| && reached == k && mid == pg.Now()
        invariant Valid() && registry.regions[..] == old(registry.regions[..])
        invariant Populated(a, mid, range) && NewPagesAre(a, mid, pg.mode, region, readAt) && Tidy(pg.tree)
        invariant NoHugeIn(pg.tree.leaves, pg.mode, region.start, region.end)
        invariant mid.tree.leaves.Keys == a.tree.leaves.Keys + Touched(pg.mode, touches[..reached])
      {
        SlotInRange(pg.mode, region.start, region.end, touches[k]);
        NoHugeAt(pg.tree.leaves, pg.mode, region.start, region.end, AlignDown(touches[k]));
        ok, why := Touch(touches[k], readAt, region, a, range);
        if !ok {
          return;
        }
        TouchedOneMore(pg.mode, touches, k);
        StaysNoHuge(mid.tree.leaves, pg.tree.leaves, pg.mode, region.start, region.end);
        k := k + 1;
        reached, mid := k, pg.Now();
      }
      ok := true;
    }

    /** Mapping a range, touching it anywhere in any order, and unmapping it. The range can be registered exactly if
        no region is in the way, a slot is free and the position in the file is that of a page. Then every page touched
        is there with its contents and the region's flags, and no other page is; unmapping succeeds; and the tables,
        the bitmap of the frame allocator and its free count are what they were. A touch that fails has a cause. */
    method MapTouchUnmap(start: Address, size: nat, flags: Flags, backing: Backing, touches: seq<Address>,
                         readAt: ReadAt)
      returns (ok: bool, ghost reached: nat, ghost mid: Snapshot, ghost why: DemandError)
      requires Valid() && Tidy(pg.tree) && ValidRange(start, size)
      requires NoHugeIn(pg.tree.leaves, pg.mode, AlignDown(start), AlignUp(start + size))
      requires forall q :: q in pg.tree.leaves ==> q !in RangeSlots(pg.mode, AlignDown(start), AlignUp(start + size))
      requires forall k :: 0 <= k < |touches| ==> AlignDown(start) <= touches[k] < AlignUp(start + size)
      modifies pg, pg.pmm, pg.pmm.bitmap, registry.regions
      ensures Valid() && reached <= |touches|
      ensures !Registrable(old(registry.regions[..]), AlignDown(start), AlignUp(start + size), backing) ==>
                !ok && pg.Now() == old(pg.Now()) && registry.regions[..] == old(registry.regions[..])
      ensures Registrable(old(registry.regions[..]), AlignDown(start), AlignUp(start + size), backing) ==>
                && Populated(old(pg.Now()), mid, RangeSlots(pg.mode, AlignDown(start), AlignUp(start + size)))
                && NewPagesAre(old(pg.Now()), mid, pg.mode,
                               VmRegion(AlignDown(start), AlignUp(start + size), flags, backing), readAt)
                && mid.tree.leaves.Keys == old(pg.tree.leaves).Keys + Touched(pg.mode, touches[..reached])
                && (ok <==> reached == |touches|)
      ensures Registrable(old(registry.regions[..]), AlignDown(start), AlignUp(start + size), backing) && !ok ==>
                var region := VmRegion(AlignDown(start), AlignUp(start + size), flags, backing);
                && pg.tree.leaves == mid.tree.leaves
                && CannotPopulate(why, pg.mode, region, AlignDown(touches[reached]), mid.used, pg.pmm.used)
      ensures ok ==> pg.tree == old(pg.tree)
      ensures ok ==> pg.pmm.bitmap[..] == old(pg.pmm.bitmap[..]) && pg.pmm.freeFrames == old(pg.pmm.freeFrames)
      ensures ok ==>
                forall a: nat, f :: Covered(registry.regions[..], a, f) <==> Covered(old(registry.regions[..]), a, f)
    {
      hide Populated, NewPagesAre, NoHugeIn, Accepted, Consistent, Current, Tidy, Removed, Removable, CutOut;
      hide RangeSlots;
      hide CannotPopulate, Touched, Covered, Spans, AddedFirst, Registrable;
      var from, to := AlignDown(start), AlignUp(start + size);
      ghost var region := VmRegion(from, to, flags, backing);
      ghost var a, range := pg.Now(), RangeSlots(pg.mode, from, to);
      reached, mid, why := 0, a, NoSlot;
      TreeIsConsistent();
      AlignedRange(start, size);
      ghost var before := registry.regions[..];
      MeansRegistrable(before, from, to, backing);
      var mapped := registry.Mmap(start, size, flags, backing);
      if mapped.Failure? {
        return false, reached, mid, why;
      }
      ghost var registered := registry.regions[..];
      RegisteredRegion(before, registered, region);
      ok, reached, mid, why := TouchAll(touches, readAt, region, a, range);
      if !ok {
        return;
      }
      assert touches[..reached] == touches;
      PopulatedIsRemovable(a, mid, range, range);
      var unmapped := Munmap(start, size);
      TreeIsConsistent();
      RemovingRestores(a, mid, pg.Now(), range);
      BitmapRestored();
      RegistryRestored(before, registered, registry.regions[..], from, to, flags);
      return true, reached, mid, why;
    }

    /** The flags in use determine the bitmap and the free count. */
    twostate lemma BitmapRestored()
      requires old(pg.pmm.Valid()) && pg.pmm.Valid() && pg.pmm.used == old(pg.pmm.used)
      ensures pg.pmm.bitmap[..] == old(pg.pmm.bitmap[..]) && pg.pmm.freeFrames == old(pg.pmm.freeFrames)
    {
      Bitmap.RepresentedOnce(old(pg.pmm.bitmap[..]), pg.pmm.bitmap[..], pg.pmm.used);
    }

    lemma FrameEntry(frame: nat, flags: Flags)
      requires frame < FRAME_LIMIT
      ensures MakeEntry(frame * PAGE_SIZE, flags) == Word(frame, flags)
      ensures frame * PAGE_SIZE % PAGE_SIZE == 0
    {
    }

    lemma PageInsideRegion(region: VmRegion, va: nat)
      requires WholePages(region) && region.Has(va)
      ensures region.start <= AlignDown(va) < region.end
    {
    }
  }

  /** From `a` to `b` the frame of `w` was taken and filled, and tables were added on the path `v`. */
  ghost predicate TookAndFilled(a: Snapshot, b: Snapshot, v: Node, w: Word, page: Page) {
    && w.frame < |a.used| && w.frame < |a.mem| && !a.used[w.frame]
    && Grown(Filled(a, w.frame, page), b, v)
    && w.frame < |b.mem| && b.mem[w.frame] == page
  }
}
