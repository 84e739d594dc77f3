/** The kernel heap: slab pages for small requests, runs of whole pages for the rest. */
module Heap {
  import opened Alignment
  import opened Bitmap
  import opened Bytes
  import opened Division
  import opened HeapModel
  import opened HeapSteps
  import opened Sizes
  import opened Slab

  const ISIZE_MAX: nat := 0x7FFF_FFFF_FFFF_FFFF

  function AtLeastOne(align: nat): nat {
    if align >= 1 then align else 1
  }

  /** A power-of-two alignment to which the size can be rounded up without leaving the signed range. */
  predicate IsLayout(size: nat, align: nat) {
    IsPow2(align) && size + (align - 1) <= ISIZE_MAX
  }

  /** That is what makes a layout: rounded up to the alignment, the size stays in the signed range. */
  lemma LayoutRoundsUp(size: nat, align: nat)
    requires IsPow2(align) && align <= 0x8000_0000_0000_0000
    ensures IsLayout(size, align) <==> RoundUp(size, align) <= 0x7FFF_FFFF_FFFF_FFFF
  {
    HighestPow2();
    Pow2Divides(align, 0x8000_0000_0000_0000);
    hide IsPow2;
    RoundsBelow(size, align, 0x8000_0000_0000_0000);
  }

  lemma HighestPow2()
    ensures IsPow2(0x8000_0000_0000_0000)
  {
    assert IsPow2(8) by {
      assert IsPow2(4) && IsPow2(2);
    }
    hide IsPow2;
    TimesPow2(8, 8);
    TimesPow2(64, 64);
    TimesPow2(0x1000, 0x1000);
    TimesPow2(0x100_0000, 0x100_0000);
    TimesPow2(0x1_0000_0000_0000, 0x1000);
    TimesPow2(0x1000_0000_0000_0000, 8);
  }

  /** Below a multiple of the alignment there is room to round up for whatever is at most that far below. */
  lemma RoundsBelow(size: nat, align: nat, top: nat)
    requires align >= 1 && top % align == 0
    ensures size + (align - 1) < top <==> RoundUp(size, align) < top
  {
    var r := RoundUp(size, align);
    hide RoundUp;
    if size + (align - 1) >= top && r < top {
      NextMultiple(align, r, top);
    }
  }

  /** Multiples are at least the unit apart. */
  lemma NextMultiple(align: nat, a: nat, b: nat)
    requires align >= 1 && a % align == 0 && b % align == 0 && a < b
    ensures a + align <= b
  {
    var k, q := a / align, b / align;
    assert a == align * k && b == align * q;
    QuotientGrows(a, b, align);
    assert k != q;
    ProductGrows(align, k, q);
  }

  class KernelHeap {
    /** Address of the arena. */
    const base: nat
    const bitmap: array<bv8>
    const kind: array<PageKind>
    const head: array<nat>
    const slabs: array<SlabPage>
    const mem: array<Byte>
    /** Set by the first initialisation; until then every request gets null. */
    var ready: bool
    ghost var used: seq<bool>
    /** The free objects of every slab page, in the order of their links. */
    ghost var free: seq<seq<nat>>
    /** The blocks clients hold, by arena offset. */
    ghost var live: map<nat, Block>

    /** Where the arena is and how large the tables are. */
    ghost predicate Storage()
      reads this
    {
      && base > 0 && base % PAGE_SIZE == 0 && base + HEAP_SIZE <= U64_MAX
      && bitmap.Length == HEAP_PAGE_COUNT / 8 && mem.Length == HEAP_SIZE
      && kind.Length == HEAP_PAGE_COUNT && head.Length == HEAP_PAGE_COUNT && slabs.Length == HEAP_PAGE_COUNT
    }

    ghost predicate Tables()
      reads this, bitmap
    {
      && Storage()
      && |used| == HEAP_PAGE_COUNT && |free| == HEAP_PAGE_COUNT && Represents(bitmap[..], used)
    }

    ghost function Image(): Books
      reads this, kind, head, slabs
    {
      Books(used, kind[..], head[..], slabs[..], free, live)
    }

    ghost predicate Consistent(inTransition: nat)
      reads this, bitmap, kind, head, slabs, mem
    {
      Tables() && Inv(Image(), mem[..], inTransition)
    }

    ghost predicate Valid()
      reads this, bitmap, kind, head, slabs, mem
    {
      Consistent(NO_PAGE)
    }

    /** A page-aligned arena in memory, not initialised yet. */
    constructor (base: nat)
      requires base > 0 && base % PAGE_SIZE == 0 && base + HEAP_SIZE <= U64_MAX
      ensures Storage() && !ready
      ensures fresh(bitmap) && fresh(kind) && fresh(head) && fresh(slabs) && fresh(mem)
    {
      this.base := base;
      bitmap := new bv8[HEAP_PAGE_COUNT / 8](_ => 0);
      kind := new PageKind[HEAP_PAGE_COUNT](_ => FreePage);
      head := new nat[HEAP_PAGE_COUNT](_ => NO_HEAD);
      slabs := new SlabPage[HEAP_PAGE_COUNT](_ => EMPTY);
      mem := new Byte[HEAP_SIZE](_ => 0);
      ready := false;
    }

    /** Makes every page free and forgets every block. */
    method Init()
      requires Storage()
      modifies this, bitmap, kind, head, slabs
      ensures Valid() && ready && Image() == EmptyBooks()
    {
      var i := 0;
      while i < HEAP_PAGE_COUNT / 8
        invariant i <= HEAP_PAGE_COUNT / 8
        invariant forall k :: 0 <= k < i ==> bitmap[k] == 0
      {
        bitmap[i] := 0;
        i := i + 1;
      }
      i := 0;
      while i < HEAP_PAGE_COUNT
        invariant i <= HEAP_PAGE_COUNT
        invariant forall k :: 0 <= k < bitmap.Length ==> bitmap[k] == 0
        invariant forall k :: 0 <= k < i ==> kind[k] == FreePage && head[k] == NO_HEAD && slabs[k] == EMPTY
      {
        kind[i] := FreePage;
        head[i] := NO_HEAD;
        slabs[i] := EMPTY;
        i := i + 1;
      }
      ready := true;
      used, free, live := EmptyBooks().used, EmptyBooks().free, map[];
      ZeroBytes(bitmap[..], used);
      assert kind[..] == EmptyBooks().kind && head[..] == EmptyBooks().head && slabs[..] == EmptyBooks().slabs;
      EmptyInv(mem[..]);
    }

    // ---- pages ----

    method IsPageUsed(page: nat) returns (r: bool)
      requires Tables() && page < HEAP_PAGE_COUNT
      ensures r == used[page]
    {
      assert BitAt(bitmap[..], page) == used[page];
      return Bit(bitmap[page / 8], page % 8);
    }

    method SetPageUsed(page: nat, value: bool)
      requires Tables() && page < HEAP_PAGE_COUNT
      modifies bitmap, this`used
      ensures Tables() && used == old(used)[page := value]
    {
      UpdateRepresents(bitmap[..], used, page, value);
      ghost var before := bitmap[..];
      bitmap[page / 8] := WriteBit(bitmap[page / 8], page % 8, value);
      used := used[page := value];
      assert bitmap[..] == WithBit(before, page, value);
    }

    /** First fit: takes the least run of `count` free pages; fails only if there is none. */
    method AllocContiguousPages(count: nat) returns (ok: bool, start: nat)
      requires Tables()
      modifies bitmap, this`used
      ensures Tables()
      ensures ok ==> count >= 1 && LeastRun(old(used), start, count) && used == WithRun(old(used), start, count, true)
      ensures !ok ==> used == old(used) && (count >= 1 ==> forall s: nat :: !RunIs(used, s, count, false))
    {
      if count == 0 || count > HEAP_PAGE_COUNT {
        return false, 0;
      }
      var runStart, runLen, page := 0, 0, 0;
      while page < HEAP_PAGE_COUNT
        invariant runLen <= page <= HEAP_PAGE_COUNT && runLen < count
        invariant used == old(used) && Tables()
        invariant runLen > 0 ==> runStart == page - runLen
        invariant RunIs(used, page - runLen, runLen, false)
        invariant page - runLen > 0 ==> used[page - runLen - 1]
        invariant forall s: nat :: s + count <= page ==> !RunIs(used, s, count, false)
      {
        var taken := IsPageUsed(page);
        if !taken {
          if runLen == 0 {
            runStart := page;
          }
          runLen := runLen + 1;
          if runLen == count {
            TakePages(runStart, count);
            return true, runStart;
          }
        } else {
          runLen := 0;
        }
        page := page + 1;
      }
      return false, 0;
    }

    method TakePages(start: nat, count: nat)
      requires Tables() && start + count <= HEAP_PAGE_COUNT
      modifies bitmap, this`used
      ensures Tables() && used == WithRun(old(used), start, count, true)
    {
      var i := 0;
      WithEmptyRun(used, start, true);
      while i < count
        invariant i <= count && Tables() && used == WithRun(old(used), start, i, true)
      {
        WithRunStep(old(used), start, i, true);
        SetPageUsed(start + i, true);
        i := i + 1;
      }
    }

    /** Makes the pages of a run free again; pages past the end of the arena are ignored. */
    method FreeContiguousPages(start: nat, count: nat)
      requires Tables()
      modifies bitmap, kind, head, slabs, this`used, this`free
      ensures Tables() && Image() == PagesReleased(old(Image()), start, count)
    {
      ghost var b := Image();
      var i := 0;
      ReleasedClipped(b, start, 0, 0);
      while i < count && start + i < HEAP_PAGE_COUNT
        invariant i <= count && Tables() && Image() == PagesReleased(b, start, i)
      {
        ReleasedStepwise(b, start, i);
        ReleasePage(start + i);
        i := i + 1;
      }
      ReleasedClipped(b, start, i, count);
    }

    method ReleasePage(page: nat)
      requires Tables() && page < HEAP_PAGE_COUNT
      modifies bitmap, kind, head, slabs, this`used, this`free
      ensures Tables() && Image() == PagesReleased(old(Image()), page, 1)
    {
      ghost var b := Image();
      SetPageUsed(page, false);
      kind[page] := FreePage;
      head[page] := NO_HEAD;
      slabs[page] := EMPTY;
      free := free[page := []];
      ghost var b' := PagesReleased(b, page, 1);
      assert used == b'.used && free == b'.free && kind[..] == b'.kind && head[..] == b'.head && slabs[..] == b'.slabs;
    }

    // ---- small blocks ----

    /** Takes the first free object of a slab page. */
    method TakeObject(page: nat, size: nat, ghost inTransition: nat) returns (offset: nat)
      requires Consistent(inTransition) && (inTransition == page || inTransition == NO_PAGE)
      requires page < HEAP_PAGE_COUNT && kind[page] == SlabOwned && free[page] != []
      requires slabs[page].classIndex < SLAB_CLASS_COUNT && 1 <= size <= ClassSize(slabs[page].classIndex)
      modifies slabs, this`free, this`live
      ensures Valid() && Image() == ObjectTaken(old(Image()), page, size)
      ensures offset == ObjectAt(page * PAGE_SIZE, old(slabs[page]).classIndex, old(free)[page][0])
    {
      hide Inv, FreeList, ObjectAt, Capacity, ClassSize, Represents;
      ghost var b := Image();
      SlabFacts(b, mem[..], inTransition, page);
      TakingKeepsInv(b, mem[..], inTransition, page, size);
      offset := PopObject(page);
      free := free[page := free[page][1..]];
      live := live[offset := Small(page, b.free[page][0], size)];
      assert Image() == ObjectTaken(b, page, size);
    }

    /** Unlinks the first free object of a slab page. */
    method PopObject(page: nat) returns (offset: nat)
      requires slabs.Length == |free| == HEAP_PAGE_COUNT && page < HEAP_PAGE_COUNT && free[page] != []
      requires slabs[page].active && slabs[page].inUse < 0xFFFF
      requires FreeList(mem[..], page * PAGE_SIZE, slabs[page].classIndex, slabs[page].freeHead, free[page])
      modifies slabs
      ensures offset == ObjectAt(page * PAGE_SIZE, old(slabs[page]).classIndex, free[page][0])
      ensures var s := old(slabs[page]);
              slabs[..] == old(slabs[..])[page := s.(freeHead := Entry(free[page], 1), inUse := s.inUse + 1)]
    {
      hide FreeList, ObjectAt;
      var ok, off, slab := AllocFromSlab(mem, page * PAGE_SIZE, slabs[page], free[page]);
      slabs[page] := slab;
      return off;
    }

    /** Makes the first free page a slab page with all objects free. */
    method OpenSlab(class_: nat) returns (ok: bool, page: nat)
      requires Valid() && class_ < SLAB_CLASS_COUNT
      modifies bitmap, kind, head, slabs, mem, this`used, this`free
      ensures !ok ==> Valid() && Image() == old(Image()) && mem[..] == old(mem[..])
      ensures !ok ==> forall p: nat :: p < HEAP_PAGE_COUNT ==> used[p]
      ensures ok ==>
                && LeastRun(old(used), page, 1) && Consistent(page)
                && Image() == SlabOpened(old(Image()), page, class_)
      ensures ok ==> ClientBytesKept(live, old(mem[..]), mem[..])
    {
      hide Inv, Represents, FreeList, Capacity, ClassSize, ClientBytesKept;
      ghost var b, m := Image(), mem[..];
      ok, page := AllocContiguousPages(1);
      if !ok {
        assert forall p: nat :: p < HEAP_PAGE_COUNT && !used[p] ==> RunIs(used, p, 1, false);
        return false, 0;
      }
      kind[page] := SlabOwned;
      head[page] := page;
      var slab := InitSlabPage(mem, page * PAGE_SIZE, class_);
      slabs[page] := slab;
      free := free[page := AllObjects(Capacity(class_))];
      SlabIsOpen(b, m, mem[..], page, class_);
      ghost var b' := SlabOpened(b, page, class_);
      assert used == b'.used && kind[..] == b'.kind && head[..] == b'.head && slabs[..] == b'.slabs;
    }

    /** A slab object for the request, from the first page with room or else from the first free page; fails,
        changing nothing, exactly when there is neither, or no class is large enough. */
    method AllocSmall(size: nat, align: nat) returns (ok: bool, offset: nat)
      requires Valid() && size >= 1
      modifies bitmap, kind, head, slabs, mem, this`used, this`free, this`live
      ensures Valid()
      ensures !ok ==> Image() == old(Image()) && mem[..] == old(mem[..])
      ensures !ok ==> ClassFor(size, align) == SLAB_CLASS_COUNT ||
                      forall p: nat :: p < HEAP_PAGE_COUNT ==> used[p] && !Room(Image(), p, ClassFor(size, align))
      ensures ok ==>
                var class_ := ClassFor(size, align);
                && (exists p ::
                      || TookObject(old(Image()), Image(), p, class_, size, offset)
                      || TookPage(old(Image()), Image(), p, class_, size, offset))
                && ClientBytesKept(old(live), old(mem[..]), mem[..])
    {
      var class_ := ClassIndexFor(size, align);
      if class_ == SLAB_CLASS_COUNT {
        return false, 0;
      }
      ghost var b := Image();
      var page := 0;
      while page < HEAP_PAGE_COUNT
        invariant page <= HEAP_PAGE_COUNT && Valid() && Image() == b && mem[..] == old(mem[..])
        invariant forall q: nat :: q < page ==> !Room(b, q, class_)
      {
        RoomShown(b, mem[..], page, class_);
        if kind[page] == SlabOwned {
          if slabs[page].active && slabs[page].classIndex == class_ && slabs[page].HasFreeObjects() {
            offset := TakeObject(page, size, NO_PAGE);
            assert TookObject(b, Image(), page, class_, size, offset);
            return true, offset;
          }
        }
        page := page + 1;
      }
      ok, page := OpenSlab(class_);
      if !ok {
        return false, 0;
      }
      FreshList(class_);
      offset := TakeObject(page, size, page);
      assert TookPage(b, Image(), page, class_, size, offset);
      return true, offset;
    }

    // ---- large blocks ----

    /** Writes the header of a run. */
    method WriteHeader(o: nat, pages: nat)
      requires mem.Length == HEAP_SIZE && o + HEADER_SIZE <= HEAP_SIZE && pages <= 0xFFFF
      modifies mem
      ensures HeaderIs(mem[..], o, pages)
      ensures forall k :: 0 <= k < mem.Length && !(o <= k < o + HEADER_SIZE) ==> mem[k] == old(mem[k])
    {
      mem[o], mem[o + 1] := LARGE_MAGIC % 256, LARGE_MAGIC / 256 % 256;
      mem[o + 2], mem[o + 3] := LARGE_MAGIC / 65536 % 256, LARGE_MAGIC / 16777216;
      mem[o + 4], mem[o + 5] := pages % 256, pages / 256;
      mem[o + 6], mem[o + 7] := 0, 0;
    }

    /** Marks the pages of a run as owned by its first page. */
    method OwnPages(start: nat, count: nat)
      requires kind.Length == head.Length == HEAP_PAGE_COUNT && start + count <= HEAP_PAGE_COUNT
      modifies kind, head
      ensures kind[..] == WithRun(old(kind[..]), start, count, LargeOwned)
      ensures head[..] == WithRun(old(head[..]), start, count, start)
    {
      var i := 0;
      while i < count
        invariant i <= count
        invariant kind[..] == WithRun(old(kind[..]), start, i, LargeOwned)
        invariant head[..] == WithRun(old(head[..]), start, i, start)
      {
        WithRunStep(old(kind[..]), start, i, LargeOwned);
        WithRunStep(old(head[..]), start, i, start);
        kind[start + i] := LargeOwned;
        head[start + i] := start;
        i := i + 1;
      }
    }

    /** A run of whole pages for the request, with a header in front; fails, changing nothing, exactly when no run
        is long enough. Within the bounds of a layout the byte count does not saturate. */
    method AllocLarge(size: nat, align: nat) returns (ok: bool, offset: nat)
      requires Valid() && size >= 1 && align >= 1 && size + align <= 0x8000_0000_0000_0000
      modifies bitmap, kind, head, mem, this`used, this`live
      ensures Valid()
      ensures !ok ==> Image() == old(Image()) && mem[..] == old(mem[..])
      ensures !ok ==> forall s: nat :: !RunIs(used, s, PagesFor(size, align), false)
      ensures ok ==>
                && (exists h :: TookRun(old(Image()), Image(), h, PagesFor(size, align), size, offset))
                && (base + offset) % align == 0
                && ClientBytesKept(old(live), old(mem[..]), mem[..])
    {
      var pages := PagesFor(size, align);
      if pages == 0 || pages > 0xFFFF {
        return false, 0;
      }
      ghost var b, m := Image(), mem[..];
      var start;
      ok, start := AllocContiguousPages(pages);
      if !ok {
        return false, 0;
      }
      OwnPages(start, pages);
      WriteHeader(start * PAGE_SIZE, pages);
      RunHasRoom(base, start, size, align);
      offset := RoundUp(base + start * PAGE_SIZE + HEADER_SIZE, align) - base;
      RunIsTaken(b, m, mem[..], start, pages, offset, size);
      live := live[offset := Large(start, pages, size)];
      assert Image() == RunTaken(b, start, pages, offset, size);
      assert TookRun(b, Image(), start, pages, size, offset);
    }

    // ---- requests ----

    /** Grants a request, or returns null (0) and changes nothing, exactly when there is nothing to grant it from. */
    method AllocInner(size: nat, align: nat) returns (ptr: nat)
      requires Valid() && IsPow2(align) && size + align <= 0x8000_0000_0000_0000
      modifies bitmap, kind, head, slabs, mem, this`used, this`free, this`live
      ensures Valid()
      ensures ptr == 0 <==> !Satisfiable(old(Image()), size, align)
      ensures ptr == 0 ==> Image() == old(Image()) && mem[..] == old(mem[..])
      ensures ptr != 0 ==>
                && ptr >= base && ptr % align == 0
                && Allocated(old(Image()), Image(), size, align, ptr - base)
                && ClientBytesKept(old(live), old(mem[..]), mem[..])
    {
      hide Inv, Represents, ClientBytesKept;
      if size == 0 {
        return 0;
      }
      ghost var b := Image();
      var ok, offset;
      var class_ := ClassIndexFor(size, align);
      if class_ != SLAB_CLASS_COUNT {
        ok, offset := AllocSmall(size, align);
        if ok {
          SmallGrantAligned(base, b, Image(), size, align, offset);
          GrantedWasSatisfiable(b, Image(), size, align, offset);
          return base + offset;
        }
        RunHasRoom(base, 0, size, align);
        NoPageNoRun(used, PagesFor(size, align));
      }
      ok, offset := AllocLarge(size, align);
      if !ok {
        return 0;
      }
      return base + offset;
    }

    /** Gives a block back. Ignores null, addresses outside the arena and addresses in pages that are free already. */
    method FreeInner(ptr: nat)
      requires Valid()
      requires ptr == 0 || ptr < base || ptr >= base + HEAP_SIZE || ptr - base in live
               || kind[(ptr - base) / PAGE_SIZE] == FreePage
      modifies bitmap, kind, head, slabs, mem, this`used, this`free, this`live
      ensures Valid()
      ensures ptr >= base && ptr - base in old(live) ==>
                && Freeable(old(Image()), ptr - base) && Image() == Freed(old(Image()), ptr - base)
                && ClientBytesKept(live, old(mem[..]), mem[..])
      ensures !(ptr >= base && ptr - base in old(live)) ==> Image() == old(Image()) && mem[..] == old(mem[..])
    {
      hide Inv, Represents, Freed, Freeable, ClientBytesKept;
      if ptr == 0 {
        return;
      }
      if ptr < base || ptr >= base + HEAP_SIZE {
        LiveInArena(Image(), mem[..]);
        return;
      }
      FreeInArena(ptr - base);
    }

    method FreeInArena(offset: nat)
      requires Valid() && offset < HEAP_SIZE
      requires offset in live || kind[offset / PAGE_SIZE] == FreePage
      modifies bitmap, kind, head, slabs, mem, this`used, this`free, this`live
      ensures Valid()
      ensures offset in old(live) ==>
                && Freeable(old(Image()), offset) && Image() == Freed(old(Image()), offset)
                && ClientBytesKept(live, old(mem[..]), mem[..])
      ensures offset !in old(live) ==> Image() == old(Image()) && mem[..] == old(mem[..])
    {
      hide Inv, Represents, Freed, Freeable, ClientBytesKept;
      var page := offset / PAGE_SIZE;
      PageOfAddress(Image(), mem[..], offset, page);
      if kind[page] == SlabOwned {
        FreeObject(offset, head[page]);
        return;
      }
      if kind[page] == LargeOwned {
        FreeRun(offset, head[page]);
      }
    }

    /** Gives an object back to its slab page; a page with no object left in use becomes free. */
    method FreeObject(offset: nat, page: nat)
      requires Valid() && offset in live && live[offset].Small? && page == live[offset].page
      modifies bitmap, kind, head, slabs, mem, this`used, this`free, this`live
      ensures Valid() && Freeable(old(Image()), offset) && Image() == Freed(old(Image()), offset)
      ensures ClientBytesKept(live, old(mem[..]), mem[..])
    {
      hide Inv, Represents, FreeList, ObjectAt, Capacity, ClassSize, IsObject, ObjectNumber, ClientBytesKept;
      ghost var b, m := Image(), mem[..];
      ObjectIsReturned(b, m, offset);
      PushObject(page, offset);
      ReturnIsSafe(b, m, mem[..], offset);
      free := free[page := [live[offset].i] + free[page]];
      live := live - {offset};
      assert Image() == ObjectReturned(b, offset);
      if slabs[page].IsEmpty() {
        FreeContiguousPages(page, 1);
      }
    }

    /** Links an object in front of its page's free list. */
    method PushObject(page: nat, offset: nat)
      requires slabs.Length == |free| == HEAP_PAGE_COUNT && page < HEAP_PAGE_COUNT
      requires slabs[page].active && slabs[page].classIndex < SLAB_CLASS_COUNT && slabs[page].inUse > 0
      requires slabs[page].capacity == Capacity(slabs[page].classIndex)
      requires FreeList(mem[..], page * PAGE_SIZE, slabs[page].classIndex, slabs[page].freeHead, free[page])
      requires IsObject(page * PAGE_SIZE, slabs[page].classIndex, offset)
      requires ObjectNumber(page * PAGE_SIZE, slabs[page].classIndex, offset) !in free[page]
      modifies slabs, mem
      ensures var s := old(slabs[page]);
              var i := ObjectNumber(page * PAGE_SIZE, s.classIndex, offset);
              && slabs[..] == old(slabs[..])[page := s.(freeHead := i, inUse := s.inUse - 1)]
              && offset + 1 < mem.Length && s.freeHead <= 0xFFFF
              && mem[..] == WriteU16(old(mem[..]), offset, s.freeHead)
              && FreeList(mem[..], page * PAGE_SIZE, s.classIndex, i, [i] + free[page])
    {
      hide FreeList, IsObject, ObjectNumber;
      var ok, slab := FreeToSlab(mem, page * PAGE_SIZE, slabs[page], offset, free[page]);
      slabs[page] := slab;
    }

    /** Makes the pages of a run free again, as many as its header says. */
    method FreeRun(offset: nat, page: nat)
      requires Valid() && offset in live && live[offset].Large? && page == live[offset].page
      modifies bitmap, kind, head, slabs, this`used, this`free, this`live
      ensures Valid() && Freeable(old(Image()), offset) && Image() == Freed(old(Image()), offset)
      ensures ClientBytesKept(live, old(mem[..]), mem[..])
    {
      ghost var b := Image();
      RunHeader(b, mem[..], offset);
      FreeingRunKeepsInv(b, mem[..], offset);
      hide Inv, HeaderIs;
      if ReadU32(mem[..], page * PAGE_SIZE) == LARGE_MAGIC {
        var pages := ReadU16(mem[..], page * PAGE_SIZE + 4);
        live := live - {offset};
        FreeContiguousPages(page, pages);
      }
    }

    /** A client overwrites a byte of a block it holds. */
    method ClientWrite(offset: nat, k: nat, value: Byte)
      requires Valid() && offset in live && k < live[offset].size
      modifies mem
      ensures Valid() && offset + k < mem.Length && mem[..] == old(mem[..])[offset + k := value]
    {
      assert BlockOk(Image(), mem[..], offset);
      Confined(Image(), mem[..], offset);
      ghost var m := mem[..];
      mem[offset + k] := value;
      assert mem[..] == m[offset + k := value];
      WritesAreHarmless(Image(), m, mem[..], offset);
    }

    /** A request granted and given back at once leaves every table as it was, and every byte of every block. */
    method AllocThenFree(size: nat, align: nat) returns (ptr: nat)
      requires Valid() && IsPow2(align) && size + align <= 0x8000_0000_0000_0000
      modifies bitmap, kind, head, slabs, mem, this`used, this`free, this`live
      ensures Valid() && Image() == old(Image())
      ensures ClientBytesKept(live, old(mem[..]), mem[..])
    {
      ghost var b, m := Image(), mem[..];
      ptr := AllocInner(size, align);
      if ptr != 0 {
        GrantAddsOneBlock(b, m, Image(), size, align, ptr - base);
        ghost var m1 := mem[..];
        FreeInner(ptr);
        BytesKeptTwice(live, m, m1, mem[..]);
      }
    }

    /** The C entry point: also null before initialisation and for a size and alignment that are no layout. */
    method Alloc(size: nat, align: nat) returns (ptr: nat)
      requires Storage() && (ready ==> Valid())
      modifies bitmap, kind, head, slabs, mem, this`used, this`free, this`live
      ensures ready ==> Valid()
      ensures ptr == 0 <==> !(ready && IsLayout(size, AtLeastOne(align))
                              && Satisfiable(old(Image()), size, AtLeastOne(align)))
      ensures ptr == 0 ==> Image() == old(Image()) && mem[..] == old(mem[..])
      ensures ptr != 0 ==>
                && ptr >= base && ptr % AtLeastOne(align) == 0
                && Allocated(old(Image()), Image(), size, AtLeastOne(align), ptr - base)
                && ClientBytesKept(old(live), old(mem[..]), mem[..])
    {
      var safeAlign := AtLeastOne(align);
      if !IsLayout(size, safeAlign) {
        return 0;
      }
      if !ready {
        return 0;
      }
      ptr := AllocInner(size, safeAlign);
    }

    /** The C entry point for giving a block back. */
    method Dealloc(ptr: nat)
      requires Storage() && (ready ==> Valid())
      requires ready ==> ptr == 0 || ptr < base || ptr >= base + HEAP_SIZE || ptr - base in live
                         || kind[(ptr - base) / PAGE_SIZE] == FreePage
      modifies bitmap, kind, head, slabs, mem, this`used, this`free, this`live
      ensures ready ==> Valid()
      ensures ready && ptr >= base && ptr - base in old(live) ==>
                && Freeable(old(Image()), ptr - base) && Image() == Freed(old(Image()), ptr - base)
                && ClientBytesKept(live, old(mem[..]), mem[..])
      ensures !(ready && ptr >= base && ptr - base in old(live)) ==> Image() == old(Image()) && mem[..] == old(mem[..])
    {
      if !ready {
        return;
      }
      FreeInner(ptr);
    }
  }
}
