/** The steps of the kernel heap on its bookkeeping values, and that each keeps the invariant. */
module HeapSteps {
  import opened Alignment
  import opened Bitmap
  import opened Bytes
  import opened Division
  import opened HeapModel
  import opened Sizes
  import opened Slab

  ghost predicate Sized(b: Books) {
    && |b.used| == HEAP_PAGE_COUNT && |b.kind| == HEAP_PAGE_COUNT && |b.head| == HEAP_PAGE_COUNT
    && |b.slabs| == HEAP_PAGE_COUNT && |b.free| == HEAP_PAGE_COUNT
  }

  // ---- taking an object ----

  ghost function ObjectTaken(b: Books, p: nat, size: nat): Books
    requires Sized(b) && p < HEAP_PAGE_COUNT && b.free[p] != []
  {
    var s, list := b.slabs[p], b.free[p];
    b.(slabs := b.slabs[p := s.(freeHead := Entry(list, 1), inUse := s.inUse + 1)],
       free := b.free[p := list[1..]],
       live := b.live[ObjectAt(p * PAGE_SIZE, s.classIndex, list[0]) := Small(p, list[0], size)])
  }

  /** The offset of a free object is not a live block's. */
  lemma FreeObjectIsNew(b: Books, m: seq<Byte>, e: nat, p: nat)
    requires Inv(b, m, e) && p < HEAP_PAGE_COUNT && b.kind[p] == SlabOwned && b.free[p] != []
    ensures ObjectAt(p * PAGE_SIZE, b.slabs[p].classIndex, b.free[p][0]) !in b.live
  {
    var off := ObjectAt(p * PAGE_SIZE, b.slabs[p].classIndex, b.free[p][0]);
    if off in b.live {
      assert BlockOk(b, m, off);
      LinksApart(b, m, e, off, p, 0);
    }
  }

  lemma TakingKeepsInv(b: Books, m: seq<Byte>, e: nat, p: nat, size: nat)
    requires Inv(b, m, e) && p < HEAP_PAGE_COUNT && b.kind[p] == SlabOwned && b.free[p] != []
    requires e == p || e == NO_PAGE
    requires b.slabs[p].classIndex < SLAB_CLASS_COUNT && 1 <= size <= ClassSize(b.slabs[p].classIndex)
    ensures Inv(ObjectTaken(b, p, size), m, NO_PAGE)
  {
    var b' := ObjectTaken(b, p, size);
    FreeObjectIsNew(b, m, e, p);
    forall q: nat | q < HEAP_PAGE_COUNT
      ensures PageOk(b', m, q)
    {
      assert PageOk(b, m, q);
      if q == p {
        TakenPageOk(b, m, e, p, size);
      } else {
        PageStays(b, b', m, m, q);
      }
    }
    TakenBlocksOk(b, m, e, p, size);
  }

  lemma TakenPageOk(b: Books, m: seq<Byte>, e: nat, p: nat, size: nat)
    requires Inv(b, m, e) && p < HEAP_PAGE_COUNT && b.kind[p] == SlabOwned && b.free[p] != []
    ensures SlabOk(ObjectTaken(b, p, size), m, p)
  {
    assert PageOk(b, m, p);
    var s, list := b.slabs[p], b.free[p];
    var b' := ObjectTaken(b, p, size);
    PopList(m, p * PAGE_SIZE, s.classIndex, s.freeHead, list);
    FreeObjectIsNew(b, m, e, p);
    hide FreeList, ObjectAt, Capacity;
    forall i: nat | i < s.capacity && i !in list[1..]
      ensures Held(b', p, s.classIndex, i)
    {
      if i != list[0] {
        assert i !in list;
        assert Held(b, p, s.classIndex, i);
      }
    }
  }

  lemma TakenBlocksOk(b: Books, m: seq<Byte>, e: nat, p: nat, size: nat)
    requires Inv(b, m, e) && p < HEAP_PAGE_COUNT && b.kind[p] == SlabOwned && b.free[p] != []
    requires b.slabs[p].classIndex < SLAB_CLASS_COUNT && 1 <= size <= ClassSize(b.slabs[p].classIndex)
    ensures forall off :: off in ObjectTaken(b, p, size).live ==> BlockOk(ObjectTaken(b, p, size), m, off)
  {
    assert PageOk(b, m, p);
    var s, list := b.slabs[p], b.free[p];
    var b' := ObjectTaken(b, p, size);
    PopList(m, p * PAGE_SIZE, s.classIndex, s.freeHead, list);
    FreeObjectIsNew(b, m, e, p);
    forall off | off in b'.live
      ensures BlockOk(b', m, off)
    {
      if off in b.live {
        assert BlockOk(b, m, off);
        BlockStays(b, b', m, m, off);
      }
    }
  }

  // ---- opening a slab page ----

  ghost function SlabOpened(b: Books, p: nat, class_: nat): Books
    requires Sized(b) && p < HEAP_PAGE_COUNT && class_ < SLAB_CLASS_COUNT
  {
    b.(used := b.used[p := true], kind := b.kind[p := SlabOwned], head := b.head[p := p],
       slabs := b.slabs[p := SlabPage(true, class_, 0, 0, Capacity(class_))],
       free := b.free[p := AllObjects(Capacity(class_))])
  }

  lemma OpeningKeepsInv(b: Books, m: seq<Byte>, m': seq<Byte>, p: nat, class_: nat)
    requires Inv(b, m, NO_PAGE) && p < HEAP_PAGE_COUNT && b.kind[p] == FreePage && class_ < SLAB_CLASS_COUNT
    requires |m'| == |m| && FreeList(m', p * PAGE_SIZE, class_, 0, AllObjects(Capacity(class_)))
    requires forall k :: 0 <= k < |m| && !(p * PAGE_SIZE <= k < p * PAGE_SIZE + PAGE_SIZE) ==> m'[k] == m[k]
    ensures Inv(SlabOpened(b, p, class_), m', p)
  {
    var b' := SlabOpened(b, p, class_);
    forall q: nat | q < HEAP_PAGE_COUNT
      ensures PageOk(b', m', q)
    {
      assert PageOk(b, m, q);
      if q == p {
        OpenedPageOk(b, m', p, class_);
      } else {
        if b.kind[q] == SlabOwned {
          UntouchedLinks(b, m, m', q);
        }
        PageStays(b, b', m, m', q);
      }
    }
    forall off | off in b'.live
      ensures BlockOk(b', m', off)
    {
      OpeningSparesBlock(b, m, m', p, class_, off);
    }
  }

  lemma OpenedPageOk(b: Books, m': seq<Byte>, p: nat, class_: nat)
    requires Shape(b, m') && p < HEAP_PAGE_COUNT && class_ < SLAB_CLASS_COUNT
    requires FreeList(m', p * PAGE_SIZE, class_, 0, AllObjects(Capacity(class_)))
    ensures SlabOk(SlabOpened(b, p, class_), m', p)
  {
    forall i: nat | i < Capacity(class_)
      ensures i in AllObjects(Capacity(class_))
    {
      assert AllObjects(Capacity(class_))[i] == i;
    }
  }

  lemma OpeningSparesBlock(b: Books, m: seq<Byte>, m': seq<Byte>, p: nat, class_: nat, off: nat)
    requires Inv(b, m, NO_PAGE) && p < HEAP_PAGE_COUNT && b.kind[p] == FreePage && class_ < SLAB_CLASS_COUNT
    requires |m'| == |m| && off in b.live
    requires forall k :: 0 <= k < |m| && !(p * PAGE_SIZE <= k < p * PAGE_SIZE + PAGE_SIZE) ==> m'[k] == m[k]
    ensures BlockOk(SlabOpened(b, p, class_), m', off)
  {
    assert BlockOk(b, m, off);
    hide FreeList, ObjectAt, ClassSize, Capacity, HeaderIs;
    BlockStays(b, SlabOpened(b, p, class_), m, m', off);
  }

  // ---- returning an object ----

  ghost function ObjectReturned(b: Books, off: nat): Books
    requires Sized(b) && off in b.live && b.live[off].Small? && b.live[off].page < HEAP_PAGE_COUNT
    requires b.slabs[b.live[off].page].inUse > 0
  {
    var p, i := b.live[off].page, b.live[off].i;
    var s := b.slabs[p];
    b.(slabs := b.slabs[p := s.(freeHead := i, inUse := s.inUse - 1)], free := b.free[p := [i] + b.free[p]],
       live := b.live - {off})
  }

  lemma ReturningKeepsInv(b: Books, m: seq<Byte>, m': seq<Byte>, off: nat)
    requires Inv(b, m, NO_PAGE) && off in b.live && b.live[off].Small? && |m'| == |m|
    requires var p := b.live[off].page;
             && p < HEAP_PAGE_COUNT && b.slabs[p].inUse > 0
             && FreeList(m', p * PAGE_SIZE, b.slabs[p].classIndex, b.live[off].i, [b.live[off].i] + b.free[p])
             && forall k :: 0 <= k < |m| && !(p * PAGE_SIZE <= k < p * PAGE_SIZE + PAGE_SIZE) ==> m'[k] == m[k]
    ensures Inv(ObjectReturned(b, off), m', b.live[off].page)
  {
    var b' := ObjectReturned(b, off);
    var p := b.live[off].page;
    assert BlockOk(b, m, off);
    forall q: nat | q < HEAP_PAGE_COUNT
      ensures PageOk(b', m', q)
    {
      assert PageOk(b, m, q);
      if q == p {
        ReturnedPageOk(b, m, m', off);
      } else {
        if b.kind[q] == SlabOwned {
          UntouchedLinks(b, m, m', q);
        }
        PageStays(b, b', m, m', q);
      }
    }
    forall o | o in b'.live
      ensures BlockOk(b', m', o)
    {
      assert BlockOk(b, m, o);
      ReturnedBlockStays(b, m, m', off, o);
    }
  }

  lemma ReturnedBlockStays(b: Books, m: seq<Byte>, m': seq<Byte>, off: nat, o: nat)
    requires Inv(b, m, NO_PAGE) && off in b.live && b.live[off].Small? && |m'| == |m|
    requires var p := b.live[off].page;
             && p < HEAP_PAGE_COUNT && b.slabs[p].inUse > 0
             && forall k :: 0 <= k < |m| && !(p * PAGE_SIZE <= k < p * PAGE_SIZE + PAGE_SIZE) ==> m'[k] == m[k]
    requires o in b.live && o != off
    ensures BlockOk(ObjectReturned(b, off), m', o)
  {
    assert BlockOk(b, m, off) && BlockOk(b, m, o);
    hide FreeList, ObjectAt, ClassSize, Capacity, HeaderIs;
    var b' := ObjectReturned(b, off);
    BlockStays(b, b', m, m', o);
  }

  lemma ReturnedPageOk(b: Books, m: seq<Byte>, m': seq<Byte>, off: nat)
    requires Inv(b, m, NO_PAGE) && off in b.live && b.live[off].Small? && |m'| == |m|
    requires var p := b.live[off].page;
             && p < HEAP_PAGE_COUNT && b.slabs[p].inUse > 0
             && FreeList(m', p * PAGE_SIZE, b.slabs[p].classIndex, b.live[off].i, [b.live[off].i] + b.free[p])
    ensures b.kind[b.live[off].page] == SlabOwned && SlabOk(ObjectReturned(b, off), m', b.live[off].page)
  {
    assert BlockOk(b, m, off);
    var p, i := b.live[off].page, b.live[off].i;
    assert PageOk(b, m, p);
    var s := b.slabs[p];
    var b' := ObjectReturned(b, off);
    forall j: nat | j < s.capacity && j !in b'.free[p]
      ensures Held(b', p, s.classIndex, j)
    {
      assert b'.free[p][0] == i;
      assert j !in b.free[p] by {
        assert b'.free[p][1..] == b.free[p];
      }
      assert Held(b, p, s.classIndex, j);
    }
  }

  // ---- releasing pages ----

  ghost function PagesReleased(b: Books, start: nat, count: nat): Books {
    b.(used := WithRun(b.used, start, count, false), kind := WithRun(b.kind, start, count, FreePage),
       head := WithRun(b.head, start, count, NO_HEAD), slabs := WithRun(b.slabs, start, count, EMPTY),
       free := WithRun(b.free, start, count, []))
  }

  lemma ReleasedStepwise(b: Books, start: nat, count: nat)
    requires Sized(b) && start + count < HEAP_PAGE_COUNT
    ensures PagesReleased(PagesReleased(b, start, count), start + count, 1) == PagesReleased(b, start, count + 1)
  {
    var c, d := PagesReleased(PagesReleased(b, start, count), start + count, 1), PagesReleased(b, start, count + 1);
    assert c.used == d.used && c.kind == d.kind && c.head == d.head && c.slabs == d.slabs && c.free == d.free;
  }

  /** Releasing nothing, or pages past the end, changes nothing. */
  lemma ReleasedClipped(b: Books, start: nat, count: nat, more: nat)
    requires Sized(b) && count <= more && (start + count >= HEAP_PAGE_COUNT || count == more)
    ensures PagesReleased(b, start, count) == PagesReleased(b, start, more)
    ensures PagesReleased(b, start, 0) == b
  {
    var c, d, z := PagesReleased(b, start, count), PagesReleased(b, start, more), PagesReleased(b, start, 0);
    assert c.used == d.used && c.kind == d.kind && c.head == d.head && c.slabs == d.slabs && c.free == d.free;
    assert z.used == b.used && z.kind == b.kind && z.head == b.head && z.slabs == b.slabs && z.free == b.free;
  }

  /** Pages without live blocks may be released. */
  lemma ReleasingKeepsInv(b: Books, m: seq<Byte>, start: nat, count: nat)
    requires Sized(b) && |m| == HEAP_SIZE && start + count <= HEAP_PAGE_COUNT
    requires forall p: nat :: p < HEAP_PAGE_COUNT && !(start <= p < start + count) ==> PageOk(b, m, p)
    requires forall off :: off in b.live ==> BlockOk(b, m, off)
    requires forall off, p: nat :: off in b.live && start <= p < start + count ==> !b.live[off].Owns(p)
    requires OnePerRun(b.live)
    requires forall p: nat :: p < HEAP_PAGE_COUNT && !(start <= p < start + count) && b.kind[p] == SlabOwned ==>
               b.slabs[p].inUse >= 1
    ensures Inv(PagesReleased(b, start, count), m, NO_PAGE)
  {
    var b' := PagesReleased(b, start, count);
    forall p: nat | p < HEAP_PAGE_COUNT
      ensures PageOk(b', m, p)
    {
      if !(start <= p < start + count) {
        assert PageOk(b, m, p);
        PageStays(b, b', m, m, p);
      }
    }
    forall off | off in b'.live
      ensures BlockOk(b', m, off)
    {
      assert BlockOk(b, m, off);
      ReleaseSparesBlock(b, m, start, count, off);
      BlockStays(b, b', m, m, off);
    }
  }

  lemma ReleaseSparesBlock(b: Books, m: seq<Byte>, start: nat, count: nat, off: nat)
    requires Sized(b) && |m| == HEAP_SIZE && start + count <= HEAP_PAGE_COUNT
    requires off in b.live && BlockOk(b, m, off)
    requires forall p: nat :: start <= p < start + count ==> !b.live[off].Owns(p)
    ensures BlockBacked(b, PagesReleased(b, start, count), m, m, off)
  {
    var b' := PagesReleased(b, start, count);
    match b.live[off]
    case Small(p, _, _) =>
      assert b.live[off].Owns(p);
    case Large(h, n, _) =>
      forall p | h <= p < h + n
        ensures b'.kind[p] == b.kind[p] && b'.head[p] == b.head[p]
      {
        assert b.live[off].Owns(p);
      }
  }

  /** A slab page with no object in use may be reclaimed. */
  lemma ReclaimingKeepsInv(b: Books, m: seq<Byte>, p: nat)
    requires Inv(b, m, p) && p < HEAP_PAGE_COUNT && b.kind[p] == SlabOwned && b.slabs[p].inUse == 0
    ensures Inv(PagesReleased(b, p, 1), m, NO_PAGE)
  {
    assert PageOk(b, m, p);
    Pigeonhole(b.free[p], b.slabs[p].capacity);
    forall off | off in b.live
      ensures !b.live[off].Owns(p)
    {
      assert BlockOk(b, m, off);
    }
    ReleasingKeepsInv(b, m, p, 1);
  }

  /** Freeing a live run releases its pages. */
  lemma FreeingRunKeepsInv(b: Books, m: seq<Byte>, off: nat)
    requires Inv(b, m, NO_PAGE) && off in b.live && b.live[off].Large?
    ensures b.live[off].page + b.live[off].pages <= HEAP_PAGE_COUNT
    ensures Inv(PagesReleased(b.(live := b.live - {off}), b.live[off].page, b.live[off].pages), m, NO_PAGE)
  {
    var h, n := b.live[off].page, b.live[off].pages;
    var b1 := b.(live := b.live - {off});
    assert BlockOk(b, m, off);
    forall p: nat | p < HEAP_PAGE_COUNT && !(h <= p < h + n)
      ensures PageOk(b1, m, p)
    {
      assert PageOk(b, m, p);
      if b.kind[p] == SlabOwned {
        UntouchedLinks(b, m, m, p);
      }
      PageStays(b, b1, m, m, p);
    }
    forall o | o in b1.live
      ensures BlockOk(b1, m, o)
    {
      assert BlockOk(b, m, o);
      BlockStays(b, b1, m, m, o);
    }
    forall o, p: nat | o in b1.live && h <= p < h + n
      ensures !b1.live[o].Owns(p)
    {
      OtherRunsElsewhere(b, m, off, o, p);
    }
    ReleasingKeepsInv(b1, m, h, n);
  }

  lemma OtherRunsElsewhere(b: Books, m: seq<Byte>, off: nat, o: nat, p: nat)
    requires Inv(b, m, NO_PAGE) && off in b.live && b.live[off].Large? && b.live[off].Owns(p)
    requires o in b.live && o != off
    ensures !b.live[o].Owns(p)
  {
    assert BlockOk(b, m, off) && BlockOk(b, m, o);
    assert b.kind[p] == LargeOwned && b.head[p] == b.live[off].page;
  }

  // ---- taking a run ----

  ghost function RunTaken(b: Books, h: nat, n: nat, off: nat, size: nat): Books {
    b.(used := WithRun(b.used, h, n, true), kind := WithRun(b.kind, h, n, LargeOwned), head := WithRun(b.head, h, n, h),
       live := b.live[off := Large(h, n, size)])
  }

  lemma TakingRunKeepsInv(b: Books, m: seq<Byte>, m': seq<Byte>, h: nat, n: nat, off: nat, size: nat)
    requires Inv(b, m, NO_PAGE) && n >= 1 && h + n <= HEAP_PAGE_COUNT && size >= 1
    requires forall p :: h <= p < h + n ==> b.kind[p] == FreePage
    requires |m'| == |m| && HeaderIs(m', h * PAGE_SIZE, n)
    requires forall k :: 0 <= k < |m| && !(h * PAGE_SIZE <= k < h * PAGE_SIZE + HEADER_SIZE) ==> m'[k] == m[k]
    requires h * PAGE_SIZE + HEADER_SIZE <= off && off + size <= (h + n) * PAGE_SIZE
    ensures off !in b.live
    ensures Inv(RunTaken(b, h, n, off, size), m', NO_PAGE)
  {
    var b' := RunTaken(b, h, n, off, size);
    FreePagesHoldNothing(b, m, h, n);
    hide SlabOk, HeaderIs, ObjectAt, ClassSize, Capacity;
    forall p: nat | p < HEAP_PAGE_COUNT
      ensures PageOk(b', m', p)
    {
      assert PageOk(b, m, p);
      if h <= p < h + n {
        assert InRun(b', off, p);
      } else {
        RunSparesPage(b, m, m', h, n, off, size, p);
      }
    }
    forall o | o in b'.live
      ensures BlockOk(b', m', o)
    {
      if o != off {
        RunSparesBlock(b, m, m', h, n, off, size, o);
      }
    }
  }

  lemma RunSparesPage(b: Books, m: seq<Byte>, m': seq<Byte>, h: nat, n: nat, off: nat, size: nat, p: nat)
    requires Shape(b, m) && n >= 1 && h + n <= HEAP_PAGE_COUNT && |m'| == |m| && off !in b.live
    requires forall k :: 0 <= k < |m| && !(h * PAGE_SIZE <= k < h * PAGE_SIZE + HEADER_SIZE) ==> m'[k] == m[k]
    requires p < HEAP_PAGE_COUNT && !(h <= p < h + n) && PageOk(b, m, p)
    ensures PageOk(RunTaken(b, h, n, off, size), m', p)
  {
    var b' := RunTaken(b, h, n, off, size);
    if b.kind[p] == SlabOwned {
      UntouchedLinks(b, m, m', p);
    }
    PageStays(b, b', m, m', p);
  }

  /** No live block starts in, or owns, a free page. */
  lemma FreePagesHoldNothing(b: Books, m: seq<Byte>, h: nat, n: nat)
    requires Inv(b, m, NO_PAGE) && h + n <= HEAP_PAGE_COUNT
    requires forall p :: h <= p < h + n ==> b.kind[p] == FreePage
    ensures forall o, p: nat :: o in b.live && h <= p < h + n ==> !b.live[o].Owns(p)
    ensures forall o :: o in b.live ==> !(h * PAGE_SIZE <= o < (h + n) * PAGE_SIZE)
  {
    forall o | o in b.live
      ensures !(h * PAGE_SIZE <= o < (h + n) * PAGE_SIZE)
      ensures forall p: nat :: h <= p < h + n ==> !b.live[o].Owns(p)
    {
      assert BlockOk(b, m, o);
      BlockAvoidsFreePages(b, m, h, n, o);
    }
  }

  lemma BlockAvoidsFreePages(b: Books, m: seq<Byte>, h: nat, n: nat, o: nat)
    requires Shape(b, m) && o in b.live && BlockOk(b, m, o) && h + n <= HEAP_PAGE_COUNT
    requires forall p :: h <= p < h + n ==> b.kind[p] == FreePage
    ensures !(h * PAGE_SIZE <= o < (h + n) * PAGE_SIZE)
    ensures forall p: nat :: h <= p < h + n ==> !b.live[o].Owns(p)
  {
    Confined(b, m, o);
    hide ObjectAt, ClassSize, Capacity, HeaderIs;
    match b.live[o]
    case Small(p, _, _) =>
      assert !(h <= p < h + n);
    case Large(g, k, _) =>
      assert b.kind[g] == LargeOwned;
      if n > 0 {
        assert b.kind[h] == FreePage;
      }
  }

  lemma RunSparesBlock(b: Books, m: seq<Byte>, m': seq<Byte>, h: nat, n: nat, off: nat, size: nat, o: nat)
    requires Inv(b, m, NO_PAGE) && n >= 1 && h + n <= HEAP_PAGE_COUNT && |m'| == |m|
    requires forall p :: h <= p < h + n ==> b.kind[p] == FreePage
    requires forall k :: 0 <= k < |m| && !(h * PAGE_SIZE <= k < h * PAGE_SIZE + HEADER_SIZE) ==> m'[k] == m[k]
    requires o in b.live && o != off
    requires forall p: nat :: h <= p < h + n ==> !b.live[o].Owns(p)
    ensures BlockOk(RunTaken(b, h, n, off, size), m', o)
  {
    var b' := RunTaken(b, h, n, off, size);
    assert BlockOk(b, m, o);
    hide FreeList, ObjectAt, ClassSize, Capacity, HeaderIs;
    match b.live[o]
    case Small(p, _, _) =>
      assert b.live[o].Owns(p);
    case Large(g, k, _) =>
      forall p | g <= p < g + k
        ensures b'.kind[p] == b.kind[p] && b'.head[p] == b.head[p]
      {
        assert b.live[o].Owns(p);
      }
      assert b.live[o].Owns(g);
    BlockStays(b, b', m, m', o);
  }

  // ---- freeing undoes allocating ----

  /** There is a block at `off`, and its slab page, if it is in one, counts it. */
  ghost predicate Freeable(b: Books, off: nat) {
    && Sized(b) && off in b.live
    && (b.live[off].Small? ==> b.live[off].page < HEAP_PAGE_COUNT && b.slabs[b.live[off].page].inUse > 0)
  }

  /** What freeing the live block at `off` makes of the tables. */
  ghost function Freed(b: Books, off: nat): Books
    requires Freeable(b, off)
  {
    match b.live[off]
    case Small(p, _, _) =>
      var b1 := ObjectReturned(b, off);
      if b1.slabs[p].inUse == 0 then PagesReleased(b1, p, 1) else b1
    case Large(h, n, _) => PagesReleased(b.(live := b.live - {off}), h, n)
  }

  lemma FreePageFacts(b: Books, m: seq<Byte>, p: nat)
    requires Inv(b, m, NO_PAGE) && p < HEAP_PAGE_COUNT && b.kind[p] == FreePage
    ensures Sized(b) && |m| == HEAP_SIZE
    ensures !b.used[p] && b.head[p] == NO_HEAD && b.slabs[p] == EMPTY && b.free[p] == []
  {
    assert PageOk(b, m, p);
  }

  /** An object taken from a slab in use and given back: every table is as before. */
  lemma FreeingUndoesTaking(b: Books, m: seq<Byte>, p: nat, size: nat)
    requires Inv(b, m, NO_PAGE) && p < HEAP_PAGE_COUNT && b.kind[p] == SlabOwned && b.free[p] != []
    ensures Freed(ObjectTaken(b, p, size), ObjectAt(p * PAGE_SIZE, b.slabs[p].classIndex, b.free[p][0])) == b
  {
    assert PageOk(b, m, p);
    FreeObjectIsNew(b, m, NO_PAGE, p);
    var off := ObjectAt(p * PAGE_SIZE, b.slabs[p].classIndex, b.free[p][0]);
    hide ObjectAt, Capacity;
    var b1 := ObjectTaken(b, p, size);
    assert [b.free[p][0]] + b1.free[p] == b.free[p];
    assert b1.live - {off} == b.live;
    assert ObjectReturned(b1, off).slabs == b.slabs && ObjectReturned(b1, off).free == b.free;
  }

  /** An object of a page opened for it and given back: the page is free again and every table is as before. */
  lemma FreeingUndoesOpening(b: Books, m: seq<Byte>, p: nat, class_: nat, size: nat)
    requires Inv(b, m, NO_PAGE) && p < HEAP_PAGE_COUNT && b.kind[p] == FreePage && class_ < SLAB_CLASS_COUNT
    ensures SlabOpened(b, p, class_).free[p] != []
    ensures Freed(ObjectTaken(SlabOpened(b, p, class_), p, size), ObjectAt(p * PAGE_SIZE, class_, 0)) == b
  {
    hide Inv, ObjectAt, Capacity, ClassSize;
    FreePageFacts(b, m, p);
    FreePagesHoldNothing(b, m, p, 1);
    FreshList(class_);
    ObjectsTile(class_);
    ObjectInPage(p * PAGE_SIZE, class_, 0);
    var off := ObjectAt(p * PAGE_SIZE, class_, 0);
    var b1 := SlabOpened(b, p, class_);
    assert b1.free[p][0] == 0 && off !in b.live;
    var b2 := ObjectTaken(b1, p, size);
    assert b2.live - {off} == b.live;
    var b3 := PagesReleased(ObjectReturned(b2, off), p, 1);
    assert b3.used == b.used && b3.kind == b.kind && b3.head == b.head;
    assert b3.slabs == b.slabs && b3.free == b.free;
  }

  /** A run taken and given back: every table is as before. */
  lemma FreeingUndoesRun(b: Books, m: seq<Byte>, h: nat, n: nat, off: nat, size: nat)
    requires Inv(b, m, NO_PAGE) && h + n <= HEAP_PAGE_COUNT && off !in b.live
    requires forall p :: h <= p < h + n ==> b.kind[p] == FreePage
    ensures Freed(RunTaken(b, h, n, off, size), off) == b
  {
    forall p | h <= p < h + n
      ensures !b.used[p] && b.head[p] == NO_HEAD && b.slabs[p] == EMPTY && b.free[p] == []
    {
      assert PageOk(b, m, p);
    }
    var b1 := RunTaken(b, h, n, off, size);
    assert b1.live - {off} == b.live;
    var b2 := PagesReleased(b1.(live := b.live), h, n);
    assert b2.used == b.used && b2.kind == b.kind && b2.head == b.head;
    assert b2.slabs == b.slabs && b2.free == b.free;
  }

  // ---- the bytes clients wrote ----

  /** Every byte of every live block reads the same. */
  ghost predicate ClientBytesKept(live: map<nat, Block>, m: seq<Byte>, m': seq<Byte>) {
    |m'| == |m| && forall off, k :: off in live && off <= k < off + live[off].size && k < |m| ==> m'[k] == m[k]
  }

  lemma FreePagesHoldNoBytes(b: Books, m: seq<Byte>, m': seq<Byte>, h: nat, n: nat)
    requires Inv(b, m, NO_PAGE) && h + n <= HEAP_PAGE_COUNT && |m'| == |m|
    requires forall p :: h <= p < h + n ==> b.kind[p] == FreePage
    requires forall k :: 0 <= k < |m| && !(h * PAGE_SIZE <= k < (h + n) * PAGE_SIZE) ==> m'[k] == m[k]
    ensures ClientBytesKept(b.live, m, m')
  {
    forall off, k | off in b.live && off <= k < off + b.live[off].size && k < |m|
      ensures m'[k] == m[k]
    {
      assert BlockOk(b, m, off);
      Confined(b, m, off);
      BlockAvoidsFreePages(b, m, h, n, off);
      BytesAvoidFreePages(b, m, h, n, off);
    }
  }

  /** Not only does no block start in a free page, none reaches into one. */
  lemma BytesAvoidFreePages(b: Books, m: seq<Byte>, h: nat, n: nat, off: nat)
    requires Shape(b, m) && off in b.live && BlockOk(b, m, off) && h + n <= HEAP_PAGE_COUNT
    requires forall p: nat :: h <= p < h + n ==> !b.live[off].Owns(p)
    ensures n == 0 || off + b.live[off].size <= h * PAGE_SIZE || (h + n) * PAGE_SIZE <= off
  {
    Confined(b, m, off);
    match b.live[off]
    case Small(p, _, _) =>
      assert b.live[off].Owns(p);
    case Large(g, k, _) =>
      assert b.live[off].Owns(g);
      if n > 0 {
        assert !b.live[off].Owns(h);
      }
  }

  /** The link written into a returned object is in nobody else's block. */
  lemma ReturnKeepsBytes(b: Books, m: seq<Byte>, m': seq<Byte>, off: nat)
    requires Inv(b, m, NO_PAGE) && off in b.live && b.live[off].Small? && |m'| == |m|
    requires forall k :: 0 <= k < |m| && k != off && k != off + 1 ==> m'[k] == m[k]
    ensures ClientBytesKept(b.live - {off}, m, m')
  {
    forall o | o in b.live && o != off
      ensures o + b.live[o].size <= off || off + 2 <= o
    {
      OthersAvoidObject(b, m, off, o);
    }
  }

  lemma OthersAvoidObject(b: Books, m: seq<Byte>, off: nat, o: nat)
    requires Inv(b, m, NO_PAGE) && off in b.live && b.live[off].Small? && o in b.live && o != off
    ensures o + b.live[o].size <= off || off + 2 <= o
  {
    assert BlockOk(b, m, off) && BlockOk(b, m, o);
    var p, i := b.live[off].page, b.live[off].i;
    var class_ := b.slabs[p].classIndex;
    Confined(b, m, o);
    ObjectInPage(p * PAGE_SIZE, class_, i);
    ObjectsTile(class_);
    match b.live[o]
    case Small(q, j, _) =>
      if q == p {
        ObjectsDisjoint(p * PAGE_SIZE, class_, i, j);
      }
    case Large(h, n, _) =>
      assert !(h <= p < h + n);
  }

  /** What the invariant says of a slab page. */
  lemma SlabFacts(b: Books, m: seq<Byte>, e: nat, p: nat)
    requires Inv(b, m, e) && p < HEAP_PAGE_COUNT && b.kind[p] == SlabOwned
    ensures var s := b.slabs[p];
            && s.active && s.classIndex < SLAB_CLASS_COUNT && s.inUse + |b.free[p]| == s.capacity <= 256
            && s.capacity == Capacity(s.classIndex)
            && FreeList(m, p * PAGE_SIZE, s.classIndex, s.freeHead, b.free[p]) && b.head[p] == p
  {
    assert PageOk(b, m, p);
    ObjectsTile(b.slabs[p].classIndex);
  }

  /** A page is free in one table exactly if it is in the other. */
  lemma FreeBitMeansFreeKind(b: Books, m: seq<Byte>, p: nat)
    requires Inv(b, m, NO_PAGE) && p < HEAP_PAGE_COUNT
    ensures b.used[p] <==> b.kind[p] != FreePage
  {
    assert PageOk(b, m, p);
  }

  // ---- what an allocation does ----

  /** Slab page `p` serves this class and has a free object. */
  ghost predicate Room(b: Books, p: nat, class_: nat)
    requires Sized(b)
  {
    p < HEAP_PAGE_COUNT && b.kind[p] == SlabOwned && b.slabs[p].classIndex == class_ && b.free[p] != []
  }

  /** Took the first free object of the first page with room. */
  ghost predicate TookObject(b: Books, b': Books, p: nat, class_: nat, size: nat, off: nat)
    requires Sized(b)
  {
    && Room(b, p, class_) && (forall q: nat :: q < p ==> !Room(b, q, class_))
    && off == ObjectAt(p * PAGE_SIZE, class_, b.free[p][0]) && b' == ObjectTaken(b, p, size)
  }

  /** No page had room: made the first free page a slab and took its first object. */
  ghost predicate TookPage(b: Books, b': Books, p: nat, class_: nat, size: nat, off: nat)
    requires Sized(b)
  {
    && class_ < SLAB_CLASS_COUNT && LeastRun(b.used, p, 1) && (forall q: nat :: !Room(b, q, class_))
    && SlabOpened(b, p, class_).free[p] != []
    && off == ObjectAt(p * PAGE_SIZE, class_, 0) && b' == ObjectTaken(SlabOpened(b, p, class_), p, size)
  }

  /** Took the first run of `n` free pages. */
  ghost predicate TookRun(b: Books, b': Books, h: nat, n: nat, size: nat, off: nat)
    requires Sized(b)
  {
    && n >= 1 && LeastRun(b.used, h, n) && b' == RunTaken(b, h, n, off, size)
    && h * PAGE_SIZE + HEADER_SIZE <= off && off + size <= (h + n) * PAGE_SIZE
  }

  /** `count` free pages from `start`, and no such run before it. */
  ghost predicate LeastRun(used: seq<bool>, start: nat, count: nat) {
    RunIs(used, start, count, false) && forall s: nat :: s < start ==> !RunIs(used, s, count, false)
  }

  /** All that opening a slab on a free page does. */
  lemma SlabIsOpen(b: Books, m: seq<Byte>, m': seq<Byte>, p: nat, class_: nat)
    requires Inv(b, m, NO_PAGE) && p < HEAP_PAGE_COUNT && !b.used[p] && class_ < SLAB_CLASS_COUNT
    requires |m'| == |m| && FreeList(m', p * PAGE_SIZE, class_, 0, AllObjects(Capacity(class_)))
    requires forall k :: 0 <= k < |m| && !(p * PAGE_SIZE <= k < p * PAGE_SIZE + PAGE_SIZE) ==> m'[k] == m[k]
    ensures Inv(SlabOpened(b, p, class_), m', p)
    ensures ClientBytesKept(b.live, m, m')
  {
    hide Inv, FreeList, ClientBytesKept, SlabOpened;
    FreeBitMeansFreeKind(b, m, p);
    OpeningKeepsInv(b, m, m', p, class_);
    FreePagesHoldNoBytes(b, m, m', p, 1);
  }

  /** A page kind and a free list head show whether a page has room. */
  lemma RoomShown(b: Books, m: seq<Byte>, p: nat, class_: nat)
    requires Inv(b, m, NO_PAGE) && p < HEAP_PAGE_COUNT && class_ < SLAB_CLASS_COUNT
    ensures Room(b, p, class_) <==>
            && b.kind[p] == SlabOwned && b.slabs[p].active && b.slabs[p].classIndex == class_
            && b.slabs[p].HasFreeObjects()
  {
    if b.kind[p] == SlabOwned {
      SlabFacts(b, m, NO_PAGE, p);
      HeadShowsEmptiness(m, p * PAGE_SIZE, b.slabs[p].classIndex, b.slabs[p].freeHead, b.free[p]);
    }
  }

  /** Pages a request of this size and alignment needs, header included. */
  function PagesFor(size: nat, align: nat): nat {
    (size + align + HEADER_SIZE + (PAGE_SIZE - 1)) / PAGE_SIZE
  }

  /** They hold header, block and any gap in front of it, and one fewer does not. */
  lemma PagesAreJustEnough(size: nat, align: nat)
    requires align >= 1
    ensures var n := PagesFor(size, align);
            n >= 1 && (n - 1) * PAGE_SIZE < HEADER_SIZE + align + size <= n * PAGE_SIZE
  {
  }

  /** Where the block goes in a run: behind the header, aligned, and with room to the end. */
  lemma RunHasRoom(base: nat, h: nat, size: nat, align: nat)
    requires align >= 1
    ensures var n := PagesFor(size, align);
            var address := RoundUp(base + h * PAGE_SIZE + HEADER_SIZE, align);
            && base + h * PAGE_SIZE + HEADER_SIZE <= address && address + size <= base + (h + n) * PAGE_SIZE
            && n >= 1
  {
  }

  /** All that taking a run does. */
  lemma RunIsTaken(b: Books, m: seq<Byte>, m': seq<Byte>, h: nat, n: nat, off: nat, size: nat)
    requires Inv(b, m, NO_PAGE) && n >= 1 && RunIs(b.used, h, n, false) && size >= 1
    requires |m'| == |m| && HeaderIs(m', h * PAGE_SIZE, n)
    requires forall k :: 0 <= k < |m| && !(h * PAGE_SIZE <= k < h * PAGE_SIZE + HEADER_SIZE) ==> m'[k] == m[k]
    requires h * PAGE_SIZE + HEADER_SIZE <= off && off + size <= (h + n) * PAGE_SIZE
    ensures off !in b.live && Inv(RunTaken(b, h, n, off, size), m', NO_PAGE)
    ensures ClientBytesKept(b.live, m, m')
  {
    forall p | h <= p < h + n
      ensures b.kind[p] == FreePage
    {
      FreeBitMeansFreeKind(b, m, p);
    }
    TakingRunKeepsInv(b, m, m', h, n, off, size);
    FreePagesHoldNoBytes(b, m, m', h, n);
  }

  /** What a request of this size and alignment makes of the tables when it is granted. */
  ghost predicate Allocated(b: Books, b': Books, size: nat, align: nat, off: nat)
    requires Sized(b)
  {
    var class_ := ClassFor(size, align);
    if class_ < SLAB_CLASS_COUNT then
      exists p: nat :: TookObject(b, b', p, class_, size, off) || TookPage(b, b', p, class_, size, off)
    else
      exists h: nat :: TookRun(b, b', h, PagesFor(size, align), size, off)
  }

  /** There is something to grant the request from. */
  ghost predicate Satisfiable(b: Books, size: nat, align: nat)
    requires Sized(b)
  {
    var class_ := ClassFor(size, align);
    && size >= 1
    && if class_ < SLAB_CLASS_COUNT then
         exists p: nat :: p < HEAP_PAGE_COUNT && (Room(b, p, class_) || !b.used[p])
       else
         exists h: nat :: RunIs(b.used, h, PagesFor(size, align), false)
  }

  lemma GrantedWasSatisfiable(b: Books, b': Books, size: nat, align: nat, off: nat)
    requires Sized(b) && size >= 1 && Allocated(b, b', size, align, off)
    ensures Satisfiable(b, size, align)
  {
    var class_ := ClassFor(size, align);
    if class_ < SLAB_CLASS_COUNT {
      var p: nat :| TookObject(b, b', p, class_, size, off) || TookPage(b, b', p, class_, size, off);
      assert Room(b, p, class_) || !b.used[p];
    } else {
      var h: nat :| TookRun(b, b', h, PagesFor(size, align), size, off);
    }
  }

  /** A granted request adds exactly one block, of the size asked for; freeing it restores every table. */
  lemma GrantAddsOneBlock(b: Books, m: seq<Byte>, b': Books, size: nat, align: nat, off: nat)
    requires Inv(b, m, NO_PAGE) && Allocated(b, b', size, align, off) && size >= 1
    ensures off !in b.live && off in b'.live && b'.live == b.live[off := b'.live[off]] && b'.live[off].size == size
    ensures Freeable(b', off) && Freed(b', off) == b
  {
    var class_ := ClassFor(size, align);
    if class_ < SLAB_CLASS_COUNT {
      var p: nat :| TookObject(b, b', p, class_, size, off) || TookPage(b, b', p, class_, size, off);
      if TookObject(b, b', p, class_, size, off) {
        GrantedObject(b, m, b', p, class_, size, off);
      } else {
        GrantedPage(b, m, b', p, class_, size, off);
      }
    } else {
      var h: nat :| TookRun(b, b', h, PagesFor(size, align), size, off);
      GrantedRun(b, m, b', h, PagesFor(size, align), size, off);
    }
  }

  lemma GrantedObject(b: Books, m: seq<Byte>, b': Books, p: nat, class_: nat, size: nat, off: nat)
    requires Inv(b, m, NO_PAGE) && TookObject(b, b', p, class_, size, off)
    ensures off !in b.live && b'.live == b.live[off := Small(p, b.free[p][0], size)]
    ensures Freeable(b', off) && Freed(b', off) == b
  {
    FreeObjectIsNew(b, m, NO_PAGE, p);
    FreeingUndoesTaking(b, m, p, size);
  }

  lemma GrantedPage(b: Books, m: seq<Byte>, b': Books, p: nat, class_: nat, size: nat, off: nat)
    requires Inv(b, m, NO_PAGE) && TookPage(b, b', p, class_, size, off)
    ensures off !in b.live && b'.live == b.live[off := Small(p, 0, size)]
    ensures Freeable(b', off) && Freed(b', off) == b
  {
    FreeBitMeansFreeKind(b, m, p);
    FreePagesHoldNothing(b, m, p, 1);
    ObjectInPage(p * PAGE_SIZE, class_, 0);
    ObjectsTile(class_);
    FreshList(class_);
    FreeingUndoesOpening(b, m, p, class_, size);
  }

  lemma GrantedRun(b: Books, m: seq<Byte>, b': Books, h: nat, n: nat, size: nat, off: nat)
    requires Inv(b, m, NO_PAGE) && TookRun(b, b', h, n, size, off) && size >= 1
    ensures off !in b.live && b'.live == b.live[off := Large(h, n, size)]
    ensures Freeable(b', off) && Freed(b', off) == b
  {
    forall p | h <= p < h + n
      ensures b.kind[p] == FreePage
    {
      FreeBitMeansFreeKind(b, m, p);
    }
    FreePagesHoldNothing(b, m, h, n);
    FreeingUndoesRun(b, m, h, n, off, size);
  }

  /** An object's address is aligned to every power of two up to its size. */
  lemma ObjectAligned(base: nat, p: nat, class_: nat, i: nat, align: nat)
    requires base % PAGE_SIZE == 0 && class_ < SLAB_CLASS_COUNT && IsPow2(align) && align <= ClassSize(class_)
    ensures (base + ObjectAt(p * PAGE_SIZE, class_, i)) % align == 0
  {
    var c := ClassSize(class_);
    ClassIsPow2(class_);
    Pow2Divides(align, c);
    MultipleOf(base, PAGE_SIZE, c);
    MultipleOf(p * PAGE_SIZE, PAGE_SIZE, c);
    var inPage := i * c;
    assert inPage % c == 0 by {
      QuotientIs(inPage, c, i, 0);
    }
    SumOfMultiples(p * PAGE_SIZE, inPage, c);
    SumOfMultiples(base, p * PAGE_SIZE + inPage, c);
    MultipleOf(base + (p * PAGE_SIZE + inPage), c, align);
  }

  lemma ClassIsPow2(class_: nat)
    requires class_ < SLAB_CLASS_COUNT
    ensures IsPow2(ClassSize(class_)) && PAGE_SIZE % ClassSize(class_) == 0
  {
    assert IsPow2(2) && IsPow2(4) && IsPow2(8) && IsPow2(16) && IsPow2(32) && IsPow2(64);
    assert IsPow2(128) && IsPow2(256) && IsPow2(512) && IsPow2(1024) && IsPow2(2048);
  }

  /** All that returning an object does, short of reclaiming its page. */
  lemma ObjectIsReturned(b: Books, m: seq<Byte>, off: nat)
    requires Inv(b, m, NO_PAGE) && off in b.live && b.live[off].Small?
    ensures Freeable(b, off)
    ensures var p, i := b.live[off].page, b.live[off].i;
            var s := b.slabs[p];
            && b.kind[p] == SlabOwned && b.head[p] == p
            && s.active && s.classIndex < SLAB_CLASS_COUNT && s.capacity == Capacity(s.classIndex)
            && FreeList(m, p * PAGE_SIZE, s.classIndex, s.freeHead, b.free[p])
            && IsObject(p * PAGE_SIZE, s.classIndex, off) && ObjectNumber(p * PAGE_SIZE, s.classIndex, off) == i
            && i !in b.free[p] && s.inUse > 0
  {
    assert BlockOk(b, m, off);
    var p, i := b.live[off].page, b.live[off].i;
    SlabFacts(b, m, NO_PAGE, p);
    OffsetOfObject(p * PAGE_SIZE, b.slabs[p].classIndex, i);
  }

  /** What holds once the object is linked in again. */
  lemma ReturnIsSafe(b: Books, m: seq<Byte>, m': seq<Byte>, off: nat)
    requires Inv(b, m, NO_PAGE) && off in b.live && b.live[off].Small? && Freeable(b, off) && off + 1 < |m|
    requires var p := b.live[off].page;
             && b.slabs[p].freeHead <= 0xFFFF && m' == WriteU16(m, off, b.slabs[p].freeHead)
             && FreeList(m', p * PAGE_SIZE, b.slabs[p].classIndex, b.live[off].i, [b.live[off].i] + b.free[p])
    ensures Inv(ObjectReturned(b, off), m', b.live[off].page)
    ensures ClientBytesKept(b.live - {off}, m, m')
    ensures ObjectReturned(b, off).slabs[b.live[off].page].inUse == 0 ==>
              Inv(PagesReleased(ObjectReturned(b, off), b.live[off].page, 1), m', NO_PAGE)
    ensures ObjectReturned(b, off).slabs[b.live[off].page].inUse > 0 ==> Inv(ObjectReturned(b, off), m', NO_PAGE)
  {
    var p := b.live[off].page;
    assert BlockOk(b, m, off);
    ObjectInPage(p * PAGE_SIZE, b.slabs[p].classIndex, b.live[off].i);
    ObjectsTile(b.slabs[p].classIndex);
    ReturningKeepsInv(b, m, m', off);
    ReturnKeepsBytes(b, m, m', off);
    var b1 := ObjectReturned(b, off);
    if b1.slabs[p].inUse == 0 {
      ReclaimingKeepsInv(b1, m', p);
    }
  }

  lemma SmallGrantAligned(base: nat, b: Books, b': Books, size: nat, align: nat, off: nat)
    requires Sized(b) && base % PAGE_SIZE == 0 && IsPow2(align)
    requires ClassFor(size, align) < SLAB_CLASS_COUNT && Allocated(b, b', size, align, off)
    ensures (base + off) % align == 0
  {
    var class_ := ClassFor(size, align);
    var p: nat :| TookObject(b, b', p, class_, size, off) || TookPage(b, b', p, class_, size, off);
    var i := if Room(b, p, class_) then b.free[p][0] else 0;
    ObjectAligned(base, p, class_, i, align);
  }

  /** Without a free page there is no run. */
  lemma NoPageNoRun(used: seq<bool>, count: nat)
    requires count >= 1 && forall p: nat :: p < |used| ==> used[p]
    ensures forall s: nat :: !RunIs(used, s, count, false)
  {
    forall s: nat
      ensures !RunIs(used, s, count, false)
    {
      assert s < |used| ==> used[s];
    }
  }

  /** The page an address lies in leads to the block that starts there. */
  lemma PageOfAddress(b: Books, m: seq<Byte>, off: nat, page: nat)
    requires Inv(b, m, NO_PAGE) && off < HEAP_SIZE && page == off / PAGE_SIZE
    ensures page < HEAP_PAGE_COUNT
    ensures off in b.live ==> b.kind[page] != FreePage
    ensures off in b.live ==> (b.live[off].Small? <==> b.kind[page] == SlabOwned) && b.head[page] == b.live[off].page
  {
    if off in b.live {
      assert BlockOk(b, m, off);
      HomePage(b, m, off, page);
      assert PageOk(b, m, page);
    }
  }

  lemma RunHeader(b: Books, m: seq<Byte>, off: nat)
    requires Inv(b, m, NO_PAGE) && off in b.live && b.live[off].Large?
    ensures var o := b.live[off].page * PAGE_SIZE;
            o + 7 < |m| && ReadU32(m, o) == LARGE_MAGIC && ReadU16(m, o + 4) == b.live[off].pages
    ensures Freeable(b, off)
  {
    assert BlockOk(b, m, off);
  }

  lemma BytesKeptTwice(live: map<nat, Block>, m: seq<Byte>, m1: seq<Byte>, m2: seq<Byte>)
    requires ClientBytesKept(live, m, m1) && ClientBytesKept(live, m1, m2)
    ensures ClientBytesKept(live, m, m2)
  {
  }
}
