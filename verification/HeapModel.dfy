/** The bookkeeping of the kernel heap as values: what must hold of it between calls, and what that means for the
    blocks clients hold. */
module HeapModel {
  import opened Bitmap
  import opened Bytes
  import opened Sizes
  import opened Slab

  const HEAP_PAGE_COUNT: nat := 1024
  const HEAP_SIZE: nat := 4194304
  const NO_HEAD: nat := 0xFFFF
  const NO_PAGE: nat := HEAP_PAGE_COUNT
  const LARGE_MAGIC: nat := 0x4E41_4655
  const HEADER_SIZE: nat := 8

  datatype PageKind = FreePage | SlabOwned | LargeOwned

  /** A block a client holds: an object of a slab page, or a run of whole pages. */
  datatype Block =
    | Small(page: nat, i: nat, size: nat)
    | Large(page: nat, pages: nat, size: nat)
  {
    predicate Owns(p: nat) {
      match this
      case Small(q, _, _) => p == q
      case Large(q, n, _) => q <= p < q + n
    }
  }

  /** The heap's tables, with the free list of every slab page and the live blocks by arena offset. */
  datatype Books = Books(used: seq<bool>, kind: seq<PageKind>, head: seq<nat>, slabs: seq<SlabPage>,
                         free: seq<seq<nat>>, live: map<nat, Block>)

  /** The header of a large run: magic, page count, a reserved zero. */
  ghost predicate HeaderIs(m: seq<Byte>, o: nat, pages: nat) {
    o + 7 < |m| && ReadU32(m, o) == LARGE_MAGIC && ReadU16(m, o + 4) == pages && ReadU16(m, o + 6) == 0
  }

  /** Object `i` of slab page `p` is held by a client. */
  ghost predicate Held(b: Books, p: nat, class_: nat, i: nat) {
    var off := ObjectAt(p * PAGE_SIZE, class_, i);
    off in b.live && b.live[off].Small? && b.live[off].page == p && b.live[off].i == i
  }

  ghost predicate Shape(b: Books, m: seq<Byte>) {
    && |b.used| == HEAP_PAGE_COUNT && |b.kind| == HEAP_PAGE_COUNT && |b.head| == HEAP_PAGE_COUNT
    && |b.slabs| == HEAP_PAGE_COUNT && |b.free| == HEAP_PAGE_COUNT && |m| == HEAP_SIZE
  }

  /** A slab page: its links form a list of the objects nobody holds. */
  ghost predicate SlabOk(b: Books, m: seq<Byte>, p: nat)
    requires Shape(b, m) && p < HEAP_PAGE_COUNT
  {
    var s := b.slabs[p];
    && b.used[p] && b.head[p] == p && s.active
    && FreeList(m, p * PAGE_SIZE, s.classIndex, s.freeHead, b.free[p])
    && s.capacity == Capacity(s.classIndex) && s.inUse + |b.free[p]| == s.capacity
    && forall i: nat {:trigger Held(b, p, s.classIndex, i)} ::
         i < s.capacity && i !in b.free[p] ==> Held(b, p, s.classIndex, i)
  }

  ghost predicate PageOk(b: Books, m: seq<Byte>, p: nat)
    requires Shape(b, m) && p < HEAP_PAGE_COUNT
  {
    match b.kind[p]
    case FreePage => !b.used[p] && b.head[p] == NO_HEAD && b.slabs[p] == EMPTY && b.free[p] == []
    case SlabOwned => SlabOk(b, m, p)
    case LargeOwned => b.used[p] && b.slabs[p] == EMPTY && b.free[p] == [] && exists off :: InRun(b, off, p)
  }

  /** The live block at `off` is a run that covers page `p`, and the page's owner. */
  ghost predicate InRun(b: Books, off: nat, p: nat)
    requires p < |b.head|
  {
    off in b.live && b.live[off].Large? && b.live[off].Owns(p) && b.head[p] == b.live[off].page
  }

  ghost predicate BlockOk(b: Books, m: seq<Byte>, off: nat)
    requires Shape(b, m) && off in b.live
  {
    b.live[off].size >= 1 &&
    match b.live[off]
    case Small(p, i, size) =>
      && p < HEAP_PAGE_COUNT && b.kind[p] == SlabOwned
      && var class_ := b.slabs[p].classIndex;
      && class_ < SLAB_CLASS_COUNT && i < Capacity(class_) && i !in b.free[p]
      && off == ObjectAt(p * PAGE_SIZE, class_, i) && size <= ClassSize(class_)
    case Large(h, n, size) =>
      && n >= 1 && h + n <= HEAP_PAGE_COUNT
      && (forall p :: h <= p < h + n ==> b.kind[p] == LargeOwned && b.head[p] == h)
      && HeaderIs(m, h * PAGE_SIZE, n)
      && h * PAGE_SIZE + HEADER_SIZE <= off && off + size <= (h + n) * PAGE_SIZE
  }

  /** A run of pages holds one block. */
  ghost predicate OnePerRun(live: map<nat, Block>) {
    forall o, q :: o in live && q in live && live[o].Large? && live[q].Large? && live[o].page == live[q].page ==> o == q
  }

  /** The invariant. While a slab page is being filled or emptied, that page may have no object in use. */
  ghost predicate Inv(b: Books, m: seq<Byte>, inTransition: nat) {
    && Shape(b, m)
    && (forall p: nat :: p < HEAP_PAGE_COUNT ==> PageOk(b, m, p))
    && (forall off :: off in b.live ==> BlockOk(b, m, off))
    && OnePerRun(b.live)
    && (forall p: nat :: p < HEAP_PAGE_COUNT && p != inTransition && b.kind[p] == SlabOwned ==> b.slabs[p].inUse >= 1)
  }

  // ---- what the invariant means for clients ----

  /** A block lies in its own pages, behind the header if it is a run. */
  lemma Confined(b: Books, m: seq<Byte>, off: nat)
    requires Shape(b, m) && off in b.live && BlockOk(b, m, off)
    ensures match b.live[off]
            case Small(p, _, size) => p * PAGE_SIZE <= off && off + size <= p * PAGE_SIZE + PAGE_SIZE
            case Large(h, n, size) => h * PAGE_SIZE + HEADER_SIZE <= off && off + size <= (h + n) * PAGE_SIZE
    ensures off + b.live[off].size <= HEAP_SIZE
  {
    match b.live[off]
    case Small(p, i, size) => ObjectInPage(p * PAGE_SIZE, b.slabs[p].classIndex, i);
    case Large(_, _, _) =>
  }

  /** Live blocks are inside the arena. */
  lemma LiveInArena(b: Books, m: seq<Byte>)
    requires Inv(b, m, NO_PAGE)
    ensures forall off :: off in b.live ==> 1 <= b.live[off].size <= HEAP_SIZE - off
  {
    forall off | off in b.live
      ensures 1 <= b.live[off].size <= HEAP_SIZE - off
    {
      assert BlockOk(b, m, off);
      Confined(b, m, off);
    }
  }

  /** The page a live block starts in knows its owner. */
  lemma HomePage(b: Books, m: seq<Byte>, off: nat, p: nat)
    requires Shape(b, m) && off in b.live && BlockOk(b, m, off)
    requires p < HEAP_PAGE_COUNT && p * PAGE_SIZE <= off < p * PAGE_SIZE + PAGE_SIZE
    ensures match b.live[off]
            case Small(q, _, _) => q == p && b.kind[p] == SlabOwned
            case Large(q, _, _) => b.kind[p] == LargeOwned && b.head[p] == q
    ensures b.live[off].Owns(p)
  {
    Confined(b, m, off);
  }

  /** Live blocks never overlap. */
  lemma BlocksApart(b: Books, m: seq<Byte>, e: nat, o: nat, q: nat)
    requires Inv(b, m, e) && o in b.live && q in b.live && o != q
    ensures o + b.live[o].size <= q || q + b.live[q].size <= o
  {
    Confined(b, m, o);
    Confined(b, m, q);
    match (b.live[o], b.live[q])
    case (Small(p, i, _), Small(r, j, _)) =>
      if p == r {
        ObjectsDisjoint(p * PAGE_SIZE, b.slabs[p].classIndex, i, j);
      }
    case (Small(p, _, _), Large(h, n, _)) =>
      assert !(h <= p < h + n);
    case (Large(h, n, _), Small(p, _, _)) =>
      assert !(h <= p < h + n);
    case (Large(h, n, _), Large(g, k, _)) =>
      assert b.head[g] == g && b.head[h] == h;
  }

  lemma ObjectsDisjoint(start: nat, class_: nat, i: nat, j: nat)
    requires class_ < SLAB_CLASS_COUNT && i != j
    ensures ObjectAt(start, class_, i) + ClassSize(class_) <= ObjectAt(start, class_, j)
            || ObjectAt(start, class_, j) + ClassSize(class_) <= ObjectAt(start, class_, i)
  {
    if i < j {
      ObjectsApart(start, class_, i, j);
    } else {
      ObjectsApart(start, class_, j, i);
    }
  }

  /** No live block touches the link of a free object. */
  lemma LinksApart(b: Books, m: seq<Byte>, e: nat, off: nat, p: nat, k: nat)
    requires Inv(b, m, e) && off in b.live
    requires p < HEAP_PAGE_COUNT && b.kind[p] == SlabOwned && k < |b.free[p]|
    ensures var link := ObjectAt(p * PAGE_SIZE, b.slabs[p].classIndex, b.free[p][k]);
            off + b.live[off].size <= link || link + 2 <= off
  {
    assert PageOk(b, m, p) && BlockOk(b, m, off);
    var class_, i := b.slabs[p].classIndex, b.free[p][k];
    Confined(b, m, off);
    ObjectInPage(p * PAGE_SIZE, class_, i);
    ObjectsTile(class_);
    match b.live[off]
    case Small(q, j, _) =>
      if p == q {
        ObjectsDisjoint(p * PAGE_SIZE, class_, i, j);
      }
    case Large(h, n, _) =>
      assert !(h <= p < h + n);
  }

  /** No live block touches the header of a live run, its own included. */
  lemma HeadersApart(b: Books, m: seq<Byte>, e: nat, off: nat, run: nat)
    requires Inv(b, m, e) && off in b.live && run in b.live && b.live[run].Large?
    ensures var header := b.live[run].page * PAGE_SIZE;
            off + b.live[off].size <= header || header + HEADER_SIZE <= off
  {
    assert BlockOk(b, m, run) && BlockOk(b, m, off);
    var h := b.live[run].page;
    Confined(b, m, off);
    match b.live[off]
    case Small(p, _, _) =>
      assert b.kind[h] == LargeOwned;
    case Large(g, k, _) =>
      assert g <= h < g + k ==> b.head[h] == g;
  }

  // ---- no page is lost ----

  ghost predicate Distinct(list: seq<nat>) {
    forall j, k :: 0 <= j < k < |list| ==> list[j] != list[k]
  }

  lemma {:induction false} DistinctCount(list: seq<nat>, s: set<nat>)
    requires Distinct(list) && forall k :: 0 <= k < |list| ==> list[k] in s
    ensures |list| <= |s|
  {
    if list != [] {
      var rest, last := list[..|list| - 1], list[|list| - 1];
      assert |s - {last}| == |s| - 1;
      DistinctCount(rest, s - {last});
    }
  }

  /** A list that has all numbers below `n` is at least `n` long. */
  lemma {:induction false} CoveringCount(list: seq<nat>, n: nat)
    requires forall i: nat :: i < n ==> i in list
    ensures |list| >= n
  {
    if n > 0 {
      var last: nat := n - 1;
      assert last in list;
      var k :| 0 <= k < |list| && list[k] == last;
      var rest := list[..k] + list[k + 1..];
      forall i: nat | i < last
        ensures i in rest
      {
        assert i in list;
        var j :| 0 <= j < |list| && list[j] == i;
        assert rest[if j < k then j else j - 1] == i;
      }
      CoveringCount(rest, last);
    }
  }

  function Below(n: nat): (s: set<nat>)
    ensures |s| == n
    ensures forall i: nat :: i in s <==> i < n
  {
    if n == 0 then {} else Below(n - 1) + {n - 1}
  }

  /** A list of `n` different numbers below `n` has them all, a shorter one misses one. */
  lemma Pigeonhole(list: seq<nat>, n: nat)
    requires Distinct(list) && forall k :: 0 <= k < |list| ==> list[k] < n
    ensures |list| == n ==> forall i: nat :: i < n ==> i in list
    ensures |list| < n ==> exists i: nat :: i < n && i !in list
  {
    if |list| == n {
      forall i: nat | i < n
        ensures i in list
      {
        if i !in list {
          DistinctCount(list, Below(n) - {i});
        }
      }
    }
    if forall i: nat :: i < n ==> i in list {
      CoveringCount(list, n);
    }
  }

  /** A page's bit is set exactly while a live block owns the page. */
  lemma BitMeansOwned(b: Books, m: seq<Byte>, p: nat)
    requires Inv(b, m, NO_PAGE) && p < HEAP_PAGE_COUNT
    ensures b.used[p] <==> exists off :: off in b.live && b.live[off].Owns(p)
  {
    assert PageOk(b, m, p);
    match b.kind[p]
    case FreePage =>
      forall off | off in b.live
        ensures !b.live[off].Owns(p)
      {
        assert BlockOk(b, m, off);
      }
    case SlabOwned =>
      var s := b.slabs[p];
      assert s.inUse >= 1;
      Pigeonhole(b.free[p], s.capacity);
      var i: nat :| i < s.capacity && i !in b.free[p];
      assert Held(b, p, s.classIndex, i);
      assert b.live[ObjectAt(p * PAGE_SIZE, s.classIndex, i)].Owns(p);
    case LargeOwned =>
      var off :| InRun(b, off, p);
      assert b.live[off].Owns(p);
  }

  /** When the last block is freed, every table is back to what initialisation made it. */
  lemma NothingLiveMeansEmpty(b: Books, m: seq<Byte>)
    requires Inv(b, m, NO_PAGE) && b.live == map[]
    ensures b == EmptyBooks()
  {
    forall p: nat | p < HEAP_PAGE_COUNT
      ensures !b.used[p] && b.kind[p] == FreePage && b.head[p] == NO_HEAD && b.slabs[p] == EMPTY && b.free[p] == []
    {
      BitMeansOwned(b, m, p);
      assert PageOk(b, m, p);
    }
    var e := EmptyBooks();
    assert b.used == e.used && b.kind == e.kind && b.head == e.head && b.slabs == e.slabs && b.free == e.free;
  }

  // ---- the steps keep the invariant ----

  /** Page `p` has the same entry in every table. */
  ghost predicate SamePage(b: Books, b': Books, p: nat)
    requires p < |b.used| == |b.kind| == |b.head| == |b.slabs| == |b.free|
    requires |b.used| == |b'.used| == |b'.kind| == |b'.head| == |b'.slabs| == |b'.free|
  {
    && b'.used[p] == b.used[p] && b'.kind[p] == b.kind[p] && b'.head[p] == b.head[p]
    && b'.slabs[p] == b.slabs[p] && b'.free[p] == b.free[p]
  }

  /** The blocks of page `p` are still there. */
  ghost predicate BlocksStay(b: Books, b': Books, p: nat) {
    forall off {:trigger b.live[off]} ::
      off in b.live && b.live[off].Owns(p) ==> off in b'.live && b'.live[off] == b.live[off]
  }

  /** The links of page `p` read the same. */
  ghost predicate LinksStay(b: Books, m: seq<Byte>, m': seq<Byte>, p: nat)
    requires Shape(b, m) && p < HEAP_PAGE_COUNT
  {
    |m'| == |m| && forall k {:trigger b.free[p][k]} :: 0 <= k < |b.free[p]| ==>
      var o := ObjectAt(p * PAGE_SIZE, b.slabs[p].classIndex, b.free[p][k]);
      o + 1 < |m| && m'[o] == m[o] && m'[o + 1] == m[o + 1]
  }

  lemma UntouchedLinks(b: Books, m: seq<Byte>, m': seq<Byte>, p: nat)
    requires Shape(b, m) && p < HEAP_PAGE_COUNT && b.kind[p] == SlabOwned && SlabOk(b, m, p)
    requires |m'| == |m| && forall k :: p * PAGE_SIZE <= k < p * PAGE_SIZE + PAGE_SIZE ==> m'[k] == m[k]
    ensures LinksStay(b, m, m', p)
  {
    var class_ := b.slabs[p].classIndex;
    forall k | 0 <= k < |b.free[p]|
      ensures var o := ObjectAt(p * PAGE_SIZE, class_, b.free[p][k]);
              o + 1 < |m| && m'[o] == m[o] && m'[o + 1] == m[o + 1]
    {
      ObjectInPage(p * PAGE_SIZE, class_, b.free[p][k]);
      ObjectsTile(class_);
    }
  }

  /** A page whose entries, links and blocks stay is still in order. */
  lemma PageStays(b: Books, b': Books, m: seq<Byte>, m': seq<Byte>, p: nat)
    requires Shape(b, m) && Shape(b', m') && p < HEAP_PAGE_COUNT && PageOk(b, m, p)
    requires SamePage(b, b', p) && BlocksStay(b, b', p)
    requires b.kind[p] == SlabOwned ==> LinksStay(b, m, m', p)
    ensures PageOk(b', m', p)
  {
    var s := b.slabs[p];
    match b.kind[p]
    case FreePage =>
    case SlabOwned =>
      SameLinks(m, m', p * PAGE_SIZE, s.classIndex, s.freeHead, b.free[p]);
      forall i: nat | i < s.capacity && i !in b.free[p]
        ensures Held(b', p, s.classIndex, i)
      {
        assert Held(b, p, s.classIndex, i);
        assert b.live[ObjectAt(p * PAGE_SIZE, s.classIndex, i)].Owns(p);
      }
    case LargeOwned =>
      var off :| InRun(b, off, p);
      assert b.live[off].Owns(p);
      assert InRun(b', off, p);
  }

  /** What a block relies on outside its own bytes. */
  ghost predicate BlockBacked(b: Books, b': Books, m: seq<Byte>, m': seq<Byte>, off: nat)
    requires Shape(b, m) && Shape(b', m') && off in b.live
  {
    match b.live[off]
    case Small(p, i, _) =>
      p < HEAP_PAGE_COUNT ==>
        && b'.kind[p] == b.kind[p] && b'.slabs[p].classIndex == b.slabs[p].classIndex
        && (i in b'.free[p] ==> i in b.free[p])
    case Large(h, n, _) =>
      h + n <= HEAP_PAGE_COUNT ==>
        && (forall p :: h <= p < h + n ==> b'.kind[p] == b.kind[p] && b'.head[p] == b.head[p])
        && forall k :: h * PAGE_SIZE <= k < h * PAGE_SIZE + HEADER_SIZE && k < HEAP_SIZE ==> m'[k] == m[k]
  }

  lemma BlockStays(b: Books, b': Books, m: seq<Byte>, m': seq<Byte>, off: nat)
    requires Shape(b, m) && Shape(b', m') && off in b.live && BlockOk(b, m, off)
    requires off in b'.live && b'.live[off] == b.live[off] && BlockBacked(b, b', m, m', off)
    ensures BlockOk(b', m', off)
  {
  }

  /** Clients may overwrite any bytes of a live block. */
  lemma WritesAreHarmless(b: Books, m: seq<Byte>, m': seq<Byte>, off: nat)
    requires Inv(b, m, NO_PAGE) && off in b.live && |m'| == |m|
    requires forall k :: 0 <= k < |m| && !(off <= k < off + b.live[off].size) ==> m'[k] == m[k]
    ensures Inv(b, m', NO_PAGE)
  {
    forall p: nat | p < HEAP_PAGE_COUNT
      ensures PageOk(b, m', p)
    {
      assert PageOk(b, m, p);
      if b.kind[p] == SlabOwned {
        WriteSparesLinks(b, m, m', off, p);
      }
      PageStays(b, b, m, m', p);
    }
    forall o | o in b.live
      ensures BlockOk(b, m', o)
    {
      assert BlockOk(b, m, o);
      if b.live[o].Large? {
        HeadersApart(b, m, NO_PAGE, off, o);
      }
      BlockStays(b, b, m, m', o);
    }
  }

  lemma WriteSparesLinks(b: Books, m: seq<Byte>, m': seq<Byte>, off: nat, p: nat)
    requires Inv(b, m, NO_PAGE) && off in b.live && |m'| == |m|
    requires forall k :: 0 <= k < |m| && !(off <= k < off + b.live[off].size) ==> m'[k] == m[k]
    requires p < HEAP_PAGE_COUNT && b.kind[p] == SlabOwned
    ensures LinksStay(b, m, m', p)
  {
    assert PageOk(b, m, p);
    var class_ := b.slabs[p].classIndex;
    forall k | 0 <= k < |b.free[p]|
      ensures var o := ObjectAt(p * PAGE_SIZE, class_, b.free[p][k]);
              o + 1 < |m| && m'[o] == m[o] && m'[o + 1] == m[o + 1]
    {
      LinksApart(b, m, NO_PAGE, off, p, k);
      ObjectInPage(p * PAGE_SIZE, class_, b.free[p][k]);
      ObjectsTile(class_);
    }
  }

  // ---- the empty heap ----

  ghost function EmptyBooks(): Books {
    Books(seq(HEAP_PAGE_COUNT, _ => false), seq(HEAP_PAGE_COUNT, _ => FreePage), seq(HEAP_PAGE_COUNT, _ => NO_HEAD),
          seq(HEAP_PAGE_COUNT, _ => EMPTY), seq(HEAP_PAGE_COUNT, _ => []), map[])
  }

  lemma EmptyInv(m: seq<Byte>)
    requires |m| == HEAP_SIZE
    ensures Inv(EmptyBooks(), m, NO_PAGE)
  {
  }
}
