/** Slab pages: objects of one size, the free ones linked through their first two bytes. */
module Slab {
  import opened Bytes
  import opened Division
  import opened Sizes

  const SLAB_CLASS_COUNT: nat := 8
  const FREE_LIST_END: nat := 0xFFFF

  datatype SlabPage = SlabPage(active: bool, classIndex: nat, freeHead: nat, inUse: nat, capacity: nat) {
    predicate HasFreeObjects() {
      active && freeHead != FREE_LIST_END
    }

    predicate IsEmpty() {
      active && inUse == 0
    }
  }

  const EMPTY := SlabPage(false, 0, FREE_LIST_END, 0, 0)

  function ClassSize(index: nat): nat {
    match index
    case 0 => 16
    case 1 => 32
    case 2 => 64
    case 3 => 128
    case 4 => 256
    case 5 => 512
    case 6 => 1024
    case 7 => 2048
    case _ => 0
  }

  function Max(a: nat, b: nat): nat {
    if a >= b then a else b
  }

  /** The smallest class with room for the request, `SLAB_CLASS_COUNT` if there is none. */
  method ClassIndexFor(size: nat, align: nat) returns (index: nat)
    ensures index == ClassFor(size, align)
  {
    var required := Max(Max(size, align), 2);
    index := 0;
    while index < SLAB_CLASS_COUNT
      invariant 0 <= index <= SLAB_CLASS_COUNT
      invariant forall k :: 0 <= k < index ==> ClassSize(k) < required
    {
      if required <= ClassSize(index) {
        return;
      }
      index := index + 1;
    }
  }

  /** The same as a function of the request. */
  function ClassFor(size: nat, align: nat): (index: nat)
    ensures index <= SLAB_CLASS_COUNT
    ensures index < SLAB_CLASS_COUNT ==> size <= ClassSize(index) && align <= ClassSize(index)
    ensures forall k :: 0 <= k < index ==> size > ClassSize(k) || align > ClassSize(k)
  {
    var required := Max(Max(size, align), 2);
    if required <= 16 then 0 else if required <= 32 then 1 else if required <= 64 then 2
    else if required <= 128 then 3 else if required <= 256 then 4 else if required <= 512 then 5
    else if required <= 1024 then 6 else if required <= 2048 then 7 else 8
  }

  /** The sizes double from 16 to 2048 bytes. */
  lemma ClassSizesDouble(k: nat)
    requires k < SLAB_CLASS_COUNT
    ensures ClassSize(0) == 16 && ClassSize(SLAB_CLASS_COUNT - 1) == 2048
    ensures k > 0 ==> ClassSize(k) == 2 * ClassSize(k - 1)
  {
  }

  function Capacity(index: nat): nat
    requires index < SLAB_CLASS_COUNT
  {
    PAGE_SIZE / ClassSize(index)
  }

  /** Objects tile the page. */
  lemma ObjectsTile(index: nat)
    requires index < SLAB_CLASS_COUNT
    ensures Capacity(index) * ClassSize(index) == PAGE_SIZE
    ensures 2 <= Capacity(index) <= 256 && 16 <= ClassSize(index)
  {
  }

  // ---- links ----

  /** Byte offset of object `i` of the page that starts at `start`. */
  function ObjectAt(start: nat, index: nat, i: nat): nat {
    start + i * ClassSize(index)
  }

  lemma ObjectInPage(start: nat, index: nat, i: nat)
    requires index < SLAB_CLASS_COUNT && i < Capacity(index)
    ensures start <= ObjectAt(start, index, i)
    ensures ObjectAt(start, index, i) + ClassSize(index) <= start + PAGE_SIZE
  {
    ObjectsTile(index);
    var n, c := Capacity(index), ClassSize(index);
    assert (n - i - 1) * c >= 0;
  }

  lemma ObjectsApart(start: nat, index: nat, i: nat, j: nat)
    requires index < SLAB_CLASS_COUNT && i < j
    ensures ObjectAt(start, index, i) + ClassSize(index) <= ObjectAt(start, index, j)
  {
    assert (j - i - 1) * ClassSize(index) >= 0;
  }

  /** The `k`th entry of a list of objects, or the end marker behind it. */
  function Entry(list: seq<nat>, k: nat): nat {
    if k < |list| then list[k] else FREE_LIST_END
  }

  /** Following the links from `head` visits exactly `list`: distinct objects of the page, then the end. */
  ghost predicate FreeList(m: seq<Byte>, start: nat, index: nat, head: nat, list: seq<nat>) {
    && index < SLAB_CLASS_COUNT && start + PAGE_SIZE <= |m|
    && head == Entry(list, 0)
    && (forall k :: 0 <= k < |list| ==> list[k] < Capacity(index))
    && (forall j, k :: 0 <= j < k < |list| ==> list[j] != list[k])
    && (forall k :: 0 <= k < |list| ==> LinkIs(m, start, index, list[k], Entry(list, k + 1)))
  }

  ghost predicate LinkIs(m: seq<Byte>, start: nat, index: nat, i: nat, next: nat) {
    var o := ObjectAt(start, index, i);
    o + 1 < |m| && ReadU16(m, o) == next
  }

  /** The list depends only on the first two bytes of its own objects. */
  lemma SameLinks(m: seq<Byte>, m': seq<Byte>, start: nat, index: nat, head: nat, list: seq<nat>)
    requires FreeList(m, start, index, head, list) && |m'| == |m|
    requires forall k :: 0 <= k < |list| ==>
               var o := ObjectAt(start, index, list[k]); o + 1 < |m| && m'[o] == m[o] && m'[o + 1] == m[o + 1]
    ensures FreeList(m', start, index, head, list)
  {
    forall k | 0 <= k < |list|
      ensures LinkIs(m', start, index, list[k], Entry(list, k + 1))
    {
      assert LinkIs(m, start, index, list[k], Entry(list, k + 1));
    }
  }

  /** Taking the first object off the list: its link is the new head. */
  lemma PopList(m: seq<Byte>, start: nat, index: nat, head: nat, list: seq<nat>)
    requires FreeList(m, start, index, head, list) && list != []
    ensures head == list[0] && head < Capacity(index) && head !in list[1..]
    ensures LinkIs(m, start, index, head, Entry(list, 1))
    ensures FreeList(m, start, index, Entry(list, 1), list[1..])
  {
    assert LinkIs(m, start, index, list[0], Entry(list, 1));
    forall k | 0 <= k < |list[1..]|
      ensures LinkIs(m, start, index, list[1..][k], Entry(list[1..], k + 1))
    {
      assert LinkIs(m, start, index, list[k + 1], Entry(list, k + 2));
    }
  }

  /** The head is the end marker exactly when no object is free. */
  lemma HeadShowsEmptiness(m: seq<Byte>, start: nat, index: nat, head: nat, list: seq<nat>)
    requires FreeList(m, start, index, head, list)
    ensures head == FREE_LIST_END <==> list == []
  {
    ObjectsTile(index);
  }

  /** Putting an object that is not on the list in front of it. */
  lemma PushList(m: seq<Byte>, start: nat, index: nat, head: nat, list: seq<nat>, i: nat)
    requires FreeList(m, start, index, head, list) && i < Capacity(index) && i !in list
    ensures ObjectAt(start, index, i) + 1 < |m| && head <= 0xFFFF
    ensures FreeList(WriteU16(m, ObjectAt(start, index, i), head), start, index, i, [i] + list)
  {
    ObjectInPage(start, index, i);
    ObjectsTile(index);
    WriteKeepsLinks(m, start, index, i, head);
    hide ObjectAt, ClassSize, Capacity, WriteU16, LinkIs;
    var m' := WriteU16(m, ObjectAt(start, index, i), head);
    var list' := [i] + list;
    forall k | 0 <= k < |list'|
      ensures LinkIs(m', start, index, list'[k], Entry(list', k + 1))
    {
      assert k > 0 ==> LinkIs(m, start, index, list[k - 1], Entry(list, k));
    }
  }

  /** Writing the link of one object leaves the links of the others. */
  lemma WriteKeepsLinks(m: seq<Byte>, start: nat, index: nat, i: nat, next: nat)
    requires index < SLAB_CLASS_COUNT && start + PAGE_SIZE <= |m| && i < Capacity(index) && next <= 0xFFFF
    ensures ObjectAt(start, index, i) + 1 < |m|
    ensures var m' := WriteU16(m, ObjectAt(start, index, i), next);
            && LinkIs(m', start, index, i, next)
            && (forall k, n :: 0 <= k < Capacity(index) && k != i && LinkIs(m, start, index, k, n) ==>
                  LinkIs(m', start, index, k, n))
            && (forall b :: 0 <= b < |m| && !(start <= b < start + PAGE_SIZE) ==> m'[b] == m[b])
  {
    ObjectInPage(start, index, i);
    ObjectsTile(index);
    hide ObjectAt, ClassSize, Capacity;
    var m' := WriteU16(m, ObjectAt(start, index, i), next);
    forall k, n | 0 <= k < Capacity(index) && k != i && LinkIs(m, start, index, k, n)
      ensures LinkIs(m', start, index, k, n)
    {
      DifferentObjects(start, index, i, k);
    }
  }

  lemma DifferentObjects(start: nat, index: nat, i: nat, j: nat)
    requires index < SLAB_CLASS_COUNT && i != j
    ensures ObjectAt(start, index, i) + 1 < ObjectAt(start, index, j)
              || ObjectAt(start, index, j) + 1 < ObjectAt(start, index, i)
  {
    ObjectsTile(index);
    if i < j {
      ObjectsApart(start, index, i, j);
    } else {
      ObjectsApart(start, index, j, i);
    }
  }

  /** Allocating an object and freeing it at once restores the memory and the list exactly. */
  lemma PopThenPush(m: seq<Byte>, start: nat, index: nat, head: nat, list: seq<nat>)
    requires FreeList(m, start, index, head, list) && list != []
    ensures ObjectAt(start, index, head) + 1 < |m| && Entry(list, 1) <= 0xFFFF
    ensures WriteU16(m, ObjectAt(start, index, head), Entry(list, 1)) == m
    ensures [head] + list[1..] == list
  {
    PopList(m, start, index, head, list);
    hide FreeList, ObjectAt, ReadU16, WriteU16;
    RewriteU16(m, ObjectAt(start, index, head));
  }

  // ---- the list of a fresh page ----

  function AllObjects(count: nat): seq<nat> {
    seq(count, i requires 0 <= i < count => i)
  }

  function NextInOrder(index: nat, i: nat): nat
    requires index < SLAB_CLASS_COUNT
  {
    if i + 1 < Capacity(index) then i + 1 else FREE_LIST_END
  }

  lemma FreshList(index: nat)
    requires index < SLAB_CLASS_COUNT
    ensures AllObjects(Capacity(index)) != [] && AllObjects(Capacity(index))[0] == 0
  {
    ObjectsTile(index);
  }

  /** Objects linked in order form the list of all of them. */
  lemma LinkedInOrder(m: seq<Byte>, start: nat, index: nat)
    requires index < SLAB_CLASS_COUNT && start + PAGE_SIZE <= |m|
    requires forall k :: 0 <= k < Capacity(index) ==> LinkIs(m, start, index, k, NextInOrder(index, k))
    ensures FreeList(m, start, index, 0, AllObjects(Capacity(index)))
  {
    ObjectsTile(index);
    hide Capacity, LinkIs;
    var list := AllObjects(Capacity(index));
    forall k | 0 <= k < |list|
      ensures LinkIs(m, start, index, list[k], Entry(list, k + 1))
    {
      assert list[k] == k && NextInOrder(index, k) == Entry(list, k + 1);
    }
  }

  /** Links the objects of a page in order. */
  method InitSlabPage(mem: array<Byte>, start: nat, index: nat) returns (slab: SlabPage)
    requires index < SLAB_CLASS_COUNT && start + PAGE_SIZE <= mem.Length
    modifies mem
    ensures slab == SlabPage(true, index, 0, 0, Capacity(index))
    ensures FreeList(mem[..], start, index, slab.freeHead, AllObjects(Capacity(index)))
    ensures forall k :: 0 <= k < mem.Length && !(start <= k < start + PAGE_SIZE) ==> mem[k] == old(mem[k])
  {
    ObjectsTile(index);
    hide Capacity, LinkIs, FreeList;
    var capacity := Capacity(index);
    slab := SlabPage(true, index, if capacity > 0 then 0 else FREE_LIST_END, 0, capacity);
    var i := 0;
    while i < capacity
      invariant 0 <= i <= capacity
      invariant forall k :: 0 <= k < i ==> LinkIs(mem[..], start, index, k, NextInOrder(index, k))
      invariant forall k :: 0 <= k < mem.Length && !(start <= k < start + PAGE_SIZE) ==> mem[k] == old(mem[k])
    {
      WriteLink(mem, start, index, i, NextInOrder(index, i));
      i := i + 1;
    }
    LinkedInOrder(mem[..], start, index);
  }

  /** Writes the link of one object; the other links of the page stay. */
  method WriteLink(mem: array<Byte>, start: nat, index: nat, i: nat, next: nat)
    requires index < SLAB_CLASS_COUNT && start + PAGE_SIZE <= mem.Length && i < Capacity(index) && next <= 0xFFFF
    modifies mem
    ensures ObjectAt(start, index, i) + 1 < mem.Length
    ensures mem[..] == WriteU16(old(mem[..]), ObjectAt(start, index, i), next)
    ensures LinkIs(mem[..], start, index, i, next)
    ensures forall k, n :: 0 <= k < Capacity(index) && k != i && LinkIs(old(mem[..]), start, index, k, n) ==>
              LinkIs(mem[..], start, index, k, n)
    ensures forall k :: 0 <= k < mem.Length && !(start <= k < start + PAGE_SIZE) ==> mem[k] == old(mem[k])
  {
    ObjectInPage(start, index, i);
    WriteKeepsLinks(mem[..], start, index, i, next);
    hide ObjectAt, ClassSize, Capacity, LinkIs;
    var o := ObjectAt(start, index, i);
    ghost var before := mem[..];
    mem[o] := next % 256;
    mem[o + 1] := next / 256;
    assert mem[..] == WriteU16(before, o, next);
  }

  /** Takes the first free object of a slab page and returns its byte offset; fails, changing nothing, exactly when
      the page is inactive or full. */
  method AllocFromSlab(mem: array<Byte>, start: nat, slab: SlabPage, ghost list: seq<nat>)
    returns (ok: bool, offset: nat, slab': SlabPage)
    requires slab.active ==> FreeList(mem[..], start, slab.classIndex, slab.freeHead, list)
    ensures ok <==> slab.active && list != []
    ensures !ok ==> slab' == slab
    ensures ok ==>
              && offset == ObjectAt(start, slab.classIndex, list[0])
              && slab' == slab.(freeHead := Entry(list, 1),
                                inUse := if slab.inUse < 0xFFFF then slab.inUse + 1 else 0xFFFF)
              && FreeList(mem[..], start, slab.classIndex, slab'.freeHead, list[1..])
  {
    hide FreeList, ObjectAt;
    if slab.active {
      HeadShowsEmptiness(mem[..], start, slab.classIndex, slab.freeHead, list);
    }
    if !slab.HasFreeObjects() {
      return false, 0, slab;
    }
    PopList(mem[..], start, slab.classIndex, slab.freeHead, list);
    offset := ObjectAt(start, slab.classIndex, slab.freeHead);
    var low: nat, high: nat := mem[offset], mem[offset + 1];
    var next := low + 256 * high;
    assert next == ReadU16(mem[..], offset);
    return true, offset, slab.(freeHead := next, inUse := if slab.inUse < 0xFFFF then slab.inUse + 1 else 0xFFFF);
  }

  /** Puts an object back in front of the free list. Returns false, and changes nothing, for an offset that is
      not the start of an object of the page. */
  method FreeToSlab(mem: array<Byte>, start: nat, slab: SlabPage, offset: nat, ghost list: seq<nat>)
    returns (ok: bool, slab': SlabPage)
    requires slab.active ==>
               && FreeList(mem[..], start, slab.classIndex, slab.freeHead, list)
               && slab.capacity == Capacity(slab.classIndex)
    requires slab.active && IsObject(start, slab.classIndex, offset) ==>
               ObjectNumber(start, slab.classIndex, offset) !in list
    modifies mem
    ensures ok <==> slab.active && IsObject(start, slab.classIndex, offset)
    ensures !ok ==> slab' == slab && mem[..] == old(mem[..])
    ensures ok ==>
              var i := ObjectNumber(start, slab.classIndex, offset);
              && slab' == slab.(freeHead := i, inUse := if slab.inUse > 0 then slab.inUse - 1 else 0)
              && offset + 1 < mem.Length && slab.freeHead <= 0xFFFF
              && mem[..] == WriteU16(old(mem[..]), offset, slab.freeHead)
              && FreeList(mem[..], start, slab.classIndex, i, [i] + list)
  {
    if !slab.active {
      return false, slab;
    }
    if offset < start || offset >= start + PAGE_SIZE {
      return false, slab;
    }
    var within := offset - start;
    ObjectsTile(slab.classIndex);
    if within % ClassSize(slab.classIndex) != 0 {
      return false, slab;
    }
    var i := within / ClassSize(slab.classIndex);
    ObjectFromOffset(start, slab.classIndex, offset);
    if i >= slab.capacity {
      return false, slab;
    }
    PushList(mem[..], start, slab.classIndex, slab.freeHead, list, i);
    WriteLink(mem, start, slab.classIndex, i, slab.freeHead);
    return true, slab.(freeHead := i, inUse := if slab.inUse > 0 then slab.inUse - 1 else 0);
  }

  /** The offset is where some object of the page starts. */
  predicate IsObject(start: nat, index: nat, offset: nat)
    requires index < SLAB_CLASS_COUNT
  {
    start <= offset < start + PAGE_SIZE && (offset - start) % ClassSize(index) == 0
  }

  function ObjectNumber(start: nat, index: nat, offset: nat): nat
    requires index < SLAB_CLASS_COUNT && start <= offset
  {
    (offset - start) / ClassSize(index)
  }

  lemma ObjectFromOffset(start: nat, index: nat, offset: nat)
    requires index < SLAB_CLASS_COUNT && IsObject(start, index, offset)
    ensures ObjectNumber(start, index, offset) < Capacity(index)
    ensures ObjectAt(start, index, ObjectNumber(start, index, offset)) == offset
  {
    ObjectsTile(index);
    var c, w := ClassSize(index), offset - start;
    assert w == c * (w / c) + w % c;
    SmallQuotient(w, c, Capacity(index));
  }

  lemma OffsetOfObject(start: nat, index: nat, i: nat)
    requires index < SLAB_CLASS_COUNT && i < Capacity(index)
    ensures IsObject(start, index, ObjectAt(start, index, i))
    ensures ObjectNumber(start, index, ObjectAt(start, index, i)) == i
  {
    ObjectsTile(index);
    ObjectInPage(start, index, i);
    var c := ClassSize(index);
    assert (i * c) % c == 0 && (i * c) / c == i;
  }
}
