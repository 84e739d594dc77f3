/** ext4 extent trees: nodes as bytes, the tree they encode, and the flat list of extents it stands for. */
module ExtentTree {
  import opened Bytes
  import opened Results

  /** A block device: the bytes of every block, or nothing where reading fails. */
  datatype Disk = Disk(blockSize: nat, blocks: nat -> Option<seq<Byte>>)

  datatype Ext4Error = Io | NoMem | NotFound | Invalid

  datatype Mapping = Mapped(block: nat) | Failed(error: Ext4Error)

  /** Every readable block is one block long. */
  ghost predicate WellSized(disk: Disk) {
    forall b: nat {:trigger disk.blocks(b)} :: disk.blocks(b).Some? ==> |disk.blocks(b).value| == disk.blockSize
  }

  lemma BlockLength(disk: Disk, b: nat)
    requires WellSized(disk) && disk.blocks(b).Some?
    ensures |disk.blocks(b).value| == disk.blockSize
  {
  }

  const EXT_MAGIC: nat := 0xF30A
  const HEADER_LENGTH: nat := 12
  const ENTRY_LENGTH: nat := 12
  const BLOCK_LIMIT: nat := 0x1_0000_0000

  /** A 16-bit length field. */
  type LengthField = f: nat | f <= 0xFFFF

  /** Blocks from logical block `first` on, stored from physical block `start` on. */
  datatype Extent = Extent(first: nat, field: LengthField, start: nat) {
    /** The length both readers take. */
    function Length(): nat {
      MaskedLength(field)
    }

    ghost predicate Covers(lb: nat) {
      first <= lb < first + Length()
    }

    /** The same with the length the format means. */
    ghost predicate TrulyCovers(lb: nat) {
      first <= lb < first + TrueLength(field)
    }
  }

  datatype Child = Child(key: nat, node: Tree)

  /** `Unreadable` is a child the device cannot read, `Malformed` a node with more entries than fit in it. */
  datatype Tree =
    | Leaf(extents: seq<Extent>)
    | Inner(children: seq<Child>)
    | Unreadable
    | Malformed

  // ---- nodes ----

  predicate HasHeader(node: seq<Byte>) {
    |node| >= HEADER_LENGTH
  }

  function Magic(node: seq<Byte>): nat
    requires HasHeader(node)
  {
    ReadU16(node, 0)
  }

  function EntryCount(node: seq<Byte>): nat
    requires HasHeader(node)
  {
    ReadU16(node, 2)
  }

  function Depth(node: seq<Byte>): nat
    requires HasHeader(node)
  {
    ReadU16(node, 6)
  }

  predicate Fits(node: seq<Byte>) {
    HasHeader(node) && HEADER_LENGTH + ENTRY_LENGTH * EntryCount(node) <= |node|
  }

  /** The length field without its top bit, which marks extents that were never written. */
  function MaskedLength(raw: nat): nat {
    raw % 0x8000
  }

  function ExtentAt(node: seq<Byte>, i: nat): Extent
    requires Fits(node) && i < EntryCount(node)
  {
    var o := HEADER_LENGTH + ENTRY_LENGTH * i;
    Extent(ReadU32(node, o), ReadU16(node, o + 4), ReadU32(node, o + 8) + BLOCK_LIMIT * ReadU16(node, o + 6))
  }

  function KeyAt(node: seq<Byte>, i: nat): nat
    requires Fits(node) && i < EntryCount(node)
  {
    ReadU32(node, HEADER_LENGTH + ENTRY_LENGTH * i)
  }

  function ChildBlockAt(node: seq<Byte>, i: nat): nat
    requires Fits(node) && i < EntryCount(node)
  {
    var o := HEADER_LENGTH + ENTRY_LENGTH * i;
    ReadU32(node, o + 4) + BLOCK_LIMIT * ReadU16(node, o + 8)
  }

  /** The tree a node of the given depth encodes on a device. Only the root's depth field counts. */
  ghost function Decode(disk: Disk, node: seq<Byte>, depth: nat): Tree
    decreases depth, 0
  {
    if !Fits(node) then Malformed
    else if depth == 0 then Leaf(seq(EntryCount(node), i requires 0 <= i < EntryCount(node) => ExtentAt(node, i)))
    else Inner(seq(EntryCount(node), i requires 0 <= i < EntryCount(node) =>
      Child(KeyAt(node, i), DecodeBlock(disk, ChildBlockAt(node, i), depth - 1))))
  }

  ghost function DecodeBlock(disk: Disk, block: nat, depth: nat): Tree
    decreases depth, 1
  {
    if disk.blocks(block).None? then Unreadable else Decode(disk, disk.blocks(block).value, depth)
  }

  // ---- descent ----

  /** The last of the leading children whose keys are at most `key`; the number of children if there is none. */
  ghost predicate IsChosen(children: seq<Child>, key: nat, c: nat) {
    && c <= |children|
    && (c < |children| ==>
          && (forall i :: 0 <= i <= c ==> children[i].key <= key)
          && (c + 1 < |children| ==> children[c + 1].key > key))
    && (c == |children| > 0 ==> children[0].key > key)
  }

  ghost function Chosen(children: seq<Child>, key: nat): (c: nat)
    ensures IsChosen(children, key, c)
  {
    if children == [] || children[0].key > key then |children| else LastLeading(children, key, 0)
  }

  ghost function LastLeading(children: seq<Child>, key: nat, c: nat): (d: nat)
    requires c < |children| && forall i :: 0 <= i <= c ==> children[i].key <= key
    ensures d < |children| && IsChosen(children, key, d)
    decreases |children| - c
  {
    if c + 1 < |children| && children[c + 1].key <= key then LastLeading(children, key, c + 1) else c
  }

  lemma ChosenIsUnique(children: seq<Child>, key: nat, c: nat, d: nat)
    requires IsChosen(children, key, c) && IsChosen(children, key, d)
    ensures c == d
  {
  }

  /** Where the descent ends up: children are chosen by `key`, extents searched for `lb`. */
  ghost function Lookup(t: Tree, key: nat, lb: nat): Mapping
    decreases t
  {
    match t
    case Leaf(extents) => FirstCover(extents, lb)
    case Inner(children) =>
      var c := Chosen(children, key);
      if c == |children| then Failed(NotFound) else Lookup(children[c].node, key, lb)
    case Unreadable => Failed(Io)
    case Malformed => Failed(Invalid)
  }

  /** The first extent of a leaf that covers the block, ends being 32-bit numbers that wrap around. */
  ghost function FirstCover(extents: seq<Extent>, lb: nat): Mapping {
    if extents == [] then Failed(NotFound)
    else if CoversWrapped(extents[0], lb) then Mapped(extents[0].start + (lb - extents[0].first))
    else FirstCover(extents[1..], lb)
  }

  predicate CoversWrapped(e: Extent, lb: nat) {
    e.first <= lb < (e.first + e.Length()) % BLOCK_LIMIT
  }

  // ---- well-formed trees ----

  /** Extents in order, apart, within `[lo, hi)`. */
  ghost predicate Ordered(extents: seq<Extent>, lo: nat, hi: nat) {
    && (forall i :: 0 <= i < |extents| ==> lo <= extents[i].first && extents[i].first + extents[i].Length() <= hi)
    && (forall i, j :: 0 <= i < j < |extents| ==> extents[i].first + extents[i].Length() <= extents[j].first)
  }

  /** Where the range of child `i` ends. */
  ghost function EndOf(children: seq<Child>, i: nat, hi: nat): nat {
    if i + 1 < |children| then children[i + 1].key else hi
  }

  /** Keys ascend, and every child maps only what lies between its key and the next. */
  ghost predicate WellFormed(t: Tree, lo: nat, hi: nat)
    decreases t
  {
    match t
    case Leaf(extents) => Ordered(extents, lo, hi)
    case Inner(children) =>
      && (forall i, j :: 0 <= i < j < |children| ==> children[i].key < children[j].key)
      && (forall i :: 0 <= i < |children| ==> lo <= children[i].key < hi)
      && (forall i :: 0 <= i < |children| ==> WellFormed(children[i].node, children[i].key, EndOf(children, i, hi)))
    case Unreadable => false
    case Malformed => false
  }

  // ---- the flat map ----

  /** All extents of the tree, left to right. */
  ghost function Flatten(t: Tree): seq<Extent>
    decreases t, if t.Inner? then |t.children| + 2 else 0
  {
    match t
    case Leaf(extents) => extents
    case Inner(children) => FlattenFrom(t, 0)
    case Unreadable => []
    case Malformed => []
  }

  /** The extents of the children from `i` on. */
  ghost function FlattenFrom(t: Tree, i: nat): seq<Extent>
    requires t.Inner? && i <= |t.children|
    decreases t, |t.children| - i + 1
  {
    if i == |t.children| then [] else Flatten(t.children[i].node) + FlattenFrom(t, i + 1)
  }

  /** The flat map: block `lb` is stored in block `p`. */
  ghost predicate Maps(extents: seq<Extent>, lb: nat, p: nat) {
    exists e :: e in extents && e.Covers(lb) && p == e.start + (lb - e.first)
  }

  ghost predicate Hole(extents: seq<Extent>, lb: nat) {
    forall e :: e in extents ==> !e.Covers(lb)
  }

  /** The flat list is in order: no two extents of the tree overlap. */
  lemma {:induction false} FlatIsOrdered(t: Tree, lo: nat, hi: nat)
    requires WellFormed(t, lo, hi)
    ensures Ordered(Flatten(t), lo, hi)
    decreases t, if t.Inner? then |t.children| + 2 else 0
  {
    if t.Inner? {
      FlatFromIsOrdered(t, lo, hi, 0);
    }
  }

  lemma {:induction false} FlatFromIsOrdered(t: Tree, lo: nat, hi: nat, i: nat)
    requires t.Inner? && WellFormed(t, lo, hi) && i <= |t.children|
    ensures Ordered(FlattenFrom(t, i), if i < |t.children| then t.children[i].key else lo, hi)
    decreases t, |t.children| - i + 1
  {
    if i < |t.children| {
      var end := EndOf(t.children, i, hi);
      FlatIsOrdered(t.children[i].node, t.children[i].key, end);
      FlatFromIsOrdered(t, lo, hi, i + 1);
      OrderedConcat(Flatten(t.children[i].node), FlattenFrom(t, i + 1), t.children[i].key, end, hi);
    }
  }

  lemma OrderedConcat(a: seq<Extent>, b: seq<Extent>, lo: nat, mid: nat, hi: nat)
    requires lo <= mid <= hi && Ordered(a, lo, mid) && (b == [] || Ordered(b, mid, hi))
    ensures Ordered(a + b, lo, hi)
  {
  }

  /** Every logical block is stored in one place at most. */
  lemma MapsOnce(t: Tree, lo: nat, hi: nat, lb: nat, p: nat, q: nat)
    requires WellFormed(t, lo, hi) && Maps(Flatten(t), lb, p) && Maps(Flatten(t), lb, q)
    ensures p == q
  {
    hide WellFormed, Flatten;
    FlatIsOrdered(t, lo, hi);
    var es := Flatten(t);
    var e :| e in es && e.Covers(lb) && p == e.start + (lb - e.first);
    var f :| f in es && f.Covers(lb) && q == f.start + (lb - f.first);
    var i :| 0 <= i < |es| && es[i] == e;
    var j :| 0 <= j < |es| && es[j] == f;
    CoveredOnce(es, lo, hi, lb, i, j);
  }

  lemma CoveredOnce(es: seq<Extent>, lo: nat, hi: nat, lb: nat, i: nat, j: nat)
    requires Ordered(es, lo, hi) && i < |es| && j < |es| && es[i].Covers(lb) && es[j].Covers(lb)
    ensures i == j
  {
  }

  lemma InRange(es: seq<Extent>, lo: nat, hi: nat, e: Extent)
    requires Ordered(es, lo, hi) && e in es
    ensures lo <= e.first && e.first + e.Length() <= hi
  {
  }

  ghost predicate InChild(t: Tree, j: nat, e: Extent)
    requires t.Inner?
  {
    j < |t.children| && e in Flatten(t.children[j].node)
  }

  /** The extents from child `i` on are those of the children from there on. */
  lemma {:induction false} InFlatFrom(t: Tree, i: nat, e: Extent)
    requires t.Inner? && i <= |t.children|
    ensures e in FlattenFrom(t, i) <==> exists j: nat :: i <= j && InChild(t, j, e)
    decreases |t.children| - i
  {
    if i < |t.children| {
      InFlatFrom(t, i + 1, e);
      assert FlattenFrom(t, i) == Flatten(t.children[i].node) + FlattenFrom(t, i + 1);
      hide Flatten, FlattenFrom;
      assert e in Flatten(t.children[i].node) <==> InChild(t, i, e);
    }
  }

  /** The descent computes the flat map: a mapped block is found where the flat list says, a hole is not found.
      The key may be the block number or, for a number no 32-bit extent reaches, anything. */
  lemma {:induction false} LookupIsFlatMap(t: Tree, lo: nat, hi: nat, key: nat, lb: nat)
    requires WellFormed(t, lo, hi) && hi < BLOCK_LIMIT && (key == lb || lb >= hi)
    ensures var r := Lookup(t, key, lb);
            && (r.Mapped? ==> Maps(Flatten(t), lb, r.block))
            && (r.Failed? ==> r.error == NotFound && Hole(Flatten(t), lb))
    decreases t
  {
    match t
    case Leaf(extents) => FirstCoverIsFlat(extents, lo, hi, lb);
    case Inner(children) =>
      var c := Chosen(children, key);
      forall e
        ensures e in Flatten(t) <==> exists j: nat :: InChild(t, j, e)
      {
        InFlatFrom(t, 0, e);
      }
      forall j: nat, e | j != c && InChild(t, j, e)
        ensures !e.Covers(lb)
      {
        OtherChildMisses(t, lo, hi, key, lb, j, e);
      }
      if c < |children| {
        LookupIsFlatMap(children[c].node, children[c].key, EndOf(children, c, hi), key, lb);
        forall e | e in Flatten(children[c].node)
          ensures e in Flatten(t)
        {
          assert InChild(t, c, e);
        }
      }
  }

  lemma OtherChildMisses(t: Tree, lo: nat, hi: nat, key: nat, lb: nat, j: nat, e: Extent)
    requires t.Inner? && WellFormed(t, lo, hi) && (key == lb || lb >= hi)
    requires j < |t.children| && j != Chosen(t.children, key) && e in Flatten(t.children[j].node)
    ensures !e.Covers(lb)
  {
    hide Flatten;
    var children := t.children;
    FlatIsOrdered(children[j].node, children[j].key, EndOf(children, j, hi));
    InRange(Flatten(children[j].node), children[j].key, EndOf(children, j, hi), e);
    hide WellFormed, Ordered;
    RangesApart(children, lo, hi, key, j);
  }

  /** A key lies in the range of the chosen child only. */
  lemma RangesApart(children: seq<Child>, lo: nat, hi: nat, key: nat, j: nat)
    requires forall i, j :: 0 <= i < j < |children| ==> children[i].key < children[j].key
    requires forall i :: 0 <= i < |children| ==> lo <= children[i].key < hi
    requires j < |children| && j != Chosen(children, key)
    ensures EndOf(children, j, hi) <= key || key < children[j].key
    ensures EndOf(children, j, hi) <= hi
  {
    var c := Chosen(children, key);
    if j < c < |children| {
      assert children[j + 1].key <= children[c].key;
    }
  }

  lemma {:induction false} FirstCoverIsFlat(extents: seq<Extent>, lo: nat, hi: nat, lb: nat)
    requires Ordered(extents, lo, hi) && hi < BLOCK_LIMIT
    ensures var r := FirstCover(extents, lb);
            && (r.Mapped? ==> Maps(extents, lb, r.block))
            && (r.Failed? ==> r.error == NotFound && Hole(extents, lb))
  {
    if extents != [] {
      var e := extents[0];
      assert (e.first + e.Length()) % BLOCK_LIMIT == e.first + e.Length();
      if !CoversWrapped(e, lb) {
        FirstCoverIsFlat(extents[1..], lo, hi, lb);
      }
    }
  }

  // ---- the length field ----

  /** What the field means in ext4: up to 32768 blocks, or, above that, so many more blocks never written. */
  function TrueLength(raw: nat): nat {
    if raw <= 0x8000 then raw else raw - 0x8000
  }

  predicate NeverWritten(raw: nat) {
    raw > 0x8000
  }

  /** Masking the top bit gives the true length except for an extent of exactly 32768 blocks, which it empties. */
  lemma MaskIsRightExcept(raw: nat)
    requires raw <= 0xFFFF
    ensures MaskedLength(raw) == TrueLength(raw) <==> raw != 0x8000
    ensures MaskedLength(0x8000) == 0 && TrueLength(0x8000) == 32768
  {
  }

  // ---- scanning a node ----

  ghost function Extents(node: seq<Byte>): (es: seq<Extent>)
    requires Fits(node)
    ensures |es| == EntryCount(node) && forall i :: 0 <= i < |es| ==> es[i] == ExtentAt(node, i)
  {
    seq(EntryCount(node), i requires 0 <= i < EntryCount(node) => ExtentAt(node, i))
  }

  /** Scans an index node up to the first key above `key`. */
  method ScanIndex(node: seq<Byte>, key: nat) returns (best: Option<nat>)
    requires Fits(node)
    ensures best.Some? ==>
              && best.value < EntryCount(node)
              && (forall i :: 0 <= i <= best.value ==> KeyAt(node, i) <= key)
              && (best.value + 1 < EntryCount(node) ==> KeyAt(node, best.value + 1) > key)
    ensures best.None? ==> EntryCount(node) == 0 || KeyAt(node, 0) > key
  {
    best := None;
    var i := 0;
    while i < EntryCount(node)
      invariant i <= EntryCount(node) && best == (if i == 0 then None else Some(i - 1))
      invariant forall k :: 0 <= k < i ==> KeyAt(node, k) <= key
    {
      if KeyAt(node, i) <= key {
        best := Some(i);
      } else {
        break;
      }
      i := i + 1;
    }
  }

  /** Scans a leaf for the first extent that covers the block. */
  method ScanLeaf(node: seq<Byte>, lb: nat) returns (r: Mapping)
    requires Fits(node)
    ensures r == FirstCover(Extents(node), lb)
  {
    ghost var es := Extents(node);
    var i := 0;
    while i < EntryCount(node)
      invariant i <= EntryCount(node) && FirstCover(es, lb) == FirstCover(es[i..], lb)
    {
      var e := ExtentAt(node, i);
      assert es[i..][0] == e && es[i..][1..] == es[i + 1..];
      if lb >= e.first && lb < (e.first + e.Length()) % BLOCK_LIMIT {
        return Mapped(e.start + (lb - e.first));
      }
      i := i + 1;
    }
    return Failed(NotFound);
  }

  /** One level of the descent. */
  lemma DescendOne(disk: Disk, node: seq<Byte>, depth: nat, key: nat, lb: nat, best: Option<nat>)
    requires Fits(node) && depth > 0
    requires best.Some? ==>
               && best.value < EntryCount(node)
               && (forall i :: 0 <= i <= best.value ==> KeyAt(node, i) <= key)
               && (best.value + 1 < EntryCount(node) ==> KeyAt(node, best.value + 1) > key)
    requires best.None? ==> EntryCount(node) == 0 || KeyAt(node, 0) > key
    ensures Lookup(Decode(disk, node, depth), key, lb) ==
            if best.None? then Failed(NotFound)
            else if disk.blocks(ChildBlockAt(node, best.value)).None? then Failed(Io)
            else Lookup(Decode(disk, disk.blocks(ChildBlockAt(node, best.value)).value, depth - 1), key, lb)
  {
    hide KeyAt, ChildBlockAt;
    var children := Decode(disk, node, depth).children;
    ChosenIsUnique(children, key, Chosen(children, key), if best.None? then |children| else best.value);
  }

  /** A descent that is not spoilt finds room for the entries. */
  lemma ReachedNodeFits(disk: Disk, node: seq<Byte>, depth: nat, key: nat, lb: nat)
    requires Lookup(Decode(disk, node, depth), key, lb) != Failed(Invalid)
    ensures Fits(node)
  {
  }

  /** The last level of the descent. */
  lemma DescendLeaf(disk: Disk, node: seq<Byte>, key: nat, lb: nat)
    requires Fits(node)
    ensures Lookup(Decode(disk, node, 0), key, lb) == FirstCover(Extents(node), lb)
  {
    assert Decode(disk, node, 0).extents == Extents(node);
  }
}
