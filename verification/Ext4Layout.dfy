/** Map blocks as the format lays them out, field by field, and what the readers make of them. */
module Ext4Layout {
  import opened Bytes
  import opened ExtentTree
  import opened IndirectBlocks
  import opened Results

  type U16 = n: nat | n <= 0xFFFF
  type U32 = n: nat | n <= 0xFFFF_FFFF

  /** Little-endian numbers. */
  function Little16(v: U16): (b: seq<Byte>)
    ensures |b| == 2
  {
    [v % 256, v / 256]
  }

  function Little32(v: U32): (b: seq<Byte>)
    ensures |b| == 4
  {
    Little16(v % 0x1_0000) + Little16(v / 0x1_0000)
  }

  /** The header of a node of an extent tree. */
  datatype Header = Header(magic: U16, entries: U16, max: U16, depth: U16, generation: U32) {
    function Stored(): (b: seq<Byte>)
      ensures |b| == 12
    {
      Little16(magic) + Little16(entries) + Little16(max) + Little16(depth) + Little32(generation)
    }
  }

  /** An entry of a leaf. */
  datatype LeafEntry = LeafEntry(block: U32, len: U16, startHigh: U16, startLow: U32) {
    function Stored(): (b: seq<Byte>)
      ensures |b| == 12
    {
      Little32(block) + Little16(len) + Little16(startHigh) + Little32(startLow)
    }
  }

  /** An entry of an index node. */
  datatype IndexEntry = IndexEntry(block: U32, leafLow: U32, leafHigh: U16, unused: U16) {
    function Stored(): (b: seq<Byte>)
      ensures |b| == 12
    {
      Little32(block) + Little32(leafLow) + Little16(leafHigh) + Little16(unused)
    }
  }

  function Joined(parts: seq<seq<Byte>>): seq<Byte> {
    if parts == [] then [] else parts[0] + Joined(parts[1..])
  }

  /** A node: its header, its entries, and whatever follows. */
  function Node(header: Header, entries: seq<seq<Byte>>, rest: seq<Byte>): seq<Byte> {
    header.Stored() + Joined(entries) + rest
  }

  function LeafEntries(entries: seq<LeafEntry>): (parts: seq<seq<Byte>>)
    ensures |parts| == |entries| && forall i :: 0 <= i < |parts| ==> parts[i] == entries[i].Stored()
  {
    seq(|entries|, i requires 0 <= i < |entries| => entries[i].Stored())
  }

  function IndexEntries(entries: seq<IndexEntry>): (parts: seq<seq<Byte>>)
    ensures |parts| == |entries| && forall i :: 0 <= i < |parts| ==> parts[i] == entries[i].Stored()
  {
    seq(|entries|, i requires 0 <= i < |entries| => entries[i].Stored())
  }

  function Pointers(blocks: seq<U32>): (parts: seq<seq<Byte>>)
    ensures |parts| == |blocks| && forall i :: 0 <= i < |parts| ==> parts[i] == Little32(blocks[i])
  {
    seq(|blocks|, i requires 0 <= i < |blocks| => Little32(blocks[i]))
  }

  // ---- reading numbers back ----

  /** The bytes at `o` are these. */
  ghost predicate Has(m: seq<Byte>, o: nat, part: seq<Byte>) {
    o + |part| <= |m| && m[o..o + |part|] == part
  }

  lemma Read16(m: seq<Byte>, o: nat, v: U16)
    requires Has(m, o, Little16(v))
    ensures ReadU16(m, o) == v
  {
    assert m[o..o + 2][0] == m[o] && m[o..o + 2][1] == m[o + 1];
  }

  lemma Read32(m: seq<Byte>, o: nat, v: U32)
    requires Has(m, o, Little32(v))
    ensures ReadU32(m, o) == v
  {
    Within(m, o, Little32(v), 0, Little16(v % 0x1_0000));
    Within(m, o, Little32(v), 2, Little16(v / 0x1_0000));
    Read16(m, o, v % 0x1_0000);
    Read16(m, o + 2, v / 0x1_0000);
  }

  /** A part of a part. */
  lemma Within(m: seq<Byte>, o: nat, part: seq<Byte>, at: nat, inner: seq<Byte>)
    requires Has(m, o, part) && Has(part, at, inner)
    ensures Has(m, o + at, inner)
  {
    forall k | 0 <= k < |inner|
      ensures m[o + at..o + at + |inner|][k] == inner[k]
    {
      assert m[o..o + |part|][at + k] == part[at..at + |inner|][k];
    }
  }

  /** Parts of one length lie at the multiples of it. */
  lemma {:induction false} JoinedHas(parts: seq<seq<Byte>>, length: nat, i: nat)
    requires (forall k :: 0 <= k < |parts| ==> |parts[k]| == length) && i < |parts|
    ensures Has(Joined(parts), length * i, parts[i])
  {
    if i > 0 {
      JoinedHas(parts[1..], length, i - 1);
      var rest := Joined(parts[1..]);
      assert Joined(parts) == parts[0] + rest;
      assert length * i == length + length * (i - 1);
      After(parts[0], rest, length * (i - 1), parts[i]);
    }
  }

  lemma After(a: seq<Byte>, b: seq<Byte>, o: nat, part: seq<Byte>)
    requires Has(b, o, part)
    ensures Has(a + b, |a| + o, part)
  {
    forall k | 0 <= k < |part|
      ensures (a + b)[|a| + o..|a| + o + |part|][k] == part[k]
    {
      assert b[o..o + |part|][k] == part[k];
    }
  }

  lemma Before(a: seq<Byte>, b: seq<Byte>, o: nat, part: seq<Byte>)
    requires Has(a, o, part)
    ensures Has(a + b, o, part)
  {
    assert (a + b)[o..o + |part|] == a[o..o + |part|];
  }

  lemma NodeHas(header: Header, entries: seq<seq<Byte>>, rest: seq<Byte>, i: nat)
    requires (forall k :: 0 <= k < |entries| ==> |entries[k]| == 12) && i < |entries|
    ensures Has(Node(header, entries, rest), 12 + 12 * i, entries[i])
  {
    JoinedHas(entries, 12, i);
    After(header.Stored(), Joined(entries), 12 * i, entries[i]);
    Before(header.Stored() + Joined(entries), rest, 12 + 12 * i, entries[i]);
  }

  lemma {:induction false} JoinedLength(parts: seq<seq<Byte>>, length: nat)
    requires forall k :: 0 <= k < |parts| ==> |parts[k]| == length
    ensures |Joined(parts)| == length * |parts|
  {
    if parts != [] {
      JoinedLength(parts[1..], length);
      assert length * |parts| == length + length * (|parts| - 1);
    }
  }

  // ---- nodes ----

  /** A header reads back. */
  lemma HeaderReads(header: Header, entries: seq<seq<Byte>>, rest: seq<Byte>)
    requires forall k :: 0 <= k < |entries| ==> |entries[k]| == 12
    requires header.entries == |entries|
    ensures var node := Node(header, entries, rest);
            && Fits(node) && Magic(node) == header.magic && EntryCount(node) == |entries| && Depth(node) == header.depth
  {
    var h, node := header.Stored(), Node(header, entries, rest);
    JoinedLength(entries, 12);
    assert Has(node, 0, h) by {
      assert node[0..12] == h;
    }
    HeaderFields(header);
    Within(node, 0, h, 0, Little16(header.magic));
    Within(node, 0, h, 2, Little16(header.entries));
    Within(node, 0, h, 6, Little16(header.depth));
    hide Node;
    Read16(node, 0, header.magic);
    Read16(node, 2, header.entries);
    Read16(node, 6, header.depth);
  }

  lemma HeaderFields(h: Header)
    ensures Has(h.Stored(), 0, Little16(h.magic)) && Has(h.Stored(), 2, Little16(h.entries))
    ensures Has(h.Stored(), 6, Little16(h.depth))
  {
  }

  lemma LeafFields(e: LeafEntry)
    ensures Has(e.Stored(), 0, Little32(e.block)) && Has(e.Stored(), 4, Little16(e.len))
    ensures Has(e.Stored(), 6, Little16(e.startHigh)) && Has(e.Stored(), 8, Little32(e.startLow))
  {
  }

  lemma IndexFields(e: IndexEntry)
    ensures Has(e.Stored(), 0, Little32(e.block)) && Has(e.Stored(), 4, Little32(e.leafLow))
    ensures Has(e.Stored(), 8, Little16(e.leafHigh))
  {
  }

  /** Every entry of a leaf reads back: first block, length field, and the start from its two halves. */
  lemma LeafReads(header: Header, entries: seq<LeafEntry>, rest: seq<Byte>, i: nat)
    requires header.entries == |entries| && i < |entries|
    ensures var node := Node(header, LeafEntries(entries), rest);
            && Fits(node) && EntryCount(node) == |entries|
            && ExtentAt(node, i) == Extent(entries[i].block, entries[i].len,
                                           0x1_0000_0000 * entries[i].startHigh + entries[i].startLow)
  {
    var parts, e := LeafEntries(entries), entries[i];
    var node, o := Node(header, parts, rest), 12 + 12 * i;
    HeaderReads(header, parts, rest);
    NodeHas(header, parts, rest, i);
    hide Node;
    LeafFields(e);
    Within(node, o, e.Stored(), 0, Little32(e.block));
    Within(node, o, e.Stored(), 4, Little16(e.len));
    Within(node, o, e.Stored(), 6, Little16(e.startHigh));
    Within(node, o, e.Stored(), 8, Little32(e.startLow));
    Read32(node, o, e.block);
    Read16(node, o + 4, e.len);
    Read16(node, o + 6, e.startHigh);
    Read32(node, o + 8, e.startLow);
  }

  /** Every entry of an index node reads back: key, and the child block from its two halves. */
  lemma IndexReads(header: Header, entries: seq<IndexEntry>, rest: seq<Byte>, i: nat)
    requires header.entries == |entries| && i < |entries|
    ensures var node := Node(header, IndexEntries(entries), rest);
            && Fits(node) && EntryCount(node) == |entries|
            && KeyAt(node, i) == entries[i].block
            && ChildBlockAt(node, i) == 0x1_0000_0000 * entries[i].leafHigh + entries[i].leafLow
  {
    var parts, e := IndexEntries(entries), entries[i];
    var node, o := Node(header, parts, rest), 12 + 12 * i;
    HeaderReads(header, parts, rest);
    NodeHas(header, parts, rest, i);
    hide Node;
    IndexFields(e);
    Within(node, o, e.Stored(), 0, Little32(e.block));
    Within(node, o, e.Stored(), 4, Little32(e.leafLow));
    Within(node, o, e.Stored(), 8, Little16(e.leafHigh));
    Read32(node, o, e.block);
    Read32(node, o + 4, e.leafLow);
    Read16(node, o + 8, e.leafHigh);
  }

  /** A leaf written entry by entry is the tree of those extents. */
  lemma LeafDecodes(disk: Disk, header: Header, entries: seq<LeafEntry>, rest: seq<Byte>)
    requires header.entries == |entries|
    ensures Decode(disk, Node(header, LeafEntries(entries), rest), 0) ==
            Leaf(seq(|entries|, i requires 0 <= i < |entries| =>
              Extent(entries[i].block, entries[i].len, 0x1_0000_0000 * entries[i].startHigh + entries[i].startLow)))
  {
    var node := Node(header, LeafEntries(entries), rest);
    HeaderReads(header, LeafEntries(entries), rest);
    hide Node, Fits, ExtentAt, LeafEntries;
    forall i | 0 <= i < |entries|
      ensures ExtentAt(node, i) == Extent(entries[i].block, entries[i].len,
                                          0x1_0000_0000 * entries[i].startHigh + entries[i].startLow)
    {
      LeafReads(header, entries, rest, i);
    }
    assert Decode(disk, node, 0).extents ==
           seq(|entries|, i requires 0 <= i < |entries| =>
             Extent(entries[i].block, entries[i].len, 0x1_0000_0000 * entries[i].startHigh + entries[i].startLow));
  }

  /** An index node written entry by entry has the trees in those blocks below those keys. */
  lemma IndexDecodes(disk: Disk, header: Header, entries: seq<IndexEntry>, rest: seq<Byte>, depth: nat)
    requires header.entries == |entries| && depth > 0
    ensures Decode(disk, Node(header, IndexEntries(entries), rest), depth) ==
            Inner(seq(|entries|, i requires 0 <= i < |entries| =>
              Child(entries[i].block,
                    DecodeBlock(disk, 0x1_0000_0000 * entries[i].leafHigh + entries[i].leafLow, depth - 1))))
  {
    var node := Node(header, IndexEntries(entries), rest);
    HeaderReads(header, IndexEntries(entries), rest);
    hide Node, Fits, KeyAt, ChildBlockAt, IndexEntries;
    forall i | 0 <= i < |entries|
      ensures KeyAt(node, i) == entries[i].block
      ensures ChildBlockAt(node, i) == 0x1_0000_0000 * entries[i].leafHigh + entries[i].leafLow
    {
      IndexReads(header, entries, rest, i);
    }
    assert Decode(disk, node, depth).children ==
           seq(|entries|, i requires 0 <= i < |entries| =>
             Child(entries[i].block,
                   DecodeBlock(disk, 0x1_0000_0000 * entries[i].leafHigh + entries[i].leafLow, depth - 1)));
  }

  /** Pointers read back, from a pointer block and from an inode. */
  lemma PointersRead(blocks: seq<U32>, rest: seq<Byte>, i: nat)
    requires i < |blocks|
    ensures var m := Joined(Pointers(blocks)) + rest;
            4 * i + 3 < |m| && PointerAt(m, i) == blocks[i] && MapEntry(m, i) == blocks[i]
  {
    var parts := Pointers(blocks);
    JoinedHas(parts, 4, i);
    Before(Joined(parts), rest, 4 * i, parts[i]);
    Read32(Joined(parts) + rest, 4 * i, blocks[i]);
  }
}
