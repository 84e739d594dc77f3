/** What mapping and unmapping pages takes from the frame allocator, and gives back. */
module Conservation {
  import opened Sizes
  import opened PageEntry
  import opened VirtAddr
  import opened PageTree
  import opened Paging

  /** The slots of the pages of an address range. */
  ghost function RangeSlots(mode: Mode, from: nat, to: nat): set<Node> {
    set a: Address | from <= a < to && a % PAGE_SIZE == 0 && Accepted(mode, a) :: Path(mode, a)
  }

  lemma RangeSlotsStep(mode: Mode, from: nat, to: Address)
    requires from <= to && from % PAGE_SIZE == 0 && to % PAGE_SIZE == 0
    ensures RangeSlots(mode, from, to + PAGE_SIZE) ==
            if Accepted(mode, to) then RangeSlots(mode, from, to) + {Path(mode, to)} else RangeSlots(mode, from, to)
  {
    hide Path, Accepted;
    var more := RangeSlots(mode, from, to + PAGE_SIZE);
    forall v | v in more
      ensures v in RangeSlots(mode, from, to) || (Accepted(mode, to) && v == Path(mode, to))
    {
      var a: Address :| from <= a < to + PAGE_SIZE && a % PAGE_SIZE == 0 && Accepted(mode, a) && v == Path(mode, a);
      NoPageBetween(a, to);
    }
  }

  lemma NoPageBetween(a: nat, b: nat)
    requires a % PAGE_SIZE == 0 && b % PAGE_SIZE == 0 && a < b + PAGE_SIZE
    ensures a <= b
  {
  }

  /** A page that `b` maps and `a` does not. */
  ghost predicate New(a: Tree, b: Tree, q: Node) {
    q in b.leaves && q !in a.leaves
  }

  /** The frame of some page that `b` maps and `a` does not. */
  ghost predicate NewFrame(a: Tree, b: Tree, f: nat) {
    exists q :: New(a, b, q) && b.leaves[q].frame == f
  }

  /** The frames of the new pages hold data, were free before, and differ. */
  ghost predicate NewPagesOwnFrames(a: Snapshot, b: Snapshot) {
    && (forall q :: New(a.tree, b.tree, q) ==>
          var f := b.tree.leaves[q].frame; HoldsData(b.used, b.tree, f) && f < |a.used| && !a.used[f])
    && (forall q, r :: New(a.tree, b.tree, q) && New(a.tree, b.tree, r) && q != r ==>
          b.tree.leaves[q].frame != b.tree.leaves[r].frame)
  }

  /** `b` is `a` with some of the slots `range` populated: it has the tables of `a` and perhaps more,
      and the frames in use are those of `a`, of the tables and of the new pages. */
  ghost predicate Populated(a: Snapshot, b: Snapshot, range: set<Node>) {
    && SameSize(a, b)
    && (forall p :: p in a.tree.tables ==> p in b.tree.tables && b.tree.tables[p] == a.tree.tables[p])
    && (forall p :: p in b.tree.tables && p !in a.tree.tables ==>
          b.tree.tables[p] < |a.used| && !a.used[b.tree.tables[p]])
    && (forall q :: q in a.tree.leaves ==> q in b.tree.leaves && b.tree.leaves[q] == a.tree.leaves[q])
    && (forall q :: New(a.tree, b.tree, q) ==> q in range)
    && NewPagesOwnFrames(a, b)
    && (forall f :: 0 <= f < |a.used| && a.used[f] ==> b.used[f])
    && (forall f :: 0 <= f < |a.used| && b.used[f] ==>
          a.used[f] || f in b.tree.tables.Values || NewFrame(a.tree, b.tree, f))
  }

  lemma NothingPopulated(a: Snapshot, range: set<Node>)
    ensures Populated(a, a, range)
  {
  }

  /** `b` with frame `f` taken and filled. */
  ghost function Filled(b: Snapshot, f: nat, page: Page): Snapshot
    requires f < |b.used| && f < |b.mem|
  {
    Snapshot(b.mem[f := page], b.used[f := true], b.tree)
  }

  /** Populating one more page of the range. */
  lemma PopulateOne(a: Snapshot, b: Snapshot, c: Snapshot, range: set<Node>, v: Node, w: Word, page: Page)
    requires Populated(a, b, range) && Consistent(b.mem, b.tree, b.used)
    requires v in range && v !in b.tree.leaves && v !in a.tree.leaves
    requires w.frame < |b.used| && w.frame < |b.mem| && !b.used[w.frame]
    requires Grown(Filled(b, w.frame, page), c, v) && c.tree.leaves == b.tree.leaves[v := w]
    ensures Populated(a, c, range)
  {
    GrownFromFilled(b, c, v, w.frame, page);
    forall q | New(a.tree, c.tree, q)
      ensures q in range
    {
      assert q != v ==> New(a.tree, b.tree, q);
    }
    PopulatedFrames(a, b, c, v, w);
    PopulatedUse(a, b, c, v, w);
  }

  /** What growth from the filled state means for the state before. */
  lemma GrownFromFilled(b: Snapshot, c: Snapshot, v: Node, f: nat, page: Page)
    requires Consistent(b.mem, b.tree, b.used) && f < |b.used| && f < |b.mem| && !b.used[f]
    requires Grown(Filled(b, f, page), c, v)
    ensures SameSize(b, c) && f > 0
    ensures forall p :: p in b.tree.tables ==> p in c.tree.tables && c.tree.tables[p] == b.tree.tables[p]
    ensures forall p :: p in c.tree.tables ==> c.tree.tables[p] != f && c.tree.tables[p] < |b.used|
    ensures forall p :: p in c.tree.tables && p !in b.tree.tables ==> !b.used[c.tree.tables[p]]
    ensures forall g :: 0 <= g < |b.used| && (b.used[g] || g == f) ==> c.used[g]
    ensures forall g :: 0 <= g < |b.used| && c.used[g] ==> b.used[g] || g == f || g in c.tree.tables.Values
  {
    hide Holds;
  }

  /** Every frame in use afterwards is accounted for. */
  lemma PopulatedUse(a: Snapshot, b: Snapshot, c: Snapshot, v: Node, w: Word)
    requires |a.used| == |b.used| == |c.used| && v !in b.tree.leaves && v !in a.tree.leaves
    requires c.tree.leaves == b.tree.leaves[v := w]
    requires forall f :: 0 <= f < |a.used| && b.used[f] ==>
               a.used[f] || f in b.tree.tables.Values || NewFrame(a.tree, b.tree, f)
    requires forall f :: 0 <= f < |a.used| && c.used[f] ==> b.used[f] || f == w.frame || f in c.tree.tables.Values
    requires forall p :: p in b.tree.tables ==> p in c.tree.tables && c.tree.tables[p] == b.tree.tables[p]
    ensures forall f :: 0 <= f < |a.used| && c.used[f] ==>
              a.used[f] || f in c.tree.tables.Values || NewFrame(a.tree, c.tree, f)
  {
    forall g | 0 <= g < |a.used| && c.used[g]
      ensures a.used[g] || g in c.tree.tables.Values || NewFrame(a.tree, c.tree, g)
    {
      if g == w.frame {
        assert New(a.tree, c.tree, v);
      } else if b.used[g] {
        if g in b.tree.tables.Values {
          var p :| p in b.tree.tables && b.tree.tables[p] == g;
          assert p in c.tree.tables && c.tree.tables[p] == g;
        } else if NewFrame(a.tree, b.tree, g) {
          var q :| New(a.tree, b.tree, q) && b.tree.leaves[q].frame == g;
          assert New(a.tree, c.tree, q) && c.tree.leaves[q].frame == g;
        }
      }
    }
  }

  lemma PopulatedFrames(a: Snapshot, b: Snapshot, c: Snapshot, v: Node, w: Word)
    requires NewPagesOwnFrames(a, b) && |a.used| == |b.used| == |c.used|
    requires v !in b.tree.leaves && v !in a.tree.leaves && c.tree.leaves == b.tree.leaves[v := w]
    requires 0 < w.frame < |b.used| && !b.used[w.frame] && !a.used[w.frame]
    requires forall f :: 0 <= f < |b.used| && (b.used[f] || f == w.frame) ==> c.used[f]
    requires forall p :: p in c.tree.tables ==>
               c.tree.tables[p] != w.frame && c.tree.tables[p] < |b.used|
               && ((p in b.tree.tables && b.tree.tables[p] == c.tree.tables[p]) || !b.used[c.tree.tables[p]])
    ensures NewPagesOwnFrames(a, c)
  {
    forall q | New(a.tree, c.tree, q)
      ensures HoldsData(c.used, c.tree, c.tree.leaves[q].frame)
      ensures c.tree.leaves[q].frame < |a.used| && !a.used[c.tree.leaves[q].frame]
    {
      if q != v {
        assert New(a.tree, b.tree, q);
        var f := b.tree.leaves[q].frame;
        assert HoldsData(b.used, b.tree, f);
        forall p | p in c.tree.tables
          ensures c.tree.tables[p] != f
        {
          assert p in b.tree.tables ==> b.tree.tables[p] in b.tree.tables.Values;
        }
      }
    }
    forall q, r | New(a.tree, c.tree, q) && New(a.tree, c.tree, r) && q != r
      ensures c.tree.leaves[q].frame != c.tree.leaves[r].frame
    {
      assert q != v ==> New(a.tree, b.tree, q);
      assert r != v ==> New(a.tree, b.tree, r);
    }
  }

  /** Had the page been populated before, its first frame would be lost: in use, but neither a table's nor that of a
      new page. So a fault keeps the account exactly if it is for a page that is not present. */
  lemma RepopulatingLeaks(a: Snapshot, b: Snapshot, c: Snapshot, range: set<Node>, v: Node, w: Word, page: Page)
    requires Populated(a, b, range) && Consistent(b.mem, b.tree, b.used)
    requires New(a.tree, b.tree, v)
    requires w.frame < |b.used| && w.frame < |b.mem| && !b.used[w.frame]
    requires Grown(Filled(b, w.frame, page), c, v) && c.tree.leaves == b.tree.leaves[v := w]
    ensures var f := b.tree.leaves[v].frame;
            f < |a.used| && !a.used[f] && f < |c.used| && c.used[f]
            && f !in c.tree.tables.Values && !NewFrame(a.tree, c.tree, f)
    ensures !Populated(a, c, range)
  {
    hide Consistent, Grown, GrownLoosely;
    var f := b.tree.leaves[v].frame;
    assert HoldsData(b.used, b.tree, f) && f < |a.used| && !a.used[f];
    GrownFromFilled(b, c, v, w.frame, page);
    LostFrame(a, b, c, v, w, f);
    assert c.used[f];
  }

  lemma LostFrame(a: Snapshot, b: Snapshot, c: Snapshot, v: Node, w: Word, f: nat)
    requires NewPagesOwnFrames(a, b) && New(a.tree, b.tree, v) && f == b.tree.leaves[v].frame != w.frame
    requires c.tree.leaves == b.tree.leaves[v := w]
    requires forall p :: p in c.tree.tables && p !in b.tree.tables ==>
               c.tree.tables[p] < |b.used| && !b.used[c.tree.tables[p]]
    requires forall p :: p in b.tree.tables && p in c.tree.tables ==> c.tree.tables[p] == b.tree.tables[p]
    ensures f !in c.tree.tables.Values && !NewFrame(a.tree, c.tree, f)
  {
    assert HoldsData(b.used, b.tree, f);
    forall p | p in c.tree.tables
      ensures c.tree.tables[p] != f
    {
      assert p in b.tree.tables ==> b.tree.tables[p] in b.tree.tables.Values;
    }
    forall q | New(a.tree, c.tree, q)
      ensures c.tree.leaves[q].frame != f
    {
      assert New(a.tree, b.tree, q);
    }
  }

  // ---- unmapping ----

  /** The pages in `slots` can be unmapped and their frames given back:
      each is on a data frame that no other of them uses. */
  ghost predicate Removable(b: Snapshot, slots: set<Node>) {
    && (forall u :: u in slots && u in b.tree.leaves ==> HoldsData(b.used, b.tree, b.tree.leaves[u].frame))
    && (forall u, v :: u in slots && v in slots && u in b.tree.leaves && v in b.tree.leaves && u != v ==>
          b.tree.leaves[u].frame != b.tree.leaves[v].frame)
  }

  ghost predicate FrameOf(b: Snapshot, slots: set<Node>, f: nat) {
    exists u :: u in slots && u in b.tree.leaves && b.tree.leaves[u].frame == f
  }

  /** From `b` to `c` the pages in `slots` were unmapped, their frames given back, and with them
      the frames of the tables that went away. */
  ghost predicate Removed(b: Snapshot, c: Snapshot, slots: set<Node>) {
    && SameSize(b, c)
    && c.tree.leaves == b.tree.leaves - slots
    && (forall p :: p in c.tree.tables ==> p in b.tree.tables && c.tree.tables[p] == b.tree.tables[p])
    && (forall f :: 0 <= f < |b.used| ==>
          (c.used[f] <==>
           b.used[f] && (f in b.tree.tables.Values ==> f in c.tree.tables.Values) && !FrameOf(b, slots, f)))
  }

  lemma NothingRemoved(b: Snapshot)
    ensures Removed(b, b, {})
  {
    assert b.tree.leaves - {} == b.tree.leaves;
  }

  /** A slot that maps nothing. */
  lemma RemoveNone(b: Snapshot, c: Snapshot, slots: set<Node>, v: Node)
    requires Removed(b, c, slots) && v !in c.tree.leaves
    ensures Removed(b, c, slots + {v})
  {
    assert c.tree.leaves == b.tree.leaves - (slots + {v});
    forall f | 0 <= f < |b.used|
      ensures FrameOf(b, slots + {v}, f) <==> FrameOf(b, slots, f)
    {
      if FrameOf(b, slots + {v}, f) {
        var u :| u in slots + {v} && u in b.tree.leaves && b.tree.leaves[u].frame == f;
        assert u in slots;
      }
    }
  }

  /** A page of the range that is still mapped still holds data. */
  lemma StillHoldsData(b: Snapshot, c: Snapshot, slots: set<Node>, v: Node)
    requires Removed(b, c, slots) && v in c.tree.leaves && Removable(b, slots + {v})
    ensures HoldsData(c.used, c.tree, c.tree.leaves[v].frame)
  {
    var f := b.tree.leaves[v].frame;
    assert HoldsData(b.used, b.tree, f);
    forall p | p in c.tree.tables
      ensures c.tree.tables[p] != f
    {
      assert b.tree.tables[p] in b.tree.tables.Values;
    }
  }

  /** Unmapping one page and freeing its frame. */
  lemma RemoveOne(b: Snapshot, c: Snapshot, d: Snapshot, slots: set<Node>, v: Node, f: nat)
    requires Removed(b, c, slots) && v in c.tree.leaves && Removable(b, slots + {v})
    requires f == c.tree.leaves[v].frame && f < |c.used|
    requires Shrunk(c, d, v) && d.tree.leaves == c.tree.leaves - {v}
    ensures Removed(b, d.(used := d.used[f := false]), slots + {v})
  {
    var e := d.(used := d.used[f := false]);
    assert e.tree.leaves == b.tree.leaves - (slots + {v});
    assert forall p :: p in d.tree.tables ==> d.tree.tables[p] in c.tree.tables.Values;
    assert forall p :: p in c.tree.tables ==> c.tree.tables[p] in b.tree.tables.Values;
    forall g | 0 <= g < |b.used|
      ensures FrameOf(b, slots + {v}, g) <==> FrameOf(b, slots, g) || g == f
    {
      if FrameOf(b, slots, g) {
        var u :| u in slots && u in b.tree.leaves && b.tree.leaves[u].frame == g;
        assert u in slots + {v};
      }
      if FrameOf(b, slots + {v}, g) && g != f {
        var u :| u in slots + {v} && u in b.tree.leaves && b.tree.leaves[u].frame == g;
        assert u in slots;
      }
      assert v in slots + {v} && v in b.tree.leaves;
    }
  }

  /** The pages that were populated can be removed. */
  lemma PopulatedIsRemovable(a: Snapshot, b: Snapshot, range: set<Node>, slots: set<Node>)
    requires Populated(a, b, range) && forall q :: q in a.tree.leaves ==> q !in slots
    ensures Removable(b, slots)
  {
    assert forall u :: u in slots && u in b.tree.leaves ==> New(a.tree, b.tree, u);
  }

  /** Populating slots of a range and then removing the range restores the tree and the allocator exactly:
      unmapping gives back just the tables that mapping took. */
  lemma RemovingRestores(a: Snapshot, b: Snapshot, c: Snapshot, slots: set<Node>)
    requires Populated(a, b, slots) && Removed(b, c, slots)
    requires forall q :: q in a.tree.leaves ==> q !in slots
    requires Consistent(a.mem, a.tree, a.used) && Tidy(a.tree)
    requires Consistent(c.mem, c.tree, c.used) && Tidy(c.tree)
    ensures c.tree == a.tree && c.used == a.used
  {
    forall q
      ensures q in c.tree.leaves <==> q in a.tree.leaves
      ensures q in a.tree.leaves ==> c.tree.leaves[q] == a.tree.leaves[q]
    {
      assert q in b.tree.leaves && q !in a.tree.leaves ==> New(a.tree, b.tree, q);
    }
    assert c.tree.leaves == a.tree.leaves;
    LeavesDetermineTables(a.mem, a.tree, c.mem, c.tree);
    assert c.tree.tables == a.tree.tables;
    RestoredUse(a, b, c, slots);
  }

  lemma RestoredUse(a: Snapshot, b: Snapshot, c: Snapshot, slots: set<Node>)
    requires Populated(a, b, slots) && Removed(b, c, slots) && c.tree == a.tree
    requires forall q :: q in a.tree.leaves ==> q !in slots
    requires forall p :: p in a.tree.tables ==> a.tree.tables[p] < |a.used| && a.used[a.tree.tables[p]]
    ensures c.used == a.used
  {
    forall f | 0 <= f < |a.used|
      ensures c.used[f] == a.used[f]
    {
      if a.used[f] {
        OldFrameStays(a, b, slots, f);
      } else if b.used[f] {
        NewFrameGoes(a, b, slots, f);
      }
    }
  }

  /** A frame in use before the range was populated is neither a new table nor a new page. */
  lemma OldFrameStays(a: Snapshot, b: Snapshot, slots: set<Node>, f: nat)
    requires Populated(a, b, slots) && f < |a.used| && a.used[f]
    requires forall q :: q in a.tree.leaves ==> q !in slots
    ensures b.used[f] && (f in b.tree.tables.Values ==> f in a.tree.tables.Values) && !FrameOf(b, slots, f)
  {
    forall p | p in b.tree.tables && b.tree.tables[p] == f
      ensures f in a.tree.tables.Values
    {
      assert p in a.tree.tables;
      assert a.tree.tables[p] in a.tree.tables.Values;
    }
    forall u | u in slots && u in b.tree.leaves
      ensures b.tree.leaves[u].frame != f
    {
      assert New(a.tree, b.tree, u);
    }
  }

  /** A frame that came into use goes when its table or its page does. */
  lemma NewFrameGoes(a: Snapshot, b: Snapshot, slots: set<Node>, f: nat)
    requires Populated(a, b, slots) && f < |a.used| && !a.used[f] && b.used[f]
    requires forall p :: p in a.tree.tables ==> a.tree.tables[p] < |a.used| && a.used[a.tree.tables[p]]
    ensures f !in a.tree.tables.Values
    ensures f in b.tree.tables.Values || FrameOf(b, slots, f)
  {
    if f !in b.tree.tables.Values {
      var q :| New(a.tree, b.tree, q) && b.tree.leaves[q].frame == f;
      assert q in slots;
    }
  }
}
