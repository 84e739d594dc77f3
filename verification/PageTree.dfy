/** The radix tree in physical memory, as values: its shape, the walk of the hardware through it,
    and the elementary updates that the paging operations are made of. */
module PageTree {
  import opened Results
  import opened PageEntry
  import opened VirtAddr

  /** A frame of physical memory: 512 words, whatever it is used for. */
  type Page = s: seq<Word> | |s| == 512 witness seq(512, _ => ZERO)

  /** Frames below 4 GiB, which the kernel reaches at their physical address. */
  const IDENTITY_FRAMES: nat := 0x10_0000

  function ZeroPage(): Page {
    seq(512, _ => ZERO)
  }

  /** What the tables in memory amount to: which frame holds the table of each interior position,
      and which entry maps memory at each leaf position. */
  datatype Tree = Tree(root: nat, depth: nat, tables: map<Node, nat>, leaves: map<Node, Word>)

  /** An entry at distance `d` from the root maps memory, rather than naming another table:
      at the last level always, one or two levels above if it is marked huge. */
  predicate MapsMemory(depth: nat, d: nat, w: Word) {
    d == depth || (w.flags.huge && (d + 1 == depth || d + 2 == depth))
  }

  /** The entry `i` of the table at `p` says what the tree says about position `Child(p, i)`. */
  ghost predicate EntryAgrees(mem: seq<Page>, t: Tree, p: Node, i: Index)
    requires p in t.tables && t.tables[p] < |mem|
  {
    var e := mem[t.tables[p]][i];
    var q := Child(p, i);
    if !e.flags.present then
      e == ZERO && q !in t.tables && q !in t.leaves
    else if MapsMemory(t.depth, Depth(q), e) then
      q !in t.tables && q in t.leaves && t.leaves[q] == e
    else
      q in t.tables && t.tables[q] == e.frame && q !in t.leaves
  }

  /** Every table sits below a table, in a frame of its own below 4 GiB. */
  ghost predicate Shape(t: Tree, frames: nat) {
    && 4 <= t.depth <= 5
    && Root in t.tables && t.tables[Root] == t.root
    && (forall p :: p in t.tables ==> Depth(p) < t.depth && t.tables[p] < frames && t.tables[p] < IDENTITY_FRAMES)
    && (forall p {:trigger p.up} :: p in t.tables && p.Child? ==> p.up in t.tables)
    && Root !in t.leaves
    && (forall q {:trigger q.up} :: q in t.leaves && q.Child? ==> q.up in t.tables)
    && (forall p, q :: p in t.tables && q in t.tables && t.tables[p] == t.tables[q] ==> p == q)
  }

  /** Memory holds exactly this tree. */
  ghost predicate Holds(mem: seq<Page>, t: Tree) {
    && Shape(t, |mem|)
    && (forall p, i: Index :: p in t.tables ==> EntryAgrees(mem, t, p, i))
  }

  function WriteEntry(mem: seq<Page>, frame: nat, i: Index, w: Word): (r: seq<Page>)
    requires frame < |mem|
    ensures |r| == |mem|
  {
    mem[frame := mem[frame][i := w]]
  }

  /** Storing an entry that maps memory: insertion or update of one leaf. */
  lemma StoreLeaf(mem: seq<Page>, t: Tree, q: Node, w: Word)
    requires Holds(mem, t)
    requires q.Child? && q.up in t.tables && q !in t.tables
    requires w.flags.present && MapsMemory(t.depth, Depth(q), w)
    ensures Holds(WriteEntry(mem, t.tables[q.up], q.index, w), t.(leaves := t.leaves[q := w]))
  {
    var mem', t' := WriteEntry(mem, t.tables[q.up], q.index, w), t.(leaves := t.leaves[q := w]);
    LeafShape(t, |mem|, q, w);
    forall p, i: Index | p in t.tables
      ensures EntryAgrees(mem', t', p, i)
    {
      StoreKeepsEntry(mem, t, q, w, p, i);
    }
  }

  lemma LeafShape(t: Tree, frames: nat, q: Node, w: Word)
    requires Shape(t, frames) && q.Child? && q.up in t.tables
    ensures Shape(t.(leaves := t.leaves[q := w]), frames)
  {
  }

  lemma StoreKeepsEntry(mem: seq<Page>, t: Tree, q: Node, w: Word, p: Node, i: Index)
    requires Shape(t, |mem|) && q.Child? && q.up in t.tables && q !in t.tables
    requires w.flags.present && MapsMemory(t.depth, Depth(q), w)
    requires p in t.tables && EntryAgrees(mem, t, p, i)
    ensures EntryAgrees(WriteEntry(mem, t.tables[q.up], q.index, w), t.(leaves := t.leaves[q := w]), p, i)
  {
  }

  /** Clearing such an entry: deletion of one leaf. */
  lemma EraseLeaf(mem: seq<Page>, t: Tree, q: Node)
    requires Holds(mem, t) && q in t.leaves
    ensures Holds(WriteEntry(mem, t.tables[q.up], q.index, ZERO), t.(leaves := t.leaves - {q}))
  {
    var mem', t' := WriteEntry(mem, t.tables[q.up], q.index, ZERO), t.(leaves := t.leaves - {q});
    forall p, i: Index | p in t.tables
      ensures EntryAgrees(mem', t', p, i)
    {
      assert EntryAgrees(mem, t, p, i);
    }
  }

  /** Hanging an empty table into the tree changes no leaf. */
  lemma LinkTable(mem: seq<Page>, t: Tree, q: Node, w: Word)
    requires Holds(mem, t)
    requires q.Child? && q.up in t.tables && Depth(q) < t.depth
    requires !mem[t.tables[q.up]][q.index].flags.present
    requires w.flags.present && !w.flags.huge
    requires w.frame < |mem| && w.frame < IDENTITY_FRAMES && w.frame !in t.tables.Values
    requires mem[w.frame] == ZeroPage()
    ensures Holds(WriteEntry(mem, t.tables[q.up], q.index, w), t.(tables := t.tables[q := w.frame]))
  {
    var mem', t' := WriteEntry(mem, t.tables[q.up], q.index, w), t.(tables := t.tables[q := w.frame]);
    assert EntryAgrees(mem, t, q.up, q.index);
    assert forall p :: p in t.tables ==> t.tables[p] in t.tables.Values;
    LinkShape(t, |mem|, q, w.frame);
    forall p, i: Index | p in t'.tables
      ensures EntryAgrees(mem', t', p, i)
    {
      if p == q {
        LinkedTableIsEmpty(mem, t, q, w, i);
      } else {
        LinkKeepsEntry(mem, t, q, w, p, i);
      }
    }
  }

  lemma LinkKeepsEntry(mem: seq<Page>, t: Tree, q: Node, w: Word, p: Node, i: Index)
    requires Shape(t, |mem|) && q.Child? && q.up in t.tables && q !in t.tables && q !in t.leaves
    requires p in t.tables && EntryAgrees(mem, t, p, i)
    requires w.flags.present && !w.flags.huge && Depth(q) < t.depth
    ensures EntryAgrees(WriteEntry(mem, t.tables[q.up], q.index, w), t.(tables := t.tables[q := w.frame]), p, i)
  {
  }

  lemma LinkShape(t: Tree, frames: nat, q: Node, frame: nat)
    requires Shape(t, frames)
    requires q.Child? && q.up in t.tables && Depth(q) < t.depth
    requires frame < frames && frame < IDENTITY_FRAMES
    requires forall p :: p in t.tables ==> t.tables[p] != frame
    ensures Shape(t.(tables := t.tables[q := frame]), frames)
  {
  }

  lemma LinkedTableIsEmpty(mem: seq<Page>, t: Tree, q: Node, w: Word, i: Index)
    requires Holds(mem, t) && q.Child? && q.up in t.tables && q !in t.tables
    requires w.frame < |mem| && w.frame !in t.tables.Values && mem[w.frame] == ZeroPage()
    ensures EntryAgrees(WriteEntry(mem, t.tables[q.up], q.index, w), t.(tables := t.tables[q := w.frame]), q, i)
  {
    assert t.tables[q.up] in t.tables.Values;
    assert ZeroPage()[i] == ZERO;
    assert Child(q, i).up == q;
  }

  /** Cutting an empty table off changes no leaf. */
  lemma UnlinkTable(mem: seq<Page>, t: Tree, q: Node)
    requires Holds(mem, t) && q in t.tables && q.Child?
    requires mem[t.tables[q]] == ZeroPage()
    ensures Holds(WriteEntry(mem, t.tables[q.up], q.index, ZERO), t.(tables := t.tables - {q}))
  {
    var mem', t' := WriteEntry(mem, t.tables[q.up], q.index, ZERO), t.(tables := t.tables - {q});
    forall p: Node {:trigger p.up} | (p in t.tables || p in t.leaves) && p.Child?
      ensures p.up != q
    {
      NothingBelow(mem, t, q, p);
    }
    UnlinkShape(t, |mem|, q);
    assert EntryAgrees(mem, t, q.up, q.index);
    forall p, i: Index | p in t'.tables
      ensures EntryAgrees(mem', t', p, i)
    {
      UnlinkKeepsEntry(mem, t, q, p, i);
    }
  }

  lemma NothingBelow(mem: seq<Page>, t: Tree, q: Node, p: Node)
    requires Holds(mem, t) && q in t.tables && mem[t.tables[q]] == ZeroPage()
    requires (p in t.tables || p in t.leaves) && p.Child?
    ensures p.up != q
  {
    assert p.up == q ==> EntryAgrees(mem, t, q, p.index);
  }

  lemma UnlinkShape(t: Tree, frames: nat, q: Node)
    requires Shape(t, frames) && q.Child?
    requires forall p {:trigger p.up} :: (p in t.tables || p in t.leaves) && p.Child? ==> p.up != q
    ensures Shape(t.(tables := t.tables - {q}), frames)
  {
  }

  lemma UnlinkKeepsEntry(mem: seq<Page>, t: Tree, q: Node, p: Node, i: Index)
    requires Shape(t, |mem|) && q in t.tables && q.Child? && EntryAgrees(mem, t, q.up, q.index)
    requires p in t.tables && p != q && EntryAgrees(mem, t, p, i)
    ensures EntryAgrees(WriteEntry(mem, t.tables[q.up], q.index, ZERO), t.(tables := t.tables - {q}), p, i)
  {
  }

  /** What happens in frames that hold no table does not concern the tree. */
  lemma OtherFrame(mem: seq<Page>, t: Tree, frame: nat, page: Page)
    requires Holds(mem, t) && frame < |mem| && frame !in t.tables.Values
    ensures Holds(mem[frame := page], t)
  {
    var mem' := mem[frame := page];
    forall p, i: Index | p in t.tables
      ensures EntryAgrees(mem', t, p, i)
    {
      assert t.tables[p] in t.tables.Values;
      assert EntryAgrees(mem, t, p, i);
    }
  }

  // ---- the walk ----

  /** The hardware walk: from the table in `frame`, at distance `d` from the root, along the path `v`. */
  function Walk(mem: seq<Page>, depth: nat, v: Node, d: nat, frame: nat): Option<(Node, Word)>
    requires d < depth == Depth(v)
    decreases depth - d
  {
    if frame >= |mem| then None
    else
      var q := Prefix(v, d + 1);
      var e := mem[frame][q.index];
      if !e.flags.present then None
      else if MapsMemory(depth, d + 1, e) then Some((q, e))
      else Walk(mem, depth, v, d + 1, e.frame)
  }

  /** What the walk finds is a leaf on its path. */
  lemma {:induction false} WalkIsSound(mem: seq<Page>, t: Tree, v: Node, d: nat)
    requires Holds(mem, t) && Depth(v) == t.depth && d < t.depth && Prefix(v, d) in t.tables
    ensures var r := Walk(mem, t.depth, v, d, t.tables[Prefix(v, d)]);
            r.Some? ==> var (q, e) := r.value; q in t.leaves && t.leaves[q] == e && On(q, v) && Depth(q) > d
    decreases t.depth - d
  {
    PrefixStep(v, d);
    var p, q := Prefix(v, d), Prefix(v, d + 1);
    var e := mem[t.tables[p]][q.index];
    assert EntryAgrees(mem, t, p, q.index);
    if e.flags.present && !MapsMemory(t.depth, d + 1, e) {
      WalkIsSound(mem, t, v, d + 1);
    }
  }

  /** A leaf on the path is what the walk finds; so there is at most one. */
  lemma {:induction false} WalkReachesLeaf(mem: seq<Page>, t: Tree, v: Node, d: nat, l: Node)
    requires Holds(mem, t) && Depth(v) == t.depth && d < t.depth && Prefix(v, d) in t.tables
    requires l in t.leaves && On(l, v) && d < Depth(l)
    ensures Walk(mem, t.depth, v, d, t.tables[Prefix(v, d)]) == Some((l, t.leaves[l]))
    decreases t.depth - d
  {
    hide Holds, EntryAgrees, Walk;
    LeafStep(mem, t, v, d, l);
    if d + 1 < Depth(l) {
      WalkReachesLeaf(mem, t, v, d + 1, l);
    }
  }

  /** One step of the walk towards a leaf: the leaf itself, or the table above it. */
  lemma LeafStep(mem: seq<Page>, t: Tree, v: Node, d: nat, l: Node)
    requires Holds(mem, t) && Depth(v) == t.depth && d < t.depth && Prefix(v, d) in t.tables
    requires l in t.leaves && On(l, v) && d < Depth(l)
    ensures d + 1 <= Depth(l) <= t.depth && t.tables[Prefix(v, d)] < |mem|
    ensures d + 1 == Depth(l) ==>
              Walk(mem, t.depth, v, d, t.tables[Prefix(v, d)]) == Some((l, t.leaves[l]))
    ensures d + 1 < Depth(l) ==>
              && Prefix(v, d + 1) in t.tables
              && Walk(mem, t.depth, v, d, t.tables[Prefix(v, d)]) ==
                 Walk(mem, t.depth, v, d + 1, t.tables[Prefix(v, d + 1)])
  {
    PrefixStep(v, d);
    var p, q := Prefix(v, d), Prefix(v, d + 1);
    assert EntryAgrees(mem, t, p, q.index);
    if d + 1 < Depth(l) {
      AncestorsAreTables(mem, t, l, d + 1);
      PrefixOfPrefix(v, Depth(l), d + 1);
    }
    hide Holds;
  }

  /** Starting the walk at any table on the path makes no difference. */
  lemma {:induction false} WalkFromTable(mem: seq<Page>, t: Tree, v: Node, d: nat)
    requires Holds(mem, t) && Depth(v) == t.depth && d < t.depth && Prefix(v, d) in t.tables
    ensures Walk(mem, t.depth, v, d, t.tables[Prefix(v, d)]) == Walk(mem, t.depth, v, 0, t.root)
  {
    if d > 0 {
      PrefixStep(v, d - 1);
      var q := Prefix(v, d);
      assert EntryAgrees(mem, t, q.up, q.index);
      WalkFromTable(mem, t, v, d - 1);
    }
  }

  /** Above a leaf there are only tables. */
  lemma {:induction false} AncestorsAreTables(mem: seq<Page>, t: Tree, q: Node, d: nat)
    requires Holds(mem, t) && (q in t.leaves || q in t.tables) && d < Depth(q)
    ensures Prefix(q, d) in t.tables && Prefix(q, d) !in t.leaves
    decreases Depth(q)
  {
    if d + 1 == Depth(q) {
      if q.up.Child? {
        assert EntryAgrees(mem, t, q.up.up, q.up.index);
      }
    } else {
      AncestorsAreTables(mem, t, q.up, d);
    }
  }

  // ---- trees without useless tables ----

  ghost predicate HasChild(t: Tree, p: Node) {
    exists i: Index :: Child(p, i) in t.tables || Child(p, i) in t.leaves
  }

  /** Every table except the root is there for something. */
  ghost predicate Tidy(t: Tree) {
    forall p :: p in t.tables && p.Child? ==> HasChild(t, p)
  }

  /** A table is all zeros exactly if nothing hangs below it. */
  lemma EmptyTable(mem: seq<Page>, t: Tree, p: Node)
    requires Holds(mem, t) && p in t.tables
    ensures mem[t.tables[p]] == ZeroPage() <==> !HasChild(t, p)
  {
    assert forall i: Index :: EntryAgrees(mem, t, p, i);
    if !HasChild(t, p) {
      forall i: Index
        ensures mem[t.tables[p]][i] == ZERO
      {
        assert EntryAgrees(mem, t, p, i);
        assert Child(p, i) !in t.tables && Child(p, i) !in t.leaves;
      }
      assert mem[t.tables[p]] == ZeroPage();
    } else {
      var i: Index :| Child(p, i) in t.tables || Child(p, i) in t.leaves;
      assert EntryAgrees(mem, t, p, i);
      assert ZeroPage()[i] == ZERO;
    }
  }

  /** Below every table of a tidy tree there is a leaf. */
  lemma {:induction false} LeafBelow(mem: seq<Page>, t: Tree, p: Node) returns (q: Node)
    requires Holds(mem, t) && Tidy(t) && p in t.tables && p.Child?
    ensures q in t.leaves && Depth(p) < Depth(q) && On(p, q)
    decreases t.depth - Depth(p)
  {
    assert HasChild(t, p);
    var i: Index :| Child(p, i) in t.tables || Child(p, i) in t.leaves;
    if Child(p, i) in t.leaves {
      q := Child(p, i);
    } else {
      q := LeafBelow(mem, t, Child(p, i));
      PrefixOfPrefix(q, Depth(p) + 1, Depth(p));
    }
  }

  /** The positions of the tables of a tidy tree are determined by its leaves. */
  lemma LeavesDetermineTables(mem: seq<Page>, t: Tree, mem': seq<Page>, t': Tree)
    requires Holds(mem, t) && Tidy(t) && Holds(mem', t') && Tidy(t')
    requires t.leaves.Keys == t'.leaves.Keys
    ensures t.tables.Keys == t'.tables.Keys
  {
    forall p | p in t.tables
      ensures p in t'.tables
    {
      if p.Child? {
        var q := LeafBelow(mem, t, p);
        AncestorsAreTables(mem', t', q, Depth(p));
      }
    }
    forall p | p in t'.tables
      ensures p in t.tables
    {
      if p.Child? {
        var q := LeafBelow(mem', t', p);
        AncestorsAreTables(mem, t, q, Depth(p));
      }
    }
  }

  /** Tidy, except that the table at `p` may have become useless. */
  ghost predicate TidyExcept(t: Tree, p: Node) {
    forall q :: q in t.tables && q.Child? && q != p ==> HasChild(t, q)
  }

  lemma EraseKeepsTidy(t: Tree, v: Node)
    requires Tidy(t) && v.Child?
    ensures TidyExcept(t.(leaves := t.leaves - {v}), v.up)
  {
    var t' := t.(leaves := t.leaves - {v});
    forall q | q in t'.tables && q.Child? && q != v.up
      ensures HasChild(t', q)
    {
      assert HasChild(t, q);
      var i: Index :| Child(q, i) in t.tables || Child(q, i) in t.leaves;
      assert Child(q, i) in t'.tables || Child(q, i) in t'.leaves;
    }
  }

  lemma CutKeepsTidy(t: Tree, p: Node)
    requires TidyExcept(t, p) && p.Child?
    ensures TidyExcept(t.(tables := t.tables - {p}), p.up)
  {
    var t' := t.(tables := t.tables - {p});
    forall q | q in t'.tables && q.Child? && q != p.up
      ensures HasChild(t', q)
    {
      assert HasChild(t, q);
      var i: Index :| Child(q, i) in t.tables || Child(q, i) in t.leaves;
      assert Child(q, i) in t'.tables || Child(q, i) in t'.leaves;
    }
  }

  /** Adding a leaf, and tables on the way to it, leaves no table useless. */
  lemma GrowthKeepsTidy(mem: seq<Page>, t: Tree, t': Tree, v: Node)
    requires Tidy(t) && Holds(mem, t')
    requires forall p :: p in t.tables ==> p in t'.tables
    requires forall q :: q in t.leaves ==> q in t'.leaves
    requires v in t'.leaves && Depth(v) == t'.depth
    requires forall p :: p in t'.tables && p !in t.tables ==> On(p, v)
    ensures Tidy(t')
  {
    forall p | p in t'.tables && p.Child?
      ensures HasChild(t', p)
    {
      if p in t.tables {
        assert HasChild(t, p);
        var i: Index :| Child(p, i) in t.tables || Child(p, i) in t.leaves;
        assert Child(p, i) in t'.tables || Child(p, i) in t'.leaves;
      } else {
        LeafPathHasChild(mem, t', p, v);
      }
    }
  }

  lemma LeafPathHasChild(mem: seq<Page>, t: Tree, p: Node, v: Node)
    requires Holds(mem, t) && v in t.leaves && p in t.tables && On(p, v) && Depth(p) < Depth(v)
    ensures HasChild(t, p)
  {
    var d := Depth(p);
    PrefixStep(v, d);
    var q := Prefix(v, d + 1);
    if d + 1 < Depth(v) {
      AncestorsAreTables(mem, t, v, d + 1);
    }
    assert q == Child(p, q.index);
  }
}
