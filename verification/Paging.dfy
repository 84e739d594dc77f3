/** The paging manager: mapping, unmapping and translating 4 KiB pages in 4- or 5-level tables. */
module Paging {
  import opened Bitmap
  import opened Division
  import opened E820
  import opened Results
  import opened Sizes
  import opened PageEntry
  import opened VirtAddr
  import opened PageTree
  import opened AccessRights
  import opened Pmm

  datatype PagingError =
    | PhysUnaligned
    | NotCanonical
    | NotMapped
    | NoTableFrame
    | TableUnreachable
    | FreeFailed

  /** Everything an operation on the tables can change, except the caches of the processor. */
  datatype Snapshot = Snapshot(mem: seq<Page>, used: seq<bool>, tree: Tree)

  ghost predicate SameSize(a: Snapshot, b: Snapshot) {
    && |b.mem| == |a.mem| && |b.used| == |a.used|
    && b.tree.root == a.tree.root && b.tree.depth == a.tree.depth
  }

  /** From `a` to `b` tables were added, all of them on the path `v` and in frames that were free;
      only frames of tables were written. */
  ghost predicate GrownLoosely(a: Snapshot, b: Snapshot, v: Node) {
    && SameSize(a, b)
    && (forall p :: p in a.tree.tables ==> p in b.tree.tables && b.tree.tables[p] == a.tree.tables[p])
    && (forall p :: p in b.tree.tables && p !in a.tree.tables ==>
          On(p, v) && b.tree.tables[p] < |a.used| && !a.used[b.tree.tables[p]])
    && (forall f :: 0 <= f < |a.used| && (a.used[f] || f in b.tree.tables.Values) ==> b.used[f])
    && (forall f :: 0 <= f < |a.mem| && f !in b.tree.tables.Values ==> b.mem[f] == a.mem[f])
  }

  /** The same, and exactly the frames of the new tables were taken from the allocator. */
  ghost predicate Grown(a: Snapshot, b: Snapshot, v: Node) {
    && GrownLoosely(a, b, v)
    && (forall f :: 0 <= f < |a.used| && b.used[f] ==> a.used[f] || f in b.tree.tables.Values)
  }

  /** From `a` to `b` tables on the path `v` were removed, and exactly their frames given back. */
  ghost predicate Shrunk(a: Snapshot, b: Snapshot, v: Node) {
    && SameSize(a, b)
    && (forall p :: p in b.tree.tables ==> p in a.tree.tables && b.tree.tables[p] == a.tree.tables[p])
    && (forall p :: p in a.tree.tables && p !in b.tree.tables ==> On(p, v))
    && (forall f :: 0 <= f < |a.used| ==>
          (b.used[f] <==> a.used[f] && (f in a.tree.tables.Values ==> f in b.tree.tables.Values)))
    && (forall f :: 0 <= f < |a.mem| && f !in a.tree.tables.Values ==> b.mem[f] == a.mem[f])
  }

  /** From `a` to `b` no table went, the entries that pointed to tables kept their flags, and those that point to new
      ones admit stores, and user mode if `user` says so. */
  ghost predicate TablesAsAsked(a: Snapshot, b: Snapshot, user: bool) {
    && (forall p :: p in a.tree.tables ==> p in b.tree.tables)
    && TableFlagsStay(a.mem, a.tree, b.mem, b.tree)
    && NewTablesAdmit(a.mem, a.tree, b.mem, b.tree, user)
  }

  /** From `a` to `b` the entries that point to tables in both kept their flags. */
  ghost predicate FlagsStay(a: Snapshot, b: Snapshot) {
    TableFlagsStay(a.mem, a.tree, b.mem, b.tree)
  }

  lemma AsAskedTwice(a: Snapshot, b: Snapshot, c: Snapshot, user: bool)
    requires TablesAsAsked(a, b, user) && TablesAsAsked(b, c, user)
    ensures TablesAsAsked(a, c, user)
  {
    hide TableFlagsStay, NewTablesAdmit;
    FlagsStayTwice(a.mem, a.tree, b.mem, b.tree, c.mem, c.tree);
    NewTablesTwice(a.mem, a.tree, b.mem, b.tree, c.mem, c.tree, user);
  }

  /** Flags that stay while tables go stay altogether. */
  lemma StayTwice(a: Snapshot, b: Snapshot, c: Snapshot)
    requires FlagsStay(a, b) && FlagsStay(b, c) && forall p :: p in c.tree.tables ==> p in b.tree.tables
    ensures FlagsStay(a, c)
  {
    hide TableFlagsStay;
    FlagsStayTwice(a.mem, a.tree, b.mem, b.tree, c.mem, c.tree);
  }

  lemma NothingAsked(a: Snapshot, used: seq<bool>, user: bool)
    ensures TablesAsAsked(a, a.(used := used), user) && FlagsStay(a, a.(used := used))
  {
    SameFlags(a.mem, a.tree);
  }

  /** A table linked for this request. */
  lemma LinkAsAsked(a: Snapshot, frame: nat, used: seq<bool>, q: Node, w: Word, user: bool)
    requires Holds(a.mem, a.tree) && q.Child? && q.up in a.tree.tables && q !in a.tree.tables
    requires frame < |a.mem| && frame !in a.tree.tables.Values
    requires w.flags == Flags(true, true, user, false, false, false, false, false, false, false, false, false, 0)
    ensures TablesAsAsked(a, Snapshot(WriteEntry(a.mem[frame := ZeroPage()], a.tree.tables[q.up], q.index, w),
                                      used, a.tree.(tables := a.tree.tables[q := frame])), user)
  {
    hide FlagsAt, EntryAgrees;
    LinkedFlags(a.mem, a.tree, q, w, frame, user);
  }

  lemma StoreAsAsked(a: Snapshot, b: Snapshot, v: Node, w: Word, leaves: map<Node, Word>, user: bool)
    requires Holds(b.mem, b.tree) && v.Child? && v.up in b.tree.tables && v !in b.tree.tables
    ensures var c := Snapshot(WriteEntry(b.mem, b.tree.tables[v.up], v.index, w), b.used, b.tree.(leaves := leaves));
            && (TablesAsAsked(a, b, user) ==> TablesAsAsked(a, c, user))
            && FlagsStay(b, c)
  {
    hide EntryAgrees, FlagsAt;
    StoreKeepsFlags(b.mem, b.tree, v, w, leaves);
    var c := Snapshot(WriteEntry(b.mem, b.tree.tables[v.up], v.index, w), b.used, b.tree.(leaves := leaves));
    assert TablesAsAsked(b, c, user);
    if TablesAsAsked(a, b, user) {
      AsAskedTwice(a, b, c, user);
    }
  }

  /** Why a table could not be had: every frame is in use, or the allocator handed out a frame above the identity
      map, which is then lost. */
  ghost predicate OutOfFrames(error: PagingError, before: seq<bool>, after: seq<bool>) {
    |after| == |before| &&
    match error
    case NoTableFrame => forall f :: 0 <= f < |after| ==> after[f]
    case TableUnreachable => exists f :: IDENTITY_FRAMES <= f < |after| && !before[f] && after[f]
    case _ => false
  }

  lemma OutOfFramesSince(error: PagingError, a: Snapshot, b: Snapshot, v: Node, after: seq<bool>)
    requires Grown(a, b, v) && OutOfFrames(error, b.used, after)
    ensures OutOfFrames(error, a.used, after)
  {
  }

  lemma GrownTransitive(a: Snapshot, b: Snapshot, c: Snapshot, v: Node)
    requires GrownLoosely(a, b, v) && GrownLoosely(b, c, v)
    ensures GrownLoosely(a, c, v)
    ensures Grown(a, b, v) && Grown(b, c, v) ==> Grown(a, c, v)
  {
    assert forall f :: f in b.tree.tables.Values ==> f in c.tree.tables.Values;
  }

  lemma GrownFurther(a: Snapshot, b: Snapshot, c: Snapshot, q: Node, v: Node)
    requires Grown(a, b, v) && GrownLoosely(b, c, q) && On(q, v)
    ensures GrownLoosely(a, c, v)
    ensures Grown(b, c, q) ==> Grown(a, c, v)
    ensures forall p :: p in a.tree.tables ==> p in b.tree.tables
  {
    GrownAlong(b, c, q, v);
    GrownTransitive(a, b, c, v);
  }

  lemma GrownAlong(a: Snapshot, b: Snapshot, q: Node, v: Node)
    requires GrownLoosely(a, b, q) && On(q, v)
    ensures GrownLoosely(a, b, v)
    ensures Grown(a, b, q) ==> Grown(a, b, v)
  {
    forall p | p in b.tree.tables && p !in a.tree.tables
      ensures On(p, v)
    {
      PrefixOfPrefix(v, Depth(q), Depth(p));
    }
  }

  lemma NotGrown(a: Snapshot, v: Node)
    requires forall f :: 0 <= f < |a.used| && f in a.tree.tables.Values ==> a.used[f]
    ensures Grown(a, a, v)
  {
  }

  /** An allocation that fails may leave a frame behind; nothing else changes. */
  lemma LeakIsLooseGrowth(a: Snapshot, used: seq<bool>, v: Node)
    requires GrownLoosely(a, a, v) && |used| == |a.used|
    requires forall f :: 0 <= f < |used| && a.used[f] ==> used[f]
    ensures GrownLoosely(a, a.(used := used), v)
  {
  }

  /** Frames that held data before tables were added still do, and their contents are the same. */
  lemma GrowthKeepsFrame(a: Snapshot, b: Snapshot, v: Node, f: nat)
    requires GrownLoosely(a, b, v) && HoldsData(a.used, a.tree, f) && |a.used| <= |a.mem|
    ensures |b.mem| == |a.mem| && HoldsData(b.used, b.tree, f) && b.mem[f] == a.mem[f]
  {
    forall p | p in b.tree.tables
      ensures b.tree.tables[p] != f
    {
      assert p in a.tree.tables ==> a.tree.tables[p] in a.tree.tables.Values;
    }
  }

  /** Linking one new table is growth. */
  lemma LinkGrows(a: Snapshot, frame: nat, q: Node, w: Word)
    requires Consistent(a.mem, a.tree, a.used)
    requires q.Child? && q.up in a.tree.tables && q !in a.tree.tables && a.tree.tables[q.up] < |a.mem|
    requires frame < |a.used| <= |a.mem| && !a.used[frame]
    ensures GrownLoosely(a, Snapshot(WriteEntry(a.mem[frame := ZeroPage()], a.tree.tables[q.up], q.index, w),
                                     a.used[frame := true], a.tree.(tables := a.tree.tables[q := frame])), q)
    ensures Grown(a, Snapshot(WriteEntry(a.mem[frame := ZeroPage()], a.tree.tables[q.up], q.index, w),
                              a.used[frame := true], a.tree.(tables := a.tree.tables[q := frame])), q)
  {
    hide Holds;
    var t' := a.tree.tables[q := frame];
    assert t'[q] == frame && frame in t'.Values;
    assert t'[q.up] == a.tree.tables[q.up] && a.tree.tables[q.up] in t'.Values;
    forall f | 0 <= f < |a.used| && f in t'.Values
      ensures f == frame || a.used[f]
    {
      var p :| p in t' && t'[p] == f;
    }
  }

  /** Memory holds the tree, and the allocator knows frame 0 and every table as used. */
  ghost predicate Consistent(mem: seq<Page>, t: Tree, used: seq<bool>) {
    && Holds(mem, t)
    && 0 < |used| <= |mem| <= FRAME_LIMIT && used[0]
    && (forall p :: p in t.tables ==> 0 < t.tables[p] < |used| && used[t.tables[p]])
  }

  /** A frame that holds data: allocated, not a table, and not the reserved frame 0. */
  ghost predicate HoldsData(used: seq<bool>, t: Tree, f: nat) {
    0 < f < |used| && used[f] && f !in t.tables.Values
  }

  /** Cached translations and table addresses agree with the tree. */
  ghost predicate Current(tlb: map<Node, Word>, walkCache: map<Node, nat>, t: Tree) {
    && (forall q :: q in tlb ==> q in t.leaves && t.leaves[q] == tlb[q])
    && (forall p :: p in walkCache ==> p in t.tables && t.tables[p] == walkCache[p])
  }

  /** What the processor keeps when it is told to forget the page `v`. */
  function Forget(tlb: map<Node, Word>, v: Node): map<Node, Word> {
    map q | q in tlb && !On(q, v) :: tlb[q]
  }

  /** Forgetting the page whose leaf changed is enough to be current again. */
  lemma ForgetIsEnough(tlb: map<Node, Word>, walkCache: map<Node, nat>, t: Tree, t': Tree, v: Node)
    requires Current(tlb, walkCache, t)
    requires forall q :: q in t.leaves && q != v ==> q in t'.leaves && t'.leaves[q] == t.leaves[q]
    ensures Current(Forget(tlb, v), map[], t')
  {
    assert On(v, v);
  }

  /** Clearing an entry of a table is not a change outside the tables. */
  lemma EraseIsShrinking(a: Snapshot, v: Node)
    requires v.Child? && v.up in a.tree.tables && a.tree.tables[v.up] < |a.mem|
    ensures Shrunk(a, Snapshot(WriteEntry(a.mem, a.tree.tables[v.up], v.index, ZERO), a.used,
                               a.tree.(leaves := a.tree.leaves - {v})), v)
  {
    assert a.tree.tables[v.up] in a.tree.tables.Values;
  }

  /** Cutting one more table off the path and freeing its frame. */
  lemma ShrunkFurther(a: Snapshot, b: Snapshot, v: Node, q: Node)
    requires Shrunk(a, b, v) && On(q, v) && q.Child? && q in b.tree.tables && q.up in b.tree.tables
    requires b.tree.tables[q.up] < |b.mem| && b.tree.tables[q] < |b.used|
    requires forall p :: p in b.tree.tables && b.tree.tables[p] == b.tree.tables[q] ==> p == q
    ensures Shrunk(a, Snapshot(WriteEntry(b.mem, b.tree.tables[q.up], q.index, ZERO),
                               b.used[b.tree.tables[q] := false], b.tree.(tables := b.tree.tables - {q})), v)
  {
    var f0, t' := b.tree.tables[q], b.tree.tables - {q};
    assert a.tree.tables[q] == f0 && f0 in a.tree.tables.Values;
    assert a.tree.tables[q.up] in a.tree.tables.Values;
    forall f
      ensures f in t'.Values <==> f in b.tree.tables.Values && f != f0
    {
      if f in b.tree.tables.Values && f != f0 {
        var p :| p in b.tree.tables && b.tree.tables[p] == f;
        assert p in t' && t'[p] == f;
      }
    }
  }

  /** New tables make nothing stale. */
  lemma GrowthKeepsCurrent(tlb: map<Node, Word>, walkCache: map<Node, nat>, a: Snapshot, b: Snapshot, v: Node)
    requires Current(tlb, walkCache, a.tree) && GrownLoosely(a, b, v) && b.tree.leaves == a.tree.leaves
    ensures Current(tlb, walkCache, b.tree)
  {
  }

  /** Writing an entry of a table is not a change outside the tables. */
  lemma StoreIsGrowth(a: Snapshot, b: Snapshot, v: Node, w: Word)
    requires Grown(a, b, v) && v.Child? && v.up in b.tree.tables && b.tree.tables[v.up] < |b.mem|
    ensures Grown(a, Snapshot(WriteEntry(b.mem, b.tree.tables[v.up], v.index, w), b.used,
                              b.tree.(leaves := b.tree.leaves[v := w])), v)
  {
    assert b.tree.tables[v.up] in b.tree.tables.Values;
  }

  /** `tables[d]` is the frame of the table at distance `d` from the root on the path `v`. */
  ghost predicate PathTables(t: Tree, v: Node, tables: seq<nat>) {
    |tables| <= Depth(v)
    && forall d :: 0 <= d < |tables| ==> Prefix(v, d) in t.tables && t.tables[Prefix(v, d)] == tables[d]
  }

  lemma ExtendPathTables(t: Tree, v: Node, tables: seq<nat>, frame: nat)
    requires PathTables(t, v, tables) && |tables| < Depth(v)
    requires Prefix(v, |tables|) in t.tables && t.tables[Prefix(v, |tables|)] == frame
    ensures PathTables(t, v, tables + [frame])
  {
  }

  lemma PathTablesAt(t: Tree, v: Node, tables: seq<nat>, d: nat)
    requires PathTables(t, v, tables) && d < |tables|
    ensures Prefix(v, d) in t.tables && t.tables[Prefix(v, d)] == tables[d]
  {
  }

  /** The upper part of the path is still there when the table at distance `d` is not. */
  lemma CutPathTables(t: Tree, v: Node, tables: seq<nat>, d: nat)
    requires PathTables(t, v, tables) && d < |tables|
    ensures PathTables(t.(tables := t.tables - {Prefix(v, d)}), v, tables[..d])
  {
  }

  /** One step further down the path `v`, short of its end. */
  lemma PathStep(v: Node, d: nat)
    requires d + 1 < Depth(v)
    ensures var q := Prefix(v, d + 1);
            q.Child? && q.up == Prefix(v, d) && On(q, v) && q != v && Depth(q) == d + 1
  {
    PrefixStep(v, d);
  }

  /** The tables on the way to a table. */
  lemma UpperTables(mem: seq<Page>, t: Tree, v: Node, d: nat)
    requires Holds(mem, t) && v.Child? && d < Depth(v)
    ensures v.up in t.tables ==> Prefix(v, d) in t.tables
  {
    if v.up in t.tables && d + 1 < Depth(v) {
      AncestorsAreTables(mem, t, v.up, d);
    }
  }

  /** Nothing but 4 KiB pages is mapped on the way to `v`: no huge entry covers it. */
  ghost predicate NoHugeOn(leaves: map<Node, Word>, v: Node) {
    forall l :: l in leaves && On(l, v) ==> l == v
  }

  /** Mapping a small page puts no huge page in the way of another. */
  lemma NoHugeStays(leaves: map<Node, Word>, u: Node, w: Word)
    ensures forall v :: Depth(v) == Depth(u) && NoHugeOn(leaves, v) ==> NoHugeOn(leaves[u := w], v)
  {
  }

  /** Growth by the leaf `v` and tables above it keeps the tree free of useless tables. */
  lemma GrownTidy(a: Snapshot, b: Snapshot, v: Node)
    requires Grown(a, b, v) && Tidy(a.tree) && Holds(b.mem, b.tree)
    requires v in b.tree.leaves && Depth(v) == b.tree.depth
    requires forall q :: q in a.tree.leaves ==> q in b.tree.leaves
    ensures Tidy(b.tree)
  {
    GrowthKeepsTidy(b.mem, a.tree, b.tree, v);
  }

  /** The physical address an entry gives to `va`, `above` levels over the last one:
      a 4 KiB, 2 MiB or 1 GiB page. */
  function PhysicalAddress(e: Word, above: nat, va: Address): nat {
    if above == 0 then e.frame * PAGE_SIZE + va % PAGE_SIZE
    else if above == 1 then e.frame / 512 * 512 * PAGE_SIZE + va % (512 * PAGE_SIZE)
    else e.frame / 0x4_0000 * 0x4_0000 * PAGE_SIZE + va % (0x4_0000 * PAGE_SIZE)
  }

  /** A 4 KiB page. */
  lemma SmallAddress(e: Word, va: Address)
    ensures PhysicalAddress(e, 0, va) / 0x1000 == e.frame && PhysicalAddress(e, 0, va) % 0x1000 == va % 0x1000
  {
  }

  /** A 2 MiB page. */
  lemma LargeAddress(e: Word, va: Address)
    ensures PhysicalAddress(e, 1, va) / 0x20_0000 == e.frame / 512
    ensures PhysicalAddress(e, 1, va) % 0x20_0000 == va % 0x20_0000
  {
    var f: nat := e.frame;
    QuotientIs(PhysicalAddress(e, 1, va), 0x20_0000, f / 512, va % 0x20_0000);
  }

  /** A 1 GiB page. */
  lemma HugeAddress(e: Word, va: Address)
    ensures PhysicalAddress(e, 2, va) / 0x4000_0000 == e.frame / 0x4_0000
    ensures PhysicalAddress(e, 2, va) % 0x4000_0000 == va % 0x4000_0000
  {
    var f: nat := e.frame;
    QuotientIs(PhysicalAddress(e, 2, va), 0x4000_0000, f / 0x4_0000, va % 0x4000_0000);
  }

  class PagingManager {
    const mode: Mode
    /** Frame of the top table. */
    const root: nat
    const pmm: PhysicalMemoryManager
    /** Physical memory, frame by frame. */
    var mem: seq<Page>
    /** Translations the processor has cached. */
    var tlb: map<Node, Word>
    /** Table addresses the processor has cached on its way to translations. */
    var walkCache: map<Node, nat>
    ghost var tree: Tree

    /** The tables are in order, whatever the processor has cached. */
    ghost predicate Sound()
      reads this, pmm, pmm.bitmap
    {
      pmm.Valid() && Consistent(mem, tree, pmm.used) && tree.root == root && tree.depth == mode.Depth()
    }

    /** No cached translation and no cached table address is stale. */
    ghost predicate Coherent()
      reads this
    {
      Current(tlb, walkCache, tree)
    }

    ghost predicate Valid()
      reads this, pmm, pmm.bitmap
    {
      Sound() && Coherent()
    }

    ghost function Now(): Snapshot
      reads this, pmm
    {
      Snapshot(mem, pmm.used, tree)
    }

    /** Takes over tables that are already in memory; the low bits of the root address are control bits. */
    constructor (mode: Mode, rootTablePhys: nat, pmm: PhysicalMemoryManager, mem: seq<Page>, ghost tree: Tree)
      requires pmm.Valid() && Consistent(mem, tree, pmm.used)
      requires tree.root == rootTablePhys / PAGE_SIZE && tree.depth == mode.Depth()
      ensures Valid() && this.mode == mode && this.pmm == pmm && this.mem == mem && this.tree == tree
    {
      this.mode := mode;
      this.root := rootTablePhys / PAGE_SIZE;
      this.pmm := pmm;
      this.mem := mem;
      this.tlb := map[];
      this.walkCache := map[];
      this.tree := tree;
    }

    /** Drops the cached translation of one page and every cached table address. */
    method Invlpg(v: Node)
      modifies this`tlb, this`walkCache
      ensures tlb == Forget(old(tlb), v) && walkCache == map[]
    {
      tlb := Forget(tlb, v);
      walkCache := map[];
    }

    /** No zone below 4 GiB offers a frame, and the frame the allocator hands out then lies above the identity map. */
    ghost predicate NextIsUnreachable()
      requires pmm.Valid()
      reads this, pmm, pmm.bitmap
    {
      && !pmm.ZoneOffers(Dma) && !pmm.ZoneOffers(Dma32)
      && exists f :: IDENTITY_FRAMES <= f < |pmm.used| && IsNextFree(pmm.used, 8 * pmm.lastAllocIndex, f)
    }

    /** A zeroed frame for a table, below 4 GiB. It fails exactly when every frame is in use, or when the frame handed
        out lies above the identity map; that frame is lost. */
    method AllocPageTable() returns (r: Result<nat, PagingError>)
      requires Sound()
      modifies this`mem, pmm, pmm.bitmap
      ensures Sound() && |mem| == old(|mem|) && |pmm.used| == old(|pmm.used|)
      ensures r.Success? ==>
                && r.value % PAGE_SIZE == 0
                && var f := r.value / PAGE_SIZE;
                && f < old(|pmm.used|) && f < IDENTITY_FRAMES && !old(pmm.used)[f]
                && pmm.used == old(pmm.used)[f := true]
                && mem == old(mem)[f := ZeroPage()]
                && f != 0 && f !in tree.tables.Values
      ensures r.Failure? ==> mem == old(mem) && OutOfFrames(r.error, old(pmm.used), pmm.used)
      ensures forall f :: 0 <= f < |pmm.used| && old(pmm.used)[f] ==> pmm.used[f]
      ensures r == Failure(NoTableFrame) <==> forall f :: 0 <= f < old(|pmm.used|) ==> old(pmm.used)[f]
      ensures r == Failure(TableUnreachable) <==> old(NextIsUnreachable())
      ensures r.Failure? ==> r.error == NoTableFrame || r.error == TableUnreachable
      ensures r == Failure(TableUnreachable) ==>
                exists f :: IDENTITY_FRAMES <= f < old(|pmm.used|)
                    && IsNextFree(old(pmm.used), 8 * old(pmm.lastAllocIndex), f)
                            && pmm.used == old(pmm.used)[f := true]
    {
      FreeCountZero(pmm.used);
      var addr := pmm.AllocDma32FrameOrZero();
      if addr == 0 {
        addr := pmm.AllocFrameOrZero();
        FreeCountZero(pmm.used);
      }
      if addr == 0 {
        return Failure(NoTableFrame);
      }
      var f := addr / PAGE_SIZE;
      if f >= IDENTITY_FRAMES {
        return Failure(TableUnreachable);
      }
      OtherFrame(mem, tree, f, ZeroPage());
      mem := mem[f := ZeroPage()];
      return Success(addr);
    }

    /** The table one level below entry `index` of `table`, created if the entry is not present. */
    method GetOrCreateNextLevel(table: nat, index: Index, flags: Flags, ghost q: Node)
      returns (r: Result<nat, PagingError>)
      requires Sound()
      requires q.Child? && q.up in tree.tables && table == tree.tables[q.up] && index == q.index
      requires Depth(q) < tree.depth && q !in tree.leaves
      modifies this`mem, this`tree, pmm, pmm.bitmap
      ensures Sound() && tree.leaves == old(tree.leaves) && GrownLoosely(old(Now()), Now(), q)
      ensures r.Success? ==> q in tree.tables && tree.tables[q] == r.value && Grown(old(Now()), Now(), q)
      ensures r.Failure? ==> q !in old(tree.tables) && tree == old(tree)
      ensures r.Failure? ==> OutOfFrames(r.error, old(pmm.used), pmm.used)
      ensures r == Failure(NoTableFrame) <==>
                q !in old(tree.tables) && forall f :: 0 <= f < old(|pmm.used|) ==> old(pmm.used)[f]
      ensures r == Failure(TableUnreachable) <==> q !in old(tree.tables) && old(NextIsUnreachable())
      ensures r.Failure? ==> r.error == NoTableFrame || r.error == TableUnreachable
      ensures TablesAsAsked(old(Now()), Now(), flags.user)
    {
      hide Grown, GrownLoosely, Consistent, MakeEntry, OutOfFrames, NextIsUnreachable, TablesAsAsked, FlagsStay;
      NothingAsked(Now(), pmm.used, flags.user);
      SoundFacts(q);
      UniqueFrame(q.up);
      ReadEntry(q);
      var entry := mem[table][index];
      if entry.flags.present {
        return Success(entry.frame);
      }
      var alloc := AllocPageTable();
      if alloc.Failure? {
        LeakIsLooseGrowth(old(Now()), pmm.used, q);
        NothingAsked(old(Now()), pmm.used, flags.user);
        return Failure(alloc.error);
      }
      assert tree.tables[q.up] in tree.tables.Values;
      var frame := alloc.value / PAGE_SIZE;
      var tableFlags := NO_FLAGS.(present := true, writable := true);
      if flags.user {
        tableFlags := tableFlags.(user := true);
      }
      EntryFor(frame, tableFlags);
      var w := MakeEntry(alloc.value, tableFlags);
      InstallTable(table, index, w, q);
      LinkGrows(old(Now()), frame, q, w);
      LinkAsAsked(old(Now()), frame, pmm.used, q, w, flags.user);
      return Success(frame);
    }

    lemma EntryFor(f: nat, flags: Flags)
      requires f < IDENTITY_FRAMES
      ensures forall pa :: pa / PAGE_SIZE == f ==> MakeEntry(pa, flags) == Word(f, flags)
    {
    }

    /** Points an entry at a fresh empty table. */
    method InstallTable(table: nat, index: Index, w: Word, ghost q: Node)
      requires Sound()
      requires q.Child? && q.up in tree.tables && table == tree.tables[q.up] && index == q.index
      requires Depth(q) < tree.depth && !mem[table][index].flags.present
      requires w.flags.present && !w.flags.huge && w.frame < IDENTITY_FRAMES && w.frame !in tree.tables.Values
      requires 0 < w.frame < |pmm.used| && pmm.used[w.frame] && mem[w.frame] == ZeroPage()
      modifies this`mem, this`tree
      ensures Sound()
      ensures mem == WriteEntry(old(mem), table, index, w)
      ensures tree == old(tree).(tables := old(tree).tables[q := w.frame])
    {
      LinkTable(mem, tree, q, w);
      mem := WriteEntry(mem, table, index, w);
      tree := tree.(tables := tree.tables[q := w.frame]);
    }

    /** Follows the path `v` down to its last table, creating the tables that are missing. */
    method DescendCreating(v: Node, flags: Flags) returns (r: Result<nat, PagingError>)
      requires Sound() && Depth(v) == mode.Depth() && NoHugeOn(tree.leaves, v)
      modifies this`mem, this`tree, pmm, pmm.bitmap
      ensures Sound() && tree.leaves == old(tree.leaves)
      ensures r.Success? ==> v.up in tree.tables && tree.tables[v.up] == r.value && Grown(old(Now()), Now(), v)
      ensures r.Failure? ==> GrownLoosely(old(Now()), Now(), v)
      ensures old(v.up in tree.tables) ==> r.Success?
      ensures r.Failure? ==> OutOfFrames(r.error, old(pmm.used), pmm.used)
      ensures TablesAsAsked(old(Now()), Now(), flags.user)
    {
      hide Grown, GrownLoosely, Sound, NoHugeOn, On, OutOfFrames, TablesAsAsked, FlagsStay;
      NothingAsked(Now(), pmm.used, flags.user);
      var table := root;
      var d := 0;
      SoundFacts(v);
      while d + 1 < mode.Depth()
        invariant 0 <= d < mode.Depth()
        invariant Sound() && tree.leaves == old(tree.leaves)
        invariant Prefix(v, d) in tree.tables && tree.tables[Prefix(v, d)] == table
        invariant Grown(old(Now()), Now(), v) && TablesAsAsked(old(Now()), Now(), flags.user)
      {
        var next := NextTable(v, d, table, flags, old(Now()));
        if next.Failure? {
          UpperTables(old(mem), old(tree), v, d + 1);
          return Failure(next.error);
        }
        table := next.value;
        d := d + 1;
      }
      PrefixStep(v, d);
      return Success(table);
    }

    /** One level of `DescendCreating`; `a` is the state in which the descent began. */
    method NextTable(v: Node, d: nat, table: nat, flags: Flags, ghost a: Snapshot)
      returns (r: Result<nat, PagingError>)
      requires Sound() && Depth(v) == mode.Depth() && NoHugeOn(tree.leaves, v) && d + 1 < mode.Depth()
      requires Prefix(v, d) in tree.tables && tree.tables[Prefix(v, d)] == table
      requires Grown(a, Now(), v) && TablesAsAsked(a, Now(), flags.user)
      modifies this`mem, this`tree, pmm, pmm.bitmap
      ensures Sound() && tree.leaves == old(tree.leaves)
      ensures r.Success? ==>
                && Prefix(v, d + 1) in tree.tables && tree.tables[Prefix(v, d + 1)] == r.value
                && Grown(a, Now(), v)
      ensures r.Failure? ==> Prefix(v, d + 1) !in a.tree.tables && GrownLoosely(a, Now(), v)
      ensures r.Failure? ==> OutOfFrames(r.error, a.used, pmm.used)
      ensures TablesAsAsked(a, Now(), flags.user)
    {
      hide Grown, GrownLoosely, Sound, NoHugeOn, OutOfFrames, TablesAsAsked;
      DownStep(v, d);
      var q := Prefix(v, d + 1);
      ghost var before := Now();
      r := GetOrCreateNextLevel(table, q.index, flags, q);
      GrownFurther(a, before, Now(), q, v);
      AsAskedTwice(a, before, Now(), flags.user);
      if r.Failure? {
        OutOfFramesSince(r.error, a, before, v, pmm.used);
      }
    }

    /** What a sound state says about one step down the path `v`, short of its end. */
    lemma DownStep(v: Node, d: nat)
      requires Sound() && Depth(v) == mode.Depth() && d + 1 < mode.Depth() && NoHugeOn(tree.leaves, v)
      requires Prefix(v, d) in tree.tables
      ensures var q := Prefix(v, d + 1);
              && q.Child? && q.up == Prefix(v, d) && On(q, v) && Depth(q) == d + 1 < tree.depth
              && q !in tree.leaves
              && tree.tables[q.up] < |mem|
              && var e := mem[tree.tables[q.up]][q.index];
              && (e.flags.present <==> q in tree.tables)
              && (e.flags.present ==> e.frame == tree.tables[q])
    {
      PathStep(v, d);
      ReadEntry(Prefix(v, d + 1));
    }

    /** What a sound state says about the start of a path. */
    lemma SoundFacts(v: Node)
      requires Sound()
      ensures GrownLoosely(Now(), Now(), v)
      ensures |pmm.used| <= |mem|
      ensures Holds(mem, tree) && tree.depth == mode.Depth()
      ensures Root in tree.tables && tree.tables[Root] == root
      ensures Grown(Now(), Now(), v)
    {
      TablesAreUsed();
      NotGrown(Now(), v);
    }

    lemma TablesAreUsed()
      requires Sound()
      ensures forall f :: 0 <= f < |pmm.used| && f in tree.tables.Values ==> pmm.used[f]
    {
    }

    /** Maps the page of `va` to the frame at `pa`, replacing what was mapped there. */
    method MapPage(va: Address, pa: nat, flags: Flags) returns (r: Result<(), PagingError>)
      requires Valid() && flags.present
      requires NoHugeOn(tree.leaves, Path(mode, va))
      modifies this, pmm, pmm.bitmap
      ensures Valid()
      ensures pa % PAGE_SIZE != 0 ==> r == Failure(PhysUnaligned)
      ensures pa % PAGE_SIZE == 0 && !Accepted(mode, va) ==> r == Failure(NotCanonical)
      ensures pa % PAGE_SIZE == 0 && Accepted(mode, va) && old(Path(mode, va).up in tree.tables) ==> r.Success?
      ensures r.Success? ==>
                && tree.leaves == old(tree.leaves)[Path(mode, va) := MakeEntry(pa, flags)]
                && Grown(old(Now()), Now(), Path(mode, va))
                && (old(Tidy(tree)) ==> Tidy(tree))
      ensures r.Failure? ==>
                tree.leaves == old(tree.leaves) && GrownLoosely(old(Now()), Now(), Path(mode, va))
      ensures r.Failure? && pa % PAGE_SIZE == 0 && Accepted(mode, va) ==> OutOfFrames(r.error, old(pmm.used), pmm.used)
      ensures TablesAsAsked(old(Now()), Now(), flags.user)
      ensures r.Success? && pa < 0x10_0000_0000_0000 ==> TranslateAddress(va) == Success(pa + va % PAGE_SIZE)
      ensures r.Success? ==>
                AccessTo(va) == Some(And(old(RightsUpTo(mem, tree, Path(mode, va), mode.Depth() - 1)), RightsOf(flags)))
    {
      hide Grown, GrownLoosely, Holds, Current, Accepted, Forget, OutOfFrames, Path, Tidy, NoHugeOn, TablesAsAsked;
      hide FlagsStay, AccessWalk;
      hide RightsUpTo, RightsOf, And, Walk, PhysicalAddress;
      NothingAsked(Now(), pmm.used, flags.user);
      var v := Path(mode, va);
      SoundFacts(v);
      if pa % PAGE_SIZE != 0 {
        return Failure(PhysUnaligned);
      }
      if !Accepted(mode, va) {
        return Failure(NotCanonical);
      }
      var table := DescendCreating(v, flags);
      if table.Failure? {
        GrowthKeepsCurrent(tlb, walkCache, old(Now()), Now(), v);
        return Failure(table.error);
      }
      StoreAndForget(table.value, v, MakeEntry(pa, flags), old(Now()), flags.user);
      NewPage(va, pa, flags, old(Now()));
      return Success(());
    }

    /** What a freshly mapped page translates to and admits; `a` is the state before. */
    lemma NewPage(va: Address, pa: nat, flags: Flags, a: Snapshot)
      requires Sound() && NoHugeOn(a.tree.leaves, Path(mode, va)) && TablesAsAsked(a, Now(), flags.user)
      requires tree.leaves == a.tree.leaves[Path(mode, va) := MakeEntry(pa, flags)]
      requires Accepted(mode, va) && pa % PAGE_SIZE == 0
      ensures pa < 0x10_0000_0000_0000 ==> TranslateAddress(va) == Success(pa + va % PAGE_SIZE)
      ensures AccessTo(va) == Some(And(RightsUpTo(a.mem, a.tree, Path(mode, va), mode.Depth() - 1), RightsOf(flags)))
    {
      hide TableFlagsStay, NewTablesAdmit, AccessWalk, RightsUpTo, RightsOf, And, Walk, PhysicalAddress, Accepted, Path;
      PageLookup(va);
      MappedPageAdmits(a.mem, a.tree, mem, tree, Path(mode, va));
    }

    /** Writes the last-level entry of a page and drops what the processor may have cached for it; `a` is the state
        before the tables above were created. */
    method StoreAndForget(table: nat, v: Node, w: Word, ghost a: Snapshot, ghost user: bool)
      requires Sound() && Depth(v) == mode.Depth() && v.up in tree.tables && tree.tables[v.up] == table
      requires w.flags.present
      requires TablesAsAsked(a, Now(), user)
      requires Grown(a, Now(), v) && Current(tlb, walkCache, a.tree) && tree.leaves == a.tree.leaves
      modifies this
      ensures Valid() && pmm.used == old(pmm.used)
      ensures tree.leaves == a.tree.leaves[v := w] && Grown(a, Now(), v)
      ensures Tidy(a.tree) ==> Tidy(tree)
      ensures TablesAsAsked(a, Now(), user)
    {
      hide Grown, GrownLoosely, Holds, Current, Forget, Tidy, TablesAsAsked, FlagsStay;
      NoTableAt(v);
      StoreAsAsked(a, Now(), v, w, tree.leaves[v := w], user);
      StoreIsGrowth(a, Now(), v, w);
      ForgetIsEnough(tlb, walkCache, a.tree, tree.(leaves := tree.leaves[v := w]), v);
      StoreEntry(table, v, w);
      if Tidy(a.tree) {
        GrownTidy(a, Now(), v);
      }
      Invlpg(v);
    }

    /** Writes the last-level entry of a page. */
    method StoreEntry(table: nat, v: Node, w: Word)
      requires Sound() && Depth(v) == mode.Depth() && v.up in tree.tables && tree.tables[v.up] == table
      requires w.flags.present
      modifies this`mem, this`tree
      ensures Sound() && tree == old(tree).(leaves := old(tree.leaves)[v := w])
      ensures mem == WriteEntry(old(mem), table, v.index, w)
    {
      StoreLeaf(mem, tree, v, w);
      mem := WriteEntry(mem, table, v.index, w);
      tree := tree.(leaves := tree.leaves[v := w]);
    }

    /** Are all 512 entries zero? */
    method IsTableEmpty(table: nat) returns (r: bool)
      requires table < |mem|
      ensures r <==> mem[table] == ZeroPage()
    {
      var i := 0;
      while i < 512
        invariant 0 <= i <= 512
        invariant forall k :: 0 <= k < i ==> mem[table][k] == ZERO
      {
        if mem[table][i] != ZERO {
          assert ZeroPage()[i] == ZERO;
          return false;
        }
        i := i + 1;
      }
      assert mem[table] == ZeroPage();
      return true;
    }

    /** Follows present entries along `v`; `r[d]` is the frame of the table at distance `d`. */
    method Descend(v: Node) returns (r: Result<seq<nat>, PagingError>)
      requires Sound() && Depth(v) == mode.Depth() && NoHugeOn(tree.leaves, v)
      ensures r.Success? <==> v.up in tree.tables
      ensures r.Success? ==>
                |r.value| == mode.Depth() && PathTables(tree, v, r.value)
      ensures r.Failure? ==> r.error == NotMapped
    {
      hide Sound, NoHugeOn, On;
      SoundFacts(v);
      var tables := [root];
      var d := 0;
      while d + 1 < mode.Depth()
        invariant 0 <= d < mode.Depth() && |tables| == d + 1
        invariant PathTables(tree, v, tables)
      {
        DownStep(v, d);
        var q := Prefix(v, d + 1);
        var entry := mem[tables[d]][q.index];
        if !entry.flags.present {
          UpperTables(mem, tree, v, d + 1);
          return Failure(NotMapped);
        }
        ExtendPathTables(tree, v, tables, entry.frame);
        tables := tables + [entry.frame];
        d := d + 1;
      }
      PrefixStep(v, d);
      return Success(tables);
    }

    /** What the entry of a position says. */
    lemma ReadEntry(q: Node)
      requires Sound() && q.Child? && q.up in tree.tables
      ensures tree.tables[q.up] < |mem|
      ensures var e := mem[tree.tables[q.up]][q.index];
              && (q in tree.leaves ==> e.flags.present && e == tree.leaves[q])
              && (q in tree.tables ==> e.flags.present && e.frame == tree.tables[q])
              && (e.flags.present ==> q in tree.leaves || q in tree.tables)
              && (Depth(q) == tree.depth ==> q !in tree.tables)
    {
      assert EntryAgrees(mem, tree, q.up, q.index);
    }

    /** Changes the frame and flags of a page that is mapped already; tables stay as they are. */
    method RemapPage(va: Address, pa: nat, flags: Flags) returns (r: Result<(), PagingError>)
      requires Valid() && flags.present
      requires NoHugeOn(tree.leaves, Path(mode, va))
      modifies this`mem, this`tree, this`tlb, this`walkCache
      ensures Valid()
      ensures r.Success? <==> pa % PAGE_SIZE == 0 && old(Path(mode, va) in tree.leaves)
      ensures r.Success? ==>
                && tree == old(tree).(leaves := old(tree.leaves)[Path(mode, va) := MakeEntry(pa, flags)])
                && |mem| == old(|mem|)
                && forall f :: 0 <= f < |mem| && f !in tree.tables.Values ==> mem[f] == old(mem)[f]
      ensures r.Failure? ==> Now() == old(Now()) && tlb == old(tlb) && walkCache == old(walkCache)
      ensures r.Failure? ==> r.error == if pa % PAGE_SIZE != 0 then PhysUnaligned else NotMapped
      ensures FlagsStay(old(Now()), Now())
    {
      hide Holds, Current, Forget, FlagsStay, TablesAsAsked;
      NothingAsked(Now(), pmm.used, false);
      var v := Path(mode, va);
      SoundFacts(v);
      if pa % PAGE_SIZE != 0 {
        return Failure(PhysUnaligned);
      }
      var tables := Descend(v);
      if tables.Failure? {
        LeafHasTable(v);
        return Failure(tables.error);
      }
      PrefixStep(v, mode.Depth() - 1);
      ReadEntry(v);
      var table := tables.value[mode.Depth() - 1];
      var entry := mem[table][v.index];
      if !entry.flags.present {
        return Failure(NotMapped);
      }
      ForgetIsEnough(tlb, walkCache, tree, tree.(leaves := tree.leaves[v := MakeEntry(pa, flags)]), v);
      NoTableAt(v);
      StoreAsAsked(Now(), Now(), v, MakeEntry(pa, flags), tree.leaves[v := MakeEntry(pa, flags)], false);
      StoreEntry(table, v, MakeEntry(pa, flags));
      assert tree.tables[v.up] in tree.tables.Values;
      Invlpg(v);
      return Success(());
    }

    lemma LeafIsNoTable(v: Node)
      requires Sound() && v in tree.leaves && v.Child? && v.up in tree.tables
      ensures v !in tree.tables
    {
      assert EntryAgrees(mem, tree, v.up, v.index);
    }

    lemma NoTableAt(v: Node)
      requires Sound() && Depth(v) == mode.Depth()
      ensures Holds(mem, tree) && v.Child? && v !in tree.tables
    {
    }

    lemma LeafHasTable(v: Node)
      requires Sound() && v.Child?
      ensures v in tree.leaves ==> v.up in tree.tables
    {
    }

    /** Clears the last-level entry of a page. */
    method EraseEntry(table: nat, v: Node)
      requires Sound() && v in tree.leaves && v.up in tree.tables && tree.tables[v.up] == table
      modifies this`mem, this`tree
      ensures Sound() && tree == old(tree).(leaves := old(tree.leaves) - {v})
      ensures Shrunk(old(Now()), Now(), v)
      ensures old(Tidy(tree)) ==> TidyExcept(tree, v.up)
      ensures FlagsStay(old(Now()), Now())
    {
      EraseLeaf(mem, tree, v);
      LeafIsNoTable(v);
      StoreAsAsked(Now(), Now(), v, ZERO, tree.leaves - {v}, false);
      EraseIsShrinking(Now(), v);
      if Tidy(tree) {
        EraseKeepsTidy(tree, v);
      }
      mem := WriteEntry(mem, table, v.index, ZERO);
      tree := tree.(leaves := tree.leaves - {v});
    }

    /** Clears the entry that points to an empty table. */
    method CutEntry(upper: nat, table: nat, q: Node)
      requires Sound() && q in tree.tables && q.Child? && table < |mem| && mem[table] == ZeroPage()
      requires tree.tables[q] == table && q.up in tree.tables && tree.tables[q.up] == upper && upper < |mem|
      modifies this`mem, this`tree
      ensures Sound() && tree == old(tree).(tables := old(tree.tables) - {q})
      ensures mem == WriteEntry(old(mem), upper, q.index, ZERO)
      ensures forall p :: p in tree.tables ==> tree.tables[p] != table
      ensures FlagsStay(old(Now()), Now())
    {
      UnlinkTable(mem, tree, q);
      CutStays(q);
      mem := WriteEntry(mem, upper, q.index, ZERO);
      tree := tree.(tables := tree.tables - {q});
    }

    /** Cuts an empty table off and gives its frame back. */
    method CutTable(upper: nat, table: nat, q: Node, ghost a: Snapshot, ghost v: Node)
      returns (r: Result<(), PagingError>)
      requires Sound() && q in tree.tables && q.Child? && table < |mem| && mem[table] == ZeroPage()
      requires tree.tables[q] == table && q.up in tree.tables && tree.tables[q.up] == upper && upper < |mem|
      requires Shrunk(a, Now(), v) && FlagsStay(a, Now()) && On(q, v)
      modifies this`mem, this`tree, pmm, pmm.bitmap
      ensures r.Success?
      ensures Sound() && tree == old(tree).(tables := old(tree.tables) - {q})
      ensures Shrunk(a, Now(), v)
      ensures FlagsStay(a, Now())
    {
      hide Holds, Shrunk, TableFlagsStay;
      ghost var before := Now();
      UniqueFrame(q);
      ShrunkFurther(a, Now(), v, q);
      CutEntry(upper, table, q);
      StayTwice(a, before, Now());
      var addr := table * PAGE_SIZE;
      FrameAddress(table);
      var freed := pmm.FreeFrame(addr);
      if freed.Failure? {
        return Failure(FreeFailed);
      }
      return Success(());
    }

    lemma CutStays(q: Node)
      requires Sound() && q in tree.tables && q.Child? && q.up in tree.tables && mem[tree.tables[q]] == ZeroPage()
      ensures FlagsStay(Now(), Snapshot(WriteEntry(mem, tree.tables[q.up], q.index, ZERO), pmm.used,
                                        tree.(tables := tree.tables - {q})))
    {
      hide EntryAgrees, FlagsAt;
      forall p: Node {:trigger p.up} | p in tree.tables && p.Child?
        ensures p.up != q
      {
        NothingBelow(mem, tree, q, p);
      }
      CutKeepsFlags(mem, tree, q);
    }

    lemma UniqueFrame(q: Node)
      requires Sound() && q in tree.tables
      ensures forall p :: p in tree.tables && tree.tables[p] == tree.tables[q] ==> p == q
      ensures 0 < tree.tables[q] < |mem| && tree.tables[q] < |pmm.used| && pmm.used[tree.tables[q]]
    {
    }

    /** Removes the mapping of a page; with `freeEmpty`, also the tables that become empty, bottom up. */
    method UnmapPageInternal(va: Address, freeEmpty: bool) returns (r: Result<(), PagingError>)
      requires Valid() && NoHugeOn(tree.leaves, Path(mode, va))
      modifies this, pmm, pmm.bitmap
      ensures Valid()
      ensures r.Success? <==> Accepted(mode, va) && old(Path(mode, va) in tree.leaves)
      ensures r.Success? ==>
                && tree.leaves == old(tree.leaves) - {Path(mode, va)}
                && Shrunk(old(Now()), Now(), Path(mode, va))
                && (if freeEmpty then old(Tidy(tree)) ==> Tidy(tree) else tree.tables == old(tree.tables))
      ensures r.Failure? ==> Now() == old(Now()) && tlb == old(tlb) && walkCache == old(walkCache)
      ensures r.Failure? ==> r.error == if Accepted(mode, va) then NotMapped else NotCanonical
      ensures FlagsStay(old(Now()), Now())
    {
      hide Holds, Current, Forget, Shrunk, Accepted, HasChild, FlagsStay, TablesAsAsked;
      NothingAsked(Now(), pmm.used, false);
      var v := Path(mode, va);
      SoundFacts(v);
      if !Accepted(mode, va) {
        return Failure(NotCanonical);
      }
      var tables := Descend(v);
      if tables.Failure? {
        LeafHasTable(v);
        return Failure(tables.error);
      }
      PrefixStep(v, mode.Depth() - 1);
      ReadEntry(v);
      var entry := mem[tables.value[mode.Depth() - 1]][v.index];
      if !entry.flags.present {
        return Failure(NotMapped);
      }
      EraseAndPrune(tables.value, v, freeEmpty);
      ForgetIsEnough(tlb, walkCache, old(tree), tree, v);
      Invlpg(v);
      return Success(());
    }

    /** Clears the entry of a mapped page and, with `freeEmpty`, frees the tables this leaves empty. */
    method EraseAndPrune(tables: seq<nat>, v: Node, freeEmpty: bool)
      requires Sound() && Depth(v) == mode.Depth() == |tables| && v in tree.leaves
      requires PathTables(tree, v, tables)
      modifies this`mem, this`tree, pmm, pmm.bitmap
      ensures Sound() && tree.leaves == old(tree.leaves) - {v}
      ensures Shrunk(old(Now()), Now(), v)
      ensures if freeEmpty then old(Tidy(tree)) ==> Tidy(tree) else tree.tables == old(tree.tables)
      ensures FlagsStay(old(Now()), Now())
    {
      hide Sound, Shrunk, HasChild, On, FlagsStay;
      PrefixStep(v, mode.Depth() - 1);
      EraseEntry(tables[mode.Depth() - 1], v);
      if freeEmpty {
        PruneTables(tables, v, old(Now()));
      }
    }

    /** One step of `PruneTables`: frees the table at distance `d` if it is empty. */
    method PruneOne(tables: seq<nat>, v: Node, d: nat, ghost a: Snapshot) returns (empty: bool)
      requires Sound() && Depth(v) == mode.Depth() == |tables| && 0 < d < |tables|
      requires PathTables(tree, v, tables[..d + 1])
      requires Shrunk(a, Now(), v) && FlagsStay(a, Now())
      modifies this`mem, this`tree, pmm, pmm.bitmap
      ensures Sound() && tree.leaves == old(tree.leaves) && Shrunk(a, Now(), v)
      ensures PathTables(tree, v, tables[..d])
      ensures old(TidyExcept(tree, Prefix(v, d))) ==> if empty then TidyExcept(tree, Prefix(v, d - 1)) else Tidy(tree)
      ensures FlagsStay(a, Now())
    {
      hide Sound, Shrunk, HasChild, TableFlagsStay;
      ghost var q := Prefix(v, d);
      PathStep(v, d - 1);
      SoundFacts(v);
      UniqueFrame(q);
      UniqueFrame(q.up);
      PathTablesAt(tree, v, tables[..d + 1], d);
      PathTablesAt(tree, v, tables[..d + 1], d - 1);
      empty := IsTableEmpty(tables[d]);
      if !empty {
        EmptyTable(mem, tree, q);
        return;
      }
      if TidyExcept(tree, q) {
        CutKeepsTidy(tree, q);
      }
      CutPathTables(tree, v, tables[..d + 1], d);
      assert tables[..d + 1][..d] == tables[..d];
      var cut := CutTable(tables[d - 1], tables[d], Prefix(v, d), a, v);
    }

    /** Frees the tables of the path that are empty, from the last one up; the root stays. */
    method PruneTables(tables: seq<nat>, v: Node, ghost a: Snapshot)
      requires Sound() && Depth(v) == mode.Depth() == |tables|
      requires PathTables(tree, v, tables)
      requires Shrunk(a, Now(), v) && FlagsStay(a, Now())
      modifies this`mem, this`tree, pmm, pmm.bitmap
      ensures Sound() && tree.leaves == old(tree.leaves)
      ensures Shrunk(a, Now(), v)
      ensures old(TidyExcept(tree, Prefix(v, mode.Depth() - 1))) ==> Tidy(tree)
      ensures FlagsStay(a, Now())
    {
      hide Sound, Shrunk, HasChild, PathTables, FlagsStay;
      var d := mode.Depth() - 1;
      assert tables[..d + 1] == tables;
      while d > 0
        invariant 0 <= d < mode.Depth()
        invariant Sound() && tree.leaves == old(tree.leaves) && Shrunk(a, Now(), v)
        invariant FlagsStay(a, Now())
        invariant PathTables(tree, v, tables[..d + 1])
        invariant old(TidyExcept(tree, Prefix(v, mode.Depth() - 1))) ==> TidyExcept(tree, Prefix(v, d))
      {
        var empty := PruneOne(tables, v, d, a);
        if !empty {
          return;
        }
        d := d - 1;
      }
    }

    method UnmapPage(va: Address) returns (r: Result<(), PagingError>)
      requires Valid() && NoHugeOn(tree.leaves, Path(mode, va))
      modifies this, pmm, pmm.bitmap
      ensures Valid()
      ensures r.Success? <==> Accepted(mode, va) && old(Path(mode, va) in tree.leaves)
      ensures r.Success? ==>
                && tree.leaves == old(tree.leaves) - {Path(mode, va)}
                && Shrunk(old(Now()), Now(), Path(mode, va))
                && (old(Tidy(tree)) ==> Tidy(tree))
      ensures r.Failure? ==> Now() == old(Now()) && tlb == old(tlb) && walkCache == old(walkCache)
      ensures FlagsStay(old(Now()), Now())
    {
      r := UnmapPageInternal(va, true);
    }

    /** The entry that maps an address, if one does, with its position. */
    function Lookup(va: Address): Option<(Node, Word)>
      reads this
    {
      Walk(mem, mode.Depth(), Path(mode, va), 0, root)
    }

    /** The physical address behind a virtual one, huge pages included. */
    function TranslateAddress(va: Address): Result<nat, PagingError>
      reads this
    {
      if !Accepted(mode, va) then Failure(NotCanonical)
      else match Lookup(va)
        case None => Failure(NotMapped)
        case Some((q, e)) =>
          Success(PhysicalAddress(e, if Depth(q) <= mode.Depth() then mode.Depth() - Depth(q) else 0, va))
    }

    /** The low flags of the entry that maps an address. */
    function GetPageFlags(va: Address): Result<Flags, PagingError>
      reads this
    {
      if !Accepted(mode, va) then Failure(NotCanonical)
      else match Lookup(va)
        case None => Failure(NotMapped)
        case Some((_, e)) => Success(LowFlags(e.flags))
    }

    /** What the processor lets programs do at an address. */
    function AccessTo(va: Address): Option<Rights>
      reads this
    {
      AccessWalk(mem, mode.Depth(), Path(mode, va), 0, root, ALL_RIGHTS)
    }

    /** Looking an address up in the tables is looking its path up in the finite map of leaves. */
    lemma LookupIsLookup(va: Address, q: Node)
      requires Sound()
      ensures q in tree.leaves && On(q, Path(mode, va)) ==> Lookup(va) == Some((q, tree.leaves[q]))
      ensures (forall l :: l in tree.leaves ==> !On(l, Path(mode, va))) ==> Lookup(va) == None
    {
      var v := Path(mode, va);
      WalkIsSound(mem, tree, v, 0);
      if q in tree.leaves && On(q, v) {
        WalkReachesLeaf(mem, tree, v, 0, q);
      }
    }

    /** Translation finds the entry of the one leaf that covers the address, and fails exactly if
        there is none. */
    lemma TranslationIsLookup(va: Address, q: Node)
      requires Sound() && Accepted(mode, va)
      ensures q in tree.leaves && On(q, Path(mode, va)) ==>
                && TranslateAddress(va) ==
                   Success(PhysicalAddress(tree.leaves[q], mode.Depth() - Depth(q), va))
                && GetPageFlags(va) == Success(LowFlags(tree.leaves[q].flags))
      ensures (forall l :: l in tree.leaves ==> !On(l, Path(mode, va))) ==>
                TranslateAddress(va) == Failure(NotMapped) && GetPageFlags(va) == Failure(NotMapped)
    {
      hide PhysicalAddress, Accepted, Sound, Lookup;
      LookupIsLookup(va, q);
    }

    /** Which entries map memory: those of the last level, and one or two levels above it the huge ones. */
    lemma PresentEntryMaps(p: Node, i: Index)
      requires Sound() && p in tree.tables
      ensures tree.tables[p] < |mem|
      ensures var e := mem[tree.tables[p]][i];
              && (e.flags.present && (Depth(p) + 1 == mode.Depth()
                                      || (e.flags.huge && mode.Depth() <= Depth(p) + 3 < mode.Depth() + 2))
                  <==> Child(p, i) in tree.leaves)
              && (Child(p, i) in tree.leaves ==> tree.leaves[Child(p, i)] == e)
    {
      assert EntryAgrees(mem, tree, p, i);
    }

    /** The address a page translates to, by the size of the page: 4 KiB, 2 MiB or 1 GiB. The frame number is cut down
        to whole pages of that size, and the rest of the virtual address is the offset. */
    lemma TranslationBySize(va: Address, q: Node)
      requires Sound() && Accepted(mode, va) && q in tree.leaves && On(q, Path(mode, va))
      ensures TranslateAddress(va).Success? && Depth(q) <= mode.Depth() <= Depth(q) + 2
      ensures var pa, f := TranslateAddress(va).value, tree.leaves[q].frame;
              && (Depth(q) == mode.Depth() ==> pa / 0x1000 == f && pa % 0x1000 == va % 0x1000)
              && (Depth(q) + 1 == mode.Depth() ==> pa / 0x20_0000 == f / 512 && pa % 0x20_0000 == va % 0x20_0000)
              && (Depth(q) + 2 == mode.Depth() ==>
                    pa / 0x4000_0000 == f / 0x4_0000 && pa % 0x4000_0000 == va % 0x4000_0000)
    {
      hide Sound, Lookup, TranslateAddress, Accepted, Path, On, PhysicalAddress, LowFlags;
      TranslationIsLookup(va, q);
      LeafLevel(q);
      var e := tree.leaves[q];
      SmallAddress(e, va);
      LargeAddress(e, va);
      HugeAddress(e, va);
    }

    lemma LeafLevel(q: Node)
      requires Sound() && q in tree.leaves
      ensures q.Child? && Depth(q) <= mode.Depth() <= Depth(q) + 2
    {
      assert q.Child? && q.up in tree.tables;
      assert EntryAgrees(mem, tree, q.up, q.index);
    }

    /** Two canonical addresses on one page, of whatever size, are as far apart behind the translation as before. */
    lemma SamePageSameDistance(a: Address, b: Address, q: Node)
      requires Sound() && Canonical(mode, a) && Canonical(mode, b)
      requires q in tree.leaves && On(q, Path(mode, a)) && On(q, Path(mode, b))
      ensures TranslateAddress(a).Success? && TranslateAddress(b).Success?
      ensures TranslateAddress(a).value - TranslateAddress(b).value == a - b
    {
      hide Sound, TranslateAddress, Accepted, Path, Canonical, Prefix, On, PagesAt;
      AcceptedIsCanonicalIff(mode, a);
      AcceptedIsCanonicalIff(mode, b);
      PageUnit(a, q);
      PageUnit(b, q);
      SameUnit(a, b, q);
      var unit := 0x1000 * PagesAt(mode.Depth() - Depth(q));
      SameDistance(a, b, TranslateAddress(a).value, TranslateAddress(b).value, unit);
    }

    lemma SameUnit(a: Address, b: Address, q: Node)
      requires Canonical(mode, a) && Canonical(mode, b) && On(q, Path(mode, a)) && On(q, Path(mode, b))
      requires Depth(q) <= mode.Depth() <= Depth(q) + 2
      ensures var unit := 0x1000 * PagesAt(mode.Depth() - Depth(q)); unit > 0 && a / unit == b / unit
    {
      hide Path, Canonical, Prefix;
      SameEntryAbove(mode, a, b, mode.Depth() - Depth(q));
      DivideTwice(a, 0x1000, PagesAt(mode.Depth() - Depth(q)));
      DivideTwice(b, 0x1000, PagesAt(mode.Depth() - Depth(q)));
    }

    /** `TranslationBySize` with one name for the size of the page. */
    lemma PageUnit(va: Address, q: Node)
      requires Sound() && Accepted(mode, va) && q in tree.leaves && On(q, Path(mode, va))
      ensures TranslateAddress(va).Success? && Depth(q) <= mode.Depth() <= Depth(q) + 2
      ensures var above := mode.Depth() - Depth(q);
              && TranslateAddress(va).value / (0x1000 * PagesAt(above)) == tree.leaves[q].frame / PagesAt(above)
              && TranslateAddress(va).value % (0x1000 * PagesAt(above)) == va % (0x1000 * PagesAt(above))
    {
      TranslationBySize(va, q);
      hide Sound, TranslateAddress, Accepted, Path, Prefix;
    }

    lemma SameDistance(a: nat, b: nat, pa: nat, pb: nat, unit: nat)
      requires unit > 0 && a / unit == b / unit && pa / unit == pb / unit
      requires pa % unit == a % unit && pb % unit == b % unit
      ensures pa - pb == a - b
    {
      assert a == unit * (a / unit) + a % unit && b == unit * (b / unit) + b % unit;
      assert pa == unit * (pa / unit) + pa % unit && pb == unit * (pb / unit) + pb % unit;
    }

    /** The same for an address that no huge page covers: only its own slot matters. */
    lemma PageLookup(va: Address)
      requires Sound() && NoHugeOn(tree.leaves, Path(mode, va))
      ensures TranslateAddress(va).Success? <==> Accepted(mode, va) && Path(mode, va) in tree.leaves
      ensures GetPageFlags(va).Success? <==> Accepted(mode, va) && Path(mode, va) in tree.leaves
      ensures TranslateAddress(va).Success? ==>
                var e := tree.leaves[Path(mode, va)];
                && TranslateAddress(va) == Success(e.frame * PAGE_SIZE + va % PAGE_SIZE)
                && GetPageFlags(va) == Success(LowFlags(e.flags))
    {
      hide Sound, PhysicalAddress;
      if Accepted(mode, va) {
        var v := Path(mode, va);
        TranslationIsLookup(va, v);
        SmallPage(v, va);
      }
    }

    lemma SmallPage(v: Node, va: Address)
      requires Sound() && Depth(v) == mode.Depth()
      ensures tree.depth == Depth(v) && On(v, v)
      ensures forall e :: PhysicalAddress(e, 0, va) == e.frame * PAGE_SIZE + va % PAGE_SIZE
    {
    }

    /** The processor may cache what the tables say: a translation, or the address of a table on the way. */
    method CacheWalk(v: Node, d: nat)
      requires Valid() && Depth(v) == mode.Depth() && d < mode.Depth() && Prefix(v, d) in tree.tables
      modifies this`tlb, this`walkCache
      ensures Valid()
    {
      WalkIsSound(mem, tree, v, 0);
      var found := Walk(mem, mode.Depth(), v, 0, root);
      if found.Some? {
        tlb := tlb[found.value.0 := found.value.1];
      }
      var table := TableAt(v, d);
      walkCache := walkCache[Prefix(v, d) := table];
    }

    /** The frame of a table, found by following its path. */
    method TableAt(v: Node, d: nat) returns (table: nat)
      requires Sound() && Depth(v) == mode.Depth() && d < mode.Depth() && Prefix(v, d) in tree.tables
      ensures table == tree.tables[Prefix(v, d)]
    {
      table := root;
      var k := 0;
      while k < d
        invariant 0 <= k <= d && Prefix(v, k) in tree.tables && table == tree.tables[Prefix(v, k)]
      {
        PrefixStep(v, k);
        var q := Prefix(v, k + 1);
        if k + 1 < d {
          AncestorsAreTables(mem, tree, Prefix(v, d), k + 1);
          PrefixOfPrefix(v, d, k + 1);
        }
        ReadEntry(q);
        table := mem[table][q.index].frame;
        k := k + 1;
      }
    }

    /** Whatever the processor has cached, using it gives the translation the tables give now. */
    lemma CachesAreTransparent(v: Node)
      requires Valid() && Depth(v) == mode.Depth()
      ensures forall q :: q in tlb && On(q, v) ==>
                Walk(mem, mode.Depth(), v, 0, root) == Some((q, tlb[q]))
      ensures forall d :: 0 <= d < mode.Depth() && Prefix(v, d) in walkCache ==>
                Walk(mem, mode.Depth(), v, d, walkCache[Prefix(v, d)]) == Walk(mem, mode.Depth(), v, 0, root)
    {
      forall q | q in tlb && On(q, v)
        ensures Walk(mem, mode.Depth(), v, 0, root) == Some((q, tlb[q]))
      {
        WalkReachesLeaf(mem, tree, v, 0, q);
      }
      forall d | 0 <= d < mode.Depth() && Prefix(v, d) in walkCache
        ensures Walk(mem, mode.Depth(), v, d, walkCache[Prefix(v, d)]) == Walk(mem, mode.Depth(), v, 0, root)
      {
        WalkFromTable(mem, tree, v, d);
      }
    }
  }
}
