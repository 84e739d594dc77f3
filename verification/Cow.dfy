/** Copy-on-write on top of the paging manager: reference counters, marking, sharing, resolving. */
module Cow {
  import opened Results
  import opened Sizes
  import opened PageEntry
  import opened VirtAddr
  import opened PageTree
  import opened Pmm
  import opened Paging
  import opened CowModel

  datatype CowError =
    | FromPaging(error: PagingError)
    | NotCow
    | NoFrame
    | Unaligned

  /** The 4 KiB pages among the leaves of a tree. */
  ghost function SmallPages(t: Tree): map<Node, Word> {
    map q | q in t.leaves && Depth(q) == t.depth :: t.leaves[q]
  }

  ghost predicate PagesHoldData(used: seq<bool>, t: Tree) {
    forall v :: v in SmallPages(t) ==> HoldsData(used, t, SmallPages(t)[v].frame)
  }

  /** Unmapping a page and freeing its frame, as `munmap` does, leaves the other pages on allocated frames
      exactly if none of them shares that frame: unmapping one side of a copy-on-write share
      frees the frame under the other side. */
  lemma FreeingSharedFrame(used: seq<bool>, t: Tree, v: Node)
    requires PagesHoldData(used, t) && v in SmallPages(t)
    ensures PagesHoldData(used[t.leaves[v].frame := false], t.(leaves := t.leaves - {v})) <==>
            forall u :: u in SmallPages(t) && u != v ==> t.leaves[u].frame != t.leaves[v].frame
  {
    var f, t' := t.leaves[v].frame, t.(leaves := t.leaves - {v});
    assert HoldsData(used, t, f);
    assert forall u :: u in SmallPages(t') <==> u in SmallPages(t) && u != v;
    forall u | u in SmallPages(t')
      ensures SmallPages(t')[u] == SmallPages(t)[u]
      ensures HoldsData(used[f := false], t', SmallPages(t')[u].frame) <==> t.leaves[u].frame != f
    {
      assert HoldsData(used, t, SmallPages(t)[u].frame);
    }
  }

  /** Changing the entry of one small page changes one small page. */
  lemma SmallPagesUpdate(t: Tree, v: Node, w: Word)
    requires Depth(v) == t.depth
    ensures SmallPages(t.(leaves := t.leaves[v := w])) == SmallPages(t)[v := w]
  {
  }

  lemma RemapKeepsData(used: seq<bool>, t: Tree, v: Node, w: Word)
    requires PagesHoldData(used, t) && Depth(v) == t.depth && HoldsData(used, t, w.frame)
    ensures PagesHoldData(used, t.(leaves := t.leaves[v := w]))
  {
    SmallPagesUpdate(t, v, w);
  }

  /** Rewriting an entry shows in the pages only as the new entry. */
  lemma RemapIsUpdate(used: seq<bool>, t: Tree, v: Node, w: Word, refs: seq<nat>, mem: seq<Page>, mem': seq<Page>)
    requires PagesHoldData(used, t) && Depth(v) == t.depth && HoldsData(used, t, w.frame)
    requires |mem'| == |mem| && forall f :: 0 <= f < |mem| && f !in t.tables.Values ==> mem'[f] == mem[f]
    ensures Equivalent(Vm(SmallPages(t)[v := w], refs, mem),
                       Vm(SmallPages(t.(leaves := t.leaves[v := w])), refs, mem'))
  {
    SmallPagesUpdate(t, v, w);
  }

  lemma GrowthKeepsData(a: Snapshot, b: Snapshot, v: Node, refs: seq<nat>)
    requires GrownLoosely(a, b, v) && PagesHoldData(a.used, a.tree) && |a.used| <= |a.mem|
    requires b.tree.leaves == a.tree.leaves
    ensures PagesHoldData(b.used, b.tree)
    ensures Equivalent(Vm(SmallPages(a.tree), refs, a.mem), Vm(SmallPages(b.tree), refs, b.mem))
  {
    assert SmallPages(b.tree) == SmallPages(a.tree);
    forall u | u in SmallPages(a.tree)
      ensures HoldsData(b.used, b.tree, SmallPages(a.tree)[u].frame)
      ensures b.mem[SmallPages(a.tree)[u].frame] == a.mem[SmallPages(a.tree)[u].frame]
    {
      GrowthKeepsFrame(a, b, v, SmallPages(a.tree)[u].frame);
    }
  }

  lemma GrowthAddsPage(a: Snapshot, b: Snapshot, v: Node, w: Word, refs: seq<nat>)
    requires Grown(a, b, v) && PagesHoldData(a.used, a.tree) && |a.used| <= |a.mem|
    requires b.tree.leaves == a.tree.leaves[v := w] && Depth(v) == a.tree.depth
    requires HoldsData(a.used, a.tree, w.frame)
    ensures PagesHoldData(b.used, b.tree)
    ensures Equivalent(Vm(SmallPages(a.tree)[v := w], refs, a.mem), Vm(SmallPages(b.tree), refs, b.mem))
  {
    SmallPagesUpdate(a.tree, v, w);
    assert SmallPages(b.tree) == SmallPages(a.tree)[v := w];
    forall u | u in SmallPages(b.tree)
      ensures HoldsData(b.used, b.tree, SmallPages(b.tree)[u].frame)
      ensures b.mem[SmallPages(b.tree)[u].frame] == a.mem[SmallPages(b.tree)[u].frame]
    {
      GrowthKeepsFrame(a, b, v, SmallPages(b.tree)[u].frame);
    }
  }

  /** A frame that was free is no table and backs no page; taking it disturbs nothing. */
  lemma FreeFrameHoldsNothing(mem: seq<Page>, t: Tree, used: seq<bool>, f: nat)
    requires Consistent(mem, t, used) && PagesHoldData(used, t) && f < |used| && !used[f]
    ensures Consistent(mem, t, used[f := true]) && PagesHoldData(used[f := true], t)
    ensures HoldsData(used[f := true], t, f) && f < FRAME_LIMIT
    ensures forall v :: v in SmallPages(t) ==> SmallPages(t)[v].frame != f
  {
    hide Holds;
    forall v | v in SmallPages(t)
      ensures SmallPages(t)[v].frame != f && HoldsData(used[f := true], t, SmallPages(t)[v].frame)
    {
      assert HoldsData(used, t, SmallPages(t)[v].frame);
    }
  }

  lemma NotMappedShare(s: Vm, src: Node, dst: Node, aligned: bool)
    requires Backed(s)
    ensures src !in s.pages ==> Step(s, Share(src, dst, aligned, false)) == s
  {
  }

  /** Pages that a range of `size` bytes takes up. */
  function PagesIn(size: nat): nat {
    (size + PAGE_SIZE - 1) / PAGE_SIZE
  }

  /** They are enough, and one fewer is not. */
  lemma PagesCover(size: nat)
    ensures size <= PagesIn(size) * PAGE_SIZE < size + PAGE_SIZE
  {
  }

  /** No huge page covers any page of the range. */
  ghost predicate ClearRange(leaves: map<Node, Word>, mode: Mode, start: Address, size: nat) {
    forall a: Address :: start <= a < start + PagesIn(size) * PAGE_SIZE ==> NoHugeOn(leaves, Path(mode, a))
  }

  lemma PageInRange(leaves: map<Node, Word>, mode: Mode, start: Address, size: nat, i: nat)
    requires i < PagesIn(size) && start + size + PAGE_SIZE <= U64_LIMIT && ClearRange(leaves, mode, start, size)
    ensures start <= start + i * PAGE_SIZE < U64_LIMIT
    ensures NoHugeOn(leaves, Path(mode, start + i * PAGE_SIZE))
    ensures (start + i * PAGE_SIZE) % PAGE_SIZE == start % PAGE_SIZE
  {
    assert start + i * PAGE_SIZE < start + PagesIn(size) * PAGE_SIZE <= U64_LIMIT;
  }

  lemma StaysClear(leaves: map<Node, Word>, leaves': map<Node, Word>, mode: Mode, start: Address, size: nat)
    requires forall v :: Depth(v) == mode.Depth() && NoHugeOn(leaves, v) ==> NoHugeOn(leaves', v)
    requires ClearRange(leaves, mode, start, size)
    ensures ClearRange(leaves', mode, start, size)
  {
  }

  /** A recorded run, continued by one operation on a state that looks the same. */
  lemma RunFurther(s: Vm, ops: seq<Op>, before: Vm, op: Op, after: Vm)
    requires Runnable(s, ops) && Equivalent(Run(s, ops), before) && Backed(before) && Delivered(before, op)
    requires Equivalent(Step(before, op), after)
    ensures Runnable(s, ops + [op]) && Equivalent(Run(s, ops + [op]), after)
  {
    EquivalentStates(Run(s, ops), before);
    EquivalentSteps(Run(s, ops), before, op);
    RunAppend(s, ops, op);
    EquivalentTwice(Step(Run(s, ops), op), Step(before, op), after);
  }

  /** What `clone_range_cow` does for page `i` of the range: addresses that are not accepted are skipped. */
  function CloneOp(mode: Mode, src: Address, dst: Address, i: nat, mapped: bool): Op
    requires src + i * PAGE_SIZE < U64_LIMIT && dst + i * PAGE_SIZE < U64_LIMIT
  {
    Share(Path(mode, src + i * PAGE_SIZE), Path(mode, dst + i * PAGE_SIZE),
          src % PAGE_SIZE == 0 && Accepted(mode, src + i * PAGE_SIZE), mapped)
  }

  /** Why an operation of the paging layer failed. */
  function Reason<T>(r: Result<T, PagingError>): CowError {
    match r
    case Failure(e) => FromPaging(e)
    case Success(_) => NotCow
  }

  lemma EntryOfAddress(pa: nat, flags: Flags)
    requires pa / PAGE_SIZE < FRAME_LIMIT
    ensures MakeEntry(pa, flags) == Word(pa / PAGE_SIZE, flags)
  {
  }

  lemma AddressInPage(f: nat, va: Address)
    ensures (f * PAGE_SIZE + va % PAGE_SIZE) / PAGE_SIZE == f
    ensures (f * PAGE_SIZE + va % PAGE_SIZE) % PAGE_SIZE == va % PAGE_SIZE
  {
  }

  class CowManager {
    const pg: PagingManager
    const refcount: array<nat>

    ghost predicate Valid()
      reads this, refcount, pg, pg.pmm, pg.pmm.bitmap
    {
      && pg.Valid()
      && refcount.Length == MAX_FRAMES && refcount as object != pg.pmm.bitmap
      && (forall f :: 0 <= f < MAX_FRAMES ==> refcount[f] < U32_LIMIT)
      && PagesHoldData(pg.pmm.used, pg.tree)
    }

    ghost function State(): Vm
      reads this, refcount, pg
    {
      Vm(SmallPages(pg.tree), refcount[..], pg.mem)
    }

    lemma StateIsBacked()
      requires Valid()
      ensures WellTyped(State()) && |pg.pmm.used| <= |pg.mem|
    {
    }

    /** All counters start at zero. */
    constructor (pg: PagingManager)
      requires pg.Valid() && PagesHoldData(pg.pmm.used, pg.tree)
      ensures Valid() && this.pg == pg && fresh(refcount)
      ensures forall f :: 0 <= f < MAX_FRAMES ==> refcount[f] == 0
    {
      this.pg := pg;
      var table := new nat[MAX_FRAMES];
      refcount := table;
      new;
      var i := 0;
      while i < MAX_FRAMES
        invariant 0 <= i <= MAX_FRAMES == refcount.Length
        invariant forall f :: 0 <= f < i ==> refcount[f] == 0
        invariant pg.Valid() && this.pg == pg && fresh(refcount)
      {
        refcount[i] := 0;
        i := i + 1;
      }
    }

    method GetRefcount(pa: nat) returns (n: nat)
      ensures n == GetRef(refcount[..], pa / PAGE_SIZE)
    {
      var index := pa / PAGE_SIZE;
      if index >= refcount.Length {
        return 0;
      }
      return refcount[index];
    }

    method IncRefcount(pa: nat) returns (n: nat)
      modifies refcount
      ensures refcount[..] == IncRef(old(refcount[..]), pa / PAGE_SIZE)
      ensures n == GetRef(refcount[..], pa / PAGE_SIZE)
    {
      var index := pa / PAGE_SIZE;
      if index >= refcount.Length {
        return 0;
      }
      refcount[index] := (refcount[index] + 1) % U32_LIMIT;
      return refcount[index];
    }

    /** The counter wraps below zero, but the result does not. */
    method DecRefcount(pa: nat) returns (n: nat)
      modifies refcount
      ensures refcount[..] == DecRef(old(refcount[..]), pa / PAGE_SIZE)
      ensures n == if GetRef(old(refcount[..]), pa / PAGE_SIZE) == 0 then 0
                   else GetRef(old(refcount[..]), pa / PAGE_SIZE) - 1
    {
      var index := pa / PAGE_SIZE;
      if index >= refcount.Length {
        return 0;
      }
      var before := refcount[index];
      refcount[index] := if before == 0 then U32_LIMIT - 1 else before - 1;
      return if before > 0 then before - 1 else 0;
    }

    method SetRefcount(pa: nat, count: nat)
      modifies refcount
      ensures refcount[..] == SetRef(old(refcount[..]), pa / PAGE_SIZE, count)
    {
      var index := pa / PAGE_SIZE;
      if index < refcount.Length {
        refcount[index] := count;
      }
    }

    /** The page that an address selects. */
    function PageOf(va: Address): Node
      reads this
    {
      Path(pg.mode, va)
    }

    /** What `translate_address` and `get_page_flags` say about a page of the state. */
    lemma PageFacts(va: Address)
      requires Valid() && NoHugeOn(pg.tree.leaves, PageOf(va))
      ensures pg.TranslateAddress(va).Success? <==> Accepted(pg.mode, va) && PageOf(va) in State().pages
      ensures pg.GetPageFlags(va).Success? <==> Accepted(pg.mode, va) && PageOf(va) in State().pages
      ensures PageOf(va) in State().pages <==> PageOf(va) in pg.tree.leaves
      ensures pg.TranslateAddress(va).Success? ==>
                var w, pa := State().pages[PageOf(va)], pg.TranslateAddress(va).value;
                && pa / PAGE_SIZE == w.frame && pa % PAGE_SIZE == va % PAGE_SIZE
                && (va % PAGE_SIZE == 0 ==> pa == w.frame * PAGE_SIZE)
                && pg.GetPageFlags(va) == Success(LowFlags(w.flags))
                && w.flags.present
                && HoldsData(pg.pmm.used, pg.tree, w.frame)
    {
      pg.PageLookup(va);
      if PageOf(va) in pg.tree.leaves {
        pg.ReadEntry(PageOf(va));
        AddressInPage(pg.tree.leaves[PageOf(va)].frame, va);
      }
    }

    lemma DepthOfTree()
      requires Valid()
      ensures pg.tree.depth == pg.mode.Depth()
    {
    }

    /** Rewrites the entry of a mapped page so that it points at data. */
    method ChangeEntry(va: Address, pa: nat, flags: Flags) returns (r: Result<(), CowError>)
      requires Valid() && NoHugeOn(pg.tree.leaves, PageOf(va)) && flags.present
      requires PageOf(va) in State().pages
      requires pa % PAGE_SIZE == 0 ==>
                 pa / PAGE_SIZE < FRAME_LIMIT && HoldsData(pg.pmm.used, pg.tree, pa / PAGE_SIZE)
      modifies pg
      ensures Valid() && pg.tree.tables == old(pg.tree.tables)
      ensures r.Success? <==> pa % PAGE_SIZE == 0
      ensures r.Failure? ==> State() == old(State()) && pg.tree == old(pg.tree)
      ensures r.Success? ==>
                && pg.tree.leaves == old(pg.tree.leaves)[PageOf(va) := Word(pa / PAGE_SIZE, flags)]
                && Equivalent(old(State()).(pages := old(State()).pages[PageOf(va) := Word(pa / PAGE_SIZE, flags)]),
                              State())
      ensures forall v :: Depth(v) == pg.mode.Depth() && NoHugeOn(old(pg.tree.leaves), v) ==>
                NoHugeOn(pg.tree.leaves, v)
    {
      hide Equivalent, PagesHoldData, NoHugeOn, MakeEntry;
      DepthOfTree();
      if pa % PAGE_SIZE == 0 {
        EntryOfAddress(pa, flags);
      }
      var remapped := pg.RemapPage(va, pa, flags);
      if remapped.Failure? {
        return Failure(Reason(remapped));
      }
      ghost var w := Word(pa / PAGE_SIZE, flags);
      NoHugeStays(old(pg.tree.leaves), PageOf(va), w);
      RemapKeepsData(pg.pmm.used, old(pg.tree), PageOf(va), w);
      RemapIsUpdate(pg.pmm.used, old(pg.tree), PageOf(va), w, refcount[..], old(pg.mem), pg.mem);
      return Success(());
    }

    /** Makes a page read-only and copy-on-write, and counts a reference to its frame. */
    method MarkCow(va: Address) returns (r: Result<(), CowError>)
      requires Valid() && NoHugeOn(pg.tree.leaves, PageOf(va))
      modifies pg, refcount
      ensures Valid()
      ensures r.Success? <==> Accepted(pg.mode, va) && PageOf(va) in old(State()).pages && va % PAGE_SIZE == 0
      ensures Backed(old(State()))
      ensures if Accepted(pg.mode, va)
              then Equivalent(Step(old(State()), Mark(PageOf(va), va % PAGE_SIZE == 0)), State())
              else State() == old(State())
      ensures forall v :: Depth(v) == pg.mode.Depth() && NoHugeOn(old(pg.tree.leaves), v) ==>
                NoHugeOn(pg.tree.leaves, v)
    {
      hide Consistent, NoHugeOn, PagesHoldData, HoldsData, SmallPages, Accepted, Path;
      StateIsBacked();
      PageFacts(va);
      var currentFlags := pg.GetPageFlags(va);
      if currentFlags.Failure? {
        return Failure(Reason(currentFlags));
      }
      var phys := pg.TranslateAddress(va);
      if phys.Failure? {
        return Failure(Reason(phys));
      }
      var count := IncRefcount(phys.value);
      r := ChangeEntry(va, phys.value, CowFlags(currentFlags.value));
    }

    /** Copies one page of memory; both addresses must be page-aligned. */
    method CopyPage(src: nat, dst: nat) returns (r: Result<(), CowError>)
      requires Valid() && src / PAGE_SIZE < |pg.mem| && HoldsData(pg.pmm.used, pg.tree, dst / PAGE_SIZE)
      modifies pg`mem
      ensures Valid()
      ensures r.Success? <==> src % PAGE_SIZE == 0 && dst % PAGE_SIZE == 0
      ensures r.Failure? ==> pg.mem == old(pg.mem)
      ensures r.Success? ==> pg.mem == old(pg.mem)[dst / PAGE_SIZE := old(pg.mem)[src / PAGE_SIZE]]
    {
      if src % PAGE_SIZE != 0 || dst % PAGE_SIZE != 0 {
        return Failure(Unaligned);
      }
      OtherFrame(pg.mem, pg.tree, dst / PAGE_SIZE, pg.mem[src / PAGE_SIZE]);
      pg.mem := pg.mem[dst / PAGE_SIZE := pg.mem[src / PAGE_SIZE]];
      return Success(());
    }

    /** Drops one reference, and the frame with the last one. */
    method DropReference(pa: nat)
      requires pg.pmm.Valid() && refcount as object != pg.pmm.bitmap
      modifies refcount, pg.pmm, pg.pmm.bitmap
      ensures pg.pmm.Valid() && refcount[..] == DecRef(old(refcount[..]), pa / PAGE_SIZE)
      ensures GetRef(old(refcount[..]), pa / PAGE_SIZE) > 1 ==> pg.pmm.used == old(pg.pmm.used)
      ensures |pg.pmm.used| == old(|pg.pmm.used|)
    {
      var left := DecRefcount(pa);
      if left == 0 {
        var freed := pg.pmm.FreeFrame(pa);
      }
    }

    /** A frame for a copy: free until now, so that neither a table nor a page uses it. */
    method AllocCopy() returns (addr: nat)
      requires Valid()
      modifies pg.pmm, pg.pmm.bitmap
      ensures Valid() && State() == old(State())
      ensures addr == 0 <==> old(pg.pmm.freeFrames) == 0
      ensures addr != 0 ==>
                && addr % PAGE_SIZE == 0
                && HoldsData(pg.pmm.used, pg.tree, addr / PAGE_SIZE)
                && addr / PAGE_SIZE < FRAME_LIMIT
                && forall v :: v in State().pages ==> State().pages[v].frame != addr / PAGE_SIZE
    {
      hide Consistent, PagesHoldData, Current;
      ghost var used := pg.pmm.used;
      StateIsBacked();
      FrameZeroIsUsed();
      addr := pg.pmm.AllocFrameOrZero();
      if addr != 0 {
        FreeFrameHoldsNothing(pg.mem, pg.tree, used, addr / PAGE_SIZE);
      }
    }

    lemma FrameZeroIsUsed()
      requires Valid()
      ensures 0 < |pg.pmm.used| && pg.pmm.used[0]
    {
    }

    /** Moves a shared page to a frame of its own. */
    method CopyAndMove(va: Address, oldPhys: nat, flags: Flags)
      returns (r: Result<(), CowError>, ghost copy: Option<nat>)
      requires Valid() && NoHugeOn(pg.tree.leaves, PageOf(va)) && flags.present
      requires PageOf(va) in State().pages && oldPhys % PAGE_SIZE == va % PAGE_SIZE
      requires State().pages[PageOf(va)].frame == oldPhys / PAGE_SIZE
      requires State().pages[PageOf(va)].flags.cow
      requires flags == LowFlags(State().pages[PageOf(va)].flags)
      requires GetRef(refcount[..], oldPhys / PAGE_SIZE) > 1
      modifies pg, refcount, pg.pmm, pg.pmm.bitmap
      ensures Valid()
      ensures r.Success? <==> va % PAGE_SIZE == 0 && old(pg.pmm.freeFrames) > 0
      ensures copy.Some? <==> r.Success?
      ensures Backed(old(State())) && Delivered(old(State()), Resolve(PageOf(va), va % PAGE_SIZE == 0, copy))
      ensures Equivalent(Step(old(State()), Resolve(PageOf(va), va % PAGE_SIZE == 0, copy)), State())
      ensures forall v :: Depth(v) == pg.mode.Depth() && NoHugeOn(old(pg.tree.leaves), v) ==>
                NoHugeOn(pg.tree.leaves, v)
    {
      hide Equivalent, NoHugeOn, PagesHoldData, Consistent, Step;
      StateIsBacked();
      copy := None;
      SameState();
      ResolveGivesUp(State(), PageOf(va), va % PAGE_SIZE == 0);
      var newPhys := AllocCopy();
      if newPhys == 0 {
        return Failure(NoFrame), copy;
      }
      StateIsBacked();
      var copied := CopyPage(oldPhys, newPhys);
      if copied.Failure? {
        return copied, copy;
      }
      copy := Some(newPhys / PAGE_SIZE);
      ResolveMoves(old(State()), PageOf(va), newPhys / PAGE_SIZE);
      r := InstallCopy(va, oldPhys, newPhys, flags, old(State()));
    }

    lemma SameState()
      ensures Equivalent(State(), State())
    {
    }

    /** Points the page at its copy and hands its reference to the old frame back. */
    method InstallCopy(va: Address, oldPhys: nat, newPhys: nat, flags: Flags, ghost s: Vm)
      returns (r: Result<(), CowError>)
      requires Valid() && NoHugeOn(pg.tree.leaves, PageOf(va)) && flags.present
      requires PageOf(va) in State().pages && va % PAGE_SIZE == 0
      requires newPhys % PAGE_SIZE == 0 && newPhys / PAGE_SIZE < FRAME_LIMIT
      requires HoldsData(pg.pmm.used, pg.tree, newPhys / PAGE_SIZE)
      requires GetRef(refcount[..], oldPhys / PAGE_SIZE) > 1
      requires newPhys / PAGE_SIZE < |s.mem| && oldPhys / PAGE_SIZE < |s.mem|
      requires State() == s.(mem := s.mem[newPhys / PAGE_SIZE := s.mem[oldPhys / PAGE_SIZE]])
      modifies pg, refcount, pg.pmm, pg.pmm.bitmap
      ensures Valid() && r.Success?
      ensures Equivalent(
                s.(pages := s.pages[PageOf(va) := Word(newPhys / PAGE_SIZE, OwnedFlags(flags))],
                   refs := SetRef(DecRef(s.refs, oldPhys / PAGE_SIZE), newPhys / PAGE_SIZE, 1),
                   mem := s.mem[newPhys / PAGE_SIZE := s.mem[oldPhys / PAGE_SIZE]]),
                State())
      ensures forall v :: Depth(v) == pg.mode.Depth() && NoHugeOn(old(pg.tree.leaves), v) ==>
                NoHugeOn(pg.tree.leaves, v)
    {
      hide Equivalent, NoHugeOn, Consistent, PagesHoldData, Current;
      ghost var w := Word(newPhys / PAGE_SIZE, OwnedFlags(flags));
      ghost var s1 := State().(pages := State().pages[PageOf(va) := w]);
      r := ChangeEntry(va, newPhys, OwnedFlags(flags));
      ghost var s2 := State();
      DropReference(oldPhys);
      SetRefcount(newPhys, 1);
      EquivalentRefs(s1, s2, refcount[..]);
    }

    /** Ends the sharing of one copy-on-write page: in place for the last owner, by copying otherwise. */
    method BreakSharing(va: Address, oldPhys: nat, flags: Flags)
      returns (r: Result<(), CowError>, ghost copy: Option<nat>)
      requires Valid() && NoHugeOn(pg.tree.leaves, PageOf(va)) && flags.present
      requires PageOf(va) in State().pages && oldPhys % PAGE_SIZE == va % PAGE_SIZE
      requires State().pages[PageOf(va)].frame == oldPhys / PAGE_SIZE
      requires State().pages[PageOf(va)].flags.cow
      requires flags == LowFlags(State().pages[PageOf(va)].flags)
      modifies pg, refcount, pg.pmm, pg.pmm.bitmap
      ensures Valid()
      ensures r.Success? <==>
                va % PAGE_SIZE == 0
                && (GetRef(old(refcount[..]), oldPhys / PAGE_SIZE) <= 1 || old(pg.pmm.freeFrames) > 0)
      ensures copy.Some? <==> r.Success? && GetRef(old(refcount[..]), oldPhys / PAGE_SIZE) > 1
      ensures Backed(old(State())) && Delivered(old(State()), Resolve(PageOf(va), va % PAGE_SIZE == 0, copy))
      ensures Equivalent(Step(old(State()), Resolve(PageOf(va), va % PAGE_SIZE == 0, copy)), State())
      ensures forall v :: Depth(v) == pg.mode.Depth() && NoHugeOn(old(pg.tree.leaves), v) ==>
                NoHugeOn(pg.tree.leaves, v)
    {
      hide Equivalent, NoHugeOn, Consistent;
      copy := None;
      StateIsBacked();
      var refs := GetRefcount(oldPhys);
      if refs <= 1 {
        ghost var s := State();
        PageHoldsData(PageOf(va));
        var left := DecRefcount(oldPhys);
        SameState();
        r := ChangeEntry(va, oldPhys, OwnedFlags(flags));
      } else {
        r, copy := CopyAndMove(va, oldPhys, flags);
      }
    }

    lemma PageHoldsData(v: Node)
      requires Valid() && v in State().pages
      ensures HoldsData(pg.pmm.used, pg.tree, State().pages[v].frame)
    {
    }

    /** The page fault handler for writes to copy-on-write pages. */
    method HandleCowFault(va: Address) returns (r: Result<(), CowError>, ghost copy: Option<nat>)
      requires Valid() && NoHugeOn(pg.tree.leaves, PageOf(va))
      modifies pg, refcount, pg.pmm, pg.pmm.bitmap
      ensures Valid()
      ensures r.Success? <==>
                && Accepted(pg.mode, va) && va % PAGE_SIZE == 0
                && PageOf(va) in old(State()).pages
                && var w := old(State()).pages[PageOf(va)];
                && w.flags.cow
                && (GetRef(old(refcount[..]), w.frame) <= 1 || old(pg.pmm.freeFrames) > 0)
      ensures copy.Some? ==> r.Success?
      ensures Backed(old(State())) && Delivered(old(State()), Resolve(PageOf(va), va % PAGE_SIZE == 0, copy))
      ensures if Accepted(pg.mode, va)
              then Equivalent(Step(old(State()), Resolve(PageOf(va), va % PAGE_SIZE == 0, copy)), State())
              else State() == old(State())
      ensures forall v :: Depth(v) == pg.mode.Depth() && NoHugeOn(old(pg.tree.leaves), v) ==>
                NoHugeOn(pg.tree.leaves, v)
    {
      hide Equivalent, NoHugeOn, Consistent;
      copy := None;
      StateIsBacked();
      SameState();
      PageFacts(va);
      var currentFlags := pg.GetPageFlags(va);
      if currentFlags.Failure? {
        return Failure(Reason(currentFlags)), copy;
      }
      if !currentFlags.value.cow {
        return Failure(NotCow), copy;
      }
      var phys := pg.TranslateAddress(va);
      if phys.Failure? {
        return Failure(Reason(phys)), copy;
      }
      r, copy := BreakSharing(va, phys.value, currentFlags.value);
    }

    /** Gives a page a frame of its own ahead of any write; other pages are left alone. */
    method UnshareCowPage(va: Address) returns (r: Result<(), CowError>, ghost copy: Option<nat>)
      requires Valid() && NoHugeOn(pg.tree.leaves, PageOf(va))
      modifies pg, refcount, pg.pmm, pg.pmm.bitmap
      ensures Valid()
      ensures r.Success? <==>
                && Accepted(pg.mode, va)
                && PageOf(va) in old(State()).pages
                && var w := old(State()).pages[PageOf(va)];
                && (w.flags.cow ==>
                      va % PAGE_SIZE == 0 && (GetRef(old(refcount[..]), w.frame) <= 1 || old(pg.pmm.freeFrames) > 0))
      ensures copy.Some? ==> r.Success?
      ensures Backed(old(State())) && Delivered(old(State()), Resolve(PageOf(va), va % PAGE_SIZE == 0, copy))
      ensures if Accepted(pg.mode, va)
              then Equivalent(Step(old(State()), Resolve(PageOf(va), va % PAGE_SIZE == 0, copy)), State())
              else State() == old(State())
      ensures forall v :: Depth(v) == pg.mode.Depth() && NoHugeOn(old(pg.tree.leaves), v) ==>
                NoHugeOn(pg.tree.leaves, v)
    {
      hide Equivalent, NoHugeOn, Consistent;
      copy := None;
      StateIsBacked();
      SameState();
      PageFacts(va);
      var currentFlags := pg.GetPageFlags(va);
      if currentFlags.Failure? {
        return Failure(Reason(currentFlags)), copy;
      }
      if !currentFlags.value.cow {
        return Success(()), copy;
      }
      var phys := pg.TranslateAddress(va);
      if phys.Failure? {
        return Failure(Reason(phys)), copy;
      }
      r, copy := BreakSharing(va, phys.value, currentFlags.value);
    }

    /** Maps the frame of `src` at `dst` as well, both copy-on-write. */
    method SharePageCow(src: Address, dst: Address) returns (r: Result<(), CowError>)
      requires Valid() && NoHugeOn(pg.tree.leaves, PageOf(src)) && NoHugeOn(pg.tree.leaves, PageOf(dst))
      modifies pg, refcount, pg.pmm, pg.pmm.bitmap
      ensures Valid()
      ensures r.Success? ==>
                && Accepted(pg.mode, src) && PageOf(src) in old(State()).pages
                && src % PAGE_SIZE == 0 && Accepted(pg.mode, dst)
      ensures r.Failure? && Accepted(pg.mode, src) && PageOf(src) in old(State()).pages && src % PAGE_SIZE == 0
              && Accepted(pg.mode, dst) ==>
                r.error.FromPaging? && OutOfFrames(r.error.error, old(pg.pmm.used), pg.pmm.used)
      ensures Backed(old(State()))
      ensures if Accepted(pg.mode, src)
              then
                Equivalent(Step(old(State()), Share(PageOf(src), PageOf(dst), src % PAGE_SIZE == 0, r.Success?)),
                           State())
              else State() == old(State())
      ensures forall v :: Depth(v) == pg.mode.Depth() && NoHugeOn(old(pg.tree.leaves), v) ==>
                NoHugeOn(pg.tree.leaves, v)
    {
      hide Equivalent, NoHugeOn, Consistent, Step, PagesHoldData, Current, OutOfFrames;
      StateIsBacked();
      SameState();
      NotMappedShare(State(), PageOf(src), PageOf(dst), src % PAGE_SIZE == 0);
      PageFacts(src);
      var phys := pg.TranslateAddress(src);
      if phys.Failure? {
        return Failure(Reason(phys));
      }
      var srcFlags := pg.GetPageFlags(src);
      if srcFlags.Failure? {
        return Failure(Reason(srcFlags));
      }
      var flags := CowFlags(srcFlags.value);
      ghost var s, u, v := State(), PageOf(src), PageOf(dst);
      ShareOutcomes(s, u, v, false);
      PageHoldsData(u);
      NoHugeStays(pg.tree.leaves, u, CowEntry(s.pages[u]));
      NoHugeStays(pg.tree.leaves[u := CowEntry(s.pages[u])], v, CowEntry(s.pages[u]));
      r := ChangeEntry(src, phys.value, flags);
      if r.Failure? {
        return;
      }
      ghost var s1 := State();
      EquivalentAdd(s.(pages := s.pages[u := CowEntry(s.pages[u])]), s1, u, v, CowEntry(s.pages[u]));
      r := AddPage(dst, phys.value, flags);
      if r.Failure? {
        EquivalentTwice(s.(pages := s.pages[u := CowEntry(s.pages[u])]), s1, State());
        return;
      }
      ghost var s2 := s.(pages := s.pages[u := CowEntry(s.pages[u])][v := CowEntry(s.pages[u])]);
      EquivalentTwice(s2, s1.(pages := s1.pages[v := CowEntry(s.pages[u])]), State());
      ghost var s3 := State();
      EquivalentRefs(s2, s3, IncRef(refcount[..], phys.value / PAGE_SIZE));
      var count := IncRefcount(phys.value);
      assert State() == s3.(refs := refcount[..]);
    }

    /** Maps a frame that holds data at one more address. */
    method AddPage(va: Address, pa: nat, flags: Flags) returns (r: Result<(), CowError>)
      requires Valid() && NoHugeOn(pg.tree.leaves, PageOf(va)) && flags.present
      requires pa % PAGE_SIZE == 0 && pa / PAGE_SIZE < FRAME_LIMIT && HoldsData(pg.pmm.used, pg.tree, pa / PAGE_SIZE)
      modifies pg, pg.pmm, pg.pmm.bitmap
      ensures Valid()
      ensures r.Success? ==> Accepted(pg.mode, va)
      ensures r.Failure? && Accepted(pg.mode, va) ==>
                r.error.FromPaging? && OutOfFrames(r.error.error, old(pg.pmm.used), pg.pmm.used)
      ensures r.Success? ==>
                && pg.tree.leaves == old(pg.tree.leaves)[PageOf(va) := Word(pa / PAGE_SIZE, flags)]
                && Equivalent(old(State()).(pages := old(State()).pages[PageOf(va) := Word(pa / PAGE_SIZE, flags)]),
                              State())
      ensures r.Failure? ==> Equivalent(old(State()), State()) && pg.tree.leaves == old(pg.tree.leaves)
    {
      hide Equivalent, NoHugeOn, Consistent, MakeEntry, PagesHoldData, Grown, GrownLoosely, OutOfFrames;
      DepthOfTree();
      StateIsBacked();
      EntryOfAddress(pa, flags);
      var mapped := pg.MapPage(va, pa, flags);
      ghost var a, b := old(pg.Now()), pg.Now();
      if mapped.Failure? {
        GrowthKeepsData(a, b, PageOf(va), refcount[..]);
        return Failure(Reason(mapped));
      }
      GrowthAddsPage(a, b, PageOf(va), Word(pa / PAGE_SIZE, flags), refcount[..]);
      return Success(());
    }

    /** One page of `CloneRangeCow`: shares it if it is mapped. */
    method ClonePage(src: Address, dst: Address) returns (r: Result<(), CowError>)
      requires Valid() && NoHugeOn(pg.tree.leaves, PageOf(src)) && NoHugeOn(pg.tree.leaves, PageOf(dst))
      modifies pg, refcount, pg.pmm, pg.pmm.bitmap
      ensures Valid() && Backed(old(State()))
      ensures r.Failure? && src % PAGE_SIZE == 0 && Accepted(pg.mode, dst) ==>
                r.error.FromPaging? && OutOfFrames(r.error.error, old(pg.pmm.used), pg.pmm.used)
      ensures Equivalent(Step(old(State()), Share(PageOf(src), PageOf(dst),
                                                  src % PAGE_SIZE == 0 && Accepted(pg.mode, src), r.Success?)), State())
      ensures forall v :: Depth(v) == pg.mode.Depth() && NoHugeOn(old(pg.tree.leaves), v) ==>
                NoHugeOn(pg.tree.leaves, v)
    {
      hide Equivalent, NoHugeOn, Consistent, Accepted, OutOfFrames;
      StateIsBacked();
      SameState();
      PageFacts(src);
      if PageOf(src) in State().pages {
        ShareOutcomes(State(), PageOf(src), PageOf(dst), true);
      }
      if pg.TranslateAddress(src).Success? {
        r := SharePageCow(src, dst);
      } else {
        r := Success(());
      }
    }

    /** Shares every mapped page of a range; stops at the first failure.
        `ops` records what was done for each page, in order. */
    method CloneRangeCow(src: Address, dst: Address, size: nat) returns (r: Result<(), CowError>, ghost ops: seq<Op>)
      requires Valid()
      requires src + size + PAGE_SIZE <= U64_LIMIT && dst + size + PAGE_SIZE <= U64_LIMIT
      requires ClearRange(pg.tree.leaves, pg.mode, src, size) && ClearRange(pg.tree.leaves, pg.mode, dst, size)
      modifies pg, refcount, pg.pmm, pg.pmm.bitmap
      ensures Valid()
      ensures Runnable(old(State()), ops) && Equivalent(Run(old(State()), ops), State())
      ensures |ops| <= PagesIn(size)
      ensures forall i :: 0 <= i < |ops| - 1 ==> ops[i] == CloneOp(pg.mode, src, dst, i, true)
      ensures ops != [] ==> ops[|ops| - 1] == CloneOp(pg.mode, src, dst, |ops| - 1, r.Success?)
      ensures r.Success? ==> |ops| == PagesIn(size)
      ensures forall v :: Depth(v) == pg.mode.Depth() && NoHugeOn(old(pg.tree.leaves), v) ==>
                NoHugeOn(pg.tree.leaves, v)
    {
      hide Equivalent, ClearRange, Consistent, NoHugeOn, Step, Accepted, Path;
      ops := [];
      r := Success(());
      SameState();
      StateIsBacked();
      var i := 0;
      while i < PagesIn(size)
        invariant 0 <= i <= PagesIn(size) && |ops| == i && r.Success?
        invariant Valid()
        invariant Runnable(old(State()), ops) && Equivalent(Run(old(State()), ops), State())
        invariant forall k :: 0 <= k < i ==> ops[k] == CloneOp(pg.mode, src, dst, k, true)
        invariant ClearRange(pg.tree.leaves, pg.mode, src, size) && ClearRange(pg.tree.leaves, pg.mode, dst, size)
        invariant forall v :: Depth(v) == pg.mode.Depth() && NoHugeOn(old(pg.tree.leaves), v) ==>
                    NoHugeOn(pg.tree.leaves, v)
      {
        PageInRange(pg.tree.leaves, pg.mode, src, size, i);
        PageInRange(pg.tree.leaves, pg.mode, dst, size, i);
        ghost var leaves, before := pg.tree.leaves, State();
        StateIsBacked();
        r := ClonePage(src + i * PAGE_SIZE, dst + i * PAGE_SIZE);
        StaysClear(leaves, pg.tree.leaves, pg.mode, src, size);
        StaysClear(leaves, pg.tree.leaves, pg.mode, dst, size);
        ghost var op := CloneOp(pg.mode, src, dst, i, r.Success?);
        RunFurther(old(State()), ops, before, op, State());
        ops := ops + [op];
        if r.Failure? {
          return;
        }
        i := i + 1;
      }
    }

    /** A store by the running program, as the processor carries it out: it goes through only if the
        entry says writable, and it never hits a table. */
    method ProgramStore(va: Address, i: Index, w: Word) returns (ok: bool)
      requires Valid() && NoHugeOn(pg.tree.leaves, PageOf(va)) && Accepted(pg.mode, va)
      modifies pg`mem
      ensures Valid()
      ensures ok <==> PageOf(va) in old(State()).pages && old(State()).pages[PageOf(va)].flags.writable
      ensures Backed(old(State())) && State() == Step(old(State()), Store(PageOf(va), i, w))
      ensures forall v :: Depth(v) == pg.mode.Depth() && NoHugeOn(old(pg.tree.leaves), v) ==>
                NoHugeOn(pg.tree.leaves, v)
    {
      hide NoHugeOn, Accepted, Consistent, PagesHoldData, Current;
      StateIsBacked();
      PageFacts(va);
      var flags := pg.GetPageFlags(va);
      var phys := pg.TranslateAddress(va);
      if flags.Failure? || phys.Failure? || !flags.value.writable {
        return false;
      }
      WriteWord(phys.value / PAGE_SIZE, i, w);
      return true;
    }

    /** One word of a frame that holds data. */
    method WriteWord(f: nat, i: Index, w: Word)
      requires Valid() && f < |pg.mem| && HoldsData(pg.pmm.used, pg.tree, f)
      modifies pg`mem
      ensures Valid() && pg.mem == old(pg.mem)[f := old(pg.mem)[f][i := w]]
    {
      OtherFrame(pg.mem, pg.tree, f, pg.mem[f][i := w]);
      pg.mem := pg.mem[f := pg.mem[f][i := w]];
    }
  }
}
