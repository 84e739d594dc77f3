/** Copy-on-write as its users see it: any mix of requests, and the cloning of whole ranges. */
module CowClients {
  import opened Results
  import opened Sizes
  import opened PageEntry
  import opened VirtAddr
  import opened PageTree
  import opened Paging
  import opened CowModel
  import opened Cow

  /** What can be asked of the manager, and the stores of the running program. */
  datatype Request =
    | Marking(va: Address)
    | Sharing(src: Address, dst: Address)
    | Cloning(src: Address, dst: Address, size: nat)
    | Faulting(va: Address)
    | Unsharing(va: Address)
    | Storing(va: Address, index: Index, word: Word)

  /** No huge page is in the way; ranges do not reach the end of the address space; stores go to accepted addresses. */
  ghost predicate Admissible(leaves: map<Node, Word>, mode: Mode, request: Request) {
    match request
    case Marking(va) => NoHugeOn(leaves, Path(mode, va))
    case Sharing(src, dst) => NoHugeOn(leaves, Path(mode, src)) && NoHugeOn(leaves, Path(mode, dst))
    case Cloning(src, dst, size) =>
      && src + size + PAGE_SIZE <= U64_LIMIT && dst + size + PAGE_SIZE <= U64_LIMIT
      && ClearRange(leaves, mode, src, size) && ClearRange(leaves, mode, dst, size)
    case Faulting(va) => NoHugeOn(leaves, Path(mode, va))
    case Unsharing(va) => NoHugeOn(leaves, Path(mode, va))
    case Storing(va, _, _) => NoHugeOn(leaves, Path(mode, va)) && Accepted(mode, va)
  }

  ghost predicate HugeStays(leaves: map<Node, Word>, leaves': map<Node, Word>, mode: Mode) {
    forall v :: Depth(v) == mode.Depth() && NoHugeOn(leaves, v) ==> NoHugeOn(leaves', v)
  }

  lemma StaysAdmissible(leaves: map<Node, Word>, leaves': map<Node, Word>, mode: Mode, request: Request)
    requires Admissible(leaves, mode, request) && HugeStays(leaves, leaves', mode)
    ensures Admissible(leaves', mode, request)
  {
    hide NoHugeOn, Accepted;
    if request.Cloning? {
      StaysClear(leaves, leaves', mode, request.src, request.size);
      StaysClear(leaves, leaves', mode, request.dst, request.size);
    }
  }

  /** The operations of a range clone, in order; only the last may have failed. */
  ghost predicate ClonesRange(mode: Mode, src: Address, dst: Address, size: nat, done: bool, ops: seq<Op>)
    requires src + size + PAGE_SIZE <= U64_LIMIT && dst + size + PAGE_SIZE <= U64_LIMIT
  {
    && |ops| <= PagesIn(size) && (done ==> |ops| == PagesIn(size))
    && forall i :: 0 <= i < |ops| ==>
         && src + i * PAGE_SIZE < U64_LIMIT && dst + i * PAGE_SIZE < U64_LIMIT
         && ops[i] == CloneOp(mode, src, dst, i, done || i < |ops| - 1)
  }

  /** The operations carried out for a request: none if an address is not accepted. */
  ghost predicate Records(mode: Mode, request: Request, done: bool, ops: seq<Op>) {
    match request
    case Marking(va) =>
      ops == if Accepted(mode, va) then [Mark(Path(mode, va), va % PAGE_SIZE == 0)] else []
    case Sharing(src, dst) =>
      ops == if Accepted(mode, src) then [Share(Path(mode, src), Path(mode, dst), src % PAGE_SIZE == 0, done)] else []
    case Cloning(src, dst, size) =>
      && src + size + PAGE_SIZE <= U64_LIMIT && dst + size + PAGE_SIZE <= U64_LIMIT
      && ClonesRange(mode, src, dst, size, done, ops)
    case Faulting(va) => RecordsResolve(mode, va, ops)
    case Unsharing(va) => RecordsResolve(mode, va, ops)
    case Storing(va, i, w) => ops == [Store(Path(mode, va), i, w)]
  }

  ghost predicate RecordsResolve(mode: Mode, va: Address, ops: seq<Op>) {
    if Accepted(mode, va) then
      |ops| == 1 && ops[0].Resolve? && ops[0] == Resolve(Path(mode, va), va % PAGE_SIZE == 0, ops[0].copy)
    else ops == []
  }

  /** The operations of all requests, in order. */
  function Joined(records: seq<seq<Op>>): seq<Op> {
    if records == [] then [] else Joined(records[..|records| - 1]) + records[|records| - 1]
  }

  lemma OneStep(s: Vm, op: Op)
    requires Backed(s) && Delivered(s, op)
    ensures Runnable(s, [op]) && Run(s, [op]) == Step(s, op)
  {
    assert [op][1..] == [];
  }

  /** A run goes on from any state that looks the same. */
  lemma {:induction false} RunOn(s: Vm, done: seq<Op>, before: Vm, ops: seq<Op>, after: Vm)
    requires Runnable(s, done) && Equivalent(Run(s, done), before)
    requires Runnable(before, ops) && Equivalent(Run(before, ops), after)
    ensures Runnable(s, done + ops) && Equivalent(Run(s, done + ops), after)
    decreases |ops|
  {
    if ops == [] {
      assert done + ops == done;
      EquivalentTwice(Run(s, done), before, after);
    } else {
      hide Equivalent, Step, Delivered, Backed;
      RunFurther(s, done, before, ops[0], Step(before, ops[0])) by { StepLooksTheSame(before, ops[0]); }
      assert done + ops == (done + [ops[0]]) + ops[1..];
      RunOn(s, done + [ops[0]], Step(before, ops[0]), ops[1..], after);
    }
  }

  lemma StepLooksTheSame(s: Vm, op: Op)
    requires Backed(s) && Delivered(s, op)
    ensures Equivalent(Step(s, op), Step(s, op))
  {
  }

  /** Resolves a page, on a fault or on demand. */
  method ServeResolve(cow: CowManager, va: Address, onFault: bool) returns (done: bool, ghost ops: seq<Op>)
    requires cow.Valid() && NoHugeOn(cow.pg.tree.leaves, Path(cow.pg.mode, va))
    modifies cow.pg, cow.refcount, cow.pg.pmm, cow.pg.pmm.bitmap
    ensures cow.Valid()
    ensures RecordsResolve(cow.pg.mode, va, ops)
    ensures Runnable(old(cow.State()), ops) && Equivalent(Run(old(cow.State()), ops), cow.State())
    ensures HugeStays(old(cow.pg.tree.leaves), cow.pg.tree.leaves, cow.pg.mode)
  {
    hide Equivalent, Step, NoHugeOn, Accepted, Path, Delivered, Backed, CowManager.Valid;
    ghost var s := cow.State();
    cow.SameState();
    ops := [];
    var r;
    ghost var copy;
    if onFault {
      r, copy := cow.HandleCowFault(va);
    } else {
      r, copy := cow.UnshareCowPage(va);
    }
    done := r.Success?;
    if Accepted(cow.pg.mode, va) {
      ops := [Resolve(Path(cow.pg.mode, va), va % PAGE_SIZE == 0, copy)];
      OneStep(s, ops[0]);
    }
  }

  method ServeMark(cow: CowManager, va: Address) returns (done: bool, ghost ops: seq<Op>)
    requires cow.Valid() && NoHugeOn(cow.pg.tree.leaves, Path(cow.pg.mode, va))
    modifies cow.pg, cow.refcount
    ensures cow.Valid()
    ensures Records(cow.pg.mode, Marking(va), done, ops)
    ensures Runnable(old(cow.State()), ops) && Equivalent(Run(old(cow.State()), ops), cow.State())
    ensures HugeStays(old(cow.pg.tree.leaves), cow.pg.tree.leaves, cow.pg.mode)
  {
    hide Equivalent, Step, NoHugeOn, Accepted, Path, Delivered, Backed, CowManager.Valid;
    ghost var s := cow.State();
    cow.SameState();
    ops := [];
    var r := cow.MarkCow(va);
    done := r.Success?;
    if Accepted(cow.pg.mode, va) {
      ops := [Mark(Path(cow.pg.mode, va), va % PAGE_SIZE == 0)];
      OneStep(s, ops[0]) by { NothingToDeliver(s, ops[0]); }
    }
  }

  method ServeShare(cow: CowManager, src: Address, dst: Address) returns (done: bool, ghost ops: seq<Op>)
    requires cow.Valid()
    requires NoHugeOn(cow.pg.tree.leaves, Path(cow.pg.mode, src))
    requires NoHugeOn(cow.pg.tree.leaves, Path(cow.pg.mode, dst))
    modifies cow.pg, cow.refcount, cow.pg.pmm, cow.pg.pmm.bitmap
    ensures cow.Valid()
    ensures Records(cow.pg.mode, Sharing(src, dst), done, ops)
    ensures Runnable(old(cow.State()), ops) && Equivalent(Run(old(cow.State()), ops), cow.State())
    ensures HugeStays(old(cow.pg.tree.leaves), cow.pg.tree.leaves, cow.pg.mode)
  {
    hide Equivalent, Step, NoHugeOn, Accepted, Path, Delivered, Backed, CowManager.Valid, OutOfFrames;
    ghost var s := cow.State();
    cow.SameState();
    ops := [];
    var r := cow.SharePageCow(src, dst);
    done := r.Success?;
    if Accepted(cow.pg.mode, src) {
      ops := [Share(Path(cow.pg.mode, src), Path(cow.pg.mode, dst), src % PAGE_SIZE == 0, done)];
      OneStep(s, ops[0]) by { NothingToDeliver(s, ops[0]); }
    }
  }

  method ServeStore(cow: CowManager, va: Address, i: Index, w: Word) returns (done: bool, ghost ops: seq<Op>)
    requires cow.Valid() && NoHugeOn(cow.pg.tree.leaves, Path(cow.pg.mode, va)) && Accepted(cow.pg.mode, va)
    modifies cow.pg`mem
    ensures cow.Valid()
    ensures Records(cow.pg.mode, Storing(va, i, w), done, ops)
    ensures Runnable(old(cow.State()), ops) && Equivalent(Run(old(cow.State()), ops), cow.State())
    ensures HugeStays(old(cow.pg.tree.leaves), cow.pg.tree.leaves, cow.pg.mode)
  {
    hide Equivalent, Step, NoHugeOn, Accepted, Path, Delivered, Backed, CowManager.Valid;
    ghost var s := cow.State();
    done := cow.ProgramStore(va, i, w);
    ops := [Store(Path(cow.pg.mode, va), i, w)];
    OneStep(s, ops[0]) by { NothingToDeliver(s, ops[0]); }
    cow.SameState();
  }

  method ServeClone(cow: CowManager, src: Address, dst: Address, size: nat) returns (done: bool, ghost ops: seq<Op>)
    requires cow.Valid() && Admissible(cow.pg.tree.leaves, cow.pg.mode, Cloning(src, dst, size))
    modifies cow.pg, cow.refcount, cow.pg.pmm, cow.pg.pmm.bitmap
    ensures cow.Valid()
    ensures Records(cow.pg.mode, Cloning(src, dst, size), done, ops)
    ensures Runnable(old(cow.State()), ops) && Equivalent(Run(old(cow.State()), ops), cow.State())
    ensures HugeStays(old(cow.pg.tree.leaves), cow.pg.tree.leaves, cow.pg.mode)
  {
    hide Equivalent, Runnable, Run, NoHugeOn, ClearRange, CloneOp, CowManager.Valid;
    var r;
    r, ops := cow.CloneRangeCow(src, dst, size);
    done := r.Success?;
    forall i | 0 <= i < |ops|
      ensures src + i * PAGE_SIZE < U64_LIMIT && dst + i * PAGE_SIZE < U64_LIMIT
    {
      InPages(size, i);
    }
  }

  lemma InPages(size: nat, i: nat)
    requires i < PagesIn(size)
    ensures i * PAGE_SIZE < size + PAGE_SIZE
  {
  }

  /** Carries out one request. */
  method Serve(cow: CowManager, request: Request) returns (done: bool, ghost ops: seq<Op>)
    requires cow.Valid() && Admissible(cow.pg.tree.leaves, cow.pg.mode, request)
    modifies cow.pg, cow.refcount, cow.pg.pmm, cow.pg.pmm.bitmap
    ensures cow.Valid()
    ensures Records(cow.pg.mode, request, done, ops)
    ensures Runnable(old(cow.State()), ops) && Equivalent(Run(old(cow.State()), ops), cow.State())
    ensures HugeStays(old(cow.pg.tree.leaves), cow.pg.tree.leaves, cow.pg.mode)
  {
    hide Equivalent, Runnable, Run, NoHugeOn, Accepted, Path, ClearRange, ClonesRange, RecordsResolve, HugeStays;
    hide CowManager.Valid;
    match request
    case Marking(va) => done, ops := ServeMark(cow, va);
    case Sharing(src, dst) => done, ops := ServeShare(cow, src, dst);
    case Cloning(src, dst, size) => done, ops := ServeClone(cow, src, dst, size);
    case Faulting(va) => done, ops := ServeResolve(cow, va, true);
    case Unsharing(va) => done, ops := ServeResolve(cow, va, false);
    case Storing(va, i, w) => done, ops := ServeStore(cow, va, i, w);
  }

  lemma NothingToDeliver(s: Vm, op: Op)
    requires !op.Resolve?
    ensures Delivered(s, op)
  {
  }

  lemma JoinedOneMore(records: seq<seq<Op>>, ops: seq<Op>)
    ensures Joined(records + [ops]) == Joined(records) + ops
  {
    assert (records + [ops])[..|records|] == records;
  }

  lemma JoinedNothing(s: Vm)
    requires Equivalent(s, s)
    ensures Joined([]) == [] && Runnable(s, []) && Equivalent(Run(s, []), s)
  {
  }

  /** What a run shows, if every operation of it keeps to its guard. */
  lemma ShowsPrivate(s: Vm, ops: seq<Op>, after: Vm)
    requires Isolated(s) && Runnable(s, ops) && SafeRun(s, ops) && Equivalent(Run(s, ops), after)
    ensures Isolated(after) && Contents(after) == PrivateRun(Contents(s), ops, Grants(s, ops))
  {
    RunIsPrivate(s, ops);
    EquivalentStates(Run(s, ops), after);
  }

  /** Any requests, one after the other. If every operation they come down to keeps to its guard, programs read what
      they would read if every page had contents of its own. */
  method ServeAll(cow: CowManager, requests: seq<Request>) returns (done: seq<bool>, ghost records: seq<seq<Op>>)
    requires cow.Valid()
    requires forall k :: 0 <= k < |requests| ==> Admissible(cow.pg.tree.leaves, cow.pg.mode, requests[k])
    modifies cow.pg, cow.refcount, cow.pg.pmm, cow.pg.pmm.bitmap
    ensures cow.Valid() && |done| == |records| == |requests|
    ensures forall k :: 0 <= k < |requests| ==> Records(cow.pg.mode, requests[k], done[k], records[k])
    ensures Runnable(old(cow.State()), Joined(records))
    ensures Equivalent(Run(old(cow.State()), Joined(records)), cow.State())
    ensures Isolated(old(cow.State())) && SafeRun(old(cow.State()), Joined(records)) ==>
              && Isolated(cow.State())
              && Contents(cow.State()) ==
                 PrivateRun(Contents(old(cow.State())), Joined(records), Grants(old(cow.State()), Joined(records)))
  {
    hide Equivalent, Records, HugeStays, Joined, Isolated, Runnable, Run, SafeRun, Admissible, CowManager.Valid;
    ghost var s := cow.State();
    cow.SameState();
    done, records := [], [];
    JoinedNothing(s);
    for n := 0 to |requests|
      invariant cow.Valid() && |done| == |records| == n
      invariant forall k :: 0 <= k < |requests| ==> Admissible(cow.pg.tree.leaves, cow.pg.mode, requests[k])
      invariant forall k :: 0 <= k < n ==> Records(cow.pg.mode, requests[k], done[k], records[k])
      invariant Runnable(s, Joined(records)) && Equivalent(Run(s, Joined(records)), cow.State())
    {
      ghost var leaves, before := cow.pg.tree.leaves, cow.State();
      ghost var ops;
      var ok;
      ok, ops := Serve(cow, requests[n]);
      forall k | 0 <= k < |requests|
        ensures Admissible(cow.pg.tree.leaves, cow.pg.mode, requests[k])
      {
        StaysAdmissible(leaves, cow.pg.tree.leaves, cow.pg.mode, requests[k]);
      }
      RunOn(s, Joined(records), before, ops, cow.State());
      JoinedOneMore(records, ops);
      done, records := done + [ok], records + [ops];
    }
    if Isolated(s) && SafeRun(s, Joined(records)) {
      ShowsPrivate(s, Joined(records), cow.State());
    }
  }

  // ---- cloned ranges ----

  /** Every address of the range is canonical. */
  ghost predicate CanonicalRange(mode: Mode, start: Address, size: nat) {
    forall a: Address :: start <= a < start + PagesIn(size) * PAGE_SIZE ==> Canonical(mode, a)
  }

  /** Two ranges without a common page. */
  predicate PagesApart(src: Address, dst: Address, size: nat) {
    src / PAGE_SIZE + PagesIn(size) <= dst / PAGE_SIZE || dst / PAGE_SIZE + PagesIn(size) <= src / PAGE_SIZE
  }

  lemma PageNumber(start: nat, i: nat)
    ensures (start + i * PAGE_SIZE) / PAGE_SIZE == start / PAGE_SIZE + i
  {
  }

  /** Pages of canonical ranges differ as their numbers do. */
  lemma DifferentPages(mode: Mode, a: Address, b: Address, size: nat, i: nat, j: nat)
    requires CanonicalRange(mode, a, size) && CanonicalRange(mode, b, size) && i < PagesIn(size) && j < PagesIn(size)
    requires a + i * PAGE_SIZE < U64_LIMIT && b + j * PAGE_SIZE < U64_LIMIT
    requires a / PAGE_SIZE + i != b / PAGE_SIZE + j
    ensures Path(mode, a + i * PAGE_SIZE) != Path(mode, b + j * PAGE_SIZE)
  {
    hide Path, Canonical;
    PageNumber(a, i);
    PageNumber(b, j);
    CanonicalSlotIsPage(mode, a + i * PAGE_SIZE, b + j * PAGE_SIZE);
  }

  lemma CloneOfRanges(mode: Mode, src: Address, dst: Address, size: nat, ops: seq<Op>)
    requires src + size + PAGE_SIZE <= U64_LIMIT && dst + size + PAGE_SIZE <= U64_LIMIT
    requires ClonesRange(mode, src, dst, size, true, ops) && src % PAGE_SIZE == 0
    requires CanonicalRange(mode, src, size) && CanonicalRange(mode, dst, size) && PagesApart(src, dst, size)
    ensures IsClone(ops) && forall i :: 0 <= i < |ops| ==> ops[i].aligned
  {
    hide Path, Canonical, CanonicalRange, Accepted;
    forall i | 0 <= i < |ops|
      ensures ops[i].Share? && ops[i].mapped && ops[i].aligned
    {
      InRange(mode, src, size, i);
    }
    forall i, j | 0 <= i < |ops| && 0 <= j < |ops|
      ensures i != j ==> ops[i].dst != ops[j].dst
      ensures ops[i].src != ops[j].dst
    {
      if i != j {
        DifferentPages(mode, dst, dst, size, i, j);
      }
      DifferentPages(mode, src, dst, size, i, j);
    }
  }

  lemma InRange(mode: Mode, start: Address, size: nat, i: nat)
    requires CanonicalRange(mode, start, size) && i < PagesIn(size) && start + i * PAGE_SIZE < U64_LIMIT
    ensures Accepted(mode, start + i * PAGE_SIZE)
  {
    AcceptedIsCanonicalIff(mode, start + i * PAGE_SIZE);
  }

  lemma ContentsOfPages(s: Vm)
    requires Backed(s)
    ensures Contents(s).Keys == s.pages.Keys
  {
  }

  /** After cloning a range onto another that shares no page with it, every page of the copy reads as its original
      did, and no other page reads differently. If the originals are counted and their counters have room, the pages
      are isolated as well, so neither side will see what the other one writes. */
  lemma ClonedRange(before: Vm, after: Vm, mode: Mode, src: Address, dst: Address, size: nat, ops: seq<Op>)
    requires Backed(before) && Runnable(before, ops) && Equivalent(Run(before, ops), after)
    requires src + size + PAGE_SIZE <= U64_LIMIT && dst + size + PAGE_SIZE <= U64_LIMIT
    requires ClonesRange(mode, src, dst, size, true, ops) && src % PAGE_SIZE == 0
    requires CanonicalRange(mode, src, size) && CanonicalRange(mode, dst, size) && PagesApart(src, dst, size)
    ensures Backed(after) && |ops| == PagesIn(size)
    ensures forall i :: 0 <= i < |ops| && ops[i].src in before.pages ==>
              ops[i].dst in after.pages && Contents(after)[ops[i].dst] == Contents(before)[ops[i].src]
    ensures forall v :: v in before.pages && (forall i :: 0 <= i < |ops| ==> v != ops[i].dst) ==>
              v in after.pages && Contents(after)[v] == Contents(before)[v]
    ensures Isolated(before) && Cloneable(before, ops) ==> Isolated(after)
  {
    hide Equivalent, Path, CanonicalRange, Isolated, Cloneable, Runnable, Run, SafeRun, PrivateRun, Contents, Backed;
    ContentsOfPages(before);
    CloneOfRanges(mode, src, dst, size, ops);
    SharesArePrivate(before, ops);
    EquivalentStates(Run(before, ops), after);
    ContentsOfPages(after);
    CloneCopiesAll(Contents(before), ops, Grants(before, ops));
    if Isolated(before) && Cloneable(before, ops) {
      CloneIsSafe(before, ops);
      RunIsPrivate(before, ops);
    }
  }
}
