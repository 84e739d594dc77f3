/** Copy-on-write sharing as a state machine over 4 KiB pages, and what it is for:
    every page behaves as if it had a private copy of its contents. */
module CowModel {
  import opened Results
  import opened PageEntry
  import opened VirtAddr
  import opened PageTree

  /** Frames with a reference counter; counters are 32-bit. */
  const MAX_FRAMES: nat := 0x10_0000
  const U32_LIMIT: nat := 0x1_0000_0000

  /** The mapped 4 KiB pages, the reference counters and physical memory. */
  datatype Vm = Vm(pages: map<Node, Word>, refs: seq<nat>, mem: seq<Page>)

  // ---- reference counters: frames beyond the table count as zero and are never written ----

  function GetRef(refs: seq<nat>, f: nat): nat {
    if f < |refs| then refs[f] else 0
  }

  function SetRef(refs: seq<nat>, f: nat, n: nat): (r: seq<nat>)
    ensures |r| == |refs|
  {
    if f < |refs| then refs[f := n] else refs
  }

  function IncRef(refs: seq<nat>, f: nat): (r: seq<nat>)
    ensures |r| == |refs|
  {
    SetRef(refs, f, (GetRef(refs, f) + 1) % U32_LIMIT)
  }

  /** Wraps below zero, as the atomic subtraction does. */
  function DecRef(refs: seq<nat>, f: nat): (r: seq<nat>)
    ensures |r| == |refs|
  {
    SetRef(refs, f, if GetRef(refs, f) == 0 then U32_LIMIT - 1 else GetRef(refs, f) - 1)
  }

  // ---- the operations ----

  /** One operation and how it went. Pages are named by their slot; `aligned` says whether the address
      passed in was page-aligned; `mapped` whether the second half of a share succeeded;
      `copy` is the frame the allocator delivered, if it was asked and had one. */
  datatype Op =
    | Mark(page: Node, aligned: bool)
    | Share(src: Node, dst: Node, aligned: bool, mapped: bool)
    | Resolve(page: Node, aligned: bool, copy: Option<nat>)
    | Store(page: Node, index: Index, word: Word)

  function CowEntry(w: Word): Word {
    Word(w.frame, CowFlags(LowFlags(w.flags)))
  }

  function OwnedEntry(frame: FrameNo, w: Word): Word {
    Word(frame, OwnedFlags(LowFlags(w.flags)))
  }

  /** `mark_cow`: counts a reference first, and then fails on an unaligned address. */
  function MarkStep(s: Vm, v: Node, aligned: bool): Vm
    requires v in s.pages
  {
    var s' := s.(refs := IncRef(s.refs, s.pages[v].frame));
    if aligned then s'.(pages := s.pages[v := CowEntry(s.pages[v])]) else s'
  }

  /** `share_page_cow`: marks the source, maps the destination, counts the new reference. */
  function ShareStep(s: Vm, src: Node, dst: Node, aligned: bool, mapped: bool): Vm
    requires src in s.pages
  {
    var w := CowEntry(s.pages[src]);
    if !aligned then s
    else if !mapped then s.(pages := s.pages[src := w])
    else s.(pages := s.pages[src := w][dst := w], refs := IncRef(s.refs, w.frame))
  }

  /** `handle_cow_fault` and `unshare_cow_page`: the sole owner gets the frame back, anyone else a copy. */
  function ResolveStep(s: Vm, v: Node, aligned: bool, copy: Option<nat>): Vm
    requires v in s.pages
    requires copy.Some? ==> copy.value < |s.mem| && copy.value < FRAME_LIMIT && s.pages[v].frame < |s.mem|
  {
    var w := s.pages[v];
    if !w.flags.cow then s
    else if GetRef(s.refs, w.frame) <= 1 then
      var s' := s.(refs := DecRef(s.refs, w.frame));
      if aligned then s'.(pages := s.pages[v := OwnedEntry(w.frame, w)]) else s'
    else if !aligned || copy.None? then s
    else
      s.(pages := s.pages[v := OwnedEntry(copy.value, w)],
         refs := SetRef(DecRef(s.refs, w.frame), copy.value, 1),
         mem := s.mem[copy.value := s.mem[w.frame]])
  }

  /** A store by the program: goes through only if the page is writable. */
  function StoreStep(s: Vm, v: Node, i: Index, w: Word): Vm
    requires v in s.pages
  {
    var f := s.pages[v].frame;
    if s.pages[v].flags.writable && f < |s.mem| then s.(mem := s.mem[f := s.mem[f][i := w]]) else s
  }

  /** The frame for a copy comes from the allocator: it is memory, and no page uses it. */
  ghost predicate Delivered(s: Vm, op: Op) {
    op.Resolve? && op.copy.Some? ==>
      && op.copy.value < |s.mem| && op.copy.value < FRAME_LIMIT
      && forall v :: v in s.pages ==> s.pages[v].frame != op.copy.value
  }

  /** What the copying branch does to the state. */
  ghost function MovedTo(s: Vm, v: Node, g: nat, w: Word): Vm
    requires w.frame < |s.mem| && g < |s.mem| && g < FRAME_LIMIT
  {
    s.(pages := s.pages[v := OwnedEntry(g, w)],
       refs := SetRef(DecRef(s.refs, w.frame), g, 1),
       mem := s.mem[g := s.mem[w.frame]])
  }

  lemma ResolveMoves(s: Vm, v: Node, g: nat)
    requires Backed(s) && v in s.pages && Delivered(s, Resolve(v, true, Some(g)))
    requires s.pages[v].flags.cow && GetRef(s.refs, s.pages[v].frame) > 1
    ensures Step(s, Resolve(v, true, Some(g))) == MovedTo(s, v, g, s.pages[v])
  {
  }

  lemma ResolveGivesUp(s: Vm, v: Node, aligned: bool)
    requires Backed(s) && v in s.pages && GetRef(s.refs, s.pages[v].frame) > 1
    ensures Delivered(s, Resolve(v, aligned, None)) && Step(s, Resolve(v, aligned, None)) == s
  {
  }

  ghost function Step(s: Vm, op: Op): Vm
    requires Backed(s) && Delivered(s, op)
  {
    match op
    case Mark(v, aligned) => if v in s.pages then MarkStep(s, v, aligned) else s
    case Share(src, dst, aligned, mapped) => if src in s.pages then ShareStep(s, src, dst, aligned, mapped) else s
    case Resolve(v, aligned, copy) => if v in s.pages then ResolveStep(s, v, aligned, copy) else s
    case Store(v, i, w) => if v in s.pages then StoreStep(s, v, i, w) else s
  }

  // ---- the invariant ----

  /** Every page is backed by memory. */
  ghost predicate Backed(s: Vm) {
    forall v :: v in s.pages ==> s.pages[v].frame < |s.mem|
  }

  /** The copy-on-write pages on a frame. */
  ghost function CowPages(pages: map<Node, Word>, f: nat): set<Node> {
    set v | v in pages && pages[v].frame == f && pages[v].flags.cow
  }

  /** Every counter covers the copy-on-write pages on its frame. */
  ghost predicate CountedAt(s: Vm, f: nat) {
    |CowPages(s.pages, f)| <= GetRef(s.refs, f)
  }

  ghost predicate Counted(s: Vm) {
    forall f: nat :: CountedAt(s, f)
  }

  /** As many counters as the table has, each a 32-bit number, and every page backed by memory. */
  ghost predicate WellTyped(s: Vm) {
    |s.refs| == MAX_FRAMES && (forall f :: 0 <= f < MAX_FRAMES ==> s.refs[f] < U32_LIMIT) && Backed(s)
  }

  /** Only copy-on-write pages share a frame, and those are not writable. */
  ghost predicate Exclusive(pages: map<Node, Word>) {
    && (forall u, v :: u in pages && v in pages && u != v && pages[u].frame == pages[v].frame ==> pages[u].flags.cow)
    && (forall v :: v in pages && pages[v].flags.cow ==> !pages[v].flags.writable)
  }

  ghost predicate Isolated(s: Vm) {
    WellTyped(s) && Counted(s) && Exclusive(s.pages)
  }

  /** A frame that some page can write is used by no other page. */
  lemma WritableIsAlone(s: Vm, u: Node, v: Node)
    requires Isolated(s) && u in s.pages && v in s.pages
    requires s.pages[u].flags.writable && s.pages[u].frame == s.pages[v].frame
    ensures u == v
  {
  }

  /** When the counter is at most one, a copy-on-write page is alone on its frame:
      the in-place branch of `handle_cow_fault` is safe. */
  lemma SoleOwner(s: Vm, v: Node)
    requires Isolated(s) && v in s.pages && s.pages[v].flags.cow
    requires GetRef(s.refs, s.pages[v].frame) <= 1
    ensures GetRef(s.refs, s.pages[v].frame) == 1
    ensures forall u :: u in s.pages && s.pages[u].frame == s.pages[v].frame ==> u == v
  {
    var f := s.pages[v].frame;
    var owners := CowPages(s.pages, f);
    assert CountedAt(s, f);
    assert v in owners && |owners| <= 1;
    forall u | u in s.pages && s.pages[u].frame == f
      ensures u == v
    {
      if u != v {
        assert u in owners;
        assert {u, v} <= owners;
        SubsetSize({u, v}, owners);
      }
    }
    SubsetSize({v}, owners);
  }

  lemma {:induction false} SubsetSize<T>(a: set<T>, b: set<T>)
    requires a <= b
    ensures |a| <= |b|
    ensures |a| == |b| ==> a == b
  {
    if a != {} {
      var x :| x in a;
      SubsetSize(a - {x}, b - {x});
    } else {
      assert |b| == 0 ==> b == {};
    }
  }

  /** The copy-on-write pages on a frame after one entry changed. */
  lemma CowPagesUpdate(pages: map<Node, Word>, v: Node, w: Word, f: nat)
    ensures CowPages(pages[v := w], f) ==
            if w.flags.cow && w.frame == f then CowPages(pages, f) + {v} else CowPages(pages, f) - {v}
  {
  }

  lemma CowCountUpdate(pages: map<Node, Word>, v: Node, w: Word, f: nat)
    ensures |CowPages(pages[v := w], f)| ==
            |CowPages(pages, f)|
            + (if w.flags.cow && w.frame == f then 1 else 0)
            - (if v in pages && pages[v].flags.cow && pages[v].frame == f then 1 else 0)
  {
    CowPagesUpdate(pages, v, w, f);
    assert v in CowPages(pages, f) <==> v in pages && pages[v].flags.cow && pages[v].frame == f;
  }

  // ---- when an operation keeps the invariant: exactly under these guards ----

  /** A new reference on frame `f` can be counted. */
  predicate Countable(refs: seq<nat>, f: nat) {
    f < |refs| && refs[f] + 1 < U32_LIMIT
  }

  ghost predicate Safe(s: Vm, op: Op) {
    match op
    case Mark(v, aligned) =>
      v in s.pages ==>
        var f := s.pages[v].frame;
        Countable(s.refs, f) || (!aligned && (f >= |s.refs| || CowPages(s.pages, f) == {}))
    case Share(src, dst, aligned, mapped) =>
      src in s.pages && aligned ==>
        var w := s.pages[src];
        if mapped then Countable(s.refs, w.frame) && (w.flags.cow || GetRef(s.refs, w.frame) >= 1 || src == dst)
        else w.flags.cow || GetRef(s.refs, w.frame) >= 1
    case Resolve(v, aligned, _) =>
      v in s.pages && s.pages[v].flags.cow && !aligned ==> GetRef(s.refs, s.pages[v].frame) > 1
    case Store(_, _, _) => true
  }

  /** The only copy-on-write page on the frame of an ordinary page would be that page itself. */
  lemma OrdinaryIsAlone(s: Vm, v: Node)
    requires Exclusive(s.pages) && v in s.pages && !s.pages[v].flags.cow
    ensures CowPages(s.pages, s.pages[v].frame) == {}
  {
  }

  lemma MarkKeepsExclusive(pages: map<Node, Word>, v: Node)
    requires Exclusive(pages) && v in pages
    ensures Exclusive(pages[v := CowEntry(pages[v])])
  {
  }

  lemma MarkCounts(s: Vm, v: Node, aligned: bool, g: nat)
    requires WellTyped(s) && v in s.pages && CountedAt(s, g) && Exclusive(s.pages)
    ensures g != s.pages[v].frame ==> CountedAt(MarkStep(s, v, aligned), g)
    ensures g == s.pages[v].frame ==> (CountedAt(MarkStep(s, v, aligned), g) <==> Safe(s, Mark(v, aligned)))
  {
    CowCountUpdate(s.pages, v, CowEntry(s.pages[v]), g);
    if !s.pages[v].flags.cow {
      OrdinaryIsAlone(s, v);
    }
    assert v in s.pages && s.pages[v].flags.cow ==> v in CowPages(s.pages, s.pages[v].frame);
  }

  lemma MarkIsSafe(s: Vm, v: Node, aligned: bool)
    requires Isolated(s) && v in s.pages
    ensures Isolated(MarkStep(s, v, aligned)) <==> Safe(s, Mark(v, aligned))
  {
    var f, s' := s.pages[v].frame, MarkStep(s, v, aligned);
    MarkKeepsExclusive(s.pages, v);
    assert WellTyped(s');
    forall g: nat
      ensures g != f ==> CountedAt(s', g)
      ensures g == f ==> (CountedAt(s', g) <==> Safe(s, Mark(v, aligned)))
    {
      assert CountedAt(s, g);
      MarkCounts(s, v, aligned, g);
    }
    assert Counted(s') <==> CountedAt(s', f);
  }

  lemma ShareKeepsExclusive(pages: map<Node, Word>, src: Node, dst: Node)
    requires Exclusive(pages) && src in pages
    ensures Exclusive(pages[src := CowEntry(pages[src])])
    ensures Exclusive(pages[src := CowEntry(pages[src])][dst := CowEntry(pages[src])])
  {
    var w := CowEntry(pages[src]);
    var pages' := pages[src := w][dst := w];
    forall u, v | u in pages' && v in pages' && u != v && pages'[u].frame == pages'[v].frame
      ensures pages'[u].flags.cow
    {
    }
  }

  lemma ShareCounts(s: Vm, src: Node, dst: Node, mapped: bool, g: nat)
    requires WellTyped(s) && src in s.pages && CountedAt(s, g) && Exclusive(s.pages)
    ensures var s' := ShareStep(s, src, dst, true, mapped);
            && (g != s.pages[src].frame ==> CountedAt(s', g))
            && (g == s.pages[src].frame ==> (CountedAt(s', g) <==> Safe(s, Share(src, dst, true, mapped))))
  {
    hide Exclusive, CowPages, LowFlags, CowFlags;
    var w := CowEntry(s.pages[src]);
    CowEntryIsCow(s.pages[src]);
    CowCountUpdate(s.pages, src, w, g);
    CowCountUpdate(s.pages[src := w], dst, w, g);
    if s.pages[src].flags.cow {
      CowIsCounted(s.pages, src);
    } else {
      OrdinaryIsAlone(s, src);
    }
    if dst in s.pages && s.pages[dst].flags.cow {
      CowIsCounted(s.pages, dst);
    }
    CowIsCounted(s.pages[src := w], src);
    CowIsCounted(s.pages[src := w][dst := w], src);
  }

  lemma CowEntryIsCow(w: Word)
    ensures CowEntry(w).flags.cow && !CowEntry(w).flags.writable && CowEntry(w).frame == w.frame
  {
  }

  lemma CowIsCounted(pages: map<Node, Word>, v: Node)
    requires v in pages && pages[v].flags.cow
    ensures |CowPages(pages, pages[v].frame)| >= 1
  {
    assert v in CowPages(pages, pages[v].frame);
  }

  lemma ShareIsSafe(s: Vm, src: Node, dst: Node, aligned: bool, mapped: bool)
    requires Isolated(s) && src in s.pages
    ensures Isolated(ShareStep(s, src, dst, aligned, mapped)) <==> Safe(s, Share(src, dst, aligned, mapped))
  {
    if aligned {
      var f, s' := s.pages[src].frame, ShareStep(s, src, dst, aligned, mapped);
      ShareKeepsExclusive(s.pages, src, dst);
      assert WellTyped(s');
      forall g: nat
        ensures g != f ==> CountedAt(s', g)
        ensures g == f ==> (CountedAt(s', g) <==> Safe(s, Share(src, dst, aligned, mapped)))
      {
        assert CountedAt(s, g);
        ShareCounts(s, src, dst, mapped, g);
      }
      assert Counted(s') <==> CountedAt(s', f);
    }
  }

  /** Taking a frame back in place, or moving to a frame that no page uses. */
  lemma OwnKeepsExclusive(pages: map<Node, Word>, v: Node, w: Word)
    requires Exclusive(pages) && v in pages && !w.flags.cow
    requires forall u :: u in pages && u != v ==> pages[u].frame != w.frame
    ensures Exclusive(pages[v := w])
  {
  }

  lemma ResolveCounts(s: Vm, v: Node, copy: Option<nat>, g: nat)
    requires Isolated(s) && v in s.pages && s.pages[v].flags.cow && Delivered(s, Resolve(v, true, copy))
    ensures CountedAt(ResolveStep(s, v, true, copy), g)
  {
    var w := s.pages[v];
    assert CountedAt(s, g) && CountedAt(s, w.frame);
    if GetRef(s.refs, w.frame) <= 1 {
      SoleOwner(s, v);
      CowCountUpdate(s.pages, v, OwnedEntry(w.frame, w), g);
    } else if copy.Some? {
      assert CowPages(s.pages, copy.value) == {};
      CowCountUpdate(s.pages, v, OwnedEntry(copy.value, w), g);
    }
  }

  lemma ResolveIsSafe(s: Vm, v: Node, aligned: bool, copy: Option<nat>)
    requires Isolated(s) && v in s.pages && Delivered(s, Resolve(v, aligned, copy))
    ensures Isolated(ResolveStep(s, v, aligned, copy)) <==> Safe(s, Resolve(v, aligned, copy))
  {
    var w, s' := s.pages[v], ResolveStep(s, v, aligned, copy);
    if w.flags.cow && aligned {
      forall g: nat
        ensures CountedAt(s', g)
      {
        ResolveCounts(s, v, copy, g);
      }
      if GetRef(s.refs, w.frame) <= 1 {
        SoleOwner(s, v);
        OwnKeepsExclusive(s.pages, v, OwnedEntry(w.frame, w));
      } else if copy.Some? {
        OwnKeepsExclusive(s.pages, v, OwnedEntry(copy.value, w));
      }
    } else if w.flags.cow && GetRef(s.refs, w.frame) <= 1 {
      SoleOwner(s, v);
      assert v in CowPages(s'.pages, w.frame);
      assert !CountedAt(s', w.frame);
    }
  }

  /** Each operation keeps the invariant exactly under its guard. */
  lemma StepIsSafe(s: Vm, op: Op)
    requires Isolated(s) && Delivered(s, op)
    ensures Isolated(Step(s, op)) <==> Safe(s, op)
  {
    match op
    case Mark(v, aligned) => if v in s.pages { MarkIsSafe(s, v, aligned); }
    case Share(src, dst, aligned, mapped) => if src in s.pages { ShareIsSafe(s, src, dst, aligned, mapped); }
    case Resolve(v, aligned, copy) => if v in s.pages { ResolveIsSafe(s, v, aligned, copy); }
    case Store(v, i, w) =>
      var s' := Step(s, op);
      assert forall f: nat :: CountedAt(s, f) ==> CountedAt(s', f);
  }

  // ---- what sharing is for: every page has its own contents ----

  /** What a program reads through each page. */
  ghost function Contents(s: Vm): map<Node, Page>
    requires Backed(s)
  {
    map v | v in s.pages :: s.mem[s.pages[v].frame]
  }

  /** The same operations on private contents: sharing copies at once, marking and resolving do nothing,
      and a store changes one page. `allowed` says whether the store was let through. */
  ghost function PrivateStep(c: map<Node, Page>, op: Op, allowed: bool): map<Node, Page> {
    match op
    case Mark(_, _) => c
    case Share(src, dst, aligned, mapped) => if src in c && aligned && mapped then c[dst := c[src]] else c
    case Resolve(_, _, _) => c
    case Store(v, i, w) => if v in c && allowed then c[v := c[v][i := w]] else c
  }

  ghost predicate Allowed(s: Vm, op: Op) {
    op.Store? ==> op.page in s.pages && s.pages[op.page].flags.writable
  }

  lemma StoreIsPrivate(s: Vm, v: Node, i: Index, w: Word)
    requires Backed(s) && Exclusive(s.pages) && v in s.pages
    ensures Backed(StoreStep(s, v, i, w))
    ensures Contents(StoreStep(s, v, i, w)) ==
            PrivateStep(Contents(s), Store(v, i, w), s.pages[v].flags.writable)
  {
    if s.pages[v].flags.writable {
      forall u | u in s.pages && u != v
        ensures s.pages[u].frame != s.pages[v].frame
      {
      }
      hide Exclusive;
      StoredPage(s, v, s.mem[s.pages[v].frame][i := w]);
    }
  }

  /** Changing the frame of a page nobody shares it with changes that page. */
  lemma StoredPage(s: Vm, v: Node, page: Page)
    requires Backed(s) && v in s.pages && forall u :: u in s.pages && u != v ==> s.pages[u].frame != s.pages[v].frame
    ensures Contents(s.(mem := s.mem[s.pages[v].frame := page])) == Contents(s)[v := page]
  {
  }

  /** A frame no page uses can be filled without anyone noticing. */
  lemma ResolveIsPrivate(s: Vm, v: Node, aligned: bool, copy: Option<nat>)
    requires Backed(s) && v in s.pages && Delivered(s, Resolve(v, aligned, copy))
    ensures Backed(ResolveStep(s, v, aligned, copy))
    ensures Contents(ResolveStep(s, v, aligned, copy)) == Contents(s)
  {
  }

  lemma ShareIsPrivate(s: Vm, src: Node, dst: Node, aligned: bool, mapped: bool)
    requires Backed(s) && src in s.pages
    ensures Backed(ShareStep(s, src, dst, aligned, mapped))
    ensures Contents(ShareStep(s, src, dst, aligned, mapped)) ==
            PrivateStep(Contents(s), Share(src, dst, aligned, mapped), true)
  {
  }

  /** Sharing frames is invisible: one step. */
  lemma StepIsPrivate(s: Vm, op: Op)
    requires Backed(s) && Exclusive(s.pages) && Delivered(s, op)
    ensures Backed(Step(s, op))
    ensures Contents(Step(s, op)) == PrivateStep(Contents(s), op, Allowed(s, op))
  {
    match op
    case Mark(v, aligned) =>
    case Share(src, dst, aligned, mapped) => if src in s.pages { ShareIsPrivate(s, src, dst, aligned, mapped); }
    case Resolve(v, aligned, copy) => if v in s.pages { ResolveIsPrivate(s, v, aligned, copy); }
    case Store(v, i, w) => if v in s.pages { StoreIsPrivate(s, v, i, w); }
  }

  // ---- whole runs ----

  /** Every operation of the run is delivered what it asked for. */
  ghost predicate Runnable(s: Vm, ops: seq<Op>)
    decreases |ops|
  {
    ops != [] ==> Backed(s) && Delivered(s, ops[0]) && Runnable(Step(s, ops[0]), ops[1..])
  }

  ghost function Run(s: Vm, ops: seq<Op>): Vm
    requires Runnable(s, ops)
    decreases |ops|
  {
    if ops == [] then s else Run(Step(s, ops[0]), ops[1..])
  }

  /** Every operation of the run keeps to its guard. */
  ghost predicate SafeRun(s: Vm, ops: seq<Op>)
    requires Runnable(s, ops)
    decreases |ops|
  {
    ops != [] ==> Safe(s, ops[0]) && SafeRun(Step(s, ops[0]), ops[1..])
  }

  lemma {:induction false} RunAppend(s: Vm, ops: seq<Op>, op: Op)
    requires Runnable(s, ops) && Backed(Run(s, ops)) && Delivered(Run(s, ops), op)
    ensures Runnable(s, ops + [op]) && Run(s, ops + [op]) == Step(Run(s, ops), op)
    decreases |ops|
  {
    if ops == [] {
      assert ops + [op] == [op];
      assert [op][1..] == [];
    } else {
      assert (ops + [op])[1..] == ops[1..] + [op];
      RunAppend(Step(s, ops[0]), ops[1..], op);
    }
  }

  /** Which stores of the run were let through. */
  ghost function Grants(s: Vm, ops: seq<Op>): (r: seq<bool>)
    requires Runnable(s, ops)
    ensures |r| == |ops|
    decreases |ops|
  {
    if ops == [] then [] else [Allowed(s, ops[0])] + Grants(Step(s, ops[0]), ops[1..])
  }

  ghost function PrivateRun(c: map<Node, Page>, ops: seq<Op>, grants: seq<bool>): map<Node, Page>
    requires |grants| == |ops|
    decreases |ops|
  {
    if ops == [] then c else PrivateRun(PrivateStep(c, ops[0], grants[0]), ops[1..], grants[1..])
  }

  /** Over every safe run the invariant holds at the end, and the program cannot tell shared frames
      from private copies. */
  lemma {:induction false} RunIsPrivate(s: Vm, ops: seq<Op>)
    requires Isolated(s) && Runnable(s, ops) && SafeRun(s, ops)
    ensures Isolated(Run(s, ops))
    ensures Contents(Run(s, ops)) == PrivateRun(Contents(s), ops, Grants(s, ops))
    decreases |ops|
  {
    if ops != [] {
      StepIsSafe(s, ops[0]);
      StepIsPrivate(s, ops[0]);
      RunIsPrivate(Step(s, ops[0]), ops[1..]);
    }
  }

  /** In particular, what is read through a page changes only by stores to it and by sharing onto it. */
  lemma OthersUntouched(s: Vm, ops: seq<Op>, v: Node)
    requires Isolated(s) && Runnable(s, ops) && SafeRun(s, ops) && v in s.pages
    requires forall k :: 0 <= k < |ops| ==>
               (ops[k].Store? ==> ops[k].page != v) && (ops[k].Share? ==> ops[k].dst != v)
    ensures Backed(Run(s, ops)) && v in Contents(Run(s, ops)) && Contents(Run(s, ops))[v] == Contents(s)[v]
  {
    RunIsPrivate(s, ops);
    PrivateUntouched(Contents(s), ops, Grants(s, ops), v);
  }

  lemma {:induction false} PrivateUntouched(c: map<Node, Page>, ops: seq<Op>, grants: seq<bool>, v: Node)
    requires |grants| == |ops| && v in c
    requires forall k :: 0 <= k < |ops| ==>
               (ops[k].Store? ==> ops[k].page != v) && (ops[k].Share? ==> ops[k].dst != v)
    ensures v in PrivateRun(c, ops, grants) && PrivateRun(c, ops, grants)[v] == c[v]
    decreases |ops|
  {
    if ops != [] {
      PrivateUntouched(PrivateStep(c, ops[0], grants[0]), ops[1..], grants[1..], v);
    }
  }

  /** A fault that is resolved leaves the page writable, no longer marked, and reading the same. */
  lemma ResolvedIsWritable(s: Vm, v: Node, copy: Option<nat>)
    requires Isolated(s) && v in s.pages && s.pages[v].flags.cow && Delivered(s, Resolve(v, true, copy))
    requires GetRef(s.refs, s.pages[v].frame) <= 1 || copy.Some?
    ensures var s' := ResolveStep(s, v, true, copy);
            && v in s'.pages && s'.pages[v].flags.writable && !s'.pages[v].flags.cow
            && Backed(s') && Contents(s') == Contents(s)
  {
    ResolveIsPrivate(s, v, true, copy);
  }

  /** Sharing gives the destination the contents of the source. */
  lemma ShareCopies(s: Vm, src: Node, dst: Node)
    requires Backed(s) && src in s.pages
    ensures var s' := ShareStep(s, src, dst, true, true);
            Backed(s') && Contents(s') == Contents(s)[dst := Contents(s)[src]]
  {
    ShareIsPrivate(s, src, dst, true, true);
  }

  /** Why a share needs a counted source: with the counter at zero (as a resolved fault leaves it, and as
      demand paging leaves a fresh page), sharing, writing to the copy and storing through it
      changes what is read through the original. */
  lemma UncountedShareLeaks(s: Vm, src: Node, dst: Node, i: Index, w: Word)
    requires Isolated(s) && src in s.pages && src != dst && !s.pages[src].flags.cow
    requires s.pages[src].frame < MAX_FRAMES && s.refs[s.pages[src].frame] == 0
    ensures !Safe(s, Share(src, dst, true, true))
    ensures var s1 := ShareStep(s, src, dst, true, true);
            && dst in s1.pages && Backed(s1) && s1.pages[dst].flags.cow
            && var s2 := ResolveStep(s1, dst, true, None);
            && dst in s2.pages && Backed(s2) && Contents(s2) == Contents(s1)
            && var s3 := StoreStep(s2, dst, i, w);
            && src in s3.pages && Backed(s3) && Contents(s3)[src] == Contents(s)[src][i := w]
  {
    hide Isolated, Exclusive, WellTyped, Counted, CowFlags, LowFlags, OwnedFlags;
    IsolatedIsBacked(s);
    var s1 := ShareStep(s, src, dst, true, true);
    SharedUncounted(s, src, dst);
    var s2 := ResolveStep(s1, dst, true, None);
    ResolvedInPlace(s1, dst);
    StoreShows(s2, dst, src, i, w);
  }

  lemma IsolatedIsBacked(s: Vm)
    requires Isolated(s)
    ensures Backed(s) && |s.refs| == MAX_FRAMES
  {
  }

  lemma SharedUncounted(s: Vm, src: Node, dst: Node)
    requires Backed(s) && src in s.pages && src != dst
    requires s.pages[src].frame < |s.refs| && s.refs[s.pages[src].frame] == 0
    ensures var s1 := ShareStep(s, src, dst, true, true);
            && Backed(s1) && src in s1.pages && dst in s1.pages && s1.mem == s.mem && s1.pages[dst].flags.cow
            && s1.pages[src].frame == s1.pages[dst].frame == s.pages[src].frame
            && GetRef(s1.refs, s.pages[src].frame) == 1
            && Contents(s1)[src] == Contents(s)[src]
  {
  }

  lemma ResolvedInPlace(s: Vm, v: Node)
    requires Backed(s) && v in s.pages && s.pages[v].flags.cow && GetRef(s.refs, s.pages[v].frame) <= 1
    ensures var s' := ResolveStep(s, v, true, None);
            && Backed(s') && s'.mem == s.mem && Contents(s') == Contents(s)
            && s'.pages == s.pages[v := OwnedEntry(s.pages[v].frame, s.pages[v])]
            && s'.pages[v].flags.writable
  {
  }

  lemma StoreShows(s: Vm, v: Node, u: Node, i: Index, w: Word)
    requires Backed(s) && v in s.pages && u in s.pages && s.pages[u].frame == s.pages[v].frame
               && s.pages[v].flags.writable
    ensures var s' := StoreStep(s, v, i, w);
            Backed(s') && s'.pages == s.pages && Contents(s')[u] == Contents(s)[u][i := w]
  {
  }

  // ---- which bits of an entry change ----

  /** How the entries look after an operation: marking and sharing clear the writable bit of source and destination and
      set the copy-on-write bit, resolving does the opposite; every other low bit is that of the entry before, the high
      ones are clear, and no other entry changes. */
  ghost predicate EntriesAfter(s: Vm, op: Op, pages: map<Node, Word>) {
    match op
    case Mark(v, aligned) =>
      && pages.Keys == s.pages.Keys
      && (forall u :: u in s.pages && (u != v || !aligned) ==> pages[u] == s.pages[u])
      && (aligned && v in s.pages ==>
            pages[v].frame == s.pages[v].frame && SameBits(s.pages[v].flags, pages[v].flags, false, true))
    case Share(src, dst, aligned, mapped) =>
      var shares := aligned && src in s.pages;
      && pages.Keys == s.pages.Keys + (if shares && mapped then {dst} else {})
      && (forall u :: u in s.pages && !(shares && (u == src || (mapped && u == dst))) ==> pages[u] == s.pages[u])
      && (shares ==> pages[src].frame == s.pages[src].frame
                     && SameBits(s.pages[src].flags, pages[src].flags, false, true))
      && (shares && mapped ==> pages[dst] == pages[src])
    case Resolve(v, aligned, copy) =>
      if v in s.pages && s.pages[v].flags.cow && aligned && (copy.Some? || GetRef(s.refs, s.pages[v].frame) <= 1) then
        && pages.Keys == s.pages.Keys
        && (forall u :: u in s.pages && u != v ==> pages[u] == s.pages[u])
        && pages[v].frame == (if GetRef(s.refs, s.pages[v].frame) <= 1 then s.pages[v].frame else copy.value)
        && SameBits(s.pages[v].flags, pages[v].flags, true, false)
      else pages == s.pages
    case Store(_, _, _) => pages == s.pages
  }

  /** The new entries, bit by bit. */
  lemma NewEntryBits(w: Word, frame: FrameNo)
    ensures CowEntry(w).frame == w.frame && SameBits(w.flags, CowEntry(w).flags, false, true)
    ensures OwnedEntry(frame, w).frame == frame && SameBits(w.flags, OwnedEntry(frame, w).flags, true, false)
  {
    hide SameBits;
    CowBits(w.flags);
    OwnedBits(w.flags);
  }

  /** Any state that looks as after the operation has these entries. */
  lemma StepEntries(s: Vm, op: Op, after: Vm)
    requires Backed(s) && Delivered(s, op) && Equivalent(Step(s, op), after)
    ensures EntriesAfter(s, op, after.pages)
  {
    assert after.pages == Step(s, op).pages;
    hide Backed, Delivered, SameBits, CowEntry, OwnedEntry, Equivalent, MarkStep, ShareStep, ResolveStep;
    match op
    case Mark(v, aligned) => if v in s.pages { MarkedEntry(s, v, aligned); }
    case Share(src, dst, aligned, mapped) => if src in s.pages { SharedEntries(s, src, dst, aligned, mapped); }
    case Resolve(v, aligned, copy) => if v in s.pages { ResolvedEntry(s, v, aligned, copy); }
    case Store(v, i, w) =>
  }

  lemma MarkedEntry(s: Vm, v: Node, aligned: bool)
    requires v in s.pages
    ensures EntriesAfter(s, Mark(v, aligned), MarkStep(s, v, aligned).pages)
  {
    hide SameBits, CowEntry;
    NewEntryBits(s.pages[v], 0);
  }

  lemma SharedEntries(s: Vm, src: Node, dst: Node, aligned: bool, mapped: bool)
    requires src in s.pages
    ensures EntriesAfter(s, Share(src, dst, aligned, mapped), ShareStep(s, src, dst, aligned, mapped).pages)
  {
    hide SameBits, CowEntry;
    NewEntryBits(s.pages[src], 0);
  }

  lemma ResolvedEntry(s: Vm, v: Node, aligned: bool, copy: Option<nat>)
    requires Backed(s) && v in s.pages && Delivered(s, Resolve(v, aligned, copy))
    ensures EntriesAfter(s, Resolve(v, aligned, copy), ResolveStep(s, v, aligned, copy).pages)
  {
    hide SameBits, OwnedEntry;
    NewEntryBits(s.pages[v], s.pages[v].frame);
    if copy.Some? {
      NewEntryBits(s.pages[v], copy.value);
    }
  }

  // ---- states that differ only in memory no page shows ----

  ghost predicate Equivalent(a: Vm, b: Vm) {
    && a.pages == b.pages && a.refs == b.refs && |a.mem| == |b.mem|
    && forall v :: v in a.pages && a.pages[v].frame < |a.mem| ==> a.mem[a.pages[v].frame] == b.mem[a.pages[v].frame]
  }

  lemma EquivalentStates(a: Vm, b: Vm)
    requires Equivalent(a, b)
    ensures Isolated(a) <==> Isolated(b)
    ensures Backed(a) <==> Backed(b)
    ensures Backed(a) ==> Contents(a) == Contents(b)
  {
    assert forall f: nat :: CountedAt(a, f) <==> CountedAt(b, f);
  }

  lemma EquivalentSteps(a: Vm, b: Vm, op: Op)
    requires Equivalent(a, b) && Backed(a) && Delivered(a, op)
    ensures Backed(b) && Delivered(b, op) && Equivalent(Step(a, op), Step(b, op))
    ensures Safe(a, op) <==> Safe(b, op)
  {
    match op
    case Mark(v, aligned) => if v in a.pages { EquivalentMarks(a, b, v, aligned); }
    case Share(src, dst, aligned, mapped) => if src in a.pages { EquivalentShares(a, b, src, dst, aligned, mapped); }
    case Resolve(v, aligned, copy) => if v in a.pages { EquivalentResolves(a, b, v, aligned, copy); }
    case Store(v, i, w) => if v in a.pages { EquivalentStores(a, b, v, i, w); }
    hide MarkStep, ShareStep, ResolveStep, StoreStep;
  }

  lemma EquivalentMarks(a: Vm, b: Vm, v: Node, aligned: bool)
    requires Equivalent(a, b) && Backed(a) && v in a.pages
    ensures Equivalent(MarkStep(a, v, aligned), MarkStep(b, v, aligned))
  {
  }

  lemma EquivalentShares(a: Vm, b: Vm, src: Node, dst: Node, aligned: bool, mapped: bool)
    requires Equivalent(a, b) && Backed(a) && src in a.pages
    ensures Equivalent(ShareStep(a, src, dst, aligned, mapped), ShareStep(b, src, dst, aligned, mapped))
  {
  }

  lemma EquivalentResolves(a: Vm, b: Vm, v: Node, aligned: bool, copy: Option<nat>)
    requires Equivalent(a, b) && Backed(a) && v in a.pages && Delivered(a, Resolve(v, aligned, copy))
    ensures Equivalent(ResolveStep(a, v, aligned, copy), ResolveStep(b, v, aligned, copy))
  {
  }

  lemma EquivalentStores(a: Vm, b: Vm, v: Node, i: Index, w: Word)
    requires Equivalent(a, b) && Backed(a) && v in a.pages
    ensures Equivalent(StoreStep(a, v, i, w), StoreStep(b, v, i, w))
  {
  }

  lemma EquivalentRefs(a: Vm, b: Vm, refs: seq<nat>)
    requires Equivalent(a, b)
    ensures Equivalent(a.(refs := refs), b.(refs := refs))
  {
  }

  lemma EquivalentTwice(a: Vm, b: Vm, c: Vm)
    requires Equivalent(a, b) && Equivalent(b, c)
    ensures Equivalent(a, c)
  {
  }

  /** One more page on a frame that is shown already. */
  lemma EquivalentAdd(a: Vm, b: Vm, u: Node, v: Node, w: Word)
    requires Equivalent(a, b) && u in a.pages && a.pages[u].frame == w.frame
    ensures Equivalent(a.(pages := a.pages[v := w]), b.(pages := b.pages[v := w]))
  {
  }

  lemma ShareOutcomes(s: Vm, src: Node, dst: Node, mapped: bool)
    requires Backed(s) && src in s.pages
    ensures var w := CowEntry(s.pages[src]);
            && Step(s, Share(src, dst, false, mapped)) == s
            && Step(s, Share(src, dst, true, false)) == s.(pages := s.pages[src := w])
            && Step(s, Share(src, dst, true, true)) ==
               s.(pages := s.pages[src := w][dst := w], refs := IncRef(s.refs, w.frame))
  {
  }

  /** A run of successful shares from one set of pages onto another copies all of them. */
  ghost predicate IsClone(ops: seq<Op>) {
    && (forall i :: 0 <= i < |ops| ==> ops[i].Share? && ops[i].mapped)
    && (forall i, j :: 0 <= i < j < |ops| ==> ops[i].dst != ops[j].dst)
    && (forall i, j :: 0 <= i < |ops| && 0 <= j < |ops| ==> ops[i].src != ops[j].dst)
  }

  lemma {:induction false} CloneCopiesAll(c: map<Node, Page>, ops: seq<Op>, grants: seq<bool>)
    requires IsClone(ops) && |grants| == |ops|
    ensures var c' := PrivateRun(c, ops, grants);
            && (forall i :: 0 <= i < |ops| && ops[i].aligned && ops[i].src in c ==>
                  ops[i].dst in c' && c'[ops[i].dst] == c[ops[i].src])
            && (forall v :: v in c && (forall i :: 0 <= i < |ops| ==> v != ops[i].dst) ==> v in c' && c'[v] == c[v])
    decreases |ops|
  {
    if ops != [] {
      var c1 := PrivateStep(c, ops[0], grants[0]);
      assert forall i :: 0 <= i < |ops[1..]| ==> ops[1..][i] == ops[i + 1];
      CloneCopiesAll(c1, ops[1..], grants[1..]);
      var c' := PrivateRun(c1, ops[1..], grants[1..]);
      forall i | 0 <= i < |ops| && ops[i].aligned && ops[i].src in c
        ensures ops[i].dst in c' && c'[ops[i].dst] == c[ops[i].src]
      {
        if i > 0 {
          assert ops[i] == ops[1..][i - 1];
        }
      }
    }
  }

  /** Shares alone look like copies whether or not they keep to their guards. */
  lemma {:induction false} SharesArePrivate(s: Vm, ops: seq<Op>)
    requires Backed(s) && Runnable(s, ops) && forall i :: 0 <= i < |ops| ==> ops[i].Share?
    ensures Backed(Run(s, ops)) && Contents(Run(s, ops)) == PrivateRun(Contents(s), ops, Grants(s, ops))
    decreases |ops|
  {
    if ops != [] {
      var op := ops[0];
      if op.src in s.pages {
        ShareIsPrivate(s, op.src, op.dst, op.aligned, op.mapped);
      }
      hide ShareStep, Backed, Contents;
      SharesArePrivate(Step(s, op), ops[1..]);
    }
  }

  /** Every page to be shared is counted or marked, and its counter has room for the whole run. */
  ghost predicate Cloneable(s: Vm, ops: seq<Op>) {
    forall i :: 0 <= i < |ops| && ops[i].Share? && ops[i].aligned && ops[i].src in s.pages ==>
      CloneablePage(s, ops[i].src, |ops|)
  }

  ghost predicate CloneablePage(s: Vm, v: Node, n: nat)
    requires v in s.pages
  {
    var w := s.pages[v];
    w.frame < |s.refs| && s.refs[w.frame] + n < U32_LIMIT && (w.flags.cow || s.refs[w.frame] >= 1)
  }

  /** Then the whole run keeps to its guards, so it keeps the pages isolated. */
  lemma {:induction false} CloneIsSafe(s: Vm, ops: seq<Op>)
    requires Runnable(s, ops) && IsClone(ops) && Cloneable(s, ops)
    ensures SafeRun(s, ops)
    decreases |ops|
  {
    if ops != [] {
      var s', rest := Step(s, ops[0]), ops[1..];
      assert forall i :: 0 <= i < |rest| ==> rest[i] == ops[i + 1];
      assert ops[0].aligned && ops[0].src in s.pages ==> CloneablePage(s, ops[0].src, |ops|);
      forall i | 0 <= i < |rest| && rest[i].aligned && rest[i].src in s'.pages
        ensures CloneablePage(s', rest[i].src, |rest|)
      {
        assert ops[i + 1].src != ops[0].dst;
        assert ops[i + 1].src in s.pages && CloneablePage(s, ops[i + 1].src, |ops|);
        StaysCloneable(s, ops[0], rest[i].src, |ops|);
      }
      CloneIsSafe(s', rest);
    }
  }

  lemma StaysCloneable(s: Vm, op: Op, v: Node, n: nat)
    requires Backed(s) && op.Share? && op.mapped && v != op.dst && v in s.pages && n > 0
    requires CloneablePage(s, v, n)
    requires op.aligned && op.src in s.pages ==> CloneablePage(s, op.src, n)
    ensures v in Step(s, op).pages && CloneablePage(Step(s, op), v, n - 1)
  {
  }
}
