/** Whole runs of the kernel heap, as its clients see them. */
module HeapClients {
  import opened Alignment
  import opened Bytes
  import opened Heap
  import opened HeapModel
  import opened HeapSteps

  /** What clients can do: ask for a block, give one back, write a byte of one. */
  datatype Request =
    | Ask(size: nat, align: nat)
    | GiveBack(ptr: nat)
    | Write(ptr: nat, k: nat, value: Byte)

  /** What a client knows of a block it holds: what it asked for and what it last wrote where. */
  datatype Holding = Holding(size: nat, align: nat, written: map<nat, Byte>)

  predicate Aligned(address: nat, align: nat) {
    align >= 1 && address % align == 0
  }

  /** The block held at arena offset `off` is live, as large and aligned as asked, and reads as last written. */
  ghost predicate HoldingOk(base: nat, live: map<nat, Block>, m: seq<Byte>, off: nat, h: Holding) {
    && off in live && live[off].size == h.size && Aligned(base + off, h.align)
    && forall k :: k in h.written ==> k < h.size && off + k < |m| && m[off + k] == h.written[k]
  }

  /** This is so for every block held, and no other block is live. */
  ghost predicate Agrees(base: nat, live: map<nat, Block>, m: seq<Byte>, held: map<nat, Holding>) {
    && (forall off :: off in held ==> HoldingOk(base, live, m, off, held[off]))
    && held.Keys == live.Keys
  }

  lemma NobodyHoldsAnything(base: nat, m: seq<Byte>)
    ensures Agrees(base, map[], m, map[])
  {
  }

  lemma BytesAgree(base: nat, live: map<nat, Block>, live': map<nat, Block>, m: seq<Byte>, m': seq<Byte>,
                   off: nat, h: Holding)
    requires HoldingOk(base, live, m, off, h) && off in live' && live'[off] == live[off]
               && ClientBytesKept(live', m, m')
    ensures HoldingOk(base, live', m', off, h)
  {
    hide Aligned;
    forall k | k in h.written
      ensures m'[off + k] == m[off + k]
    {
      assert off <= off + k < off + live'[off].size;
    }
  }

  lemma GrantAgrees(base: nat, live: map<nat, Block>, m: seq<Byte>, held: map<nat, Holding>,
                    live': map<nat, Block>, m': seq<Byte>, off: nat, size: nat, align: nat)
    requires Agrees(base, live, m, held) && off !in live && off in live'
    requires live' == live[off := live'[off]] && live'[off].size == size
    requires Aligned(base + off, align) && ClientBytesKept(live, m, m')
    ensures Agrees(base, live', m', held[off := Holding(size, align, map[])])
  {
    hide Aligned, ClientBytesKept;
    forall o | o in held
      ensures HoldingOk(base, live', m', o, held[o])
    {
      BytesAgree(base, live, live, m, m', o, held[o]);
      LiveElsewhere(base, live, live', m', o, held[o]);
    }
  }

  lemma LiveElsewhere(base: nat, live: map<nat, Block>, live': map<nat, Block>, m: seq<Byte>, off: nat, h: Holding)
    requires HoldingOk(base, live, m, off, h) && off in live' && live'[off] == live[off]
    ensures HoldingOk(base, live', m, off, h)
  {
  }

  lemma ReturnAgrees(base: nat, live: map<nat, Block>, m: seq<Byte>, held: map<nat, Holding>, m': seq<Byte>, off: nat)
    requires Agrees(base, live, m, held) && off in held && ClientBytesKept(live - {off}, m, m')
    ensures Agrees(base, live - {off}, m', held - {off})
  {
    hide Aligned, ClientBytesKept;
    forall o | o in held - {off}
      ensures HoldingOk(base, live - {off}, m', o, held[o])
    {
      BytesAgree(base, live, live - {off}, m, m', o, held[o]);
    }
  }

  lemma WriteAgrees(b: Books, m: seq<Byte>, base: nat, held: map<nat, Holding>, off: nat, k: nat, value: Byte)
    requires Inv(b, m, NO_PAGE) && Agrees(base, b.live, m, held) && off in held && k < held[off].size
    ensures off + k < |m|
    ensures Agrees(base, b.live, m[off + k := value],
                   held[off := held[off].(written := held[off].written[k := value])])
  {
    hide Inv, Aligned;
    LiveInArena(b, m);
    MemorySize(b, m);
    var m' := m[off + k := value];
    OwnWrite(base, b.live, m, off, held[off], k, value);
    forall o | o in held && o != off
      ensures HoldingOk(base, b.live, m', o, held[o])
    {
      BlocksApart(b, m, NO_PAGE, off, o);
      OthersWrite(base, b.live, m, o, held[o], off + k, value);
    }
  }

  lemma OwnWrite(base: nat, live: map<nat, Block>, m: seq<Byte>, off: nat, h: Holding, k: nat, value: Byte)
    requires HoldingOk(base, live, m, off, h) && k < h.size && off + k < |m|
    ensures HoldingOk(base, live, m[off + k := value], off, h.(written := h.written[k := value]))
  {
    hide Aligned;
  }

  lemma OthersWrite(base: nat, live: map<nat, Block>, m: seq<Byte>, off: nat, h: Holding, at: nat, value: Byte)
    requires HoldingOk(base, live, m, off, h) && at < |m| && (at < off || off + h.size <= at)
    ensures HoldingOk(base, live, m[at := value], off, h)
  {
    hide Aligned;
  }

  lemma MemorySize(b: Books, m: seq<Byte>)
    requires Inv(b, m, NO_PAGE)
    ensures |m| == HEAP_SIZE
  {
  }

  lemma FreedBlock(b: Books, off: nat)
    requires Freeable(b, off)
    ensures Freed(b, off).live == b.live - {off}
  {
  }

  lemma AskedForSomething(b: Books, size: nat, align: nat)
    requires Sized(b) && Satisfiable(b, size, align)
    ensures size >= 1
  {
  }

  /** Blocks that clients hold do not overlap, and lie in the arena. */
  lemma HoldingsApart(b: Books, m: seq<Byte>, base: nat, held: map<nat, Holding>, o: nat, q: nat)
    requires Inv(b, m, NO_PAGE) && Agrees(base, b.live, m, held) && o in held && q in held && o != q
    ensures o + held[o].size <= q || q + held[q].size <= o
    ensures o + held[o].size <= HEAP_SIZE
  {
    hide Inv, Aligned;
    LiveInArena(b, m);
    BlocksApart(b, m, NO_PAGE, o, q);
  }

  /** When clients hold nothing, the heap's tables are those of an empty heap. */
  lemma NothingHeldNothingLost(b: Books, m: seq<Byte>, base: nat)
    requires Inv(b, m, NO_PAGE) && Agrees(base, b.live, m, map[])
    ensures b == EmptyBooks()
  {
    assert b.live.Keys == {};
    NothingLiveMeansEmpty(b, m);
  }

  // ---- runs ----

  /** What clients hold after a request with this answer: a pointer or null for `Ask`, null for the others. */
  function After(base: nat, held: map<nat, Holding>, request: Request, answer: nat): map<nat, Holding> {
    match request
    case Ask(size, align) =>
      if answer < base then held else held[answer - base := Holding(size, AtLeastOne(align), map[])]
    case GiveBack(ptr) => if ptr < base then held else held - {ptr - base}
    case Write(ptr, k, value) =>
      if ptr >= base && ptr - base in held && k < held[ptr - base].size then
        var h := held[ptr - base];
        held[ptr - base := h.(written := h.written[k := value])]
      else held
  }

  /** What clients hold after a run of requests that began with nothing held. */
  function Ledger(base: nat, requests: seq<Request>, answers: seq<nat>): map<nat, Holding>
    requires |requests| == |answers|
  {
    if requests == [] then map[]
    else
      var n := |requests| - 1;
      After(base, Ledger(base, requests[..n], answers[..n]), requests[n], answers[n])
  }

  /** The answer and the new tables are right: null exactly when the request is no layout or there is nothing to grant
      it from, else an aligned block that nobody held; what is given back is freed; nothing else changes a table. */
  ghost predicate Answered(base: nat, b: Books, b': Books, request: Request, answer: nat) {
    && Sized(b)
    && match request
       case Ask(size, align) =>
         && (answer == 0 <==> !(IsLayout(size, AtLeastOne(align)) && Satisfiable(b, size, AtLeastOne(align))))
         && if answer == 0 then b' == b
            else
              && answer >= base && Aligned(answer, AtLeastOne(align)) && answer - base !in b.live
              && Allocated(b, b', size, AtLeastOne(align), answer - base)
       case GiveBack(ptr) =>
         if ptr >= base && ptr - base in b.live then Freeable(b, ptr - base) && b' == Freed(b, ptr - base) else b' == b
       case Write(_, _, _) => b' == b
  }

  /** One entry per request, each right, from the tables of an empty heap on. */
  ghost predicate Run(base: nat, requests: seq<Request>, answers: seq<nat>, books: seq<Books>) {
    && |answers| == |requests| && |books| == |requests| + 1 && books[0] == EmptyBooks()
    && forall n :: 0 <= n < |requests| ==> Answered(base, books[n], books[n + 1], requests[n], answers[n])
  }

  lemma RunGrows(base: nat, requests: seq<Request>, answers: seq<nat>, books: seq<Books>,
                 request: Request, answer: nat, b': Books)
    requires Run(base, requests, answers, books)
    requires Answered(base, books[|requests|], b', request, answer)
    ensures Run(base, requests + [request], answers + [answer], books + [b'])
    ensures Ledger(base, requests + [request], answers + [answer]) ==
            After(base, Ledger(base, requests, answers), request, answer)
  {
    hide Answered, EmptyBooks, After;
    var rs, as_ := requests + [request], answers + [answer];
    assert rs[..|requests|] == requests && as_[..|requests|] == answers;
  }

  /** Any sequence of requests, on an empty heap. Every one is answered rightly; what clients hold is what they were
      granted and have not given back; every client reads in its blocks what it last wrote there; and if nobody holds a
      block the heap is empty again.
      Requests for blocks nobody holds, or beyond the end of a block, are not made. */
  method Serve(heap: KernelHeap, requests: seq<Request>)
    returns (held: map<nat, Holding>, answers: seq<nat>, ghost books: seq<Books>)
    requires heap.Valid() && heap.ready && heap.live == map[]
    modifies heap, heap.bitmap, heap.kind, heap.head, heap.slabs, heap.mem
    ensures heap.Valid() && Agrees(heap.base, heap.live, heap.mem[..], held)
    ensures Run(heap.base, requests, answers, books) && books[|requests|] == heap.Image()
    ensures held == Ledger(heap.base, requests, answers)
    ensures held == map[] ==> heap.Image() == EmptyBooks()
  {
    hide Inv, Agrees, HoldingOk, EmptyBooks, Answered, After;
    held, answers, books := map[], [], [heap.Image()];
    NobodyHoldsAnything(heap.base, heap.mem[..]);
    NothingHeldNothingLost(heap.Image(), heap.mem[..], heap.base);
    for n := 0 to |requests|
      invariant heap.Valid() && heap.ready && Agrees(heap.base, heap.live, heap.mem[..], held)
      invariant Run(heap.base, requests[..n], answers, books) && books[n] == heap.Image()
      invariant held == Ledger(heap.base, requests[..n], answers)
    {
      var answer := 0;
      match requests[n] {
        case Ask(size, align) => held, answer := ServeAsk(heap, size, align, held);
        case GiveBack(ptr) => held := ServeGiveBack(heap, ptr, held);
        case Write(ptr, k, value) => held := ServeWrite(heap, ptr, k, value, held);
      }
      RunGrows(heap.base, requests[..n], answers, books, requests[n], answer, heap.Image());
      assert requests[..n + 1] == requests[..n] + [requests[n]];
      answers, books := answers + [answer], books + [heap.Image()];
    }
    assert requests[..|requests|] == requests;
    if held == map[] {
      NothingHeldNothingLost(heap.Image(), heap.mem[..], heap.base);
    }
  }

  method ServeAsk(heap: KernelHeap, size: nat, align: nat, held: map<nat, Holding>)
    returns (held': map<nat, Holding>, ptr: nat)
    requires heap.Valid() && heap.ready && Agrees(heap.base, heap.live, heap.mem[..], held)
    modifies heap, heap.bitmap, heap.kind, heap.head, heap.slabs, heap.mem
    ensures heap.Valid() && heap.ready && Agrees(heap.base, heap.live, heap.mem[..], held')
    ensures Answered(heap.base, old(heap.Image()), heap.Image(), Ask(size, align), ptr)
    ensures held' == After(heap.base, held, Ask(size, align), ptr)
    ensures ptr != 0 ==> ptr - heap.base !in held
  {
    hide Inv, HoldingOk, Allocated, Satisfiable, ClientBytesKept, IsPow2, IsLayout;
    ghost var b, m := heap.Image(), heap.mem[..];
    SizedBooks(b, m);
    ptr := heap.Alloc(size, align);
    if ptr == 0 {
      return held, 0;
    }
    AskedForSomething(b, size, AtLeastOne(align));
    GrantAddsOneBlock(b, m, heap.Image(), size, AtLeastOne(align), ptr - heap.base);
    GrantAgrees(heap.base, b.live, m, held, heap.live, heap.mem[..], ptr - heap.base, size, AtLeastOne(align));
    held' := held[ptr - heap.base := Holding(size, AtLeastOne(align), map[])];
    assert ptr - heap.base !in held.Keys;
  }

  lemma SizedBooks(b: Books, m: seq<Byte>)
    requires Inv(b, m, NO_PAGE)
    ensures Sized(b)
  {
  }

  method ServeGiveBack(heap: KernelHeap, ptr: nat, held: map<nat, Holding>) returns (held': map<nat, Holding>)
    requires heap.Valid() && heap.ready && Agrees(heap.base, heap.live, heap.mem[..], held)
    modifies heap, heap.bitmap, heap.kind, heap.head, heap.slabs, heap.mem
    ensures heap.Valid() && heap.ready && Agrees(heap.base, heap.live, heap.mem[..], held')
    ensures Answered(heap.base, old(heap.Image()), heap.Image(), GiveBack(ptr), 0)
    ensures held' == After(heap.base, held, GiveBack(ptr), 0)
  {
    hide Inv, HoldingOk, Freed, Freeable, ClientBytesKept;
    SizedBooks(heap.Image(), heap.mem[..]);
    if ptr < heap.base || ptr - heap.base !in held {
      return held;
    }
    ghost var b, m := heap.Image(), heap.mem[..];
    heap.Dealloc(ptr);
    FreedBlock(b, ptr - heap.base);
    ReturnAgrees(heap.base, b.live, m, held, heap.mem[..], ptr - heap.base);
    return held - {ptr - heap.base};
  }

  method ServeWrite(heap: KernelHeap, ptr: nat, k: nat, value: Byte, held: map<nat, Holding>)
    returns (held': map<nat, Holding>)
    requires heap.Valid() && heap.ready && Agrees(heap.base, heap.live, heap.mem[..], held)
    modifies heap, heap.bitmap, heap.kind, heap.head, heap.slabs, heap.mem
    ensures heap.Valid() && heap.ready && Agrees(heap.base, heap.live, heap.mem[..], held')
    ensures Answered(heap.base, old(heap.Image()), heap.Image(), Write(ptr, k, value), 0)
    ensures held' == After(heap.base, held, Write(ptr, k, value), 0)
  {
    hide Inv, HoldingOk;
    SizedBooks(heap.Image(), heap.mem[..]);
    if ptr < heap.base || ptr - heap.base !in held || k >= held[ptr - heap.base].size {
      return held;
    }
    var off := ptr - heap.base;
    HeldIsLive(heap.base, heap.live, heap.mem[..], held, off);
    WriteAgrees(heap.Image(), heap.mem[..], heap.base, held, off, k, value);
    heap.ClientWrite(off, k, value);
    return held[off := held[off].(written := held[off].written[k := value])];
  }

  lemma HeldIsLive(base: nat, live: map<nat, Block>, m: seq<Byte>, held: map<nat, Holding>, off: nat)
    requires Agrees(base, live, m, held) && off in held
    ensures off in live && live[off].size == held[off].size
  {
  }
}
