/** Whole runs of the frame allocator, as its clients see them. */
module PmmClients {
  import opened Results
  import opened Sizes
  import opened Bitmap
  import opened E820
  import opened Pmm

  /** What clients can do: ask for frames in one of four ways, and give back frames they hold. */
  datatype Request =
    | AnyFrame
    | ZoneFrame(zone: MemoryZone)
    | LowFrame
    | FramesInRow(count: nat, within: Option<MemoryZone>)
    | GiveBack(frame: nat)
    | GiveBackRow(base: nat, count: nat)

  /** Frames `[base, base + count)`. */
  function Row(base: nat, count: nat): (r: set<nat>)
    ensures forall f: nat :: f in r <==> base <= f < base + count
  {
    if count == 0 then {} else Row(base, count - 1) + {base + count - 1}
  }

  /** The frames of a request that was granted from frame `base` on. */
  function Granted(request: Request, base: nat): set<nat> {
    match request
    case FramesInRow(count, _) => Row(base, count)
    case _ => {base}
  }

  predicate Asks(request: Request) {
    !request.GiveBack? && !request.GiveBackRow?
  }

  /** What clients hold after a request with this answer: the first frame granted, if any. */
  function After(held: set<nat>, request: Request, answer: Option<nat>): set<nat> {
    match request
    case GiveBack(f) => held - {f}
    case GiveBackRow(base, count) => if Row(base, count) <= held then held - Row(base, count) else held
    case _ => if answer.Some? then held + Granted(request, answer.value) else held
  }

  /** What clients hold after a run of requests that began with nothing held. */
  function Ledger(requests: seq<Request>, answers: seq<Option<nat>>): set<nat>
    requires |requests| == |answers|
  {
    if requests == [] then {}
    else
      var n := |requests| - 1;
      After(Ledger(requests[..n], answers[..n]), requests[n], answers[n])
  }

  /** The frames in use are those in use at the beginning and those held, and none is both. */
  ghost predicate Accounts(start: seq<bool>, used: seq<bool>, held: set<nat>) {
    && |used| == |start|
    && (forall f :: f in held ==> f < |start| && !start[f])
    && (forall f :: 0 <= f < |start| ==> (used[f] <==> start[f] || f in held))
  }

  /** Frames in a row that were not in use at the beginning and are not held. */
  ghost predicate RowFree(start: seq<bool>, held: set<nat>, base: nat, count: nat) {
    base + count <= |start| && forall f: nat :: base <= f < base + count ==> !start[f] && f !in held
  }

  /** What is granted was free, that is, neither in use at the beginning nor held; frames from anywhere are refused
      exactly if there are none such. */
  ghost predicate Answered(start: seq<bool>, held: set<nat>, request: Request, answer: Option<nat>) {
    && (Asks(request) && answer.Some? ==>
          forall f :: f in Granted(request, answer.value) ==> f < |start| && !start[f] && f !in held)
    && (request.AnyFrame? ==> (answer.None? <==> forall f :: 0 <= f < |start| ==> start[f] || f in held))
    && (request.FramesInRow? && request.within.None? && request.count > 0 ==>
          (answer.None? <==> forall base: nat :: !RowFree(start, held, base, request.count)))
  }

  ghost predicate Run(start: seq<bool>, requests: seq<Request>, answers: seq<Option<nat>>) {
    && |answers| == |requests|
    && forall n :: 0 <= n < |requests| ==>
         Answered(start, Ledger(requests[..n], answers[..n]), requests[n], answers[n])
  }

  lemma RunGrows(start: seq<bool>, requests: seq<Request>, answers: seq<Option<nat>>, request: Request,
                 answer: Option<nat>)
    requires Run(start, requests, answers) && Answered(start, Ledger(requests, answers), request, answer)
    ensures Run(start, requests + [request], answers + [answer])
    ensures Ledger(requests + [request], answers + [answer]) == After(Ledger(requests, answers), request, answer)
  {
    hide Answered, After;
    var rs, as_ := requests + [request], answers + [answer];
    assert rs[..|requests|] == requests && as_[..|requests|] == answers;
    forall n | 0 <= n < |requests|
      ensures Answered(start, Ledger(rs[..n], as_[..n]), rs[n], as_[n])
    {
      assert rs[..n] == requests[..n] && as_[..n] == answers[..n];
    }
  }

  /** Every frame held is a free frame less. */
  lemma {:induction false} HeldAreCounted(start: seq<bool>, used: seq<bool>, held: set<nat>)
    requires Accounts(start, used, held)
    ensures FreeCount(used) + |held| == FreeCount(start)
    decreases |held|
  {
    hide FreeCount;
    if held == {} {
      assert used == start;
    } else {
      var f :| f in held;
      FreeCountUpdate(used, f, false);
      HeldAreCounted(start, used[f := false], held - {f});
    }
  }

  /** Any sequence of requests. What is granted is held by nobody and was not in use at the beginning; the frames in
      use are always those in use at the beginning and those held; and when everything has been given back the bitmap
      is what it was. Requests to give back frames that are not held are not made. */
  method Serve(pmm: PhysicalMemoryManager, requests: seq<Request>) returns (held: set<nat>, answers: seq<Option<nat>>)
    requires pmm.Valid()
    modifies pmm, pmm.bitmap
    ensures pmm.Valid()
    ensures Run(old(pmm.used), requests, answers) && held == Ledger(requests, answers)
    ensures Accounts(old(pmm.used), pmm.used, held)
    ensures pmm.freeFrames + |held| == old(pmm.freeFrames)
    ensures held == {} ==> pmm.bitmap[..] == old(pmm.bitmap[..])
  {
    hide Answered, After, FreeCount, Represents;
    ghost var start := pmm.used;
    held, answers := {}, [];
    for n := 0 to |requests|
      invariant pmm.Valid() && Accounts(start, pmm.used, held)
      invariant Run(start, requests[..n], answers) && held == Ledger(requests[..n], answers)
    {
      var answer := None;
      if Asks(requests[n]) {
        held, answer := ServeAsk(pmm, requests[n], held, start);
      } else {
        held := ServeGiveBack(pmm, requests[n], held, start);
      }
      RunGrows(start, requests[..n], answers, requests[n], answer);
      assert requests[..n + 1] == requests[..n] + [requests[n]];
      answers := answers + [answer];
    }
    assert requests[..|requests|] == requests;
    HeldAreCounted(start, pmm.used, held);
    if held == {} {
      assert pmm.used == start;
      RepresentedOnce(old(pmm.bitmap[..]), pmm.bitmap[..], start);
    }
  }

  method ServeAsk(pmm: PhysicalMemoryManager, request: Request, held: set<nat>, ghost start: seq<bool>)
    returns (held': set<nat>, answer: Option<nat>)
    requires pmm.Valid() && Accounts(start, pmm.used, held) && Asks(request)
    modifies pmm, pmm.bitmap
    ensures pmm.Valid() && Accounts(start, pmm.used, held')
    ensures Answered(start, held, request, answer) && held' == After(held, request, answer)
  {
    hide FreeCount, Represents, Accounts, Answered;
    FreeCountZero(pmm.used);
    ghost var used := pmm.used;
    var r;
    match request {
      case AnyFrame => r := pmm.AllocFrame();
      case ZoneFrame(zone) => r := pmm.AllocFrameInZone(zone);
      case LowFrame => r := pmm.AllocDma32Frame();
      case FramesInRow(count, zone) => r := pmm.AllocFramesContiguous(count, zone);
    }
    if r.Failure? {
      if request.FramesInRow? && request.count == 1 && request.within.None? {
        AllInUse(used);
      }
      NoneGranted(start, used, held, request);
      return held, None;
    }
    answer := Some(r.value / PAGE_SIZE);
    held' := held + Granted(request, answer.value);
    if request.FramesInRow? && request.count > 1 {
      RowGranted(start, used, held, request, answer.value);
    } else {
      OneGranted(start, used, held, request, answer.value);
    }
  }

  lemma NoneGranted(start: seq<bool>, used: seq<bool>, held: set<nat>, request: Request)
    requires Accounts(start, used, held) && (request.AnyFrame? ==> forall f :: 0 <= f < |used| ==> used[f])
    requires request.FramesInRow? && request.within.None? && request.count > 0 ==>
               forall base: nat :: base + request.count <= |used| ==> !FreeRun(used, base, request.count)
    ensures Answered(start, held, request, None)
  {
    if request.FramesInRow? && request.within.None? && request.count > 0 {
      forall base: nat
        ensures !RowFree(start, held, base, request.count)
      {
        if RowFree(start, held, base, request.count) {
          assert FreeRun(used, base, request.count);
        }
      }
    }
  }

  lemma AllInUse(used: seq<bool>)
    requires forall f :: 0 <= f < |used| ==> used[f]
    ensures forall base: nat :: base + 1 <= |used| ==> !FreeRun(used, base, 1)
  {
    forall base: nat | base + 1 <= |used|
      ensures !FreeRun(used, base, 1)
    {
      assert used[base];
    }
  }

  lemma OneGranted(start: seq<bool>, used: seq<bool>, held: set<nat>, request: Request, f: nat)
    requires Accounts(start, used, held) && Asks(request) && (request.FramesInRow? ==> request.count == 1)
    requires f < |used| && !used[f]
    ensures Answered(start, held, request, Some(f))
    ensures Accounts(start, used[f := true], held + Granted(request, f))
  {
    assert forall g :: g in Granted(request, f) <==> g == f;
    assert RowFree(start, held, f, 1);
  }

  lemma RowGranted(start: seq<bool>, used: seq<bool>, held: set<nat>, request: Request, base: nat)
    requires Accounts(start, used, held) && request.FramesInRow? && FreeRun(used, base, request.count)
    ensures Answered(start, held, request, Some(base))
    ensures Accounts(start, WithRun(used, base, request.count, true), held + Granted(request, base))
  {
    assert RowFree(start, held, base, request.count);
  }

  method ServeGiveBack(pmm: PhysicalMemoryManager, request: Request, held: set<nat>, ghost start: seq<bool>)
    returns (held': set<nat>)
    requires pmm.Valid() && Accounts(start, pmm.used, held) && !Asks(request)
    modifies pmm, pmm.bitmap
    ensures pmm.Valid() && Accounts(start, pmm.used, held')
    ensures Answered(start, held, request, None) && held' == After(held, request, None)
  {
    hide FreeCount, Represents;
    match request {
      case GiveBack(frame) =>
        if frame !in held {
          return held;
        }
        FrameAddress(frame);
        var freed := pmm.FreeFrame(frame * PAGE_SIZE);
        return held - {frame};
      case GiveBackRow(base, count) =>
        if !(Row(base, count) <= held) {
          return held;
        }
        FrameAddress(base);
        RowInUse(start, pmm.used, held, base, count);
        var freed := pmm.FreeFramesContiguous(base * PAGE_SIZE, count);
        return held - Row(base, count);
    }
  }

  lemma RowInUse(start: seq<bool>, used: seq<bool>, held: set<nat>, base: nat, count: nat)
    requires Accounts(start, used, held) && Row(base, count) <= held
    ensures count > 0 ==> RunIs(used, base, count, true)
  {
    if count > 0 {
      assert base + (count - 1) in Row(base, count);
      assert forall f: nat :: base <= f < base + count ==> f in Row(base, count);
    }
  }
}
