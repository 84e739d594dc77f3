/** The lock-free bump allocator of early boot: any number of calls, interleaved in any way. */
module EarlyHeap {
  import opened Alignment
  import opened Division
  import opened Sizes

  const EARLY_HEAP_SIZE: nat := 262144
  const MIN_ALIGN: nat := 16

  /** Where a call stands: before its first load, between a load and the next compare-exchange, or returned. A call
      knows the alignment it was asked for and the one it works with. */
  datatype Call =
    | Loading(size: nat, asked: nat, align: nat)
    | Trying(size: nat, asked: nat, align: nat, current: nat)
    | Granted(size: nat, asked: nat, align: nat, start: nat)
    | Denied(size: nat, asked: nat, align: nat)

  datatype State = State(offset: nat, calls: seq<Call>)

  /** The offset starts at zero; no call has been made. */
  const INITIAL := State(0, [])

  /** One atomic step. A relaxed load, and a compare-exchange that fails, may see any value the offset has had;
      a weak compare-exchange may fail for no reason. */
  datatype Step =
    | Begin(size: nat, align: nat)
    | Load(i: nat, seen: nat)
    | CompareExchange(i: nat, spurious: bool, seen: nat)

  function SaturatingAdd(a: nat, b: nat): nat {
    if a + b > U64_MAX then U64_MAX else a + b
  }

  function AtLeast16(align: nat): nat {
    if align >= MIN_ALIGN then align else MIN_ALIGN
  }

  /** The step can be taken: layouts have power-of-two alignments, and loads see what was stored. */
  predicate Enabled(s: State, step: Step) {
    match step
    case Begin(size, align) => IsPow2(align)
    case Load(i, seen) => i < |s.calls| && s.calls[i].Loading? && seen <= s.offset
    case CompareExchange(i, _, seen) => i < |s.calls| && s.calls[i].Trying? && seen <= s.offset
  }

  function Take(s: State, step: Step): State
    requires Enabled(s, step)
    requires forall c :: c in s.calls ==> c.align >= 1
  {
    match step
    case Begin(size, align) => s.(calls := s.calls + [Loading(size, align, AtLeast16(align))])
    case Load(i, seen) => s.(calls := s.calls[i := Trying(s.calls[i].size, s.calls[i].asked, s.calls[i].align, seen)])
    case CompareExchange(i, spurious, seen) =>
      var c := s.calls[i];
      var aligned := RoundUp(c.current, c.align);
      var next := SaturatingAdd(aligned, c.size);
      if next > EARLY_HEAP_SIZE then s.(calls := s.calls[i := Denied(c.size, c.asked, c.align)])
      else if c.current == s.offset && !spurious then
        State(next, s.calls[i := Granted(c.size, c.asked, c.align, aligned)])
      else s.(calls := s.calls[i := Trying(c.size, c.asked, c.align, seen)])
  }

  // ---- what every run keeps ----

  ghost predicate CallOk(s: State, c: Call) {
    && IsPow2(c.asked) && c.align == (if c.asked <= 16 then 16 else c.asked)
    && (c.Trying? ==> c.current <= s.offset)
    && (c.Granted? ==> c.start % c.align == 0 && c.start + c.size <= s.offset)
    && (c.Denied? ==> RoundUp(s.offset, c.align) + c.size > EARLY_HEAP_SIZE)
  }

  ghost predicate Apart(c: Call, d: Call)
    requires c.Granted? && d.Granted?
  {
    c.start + c.size <= d.start || d.start + d.size <= c.start
  }

  /** Granted ranges lie in the used part of the arena, aligned and apart; a denied request does not fit what is
      left. */
  ghost predicate Safe(s: State) {
    && s.offset <= EARLY_HEAP_SIZE
    && (forall i :: 0 <= i < |s.calls| ==> CallOk(s, s.calls[i]))
    && (forall i, j :: 0 <= i < j < |s.calls| && s.calls[i].Granted? && s.calls[j].Granted? ==>
          Apart(s.calls[i], s.calls[j]))
  }

  lemma RoundUpGrows(a: nat, b: nat, align: nat)
    requires align >= 1 && a <= b
    ensures RoundUp(a, align) <= RoundUp(b, align)
  {
    var x, y := a + (align - 1), b + (align - 1);
    QuotientGrows(x, y, align);
    assert x - x % align == align * (x / align) && y - y % align == align * (y / align);
    assert align * (y / align - x / align) >= 0;
  }

  /** The offset only grows, so what did not fit never will. */
  lemma CallStaysOk(s: State, s': State, c: Call)
    requires CallOk(s, c) && s.offset <= s'.offset
    ensures CallOk(s', c)
  {
    RoundUpGrows(s.offset, s'.offset, c.align);
  }

  lemma StepIsSafe(s: State, step: Step)
    requires Safe(s) && Enabled(s, step)
    ensures Safe(Take(s, step)) && s.offset <= Take(s, step).offset
  {
    var s' := Take(s, step);
    match step
    case Begin(size, align) => BeginIsSafe(s, size, align);
    case Load(i, seen) =>
    case CompareExchange(i, spurious, seen) =>
      var c := s.calls[i];
      RoundUpGrows(c.current, s.offset, c.align);
      assert CallOk(s, c) && CallOk(s', s'.calls[i]);
      OthersStayOk(s, s', i);
  }

  lemma BeginIsSafe(s: State, size: nat, align: nat)
    requires Safe(s) && IsPow2(align)
    ensures Safe(Take(s, Begin(size, align)))
  {
  }

  lemma OthersStayOk(s: State, s': State, i: nat)
    requires Safe(s) && i < |s.calls| && s.offset <= s'.offset && |s'.calls| == |s.calls|
    requires forall j :: 0 <= j < |s.calls| && j != i ==> s'.calls[j] == s.calls[j]
    ensures forall j :: 0 <= j < |s.calls| && j != i ==> CallOk(s', s'.calls[j])
  {
    forall j | 0 <= j < |s.calls| && j != i
      ensures CallOk(s', s'.calls[j])
    {
      CallStaysOk(s, s', s.calls[j]);
    }
  }

  // ---- runs ----

  /** The steps can be taken one after the other. */
  ghost predicate Runnable(s: State, steps: seq<Step>)
    requires Safe(s)
    decreases |steps|
  {
    steps != [] ==>
      Enabled(s, steps[0]) && (StepIsSafe(s, steps[0]); Runnable(Take(s, steps[0]), steps[1..]))
  }

  ghost function Run(s: State, steps: seq<Step>): (r: State)
    requires Safe(s) && Runnable(s, steps)
    decreases |steps|
  {
    if steps == [] then s
    else
      StepIsSafe(s, steps[0]);
      Run(Take(s, steps[0]), steps[1..])
  }

  /** The allocator starts out safe, and in every interleaving the ranges handed out are inside the arena, at aligned
      offsets, and pairwise disjoint. */
  lemma {:induction false} EveryRunIsSafe(s: State, steps: seq<Step>)
    requires Safe(s) && Runnable(s, steps)
    ensures Safe(INITIAL) && Safe(Run(s, steps))
    decreases |steps|
  {
    if steps != [] {
      StepIsSafe(s, steps[0]);
      EveryRunIsSafe(Take(s, steps[0]), steps[1..]);
    }
  }

  // ---- progress ----

  /** A compare-exchange that fails, and not for no reason, was overtaken: the offset is past the value seen. */
  lemma OvertakenIffMoved(s: State, i: nat, seen: nat)
    requires Safe(s) && Enabled(s, CompareExchange(i, false, seen))
    ensures var s' := Take(s, CompareExchange(i, false, seen));
            s'.calls[i].Trying? <==>
              s.calls[i].current < s.offset
              && RoundUp(s.calls[i].current, s.calls[i].align) + s.calls[i].size <= EARLY_HEAP_SIZE
  {
    assert CallOk(s, s.calls[i]);
  }

  /** Call `j` was granted between the two states. */
  ghost predicate NewlyGranted(s: State, r: State, j: nat) {
    j < |r.calls| && r.calls[j].Granted? && (j < |s.calls| ==> !s.calls[j].Granted?)
  }

  lemma {:induction false} GrantedStays(s: State, steps: seq<Step>, j: nat)
    requires Safe(s) && Runnable(s, steps) && j < |s.calls| && s.calls[j].Granted?
    ensures var r := Run(s, steps); j < |r.calls| && r.calls[j] == s.calls[j]
    decreases |steps|
  {
    if steps != [] {
      StepIsSafe(s, steps[0]);
      GrantedStays(Take(s, steps[0]), steps[1..], j);
    }
  }

  /** The offset moves only because a call is granted. */
  lemma {:induction false} MovedMeansGranted(s: State, steps: seq<Step>)
    requires Safe(s) && Runnable(s, steps) && Run(s, steps).offset != s.offset
    ensures exists j: nat :: NewlyGranted(s, Run(s, steps), j)
    decreases |steps|
  {
    StepIsSafe(s, steps[0]);
    var s', r := Take(s, steps[0]), Run(s, steps);
    if s'.offset != s.offset {
      GrantedStays(s', steps[1..], steps[0].i);
      assert NewlyGranted(s, r, steps[0].i);
    } else {
      MovedMeansGranted(s', steps[1..]);
      var j: nat :| NewlyGranted(s', r, j);
      assert NewlyGranted(s, r, j);
    }
  }

  /** The allocator as a whole gets on: when a call is turned back, and not for no reason, then since the offset had
      the value that the call saw, another call was granted. */
  lemma FailureMeansProgress(s: State, steps: seq<Step>, i: nat, seen: nat)
    requires Safe(s) && Runnable(s, steps)
    requires var r := Run(s, steps);
             && Safe(r) && Enabled(r, CompareExchange(i, false, seen)) && r.calls[i].current == s.offset
             && Take(r, CompareExchange(i, false, seen)).calls[i].Trying?
    ensures exists j: nat :: j != i && NewlyGranted(s, Run(s, steps), j)
  {
    var r := Run(s, steps);
    OvertakenIffMoved(r, i, seen);
    MovedMeansGranted(s, steps);
    var j: nat :| NewlyGranted(s, r, j);
    assert r.calls[i].Trying? && j != i;
  }

  /** Offsets handed out are aligned as asked, and to 16. */
  lemma GrantedAsAsked(s: State, i: nat)
    requires Safe(s) && i < |s.calls| && s.calls[i].Granted?
    ensures s.calls[i].start % s.calls[i].asked == 0 && s.calls[i].start % 16 == 0
    ensures s.calls[i].start + s.calls[i].size <= 262144
  {
    var c := s.calls[i];
    assert CallOk(s, c);
    assert IsPow2(2) && IsPow2(4) && IsPow2(8) && IsPow2(16);
    Pow2Divides(if c.asked <= 16 then c.asked else 16, c.align);
    if c.asked <= 16 {
      MultipleOf(c.start, 16, c.asked);
    } else {
      MultipleOf(c.start, c.asked, 16);
    }
  }

  /** The arena itself is only aligned to 16: an address is as aligned as asked exactly if the arena is. */
  lemma AddressAsAlignedAsArena(base: nat, c: Call)
    requires c.Granted? && c.align >= 1 && c.start % c.align == 0
    ensures (base + c.start) % c.align == 0 <==> base % c.align == 0
  {
    var q, k := base / c.align, c.start / c.align;
    assert base == c.align * q + base % c.align && c.start == c.align * k;
    assert base + c.start == c.align * (q + k) + base % c.align;
    QuotientIs(base + c.start, c.align, q + k, base % c.align);
  }
}
