/** The integer line rasteriser: all octants, in 16-bit arithmetic. */
module Line {
  import opened Bytes
  import opened Division
  import opened GreatestCommonDivisor

  /** What a 16-bit signed variable keeps of a value. */
  function Wrap16(v: int): (w: int)
    ensures -32768 <= w <= 32767
    ensures -32768 <= v <= 32767 ==> w == v
  {
    (v + 32768) % 65536 - 32768
  }

  function Abs(v: int): (a: int)
    ensures a >= 0
  {
    if v < 0 then -v else v
  }

  function Max(a: int, b: int): int {
    if a >= b then a else b
  }

  // ---- the walk in unbounded integers ----

  /** Steps taken so far along x and along y. */
  datatype Walk = Walk(a: int, b: int)

  /** How far the walk is off the line, scaled by the longer side. */
  function Deviation(dx: int, dy: int, w: Walk): int {
    w.b * dx - w.a * dy
  }

  function Error(dx: int, dy: int, w: Walk): int {
    dx - dy + Deviation(dx, dy, w)
  }

  /** One turn of the loop. */
  function Advance(dx: int, dy: int, w: Walk): Walk {
    var e2 := 2 * Error(dx, dy, w);
    Walk(if e2 > -dy then w.a + 1 else w.a, if e2 < dx then w.b + 1 else w.b)
  }

  function After(dx: int, dy: int, n: nat): Walk {
    if n == 0 then Walk(0, 0) else Advance(dx, dy, After(dx, dy, n - 1))
  }

  /** After `n` turns: one step a turn along the longer side, inside the box, within half a pixel of the line.
      Of the two ends of that window one is never met. */
  ghost predicate OnLine(dx: int, dy: int, n: int, w: Walk) {
    && dx >= 0 && dy >= 0
    && (dx >= dy ==> w.a == n) && (dy >= dx ==> w.b == n)
    && 0 <= w.a <= dx && 0 <= w.b <= dy
    && -Max(dx, dy) <= 2 * Deviation(dx, dy, w) <= Max(dx, dy)
    && (dx >= dy && dx > 0 ==> 2 * Deviation(dx, dy, w) < dx)
    && (dy > dx ==> -dy < 2 * Deviation(dx, dy, w))
  }

  lemma AdvanceDeviation(dx: int, dy: int, w: Walk)
    ensures Deviation(dx, dy, Walk(w.a + 1, w.b)) == Deviation(dx, dy, w) - dy
    ensures Deviation(dx, dy, Walk(w.a, w.b + 1)) == Deviation(dx, dy, w) + dx
    ensures Deviation(dx, dy, Walk(w.a + 1, w.b + 1)) == Deviation(dx, dy, w) - dy + dx
  {
  }

  /** A walk within half a pixel of the line does not leave the box on the shorter side. */
  lemma ShortSideInside(long: int, short: int, k: int, s: int)
    requires long > 0 && short >= 0 && k <= long && 2 * (s * long - k * short) <= long
    ensures s <= short
  {
    assert (long - k) * short >= 0;
    var over := s - short;
    assert over * long == s * long - short * long;
    assert 2 * (over * long) <= long;
    assert over >= 1 ==> over * long >= long;
  }

  lemma AdvanceStaysOnLine(dx: int, dy: int, n: nat, w: Walk)
    requires OnLine(dx, dy, n, w) && n < Max(dx, dy)
    ensures OnLine(dx, dy, n + 1, Advance(dx, dy, w))
  {
    if dx == dy {
      assert Deviation(dx, dy, w) == 0;
    } else if dx > dy {
      AdvanceOnLongX(dx, dy, w);
    } else {
      AdvanceOnLongY(dx, dy, w);
    }
  }

  lemma AdvanceOnLongX(dx: int, dy: int, w: Walk)
    requires dx > dy >= 0 && 0 <= w.a < dx && 0 <= w.b && -dx <= 2 * Deviation(dx, dy, w) < dx
    ensures var w' := Advance(dx, dy, w);
            w'.a == w.a + 1 && 0 <= w'.b <= dy && -dx <= 2 * Deviation(dx, dy, w') < dx
  {
    AdvanceDeviation(dx, dy, w);
    var w' := Advance(dx, dy, w);
    assert w'.a == w.a + 1 && -dx <= 2 * Deviation(dx, dy, w') < dx by {
      hide Deviation;
    }
    ShortSideInside(dx, dy, w'.a, w'.b);
  }

  lemma AdvanceOnLongY(dx: int, dy: int, w: Walk)
    requires dy > dx >= 0 && 0 <= w.a && 0 <= w.b < dy && -dy < 2 * Deviation(dx, dy, w) <= dy
    ensures var w' := Advance(dx, dy, w);
            w'.b == w.b + 1 && 0 <= w'.a <= dx && -dy < 2 * Deviation(dx, dy, w') <= dy
  {
    AdvanceDeviation(dx, dy, w);
    var w' := Advance(dx, dy, w);
    assert w'.b == w.b + 1 && -dy < 2 * Deviation(dx, dy, w') <= dy by {
      hide Deviation;
    }
    ShortSideInside(dy, dx, w'.b, w'.a);
  }

  /** The walk stays within half a pixel of the line all the way. */
  lemma {:induction false} WalkFollowsLine(dx: int, dy: int, n: nat)
    requires dx >= 0 && dy >= 0 && n <= Max(dx, dy)
    ensures OnLine(dx, dy, n, After(dx, dy, n))
  {
    if n > 0 {
      WalkFollowsLine(dx, dy, n - 1);
      AdvanceStaysOnLine(dx, dy, n - 1, After(dx, dy, n - 1));
    }
  }

  /** It arrives at the far corner after exactly as many turns as the longer side has steps, and not before. */
  lemma WalkArrives(dx: int, dy: int, n: nat)
    requires dx >= 0 && dy >= 0 && n <= Max(dx, dy)
    ensures After(dx, dy, n) == Walk(dx, dy) <==> n == Max(dx, dy)
  {
    WalkFollowsLine(dx, dy, n);
    var w := After(dx, dy, n);
    if n == Max(dx, dy) {
      if dx >= dy {
        LastStep(dx, dy, w.b);
      } else {
        LastStep(dy, dx, w.a);
      }
    }
  }

  lemma LastStep(long: int, short: int, s: int)
    requires long >= short && 0 <= s <= short && -long <= 2 * (s * long - long * short)
    ensures s == short
  {
    var missing := short - s;
    assert missing * long == short * long - s * long;
    assert missing >= 1 ==> missing * long >= long;
  }

  // ---- which deviations occur ----

  /** The greatest multiple of `g` below half of `long`, for a divisor `g` of `long`. */
  function Peak(long: nat, g: nat): nat
    requires 0 < g <= long
  {
    QuotientPositive(long, g);
    g * ((long / g - 1) / 2)
  }

  lemma QuotientPositive(long: nat, g: nat)
    requires 0 < g <= long
    ensures long / g >= 1
  {
    QuotientGrows(g, long, g);
  }

  /** A multiple of `g` in the lower half of the window is at most the peak; the peak itself is in there. */
  lemma PeakBounds(long: nat, g: nat, c: nat, d: int, k: int)
    requires g > 0 && c > 0 && long == g * c && d == g * k && 2 * d < long
    ensures g <= long && d <= Peak(long, g) && 2 * Peak(long, g) < long
  {
    var half := (c - 1) / 2;
    QuotientIs(long, g, c, 0);
    ProductGrows(g, 0, c);
    assert long / g == c;
    TwiceInside(g, c, k);
    TwiceInside(g, c, half);
    NotBeyond(g, k, half);
  }

  /** Twice a multiple of `g` is below `g * c` exactly if twice the factor is below `c`. */
  lemma TwiceInside(g: nat, c: nat, k: int)
    requires g > 0
    ensures 2 * (g * k) < g * c <==> 2 * k < c
  {
    var gap := c - 2 * k;
    assert g * gap == g * c - 2 * (g * k);
    assert gap > 0 ==> g * gap > 0;
    assert gap <= 0 ==> g * gap <= 0;
  }

  /** Deviations are multiples of the common divisor of the sides. */
  lemma DeviationIsMultiple(long: int, short: int, g: int, c: int, d: int, a: int, b: int)
    requires long == g * c && short == g * d
    ensures b * long - a * short == g * (b * c - a * d)
  {
    assert b * (g * c) == g * (b * c) && a * (g * d) == g * (a * d);
  }

  lemma NotBeyond(g: nat, k: int, half: int)
    requires k <= half
    ensures g * k <= g * half
  {
    assert g * (half - k) >= 0;
  }

  /** A multiple of `long` that is smaller than `long` both ways is zero. */
  lemma SmallMultiple(long: int, m: int)
    requires long > 0 && -long < m * long < long
    ensures m == 0
  {
    assert m >= 1 ==> m * long >= long;
    assert m <= -1 ==> m * long <= -long;
  }

  /** With the longer side along x no deviation exceeds the peak, and one meets it. */
  lemma PeakAlongX(dx: nat, dy: nat) returns (n: nat)
    requires dx >= dy && dx > 0
    ensures Gcd(dx, dy) <= dx && n < dx && Deviation(dx, dy, After(dx, dy, n)) == Peak(dx, Gcd(dx, dy))
    ensures forall i: nat :: i <= dx ==> Deviation(dx, dy, After(dx, dy, i)) <= Peak(dx, Gcd(dx, dy))
  {
    var m;
    n, m := PeakTurn(dx, dy);
    WalkFollowsLine(dx, dy, n);
    MeetsPeak(dx, dy, n, After(dx, dy, n).b, m, Peak(dx, Gcd(dx, dy)));
    forall i: nat | i <= dx
      ensures Deviation(dx, dy, After(dx, dy, i)) <= Peak(dx, Gcd(dx, dy))
    {
      WalkFollowsLine(dx, dy, i);
      BelowPeak(dx, dy, After(dx, dy, i).a, After(dx, dy, i).b);
    }
  }

  /** With the longer side along y the same holds with the sign reversed. */
  lemma PeakAlongY(dx: nat, dy: nat) returns (n: nat)
    requires dy > dx
    ensures Gcd(dy, dx) <= dy && n < dy && -Deviation(dx, dy, After(dx, dy, n)) == Peak(dy, Gcd(dy, dx))
    ensures forall i: nat :: i <= dy ==> -Deviation(dx, dy, After(dx, dy, i)) <= Peak(dy, Gcd(dy, dx))
  {
    var m;
    n, m := PeakTurn(dy, dx);
    WalkFollowsLine(dx, dy, n);
    MeetsPeak(dy, dx, n, After(dx, dy, n).a, m, Peak(dy, Gcd(dy, dx)));
    forall i: nat | i <= dy
      ensures -Deviation(dx, dy, After(dx, dy, i)) <= Peak(dy, Gcd(dy, dx))
    {
      WalkFollowsLine(dx, dy, i);
      BelowPeak(dy, dx, After(dx, dy, i).b, After(dx, dy, i).a);
    }
  }

  /** The turn whose deviation is the peak, up to multiples of the longer side. */
  lemma PeakTurn(long: nat, short: nat) returns (n: nat, m: int)
    requires long > 0
    ensures Gcd(long, short) <= long && n < long && 2 * Peak(long, Gcd(long, short)) < long
    ensures n * short + Peak(long, Gcd(long, short)) == m * long
  {
    var g := Gcd(long, short);
    var c, d := GcdDivides(long, short);
    PositiveFactor(long, g, c);
    PeakBounds(long, g, c, 0, 0);
    n, m := ReachesResidue(long, short, (long / g - 1) / 2);
    assert Peak(long, g) == g * ((long / g - 1) / 2);
    hide Peak, Gcd;
  }

  lemma PositiveFactor(long: nat, g: nat, c: nat)
    requires long > 0 && long == g * c
    ensures c > 0 && g > 0
  {
  }

  /** In the window the deviation of that turn is the peak itself. */
  lemma MeetsPeak(long: int, short: int, n: int, b: int, m: int, peak: int)
    requires n * short + peak == m * long && 0 <= 2 * peak < long
    requires -long <= 2 * (b * long - n * short) < long
    ensures b * long - n * short == peak
  {
    assert b * long - m * long == (b - m) * long;
    SmallMultiple(long, b - m);
  }

  lemma BelowPeak(long: nat, short: nat, a: int, b: int)
    requires long > 0 && 2 * (b * long - a * short) < long
    ensures Gcd(long, short) <= long && b * long - a * short <= Peak(long, Gcd(long, short))
  {
    var g := Gcd(long, short);
    var c, d := GcdDivides(long, short);
    PositiveFactor(long, g, c);
    DeviationIsMultiple(long, short, g, c, d, a, b);
    PeakBounds(long, g, c, b * long - a * short, b * c - a * d);
  }

  // ---- when 16 bits are enough ----

  predicate Is16(v: int) {
    -32768 <= v <= 32767
  }

  /** The doubled error of turn `n` is a 16-bit number. */
  ghost predicate ErrorFits(dx: int, dy: int, n: nat) {
    Is16(2 * Error(dx, dy, After(dx, dy, n)))
  }

  /** What decides it: the sides and their common divisor. */
  predicate FitsIn16(dx: nat, dy: nat) {
    if dx >= dy then
      dx > 0 ==> var g := Gcd(dx, dy); g <= dx && 2 * (dx - dy + Peak(dx, g)) <= 32767
    else
      var g := Gcd(dy, dx); g <= dy && 2 * (dy - dx + Peak(dy, g)) <= 32768
  }

  /** The doubled error stays a 16-bit number through all turns if and only if the sides say so. */
  lemma FitsMeansNoOverflow(dx: nat, dy: nat)
    requires dx <= 32767 && dy <= 32767
    ensures FitsIn16(dx, dy) <==> forall n: nat :: n < Max(dx, dy) ==> ErrorFits(dx, dy, n)
  {
    if dx >= dy && dx > 0 {
      var n := PeakAlongX(dx, dy);
      FitsAlongX(dx, dy, n, Peak(dx, Gcd(dx, dy)));
    } else if dy > dx {
      var n := PeakAlongY(dx, dy);
      FitsAlongY(dx, dy, n, Peak(dy, Gcd(dy, dx)));
    }
  }

  lemma FitsAlongX(dx: nat, dy: nat, n: nat, peak: nat)
    requires 32767 >= dx >= dy && dx > 0 && n < dx && Deviation(dx, dy, After(dx, dy, n)) == peak
    requires forall i: nat :: i <= dx ==> Deviation(dx, dy, After(dx, dy, i)) <= peak
    ensures 2 * (dx - dy + peak) <= 32767 <==> forall i: nat :: i < dx ==> ErrorFits(dx, dy, i)
  {
    hide After, Deviation;
    if 2 * (dx - dy + peak) <= 32767 {
      forall i: nat | i < dx
        ensures ErrorFits(dx, dy, i)
      {
        WalkFollowsLine(dx, dy, i);
      }
    } else {
      assert !ErrorFits(dx, dy, n);
    }
  }

  lemma FitsAlongY(dx: nat, dy: nat, n: nat, peak: nat)
    requires 32767 >= dy > dx && n < dy && -Deviation(dx, dy, After(dx, dy, n)) == peak
    requires forall i: nat :: i <= dy ==> -Deviation(dx, dy, After(dx, dy, i)) <= peak
    ensures 2 * (dy - dx + peak) <= 32768 <==> forall i: nat :: i < dy ==> ErrorFits(dx, dy, i)
  {
    hide After, Deviation;
    if 2 * (dy - dx + peak) <= 32768 {
      forall i: nat | i < dy
        ensures ErrorFits(dx, dy, i)
      {
        WalkFollowsLine(dx, dy, i);
      }
    } else {
      assert !ErrorFits(dx, dy, n);
    }
  }

  /** In particular every line fits that is at most 10923 pixels wide and high; a line 10924 by 1 does not. */
  lemma SmallLinesFit(dx: nat, dy: nat)
    ensures dx <= 10923 && dy <= 10923 ==> FitsIn16(dx, dy)
    ensures !FitsIn16(10924, 1)
  {
    var long, short := if dx >= dy then dx else dy, if dx >= dy then dy else dx;
    if long > 0 {
      var c, d := GcdDivides(long, short);
      PeakBounds(long, Gcd(long, short), c, 0, 0);
    }
    assert Gcd(10924, 1) == 1;
  }

  // ---- pixels ----

  datatype Point = Point(x: int, y: int)

  datatype Colour = Colour(r: Byte, g: Byte, b: Byte)

  function Sign(from: int, to: int): int {
    if from < to then 1 else -1
  }

  /** The `n`th point visited between two end points. */
  function VisitedPoint(p: Point, q: Point, n: nat): Point {
    var w := After(Abs(q.x - p.x), Abs(q.y - p.y), n);
    Point(p.x + Sign(p.x, q.x) * w.a, p.y + Sign(p.y, q.y) * w.b)
  }

  function LongerSide(p: Point, q: Point): (n: nat) {
    Max(Abs(q.x - p.x), Abs(q.y - p.y))
  }

  /** The first `n` points visited. */
  function Visited(p: Point, q: Point, n: nat): (points: seq<Point>)
    ensures |points| == n
  {
    seq(n, i requires 0 <= i < n => VisitedPoint(p, q, i))
  }

  /** The line has one point more than its longer side has steps, runs from end to end, and passes every point once. */
  lemma LineEndToEnd(p: Point, q: Point, n: nat)
    requires n <= LongerSide(p, q)
    ensures VisitedPoint(p, q, n) == q <==> n == LongerSide(p, q)
    ensures VisitedPoint(p, q, 0) == p
  {
    var dx, dy := Abs(q.x - p.x), Abs(q.y - p.y);
    WalkArrives(dx, dy, n);
    WalkFollowsLine(dx, dy, n);
    var w := After(dx, dy, n);
    SignTimes(p.x, q.x, w.a);
    SignTimes(p.y, q.y, w.b);
  }

  lemma SignTimes(from: int, to: int, k: int)
    requires 0 <= k <= Abs(to - from)
    ensures from + Sign(from, to) * k == to <==> k == Abs(to - from)
    ensures (from <= from + Sign(from, to) * k <= to) || (to <= from + Sign(from, to) * k <= from)
  {
  }

  /** Consecutive points are neighbours, and all of them are in the box of the end points. */
  lemma LineIsConnected(p: Point, q: Point, n: nat)
    requires n < LongerSide(p, q)
    ensures var s, t := VisitedPoint(p, q, n), VisitedPoint(p, q, n + 1);
            Max(Abs(t.x - s.x), Abs(t.y - s.y)) == 1
  {
    var dx, dy := Abs(q.x - p.x), Abs(q.y - p.y);
    WalkFollowsLine(dx, dy, n);
    WalkFollowsLine(dx, dy, n + 1);
  }

  /** No visited point is more than half a pixel off the true line, measured along the shorter side. */
  lemma HalfPixel(p: Point, q: Point, n: nat)
    requires n <= LongerSide(p, q)
    ensures var v := VisitedPoint(p, q, n);
            2 * Abs((v.y - p.y) * (q.x - p.x) - (v.x - p.x) * (q.y - p.y)) <= LongerSide(p, q)
  {
    var dx, dy := Abs(q.x - p.x), Abs(q.y - p.y);
    WalkFollowsLine(dx, dy, n);
    var w, v := After(dx, dy, n), VisitedPoint(p, q, n);
    assert 2 * Abs(w.b * dx - w.a * dy) <= LongerSide(p, q);
    OneWayOrTheOther(p.x, q.x, w.a, v.x);
    OneWayOrTheOther(p.y, q.y, w.b, v.y);
    hide After, Sign, VisitedPoint, Deviation, LongerSide;
    Crosswise(w.a, w.b, dx, dy, v.x - p.x, v.y - p.y, q.x - p.x, q.y - p.y);
  }

  /** Steps and side go the same way. */
  lemma OneWayOrTheOther(from: int, to: int, steps: int, at: int)
    requires at == from + Sign(from, to) * steps
    ensures (at - from == steps && to - from == Abs(to - from)) || (at - from == -steps && to - from == -Abs(to - from))
  {
  }

  /** Mirroring changes no distance. */
  lemma Crosswise(a: int, b: int, dx: int, dy: int, x: int, y: int, width: int, height: int)
    requires (x == a && width == dx) || (x == -a && width == -dx)
    requires (y == b && height == dy) || (y == -b && height == -dy)
    ensures Abs(y * width - x * height) == Abs(b * dx - a * dy)
  {
    Negated(b, dx);
    Negated(a, dy);
  }

  lemma Negated(m: int, n: int)
    ensures (-m) * n == -(m * n) && m * (-n) == -(m * n) && (-m) * (-n) == m * n
  {
  }

  // ---- the frame buffer ----

  /** A graphics mode: size in pixels, bytes per line and per pixel. */
  datatype Mode = Mode(width: nat, height: nat, pitch: nat, bpp: nat) {
    ghost predicate Valid() {
      width <= 0xFFFF && height <= 0xFFFF && 3 <= bpp <= 4 && width * bpp <= pitch
    }

    /** Is the point drawn? The sizes are cast to 16 signed bits, so a side of 32768 or more hides everything. */
    predicate OnScreen(p: Point) {
      0 <= p.x < Wrap16(width) && 0 <= p.y < Wrap16(height)
    }

    function Offset(p: Point): int {
      p.y * pitch + p.x * bpp
    }
  }

  lemma OnScreenFits(mode: Mode, p: Point)
    requires mode.Valid() && mode.OnScreen(p)
    ensures 0 <= p.x < mode.width && 0 <= p.y < mode.height
    ensures 0 <= mode.Offset(p) && mode.Offset(p) + mode.bpp <= mode.height * mode.pitch
  {
    ProductGrows(mode.bpp, p.x, mode.width);
    ProductGrows(mode.pitch, p.y, mode.height);
  }

  /** Different pixels share no byte. */
  lemma PixelsApart(mode: Mode, p: Point, q: Point)
    requires mode.Valid() && mode.OnScreen(p) && mode.OnScreen(q) && p != q
    ensures mode.Offset(p) + mode.bpp <= mode.Offset(q) || mode.Offset(q) + mode.bpp <= mode.Offset(p)
  {
    if p.y == q.y {
      if p.x < q.x {
        ProductGrows(mode.bpp, p.x, q.x);
      } else {
        ProductGrows(mode.bpp, q.x, p.x);
      }
    } else if p.y < q.y {
      RowsApart(mode, p, q);
    } else {
      RowsApart(mode, q, p);
    }
  }

  lemma RowsApart(mode: Mode, p: Point, q: Point)
    requires mode.Valid() && mode.OnScreen(p) && mode.OnScreen(q) && p.y < q.y
    ensures mode.Offset(p) + mode.bpp <= mode.Offset(q)
  {
    ProductGrows(mode.pitch, p.y, q.y);
    ProductGrows(mode.bpp, p.x, mode.width);
  }

  /** Byte `i` of a pixel of that colour. */
  function Component(c: Colour, i: nat): Byte {
    match i
    case 0 => c.b
    case 1 => c.g
    case 2 => c.r
    case _ => 0xFF
  }

  /** The buffer with one point drawn, if it is on the screen. */
  function Plotted(mode: Mode, buffer: seq<Byte>, p: Point, c: Colour): (r: seq<Byte>)
    ensures |r| == |buffer|
  {
    if mode.OnScreen(p) then
      seq(|buffer|, k requires 0 <= k < |buffer| => PlottedByte(mode, p, c, k, buffer[k]))
    else buffer
  }

  function PlottedByte(mode: Mode, p: Point, c: Colour, k: nat, before: Byte): Byte {
    var o := mode.Offset(p);
    if o <= k < o + mode.bpp then Component(c, k - o) else before
  }

  function PlottedAll(mode: Mode, buffer: seq<Byte>, points: seq<Point>, c: Colour): (r: seq<Byte>)
    ensures |r| == |buffer|
  {
    if points == [] then buffer
    else Plotted(mode, PlottedAll(mode, buffer, points[..|points| - 1], c), points[|points| - 1], c)
  }

  /** Every point of the list that is on the screen ends up in the colour. */
  lemma {:induction false} PointsAreDrawn(mode: Mode, buffer: seq<Byte>, points: seq<Point>, c: Colour, p: Point,
                                          i: nat)
    requires mode.Valid() && mode.height * mode.pitch <= |buffer| && p in points && mode.OnScreen(p) && i < mode.bpp
    ensures 0 <= mode.Offset(p) + i < |buffer|
    ensures PlottedAll(mode, buffer, points, c)[mode.Offset(p) + i] == Component(c, i)
  {
    OnScreenFits(mode, p);
    var last := points[|points| - 1];
    if p != last {
      PointsAreDrawn(mode, buffer, points[..|points| - 1], c, p, i);
      if mode.OnScreen(last) {
        PixelsApart(mode, p, last);
      }
    }
  }

  /** Where that is and what it looks like: row by row from the top, and from blue to red in every pixel, with an opaque
      fourth byte if there is one. */
  lemma PixelIsDrawn(mode: Mode, buffer: seq<Byte>, points: seq<Point>, c: Colour, p: Point)
    requires mode.Valid() && mode.width < 32768 && mode.height < 32768 && mode.height * mode.pitch <= |buffer|
    requires p in points && 0 <= p.x < mode.width && 0 <= p.y < mode.height
    ensures var at, drawn := p.y * mode.pitch + p.x * mode.bpp, PlottedAll(mode, buffer, points, c);
            && 0 <= at && at + mode.bpp <= |drawn|
            && drawn[at] == c.b && drawn[at + 1] == c.g && drawn[at + 2] == c.r
            && (mode.bpp == 4 ==> drawn[at + 3] == 255)
  {
    hide PlottedAll;
    OnScreenFits(mode, p);
    PointsAreDrawn(mode, buffer, points, c, p, 0);
    PointsAreDrawn(mode, buffer, points, c, p, 1);
    PointsAreDrawn(mode, buffer, points, c, p, 2);
    if mode.bpp == 4 {
      PointsAreDrawn(mode, buffer, points, c, p, 3);
    }
  }

  /** Bytes outside the pixels of the list stay. */
  lemma {:induction false} OthersStay(mode: Mode, buffer: seq<Byte>, points: seq<Point>, c: Colour, k: nat)
    requires k < |buffer|
    requires forall p :: p in points && mode.OnScreen(p) ==> !(mode.Offset(p) <= k < mode.Offset(p) + mode.bpp)
    ensures PlottedAll(mode, buffer, points, c)[k] == buffer[k]
  {
    if points != [] {
      OthersStay(mode, buffer, points[..|points| - 1], c, k);
    }
  }

  /** The point after a turn, between the end points. */
  lemma PointTurn(p: Point, q: Point, n: nat)
    requires n < LongerSide(p, q)
    ensures var e2 := 2 * Error(Abs(q.x - p.x), Abs(q.y - p.y), After(Abs(q.x - p.x), Abs(q.y - p.y), n));
            var v, v' := VisitedPoint(p, q, n), VisitedPoint(p, q, n + 1);
            && v'.x == v.x + (if e2 > -Abs(q.y - p.y) then Sign(p.x, q.x) else 0)
            && v'.y == v.y + (if e2 < Abs(q.x - p.x) then Sign(p.y, q.y) else 0)
  {
    var dx, dy := Abs(q.x - p.x), Abs(q.y - p.y);
    var w, w' := After(dx, dy, n), After(dx, dy, n + 1);
    assert w' == Advance(dx, dy, w);
    hide After, Error;
    AxisTurn(Sign(p.x, q.x), w.a, w'.a);
    AxisTurn(Sign(p.y, q.y), w.b, w'.b);
  }

  lemma AxisTurn(s: int, k: int, k': int)
    ensures s * k' == s * k + s * (k' - k)
  {
  }

  /** Visited points lie between the end points. */
  lemma PointInBox(p: Point, q: Point, n: nat)
    requires n <= LongerSide(p, q)
    ensures var v := VisitedPoint(p, q, n);
            && (p.x <= v.x <= q.x || q.x <= v.x <= p.x) && (p.y <= v.y <= q.y || q.y <= v.y <= p.y)
  {
    var dx, dy := Abs(q.x - p.x), Abs(q.y - p.y);
    WalkFollowsLine(dx, dy, n);
    var w := After(dx, dy, n);
    assert 0 <= w.a <= dx && 0 <= w.b <= dy;
    hide After, OnLine;
    SignTimes(p.x, q.x, w.a);
    SignTimes(p.y, q.y, w.b);
  }

  /** The variables of the loop. */
  datatype Raster = Raster(x: int, y: int, err: int)

  /** One turn of the loop as the code computes it, every variable 16 bits wide. */
  function Turn16(dx: int, dy: int, sx: int, sy: int, s: Raster): Raster {
    var e2 := Wrap16(2 * s.err);
    var err1 := if e2 > -dy then Wrap16(s.err - dy) else s.err;
    Raster(if e2 > -dy then Wrap16(s.x + sx) else s.x, if e2 < dx then Wrap16(s.y + sy) else s.y,
           if e2 < dx then Wrap16(err1 + dx) else err1)
  }

  /** The variables after `n` turns of the loop as coded. */
  function Loop16(dx: int, dy: int, sx: int, sy: int, s: Raster, n: nat): Raster {
    if n == 0 then s else Turn16(dx, dy, sx, sy, Loop16(dx, dy, sx, sy, s, n - 1))
  }

  /** What 16 bits keep of the variables after `n` turns in unbounded integers. */
  function RasterAt(p: Point, q: Point, n: nat): Raster {
    var v := VisitedPoint(p, q, n);
    Raster(v.x, v.y, Wrap16(Error(Abs(q.x - p.x), Abs(q.y - p.y), After(Abs(q.x - p.x), Abs(q.y - p.y), n))))
  }

  /** The variables of the loop between two points, as coded. */
  function LoopAt(p: Point, q: Point, n: nat): Raster {
    Loop16(Abs(q.x - p.x), Abs(q.y - p.y), Sign(p.x, q.x), Sign(p.y, q.y),
           Raster(p.x, p.y, Wrap16(Abs(q.x - p.x) - Abs(q.y - p.y))), n)
  }

  /** Where the loop starts. */
  lemma FirstTurn(p: Point, q: Point)
    ensures RasterAt(p, q, 0) == LoopAt(p, q, 0)
  {
  }

  lemma StartsAt(p: Point, q: Point)
    ensures RasterAt(p, q, 0) == Raster(p.x, p.y, Wrap16(Abs(q.x - p.x) - Abs(q.y - p.y)))
  {
  }

  lemma RasterPoint(p: Point, q: Point, n: nat)
    ensures Point(RasterAt(p, q, n).x, RasterAt(p, q, n).y) == VisitedPoint(p, q, n)
  {
  }

  /** End points in 16 bits whose distances along x and y are 16-bit numbers as well. */
  ghost predicate Representable(p: Point, q: Point) {
    && Is16(p.x) && Is16(p.y) && Is16(q.x) && Is16(q.y)
    && Abs(q.x - p.x) <= 32767 && Abs(q.y - p.y) <= 32767
  }

  /** Truncating on the way is truncating at the end. */
  lemma WrapTwice(e: int, d: int)
    ensures Wrap16(Wrap16(e) + d) == Wrap16(e + d)
    ensures Wrap16(2 * Wrap16(e)) == Wrap16(2 * e)
  {
    var k := (e + 32768) / 65536;
    assert e == Wrap16(e) + 65536 * k;
    WrapShift(Wrap16(e) + d, k);
    WrapShift(2 * Wrap16(e), 2 * k);
  }

  lemma WrapShift(v: int, k: int)
    ensures Wrap16(v + 65536 * k) == Wrap16(v)
  {
    var q, r := (v + 32768) / 65536, (v + 32768) % 65536;
    assert v + 65536 * k + 32768 == 65536 * (q + k) + r;
  }

  /** The error term after a turn. */
  lemma ErrorTurn(dx: int, dy: int, n: nat)
    ensures var e := Error(dx, dy, After(dx, dy, n));
            Error(dx, dy, After(dx, dy, n + 1)) == e - (if 2 * e > -dy then dy else 0) + (if 2 * e < dx then dx else 0)
  {
    var w := After(dx, dy, n);
    AdvanceDeviation(dx, dy, w);
    assert After(dx, dy, n + 1) == Advance(dx, dy, w);
    hide After, Deviation;
  }

  /** The doubled error of turn `n` between two points fits. */
  ghost predicate TurnFits(p: Point, q: Point, n: nat) {
    ErrorFits(Abs(q.x - p.x), Abs(q.y - p.y), n)
  }

  /** While the doubled error fits, a turn as coded is a turn in unbounded integers. */
  lemma TurnIsExact(p: Point, q: Point, n: nat)
    requires Representable(p, q) && n < LongerSide(p, q) && TurnFits(p, q, n)
    ensures Turn16(Abs(q.x - p.x), Abs(q.y - p.y), Sign(p.x, q.x), Sign(p.y, q.y), RasterAt(p, q, n)) ==
              RasterAt(p, q, n + 1)
  {
    hide After, Error, VisitedPoint, Turn16, Wrap16, Sign;
    var dx, dy := Abs(q.x - p.x), Abs(q.y - p.y);
    var v, v' := VisitedPoint(p, q, n), VisitedPoint(p, q, n + 1);
    PointTurn(p, q, n);
    PointInBox(p, q, n + 1);
    ErrorTurn(dx, dy, n);
    TurnInRange(dx, dy, Sign(p.x, q.x), Sign(p.y, q.y), v.x, v.y, Error(dx, dy, After(dx, dy, n)), v'.x, v'.y);
  }

  lemma TurnInRange(dx: int, dy: int, sx: int, sy: int, x: int, y: int, e: int, x': int, y': int)
    requires Is16(2 * e) && Is16(x') && Is16(y')
    requires x' == x + (if 2 * e > -dy then sx else 0) && y' == y + (if 2 * e < dx then sy else 0)
    ensures Turn16(dx, dy, sx, sy, Raster(x, y, Wrap16(e))) ==
            Raster(x', y', Wrap16(e - (if 2 * e > -dy then dy else 0) + (if 2 * e < dx then dx else 0)))
  {
    hide Wrap16;
    WrapTwice(e - dy, dx);
  }

  /** Where it does not fit, the turn as coded steps along the shorter side too early. */
  lemma TurnGoesAstray(p: Point, q: Point, n: nat)
    requires Representable(p, q) && n < LongerSide(p, q) && !TurnFits(p, q, n)
    ensures var s := Turn16(Abs(q.x - p.x), Abs(q.y - p.y), Sign(p.x, q.x), Sign(p.y, q.y), RasterAt(p, q, n));
            Point(s.x, s.y) != VisitedPoint(p, q, n + 1)
  {
    hide After, Deviation, VisitedPoint, Turn16, Wrap16;
    var dx, dy := Abs(q.x - p.x), Abs(q.y - p.y);
    var v, v' := VisitedPoint(p, q, n), VisitedPoint(p, q, n + 1);
    var e := Error(dx, dy, After(dx, dy, n));
    PointTurn(p, q, n);
    PointInBox(p, q, n);
    WalkFollowsLine(dx, dy, n);
    WrongDecision(dx, dy, e);
    TurnOutOfRange(dx, dy, Sign(p.x, q.x), Sign(p.y, q.y), v.x, v.y, e);
  }

  lemma TurnOutOfRange(dx: int, dy: int, sx: int, sy: int, x: int, y: int, e: int)
    requires Is16(x) && Is16(y) && sx in [-1, 1] && sy in [-1, 1]
    ensures var s := Turn16(dx, dy, sx, sy, Raster(x, y, Wrap16(e)));
            && (Wrap16(2 * e) < dx ==> s.y != y) && (Wrap16(2 * e) > -dy ==> s.x != x)
  {
    WrapTwice(e, 0);
    OneStepMoves(x, sx);
    OneStepMoves(y, sy);
    hide Wrap16;
  }

  lemma OneStepMoves(x: int, s: int)
    requires Is16(x) && s in [-1, 1]
    ensures Wrap16(x + s) != x
  {
  }

  /** A doubled error that does not fit is taken for one on the other side. */
  lemma WrongDecision(dx: int, dy: int, e: int)
    requires 0 <= dx <= 32767 && 0 <= dy <= 32767 && !Is16(2 * e)
    requires dx >= dy ==> 2 * (dx - dy) - dx <= 2 * e <= 2 * (dx - dy) + dx
    requires dy > dx ==> 2 * (dx - dy) - dy <= 2 * e <= 2 * (dx - dy) + dy
    ensures dx >= dy ==> 2 * e >= dx && Wrap16(2 * e) < dx
    ensures dy > dx ==> 2 * e <= -dy && Wrap16(2 * e) > -dy
  {
  }

  /** As long as the doubled error fits, the loop as coded passes through the ideal points. */
  lemma {:induction false} ExactSoFar(p: Point, q: Point, n: nat)
    requires Representable(p, q) && n <= LongerSide(p, q)
    requires forall i: nat :: i < n ==> TurnFits(p, q, i)
    ensures LoopAt(p, q, n) == RasterAt(p, q, n)
  {
    hide RasterAt, TurnFits, Turn16, LoopAt;
    FirstTurn(p, q);
    if n > 0 {
      ExactSoFar(p, q, n - 1);
      TurnIsExact(p, q, n - 1);
      LoopStep(p, q, n - 1);
    }
  }

  /** All turns fit if and only if the sides do. */
  lemma AllTurnsFit(p: Point, q: Point)
    requires Representable(p, q)
    ensures FitsIn16(Abs(q.x - p.x), Abs(q.y - p.y)) <==> forall n: nat :: n < LongerSide(p, q) ==> TurnFits(p, q, n)
  {
    hide ErrorFits, FitsIn16;
    var dx, dy := Abs(q.x - p.x), Abs(q.y - p.y);
    FitsMeansNoOverflow(dx, dy);
    if FitsIn16(dx, dy) {
      forall n: nat | n < LongerSide(p, q)
        ensures TurnFits(p, q, n)
      {
        assert ErrorFits(dx, dy, n);
      }
    } else {
      var n: nat :| n < Max(dx, dy) && !ErrorFits(dx, dy, n);
      assert !TurnFits(p, q, n);
    }
  }

  /** The loop as coded visits exactly the ideal points. */
  ghost predicate Exact(p: Point, q: Point) {
    forall n: nat :: n <= LongerSide(p, q) ==> Point(LoopAt(p, q, n).x, LoopAt(p, q, n).y) == VisitedPoint(p, q, n)
  }

  /** The 16-bit loop draws a line exactly if and only if its sides fit. */
  lemma LoopIsExact(p: Point, q: Point)
    requires Representable(p, q)
    ensures Exact(p, q) <==> FitsIn16(Abs(q.x - p.x), Abs(q.y - p.y))
  {
    var dx, dy := Abs(q.x - p.x), Abs(q.y - p.y);
    hide RasterAt, LoopAt, TurnFits, FitsIn16, VisitedPoint;
    AllTurnsFit(p, q);
    if FitsIn16(dx, dy) {
      forall n: nat | n <= LongerSide(p, q)
        ensures Point(LoopAt(p, q, n).x, LoopAt(p, q, n).y) == VisitedPoint(p, q, n)
      {
        ExactSoFar(p, q, n);
        RasterPoint(p, q, n);
      }
    } else {
      var n: nat :| n < LongerSide(p, q) && !TurnFits(p, q, n);
      StraysAfter(p, q, n);
    }
  }

  /** After the first turn whose doubled error does not fit, the loop is off the line. */
  lemma {:induction false} StraysAfter(p: Point, q: Point, n: nat)
    requires Representable(p, q) && n < LongerSide(p, q) && !TurnFits(p, q, n)
    ensures !Exact(p, q)
  {
    hide RasterAt, TurnFits, VisitedPoint, Turn16, Exact;
    if i: nat :| i < n && !TurnFits(p, q, i) {
      StraysAfter(p, q, i);
    } else {
      ExactSoFar(p, q, n);
      TurnGoesAstray(p, q, n);
      LoopStep(p, q, n);
      NotExactAt(p, q, n + 1);
    }
  }

  lemma LoopStep(p: Point, q: Point, n: nat)
    ensures LoopAt(p, q, n + 1) ==
            Turn16(Abs(q.x - p.x), Abs(q.y - p.y), Sign(p.x, q.x), Sign(p.y, q.y), LoopAt(p, q, n))
  {
  }

  lemma NotExactAt(p: Point, q: Point, n: nat)
    requires n <= LongerSide(p, q) && Point(LoopAt(p, q, n).x, LoopAt(p, q, n).y) != VisitedPoint(p, q, n)
    ensures !Exact(p, q)
  {
  }

  class Screen {
    const mode: Mode
    const buffer: array<Byte>

    constructor (mode: Mode, buffer: array<Byte>)
      ensures this.mode == mode && this.buffer == buffer
    {
      this.mode := mode;
      this.buffer := buffer;
    }

    ghost predicate Valid() {
      mode.Valid() && mode.height * mode.pitch <= buffer.Length
    }

    method PutPixel(x: int, y: int, c: Colour)
      requires Valid()
      modifies buffer
      ensures buffer[..] == Plotted(mode, old(buffer[..]), Point(x, y), c)
    {
      if x >= 0 && x < Wrap16(mode.width) && y >= 0 && y < Wrap16(mode.height) {
        OnScreenFits(mode, Point(x, y));
        ghost var before := buffer[..];
        var o := mode.Offset(Point(x, y));
        buffer[o] := c.b;
        buffer[o + 1] := c.g;
        buffer[o + 2] := c.r;
        if mode.bpp == 4 {
          buffer[o + 3] := 0xFF;
        }
        assert buffer[..] == Plotted(mode, before, Point(x, y), c);
      }
    }

    /** Draws the line: exactly the visited points, one more than the longer side has steps. */
    method DrawLine(startX: int, startY: int, x1: int, y1: int, c: Colour)
      requires Valid()
      requires Representable(Point(startX, startY), Point(x1, y1))
      requires FitsIn16(Abs(x1 - startX), Abs(y1 - startY))
      modifies buffer
      ensures var p, q := Point(startX, startY), Point(x1, y1);
              buffer[..] == PlottedAll(mode, old(buffer[..]), Visited(p, q, LongerSide(p, q) + 1), c)
    {
      hide Plotted, PlottedByte, VisitedPoint, RasterAt, Turn16, TurnFits, FitsIn16, Wrap16, After, Error;
      ghost var p, q := Point(startX, startY), Point(x1, y1);
      ghost var longer: nat := LongerSide(p, q);
      AllTurnsFit(p, q);
      StartsAt(p, q);
      var x0, y0 := startX, startY;
      var dx := Wrap16(Abs(Wrap16(x1 - x0)));
      var dy := Wrap16(Abs(Wrap16(y1 - y0)));
      var sx := if x0 < x1 then 1 else -1;
      var sy := if y0 < y1 then 1 else -1;
      var err := Wrap16(dx - dy);
      ghost var n: nat := 0;
      while true
        invariant n <= longer && Raster(x0, y0, err) == RasterAt(p, q, n)
        invariant buffer[..] == PlottedAll(mode, old(buffer[..]), Visited(p, q, n), c)
        decreases longer - n
      {
        RasterPoint(p, q, n);
        PutPixel(x0, y0, c);
        assert Visited(p, q, n + 1)[..n] == Visited(p, q, n);
        LineEndToEnd(p, q, n);
        if x0 == x1 && y0 == y1 {
          break;
        }
        TurnIsExact(p, q, n);
        ghost var before := Raster(x0, y0, err);
        x0, y0, err := Turn(dx, dy, sx, sy, x0, y0, err);
        assert Raster(x0, y0, err) == Turn16(dx, dy, sx, sy, before);
        n := n + 1;
      }
    }

    /** Steps along x, along y, or along both. */
    method Turn(dx: int, dy: int, sx: int, sy: int, x0: int, y0: int, error: int) returns (x: int, y: int, err: int)
      ensures Raster(x, y, err) == Turn16(dx, dy, sx, sy, Raster(x0, y0, error))
    {
      x, y, err := x0, y0, error;
      var e2 := Wrap16(2 * err);
      if e2 > -dy {
        err := Wrap16(err - dy);
        x := Wrap16(x + sx);
      }
      if e2 < dx {
        err := Wrap16(err + dx);
        y := Wrap16(y + sy);
      }
    }
  }
}
