/** Line and circle drawing into the page buffer of the OLED (components/ssd1306/ssd1306.c). */
module Raster {
  import opened Arith
  import opened Bytes

  datatype Point = Point(x: int, y: int)

  function Abs(a: int): nat { if a < 0 then -a else a }

  // ---------------------------------------------------------------- frame buffer

  const PAGES: nat := 8
  const SEGMENTS: nat := 128

  predicate OnScreen(p: Point) {
    0 <= p.x < SEGMENTS && 0 <= p.y < 8 * PAGES
  }

  /** Every pixel no further than m from (x, y) in both directions is on the screen. */
  predicate RoomAround(x: int, y: int, m: nat) {
    OnScreen(Point(x - m, y - m)) && OnScreen(Point(x + m, y + m))
  }

  /** Pixels numbered column by column. */
  function Nth(k: nat): Point { Point(k / (8 * PAGES), k % (8 * PAGES)) }

  function Rank(p: Point): int { 8 * PAGES * p.x + p.y }

  lemma RankNth(k: nat, p: Point)
    requires k < SEGMENTS * 8 * PAGES
    ensures OnScreen(Nth(k)) && (OnScreen(p) ==> (Rank(p) == k <==> p == Nth(k)))
  {
  }

  /** A picture after drawing (or, inverted, erasing) some pixels. */
  function Painted(picture: set<Point>, pixels: set<Point>, invert: bool): set<Point> {
    if invert then picture - pixels else picture + pixels
  }

  lemma PaintedTwice(picture: set<Point>, a: set<Point>, b: set<Point>, invert: bool)
    ensures Painted(Painted(picture, a, invert), b, invert) == Painted(picture, a + b, invert)
  {
  }

  lemma PageOf(page: nat, i: nat)
    requires i < 8
    ensures (8 * page + i) / 8 == page && (8 * page + i) % 8 == i
  {
  }

  /** The pixel buffer of SSD1306_t, with `_flip` off. */
  class Display {
    var segs: array2<Byte>

    ghost predicate Valid()
      reads this
    {
      segs.Length0 == PAGES && segs.Length1 == SEGMENTS
    }

    constructor ()
      ensures Valid() && fresh(segs) && segs.Length0 == 8 && segs.Length1 == 128
      ensures Picture() == {}
    {
      segs := new Byte[PAGES, SEGMENTS]((i, j) => ZERO);
      new;
      PictureMembers();
    }

    predicate Lit(p: Point)
      requires Valid() && OnScreen(p)
      reads this, segs
    {
      segs[p.y / 8, p.x][p.y % 8]
    }

    /** A byte is eight pixels of its page, one below the other, the topmost in bit 0. */
    lemma PageByte(page: nat, segment: nat, i: nat)
      requires Valid() && page < 8 && segment < 128 && i < 8
      ensures OnScreen(Point(segment, 8 * page + i))
      ensures Lit(Point(segment, 8 * page + i)) <==> Value(segs[page, segment]) / Pow2(i) % 2 == 1
    {
      PageOf(page, i);
      BitOfValue(segs[page, segment], i);
    }

    /** The number of pixels. */
    ghost function Size(): nat
      requires Valid()
      reads this
    {
      8 * PAGES * segs.Length1
    }

    /** The pixels that are on. */
    ghost function Picture(): set<Point>
      requires Valid()
      reads this, segs
    {
      LitAmong(Size())
    }

    /** The lit ones among the first n pixels, column by column. */
    ghost function LitAmong(n: nat): set<Point>
      requires Valid() && n <= Size()
      reads this, segs
    {
      if n == 0 then {}
      else
        var p := Nth(n - 1);
        LitAmong(n - 1) + if Lit(p) then {p} else {}
    }

    lemma {:induction false} LitAmongMembers(n: nat, p: Point)
      requires Valid() && n <= Size()
      ensures p in LitAmong(n) <==> OnScreen(p) && Rank(p) < n && Lit(p)
    {
      if n > 0 {
        LitAmongMembers(n - 1, p);
        RankNth(n - 1, p);
      }
    }

    /** Picture is what it says: the lit pixels of the screen. */
    lemma PictureMembers()
      requires Valid()
      ensures forall p :: p in Picture() <==> OnScreen(p) && Lit(p)
    {
      forall p
        ensures p in Picture() <==> OnScreen(p) && Lit(p)
      {
        LitAmongMembers(Size(), p);
      }
    }

    /** Sets or clears one bit of one page. */
    method Plot(xpos: int, ypos: int, invert: bool)
      requires Valid() && OnScreen(Point(xpos, ypos))
      modifies segs
      ensures Picture() == Painted(old(Picture()), {Point(xpos, ypos)}, invert)
    {
      PictureMembers();
      var page, bits := ypos / 8, ypos % 8;
      var wk0 := segs[page, xpos];
      wk0 := wk0[bits := !invert];
      segs[page, xpos] := wk0;
      PictureMembers();
    }

    method Pixel(xpos: int, ypos: int, invert: bool)
      requires Valid() && OnScreen(Point(xpos, ypos))
      modifies segs
      ensures Picture() == Painted(old(Picture()), {Point(xpos, ypos)}, invert)
      ensures forall p | OnScreen(p) :: Lit(p) == if p == Point(xpos, ypos) then !invert else old(Lit(p))
    {
      PictureMembers();
      Plot(xpos, ypos, invert);
      PictureMembers();
    }

    method Line(x1: int, y1: int, x2: int, y2: int, invert: bool)
      requires Valid() && OnScreen(Point(x1, y1)) && OnScreen(Point(x2, y2))
      modifies segs
      ensures Picture() == Painted(old(Picture()), LinePixels(x1, y1, x2, y2), invert)
      ensures forall p | OnScreen(p) :: Lit(p) == if p in LinePixels(x1, y1, x2, y2) then !invert else old(Lit(p))
    {
      PictureMembers();
      var dx := if x2 > x1 then x2 - x1 else x1 - x2;
      var dy := if y2 > y1 then y2 - y1 else y1 - y2;
      var sx := if x2 > x1 then 1 else -1;
      var sy := if y2 > y1 then 1 else -1;
      WalkOnScreen(x1, y1, x2, y2);
      if dx > dy {
        LineAlongX(x1, y1, x2, y2, dx, dy, sx, sy, invert);
      } else {
        LineAlongY(x1, y1, x2, y2, dx, dy, sx, sy, invert);
      }
      PictureMembers();
    }

    /** The loop of a line that is wider than it is high. */
    method LineAlongX(x1: int, y1: int, x2: int, y2: int, dx: int, dy: int, sx: int, sy: int, invert: bool)
      requires Valid() && forall k: nat | k <= Steps(x1, y1, x2, y2) :: OnScreen(WalkPoint(x1, y1, x2, y2, k))
      requires dx == Abs(x2 - x1) && dy == Abs(y2 - y1) && dx > dy
      requires sx == (if x2 > x1 then 1 else -1) && sy == if y2 > y1 then 1 else -1
      modifies segs
      ensures Picture() == Painted(old(Picture()), LinePixels(x1, y1, x2, y2), invert)
    {
      ghost var was := Picture();
      var x, y, E := x1, y1, -dx;
      for i := 0 to dx + 1
        invariant E == Walk(dx, dy, i).1
        invariant Point(x, y) == WalkPoint(x1, y1, x2, y2, i)
        invariant Picture() == Painted(was, WalkPrefix(x1, y1, x2, y2, i), invert)
      {
        Plot(x, y, invert);
        PaintedTwice(was, WalkPrefix(x1, y1, x2, y2, i), {Point(x, y)}, invert);
        WalkStep(x1, y1, x2, y2, i);
        x := x + sx;
        E := E + 2 * dy;
        if E >= 0 {
          y := y + sy;
          E := E - 2 * dx;
        }
      }
    }

    /** The loop of a line that is at least as high as it is wide. */
    method LineAlongY(x1: int, y1: int, x2: int, y2: int, dx: int, dy: int, sx: int, sy: int, invert: bool)
      requires Valid() && forall k: nat | k <= Steps(x1, y1, x2, y2) :: OnScreen(WalkPoint(x1, y1, x2, y2, k))
      requires dx == Abs(x2 - x1) && dy == Abs(y2 - y1) && dx <= dy
      requires sx == (if x2 > x1 then 1 else -1) && sy == if y2 > y1 then 1 else -1
      modifies segs
      ensures Picture() == Painted(old(Picture()), LinePixels(x1, y1, x2, y2), invert)
    {
      ghost var was := Picture();
      var x, y, E := x1, y1, -dy;
      for i := 0 to dy + 1
        invariant E == Walk(dy, dx, i).1
        invariant Point(x, y) == WalkPoint(x1, y1, x2, y2, i)
        invariant Picture() == Painted(was, WalkPrefix(x1, y1, x2, y2, i), invert)
      {
        Plot(x, y, invert);
        PaintedTwice(was, WalkPrefix(x1, y1, x2, y2, i), {Point(x, y)}, invert);
        WalkStep(x1, y1, x2, y2, i);
        y := y + sy;
        E := E + 2 * dx;
        if E >= 0 {
          x := x + sx;
          E := E - 2 * dy;
        }
      }
    }

    /** The four symmetric pixels of one offset. */
    method FourPixels(x0: int, y0: int, x: int, y: int, invert: bool, ghost was: set<Point>, ghost done: seq<Point>)
      requires Valid() && RoomAround(x0, y0, Max(Abs(x), Abs(y)))
      requires Picture() == Painted(was, Rotations(x0, y0, done), invert)
      modifies segs
      ensures Picture() == Painted(was, Rotations(x0, y0, done + [Point(-x, y)]), invert)
    {
      ghost var s0 := Picture();
      Plot(x0 - x, y0 + y, invert);
      ghost var s1 := Picture();
      Plot(x0 - y, y0 - x, invert);
      ghost var s2 := Picture();
      Plot(x0 + x, y0 - y, invert);
      ghost var s3 := Picture();
      Plot(x0 + y, y0 + x, invert);
      QuadPainted(was, done, x0, y0, x, y, invert, s0, s1, s2, s3, Picture());
    }

    /** The update at the end of the circle's loop body, and the offsets left after it. */
    static method NextPosition(x0: int, y0: int, err0: int, ghost rest: seq<Point>)
      returns (x: int, y: int, err: int, ghost tail: seq<Point>)
      requires 0 <= x0 && rest == Trace(x0, y0, err0)
      ensures 0 <= x && rest != [] && tail == rest[1..] == if y < 0 then Trace(x, y, err) else []
    {
      TraceUnfold(x0, y0, err0);
      x, y, err, tail := x0, y0, err0, rest[1..];
      var oldErr := err;
      if oldErr <= x {
        x := x + 1;
        err := err + x * 2 + 1;
      }
      if oldErr > y || err > x {
        y := y + 1;
        err := err + y * 2 + 1;
      }
    }

    /** One pass of the circle's loop, `done` being the offsets plotted so far and `rest` those still to come. */
    method CirclePass(x0: int, y0: int, m: nat, invert: bool, x: int, y: int, err: int,
        ghost was: set<Point>, ghost all: seq<Point>, ghost done: seq<Point>, ghost rest: seq<Point>)
      returns (nextX: int, nextY: int, nextErr: int, ghost more: seq<Point>, ghost tail: seq<Point>)
      requires Valid() && RoomAround(x0, y0, m) && Bounded(m, all)
      requires 0 <= x && rest == Trace(x, y, err) && all == done + rest
      requires Picture() == Painted(was, Rotations(x0, y0, done), invert)
      modifies segs
      ensures 0 <= nextX && all == more + tail && |tail| < |rest|
      ensures tail == if nextY < 0 then Trace(nextX, nextY, nextErr) else []
      ensures Picture() == Painted(was, Rotations(x0, y0, more), invert)
    {
      HeadBounded(m, all, x, y, err, done, rest);
      FourPixels(x0, y0, x, y, invert, was, done);
      more := done + [Point(-x, y)];
      nextX, nextY, nextErr, tail := NextPosition(x, y, err, rest);
    }

    /** The circle's loop. */
    method PaintCircle(x0: int, y0: int, r: int, invert: bool)
      requires Valid()
      requires RoomAround(x0, y0, Abs(r))
      modifies segs
      ensures Picture() == Painted(old(Picture()), CirclePixels(x0, y0, r), invert)
    {
      var x, y, err := 0, -r, 2 - 2 * r;
      ghost var was := Picture();
      ghost var done: seq<Point> := [];
      ghost var all := Offsets(r);
      ghost var rest := all;
      OffsetsBounded(r);
      var again := true;
      while again
        invariant 0 <= x
        invariant all == done + rest
        invariant rest == if again then Trace(x, y, err) else []
        invariant Picture() == Painted(was, Rotations(x0, y0, done), invert)
        decreases |rest|
      {
        x, y, err, done, rest := CirclePass(x0, y0, Abs(r), invert, x, y, err, was, all, done, rest);
        again := y < 0;
      }
      assert done == all;
    }

    method Circle(x0: int, y0: int, r: int, invert: bool)
      requires Valid()
      requires RoomAround(x0, y0, Abs(r))
      modifies segs
      ensures Picture() == Painted(old(Picture()), CirclePixels(x0, y0, r), invert)
      ensures forall p | OnScreen(p) :: Lit(p) == if p in CirclePixels(x0, y0, r) then !invert else old(Lit(p))
    {
      PictureMembers();
      PaintCircle(x0, y0, r, invert);
      PictureMembers();
    }
  }

  // ---------------------------------------------------------------- lines

  /** How far the minor coordinate has moved after k major steps: k * dminor / dmajor rounded to nearest. */
  function Minor(major: nat, minor: nat, k: nat): int
  {
    if major == 0 then 0 else (2 * k * minor + major) / (2 * major)
  }

  /** The k-th point the line from (x1, y1) to (x2, y2) plots. */
  function LinePoint(x1: int, y1: int, x2: int, y2: int, k: nat): Point {
    var dx, dy := Abs(x2 - x1), Abs(y2 - y1);
    var sx := if x2 > x1 then 1 else -1;
    var sy := if y2 > y1 then 1 else -1;
    if dx > dy then Point(x1 + sx * k, y1 + sy * Minor(dx, dy, k))
    else Point(x1 + sx * Minor(dy, dx, k), y1 + sy * k)
  }

  function Steps(x1: int, y1: int, x2: int, y2: int): nat {
    Max(Abs(x2 - x1), Abs(y2 - y1))
  }

  /** The first n points. */
  function LinePrefix(x1: int, y1: int, x2: int, y2: int, n: nat): set<Point> {
    set k | 0 <= k < n :: LinePoint(x1, y1, x2, y2, k)
  }

  /** What Line paints. */
  function LinePixels(x1: int, y1: int, x2: int, y2: int): set<Point> {
    WalkPrefix(x1, y1, x2, y2, Steps(x1, y1, x2, y2) + 1)
  }

  lemma LinePrefixSnoc(x1: int, y1: int, x2: int, y2: int, n: nat)
    ensures LinePrefix(x1, y1, x2, y2, n + 1) == LinePrefix(x1, y1, x2, y2, n) + {LinePoint(x1, y1, x2, y2, n)}
  {
  }

  /** The loop as written: minor steps taken and error term E before major step k. */
  function Walk(major: int, minor: int, k: nat): (int, int) {
    if k == 0 then (0, -major)
    else
      var (m, E) := Walk(major, minor, k - 1);
      if E + 2 * minor >= 0 then (m + 1, E + 2 * minor - 2 * major) else (m, E + 2 * minor)
  }

  function WalkPoint(x1: int, y1: int, x2: int, y2: int, k: nat): Point {
    var dx, dy := Abs(x2 - x1), Abs(y2 - y1);
    var m := if dx > dy then Walk(dx, dy, k).0 else Walk(dy, dx, k).0;
    var mx := if x2 > x1 then m else -m;
    var kx: int := if x2 > x1 then k else 0 - k;
    var my := if y2 > y1 then m else -m;
    var ky: int := if y2 > y1 then k else 0 - k;
    if dx > dy then Point(x1 + kx, y1 + my) else Point(x1 + mx, y1 + ky)
  }

  function WalkPrefix(x1: int, y1: int, x2: int, y2: int, n: nat): set<Point> {
    if n == 0 then {} else WalkPrefix(x1, y1, x2, y2, n - 1) + {WalkPoint(x1, y1, x2, y2, n - 1)}
  }

  lemma WalkStep(x1: int, y1: int, x2: int, y2: int, k: nat)
    ensures
      var dx, dy := Abs(x2 - x1), Abs(y2 - y1);
      var sx := if x2 > x1 then 1 else -1;
      var sy := if y2 > y1 then 1 else -1;
      var p := WalkPoint(x1, y1, x2, y2, k);
      if dx > dy then
        var E := Walk(dx, dy, k).1 + 2 * dy;
        && Walk(dx, dy, k + 1).1 == (if E >= 0 then E - 2 * dx else E)
        && WalkPoint(x1, y1, x2, y2, k + 1) == Point(p.x + sx, if E >= 0 then p.y + sy else p.y)
      else
        var E := Walk(dy, dx, k).1 + 2 * dx;
        && Walk(dy, dx, k + 1).1 == (if E >= 0 then E - 2 * dy else E)
        && WalkPoint(x1, y1, x2, y2, k + 1) == Point(if E >= 0 then p.x + sx else p.x, p.y + sy)
    ensures WalkPrefix(x1, y1, x2, y2, k + 1) == WalkPrefix(x1, y1, x2, y2, k) + {WalkPoint(x1, y1, x2, y2, k)}
  {
  }

  /**
   * The error term is twice the scaled distance to the ideal line, shifted below zero, and m is the rounded quotient.
   */
  lemma {:induction false} WalkIsRounding(major: nat, minor: nat, k: nat)
    requires 0 < major && minor <= major
    ensures var (m, E) := Walk(major, minor, k);
      && m == Minor(major, minor, k)
      && E == 2 * (k * minor) - major - 2 * (major * m) && -2 * major <= E < 0
  {
    if k > 0 {
      WalkIsRounding(major, minor, k - 1);
      var (m, E) := Walk(major, minor, k);
      assert k * minor == (k - 1) * minor + minor;
      Distribute(major, m, 1);
    }
    MinorIsQuotient(major, minor, k, Walk(major, minor, k).0);
  }

  /** So the loop paints exactly the rounded points. */
  lemma LinePaintsRoundedPoints(x1: int, y1: int, x2: int, y2: int)
    ensures LinePixels(x1, y1, x2, y2) == LinePrefix(x1, y1, x2, y2, Steps(x1, y1, x2, y2) + 1)
  {
    var n := Steps(x1, y1, x2, y2);
    forall k: nat | k <= n
      ensures WalkPoint(x1, y1, x2, y2, k) == LinePoint(x1, y1, x2, y2, k)
    {
      WalkIsLine(x1, y1, x2, y2, k);
    }
    WalkPrefixIs(x1, y1, x2, y2, n + 1);
  }

  lemma WalkOnScreen(x1: int, y1: int, x2: int, y2: int)
    requires OnScreen(Point(x1, y1)) && OnScreen(Point(x2, y2))
    ensures forall k: nat | k <= Steps(x1, y1, x2, y2) :: OnScreen(WalkPoint(x1, y1, x2, y2, k))
  {
    forall k: nat | k <= Steps(x1, y1, x2, y2)
      ensures OnScreen(WalkPoint(x1, y1, x2, y2, k))
    {
      WalkIsLine(x1, y1, x2, y2, k);
    }
  }

  lemma WalkIsLine(x1: int, y1: int, x2: int, y2: int, k: nat)
    requires k <= Steps(x1, y1, x2, y2)
    ensures WalkPoint(x1, y1, x2, y2, k) == LinePoint(x1, y1, x2, y2, k)
    ensures OnScreen(Point(x1, y1)) && OnScreen(Point(x2, y2)) ==> OnScreen(LinePoint(x1, y1, x2, y2, k))
  {
    var dx, dy := Abs(x2 - x1), Abs(y2 - y1);
    if dx > dy {
      WalkIsRounding(dx, dy, k);
      MinorRange(dx, dy, k);
    } else if dy > 0 {
      WalkIsRounding(dy, dx, k);
      MinorRange(dy, dx, k);
    }
  }

  lemma {:induction false} WalkPrefixIs(x1: int, y1: int, x2: int, y2: int, n: nat)
    requires forall k: nat | k < n :: WalkPoint(x1, y1, x2, y2, k) == LinePoint(x1, y1, x2, y2, k)
    ensures WalkPrefix(x1, y1, x2, y2, n) == LinePrefix(x1, y1, x2, y2, n)
  {
    if n > 0 {
      WalkPrefixIs(x1, y1, x2, y2, n - 1);
      LinePrefixSnoc(x1, y1, x2, y2, n - 1);
    }
  }

  lemma MinorIsQuotient(major: int, minor: nat, k: nat, m: int)
    requires major > 0
    requires -2 * major <= 2 * (k * minor) - major - 2 * (major * m) < 0
    ensures Minor(major, minor, k) == m
  {
    var n := 2 * k * minor + major;
    assert n == 2 * (k * minor) + major;
    assert (2 * major) * m == 2 * (major * m);
    QuotientUnique(n, 2 * major, m);
  }

  /** The ideal line is never more than half a pixel away: 2 * |k * minor - major * m| <= major. */
  lemma MinorWindow(major: nat, minor: nat, k: nat)
    requires major > 0
    ensures 0 - major <= 2 * (k * minor) - 2 * (major * Minor(major, minor, k)) < major
  {
  }

  lemma MinorRange(major: nat, minor: nat, k: nat)
    requires 0 < major && minor <= major && k <= major
    ensures 0 <= Minor(major, minor, k) <= minor
    ensures Minor(major, minor, 0) == 0 && Minor(major, minor, major) == minor
  {
    MinorIsQuotient(major, minor, major, minor);
    MinorIsQuotient(major, minor, 0, 0);
    MinorWindow(major, minor, k);
    MulMono(minor, 0, k);
    MulMono(minor, k, major);
    ProductWindow(major, minor, Minor(major, minor, k), k * minor);
  }

  lemma ProductWindow(major: nat, minor: nat, m: int, p: int)
    requires 0 < major && 0 <= p <= major * minor
    requires 0 - major <= 2 * p - 2 * (major * m) < major
    ensures 0 <= m <= minor
  {
    Distribute(major, minor, 1);
    if m < 0 { MulMono(major, m, -1); }
    if m > minor { MulMono(major, minor + 1, m); }
  }

  /** The plotted chain starts and ends at the requested endpoints, is 8-connected and never revisits a pixel. */
  lemma LineIsChain(x1: int, y1: int, x2: int, y2: int)
    ensures var n := Steps(x1, y1, x2, y2);
      && LinePoint(x1, y1, x2, y2, 0) == Point(x1, y1)
      && LinePoint(x1, y1, x2, y2, n) == Point(x2, y2)
      && |LinePixels(x1, y1, x2, y2)| == n + 1
    ensures forall k: nat | k < Steps(x1, y1, x2, y2) ::
      EightAdjacent(LinePoint(x1, y1, x2, y2, k), LinePoint(x1, y1, x2, y2, k + 1))
  {
    var n := Steps(x1, y1, x2, y2);
    LineEndpoints(x1, y1, x2, y2);
    forall k: nat | k < n
      ensures EightAdjacent(LinePoint(x1, y1, x2, y2, k), LinePoint(x1, y1, x2, y2, k + 1))
    {
      LineNeighbours(x1, y1, x2, y2, k);
    }
    LinePaintsRoundedPoints(x1, y1, x2, y2);
    LinePixelCount(x1, y1, x2, y2, n + 1);
  }

  lemma LineEndpoints(x1: int, y1: int, x2: int, y2: int)
    ensures LinePoint(x1, y1, x2, y2, 0) == Point(x1, y1)
    ensures LinePoint(x1, y1, x2, y2, Steps(x1, y1, x2, y2)) == Point(x2, y2)
  {
    var dx, dy := Abs(x2 - x1), Abs(y2 - y1);
    if dx > dy { MinorRange(dx, dy, 0); } else if dy > 0 { MinorRange(dy, dx, 0); }
  }

  lemma LineNeighbours(x1: int, y1: int, x2: int, y2: int, k: nat)
    requires k < Steps(x1, y1, x2, y2)
    ensures EightAdjacent(LinePoint(x1, y1, x2, y2, k), LinePoint(x1, y1, x2, y2, k + 1))
  {
    WalkIsLine(x1, y1, x2, y2, k);
    WalkIsLine(x1, y1, x2, y2, k + 1);
    WalkStep(x1, y1, x2, y2, k);
  }

  lemma {:induction false} LinePixelCount(x1: int, y1: int, x2: int, y2: int, n: nat)
    ensures |LinePrefix(x1, y1, x2, y2, n)| == n
  {
    if n > 0 {
      LinePixelCount(x1, y1, x2, y2, n - 1);
      LinePrefixSnoc(x1, y1, x2, y2, n - 1);
    }
  }

  /** Every plotted pixel is within half a pixel of the ideal line, measured along the minor axis. */
  lemma LineWithinHalfPixel(x1: int, y1: int, x2: int, y2: int, k: nat)
    requires k <= Steps(x1, y1, x2, y2)
    ensures var p := LinePoint(x1, y1, x2, y2, k);
      2 * Abs((p.x - x1) * (y2 - y1) - (p.y - y1) * (x2 - x1)) <= Steps(x1, y1, x2, y2)
  {
    var dx, dy := Abs(x2 - x1), Abs(y2 - y1);
    var p := LinePoint(x1, y1, x2, y2, k);
    if dx > dy {
      var m := Minor(dx, dy, k);
      MinorWindow(dx, dy, k);
      SignedCross(p.x - x1, p.y - y1, x2 - x1, y2 - y1, k, m);
    } else if dy > 0 {
      var m := Minor(dy, dx, k);
      MinorWindow(dy, dx, k);
      SignedCross(p.y - y1, p.x - x1, y2 - y1, x2 - x1, k, m);
    }
  }

  /**
   * Moving a along the major and b along the minor axis, the cross product with the direction is that of the absolute
   * values.
   */
  lemma SignedCross(a: int, b: int, major: int, minor: int, k: int, m: int)
    requires a == if major > 0 then k else 0 - k
    requires b == if minor > 0 then m else -m
    ensures Abs(a * minor - b * major) == Abs(k * Abs(minor) - Abs(major) * m)
    ensures Abs(b * major - a * minor) == Abs(k * Abs(minor) - Abs(major) * m)
  {
  }

  predicate EightAdjacent(p: Point, q: Point) {
    p != q && Abs(p.x - q.x) <= 1 && Abs(p.y - q.y) <= 1
  }

  // ---------------------------------------------------------------- circles

  function StepX(x: int, err: int): int { if err <= x then x + 1 else x }

  function StepErr(x: int, err: int): int { if err <= x then err + (x + 1) * 2 + 1 else err }

  predicate StepsY(x: int, y: int, err: int) { err > y || StepErr(x, err) > StepX(x, err) }

  function StepY(x: int, y: int, err: int): int { if StepsY(x, y, err) then y + 1 else y }

  function NextErr(x: int, y: int, err: int): int {
    if StepsY(x, y, err) then StepErr(x, err) + (y + 1) * 2 + 1 else StepErr(x, err)
  }

  /** Why the loop stops: y only climbs, and while it rests err <= y and err strictly climbs towards it. */
  function TraceMeasure(y: int, err: int): (nat, nat) {
    (if y < 0 then -y else 0, if err <= y then y - err + 1 else 0)
  }

  /** The offsets the do-while loop visits from a given loop state on, whatever the radius. */
  function Trace(x: int, y: int, err: int): (t: seq<Point>)
    requires 0 <= x
    decreases TraceMeasure(y, err).0, TraceMeasure(y, err).1
  {
    var x', y', err' := StepX(x, err), StepY(x, y, err), NextErr(x, y, err);
    [Point(-x, y)] + if y' < 0 then Trace(x', y', err') else []
  }

  lemma TraceUnfold(x: int, y: int, err: int)
    requires 0 <= x
    ensures var x', y', err' := StepX(x, err), StepY(x, y, err), NextErr(x, y, err);
      Trace(x, y, err) == [Point(-x, y)] + if y' < 0 then Trace(x', y', err') else []
  {
  }

  /** All offsets of one quarter of the circle, in plotting order. */
  function Offsets(r: int): seq<Point> { Trace(0, -r, 2 - 2 * r) }

  /** How far x*x + y*y is from r*r. */
  function Excess(r: int, x: int, y: int): int { x * x + y * y - r * r }

  lemma ExcessSteps(r: int, x: int, y: int)
    ensures Excess(r, x + 1, y) == Excess(r, x, y) + 2 * x + 1
    ensures Excess(r, x, y + 1) == Excess(r, x, y) + 2 * y + 1
    ensures Excess(r, x + 1, y + 1) == Excess(r, x, y) + 2 * x + 2 * y + 2
  {
  }

  /** The invariant of the circle loop: err is the excess one pixel further on, and the offset hugs the circle. */
  predicate OnTrack(r: int, x: int, y: int, err: int) {
    && 1 <= r && 0 <= x && -r <= y <= 0
    && err == Excess(r, x + 1, y + 1)
    && Abs(Excess(r, x, y)) <= Max(x, -y)
  }

  lemma StartOnTrack(r: int)
    requires r >= 1
    ensures OnTrack(r, 0, -r, 2 - 2 * r)
  {
  }

  /** One pass of the loop body keeps the invariant and moves to an 8-neighbour. */
  lemma TrackKept(r: int, x: int, y: int, err: int)
    requires OnTrack(r, x, y, err) && y < 0
    ensures OnTrack(r, StepX(x, err), StepY(x, y, err), NextErr(x, y, err))
    ensures StepX(x, err) != x || StepY(x, y, err) != y
  {
    var x', y' := StepX(x, err), StepY(x, y, err);
    ExcessSteps(r, x, y);
    ExcessSteps(r, x', y);
    ExcessSteps(r, x', y');
    StepBounds(Excess(r, x, y), x, y, err);
  }

  /** The linear part of TrackKept: what a step does to the excess. */
  lemma StepBounds(d: int, x: int, y: int, err: int)
    requires 0 <= x && y < 0 && Abs(d) <= Max(x, -y) && err == d + 2 * x + 2 * y + 2
    ensures var x', y' := StepX(x, err), StepY(x, y, err);
      var d' := d + (if x' > x then 2 * x + 1 else 0) + (if y' > y then 2 * y + 1 else 0);
      && Abs(d') <= Max(x', -y')
      && NextErr(x, y, err) == d' + 2 * x' + 2 * y' + 2
      && (x' > x || y' > y)
  {
  }

  lemma WithinRadius(r: int, x: int, y: int, err: int)
    requires OnTrack(r, x, y, err)
    ensures x <= r
    ensures y == 0 ==> x == r
    ensures (y == -r || x == r) ==> Excess(r, x, y) >= 0
  {
    Square(x);
    Square(y);
    Square(r);
    if x > r { SquareMono(r, x); } else if x < r { SquareMono(x, r); }
    assert Excess(r, x, y) == x * x + y * y - r * r;
    RadiusBound(r, x, y, r * r, x * x, y * y);
  }

  /** The linear part of WithinRadius, with the three squares as given numbers. */
  lemma RadiusBound(r: int, x: int, y: int, rr: int, xx: int, yy: int)
    requires 1 <= r && 0 <= x && -r <= y <= 0 && yy >= 0 && xx >= 0
    requires y == 0 ==> yy == 0
    requires y == -r ==> yy == rr
    requires x > r ==> rr + r + x <= xx
    requires x < r ==> xx + x + r <= rr
    requires x == r ==> xx == rr
    requires Abs(xx + yy - rr) <= Max(x, -y)
    ensures x <= r && (y == 0 ==> x == r)
    ensures (y == -r || x == r) ==> xx + yy - rr >= 0
  {
  }

  /** On the circle up to rasterisation: the excess is at most the larger coordinate. */
  predicate HugsCircle(r: int, p: Point) {
    && -r < Excess(r, p.x, p.y) <= r
    && Abs(Excess(r, p.x, p.y)) <= Max(Abs(p.x), Abs(p.y)) <= r
  }

  /** In distances: the pixel lies between r - 1/2 and r + 1/2 from the centre. */
  lemma HugsWithinHalfPixel(r: int, p: Point)
    requires r >= 1 && HugsCircle(r, p)
    ensures (2 * r - 1) * (2 * r - 1) <= 4 * (p.x * p.x + p.y * p.y) <= (2 * r + 1) * (2 * r + 1)
  {
    HalfPixelSquares(r);
  }

  lemma HalfPixelSquares(r: int)
    ensures (2 * r - 1) * (2 * r - 1) == 4 * (r * r) - 4 * r + 1
    ensures (2 * r + 1) * (2 * r + 1) == 4 * (r * r) + 4 * r + 1
  {
  }

  lemma TrackHugs(r: int, x: int, y: int, err: int)
    requires OnTrack(r, x, y, err)
    ensures HugsCircle(r, Point(-x, y))
  {
    WithinRadius(r, x, y, err);
    Square(x);
    assert Excess(r, -x, y) == Excess(r, x, y);
  }

  /** A chain of 8-neighbours that starts at `first` and could go on with `next`. */
  ghost predicate IsChain(t: seq<Point>, first: Point, next: Point) {
    && t != [] && t[0] == first
    && (forall i | 0 < i < |t| :: EightAdjacent(t[i - 1], t[i]))
    && EightAdjacent(t[|t| - 1], next)
  }

  ghost predicate AllHug(r: int, t: seq<Point>) {
    forall i | 0 <= i < |t| :: HugsCircle(r, t[i])
  }

  lemma {:induction false} TraceIsQuarter(r: int, x: int, y: int, err: int)
    requires OnTrack(r, x, y, err) && y < 0
    ensures IsChain(Trace(x, y, err), Point(-x, y), Point(-r, 0))
    ensures AllHug(r, Trace(x, y, err))
    decreases TraceMeasure(y, err).0, TraceMeasure(y, err).1
  {
    TrackHugs(r, x, y, err);
    TrackKept(r, x, y, err);
    var x', y', err' := StepX(x, err), StepY(x, y, err), NextErr(x, y, err);
    if y' < 0 {
      TraceIsQuarter(r, x', y', err');
      var rest := Trace(x', y', err');
      ChainCons(Point(-x, y), rest, Point(-r, 0));
      HugCons(r, Point(-x, y), rest);
      assert Trace(x, y, err) == [Point(-x, y)] + rest;
    } else {
      WithinRadius(r, x', y', err');
      assert Trace(x, y, err) == [Point(-x, y)];
    }
  }

  lemma ChainCons(p: Point, t: seq<Point>, next: Point)
    requires t != [] && IsChain(t, t[0], next) && EightAdjacent(p, t[0])
    ensures IsChain([p] + t, p, next)
  {
  }

  lemma HugCons(r: int, p: Point, t: seq<Point>)
    requires HugsCircle(r, p) && AllHug(r, t)
    ensures AllHug(r, [p] + t)
  {
  }

  /** The offset the circle loop is about to plot stays within the radius. */
  lemma HeadBounded(m: nat, all: seq<Point>, x: int, y: int, err: int, done: seq<Point>, rest: seq<Point>)
    requires 0 <= x && rest == Trace(x, y, err) && all == done + rest && Bounded(m, all)
    ensures Max(Abs(x), Abs(y)) <= m && rest != [] && all == done + [Point(-x, y)] + rest[1..]
  {
    TraceUnfold(x, y, err);
    assert done + rest == done + [Point(-x, y)] + rest[1..];
    BoundedAt(m, done, Point(-x, y), rest[1..]);
  }

  ghost predicate Bounded(m: int, t: seq<Point>) {
    forall i | 0 <= i < |t| :: Abs(t[i].x) <= m && Abs(t[i].y) <= m
  }

  lemma BoundedAt(m: int, s: seq<Point>, p: Point, t: seq<Point>)
    requires Bounded(m, s + [p] + t)
    ensures Abs(p.x) <= m && Abs(p.y) <= m
  {
    assert (s + [p] + t)[|s|] == p;
  }

  lemma OffsetsBounded(r: int)
    ensures Bounded(Abs(r), Offsets(r))
  {
    if r >= 1 {
      StartOnTrack(r);
      TraceIsQuarter(r, 0, -r, 2 - 2 * r);
    } else {
      assert Offsets(r) == [Point(0, -r)];
    }
  }

  /** Quarter turn. */
  function Rot(p: Point): Point { Point(-p.y, p.x) }

  function At(x0: int, y0: int, p: Point): Point { Point(x0 + p.x, y0 + p.y) }

  /** The four pixels one loop iteration plots. */
  function Quad(x0: int, y0: int, p: Point): set<Point> {
    {At(x0, y0, p), At(x0, y0, Rot(p)), At(x0, y0, Rot(Rot(p))), At(x0, y0, Rot(Rot(Rot(p))))}
  }

  function Rotations(x0: int, y0: int, trace: seq<Point>): set<Point> {
    if trace == [] then {}
    else Rotations(x0, y0, trace[..|trace| - 1]) + Quad(x0, y0, trace[|trace| - 1])
  }

  /** Four single pixels painted in a row are one more offset with its rotations. */
  lemma QuadPainted(picture: set<Point>, done: seq<Point>, x0: int, y0: int, x: int, y: int, invert: bool,
                    s0: set<Point>, s1: set<Point>, s2: set<Point>, s3: set<Point>, s4: set<Point>)
    requires s0 == Painted(picture, Rotations(x0, y0, done), invert)
    requires s1 == Painted(s0, {Point(x0 - x, y0 + y)}, invert) && s2 == Painted(s1, {Point(x0 - y, y0 - x)}, invert)
    requires s3 == Painted(s2, {Point(x0 + x, y0 - y)}, invert) && s4 == Painted(s3, {Point(x0 + y, y0 + x)}, invert)
    ensures s4 == Painted(picture, Rotations(x0, y0, done + [Point(-x, y)]), invert)
  {
  }

  function CirclePixels(x0: int, y0: int, r: int): set<Point> { Rotations(x0, y0, Offsets(r)) }

  function Turn(t: seq<Point>): seq<Point> { seq(|t|, i requires 0 <= i < |t| => Rot(t[i])) }

  /** The four arcs one after the other, round the centre. */
  function FullCircle(r: int): seq<Point> {
    var a := Offsets(r);
    a + Turn(Turn(Turn(a))) + Turn(Turn(a)) + Turn(a)
  }

  lemma TurnKeepsChain(t: seq<Point>, first: Point, next: Point)
    requires IsChain(t, first, next)
    ensures IsChain(Turn(t), Rot(first), Rot(next))
  {
  }

  lemma TurnKeepsHug(r: int, t: seq<Point>)
    requires AllHug(r, t)
    ensures AllHug(r, Turn(t))
  {
    forall i | 0 <= i < |t| ensures HugsCircle(r, Turn(t)[i]) { RotKeepsHug(r, t[i]); }
  }

  lemma RotKeepsHug(r: int, p: Point)
    requires HugsCircle(r, p)
    ensures HugsCircle(r, Rot(p))
  {
    Square(p.y);
    assert Excess(r, -p.y, p.x) == Excess(r, p.x, p.y);
  }

  lemma JoinFourChains(a: seq<Point>, d: seq<Point>, c: seq<Point>, b: seq<Point>, p: Point, q: Point, s: Point,
      t: Point)
    requires IsChain(a, p, q) && IsChain(d, q, s) && IsChain(c, s, t) && IsChain(b, t, p)
    ensures IsChain(a + d + c + b, p, p)
  {
  }

  lemma JoinFourHugs(r: int, a: seq<Point>, d: seq<Point>, c: seq<Point>, b: seq<Point>)
    requires AllHug(r, a) && AllHug(r, d) && AllHug(r, c) && AllHug(r, b)
    ensures AllHug(r, a + d + c + b)
  {
  }

  /** For every radius the four arcs join into one closed 8-connected curve ... */
  lemma CircleIsClosedCurve(r: int)
    requires r >= 1
    ensures IsChain(FullCircle(r), Point(0, -r), Point(0, -r))
  {
    StartOnTrack(r);
    TraceIsQuarter(r, 0, -r, 2 - 2 * r);
    var a := Offsets(r);
    TurnKeepsChain(a, Point(0, -r), Point(-r, 0));
    TurnKeepsChain(Turn(a), Point(r, 0), Point(0, -r));
    TurnKeepsChain(Turn(Turn(a)), Point(0, r), Point(r, 0));
    JoinFourChains(a, Turn(Turn(Turn(a))), Turn(Turn(a)), Turn(a),
                   Point(0, -r), Point(-r, 0), Point(0, r), Point(r, 0));
  }

  lemma ArcsHug(r: int, a: seq<Point>)
    requires AllHug(r, a)
    ensures AllHug(r, a + Turn(Turn(Turn(a))) + Turn(Turn(a)) + Turn(a))
  {
    TurnKeepsHug(r, a);
    TurnKeepsHug(r, Turn(a));
    TurnKeepsHug(r, Turn(Turn(a)));
    JoinFourHugs(r, a, Turn(Turn(Turn(a))), Turn(Turn(a)), Turn(a));
  }

  lemma OffsetsHug(r: int)
    requires r >= 1
    ensures AllHug(r, Offsets(r))
  {
    StartOnTrack(r);
    TraceIsQuarter(r, 0, -r, 2 - 2 * r);
  }

  /** ... that hugs the circle everywhere. */
  lemma CircleHugs(r: int)
    requires r >= 1
    ensures AllHug(r, FullCircle(r))
  {
    OffsetsHug(r);
    ArcsHug(r, Offsets(r));
  }

  /** What Circle paints is that curve, moved to its centre: no other pixel and none missing. */
  lemma CirclePaintsCurve(x0: int, y0: int, r: int, q: Point)
    ensures q in CirclePixels(x0, y0, r)
      <==> exists i :: 0 <= i < |FullCircle(r)| && q == At(x0, y0, FullCircle(r)[i])
  {
    var a, f := Offsets(r), FullCircle(r);
    RotationsMembers(x0, y0, a, q);
    if q in CirclePixels(x0, y0, r) {
      var j :| 0 <= j < |a| && q in Quad(x0, y0, a[j]);
      FullCircleAt(r, j);
    }
    if i :| 0 <= i < |f| && q == At(x0, y0, f[i]) {
      var j := OffsetOf(r, i);
      InQuad(x0, y0, a[j], f[i], q);
    }
  }

  /** The offset that place i of the full circle is a copy of. */
  lemma OffsetOf(r: int, i: nat) returns (j: nat)
    requires i < |FullCircle(r)|
    ensures j < |Offsets(r)|
    ensures var o, p := Offsets(r)[j], FullCircle(r)[i];
      p == o || p == Rot(o) || p == Rot(Rot(o)) || p == Rot(Rot(Rot(o)))
  {
    var n := |Offsets(r)|;
    j := if i < n then i else if i < 2 * n then i - n else if i < 3 * n then i - 2 * n else i - 3 * n;
    FullCircleAt(r, j);
  }

  lemma InQuad(x0: int, y0: int, p: Point, turned: Point, q: Point)
    requires turned == p || turned == Rot(p) || turned == Rot(Rot(p)) || turned == Rot(Rot(Rot(p)))
    requires q == At(x0, y0, turned)
    ensures q in Quad(x0, y0, p)
  {
  }

  /** Where the four copies of offset j stand on the full circle. */
  lemma FullCircleAt(r: int, j: nat)
    requires j < |Offsets(r)|
    ensures var a, f := Offsets(r), FullCircle(r);
      && |f| == 4 * |a| && f[j] == a[j] && f[|a| + j] == Rot(Rot(Rot(a[j])))
      && f[2 * |a| + j] == Rot(Rot(a[j])) && f[3 * |a| + j] == Rot(a[j])
  {
  }

  lemma {:induction false} RotationsMembers(x0: int, y0: int, t: seq<Point>, q: Point)
    ensures q in Rotations(x0, y0, t) <==> exists i :: 0 <= i < |t| && q in Quad(x0, y0, t[i])
  {
    if t != [] {
      var init := t[..|t| - 1];
      RotationsMembers(x0, y0, init, q);
      if q in Rotations(x0, y0, init) {
        var i :| 0 <= i < |init| && q in Quad(x0, y0, init[i]);
        assert q in Quad(x0, y0, t[i]);
      }
      if i :| 0 <= i < |t| && q in Quad(x0, y0, t[i]) {
        if i < |init| { assert q in Quad(x0, y0, init[i]); }
      }
    }
  }

  // ---------------------------------------------------------------- the exact circle

  /** With m the larger coordinate: of its neighbours along that axis the nearest, and no outer corner. */
  predicate Window(excess: int, x: nat, y: nat) {
    -Max(x, y) <= excess < Max(x, y) && !(x == y && excess == x - 1)
  }

  predicate OnCircle(r: int, p: Point) { Window(Excess(r, p.x, p.y), Abs(p.x), Abs(p.y)) }

  /** One pass keeps an offset on the circle, and what it leaves beside or above is not on it. */
  lemma StepInWindow(d: int, x: int, y: int, err: int)
    requires 0 <= x && y < 0 && Window(d, x, -y) && err == d + 2 * x + 2 * y + 2
    ensures var x', y' := StepX(x, err), StepY(x, y, err);
      var d' := d + (if x' > x then 2 * x + 1 else 0) + (if y' > y then 2 * y + 1 else 0);
      && NextErr(x, y, err) == d' + 2 * x' + 2 * y' + 2
      && (y' < 0 ==> Window(d', x', -y'))
      && (x' > x ==> d + 2 * y + 1 < -Max(x, -y - 1))
      && (y' > y ==> d + 2 * x + 1 >= Max(x + 1, -y) || (x + 1 == -y && d + 2 * x + 1 == x))
      && (x' > x || y' > y)
  {
  }

  /** No offset of column x lies on the circle nearer the axis than one the loop leaves that column from. */
  lemma ColumnDone(r: int, x: int, y: int, p: Point)
    requires 0 <= x && y < p.y < 0 && p.x == -x
    requires Excess(r, x, y + 1) < -Max(x, -y - 1)
    ensures !OnCircle(r, p)
  {
    Square(x);
    Square(p.y);
    Square(y + 1);
    if y + 1 < p.y { SquareMono(-p.y, -y - 1); }
  }

  /** Nor does one of row y further out than one the loop leaves that row from. */
  lemma RowDone(r: int, x: int, y: int, p: Point)
    requires 0 <= x && y < 0 && p.y == y && p.x < -x
    requires var d := Excess(r, x + 1, y); d >= Max(x + 1, -y) || (x + 1 == -y && d == x)
    ensures !OnCircle(r, p)
  {
    Square(p.x);
    if x + 1 < -p.x { SquareMono(x + 1, -p.x); }
  }

  lemma NextOnCircle(r: int, x: int, y: int, err: int)
    requires 0 <= x && y < 0 && err == Excess(r, x + 1, y + 1) && OnCircle(r, Point(-x, y))
    ensures var x', y' := StepX(x, err), StepY(x, y, err);
      && NextErr(x, y, err) == Excess(r, x' + 1, y' + 1)
      && (y' < 0 ==> OnCircle(r, Point(-x', y')))
      && (x' > x ==> Excess(r, x, y + 1) < -Max(x, -y - 1))
      && (y' > y ==> var d := Excess(r, x + 1, y); d >= Max(x + 1, -y) || (x + 1 == -y && d == x))
  {
    var x', y' := StepX(x, err), StepY(x, y, err);
    ExcessAfter(r, x, y, x', y');
    ExcessMirrored(r, x, y);
    ExcessMirrored(r, x', y');
    StepInWindow(Excess(r, x, y), x, y, err);
  }

  lemma ExcessAfter(r: int, x: int, y: int, x': int, y': int)
    requires x <= x' <= x + 1 && y <= y' <= y + 1
    ensures Excess(r, x', y') == Excess(r, x, y) + (if x' > x then 2 * x + 1 else 0) + (if y' > y then 2 * y + 1 else 0)
    ensures Excess(r, x + 1, y) == Excess(r, x, y) + 2 * x + 1
    ensures Excess(r, x, y + 1) == Excess(r, x, y) + 2 * y + 1
    ensures Excess(r, x + 1, y + 1) == Excess(r, x, y) + 2 * x + 2 * y + 2
    ensures Excess(r, x' + 1, y' + 1) == Excess(r, x', y') + 2 * x' + 2 * y' + 2
  {
    ExcessSteps(r, x, y);
    ExcessSteps(r, x', y);
    ExcessSteps(r, x', y');
  }

  lemma ExcessMirrored(r: int, x: int, y: int)
    ensures Excess(r, -x, y) == Excess(r, x, y)
  {
    Square(x);
  }

  /** Every offset on the circle that a pass could have missed is the one it plots or still ahead. */
  lemma NothingMissed(r: int, x: int, y: int, err: int, p: Point)
    requires 0 <= x && y < 0 && err == Excess(r, x + 1, y + 1) && OnCircle(r, Point(-x, y))
    requires OnCircle(r, p) && p.x <= -x && y <= p.y < 0
    ensures p == Point(-x, y) || (p.x <= -StepX(x, err) && StepY(x, y, err) <= p.y)
  {
    NextOnCircle(r, x, y, err);
    if StepX(x, err) > x && p.x == -x && p.y > y { ColumnDone(r, x, y, p); }
    if StepY(x, y, err) > y && p.y == y && p.x < -x { RowDone(r, x, y, p); }
  }

  lemma {:induction false} TraceExactly(r: int, x: int, y: int, err: int, p: Point)
    requires 0 <= x && y < 0 && err == Excess(r, x + 1, y + 1) && OnCircle(r, Point(-x, y))
    ensures p in Trace(x, y, err) <==> OnCircle(r, p) && p.x <= -x && y <= p.y < 0
    decreases TraceMeasure(y, err).0, TraceMeasure(y, err).1
  {
    var x', y', err' := StepX(x, err), StepY(x, y, err), NextErr(x, y, err);
    NextOnCircle(r, x, y, err);
    TraceUnfold(x, y, err);
    if OnCircle(r, p) && p.x <= -x && y <= p.y < 0 { NothingMissed(r, x, y, err, p); }
    if y' < 0 { TraceExactly(r, x', y', err', p); }
  }

  lemma OnCircleWithin(r: int, p: Point)
    requires r >= 1 && OnCircle(r, p)
    ensures p != Point(0, 0) && -r <= p.y <= r
  {
    Square(p.x);
    Square(p.y);
    if Abs(p.y) > r { SquareMono(r, Abs(p.y)); }
    if Abs(p.x) > r { SquareMono(r, Abs(p.x)); }
  }

  lemma StartOnCircle(r: int)
    requires r >= 1
    ensures OnCircle(r, Point(0, -r)) && 2 - 2 * r == Excess(r, 1, -r + 1)
  {
    Square(r);
    Square(-r);
    assert Excess(r, 0, -r) == 0;
  }

  lemma OffsetsExactly(r: int, p: Point)
    requires r >= 1
    ensures p in Offsets(r) <==> OnCircle(r, p) && p.x <= 0 && p.y < 0
  {
    StartOnCircle(r);
    TraceExactly(r, 0, -r, 2 - 2 * r, p);
    if OnCircle(r, p) { OnCircleWithin(r, p); }
  }

  lemma RotKeepsOnCircle(r: int, p: Point)
    ensures OnCircle(r, Rot(p)) <==> OnCircle(r, p)
  {
    Square(p.y);
    assert Excess(r, -p.y, p.x) == Excess(r, p.x, p.y);
  }

  /** A quarter of the plane; its four rotations cover everything but the centre. */
  predicate InQuarter(p: Point) { p.x <= 0 && p.y < 0 }

  lemma QuadOfOffsets(x0: int, y0: int, r: int, o: Point, p: Point)
    requires r >= 1 && At(x0, y0, p) in Quad(x0, y0, o) && o in Offsets(r)
    ensures OnCircle(r, p)
  {
    OffsetsExactly(r, o);
    RotKeepsOnCircle(r, o);
    RotKeepsOnCircle(r, Rot(o));
    RotKeepsOnCircle(r, Rot(Rot(o)));
  }

  lemma TurnedToQuarter(r: int, p: Point) returns (o: Point)
    requires r >= 1 && OnCircle(r, p)
    ensures o in Offsets(r) && (p == o || p == Rot(o) || p == Rot(Rot(o)) || p == Rot(Rot(Rot(o))))
  {
    OnCircleWithin(r, p);
    RotKeepsOnCircle(r, p);
    RotKeepsOnCircle(r, Rot(p));
    RotKeepsOnCircle(r, Rot(Rot(p)));
    o := if InQuarter(p) then p else if InQuarter(Rot(p)) then Rot(p)
      else if InQuarter(Rot(Rot(p))) then Rot(Rot(p)) else Rot(Rot(Rot(p)));
    OffsetsExactly(r, o);
  }

  /** What a circle paints, without reference to its loop: exactly the pixels whose offset from the centre is on it. */
  lemma CircleExactly(x0: int, y0: int, r: int, p: Point)
    requires r >= 1
    ensures At(x0, y0, p) in CirclePixels(x0, y0, r) <==> OnCircle(r, p)
  {
    RotationsMembers(x0, y0, Offsets(r), At(x0, y0, p));
    if At(x0, y0, p) in CirclePixels(x0, y0, r) {
      var i :| 0 <= i < |Offsets(r)| && At(x0, y0, p) in Quad(x0, y0, Offsets(r)[i]);
      QuadOfOffsets(x0, y0, r, Offsets(r)[i], p);
    }
    if OnCircle(r, p) {
      var o := TurnedToQuarter(r, p);
      InQuad(x0, y0, o, p, At(x0, y0, p));
    }
  }

  /** For a radius of zero or less: the ends of the two axes. */
  lemma NoRadius(x0: int, y0: int, r: int, p: Point)
    requires r <= 0
    ensures At(x0, y0, p) in CirclePixels(x0, y0, r) <==> (p.x == 0 && Abs(p.y) == -r) || (p.y == 0 && Abs(p.x) == -r)
  {
    assert Offsets(r) == [Point(0, -r)];
    RotationsMembers(x0, y0, Offsets(r), At(x0, y0, p));
    assert Quad(x0, y0, Offsets(r)[0]) == Quad(x0, y0, Point(0, -r));
  }
}
