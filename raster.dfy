/**
 * The `Rasterizer` of src/rasterizer.rs: an image together with Bresenham's `line` and
 * the two-half scanline `triangle`. The pixels each call visits are given, in visiting
 * order, by a reference definition (`LinePath`, `TriangleCells`); each method is proved
 * to leave the image as those points painted in order, off-image points skipped the
 * way `set(..).ok()` skips them.
 */
module Raster {
  import opened Math
  import opened Colors
  import opened Images

  /**
   * Callers keep coordinates below 2^60 in magnitude, so none of the `isize` sums,
   * differences and doublings of `line` and `triangle` can overflow.
   */
  const COORD_LIMIT: int := 0x1000_0000_0000_0000
  /** 2^63: an `isize` lies in -ISIZE_LIMIT .. ISIZE_LIMIT - 1. */
  const ISIZE_LIMIT: int := 0x8000_0000_0000_0000

  predicate InRange(p: Vec2<int>)
  {
    -COORD_LIMIT < p.x < COORD_LIMIT && -COORD_LIMIT < p.y < COORD_LIMIT
  }

  /** A point whose coordinates are `isize` values. */
  predicate IsizePoint(p: Vec2<int>)
  {
    -ISIZE_LIMIT <= p.x < ISIZE_LIMIT && -ISIZE_LIMIT <= p.y < ISIZE_LIMIT
  }

  /** `v as usize`: the two's-complement bits read as unsigned, that is v modulo 2^64. */
  function AsUsize(v: int): (r: nat)
    ensures r < USIZE_LIMIT
    ensures 0 <= v < USIZE_LIMIT ==> r == v
    ensures -ISIZE_LIMIT <= v < 0 ==> r == v + USIZE_LIMIT
  {
    v % USIZE_LIMIT
  }

  // ---------------------------------------------------------------- painting

  /** What the allocation bound of `Image::new` implies: an image with a row has fewer than 2^63 columns, and vice versa. */
  predicate Dims(width: nat, height: nat)
  {
    (height > 0 ==> width < ISIZE_LIMIT) && (width > 0 ==> height < ISIZE_LIMIT)
  }

  lemma {:induction false} ValidDims(img: Image)
    requires img.Valid()
    ensures Dims(img.width, img.height)
  {
    DimsOf(img.width, img.height, img.space.BytesPerPixel(), img.data.Length);
  }

  lemma {:induction false} DimsOf(width: nat, height: nat, bpp: nat, n: nat)
    requires n == width * height && n * bpp <= ISIZE_MAX && bpp >= 1
    ensures Dims(width, height)
  {
    MulGrows(n, bpp);
    MulGrows(width, height);
    MulGrows(height, width);
  }

  lemma {:induction false} MulGrows(a: nat, b: nat)
    ensures b >= 1 ==> a <= a * b && a <= b * a
  {
    if b >= 1 {
      assert a * b == a * (b - 1) + a;
    }
  }

  predicate OnImage(p: Vec2<int>, width: nat, height: nat)
  {
    0 <= p.x < width && 0 <= p.y < height
  }

  /**
   * Through the `as usize` casts, `set` accepts exactly the points inside the image: a
   * negative coordinate wraps to 2^63 or more, past every column and row.
   */
  lemma {:induction false} CastOnImage(p: Vec2<int>, width: nat, height: nat)
    requires Dims(width, height) && IsizePoint(p)
    ensures AsUsize(p.x) < width && AsUsize(p.y) < height <==> OnImage(p, width, height)
    ensures OnImage(p, width, height) ==> AsUsize(p.x) == p.x && AsUsize(p.y) == p.y
  {
  }

  /** The pixel vector after `set(x, y, c)`: pixel x + y*width becomes c when x and y are inside, else nothing changes. */
  function SetPixel(d: seq<Color>, width: nat, height: nat, x: nat, y: nat, c: Color): (r: seq<Color>)
    requires |d| == width * height
    ensures |r| == |d|
  {
    if x < width && y < height then
      IdxBound(x, y, width, height);
      d[Idx(x, y, width) := c]
    else d
  }

  /** `image.set(p.x as usize, p.y as usize, c).ok()`. */
  function Plot(d: seq<Color>, width: nat, height: nat, p: Vec2<int>, c: Color): (r: seq<Color>)
    requires |d| == width * height
    ensures |r| == |d|
  {
    SetPixel(d, width, height, AsUsize(p.x), AsUsize(p.y), c)
  }

  /** The pixel vector after plotting the points of `pts` in order. */
  function Paint(d: seq<Color>, width: nat, height: nat, pts: seq<Vec2<int>>, c: Color): (r: seq<Color>)
    requires |d| == width * height
    ensures |r| == |d|
    decreases |pts|
  {
    if pts == [] then d
    else Plot(Paint(d, width, height, pts[..|pts| - 1], c), width, height, pts[|pts| - 1], c)
  }

  /** Some point of `pts` lies on the image at buffer position k. */
  predicate Covered(pts: seq<Vec2<int>>, width: nat, height: nat, k: nat)
  {
    exists j :: 0 <= j < |pts| && OnImage(pts[j], width, height) && Idx(pts[j].x, pts[j].y, width) == k
  }

  /**
   * Painting gives colour c to exactly the buffer positions some on-image point covers;
   * every other pixel, including those of skipped off-image points, keeps its value.
   */
  lemma {:induction false} PaintCovers(d: seq<Color>, width: nat, height: nat, pts: seq<Vec2<int>>, c: Color, k: nat)
    requires |d| == width * height && Dims(width, height) && k < |d|
    requires forall j :: 0 <= j < |pts| ==> IsizePoint(pts[j])
    ensures Paint(d, width, height, pts, c)[k] == if Covered(pts, width, height, k) then c else d[k]
    decreases |pts|
  {
    if pts != [] {
      var n := |pts| - 1;
      var init, last := pts[..n], pts[n];
      PaintCovers(d, width, height, init, c, k);
      CastOnImage(last, width, height);
      if OnImage(last, width, height) && Idx(last.x, last.y, width) == k {
        assert Covered(pts, width, height, k) by {
          assert pts[n] == last;
        }
      } else {
        CoveredInit(pts, n, width, height, k);
      }
    }
  }

  /** Dropping a last point that does not cover k does not change whether k is covered. */
  lemma {:induction false} CoveredInit(pts: seq<Vec2<int>>, n: nat, width: nat, height: nat, k: nat)
    requires n < |pts| && n == |pts| - 1
    requires !(OnImage(pts[n], width, height) && Idx(pts[n].x, pts[n].y, width) == k)
    ensures Covered(pts, width, height, k) <==> Covered(pts[..n], width, height, k)
  {
    var init := pts[..n];
    if Covered(init, width, height, k) {
      var j :| 0 <= j < |init| && OnImage(init[j], width, height) && Idx(init[j].x, init[j].y, width) == k;
      assert pts[j] == init[j];
    }
    if Covered(pts, width, height, k) {
      var j :| 0 <= j < |pts| && OnImage(pts[j], width, height) && Idx(pts[j].x, pts[j].y, width) == k;
      assert j < n && init[j] == pts[j];
    }
  }

  /** Painting a concatenation is painting the first part, then the second. */
  lemma {:induction false} PaintAppend(d: seq<Color>, width: nat, height: nat, a: seq<Vec2<int>>, b: seq<Vec2<int>>, c: Color)
    requires |d| == width * height
    ensures Paint(d, width, height, a + b, c) == Paint(Paint(d, width, height, a, c), width, height, b, c)
    decreases |b|
  {
    if b == [] {
      AppendEmpty(a);
    } else {
      DropLastAppend(a, b);
      PaintAppend(d, width, height, a, b[..|b| - 1], c);
    }
  }

  /** Painting one more point of a sequence plots that point on what the shorter prefix painted. */
  lemma {:induction false} PaintSnoc(d: seq<Color>, width: nat, height: nat, pts: seq<Vec2<int>>, i: nat, i': nat, c: Color)
    requires |d| == width * height && i < |pts| && i' == i + 1
    ensures Paint(d, width, height, pts[..i'], c) == Plot(Paint(d, width, height, pts[..i], c), width, height, pts[i], c)
  {
    TakeSnoc(pts, i, i');
  }

  lemma {:induction false} TakeSnoc<T>(s: seq<T>, i: nat, i': nat)
    requires i < |s| && i' == i + 1
    ensures s[..i'] != [] && |s[..i']| - 1 == i && s[..i'][..i] == s[..i] && s[..i'][i] == s[i]
  {
  }

  /** Painting the whole of a sequence: the prefix as long as the sequence is the sequence. */
  lemma {:induction false} PaintAll(d: seq<Color>, width: nat, height: nat, pts: seq<Vec2<int>>, n: nat, c: Color)
    requires |d| == width * height && n == |pts|
    ensures Paint(d, width, height, pts[..n], c) == Paint(d, width, height, pts, c)
  {
    TakeAll(pts, n);
  }

  lemma {:induction false} TakeAll<T>(s: seq<T>, n: nat)
    requires n == |s|
    ensures s[..n] == s
  {
  }

  // ---------------------------------------------------------------- line

  /** The endpoints of `line` after rasterizer.rs:29-47: a steep line transposed, then ordered left to right. */
  datatype LineSetup = LineSetup(steep: bool, x0: int, y0: int, x1: int, y1: int)

  /** a and b are p0 and p1, in one order or the other. */
  predicate Ends(a: Vec2<int>, b: Vec2<int>, p0: Vec2<int>, p1: Vec2<int>)
  {
    (a == p0 && b == p1) || (a == p1 && b == p0)
  }

  function Order(steep: bool, x0: int, y0: int, x1: int, y1: int): LineSetup
  {
    if x0 > x1 then LineSetup(steep, x1, y1, x0, y0) else LineSetup(steep, x0, y0, x1, y1)
  }

  /**
   * After the set-up the line runs left to right with a slope of at most 1, and its two
   * endpoints, transposed back when steep, are the two points given.
   */
  function Setup(p0: Vec2<int>, p1: Vec2<int>): (s: LineSetup)
    ensures s.x0 <= s.x1 && Abs(s.y1 - s.y0) <= s.x1 - s.x0
    ensures s.steep <==> Abs(p0.x - p1.x) < Abs(p0.y - p1.y)
    ensures s.steep ==> Ends(Vec2(s.y0, s.x0), Vec2(s.y1, s.x1), p0, p1)
    ensures !s.steep ==> Ends(Vec2(s.x0, s.y0), Vec2(s.x1, s.y1), p0, p1)
  {
    var steep := Abs(p0.x - p1.x) < Abs(p0.y - p1.y);
    if steep then Order(true, p0.y, p0.x, p1.y, p1.x) else Order(false, p0.x, p0.y, p1.x, p1.y)
  }

  /**
   * The minor-axis offset of the i-th pixel: i*|dy|/dx rounded to the nearest integer,
   * halves rounded down. This is the count of `y` steps the error accumulator of
   * rasterizer.rs:56-75 has taken when pixel i is plotted.
   */
  function Rise(s: LineSetup, i: nat): nat
    requires s.x0 <= s.x1
  {
    var dx := s.x1 - s.x0;
    if dx == 0 then 0 else (2 * Abs(s.y1 - s.y0) * i + dx - 1) / (2 * dx)
  }

  /** The minor coordinate of the i-th pixel: it moves from y0 toward y1. */
  function Minor(s: LineSetup, i: nat): int
    requires s.x0 <= s.x1
  {
    if s.y1 > s.y0 then s.y0 + Rise(s, i) else s.y0 - Rise(s, i)
  }

  /** The i-th plotted pixel, transposed back when the line is steep (rasterizer.rs:62-70). */
  function LinePoint(s: LineSetup, i: nat): Vec2<int>
    requires s.x0 <= s.x1
  {
    if s.steep then Vec2(Minor(s, i), s.x0 + i) else Vec2(s.x0 + i, Minor(s, i))
  }

  /** The pixels `line(p0, p1, _)` plots, in plotting order: one per major-axis step from the left end. */
  function LinePath(p0: Vec2<int>, p1: Vec2<int>): seq<Vec2<int>>
  {
    SetupPath(Setup(p0, p1))
  }

  /** The pixels the loop of rasterizer.rs:61-77 plots for a set-up: one per step of the major axis. */
  function SetupPath(s: LineSetup): seq<Vec2<int>>
    requires s.x0 <= s.x1
  {
    seq(s.x1 - s.x0 + 1, i requires 0 <= i => LinePoint(s, i))
  }

  /** The error accumulator of rasterizer.rs:57-75 before pixel i is plotted: 2*|dy|*i - 2*dx*Rise(i). */
  function ErrorTerm(s: LineSetup, i: nat): int
    requires s.x0 <= s.x1
  {
    2 * Abs(s.y1 - s.y0) * i - 2 * (s.x1 - s.x0) * Rise(s, i)
  }

  /** The error term 2*|dy|*i - 2*dx*Rise(i) lies in (-dx, dx]: the bound the accumulator keeps. */
  lemma {:induction false} RiseBounds(s: LineSetup, i: nat)
    requires s.x0 < s.x1
    ensures -(s.x1 - s.x0) < 2 * Abs(s.y1 - s.y0) * i - 2 * (s.x1 - s.x0) * Rise(s, i) <= s.x1 - s.x0
  {
    var dx, a := s.x1 - s.x0, Abs(s.y1 - s.y0);
    var num, m := 2 * a * i + dx - 1, 2 * dx;
    var q := num / m;
    DivBounds(num, m);
    assert q == Rise(s, i);
  }

  /** Only one offset keeps the error term in (-dx, dx]. */
  lemma {:induction false} RiseUnique(s: LineSetup, i: nat, k: int)
    requires s.x0 < s.x1
    requires -(s.x1 - s.x0) < 2 * Abs(s.y1 - s.y0) * i - 2 * (s.x1 - s.x0) * k <= s.x1 - s.x0
    ensures k == Rise(s, i)
  {
    var dx, r := s.x1 - s.x0, Rise(s, i);
    RiseBounds(s, i);
    var m := 2 * dx;
    assert -m < m * (r - k) < m;
    MulZero(r - k, m);
  }

  lemma {:induction false} MulZero(d: int, m: int)
    requires m > 0 && -m < m * d < m
    ensures d == 0
  {
  }

  /**
   * One round of the loop of rasterizer.rs:71-75: add 2*|dy| to the error and, if it then
   * exceeds dx, take one minor step; the offset of pixel i + 1 is what that gives.
   */
  lemma {:induction false} RiseStep(s: LineSetup, i: nat, i': nat, e: int)
    requires s.x0 <= s.x1 && Abs(s.y1 - s.y0) <= s.x1 - s.x0 && i' == i + 1
    requires e == ErrorTerm(s, i)
    ensures var a, dx := Abs(s.y1 - s.y0), s.x1 - s.x0;
      && Rise(s, i') == (if e + 2 * a > dx then Rise(s, i) + 1 else Rise(s, i))
      && ErrorTerm(s, i') == if e + 2 * a > dx then e + 2 * a - 2 * dx else e + 2 * a
  {
    var dx, a, r := s.x1 - s.x0, Abs(s.y1 - s.y0), Rise(s, i);
    if dx > 0 {
      RiseBounds(s, i);
      assert 2 * a * i' == 2 * a * i + 2 * a;
      if e + 2 * a > dx {
        assert 2 * dx * (r + 1) == 2 * dx * r + 2 * dx;
        RiseUnique(s, i', r + 1);
      } else {
        RiseUnique(s, i', r);
      }
    }
  }

  /** The first pixel has offset 0 and the last offset |dy|: the line ends at its far endpoint. */
  lemma {:induction false} RiseEnds(s: LineSetup)
    requires s.x0 <= s.x1 && Abs(s.y1 - s.y0) <= s.x1 - s.x0
    ensures Rise(s, 0) == 0 && Rise(s, s.x1 - s.x0) == Abs(s.y1 - s.y0) && ErrorTerm(s, 0) == 0
  {
    if s.x0 < s.x1 {
      RiseUnique(s, 0, 0);
      var dx, a := s.x1 - s.x0, Abs(s.y1 - s.y0);
      assert 2 * a * dx - 2 * dx * a == 0;
      RiseUnique(s, dx, a);
    }
  }

  /** No pixel's offset passes the far endpoint's. */
  lemma {:induction false} RiseAtMost(s: LineSetup, i: nat)
    requires s.x0 <= s.x1 && Abs(s.y1 - s.y0) <= s.x1 - s.x0 && i <= s.x1 - s.x0
    ensures Rise(s, i) <= Abs(s.y1 - s.y0)
  {
    if s.x0 < s.x1 {
      var dx, a := s.x1 - s.x0, Abs(s.y1 - s.y0);
      RiseEnds(s);
      MulMonotone(2 * a, i, dx);
      DivMonotone(2 * a * i + dx - 1, 2 * a * dx + dx - 1, 2 * dx);
    }
  }

  lemma {:induction false} DivMonotone(x: nat, y: nat, m: nat)
    requires x <= y && m > 0
    ensures x / m <= y / m
  {
    DivBounds(x, m);
    DivBounds(y, m);
    assert (y / m) * m + m == (y / m + 1) * m;
    MulStrict(x / m, y / m + 1, m);
  }

  lemma {:induction false} MulMonotone(a: nat, i: nat, j: nat)
    requires i <= j
    ensures a * i <= a * j
  {
    assert a * j == a * i + a * (j - i);
  }

  /** `line(p, p, _)` plots exactly one pixel, at p. */
  lemma {:induction false} LineOfOnePoint(p: Vec2<int>)
    ensures LinePath(p, p) == [p]
  {
    var s := Setup(p, p);
    RiseEnds(s);
    assert LinePath(p, p)[0] == LinePoint(s, 0);
  }

  /** The line has max(|dx|, |dy|) + 1 pixels, one per step along the longer axis. */
  lemma {:induction false} LineLength(p0: Vec2<int>, p1: Vec2<int>)
    ensures |LinePath(p0, p1)| == Max(Abs(p1.x - p0.x), Abs(p1.y - p0.y)) + 1
  {
  }

  /** The first and the last pixel plotted are the two endpoints. */
  lemma {:induction false} LineEndpoints(p0: Vec2<int>, p1: Vec2<int>)
    ensures var path := LinePath(p0, p1);
      Ends(path[0], path[|path| - 1], p0, p1)
  {
    var s := Setup(p0, p1);
    var path, dx := LinePath(p0, p1), s.x1 - s.x0;
    RiseEnds(s);
    assert path[0] == LinePoint(s, 0);
    assert path[dx] == LinePoint(s, dx);
  }

  /**
   * Consecutive pixels advance the major coordinate by exactly one and the minor one by
   * at most one: the line is 8-connected.
   */
  lemma {:induction false} LineSteps(p0: Vec2<int>, p1: Vec2<int>, i: nat)
    requires i + 1 < |LinePath(p0, p1)|
    ensures var s, a, b := Setup(p0, p1), LinePath(p0, p1)[i], LinePath(p0, p1)[i + 1];
      if s.steep then b.y == a.y + 1 && Abs(b.x - a.x) <= 1 else b.x == a.x + 1 && Abs(b.y - a.y) <= 1
  {
    var s := Setup(p0, p1);
    var path, i' := LinePath(p0, p1), i + 1;
    var e := 2 * Abs(s.y1 - s.y0) * i - 2 * (s.x1 - s.x0) * Rise(s, i);
    RiseStep(s, i, i', e);
    assert path[i] == LinePoint(s, i) && path[i'] == LinePoint(s, i');
  }

  /** No pixel is plotted twice. */
  lemma {:induction false} LineDistinct(p0: Vec2<int>, p1: Vec2<int>, i: nat, j: nat)
    requires i < j < |LinePath(p0, p1)|
    ensures LinePath(p0, p1)[i] != LinePath(p0, p1)[j]
  {
    var s := Setup(p0, p1);
    assert LinePath(p0, p1)[i] == LinePoint(s, i) && LinePath(p0, p1)[j] == LinePoint(s, j);
  }

  /** Drawing from p1 to p0 plots the same pixels, in the same order, as from p0 to p1. */
  lemma {:induction false} LineSymmetric(p0: Vec2<int>, p1: Vec2<int>)
    ensures LinePath(p0, p1) == LinePath(p1, p0)
  {
    assert Setup(p0, p1) == Setup(p1, p0);
  }

  /** Every pixel lies in the bounding box of the two endpoints. */
  lemma {:induction false} LineInBox(p0: Vec2<int>, p1: Vec2<int>, i: nat)
    requires i < |LinePath(p0, p1)|
    ensures var q := LinePath(p0, p1)[i];
      Min(p0.x, p1.x) <= q.x <= Max(p0.x, p1.x) && Min(p0.y, p1.y) <= q.y <= Max(p0.y, p1.y)
  {
    var s := Setup(p0, p1);
    RiseAtMost(s, i);
    assert LinePath(p0, p1)[i] == LinePoint(s, i);
  }

  // ---------------------------------------------------------------- triangle

  datatype Triple = Triple(t0: Vec2<int>, t1: Vec2<int>, t2: Vec2<int>)

  predicate SortedByY(t: Triple)
  {
    t.t0.y <= t.t1.y <= t.t2.y
  }

  /** The three compare-and-swaps of rasterizer.rs:95-103. */
  function Sort3(t0: Vec2<int>, t1: Vec2<int>, t2: Vec2<int>): (r: Triple)
    ensures SortedByY(r)
  {
    var a := if t0.y > t1.y then Triple(t1, t0, t2) else Triple(t0, t1, t2);
    var b := if a.t0.y > a.t2.y then Triple(a.t2, a.t1, a.t0) else a;
    if b.t1.y > b.t2.y then Triple(b.t0, b.t2, b.t1) else b
  }

  /** The sorted triple is a permutation of the input and runs from the lowest y to the highest. */
  lemma {:induction false} Sort3Permutes(t0: Vec2<int>, t1: Vec2<int>, t2: Vec2<int>)
    ensures var r := Sort3(t0, t1, t2);
      && multiset{r.t0, r.t1, r.t2} == multiset{t0, t1, t2}
      && r.t0.y == Min(Min(t0.y, t1.y), t2.y) && r.t2.y == Max(Max(t0.y, t1.y), t2.y)
  {
  }

  /** rasterizer.rs:108: row i belongs to the part between t1 and t2, always so when t0 and t1 share a row. */
  predicate SecondHalf(t: Triple, i: int)
  {
    i > t.t1.y - t.t0.y || t.t1.y == t.t0.y
  }

  /** The divisor `segment_height` of rasterizer.rs:109-113: positive on every row the loop visits. */
  function SegmentHeight(t: Triple, i: int): (h: int)
    requires SortedByY(t) && 0 <= i < t.t2.y - t.t0.y
    ensures h > 0
  {
    if SecondHalf(t, i) then t.t2.y - t.t1.y else t.t1.y - t.t0.y
  }

  /**
   * rasterizer.rs:114-124: the point a on the side t0-t2 and the point b on the side the
   * row crosses, with `as isize` of the f64 products taken as exact truncating division.
   */
  function RowEnds(t: Triple, i: int): (ab: (Vec2<int>, Vec2<int>))
    requires SortedByY(t) && 0 <= i < t.t2.y - t.t0.y
  {
    var total, seg := t.t2.y - t.t0.y, SegmentHeight(t, i);
    var minus := if SecondHalf(t, i) then t.t1.y - t.t0.y else 0;
    var a := Add2(t.t0, ScaleFraction(Sub2(t.t2, t.t0), i, total));
    var b := if SecondHalf(t, i) then Add2(t.t1, ScaleFraction(Sub2(t.t2, t.t1), i - minus, seg))
             else Add2(t.t0, ScaleFraction(Sub2(t.t1, t.t0), i - minus, seg));
    (a, b)
  }

  /** rasterizer.rs:126-132: row i fills y = t0.y + i from the smaller x of a and b to the larger, inclusive. */
  function RowCells(t: Triple, i: int): seq<Vec2<int>>
    requires SortedByY(t) && 0 <= i < t.t2.y - t.t0.y
  {
    var ab := RowEnds(t, i);
    Span(Min(ab.0.x, ab.1.x), Max(ab.0.x, ab.1.x), t.t0.y + i)
  }

  /** The cells lo, lo + 1, .., hi of line y. */
  function Span(lo: int, hi: int, y: int): seq<Vec2<int>>
  {
    seq(if lo <= hi then hi - lo + 1 else 0, j => Vec2(lo + j, y))
  }

  /** The cells of rows 0 .. n-1 in the order the loops of rasterizer.rs:107-133 visit them. */
  function Rows(t: Triple, n: nat): seq<Vec2<int>>
    requires SortedByY(t) && n <= t.t2.y - t.t0.y
  {
    if n == 0 then [] else Rows(t, n - 1) + RowCells(t, n - 1)
  }

  /** The row ends of rasterizer.rs:108-124, with each intermediate value named. */
  lemma {:induction false} RowEndsAre(t: Triple, i: int, total: int, secondHalf: bool, seg: int, minus: int)
    requires SortedByY(t) && 0 <= i < t.t2.y - t.t0.y && total == t.t2.y - t.t0.y
    requires secondHalf == (i > t.t1.y - t.t0.y || t.t1.y == t.t0.y)
    requires seg == (if secondHalf then t.t2.y - t.t1.y else t.t1.y - t.t0.y)
    requires minus == (if secondHalf then t.t1.y - t.t0.y else 0)
    ensures total > 0 && seg > 0 && 0 <= i - minus <= seg
    ensures RowEnds(t, i) == (Add2(t.t0, ScaleFraction(Sub2(t.t2, t.t0), i, total)),
      if secondHalf then Add2(t.t1, ScaleFraction(Sub2(t.t2, t.t1), i - minus, seg))
      else Add2(t.t0, ScaleFraction(Sub2(t.t1, t.t0), i - minus, seg)))
  {
  }

  /** The loop of rasterizer.rs:107 ends after total_height rows: all cells. */
  lemma {:induction false} CellsAre(t: Triple, n: nat)
    requires SortedByY(t) && n == t.t2.y - t.t0.y
    ensures Cells(t) == Rows(t, n)
  {
  }

  /** Painting row i after rows 0 .. i-1 paints rows 0 .. i. */
  lemma {:induction false} RowPainted(d0: seq<Color>, width: nat, height: nat, t: Triple, i: nat, i': nat,
                                      before: seq<Color>, after: seq<Color>, c: Color)
    requires |d0| == width * height && SortedByY(t) && i < t.t2.y - t.t0.y && i' == i + 1
    requires before == Paint(d0, width, height, Rows(t, i), c)
    requires after == Paint(before, width, height, RowCells(t, i), c)
    ensures after == Paint(d0, width, height, Rows(t, i'), c)
  {
    PaintAppend(d0, width, height, Rows(t, i), RowCells(t, i), c);
    RowsStep(t, i, i');
  }

  /** Every cell of a sorted triangle, row by row. */
  function Cells(t: Triple): seq<Vec2<int>>
    requires SortedByY(t)
  {
    Rows(t, t.t2.y - t.t0.y)
  }

  /** The pixels `triangle(t0, t1, t2, _)` plots, in plotting order. */
  function TriangleCells(t0: Vec2<int>, t1: Vec2<int>, t2: Vec2<int>): seq<Vec2<int>>
  {
    Cells(Sort3(t0, t1, t2))
  }

  lemma {:induction false} RowsStep(t: Triple, n: nat, n': nat)
    requires SortedByY(t) && n < t.t2.y - t.t0.y && n' == n + 1
    ensures Rows(t, n') == Rows(t, n) + RowCells(t, n)
  {
  }

  /** Row i is the inclusive span between the x of a and the x of b, on line t0.y + i. */
  lemma {:induction false} RowIsSpan(t: Triple, i: int)
    requires SortedByY(t) && 0 <= i < t.t2.y - t.t0.y
    ensures var ab := RowEnds(t, i);
      forall p :: p in RowCells(t, i) <==> p.y == t.t0.y + i && Min(ab.0.x, ab.1.x) <= p.x <= Max(ab.0.x, ab.1.x)
  {
    var ab, row := RowEnds(t, i), RowCells(t, i);
    var lo := Min(ab.0.x, ab.1.x);
    forall p: Vec2<int> | p.y == t.t0.y + i && lo <= p.x <= Max(ab.0.x, ab.1.x)
      ensures p in row
    {
      assert row[p.x - lo] == p;
    }
  }

  /** Cells of rows 0 .. n-1 lie on lines t0.y .. t0.y + n - 1. */
  lemma {:induction false} RowsY(t: Triple, n: nat)
    requires SortedByY(t) && n <= t.t2.y - t.t0.y
    ensures forall j :: 0 <= j < |Rows(t, n)| ==> t.t0.y <= Rows(t, n)[j].y < t.t0.y + n
  {
    if n > 0 {
      var m := n - 1;
      RowsY(t, m);
      RowsStep(t, m, n);
      var prev: seq<Vec2<int>>, row: seq<Vec2<int>> := Rows(t, m), RowCells(t, m);
      forall j: int | 0 <= j < |prev + row|
        ensures t.t0.y <= (prev + row)[j].y < t.t0.y + n
      {
        if j >= |prev| {
          assert (prev + row)[j] == row[j - |prev|];
        } else {
          assert (prev + row)[j] == prev[j];
        }
      }
    }
  }

  /**
   * `triangle` fills only the lines from the lowest vertex's up to, but not including,
   * the highest vertex's.
   */
  lemma {:induction false} TriangleRows(t0: Vec2<int>, t1: Vec2<int>, t2: Vec2<int>)
    ensures var cells, lo, hi := TriangleCells(t0, t1, t2), Min(Min(t0.y, t1.y), t2.y), Max(Max(t0.y, t1.y), t2.y);
      forall j :: 0 <= j < |cells| ==> lo <= cells[j].y < hi
  {
    var t := Sort3(t0, t1, t2);
    Sort3Permutes(t0, t1, t2);
    RowsY(t, t.t2.y - t.t0.y);
  }

  /** A triangle draws nothing exactly when its three vertices share one line. */
  lemma {:induction false} FlatTriangle(t0: Vec2<int>, t1: Vec2<int>, t2: Vec2<int>)
    ensures TriangleCells(t0, t1, t2) == [] <==> t0.y == t1.y == t2.y
  {
    var t := Sort3(t0, t1, t2);
    Sort3Permutes(t0, t1, t2);
    var n := t.t2.y - t.t0.y;
    if n > 0 {
      var m := n - 1;
      RowsStep(t, m, n);
      assert RowCells(t, m) != [];
    }
  }

  /** u is t with two vertices of one line exchanged (t0 with t1, or t1 with t2). */
  predicate TieSwap(t: Triple, u: Triple)
  {
    || (t.t0.y == t.t1.y && u == Triple(t.t1, t.t0, t.t2))
    || (t.t1.y == t.t2.y && u == Triple(t.t0, t.t2, t.t1))
  }

  /**
   * Exchanging two vertices of one line exchanges a and b on every row (the two
   * interpolations coincide in that case), so the span is the same.
   */
  lemma {:induction false} TieSwapRow(t: Triple, u: Triple, i: int)
    requires SortedByY(t) && TieSwap(t, u) && 0 <= i < t.t2.y - t.t0.y
    ensures SortedByY(u) && u.t2.y - u.t0.y == t.t2.y - t.t0.y
    ensures RowCells(t, i) == RowCells(u, i)
  {
    if t.t0.y == t.t1.y && u == Triple(t.t1, t.t0, t.t2) {
      TieLowEnds(t, u, i);
    } else {
      TieHighEnds(t, u, i);
    }
    var ab, uv := RowEnds(t, i), RowEnds(u, i);
    assert Min(ab.0.x, ab.1.x) == Min(uv.0.x, uv.1.x) && Max(ab.0.x, ab.1.x) == Max(uv.0.x, uv.1.x);
  }

  lemma {:induction false} TieLowEnds(t: Triple, u: Triple, i: int)
    requires SortedByY(t) && t.t0.y == t.t1.y && u == Triple(t.t1, t.t0, t.t2) && 0 <= i < t.t2.y - t.t0.y
    ensures SortedByY(u) && 0 <= i < u.t2.y - u.t0.y
    ensures RowEnds(u, i).0 == RowEnds(t, i).1 && RowEnds(u, i).1 == RowEnds(t, i).0
  {
    var h := t.t2.y - t.t0.y;
    assert SecondHalf(t, i) && SecondHalf(u, i);
    assert SegmentHeight(t, i) == h && SegmentHeight(u, i) == h;
  }

  lemma {:induction false} TieHighEnds(t: Triple, u: Triple, i: int)
    requires SortedByY(t) && t.t1.y == t.t2.y && u == Triple(t.t0, t.t2, t.t1) && 0 <= i < t.t2.y - t.t0.y
    ensures SortedByY(u) && 0 <= i < u.t2.y - u.t0.y
    ensures RowEnds(u, i).0 == RowEnds(t, i).1 && RowEnds(u, i).1 == RowEnds(t, i).0
  {
    var h := t.t2.y - t.t0.y;
    assert !SecondHalf(t, i) && !SecondHalf(u, i);
    assert SegmentHeight(t, i) == h && SegmentHeight(u, i) == h;
  }

  lemma {:induction false} TieSwapRows(t: Triple, u: Triple, n: nat)
    requires SortedByY(t) && TieSwap(t, u) && n <= t.t2.y - t.t0.y
    ensures SortedByY(u) && u.t2.y - u.t0.y == t.t2.y - t.t0.y
    ensures Rows(t, n) == Rows(u, n)
  {
    if n > 0 {
      var m := n - 1;
      TieSwapRows(t, u, m);
      TieSwapRow(t, u, m);
      RowsStep(t, m, n);
      RowsStep(u, m, n);
    } else {
      assert u.t0.y == t.t0.y && u.t2.y == t.t2.y;
    }
  }

  /**
   * Two sortings of the same three vertices give the same cells: they are equal, differ
   * by exchanging two vertices of one line, or all three vertices share a line and
   * nothing is drawn.
   */
  lemma {:induction false} SameCells(t: Triple, u: Triple)
    requires SortedByY(t) && SortedByY(u)
    requires u == t || TieSwap(t, u) || (t.t0.y == t.t2.y && u.t0.y == u.t2.y)
    ensures Cells(t) == Cells(u)
  {
    if TieSwap(t, u) {
      var n := t.t2.y - t.t0.y;
      TieSwapRows(t, u, n);
      CellsAre(t, n);
      CellsAre(u, n);
    } else if u != t {
      FlatCells(t);
      FlatCells(u);
    }
  }

  lemma {:induction false} FlatCells(t: Triple)
    requires SortedByY(t) && t.t0.y == t.t2.y
    ensures Cells(t) == []
  {
  }

  /**
   * The filled cells do not depend on the order in which the three vertices are given
   * (the design goal stated at rasterizer.rs:82).
   */
  lemma {:induction false} TriangleOrderFree(t0: Vec2<int>, t1: Vec2<int>, t2: Vec2<int>)
    ensures TriangleCells(t0, t1, t2) == TriangleCells(t1, t0, t2)
    ensures TriangleCells(t0, t1, t2) == TriangleCells(t0, t2, t1)
    ensures TriangleCells(t0, t1, t2) == TriangleCells(t2, t1, t0)
    ensures TriangleCells(t0, t1, t2) == TriangleCells(t1, t2, t0)
    ensures TriangleCells(t0, t1, t2) == TriangleCells(t2, t0, t1)
  {
    var t := Sort3(t0, t1, t2);
    SortPermuted(t0, t1, t2, t1, t0, t2);
    SameCells(t, Sort3(t1, t0, t2));
    SortPermuted(t0, t1, t2, t0, t2, t1);
    SameCells(t, Sort3(t0, t2, t1));
    SortPermuted(t0, t1, t2, t2, t1, t0);
    SameCells(t, Sort3(t2, t1, t0));
    SortPermuted(t0, t1, t2, t1, t2, t0);
    SameCells(t, Sort3(t1, t2, t0));
    SortPermuted(t0, t1, t2, t2, t0, t1);
    SameCells(t, Sort3(t2, t0, t1));
  }

  /** Sorting a reordering of the same vertices gives the same triple up to exchanging vertices of one line. */
  lemma {:induction false} SortPermuted(t0: Vec2<int>, t1: Vec2<int>, t2: Vec2<int>, s0: Vec2<int>, s1: Vec2<int>, s2: Vec2<int>)
    requires [s0, s1, s2] in {[t1, t0, t2], [t0, t2, t1], [t2, t1, t0], [t1, t2, t0], [t2, t0, t1]}
    ensures var t, u := Sort3(t0, t1, t2), Sort3(s0, s1, s2);
      u == t || TieSwap(t, u) || (t.t0.y == t.t2.y && u.t0.y == u.t2.y)
  {
  }

  // ---------------------------------------------------------------- ranges

  /** With endpoints inside the coordinate bound, every pixel of the line has `isize` coordinates. */
  lemma {:induction false} LineIsize(p0: Vec2<int>, p1: Vec2<int>)
    requires InRange(p0) && InRange(p1)
    ensures forall j :: 0 <= j < |LinePath(p0, p1)| ==> IsizePoint(LinePath(p0, p1)[j])
  {
    forall j | 0 <= j < |LinePath(p0, p1)|
      ensures IsizePoint(LinePath(p0, p1)[j])
    {
      LineInBox(p0, p1, j);
    }
  }

  /** A truncated fraction num/den <= 1 of a vector is no longer than the vector, component by component. */
  lemma {:induction false} ScaleWithin(v: Vec2<int>, num: int, den: int)
    requires 0 <= num <= den && den > 0
    ensures Abs(ScaleFraction(v, num, den).x) <= Abs(v.x)
    ensures Abs(ScaleFraction(v, num, den).y) <= Abs(v.y)
  {
    var r := ScaleFraction(v, num, den);
    MulSigns(v.x, num, v.x * num);
    assert Abs(v.x * num) == Abs(v.x) * num;
    MulMonotone(Abs(v.x), num, den);
    MulCancelLe(Abs(r.x), Abs(v.x), den);
    MulSigns(v.y, num, v.y * num);
    assert Abs(v.y * num) == Abs(v.y) * num;
    MulMonotone(Abs(v.y), num, den);
    MulCancelLe(Abs(r.y), Abs(v.y), den);
  }

  /** The row ends of a triangle with vertices inside the coordinate bound stay within three times it. */
  lemma {:induction false} RowEndsBound(t: Triple, i: int)
    requires SortedByY(t) && 0 <= i < t.t2.y - t.t0.y
    requires InRange(t.t0) && InRange(t.t1) && InRange(t.t2)
    ensures Abs(RowEnds(t, i).0.x) < 3 * COORD_LIMIT && Abs(RowEnds(t, i).1.x) < 3 * COORD_LIMIT
  {
    var total, seg := t.t2.y - t.t0.y, SegmentHeight(t, i);
    var minus := if SecondHalf(t, i) then t.t1.y - t.t0.y else 0;
    ScaleWithin(Sub2(t.t2, t.t0), i, total);
    if SecondHalf(t, i) {
      ScaleWithin(Sub2(t.t2, t.t1), i - minus, seg);
    } else {
      ScaleWithin(Sub2(t.t1, t.t0), i - minus, seg);
    }
  }

  lemma {:induction false} RowsIsize(t: Triple, n: nat)
    requires SortedByY(t) && n <= t.t2.y - t.t0.y
    requires InRange(t.t0) && InRange(t.t1) && InRange(t.t2)
    ensures forall j :: 0 <= j < |Rows(t, n)| ==> IsizePoint(Rows(t, n)[j])
  {
    if n > 0 {
      var m := n - 1;
      RowsIsize(t, m);
      RowsStep(t, m, n);
      RowEndsBound(t, m);
      var prev: seq<Vec2<int>>, row: seq<Vec2<int>> := Rows(t, m), RowCells(t, m);
      forall j: int | 0 <= j < |prev + row|
        ensures IsizePoint((prev + row)[j])
      {
        if j >= |prev| {
          assert (prev + row)[j] == row[j - |prev|];
        } else {
          assert (prev + row)[j] == prev[j];
        }
      }
    }
  }

  /** With vertices inside the coordinate bound, every cell of the triangle has `isize` coordinates. */
  lemma {:induction false} TriangleIsize(t0: Vec2<int>, t1: Vec2<int>, t2: Vec2<int>)
    requires InRange(t0) && InRange(t1) && InRange(t2)
    ensures forall j :: 0 <= j < |TriangleCells(t0, t1, t2)| ==> IsizePoint(TriangleCells(t0, t1, t2)[j])
  {
    var t := Sort3(t0, t1, t2);
    assert t.t0 in {t0, t1, t2} && t.t1 in {t0, t1, t2} && t.t2 in {t0, t1, t2};
    RowsIsize(t, t.t2.y - t.t0.y);
  }

  /**
   * `line` changes exactly the on-image pixels of its path, to the colour drawn; every
   * other pixel, those of off-image path points included, keeps its value.
   */
  lemma {:induction false} LineEffect(d: seq<Color>, width: nat, height: nat, p0: Vec2<int>, p1: Vec2<int>, c: Color, k: nat)
    requires |d| == width * height && Dims(width, height) && k < |d| && InRange(p0) && InRange(p1)
    ensures Paint(d, width, height, LinePath(p0, p1), c)[k] == if Covered(LinePath(p0, p1), width, height, k) then c else d[k]
  {
    LineIsize(p0, p1);
    PaintCovers(d, width, height, LinePath(p0, p1), c, k);
  }

  /** `triangle` changes exactly the on-image pixels among its cells, to the colour drawn. */
  lemma {:induction false} TriangleEffect(d: seq<Color>, width: nat, height: nat, t0: Vec2<int>, t1: Vec2<int>, t2: Vec2<int>, c: Color, k: nat)
    requires |d| == width * height && Dims(width, height) && k < |d| && InRange(t0) && InRange(t1) && InRange(t2)
    ensures var cells := TriangleCells(t0, t1, t2);
      Paint(d, width, height, cells, c)[k] == if Covered(cells, width, height, k) then c else d[k]
  {
    TriangleIsize(t0, t1, t2);
    PaintCovers(d, width, height, TriangleCells(t0, t1, t2), c, k);
  }

  // ---------------------------------------------------------------- the rasterizer

  /** `Rasterizer`: owns one image and draws into it. */
  class Rasterizer {
    const image: Image

    ghost predicate Valid()
      reads image.data
    {
      image.Valid()
    }

    /** `Rasterizer::new`: a fresh image of `T::new()` pixels. */
    constructor(space: ColorSpace, width: nat, height: nat)
      requires width < USIZE_LIMIT && height < USIZE_LIMIT
      requires width * height * space.BytesPerPixel() <= ISIZE_MAX
      ensures Valid() && fresh(image) && fresh(image.data)
      ensures image.space == space && image.width == width && image.height == height
      ensures forall k :: 0 <= k < image.data.Length ==> image.data[k] == space.Zero()
    {
      image := new Image(space, width, height);
    }

    /** `clear`: every pixel becomes `c`. */
    method Clear(c: Color)
      requires Valid() && c.Space() == image.space
      modifies image.data
      ensures Valid()
      ensures forall k :: 0 <= k < image.data.Length ==> image.data[k] == c
    {
      image.Clear(c);
    }

    /** `self.image.set(x as usize, y as usize, color).ok()`: a refused point is dropped. */
    method SetOk(p: Vec2<int>, color: Color)
      requires Valid() && color.Space() == image.space
      modifies image.data
      ensures Valid()
      ensures image.data[..] == Plot(old(image.data[..]), image.width, image.height, p, color)
    {
      var _ := image.Set(AsUsize(p.x), AsUsize(p.y), color);
    }

    /**
     * `line`: Bresenham's algorithm with an integer error term. Each point of `LinePath`
     * is handed to `Image::set` after an `as usize` cast; the refused ones are dropped.
     */
    method Line(p0: Vec2<int>, p1: Vec2<int>, color: Color)
      requires Valid() && color.Space() == image.space && InRange(p0) && InRange(p1)
      modifies image.data
      ensures Valid()
      ensures image.data[..] == Paint(old(image.data[..]), image.width, image.height, LinePath(p0, p1), color)
    {
      var x0, y0, x1, y1 := p0.x, p0.y, p1.x, p1.y;
      var steep := Abs(x0 - x1) < Abs(y0 - y1);
      if steep {
        x0, y0 := y0, x0;
        x1, y1 := y1, x1;
      }
      if x0 > x1 {
        x0, x1 := x1, x0;
        y0, y1 := y1, y0;
      }
      assert LineSetup(steep, x0, y0, x1, y1) == Setup(p0, p1);
      Sweep(steep, x0, y0, x1, y1, color);
    }

    /**
     * The loop of `line` (rasterizer.rs:48-77) once the end points are transposed and ordered:
     * x walks from x0 to x1 and the error accumulator decides each step of y.
     */
    method Sweep(steep: bool, x0: int, y0: int, x1: int, y1: int, color: Color)
      requires Valid() && color.Space() == image.space
      requires x0 <= x1 && Abs(y1 - y0) <= x1 - x0
      modifies image.data
      ensures Valid()
      ensures image.data[..] == Paint(old(image.data[..]), image.width, image.height, SetupPath(LineSetup(steep, x0, y0, x1, y1)), color)
    {
      ghost var s := LineSetup(steep, x0, y0, x1, y1);
      ghost var path := SetupPath(s);
      ghost var d0 := image.data[..];
      var dx := x1 - x0;
      var dy := y1 - y0;
      var dxMul2 := dx * 2;
      var derror2 := Abs(dy) * 2;
      var error2 := 0;
      var x := x0;
      var y := y0;
      ghost var i: nat := 0;
      RiseEnds(s);
      while x <= x1
        invariant Valid() && x == x0 + i && i <= dx + 1
        invariant y == Minor(s, i) && error2 == ErrorTerm(s, i)
        invariant image.data[..] == Paint(d0, image.width, image.height, path[..i], color)
        decreases x1 + 1 - x
      {
        ghost var i' := i + 1;
        assert path[i] == if steep then Vec2(y, x) else Vec2(x, y);
        if steep {
          SetOk(Vec2(y, x), color);
        } else {
          SetOk(Vec2(x, y), color);
        }
        PaintSnoc(d0, image.width, image.height, path, i, i', color);
        RiseStep(s, i, i', error2);
        error2 := error2 + derror2;
        if error2 > dx {
          y := y + if y1 > y0 then 1 else -1;
          error2 := error2 - dxMul2;
        }
        x := x + 1;
        i := i';
      }
      PaintAll(d0, image.width, image.height, path, i, color);
    }

    /**
     * `triangle`: sort the vertices by y, then fill one row per i in 0..total_height, from the
     * long edge to the short edge; the row is `RowCells`.
     */
    method Triangle(t0: Vec2<int>, t1: Vec2<int>, t2: Vec2<int>, color: Color)
      requires Valid() && color.Space() == image.space && InRange(t0) && InRange(t1) && InRange(t2)
      modifies image.data
      ensures Valid()
      ensures image.data[..] == Paint(old(image.data[..]), image.width, image.height, TriangleCells(t0, t1, t2), color)
    {
      var v0, v1, v2 := t0, t1, t2;
      if v0.y > v1.y {
        v0, v1 := v1, v0;
      }
      if v0.y > v2.y {
        v0, v2 := v2, v0;
      }
      if v1.y > v2.y {
        v1, v2 := v2, v1;
      }
      assert Triple(v0, v1, v2) == Sort3(t0, t1, t2);
      Fill(v0, v1, v2, color);
    }

    /**
     * The row loop of `triangle` (rasterizer.rs:105-133) once the vertices are sorted by y:
     * `for i in 0..total_height`, one row per round.
     */
    method Fill(v0: Vec2<int>, v1: Vec2<int>, v2: Vec2<int>, color: Color)
      requires Valid() && color.Space() == image.space && SortedByY(Triple(v0, v1, v2))
      modifies image.data
      ensures Valid()
      ensures image.data[..] == Paint(old(image.data[..]), image.width, image.height, Cells(Triple(v0, v1, v2)), color)
    {
      ghost var t := Triple(v0, v1, v2);
      ghost var d0 := image.data[..];
      var totalHeight := v2.y - v0.y;
      var i := 0;
      while i < totalHeight
        invariant Valid() && 0 <= i <= totalHeight
        invariant image.data[..] == Paint(d0, image.width, image.height, Rows(t, i), color)
      {
        ghost var before := image.data[..];
        FillRow(v0, v1, v2, i, color);
        var i' := i + 1;
        RowPainted(d0, image.width, image.height, t, i, i', before, image.data[..], color);
        i := i';
      }
      CellsAre(t, i);
    }

    /**
     * Row i of `triangle` (rasterizer.rs:108-132): its ends on the long edge and on the short
     * edge of its half, put in order, then the cells between them.
     */
    method FillRow(v0: Vec2<int>, v1: Vec2<int>, v2: Vec2<int>, i: int, color: Color)
      requires Valid() && color.Space() == image.space && SortedByY(Triple(v0, v1, v2)) && 0 <= i < v2.y - v0.y
      modifies image.data
      ensures Valid()
      ensures image.data[..] == Paint(old(image.data[..]), image.width, image.height, RowCells(Triple(v0, v1, v2), i), color)
    {
      ghost var t := Triple(v0, v1, v2);
      var totalHeight := v2.y - v0.y;
      var secondHalf := i > v1.y - v0.y || v1.y == v0.y;
      var segmentHeight := if secondHalf then v2.y - v1.y else v1.y - v0.y;
      var minusHeight := if secondHalf then v1.y - v0.y else 0;
      RowEndsAre(t, i, totalHeight, secondHalf, segmentHeight, minusHeight);
      var a := Add2(v0, ScaleFraction(Sub2(v2, v0), i, totalHeight));
      var b := if secondHalf then Add2(v1, ScaleFraction(Sub2(v2, v1), i - minusHeight, segmentHeight))
               else Add2(v0, ScaleFraction(Sub2(v1, v0), i - minusHeight, segmentHeight));
      assert (a, b) == RowEnds(t, i);
      if a.x > b.x {
        a, b := b, a;
      }
      FillSpan(a.x, b.x, v0.y + i, color);
    }

    /** The inner loop of `triangle` (rasterizer.rs:130-132): one row, from x = lo to x = hi inclusive. */
    method FillSpan(lo: int, hi: int, y: int, color: Color)
      requires Valid() && color.Space() == image.space && lo <= hi + 1
      modifies image.data
      ensures Valid()
      ensures image.data[..] == Paint(old(image.data[..]), image.width, image.height, Span(lo, hi, y), color)
    {
      ghost var row := Span(lo, hi, y);
      ghost var d0 := image.data[..];
      ghost var j: nat := 0;
      for x := lo to hi + 1
        invariant Valid() && x == lo + j && j <= |row|
        invariant image.data[..] == Paint(d0, image.width, image.height, row[..j], color)
      {
        assert row[j] == Vec2(x, y);
        SetOk(Vec2(x, y), color);
        PaintSnoc(d0, image.width, image.height, row, j, j + 1, color);
        j := j + 1;
      }
      PaintAll(d0, image.width, image.height, row, j, color);
    }
  }
}
