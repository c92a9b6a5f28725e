/** The arithmetic of `create_pdf_from_images`: fitting an image of `w` by `h`
    pixels onto an A4 page at 300 DPI while keeping its aspect ratio, then centring
    it. The floating-point ratios of the source are modelled by exact integer
    cross-multiplication. */
module Geometry {

  /** The canvas: A4 at 300 DPI. */
  const A4_WIDTH := 2480
  const A4_HEIGHT := 3508

  /** Decoded images have positive dimensions. */
  type Pos = n: int | n > 0 witness 1

  function Dist(a: int, b: int): nat {
    if a >= b then a - b else b - a
  }

  /** Python's `round` applied to the exact quotient `n / d`: the nearest integer,
      ties going to the even neighbour. */
  function RoundHalfEven(n: int, d: int): (r: int)
    requires d > 0
    ensures 2 * Dist(r * d, n) <= d
    ensures 2 * Dist(r * d, n) == d ==> r % 2 == 0
  {
    var q, m := n / d, n % d;
    assert (q + 1) * d == q * d + d;
    if 2 * m < d then q
    else if 2 * m > d then q + 1
    else if q % 2 == 0 then q
    else q + 1
  }

  lemma MulMono(a: int, b: int, d: int)
    requires d >= 0
    ensures a <= b ==> a * d <= b * d
  {
    if a <= b {
      assert b * d - a * d == (b - a) * d;
    }
  }

  /** Two multiples of `d` no further than `d` apart come from factors at most
      one apart, and factors one apart give multiples exactly `d` apart. */
  lemma CloseMultiples(r: int, p: int, d: int)
    requires d > 0 && Dist(r * d, p * d) <= d
    ensures p - 1 <= r <= p + 1
    ensures r == p + 1 ==> r * d == p * d + d
    ensures p == r + 1 ==> p * d == r * d + d
  {
    MulMono(p + 2, r, d);
    MulMono(r + 2, p, d);
    assert (p + 2) * d == p * d + 2 * d;
    assert (r + 2) * d == r * d + 2 * d;
    assert (p + 1) * d == p * d + d;
    assert (r + 1) * d == r * d + d;
  }

  /** Two values within half of `d` of `n` and `d` apart are both exactly halfway. */
  lemma BothHalfway(n: int, d: int, a: int, b: int)
    requires 2 * Dist(a, n) <= d && 2 * Dist(b, n) <= d
    ensures a == b + d ==> 2 * Dist(a, n) == d && 2 * Dist(b, n) == d
  {
  }

  /** At most one integer is within half a unit of `n / d` and even on a tie. */
  lemma NearestEvenUnique(n: int, d: int, r: int, p: int)
    requires d > 0
    requires 2 * Dist(r * d, n) <= d && (2 * Dist(r * d, n) == d ==> r % 2 == 0)
    requires 2 * Dist(p * d, n) <= d && (2 * Dist(p * d, n) == d ==> p % 2 == 0)
    ensures r == p
  {
    // Both candidates lie within `d / 2` of `n`, hence within `d` of each other.
    CloseMultiples(r, p, d);
    // Candidates one apart would both sit exactly halfway and both be even.
    BothHalfway(n, d, r * d, p * d);
    BothHalfway(n, d, p * d, r * d);
  }

  /** The two properties of `RoundHalfEven` pin its result down. */
  lemma RoundHalfEvenUnique(n: int, d: int, r: int)
    requires d > 0
    requires 2 * Dist(r * d, n) <= d
    requires 2 * Dist(r * d, n) == d ==> r % 2 == 0
    ensures r == RoundHalfEven(n, d)
  {
    NearestEvenUnique(n, d, r, RoundHalfEven(n, d));
  }

  /** A quotient `n / d` no greater than `cap`, rounded to the nearest integer,
      stays within `0 .. cap`. */
  lemma RoundedWithin(n: int, d: int, cap: int, r: int)
    requires d > 0 && 0 <= n <= cap * d
    requires 2 * Dist(r * d, n) <= d
    ensures 0 <= r <= cap
  {
    MulMono(cap + 1, r, d);
    MulMono(r, -1, d);
    assert (cap + 1) * d == cap * d + d;
  }

  /** `img_ratio > a4_ratio`, that is `w / h > A4_WIDTH / A4_HEIGHT`, compared exactly. */
  predicate IsWide(w: Pos, h: Pos) {
    w * A4_HEIGHT > A4_WIDTH * h
  }

  /** The cross-multiplied test is the source's comparison of the two ratios,
      taken on exact real numbers. */
  lemma IsWideIsRatioComparison(w: Pos, h: Pos)
    ensures IsWide(w, h) <==> (w as real) / (h as real) > (A4_WIDTH as real) / (A4_HEIGHT as real)
  {
    var ratio := (w as real) / (h as real);
    assert ratio * (h as real) == w as real;
    var a4 := (A4_WIDTH as real) / (A4_HEIGHT as real);
    assert a4 * (A4_HEIGHT as real) == A4_WIDTH as real;
  }

  datatype Size = Size(width: int, height: int)

  /** The target size of the resize: a wide image spans the canvas width and gets
      the height nearest to the one that keeps its ratio; any other image spans
      the canvas height and gets the nearest ratio-keeping width. The other side
      never exceeds the canvas. */
  function FitSize(w: Pos, h: Pos): (size: Size)
    ensures IsWide(w, h) ==>
      size.width == A4_WIDTH && 2 * Dist(size.height * w, A4_WIDTH * h) <= w
    ensures !IsWide(w, h) ==>
      size.height == A4_HEIGHT && 2 * Dist(size.width * h, A4_HEIGHT * w) <= h
    ensures 0 <= size.width <= A4_WIDTH && 0 <= size.height <= A4_HEIGHT
  {
    if IsWide(w, h) then
      var height := RoundHalfEven(A4_WIDTH * h, w);
      RoundedWithin(A4_WIDTH * h, w, A4_HEIGHT, height);
      Size(A4_WIDTH, height)
    else
      var width := RoundHalfEven(A4_HEIGHT * w, h);
      RoundedWithin(A4_HEIGHT * w, h, A4_WIDTH, width);
      Size(width, A4_HEIGHT)
  }

  datatype Point = Point(x: int, y: int)

  /** The paste offset `((A4_WIDTH - width) // 2, (A4_HEIGHT - height) // 2)`:
      the larger half of each margin goes to the right and to the bottom. */
  function CentreOffset(size: Size): (offset: Point)
    ensures 2 * offset.x <= A4_WIDTH - size.width <= 2 * offset.x + 1
    ensures 2 * offset.y <= A4_HEIGHT - size.height <= 2 * offset.y + 1
  {
    // Python's `//` floors; Dafny's `/` with a positive divisor does the same.
    Point((A4_WIDTH - size.width) / 2, (A4_HEIGHT - size.height) / 2)
  }

  /** Where one image lands on its canvas. */
  datatype Layout = Layout(size: Size, offset: Point)

  /** The resized image is pasted at the centring offset of its fitted size. */
  function Place(w: Pos, h: Pos): (layout: Layout)
    ensures layout.size == FitSize(w, h)
    ensures layout.offset == CentreOffset(layout.size)
    ensures 0 <= layout.offset.x && layout.offset.x + layout.size.width <= A4_WIDTH
    ensures 0 <= layout.offset.y && layout.offset.y + layout.size.height <= A4_HEIGHT
    ensures IsWide(w, h) ==> layout.offset.x == 0
    ensures !IsWide(w, h) ==> layout.offset.y == 0
  {
    var size := FitSize(w, h);
    Layout(size, CentreOffset(size))
  }

  /** The fitted size degenerates to zero on one side exactly when the image is
      at least twice as elongated as the canvas can show in one pixel: a wide
      image `w >= 2 * 2480 * h` gets height 0 (0.5 rounds to the even 0), and a
      tall image `h >= 2 * 3508 * w` gets width 0. */
  lemma ZeroSizedFit(w: Pos, h: Pos)
    ensures FitSize(w, h).height == 0 <==> w >= 2 * A4_WIDTH * h
    ensures FitSize(w, h).width == 0 <==> h >= 2 * A4_HEIGHT * w
  {
    if w >= 2 * A4_WIDTH * h {
      RoundHalfEvenUnique(A4_WIDTH * h, w, 0);
    }
    if h >= 2 * A4_HEIGHT * w {
      RoundHalfEvenUnique(A4_HEIGHT * w, h, 0);
    }
  }
}
