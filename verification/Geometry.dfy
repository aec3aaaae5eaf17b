/** Integer points and the small amount of integer arithmetic the rasterisers share. */
module Geometry {

  /** A pixel coordinate; x grows to the right and y grows downwards, as on the canvas. */
  datatype Point = Point(x: int, y: int)

  function Abs(n: int): (r: nat)
    ensures r == n || r == -n
  {
    if n < 0 then -n else n
  }

  function Min(a: int, b: int): (r: int)
    ensures r <= a && r <= b && (r == a || r == b)
  {
    if a <= b then a else b
  }

  function Max(a: int, b: int): (r: int)
    ensures r >= a && r >= b && (r == a || r == b)
  {
    if a <= b then b else a
  }

  /** Python's `n // 2`, which rounds towards minus infinity (Dafny's `/` agrees for a positive divisor). */
  function Half(n: int): (r: int)
    ensures 2 * r <= n < 2 * r + 2
  {
    n / 2
  }

  /** The reflection of `p` in the vertical line through `c`. */
  function MirrorX(c: Point, p: Point): Point
  {
    Point(2 * c.x - p.x, p.y)
  }

  /** The reflection of `p` in the horizontal line through `c`. */
  function MirrorY(c: Point, p: Point): Point
  {
    Point(p.x, 2 * c.y - p.y)
  }

  /** The reflection of `p` in the diagonal through `c` (exchanges the offsets from `c`). */
  function SwapXY(c: Point, p: Point): Point
  {
    Point(c.x + (p.y - c.y), c.y + (p.x - c.x))
  }

  lemma MulLeft(a: int, b: int, c: int)
    requires 0 <= a && b <= c
    ensures a * b <= a * c
  {
    assert a * c - a * b == a * (c - b);
  }

  /** Doubling a root of `n / 4` gives a root of `n` to within one. */
  lemma SqrtDouble(n: nat, t: nat)
    requires t * t <= n / 4 < (t + 1) * (t + 1)
    ensures (2 * t) * (2 * t) <= n < (2 * t + 2) * (2 * t + 2)
  {
    var m := n / 4;
    assert n == 4 * m + n % 4;
    assert (2 * t) * (2 * t) == 4 * (t * t);
    assert (2 * t + 2) * (2 * t + 2) == 4 * ((t + 1) * (t + 1));
    assert (t + 1) * (t + 1) >= m + 1;
  }

  /**
   * The integer square root: the largest r with r*r <= n. It stands for `int(x ** 0.5)`,
   * which agrees with it while the float square root is exact.
   */
  function IntSqrt(n: nat): (r: nat)
    ensures r * r <= n < (r + 1) * (r + 1)
    decreases n
  {
    if n < 4 then
      (if n == 0 then 0 else 1)
    else
      var t := IntSqrt(n / 4);
      SqrtDouble(n, t);
      var s := 2 * t;
      if (s + 1) * (s + 1) <= n then s + 1 else s
  }
}
