/** Axis-aligned boxes, the player's overlap test and p5's clamping helpers.
    Coordinates are exact reals standing in for the engine's doubles. */
module Geometry {

  function Min(a: real, b: real): real {
    if a <= b then a else b
  }

  function Max(a: real, b: real): real {
    if a >= b then a else b
  }

  /** p5's `constrain(n, low, high)`, which computes `max(min(n, high), low)`.
      When the bounds are inverted the lower bound wins. */
  function Constrain(n: real, lo: real, hi: real): (r: real)
    ensures lo <= hi ==> lo <= r <= hi
    ensures lo <= n <= hi ==> r == n
    ensures hi < lo ==> r == lo
    // within proper bounds, the result is the admissible value nearest to n
    ensures lo <= hi ==> forall z: real {:trigger Dist(z, n)} :: lo <= z <= hi ==> Dist(r, n) <= Dist(z, n)
  {
    Max(Min(n, hi), lo)
  }

  function Dist(a: real, b: real): real {
    if a >= b then a - b else b - a
  }

  /** A box given by its top-left corner and its size (y grows downwards). */
  datatype Box = Box(x: real, y: real, w: real, h: real)

  /** The player's `touching` test: all four comparisons are strict. */
  function Touching(a: Box, b: Box): (r: bool)
    // boxes that are apart, or that only share an edge, do not touch
    ensures a.x + a.w <= b.x || b.x + b.w <= a.x ==> !r
    ensures a.y + a.h <= b.y || b.y + b.h <= a.y ==> !r
  {
    a.x + a.w > b.x && a.x < b.x + b.w &&
    a.y + a.h > b.y && a.y < b.y + b.h
  }

  /** (px, py) lies in the open interior of b. */
  predicate StrictlyInside(px: real, py: real, b: Box) {
    b.x < px < b.x + b.w && b.y < py < b.y + b.h
  }

  /** For boxes of positive size, the strict test is exactly "the open
      interiors share a point". */
  lemma TouchingIffSharedInteriorPoint(a: Box, b: Box)
    requires a.w > 0.0 && a.h > 0.0 && b.w > 0.0 && b.h > 0.0
    ensures Touching(a, b) <==> exists px, py :: StrictlyInside(px, py, a) && StrictlyInside(px, py, b)
  {
    if Touching(a, b) {
      var px := (Max(a.x, b.x) + Min(a.x + a.w, b.x + b.w)) / 2.0;
      var py := (Max(a.y, b.y) + Min(a.y + a.h, b.y + b.h)) / 2.0;
      assert StrictlyInside(px, py, a) && StrictlyInside(px, py, b);
    }
  }

  /** A footprint with no area still registers a touch when it sits strictly
      inside the player's box: the test has no interior to miss. */
  lemma ZeroAreaFootprintCanTouch()
    ensures exists a: Box, b: Box :: a.w > 0.0 && a.h > 0.0 && b.w == 0.0 && b.h == 0.0 && Touching(a, b)
  {
    var a := Box(0.0, 0.0, 2.0, 4.0);
    var b := Box(1.0, 1.0, 0.0, 0.0);
    assert Touching(a, b);
  }

  /** The zero-width case in general: a vertical segment strictly between the
      player's sides touches whenever the vertical spans overlap. */
  lemma ZeroWidthFootprintTouches(a: Box, b: Box)
    requires b.w == 0.0
    requires a.x < b.x < a.x + a.w
    requires a.y + a.h > b.y && a.y < b.y + b.h
    ensures Touching(a, b)
  {
  }
}
