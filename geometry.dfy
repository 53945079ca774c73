/**
 * Screen-space primitives shared by every variant of the clicker: integer points,
 * the two mouse buttons, and the rectangular click region `Bounds`
 * (src/temp_main2.rs:29-35), together with the drag-rectangle normalisation that
 * every picker overlay performs after converting the drag corners to pixels.
 */
module Geometry {

  /** Range of Rust's `i32`. */
  const I32Min: int := -0x8000_0000
  const I32Max: int := 0x7fff_ffff

  predicate InI32(v: int) { I32Min <= v <= I32Max }

  /** `ClickButton`; its `to_enigo` conversion is the identity on this type. */
  datatype Button = Left | Right

  datatype Point = Point(x: int, y: int)

  function Min(a: int, b: int): int { if a <= b then a else b }
  function Max(a: int, b: int): int { if a >= b then a else b }

  /** An axis-aligned click region in screen pixels, corners included. */
  datatype Bounds = Bounds(minX: int, maxX: int, minY: int, maxY: int) {

    function Width(): int { maxX - minX }

    function Height(): int { maxY - minY }

    /** A zero-area or inverted region counts as "not configured yet". */
    predicate IsValid() { Width() > 0 && Height() > 0 }

    /** Both inclusive sampling ranges `min..=max` are non-empty. */
    predicate NonEmpty() { minX <= maxX && minY <= maxY }

    predicate Contains(p: Point) { minX <= p.x <= maxX && minY <= p.y <= maxY }
  }

  /** `is_valid` holds exactly when both axes are strictly increasing; a valid region can be sampled. */
  lemma IsValidMeaning(b: Bounds)
    ensures b.IsValid() <==> b.maxX > b.minX && b.maxY > b.minY
    ensures b.IsValid() ==> b.NonEmpty() && b.Contains(Point(b.minX, b.minY)) && b.Contains(Point(b.maxX, b.maxY))
  {
  }

  /** The concrete regions of the bounds-validation test. */
  lemma BoundsExamples()
    ensures Bounds(100, 200, 100, 200).IsValid()
    ensures Bounds(100, 200, 100, 200).Width() == 100 && Bounds(100, 200, 100, 200).Height() == 100
    ensures !Bounds(200, 100, 200, 100).IsValid()
  {
  }

  /**
   * The region spanned by a drag from `a` to `b` (corners already converted to
   * integer pixels), shifted by the monitor `origin`.
   */
  function DragBounds(a: Point, b: Point, origin: Point): Bounds {
    Bounds(Min(a.x, b.x) + origin.x, Max(a.x, b.x) + origin.x,
           Min(a.y, b.y) + origin.y, Max(a.y, b.y) + origin.y)
  }

  function Shift(p: Point, origin: Point): Point { Point(p.x + origin.x, p.y + origin.y) }

  /**
   * The drag region is the smallest region holding both shifted corners, it does
   * not depend on the drag direction, and it is valid exactly when the drag moved
   * on both axes.
   */
  lemma DragBoundsSpec(a: Point, b: Point, origin: Point)
    ensures var r := DragBounds(a, b, origin);
      r.NonEmpty() && r.Contains(Shift(a, origin)) && r.Contains(Shift(b, origin))
    ensures forall c: Bounds :: c.Contains(Shift(a, origin)) && c.Contains(Shift(b, origin)) ==>
      c.minX <= DragBounds(a, b, origin).minX && DragBounds(a, b, origin).maxX <= c.maxX &&
      c.minY <= DragBounds(a, b, origin).minY && DragBounds(a, b, origin).maxY <= c.maxY
    ensures DragBounds(b, a, origin) == DragBounds(a, b, origin)
    ensures DragBounds(a, b, origin).IsValid() <==> a.x != b.x && a.y != b.y
  {
  }

  /** The drag test: both drag directions over (100,100)-(200,200) give [100, 200, 100, 200]. */
  lemma DragExamples()
    ensures DragBounds(Point(100, 100), Point(200, 200), Point(0, 0)) == Bounds(100, 200, 100, 200)
    ensures DragBounds(Point(200, 200), Point(100, 100), Point(0, 0)) == Bounds(100, 200, 100, 200)
  {
  }
}
