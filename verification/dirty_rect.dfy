/** `DirtyRect` (src/render/DirtyRect.hpp): an inclusive integer bounding box
    that grows point by point. The cleared value has its minimum corner far to
    the bottom right of its maximum one, so it is empty and the first point
    added becomes the whole box. */
module DirtyRect {

  datatype Rect = Rect(x0: int, y0: int, x1: int, y1: int)

  const LIMIT: int := 99999

  /** What a default-constructed rect holds and what `clear()` restores. */
  const CLEARED: Rect := Rect(LIMIT, LIMIT, -LIMIT, -LIMIT)

  /** Points for which the cleared bounds act as "no bound yet". */
  predicate InRange(x: int, y: int) {
    -LIMIT <= x <= LIMIT && -LIMIT <= y <= LIMIT
  }

  /** `empty()`: no column or no row lies between the bounds. */
  predicate Empty(r: Rect) {
    r.x1 < r.x0 || r.y1 < r.y0
  }

  predicate Contains(r: Rect, x: int, y: int) {
    r.x0 <= x <= r.x1 && r.y0 <= y <= r.y1
  }

  /** Every point of `a` is a point of `b`. */
  predicate Within(a: Rect, b: Rect) {
    !Empty(a) ==> b.x0 <= a.x0 && a.x1 <= b.x1 && b.y0 <= a.y0 && a.y1 <= b.y1
  }

  /** `clear()`: the rect holds no point at all. */
  function Clear(): (r: Rect)
    ensures Empty(r)
    ensures forall x, y :: !Contains(r, x, y)
  {
    CLEARED
  }

  /** `addPoint`: each bound moves only when the point lies beyond it. */
  function AddPoint(r: Rect, x: int, y: int): (r': Rect)
    ensures !Empty(r') && Contains(r', x, y)
    ensures Within(r, r')
    ensures r == CLEARED && InRange(x, y) ==> r' == Rect(x, y, x, y)
  {
    Rect(if x < r.x0 then x else r.x0, if y < r.y0 then y else r.y0,
         if x > r.x1 then x else r.x1, if y > r.y1 then y else r.y1)
  }

  /** `addLine`: both endpoints are added. */
  function AddLine(r: Rect, x0: int, y0: int, x1: int, y1: int): (r': Rect)
    ensures !Empty(r') && Contains(r', x0, y0) && Contains(r', x1, y1)
    ensures Within(r, r')
  {
    AddPoint(AddPoint(r, x0, y0), x1, y1)
  }

  /** `unite`: an empty operand is the identity; otherwise the hull of both. */
  function Unite(a: Rect, b: Rect): (r: Rect)
    ensures Empty(a) ==> r == b
    ensures !Empty(a) && Empty(b) ==> r == a
    ensures !Empty(a) && !Empty(b) ==> !Empty(r) && Within(a, r) && Within(b, r)
  {
    if Empty(a) then b
    else if Empty(b) then a
    else Rect(if a.x0 < b.x0 then a.x0 else b.x0, if a.y0 < b.y0 then a.y0 else b.y0,
              if a.x1 > b.x1 then a.x1 else b.x1, if a.y1 > b.y1 then a.y1 else b.y1)
  }

  // ---------------------------------------------------------------------------
  // The box as the smallest one containing what was added

  /** `addPoint` grows the box no more than needed: any box holding the old
      points and the new one holds the result. */
  lemma AddPointSmallest(r: Rect, x: int, y: int, s: Rect)
    requires !Empty(r) && Within(r, s) && Contains(s, x, y)
    ensures Within(AddPoint(r, x, y), s)
  {
  }

  /** For two non-empty boxes, `unite` is the smallest box containing both. */
  lemma UniteSmallest(a: Rect, b: Rect, s: Rect)
    requires !Empty(a) && !Empty(b) && Within(a, s) && Within(b, s)
    ensures Within(Unite(a, b), s)
  {
  }

  /** For two non-empty boxes, `unite` does not depend on the order. */
  lemma UniteCommutes(a: Rect, b: Rect)
    requires !Empty(a) && !Empty(b)
    ensures Unite(a, b) == Unite(b, a)
  {
  }

  /** An independent description of `unite` on non-empty boxes: adding the
      corners of `b` to `a` point by point. */
  lemma UniteIsAddingCorners(a: Rect, b: Rect)
    requires !Empty(a) && !Empty(b)
    ensures Unite(a, b) == AddPoint(AddPoint(a, b.x0, b.y0), b.x1, b.y1)
  {
  }

  lemma WithinContains(a: Rect, b: Rect, x: int, y: int)
    requires Within(a, b) && Contains(a, x, y)
    ensures Contains(b, x, y)
  {
  }
}
