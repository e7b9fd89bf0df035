/** Integer pixel geometry and the rectangle test the scene uses for picking lemmings. */
module Geometry {

  /** A pixel position or a box size (the engine's 2D vector, on integer pixels). */
  datatype Vec2 = Vec2(x: int, y: int)

  /** The pixel `i` columns right of and `j` rows below `origin`. */
  function Offset(origin: Vec2, i: int, j: int): Vec2
  {
    Vec2(origin.x + i, origin.y + j)
  }

  /** The pixels covered by a box: the origin shifted by every offset within the size. */
  ghost function Box(origin: Vec2, size: Vec2): set<Vec2>
  {
    set i: int, j: int | 0 <= i < size.x && 0 <= j < size.y :: Offset(origin, i, j)
  }

  /**
   * Half-open containment on both axes: the box starts at `origin` (included)
   * and stops just before `origin + size` (excluded).
   */
  function InsideRectangle(point: Vec2, origin: Vec2, size: Vec2): (r: bool)
    // the origin corner belongs to every non-empty box
    ensures point == origin && size.x > 0 && size.y > 0 ==> r
    // the far edges belong to no box
    ensures point.x == origin.x + size.x || point.y == origin.y + size.y ==> !r
    // an empty box contains nothing
    ensures size.x <= 0 || size.y <= 0 ==> !r
    // moving the point one pixel left of, or above, the origin leaves the box
    ensures point.x < origin.x || point.y < origin.y ==> !r
  {
    origin.x <= point.x
    && point.x < origin.x + size.x
    && origin.y <= point.y
    && point.y < origin.y + size.y
  }

  /** The comparison test agrees with membership in the set of covered pixels. */
  lemma InsideRectangleIsBoxMembership(point: Vec2, origin: Vec2, size: Vec2)
    ensures InsideRectangle(point, origin, size) <==> point in Box(origin, size)
  {
    if InsideRectangle(point, origin, size) {
      var i, j := point.x - origin.x, point.y - origin.y;
      assert point == Offset(origin, i, j);
    }
    if point in Box(origin, size) {
      var i, j :| 0 <= i < size.x && 0 <= j < size.y && point == Offset(origin, i, j);
    }
  }
}
