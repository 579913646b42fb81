/** Map coordinates. `Point2D` addition is componentwise; the model uses
    unbounded integers for it. */
module GameMath {

  datatype Point2D = Point2D(x: int, y: int)

  /** `origin + offset`: the cell a copied entry lands on. */
  function Plus(a: Point2D, b: Point2D): (r: Point2D)
    ensures r.x - a.x == b.x && r.y - a.y == b.y
  {
    Point2D(a.x + b.x, a.y + b.y)
  }
}
