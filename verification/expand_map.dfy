/** The arithmetic of `ExpandMapWindow.BtnApply_LeftClick`: the new map size
    from the four expansion amounts, its validation, and the coordinate
    shifts handed to `Map.Resize`. All of it is C# `int` arithmetic, which
    wraps silently. */
module ExpandMap {
  import opened Bytes
  import opened GameMath

  /** `Constants.MaxMapWidth` and `Constants.MaxMapHeight`, whose values are
      not part of this model. */
  datatype MapLimits = MapLimits(maxWidth: int, maxHeight: int)

  /** The four amounts typed into the window, each a C# `int`. */
  datatype Expansion = Expansion(north: int, south: int, east: int, west: int)

  predicate IsInt32Expansion(x: Expansion) {
    IsInt32(x.north) && IsInt32(x.south) && IsInt32(x.east) && IsInt32(x.west)
  }

  /** What the click does: reject the width, reject the height, or resize
      once with the new size and the two shifts. */
  datatype ExpandResult =
    | InvalidWidth(newWidth: int)
    | InvalidHeight(newHeight: int)
    | Resize(newSize: Point2D, eastShift: int, southShift: int)

  predicate InRange(v: int, max: int) { 0 < v <= max }

  /** The handler as written: sums wrap to 32 bits. */
  function ExpandMap(size: Point2D, x: Expansion, limits: MapLimits): (r: ExpandResult)
    requires IsInt32(size.x) && IsInt32(size.y) && IsInt32Expansion(x)
    ensures r.InvalidWidth? <==> !InRange(Wrap32(size.x + x.east + x.west), limits.maxWidth)
    ensures r.InvalidHeight? <==>
              InRange(Wrap32(size.x + x.east + x.west), limits.maxWidth)
              && !InRange(Wrap32(size.y + x.north + x.south), limits.maxHeight)
    ensures r.Resize? ==> InRange(r.newSize.x, limits.maxWidth) && InRange(r.newSize.y, limits.maxHeight)
    ensures r.Resize? ==> r.newSize == Point2D(Wrap32(size.x + x.east + x.west), Wrap32(size.y + x.north + x.south))
    ensures r.Resize? ==> r.eastShift == Wrap32(x.north + x.west) && r.southShift == Wrap32(x.north + x.east)
  {
    var newWidth := Wrap32(Wrap32(size.x + x.east) + x.west);
    assert newWidth == Wrap32(size.x + x.east + x.west) by { Wrap32OfWrapped(size.x + x.east, x.west); }
    if newWidth <= 0 || newWidth > limits.maxWidth then InvalidWidth(newWidth)
    else
      var newHeight := Wrap32(Wrap32(size.y + x.north) + x.south);
      assert newHeight == Wrap32(size.y + x.north + x.south) by { Wrap32OfWrapped(size.y + x.north, x.south); }
      if newHeight <= 0 || newHeight > limits.maxHeight then InvalidHeight(newHeight)
      else
        var eastShift := Wrap32(x.north + x.west);
        var southShift := Wrap32(x.north + x.east);
        Resize(Point2D(newWidth, newHeight), eastShift, southShift)
  }

  /** Wrapping an intermediate sum does not change the wrapped total. */
  lemma Wrap32OfWrapped(a: int, b: int)
    ensures Wrap32(Wrap32(a) + b) == Wrap32(a + b)
  {
    Wrap32Congruent(a);
    var k := (Wrap32(a) - a) / TwoTo32;
    assert Wrap32(a) == a + k * TwoTo32;
    Wrap32Shift(a + b, k);
  }

  /** `Wrap32` only sees its argument modulo 2^32. */
  lemma Wrap32Shift(v: int, k: int)
    ensures Wrap32(v + k * TwoTo32) == Wrap32(v)
  {
    assert (v + k * TwoTo32 + TwoTo31) % TwoTo32 == (v + TwoTo31) % TwoTo32;
  }

  /** The same handler with the sums taken exactly, as the bounds check
      evidently means them. */
  function ExpandMapExact(size: Point2D, x: Expansion, limits: MapLimits): (r: ExpandResult)
    ensures r.InvalidWidth? <==> !InRange(size.x + x.east + x.west, limits.maxWidth)
    ensures r.InvalidHeight? <==>
              InRange(size.x + x.east + x.west, limits.maxWidth) && !InRange(size.y + x.north + x.south, limits.maxHeight)
    ensures r.Resize? ==> InRange(r.newSize.x, limits.maxWidth) && InRange(r.newSize.y, limits.maxHeight)
    ensures r.Resize? ==> r.newSize == Point2D(size.x + x.east + x.west, size.y + x.north + x.south)
    ensures r.Resize? ==> r.eastShift == x.north + x.west && r.southShift == x.north + x.east
  {
    var newWidth := size.x + x.east + x.west;
    if newWidth <= 0 || newWidth > limits.maxWidth then InvalidWidth(newWidth)
    else
      var newHeight := size.y + x.north + x.south;
      if newHeight <= 0 || newHeight > limits.maxHeight then InvalidHeight(newHeight)
      else Resize(Point2D(newWidth, newHeight), x.north + x.west, x.north + x.east)
  }

  /** Expanding to the south changes only the new height: two requests that
      differ only in the south amount agree on the width check, the width and
      both shifts. */
  lemma SouthExpansionLeavesShifts(size: Point2D, x: Expansion, y: Expansion, limits: MapLimits)
    requires IsInt32(size.x) && IsInt32(size.y) && IsInt32Expansion(x) && IsInt32Expansion(y)
    requires x.north == y.north && x.east == y.east && x.west == y.west
    ensures var a := ExpandMap(size, x, limits);
            var b := ExpandMap(size, y, limits);
            && (a.InvalidWidth? <==> b.InvalidWidth?)
            && (a.Resize? && b.Resize? ==>
                  a.newSize.x == b.newSize.x && a.eastShift == b.eastShift && a.southShift == b.southShift)
  {
  }

  /** Without a wrapped sum the handler is the exact one: it accepts exactly
      the sizes from 1 to the maximum, and the shifts are north plus west
      and north plus east. */
  lemma ExactWithoutOverflow(size: Point2D, x: Expansion, limits: MapLimits)
    requires IsInt32(size.x) && IsInt32(size.y) && IsInt32Expansion(x)
    requires IsInt32(size.x + x.east) && IsInt32(size.x + x.east + x.west)
    requires IsInt32(size.y + x.north) && IsInt32(size.y + x.north + x.south)
    requires IsInt32(x.north + x.west) && IsInt32(x.north + x.east)
    ensures ExpandMap(size, x, limits) == ExpandMapExact(size, x, limits)
  {
  }

  /** A width sum that wraps past 2^32 is accepted as a small width. */
  lemma WrappedWidthAccepted()
    ensures var size := Point2D(100, 100);
            var x := Expansion(0, 0, TwoTo31 - 1, TwoTo31 - 1);
            var limits := MapLimits(512, 512);
            && ExpandMap(size, x, limits) == Resize(Point2D(98, 100), TwoTo31 - 1, TwoTo31 - 1)
            && ExpandMapExact(size, x, limits) == InvalidWidth(100 + 2 * (TwoTo31 - 1))
  {
  }
}
