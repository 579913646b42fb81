/** The parts of the map a paste reads and writes: cells keyed by their
    coordinates, and the read-only rule tables that name the overlay and
    terrain-object types. */
module Grid {
  import opened Results
  import opened Bytes
  import opened GameMath

  /** An overlay or terrain-object type from the rules: the `Index` it
      carries and its INI name. */
  datatype ObjectType = ObjectType(index: int, iniName: string)

  datatype Overlay = Overlay(overlayType: ObjectType, frameIndex: int, position: Point2D)

  datatype TerrainObject = TerrainObject(terrainType: ObjectType, position: Point2D)

  /** The fields of a `MapTile` a paste touches. The cached tile image is a
      render cache and is not part of the model. */
  datatype MapTile = MapTile(tileIndex: int, subTileIndex: byte, overlay: Option<Overlay>,
                             terrainObject: Option<TerrainObject>)

  datatype Rules = Rules(overlayTypes: seq<ObjectType>, terrainTypes: seq<ObjectType>)

  /** The cells of the map; a coordinate outside the map has no entry, which
      is where `Map.GetTile` returns null. */
  type Tiles = map<Point2D, MapTile>

  datatype Map = Map(tiles: Tiles, rules: Rules)

  /** `List.Find` with an exact `ININame` comparison: the position of the
      first type called `name`, if any. */
  function FindByName(types: seq<ObjectType>, name: string): (r: Option<nat>)
    ensures r.Some? ==> r.value < |types| && types[r.value].iniName == name
    ensures r.Some? ==> forall j :: 0 <= j < r.value ==> types[j].iniName != name
    ensures r.None? <==> forall j :: 0 <= j < |types| ==> types[j].iniName != name
  {
    if types == [] then None
    else if types[0].iniName == name then Some(0)
    else
      match FindByName(types[1..], name)
      case None => None
      case Some(i) => Some(i + 1)
  }

  /** `Undo` rebuilds an overlay type as `OverlayTypes[Index]`, which is the
      type itself only when every type's `Index` is its position in the
      table. The rules loader is expected to keep this; the model assumes
      it where needed. */
  predicate IndexedByPosition(types: seq<ObjectType>) {
    forall i :: 0 <= i < |types| ==> types[i].index == i
  }

  /** Every overlay on the map is the rule table's type at its own index and
      sits at its own cell, so rebuilding it from (index, frame, cell) gives
      it back. */
  predicate OverlaysFromRules(rules: Rules, tiles: Tiles) {
    forall p | p in tiles && tiles[p].overlay.Some? ::
      var ov := tiles[p].overlay.value;
      && 0 <= ov.overlayType.index < |rules.overlayTypes|
      && rules.overlayTypes[ov.overlayType.index] == ov.overlayType
      && ov.position == p
  }

  // ------------------------------------------- agreement on one kind of field

  predicate SameTerrain(a: Tiles, b: Tiles) {
    a.Keys == b.Keys &&
    forall p | p in a :: a[p].tileIndex == b[p].tileIndex && a[p].subTileIndex == b[p].subTileIndex
  }

  predicate SameOverlays(a: Tiles, b: Tiles) {
    a.Keys == b.Keys && forall p | p in a :: a[p].overlay == b[p].overlay
  }

  predicate SameObjects(a: Tiles, b: Tiles) {
    a.Keys == b.Keys && forall p | p in a :: a[p].terrainObject == b[p].terrainObject
  }

  /** A cell is nothing but its terrain, overlay and terrain object. */
  lemma SameFieldsEqual(a: Tiles, b: Tiles)
    requires SameTerrain(a, b) && SameOverlays(a, b) && SameObjects(a, b)
    ensures a == b
  {
    forall p | p in a
      ensures a[p] == b[p]
    {
      assert a[p].tileIndex == b[p].tileIndex;
    }
  }
}
