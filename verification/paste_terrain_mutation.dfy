/** `PasteTerrainMutation`: applies decoded copied map data to the map at an
    origin, one bucket of entries at a time, and keeps what `Undo` needs to
    put the touched cells back. */
module PasteTerrainMutation {
  import opened Results
  import opened Bytes
  import opened GameMath
  import opened CopiedMapData
  import opened Grid

  /** Above this many entries a paste asks for a full redraw. */
  const RefreshThreshold: nat := 10

  datatype Refresh = InvalidateMap | AddRefreshPoint(point: Point2D)

  /** The undo record of one pasted terrain entry: the cell and its tile and
      sub-tile index before the paste. */
  datatype OriginalCellTerrainData = OriginalCellTerrainData(cellCoords: Point2D, tileIndex: int, subTileIndex: byte)

  /** The undo record of one pasted overlay: the type index and frame of the
      overlay the cell held before, or index -1 when it held none. */
  datatype OriginalOverlayInfo = OriginalOverlayInfo(overlayTypeIndex: int, frameIndex: int, cellCoords: Point2D)

  /** A bucket's result: the cells after it, and its undo records in the
      order they were made. */
  datatype Pasted<R> = Pasted(tiles: Tiles, records: seq<R>)

  datatype UndoData = UndoData(terrain: seq<OriginalCellTerrainData>, overlay: seq<OriginalOverlayInfo>,
                               terrainObjectCells: seq<Point2D>)

  /** The mutation as constructed: the copied data and the paste origin. */
  datatype Mutation = Mutation(data: seq<CopiedEntry>, origin: Point2D)

  datatype Performed = Performed(result: Map, undo: UndoData, refresh: Refresh)

  datatype Undone = Undone(result: Map, refresh: Refresh)

  // ----------------------------------------------------------------- helpers

  /** The offset that takes `origin` to `cell`. */
  function OffsetTo(origin: Point2D, cell: Point2D): (r: Point2D)
    ensures Plus(origin, r) == cell
  {
    Point2D(cell.x - origin.x, cell.y - origin.y)
  }

  function Offsets(es: seq<CopiedEntry>): (r: set<Point2D>)
    ensures forall i :: 0 <= i < |es| ==> es[i].offset in r
  {
    if es == [] then {} else {es[0].offset} + Offsets(es[1..])
  }

  /** No two entries share an offset, so no two target the same cell. */
  predicate DistinctOffsets(es: seq<CopiedEntry>) {
    es == [] || (es[0].offset !in Offsets(es[1..]) && DistinctOffsets(es[1..]))
  }

  /** `CopiedMapEntries.FindAll(e => e.EntryType == kind)`. */
  function Bucket(es: seq<CopiedEntry>, kind: CopiedEntryType): (r: seq<CopiedEntry>)
    ensures |r| <= |es|
    ensures forall i :: 0 <= i < |r| ==> r[i].EntryType() == kind
    ensures forall e :: e in r <==> e in es && e.EntryType() == kind
  {
    if es == [] then []
    else if es[0].EntryType() == kind then [es[0]] + Bucket(es[1..], kind)
    else Bucket(es[1..], kind)
  }

  /** `AddRefresh`: exactly one of the two signals, chosen by entry count. */
  function AddRefresh(entryCount: nat, origin: Point2D): (r: Refresh)
    ensures r == InvalidateMap <==> entryCount > RefreshThreshold
    ensures r != InvalidateMap ==> r == AddRefreshPoint(origin)
  {
    if entryCount > RefreshThreshold then InvalidateMap else AddRefreshPoint(origin)
  }

  // ------------------------------------------------------------ terrain bucket

  /** The terrain loop of `Perform`: each entry whose cell exists records the
      cell's tile and sub-tile index and overwrites them. */
  function PasteTerrainEntries(tiles: Tiles, origin: Point2D, es: seq<CopiedEntry>): (r: Pasted<OriginalCellTerrainData>)
    requires forall i :: 0 <= i < |es| ==> es[i].CopiedTerrainEntry?
    ensures SameOverlays(tiles, r.tiles) && SameObjects(tiles, r.tiles)
    ensures |r.records| <= |es|
    ensures forall i :: 0 <= i < |r.records| ==> r.records[i].cellCoords in tiles
  {
    if es == [] then Pasted(tiles, [])
    else
      var e := es[0];
      var cell := Plus(origin, e.offset);
      if cell !in tiles then PasteTerrainEntries(tiles, origin, es[1..])
      else
        var before := tiles[cell];
        var rest := PasteTerrainEntries(tiles[cell := before.(tileIndex := e.tileIndex, subTileIndex := e.subTileIndex)],
                                        origin, es[1..]);
        Pasted(rest.tiles, [OriginalCellTerrainData(cell, before.tileIndex, before.subTileIndex)] + rest.records)
  }

  predicate TerrainRecordsApply(tiles: Tiles, records: seq<OriginalCellTerrainData>) {
    forall i :: 0 <= i < |records| ==> records[i].cellCoords in tiles
  }

  /** The terrain loop of `Undo`: replays the records in the order they were
      made, writing each one's tile and sub-tile index back. */
  function UndoTerrain(tiles: Tiles, records: seq<OriginalCellTerrainData>): (r: Tiles)
    requires TerrainRecordsApply(tiles, records)
    ensures SameOverlays(tiles, r) && SameObjects(tiles, r)
    ensures forall p | p in tiles && (forall i :: 0 <= i < |records| ==> records[i].cellCoords != p) :: r[p] == tiles[p]
  {
    if records == [] then tiles
    else
      var rec := records[0];
      var cell := tiles[rec.cellCoords];
      UndoTerrain(tiles[rec.cellCoords := cell.(tileIndex := rec.tileIndex, subTileIndex := rec.subTileIndex)],
                  records[1..])
  }

  // ------------------------------------------------------------ overlay bucket

  /** The undo record of a cell's overlay: index -1 and frame 0 when there is
      none, else the overlay type's `Index` and the frame. */
  function OverlayRecord(tile: MapTile, cell: Point2D): (r: OriginalOverlayInfo)
    ensures r.cellCoords == cell
    ensures r.overlayTypeIndex == -1 <==> tile.overlay.None? || tile.overlay.value.overlayType.index == -1
  {
    if tile.overlay.None? then OriginalOverlayInfo(-1, 0, cell)
    else OriginalOverlayInfo(tile.overlay.value.overlayType.index, tile.overlay.value.frameIndex, cell)
  }

  /** The overlay loop of `Perform`: an entry whose cell exists and whose type
      name is in the rules records the cell's overlay (or -1 for none) and
      puts a new overlay of that type there. */
  function PasteOverlayEntries(rules: Rules, tiles: Tiles, origin: Point2D, es: seq<CopiedEntry>): (r: Pasted<OriginalOverlayInfo>)
    requires forall i :: 0 <= i < |es| ==> es[i].CopiedOverlayEntry?
    ensures SameTerrain(tiles, r.tiles) && SameObjects(tiles, r.tiles)
    ensures |r.records| <= |es|
    ensures forall i :: 0 <= i < |r.records| ==> r.records[i].cellCoords in tiles
  {
    if es == [] then Pasted(tiles, [])
    else
      var e := es[0];
      var cell := Plus(origin, e.offset);
      if cell !in tiles then PasteOverlayEntries(rules, tiles, origin, es[1..])
      else
        match FindByName(rules.overlayTypes, e.overlayTypeName)
        case None => PasteOverlayEntries(rules, tiles, origin, es[1..])
        case Some(k) =>
          var before := tiles[cell];
          var rec := OverlayRecord(before, cell);
          var placed := Grid.Overlay(rules.overlayTypes[k], e.frameIndex, cell);
          var rest := PasteOverlayEntries(rules, tiles[cell := before.(overlay := Some(placed))], origin, es[1..]);
          Pasted(rest.tiles, [rec] + rest.records)
  }

  /** What `Undo` needs of overlay records: the cell exists, and the index is
      -1 or a position in the overlay table. */
  predicate OverlayRecordsApply(rules: Rules, tiles: Tiles, records: seq<OriginalOverlayInfo>) {
    forall i :: 0 <= i < |records| ==>
      && records[i].cellCoords in tiles
      && (records[i].overlayTypeIndex == -1 || 0 <= records[i].overlayTypeIndex < |rules.overlayTypes|)
  }

  /** The overlay loop of `Undo`: index -1 clears the overlay, any other index
      rebuilds it from the rule table, the frame and the cell. */
  function UndoOverlays(rules: Rules, tiles: Tiles, records: seq<OriginalOverlayInfo>): (r: Tiles)
    requires OverlayRecordsApply(rules, tiles, records)
    ensures SameTerrain(tiles, r) && SameObjects(tiles, r)
    ensures forall p | p in tiles && (forall i :: 0 <= i < |records| ==> records[i].cellCoords != p) :: r[p] == tiles[p]
  {
    if records == [] then tiles
    else
      var rec := records[0];
      var cell := tiles[rec.cellCoords];
      var restored := if rec.overlayTypeIndex == -1 then None
                      else Some(Grid.Overlay(rules.overlayTypes[rec.overlayTypeIndex], rec.frameIndex, rec.cellCoords));
      UndoOverlays(rules, tiles[rec.cellCoords := cell.(overlay := restored)], records[1..])
  }

  // ----------------------------------------------------- terrain object bucket

  /** The terrain-object loop of `Perform`: an entry whose cell exists and is
      free, and whose type name is in the rules, places a new object there
      and records the cell. An occupied cell is never overwritten. */
  function PasteTerrainObjectEntries(rules: Rules, tiles: Tiles, origin: Point2D, es: seq<CopiedEntry>): (r: Pasted<Point2D>)
    requires forall i :: 0 <= i < |es| ==> es[i].CopiedTerrainObjectEntry?
    ensures SameTerrain(tiles, r.tiles) && SameOverlays(tiles, r.tiles)
    ensures |r.records| <= |es|
    ensures forall i :: 0 <= i < |r.records| ==> r.records[i] in tiles && tiles[r.records[i]].terrainObject.None?
    ensures forall p | p in tiles && tiles[p].terrainObject.Some? :: r.tiles[p] == tiles[p]
  {
    if es == [] then Pasted(tiles, [])
    else
      var e := es[0];
      var cell := Plus(origin, e.offset);
      if cell !in tiles || tiles[cell].terrainObject.Some? then PasteTerrainObjectEntries(rules, tiles, origin, es[1..])
      else
        match FindByName(rules.terrainTypes, e.terrainObjectTypeName)
        case None => PasteTerrainObjectEntries(rules, tiles, origin, es[1..])
        case Some(k) =>
          var placed := Grid.TerrainObject(rules.terrainTypes[k], cell);
          var rest := PasteTerrainObjectEntries(rules, tiles[cell := tiles[cell].(terrainObject := Some(placed))],
                                                origin, es[1..]);
          Pasted(rest.tiles, [cell] + rest.records)
  }

  predicate CellsExist(tiles: Tiles, cells: seq<Point2D>) {
    forall i :: 0 <= i < |cells| ==> cells[i] in tiles
  }

  /** The terrain-object loop of `Undo`: `RemoveTerrainObject` on every
      recorded cell. */
  function RemoveTerrainObjects(tiles: Tiles, cells: seq<Point2D>): (r: Tiles)
    requires CellsExist(tiles, cells)
    ensures SameTerrain(tiles, r) && SameOverlays(tiles, r)
    ensures forall i :: 0 <= i < |cells| ==> r[cells[i]].terrainObject.None?
    ensures forall p | p in tiles && p !in cells :: r[p] == tiles[p]
  {
    if cells == [] then tiles
    else RemoveTerrainObjects(tiles[cells[0] := tiles[cells[0]].(terrainObject := None)], cells[1..])
  }

  // ---------------------------------------------------------- the mutation

  /** `Perform`: the terrain bucket, then the overlay bucket on its result,
      then the terrain-object bucket, then the refresh signal. */
  function Perform(m: Map, mu: Mutation): (r: Performed)
    ensures r.result.rules == m.rules && r.result.tiles.Keys == m.tiles.Keys
    ensures |r.undo.terrain| <= |Bucket(mu.data, CopiedEntryType.Terrain)|
    ensures |r.undo.overlay| <= |Bucket(mu.data, CopiedEntryType.Overlay)|
    ensures |r.undo.terrainObjectCells| <= |Bucket(mu.data, CopiedEntryType.TerrainObject)|
    ensures forall p | p in m.tiles && m.tiles[p].terrainObject.Some? ::
              r.result.tiles[p].terrainObject == m.tiles[p].terrainObject
    ensures r.refresh == AddRefresh(|mu.data|, mu.origin)
  {
    var terrain := PasteTerrainEntries(m.tiles, mu.origin, Bucket(mu.data, CopiedEntryType.Terrain));
    var overlays := PasteOverlayEntries(m.rules, terrain.tiles, mu.origin, Bucket(mu.data, CopiedEntryType.Overlay));
    var objects := PasteTerrainObjectEntries(m.rules, overlays.tiles, mu.origin, Bucket(mu.data, CopiedEntryType.TerrainObject));
    Performed(Map(objects.tiles, m.rules), UndoData(terrain.records, overlays.records, objects.records),
              AddRefresh(|mu.data|, mu.origin))
  }

  /** What `Undo` needs to run without a null or out-of-range access. */
  predicate UndoApplies(m: Map, undo: UndoData) {
    && TerrainRecordsApply(m.tiles, undo.terrain)
    && OverlayRecordsApply(m.rules, m.tiles, undo.overlay)
    && CellsExist(m.tiles, undo.terrainObjectCells)
  }

  /** `Undo`: the terrain records, then the overlay records, then the object
      removals, then the same refresh signal as `Perform`. */
  function Undo(m: Map, mu: Mutation, undo: UndoData): (r: Undone)
    requires UndoApplies(m, undo)
    ensures r.result.rules == m.rules && r.result.tiles.Keys == m.tiles.Keys
    ensures r.refresh == AddRefresh(|mu.data|, mu.origin)
  {
    var terrain := UndoTerrain(m.tiles, undo.terrain);
    var overlays := UndoOverlays(m.rules, terrain, undo.overlay);
    var objects := RemoveTerrainObjects(overlays, undo.terrainObjectCells);
    Undone(Map(objects, m.rules), AddRefresh(|mu.data|, mu.origin))
  }
}
