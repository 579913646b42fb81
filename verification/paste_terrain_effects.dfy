/** What `Perform` writes: which entries reach their cells, with what, and
    which of them leave an undo record. */
module PasteTerrainEffects {
  import opened Results
  import opened GameMath
  import opened CopiedMapData
  import opened Grid
  import opened PasteTerrainMutation
  import opened PasteTerrainLemmas

  /** The entries of `es` that `keep` accepts, in their order. */
  function Select(es: seq<CopiedEntry>, keep: CopiedEntry -> bool): (r: seq<CopiedEntry>)
    ensures |r| <= |es|
  {
    if es == [] then []
    else (if keep(es[0]) then [es[0]] else []) + Select(es[1..], keep)
  }

  /** The cells the entries target from `origin`, in entry order. */
  function TargetCells(origin: Point2D, es: seq<CopiedEntry>): (r: seq<Point2D>)
    ensures |r| == |es|
    ensures forall i :: 0 <= i < |es| ==> r[i] == Plus(origin, es[i].offset)
  {
    if es == [] then [] else [Plus(origin, es[0].offset)] + TargetCells(origin, es[1..])
  }

  /** The cells a list of terrain undo records names, in record order. */
  function TerrainRecordCells(records: seq<OriginalCellTerrainData>): (r: seq<Point2D>)
    ensures |r| == |records|
    ensures forall i :: 0 <= i < |records| ==> r[i] == records[i].cellCoords
  {
    if records == [] then [] else [records[0].cellCoords] + TerrainRecordCells(records[1..])
  }

  /** The cells a list of overlay undo records names, in record order. */
  function OverlayRecordCells(records: seq<OriginalOverlayInfo>): (r: seq<Point2D>)
    ensures |r| == |records|
    ensures forall i :: 0 <= i < |records| ==> r[i] == records[i].cellCoords
  {
    if records == [] then [] else [records[0].cellCoords] + OverlayRecordCells(records[1..])
  }

  /** A terrain entry is applied when its cell is on the map. */
  function LandsOn(cells: set<Point2D>, origin: Point2D): CopiedEntry -> bool {
    (e: CopiedEntry) => Plus(origin, e.offset) in cells
  }

  /** An overlay entry is applied when its cell is on the map and its type
      name is in the overlay table. */
  function OverlayResolves(rules: Rules, cells: set<Point2D>, origin: Point2D): CopiedEntry -> bool {
    (e: CopiedEntry) =>
      && Plus(origin, e.offset) in cells
      && e.CopiedOverlayEntry? && FindByName(rules.overlayTypes, e.overlayTypeName).Some?
  }

  /** The cells on the map that hold no terrain object. */
  function FreeCells(tiles: Tiles): set<Point2D> {
    set p | p in tiles && tiles[p].terrainObject.None?
  }

  /** A terrain-object entry is applied when its cell is on the map and free
      and its type name is in the terrain table. */
  function ObjectPlaceable(rules: Rules, free: set<Point2D>, origin: Point2D): CopiedEntry -> bool {
    (e: CopiedEntry) =>
      && Plus(origin, e.offset) in free
      && e.CopiedTerrainObjectEntry? && FindByName(rules.terrainTypes, e.terrainObjectTypeName).Some?
  }

  // ------------------------------------------------------------ terrain pass

  /** Every terrain entry on the map leaves its tile and sub-tile index on its
      cell, unless a later entry targets the same cell (the last one wins). */
  lemma {:induction false} TerrainPasteWrites(tiles: Tiles, origin: Point2D, es: seq<CopiedEntry>)
    requires forall i :: 0 <= i < |es| ==> es[i].CopiedTerrainEntry?
    ensures var r := PasteTerrainEntries(tiles, origin, es);
            forall i | 0 <= i < |es| && Plus(origin, es[i].offset) in tiles && es[i].offset !in Offsets(es[i + 1..]) ::
              && r.tiles[Plus(origin, es[i].offset)].tileIndex == es[i].tileIndex
              && r.tiles[Plus(origin, es[i].offset)].subTileIndex == es[i].subTileIndex
  {
    if es != [] {
      var e := es[0];
      var cell := Plus(origin, e.offset);
      var next := if cell in tiles then tiles[cell := tiles[cell].(tileIndex := e.tileIndex, subTileIndex := e.subTileIndex)]
                  else tiles;
      var r := PasteTerrainEntries(next, origin, es[1..]);
      assert PasteTerrainEntries(tiles, origin, es).tiles == r.tiles;
      TerrainPasteWrites(next, origin, es[1..]);
      if cell in tiles {
        TerrainFootprint(next, origin, es[1..]);
        OffsetToPlus(origin, e.offset);
      }
      forall i | 0 < i < |es| && Plus(origin, es[i].offset) in tiles && es[i].offset !in Offsets(es[i + 1..])
        ensures r.tiles[Plus(origin, es[i].offset)].tileIndex == es[i].tileIndex
        ensures r.tiles[Plus(origin, es[i].offset)].subTileIndex == es[i].subTileIndex
      {
        assert es[1..][i - 1] == es[i];
        assert es[1..][i - 1 + 1..] == es[i + 1..];
      }
    }
  }

  /** The terrain pass leaves one record per entry on the map, in entry order,
      each for that entry's cell. */
  lemma {:induction false} TerrainPasteRecords(tiles: Tiles, origin: Point2D, es: seq<CopiedEntry>)
    requires forall i :: 0 <= i < |es| ==> es[i].CopiedTerrainEntry?
    ensures TerrainRecordCells(PasteTerrainEntries(tiles, origin, es).records)
            == TargetCells(origin, Select(es, LandsOn(tiles.Keys, origin)))
  {
    if es != [] {
      var e := es[0];
      var cell := Plus(origin, e.offset);
      if cell !in tiles {
        TerrainPasteRecords(tiles, origin, es[1..]);
      } else {
        var t1 := tiles[cell := tiles[cell].(tileIndex := e.tileIndex, subTileIndex := e.subTileIndex)];
        var rest := PasteTerrainEntries(t1, origin, es[1..]).records;
        var applied := Select(es[1..], LandsOn(tiles.Keys, origin));
        assert t1.Keys == tiles.Keys;
        TerrainPasteRecords(t1, origin, es[1..]);
        var rec := OriginalCellTerrainData(cell, tiles[cell].tileIndex, tiles[cell].subTileIndex);
        assert ([rec] + rest)[1..] == rest;
        assert ([e] + applied)[1..] == applied;
      }
    }
  }

  // ------------------------------------------------------------ overlay pass

  /** The overlay an applied overlay entry puts on its cell. */
  function PlacedOverlay(rules: Rules, origin: Point2D, e: CopiedEntry): Option<Grid.Overlay>
    requires e.CopiedOverlayEntry?
  {
    match FindByName(rules.overlayTypes, e.overlayTypeName)
    case None => None
    case Some(k) => Some(Grid.Overlay(rules.overlayTypes[k], e.frameIndex, Plus(origin, e.offset)))
  }

  /** Every overlay entry on the map whose type name is in the table puts a
      new overlay of that type, with its frame, on its cell, unless a later
      entry targets the same cell. */
  lemma {:induction false} OverlayPasteWrites(rules: Rules, tiles: Tiles, origin: Point2D, es: seq<CopiedEntry>)
    requires forall i :: 0 <= i < |es| ==> es[i].CopiedOverlayEntry?
    ensures var r := PasteOverlayEntries(rules, tiles, origin, es);
            forall i | && 0 <= i < |es| && Plus(origin, es[i].offset) in tiles
                       && FindByName(rules.overlayTypes, es[i].overlayTypeName).Some?
                       && es[i].offset !in Offsets(es[i + 1..]) ::
              r.tiles[Plus(origin, es[i].offset)].overlay == PlacedOverlay(rules, origin, es[i])
  {
    if es != [] {
      var e := es[0];
      var cell := Plus(origin, e.offset);
      var applied := cell in tiles && FindByName(rules.overlayTypes, e.overlayTypeName).Some?;
      var next := if applied then tiles[cell := tiles[cell].(overlay := PlacedOverlay(rules, origin, e))] else tiles;
      var r := PasteOverlayEntries(rules, next, origin, es[1..]);
      assert PasteOverlayEntries(rules, tiles, origin, es).tiles == r.tiles;
      OverlayPasteWrites(rules, next, origin, es[1..]);
      if applied {
        OverlayFootprint(rules, next, origin, es[1..]);
        OffsetToPlus(origin, e.offset);
      }
      forall i | && 0 < i < |es| && Plus(origin, es[i].offset) in tiles
                 && FindByName(rules.overlayTypes, es[i].overlayTypeName).Some?
                 && es[i].offset !in Offsets(es[i + 1..])
        ensures r.tiles[Plus(origin, es[i].offset)].overlay == PlacedOverlay(rules, origin, es[i])
      {
        assert es[1..][i - 1] == es[i];
        assert es[1..][i - 1 + 1..] == es[i + 1..];
      }
    }
  }

  /** The overlay pass leaves one record per entry on the map whose type name
      is in the table, in entry order, each for that entry's cell. */
  lemma {:induction false} OverlayPasteRecords(rules: Rules, tiles: Tiles, origin: Point2D, es: seq<CopiedEntry>)
    requires forall i :: 0 <= i < |es| ==> es[i].CopiedOverlayEntry?
    ensures OverlayRecordCells(PasteOverlayEntries(rules, tiles, origin, es).records)
            == TargetCells(origin, Select(es, OverlayResolves(rules, tiles.Keys, origin)))
  {
    if es != [] {
      var e := es[0];
      var cell := Plus(origin, e.offset);
      if cell !in tiles || FindByName(rules.overlayTypes, e.overlayTypeName).None? {
        OverlayPasteRecords(rules, tiles, origin, es[1..]);
      } else {
        var t1 := tiles[cell := tiles[cell].(overlay := PlacedOverlay(rules, origin, e))];
        var rest := PasteOverlayEntries(rules, t1, origin, es[1..]).records;
        var applied := Select(es[1..], OverlayResolves(rules, tiles.Keys, origin));
        assert t1.Keys == tiles.Keys;
        OverlayPasteRecords(rules, t1, origin, es[1..]);
        var rec := OverlayRecord(tiles[cell], cell);
        assert ([rec] + rest)[1..] == rest;
        assert ([e] + applied)[1..] == applied;
      }
    }
  }

  // ----------------------------------------------------- terrain object pass

  /** The object an applied terrain-object entry puts on its cell. */
  function PlacedObject(rules: Rules, origin: Point2D, e: CopiedEntry): Option<Grid.TerrainObject>
    requires e.CopiedTerrainObjectEntry?
  {
    match FindByName(rules.terrainTypes, e.terrainObjectTypeName)
    case None => None
    case Some(k) => Some(Grid.TerrainObject(rules.terrainTypes[k], Plus(origin, e.offset)))
  }

  /** Every terrain-object entry whose cell is on the map and free, and whose
      type name is in the table, puts a new object of that type on its cell,
      unless an earlier entry targets the same cell (the first one wins,
      since an occupied cell is skipped). */
  lemma {:induction false} TerrainObjectPasteWrites(rules: Rules, tiles: Tiles, origin: Point2D, es: seq<CopiedEntry>)
    requires forall i :: 0 <= i < |es| ==> es[i].CopiedTerrainObjectEntry?
    ensures var r := PasteTerrainObjectEntries(rules, tiles, origin, es);
            forall i | && 0 <= i < |es| && Plus(origin, es[i].offset) in tiles
                       && tiles[Plus(origin, es[i].offset)].terrainObject.None?
                       && FindByName(rules.terrainTypes, es[i].terrainObjectTypeName).Some?
                       && es[i].offset !in Offsets(es[..i]) ::
              r.tiles[Plus(origin, es[i].offset)].terrainObject == PlacedObject(rules, origin, es[i])
  {
    if es != [] {
      var e := es[0];
      var cell := Plus(origin, e.offset);
      var applied := cell in tiles && tiles[cell].terrainObject.None?
                     && FindByName(rules.terrainTypes, e.terrainObjectTypeName).Some?;
      var next := if applied then tiles[cell := tiles[cell].(terrainObject := PlacedObject(rules, origin, e))] else tiles;
      var r := PasteTerrainObjectEntries(rules, next, origin, es[1..]);
      assert PasteTerrainObjectEntries(rules, tiles, origin, es).tiles == r.tiles;
      TerrainObjectPasteWrites(rules, next, origin, es[1..]);
      forall i | && 0 <= i < |es| && Plus(origin, es[i].offset) in tiles
                 && tiles[Plus(origin, es[i].offset)].terrainObject.None?
                 && FindByName(rules.terrainTypes, es[i].terrainObjectTypeName).Some?
                 && es[i].offset !in Offsets(es[..i])
        ensures r.tiles[Plus(origin, es[i].offset)].terrainObject == PlacedObject(rules, origin, es[i])
      {
        if i == 0 {
          assert next[cell].terrainObject.Some?;
        } else {
          LaterEntryOnOtherCell(origin, es, i);
          assert es[1..][..i - 1] == es[1..i];
          assert es[1..][i - 1] == es[i];
        }
      }
    }
  }

  /** An entry whose offset no earlier entry has targets a cell other than the
      first entry's, and no entry between them has its offset either. */
  lemma LaterEntryOnOtherCell(origin: Point2D, es: seq<CopiedEntry>, i: nat)
    requires 0 < i < |es| && es[i].offset !in Offsets(es[..i])
    ensures Plus(origin, es[i].offset) != Plus(origin, es[0].offset)
    ensures es[i].offset !in Offsets(es[1..i])
  {
    assert es[..i][0] == es[0];
    assert es[..i][1..] == es[1..i];
  }

  /** Placing an object on a free cell takes exactly that cell out of the
      free set. */
  lemma FreeCellsAfterPlacing(tiles: Tiles, cell: Point2D, v: MapTile)
    requires cell in tiles && v.terrainObject.Some?
    ensures FreeCells(tiles[cell := v]) == FreeCells(tiles) - {cell}
  {
  }

  /** With no two terrain-object entries on one cell, the pass leaves one
      record per entry whose cell is free and whose type name is in the
      table, in entry order, each for that entry's cell. */
  lemma {:induction false} TerrainObjectPasteRecords(rules: Rules, tiles: Tiles, origin: Point2D, es: seq<CopiedEntry>)
    requires forall i :: 0 <= i < |es| ==> es[i].CopiedTerrainObjectEntry?
    requires DistinctOffsets(es)
    ensures PasteTerrainObjectEntries(rules, tiles, origin, es).records
            == TargetCells(origin, Select(es, ObjectPlaceable(rules, FreeCells(tiles), origin)))
  {
    if es != [] {
      var e := es[0];
      var cell := Plus(origin, e.offset);
      if cell !in tiles || tiles[cell].terrainObject.Some?
         || FindByName(rules.terrainTypes, e.terrainObjectTypeName).None? {
        TerrainObjectPasteRecords(rules, tiles, origin, es[1..]);
      } else {
        var t1 := tiles[cell := tiles[cell].(terrainObject := PlacedObject(rules, origin, e))];
        var applied := Select(es[1..], ObjectPlaceable(rules, FreeCells(tiles), origin));
        TerrainObjectPasteRecords(rules, t1, origin, es[1..]);
        FreeCellsAfterPlacing(tiles, cell, t1[cell]);
        OthersOnOtherCells(origin, es);
        SelectSkipsCell(rules, FreeCells(tiles), origin, es[1..], cell);
        assert ([e] + applied)[1..] == applied;
      }
    }
  }

  /** With distinct offsets, no later entry targets the first entry's cell. */
  lemma OthersOnOtherCells(origin: Point2D, es: seq<CopiedEntry>)
    requires es != [] && DistinctOffsets(es)
    ensures forall i :: 0 <= i < |es[1..]| ==> Plus(origin, es[1..][i].offset) != Plus(origin, es[0].offset)
  {
    assert es[0].offset !in Offsets(es[1..]);
  }

  /** Entries that never target `cell` do not notice it leaving the free set. */
  lemma {:induction false} SelectSkipsCell(rules: Rules, free: set<Point2D>, origin: Point2D, es: seq<CopiedEntry>,
                                           cell: Point2D)
    requires forall i :: 0 <= i < |es| ==> Plus(origin, es[i].offset) != cell
    ensures Select(es, ObjectPlaceable(rules, free - {cell}, origin)) == Select(es, ObjectPlaceable(rules, free, origin))
  {
    if es != [] {
      SelectSkipsCell(rules, free, origin, es[1..], cell);
    }
  }
  // ------------------------------------------------------------ the mutation

  /** After `Perform`, every terrain entry on the map has put its tile and
      sub-tile index on its cell, unless a later terrain entry targets the
      same cell. */
  lemma PerformWritesTerrain(m: Map, mu: Mutation)
    ensures var p := Perform(m, mu);
            var es := TerrainBucket(mu);
            forall i | 0 <= i < |es| && Plus(mu.origin, es[i].offset) in m.tiles && es[i].offset !in Offsets(es[i + 1..]) ::
              && p.result.tiles[Plus(mu.origin, es[i].offset)].tileIndex == es[i].tileIndex
              && p.result.tiles[Plus(mu.origin, es[i].offset)].subTileIndex == es[i].subTileIndex
  {
    var terrain := PasteTerrainEntries(m.tiles, mu.origin, TerrainBucket(mu));
    var overlays := PasteOverlayEntries(m.rules, terrain.tiles, mu.origin, OverlayBucket(mu));
    var objects := PasteTerrainObjectEntries(m.rules, overlays.tiles, mu.origin, TerrainObjectBucket(mu));
    TerrainPasteWrites(m.tiles, mu.origin, TerrainBucket(mu));
    assert SameTerrain(terrain.tiles, objects.tiles);
  }

  /** After `Perform`, every overlay entry on the map whose type name is in
      the table has put its overlay on its cell, unless a later overlay entry
      targets the same cell. */
  lemma PerformWritesOverlays(m: Map, mu: Mutation)
    ensures var p := Perform(m, mu);
            var es := OverlayBucket(mu);
            forall i | && 0 <= i < |es| && Plus(mu.origin, es[i].offset) in m.tiles
                       && FindByName(m.rules.overlayTypes, es[i].overlayTypeName).Some?
                       && es[i].offset !in Offsets(es[i + 1..]) ::
              p.result.tiles[Plus(mu.origin, es[i].offset)].overlay == PlacedOverlay(m.rules, mu.origin, es[i])
  {
    var terrain := PasteTerrainEntries(m.tiles, mu.origin, TerrainBucket(mu));
    var overlays := PasteOverlayEntries(m.rules, terrain.tiles, mu.origin, OverlayBucket(mu));
    var objects := PasteTerrainObjectEntries(m.rules, overlays.tiles, mu.origin, TerrainObjectBucket(mu));
    OverlayPasteWrites(m.rules, terrain.tiles, mu.origin, OverlayBucket(mu));
  }

  /** After `Perform`, every terrain-object entry whose cell was on the map and
      free, and whose type name is in the table, has put its object there,
      unless an earlier terrain-object entry targets the same cell. */
  lemma PerformPlacesTerrainObjects(m: Map, mu: Mutation)
    ensures var p := Perform(m, mu);
            var es := TerrainObjectBucket(mu);
            forall i | && 0 <= i < |es| && Plus(mu.origin, es[i].offset) in m.tiles
                       && m.tiles[Plus(mu.origin, es[i].offset)].terrainObject.None?
                       && FindByName(m.rules.terrainTypes, es[i].terrainObjectTypeName).Some?
                       && es[i].offset !in Offsets(es[..i]) ::
              p.result.tiles[Plus(mu.origin, es[i].offset)].terrainObject == PlacedObject(m.rules, mu.origin, es[i])
  {
    var terrain := PasteTerrainEntries(m.tiles, mu.origin, TerrainBucket(mu));
    var overlays := PasteOverlayEntries(m.rules, terrain.tiles, mu.origin, OverlayBucket(mu));
    assert SameObjects(m.tiles, overlays.tiles);
    TerrainObjectPasteWrites(m.rules, overlays.tiles, mu.origin, TerrainObjectBucket(mu));
  }

  /** `Perform`'s terrain records: one per terrain entry on the map, in entry
      order, each for that entry's cell. */
  lemma PerformTerrainRecords(m: Map, mu: Mutation)
    ensures TerrainRecordCells(Perform(m, mu).undo.terrain)
            == TargetCells(mu.origin, Select(TerrainBucket(mu), LandsOn(m.tiles.Keys, mu.origin)))
  {
    TerrainPasteRecords(m.tiles, mu.origin, TerrainBucket(mu));
  }

  /** `Perform`'s overlay records: one per overlay entry on the map whose type
      name is in the table, in entry order, each for that entry's cell. */
  lemma PerformOverlayRecords(m: Map, mu: Mutation)
    ensures OverlayRecordCells(Perform(m, mu).undo.overlay)
            == TargetCells(mu.origin, Select(OverlayBucket(mu), OverlayResolves(m.rules, m.tiles.Keys, mu.origin)))
  {
    var terrain := PasteTerrainEntries(m.tiles, mu.origin, TerrainBucket(mu));
    OverlayPasteRecords(m.rules, terrain.tiles, mu.origin, OverlayBucket(mu));
  }

  /** Cells agreeing on their terrain objects have the same free cells. */
  lemma FreeCellsOfSameObjects(a: Tiles, b: Tiles)
    requires SameObjects(a, b)
    ensures FreeCells(a) == FreeCells(b)
  {
  }

  /** With no two terrain-object entries on one cell, `Perform` records one
      cell per terrain-object entry on a free cell with a known type, in entry
      order. */
  lemma PerformTerrainObjectRecords(m: Map, mu: Mutation)
    requires DistinctOffsets(TerrainObjectBucket(mu))
    ensures Perform(m, mu).undo.terrainObjectCells
            == TargetCells(mu.origin, Select(TerrainObjectBucket(mu), ObjectPlaceable(m.rules, FreeCells(m.tiles), mu.origin)))
  {
    var terrain := PasteTerrainEntries(m.tiles, mu.origin, TerrainBucket(mu));
    var overlays := PasteOverlayEntries(m.rules, terrain.tiles, mu.origin, OverlayBucket(mu));
    FreeCellsOfSameObjects(m.tiles, overlays.tiles);
    TerrainObjectPasteRecords(m.rules, overlays.tiles, mu.origin, TerrainObjectBucket(mu));
  }
}
