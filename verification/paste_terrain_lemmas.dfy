/** What `Perform` leaves behind and what `Undo` restores. */
module PasteTerrainLemmas {
  import opened Results
  import opened Bytes
  import opened GameMath
  import opened CopiedMapData
  import opened Grid
  import opened PasteTerrainMutation

  lemma OffsetToPlus(origin: Point2D, offset: Point2D)
    ensures OffsetTo(origin, Plus(origin, offset)) == offset
  {
  }

  /** `FindAll` keeps the order of the list: the bucket of a concatenation
      is the concatenation of the buckets. */
  lemma {:induction false} BucketAppend(a: seq<CopiedEntry>, b: seq<CopiedEntry>, kind: CopiedEntryType)
    ensures Bucket(a + b, kind) == Bucket(a, kind) + Bucket(b, kind)
  {
    if a == [] {
      assert a + b == b;
    } else {
      assert (a + b)[1..] == a[1..] + b;
      BucketAppend(a[1..], b, kind);
    }
  }

  /** A single entry is kept exactly when it is of the bucket's kind. Together
      with `BucketAppend` this fixes every bucket. */
  lemma BucketOfOne(e: CopiedEntry, kind: CopiedEntryType)
    ensures Bucket([e], kind) == if e.EntryType() == kind then [e] else []
  {
    assert [e][1..] == [];
  }

  /** Every entry lands in exactly one of the three buckets, as often as it
      occurs in the list. */
  lemma {:induction false} BucketsPartition(es: seq<CopiedEntry>)
    ensures multiset(Bucket(es, CopiedEntryType.Terrain)) + multiset(Bucket(es, CopiedEntryType.Overlay))
            + multiset(Bucket(es, CopiedEntryType.TerrainObject)) == multiset(es)
    ensures |Bucket(es, CopiedEntryType.Terrain)| + |Bucket(es, CopiedEntryType.Overlay)|
            + |Bucket(es, CopiedEntryType.TerrainObject)| == |es|
  {
    if es != [] {
      var rest := es[1..];
      BucketsPartition(rest);
      assert multiset(es) == multiset{es[0]} + multiset(rest) by {
        assert es == [es[0]] + rest;
      }
      BucketStep(es, CopiedEntryType.Terrain);
      BucketStep(es, CopiedEntryType.Overlay);
      BucketStep(es, CopiedEntryType.TerrainObject);
      PartitionStep(es[0], multiset(rest),
                    multiset(Bucket(es, CopiedEntryType.Terrain)), multiset(Bucket(rest, CopiedEntryType.Terrain)),
                    multiset(Bucket(es, CopiedEntryType.Overlay)), multiset(Bucket(rest, CopiedEntryType.Overlay)),
                    multiset(Bucket(es, CopiedEntryType.TerrainObject)), multiset(Bucket(rest, CopiedEntryType.TerrainObject)));
    }
    assert |multiset(Bucket(es, CopiedEntryType.Terrain)) + multiset(Bucket(es, CopiedEntryType.Overlay))
            + multiset(Bucket(es, CopiedEntryType.TerrainObject))| == |multiset(es)|;
  }

  /** The bucket of a non-empty list, counted as a multiset: its first entry
      if it is of the kind, then the bucket of the rest. */
  lemma BucketStep(es: seq<CopiedEntry>, kind: CopiedEntryType)
    requires es != []
    ensures multiset(Bucket(es, kind))
            == (if es[0].EntryType() == kind then multiset{es[0]} else multiset{}) + multiset(Bucket(es[1..], kind))
  {
  }

  /** The first entry goes to exactly one of the three buckets. */
  lemma PartitionStep(x: CopiedEntry, rest: multiset<CopiedEntry>,
                      terrain: multiset<CopiedEntry>, terrainRest: multiset<CopiedEntry>,
                      overlay: multiset<CopiedEntry>, overlayRest: multiset<CopiedEntry>,
                      objects: multiset<CopiedEntry>, objectsRest: multiset<CopiedEntry>)
    requires terrainRest + overlayRest + objectsRest == rest
    requires terrain == (if x.EntryType() == CopiedEntryType.Terrain then multiset{x} else multiset{}) + terrainRest
    requires overlay == (if x.EntryType() == CopiedEntryType.Overlay then multiset{x} else multiset{}) + overlayRest
    requires objects == (if x.EntryType() == CopiedEntryType.TerrainObject then multiset{x} else multiset{}) + objectsRest
    ensures terrain + overlay + objects == multiset{x} + rest
  {
    match x
    case CopiedTerrainEntry(_, _, _) =>
    case CopiedOverlayEntry(_, _, _) =>
    case CopiedTerrainObjectEntry(_, _) =>
  }

  // ------------------------------------------------------------ footprints

  /** The terrain loop records only cells some entry targets, and a cell no
      entry targets keeps its value. */
  lemma {:induction false} TerrainFootprint(tiles: Tiles, origin: Point2D, es: seq<CopiedEntry>)
    requires forall i :: 0 <= i < |es| ==> es[i].CopiedTerrainEntry?
    ensures var r := PasteTerrainEntries(tiles, origin, es);
            && (forall i :: 0 <= i < |r.records| ==> OffsetTo(origin, r.records[i].cellCoords) in Offsets(es))
            && (forall p | p in tiles && OffsetTo(origin, p) !in Offsets(es) :: r.tiles[p] == tiles[p])
  {
    if es != [] {
      var e := es[0];
      var cell := Plus(origin, e.offset);
      OffsetToPlus(origin, e.offset);
      if cell !in tiles {
        TerrainFootprint(tiles, origin, es[1..]);
      } else {
        var before := tiles[cell];
        TerrainFootprint(tiles[cell := before.(tileIndex := e.tileIndex, subTileIndex := e.subTileIndex)], origin, es[1..]);
      }
    }
  }

  /** The overlay loop records only cells some entry targets, and a cell no
      entry targets keeps its value. */
  lemma {:induction false} OverlayFootprint(rules: Rules, tiles: Tiles, origin: Point2D, es: seq<CopiedEntry>)
    requires forall i :: 0 <= i < |es| ==> es[i].CopiedOverlayEntry?
    ensures var r := PasteOverlayEntries(rules, tiles, origin, es);
            && (forall i :: 0 <= i < |r.records| ==> OffsetTo(origin, r.records[i].cellCoords) in Offsets(es))
            && (forall p | p in tiles && OffsetTo(origin, p) !in Offsets(es) :: r.tiles[p] == tiles[p])
  {
    if es != [] {
      var e := es[0];
      var cell := Plus(origin, e.offset);
      OffsetToPlus(origin, e.offset);
      if cell !in tiles || FindByName(rules.overlayTypes, e.overlayTypeName).None? {
        OverlayFootprint(rules, tiles, origin, es[1..]);
      } else {
        var k := FindByName(rules.overlayTypes, e.overlayTypeName).value;
        var placed := Grid.Overlay(rules.overlayTypes[k], e.frameIndex, cell);
        OverlayFootprint(rules, tiles[cell := tiles[cell].(overlay := Some(placed))], origin, es[1..]);
      }
    }
  }

  /** The terrain-object loop records only cells some entry targets, and a
      cell no entry targets keeps its value. */
  lemma {:induction false} TerrainObjectFootprint(rules: Rules, tiles: Tiles, origin: Point2D, es: seq<CopiedEntry>)
    requires forall i :: 0 <= i < |es| ==> es[i].CopiedTerrainObjectEntry?
    ensures var r := PasteTerrainObjectEntries(rules, tiles, origin, es);
            && (forall i :: 0 <= i < |r.records| ==> OffsetTo(origin, r.records[i]) in Offsets(es))
            && (forall p | p in tiles && OffsetTo(origin, p) !in Offsets(es) :: r.tiles[p] == tiles[p])
  {
    if es != [] {
      var e := es[0];
      var cell := Plus(origin, e.offset);
      OffsetToPlus(origin, e.offset);
      if cell !in tiles || tiles[cell].terrainObject.Some?
         || FindByName(rules.terrainTypes, e.terrainObjectTypeName).None? {
        TerrainObjectFootprint(rules, tiles, origin, es[1..]);
      } else {
        var k := FindByName(rules.terrainTypes, e.terrainObjectTypeName).value;
        var placed := Grid.TerrainObject(rules.terrainTypes[k], cell);
        TerrainObjectFootprint(rules, tiles[cell := tiles[cell].(terrainObject := Some(placed))], origin, es[1..]);
      }
    }
  }

  /** No cell occurs twice in the list. */
  predicate DistinctCells(cells: seq<Point2D>) {
    cells == [] || (cells[0] !in cells[1..] && DistinctCells(cells[1..]))
  }

  /** Whatever the offsets, the terrain-object loop records no cell twice: a
      placed object makes its cell occupied, and an occupied cell is
      skipped. */
  lemma {:induction false} TerrainObjectRecordsDistinct(rules: Rules, tiles: Tiles, origin: Point2D, es: seq<CopiedEntry>)
    requires forall i :: 0 <= i < |es| ==> es[i].CopiedTerrainObjectEntry?
    ensures DistinctCells(PasteTerrainObjectEntries(rules, tiles, origin, es).records)
  {
    if es != [] {
      var e := es[0];
      var cell := Plus(origin, e.offset);
      if cell !in tiles || tiles[cell].terrainObject.Some?
         || FindByName(rules.terrainTypes, e.terrainObjectTypeName).None? {
        TerrainObjectRecordsDistinct(rules, tiles, origin, es[1..]);
      } else {
        var k := FindByName(rules.terrainTypes, e.terrainObjectTypeName).value;
        var next := tiles[cell := tiles[cell].(terrainObject := Some(Grid.TerrainObject(rules.terrainTypes[k], cell)))];
        var rest := PasteTerrainObjectEntries(rules, next, origin, es[1..]).records;
        TerrainObjectRecordsDistinct(rules, next, origin, es[1..]);
        assert cell !in rest by {
          forall i | 0 <= i < |rest|
            ensures rest[i] != cell
          {
            assert next[rest[i]].terrainObject.None?;
          }
        }
        assert ([cell] + rest)[1..] == rest;
      }
    }
  }

  // --------------------------------------------------- undo past other cells

  /** Terrain records for other cells do not see a write to `c`. */
  lemma {:induction false} UndoTerrainSkipsCell(tiles: Tiles, records: seq<OriginalCellTerrainData>, c: Point2D, v: MapTile)
    requires TerrainRecordsApply(tiles, records) && c in tiles
    requires forall i :: 0 <= i < |records| ==> records[i].cellCoords != c
    ensures UndoTerrain(tiles[c := v], records) == UndoTerrain(tiles, records)[c := v]
  {
    if records != [] {
      var rec := records[0];
      var d := rec.cellCoords;
      var x := tiles[d].(tileIndex := rec.tileIndex, subTileIndex := rec.subTileIndex);
      assert tiles[c := v][d] == tiles[d];
      assert tiles[c := v][d := x] == tiles[d := x][c := v];
      UndoTerrainSkipsCell(tiles[d := x], records[1..], c, v);
    }
  }

  /** Overlay records for other cells do not see a write to `c`. */
  lemma {:induction false} UndoOverlaysSkipsCell(rules: Rules, tiles: Tiles, records: seq<OriginalOverlayInfo>, c: Point2D, v: MapTile)
    requires OverlayRecordsApply(rules, tiles, records) && c in tiles
    requires forall i :: 0 <= i < |records| ==> records[i].cellCoords != c
    ensures UndoOverlays(rules, tiles[c := v], records) == UndoOverlays(rules, tiles, records)[c := v]
  {
    if records != [] {
      var rec := records[0];
      var d := rec.cellCoords;
      var restored := if rec.overlayTypeIndex == -1 then None
                      else Some(Grid.Overlay(rules.overlayTypes[rec.overlayTypeIndex], rec.frameIndex, d));
      var x := tiles[d].(overlay := restored);
      assert tiles[c := v][d] == tiles[d];
      assert tiles[c := v][d := x] == tiles[d := x][c := v];
      UndoOverlaysSkipsCell(rules, tiles[d := x], records[1..], c, v);
    }
  }

  function ClearObject(tiles: Tiles, c: Point2D): Tiles
    requires c in tiles
  {
    tiles[c := tiles[c].(terrainObject := None)]
  }

  /** Removing terrain objects commutes with removing one more. */
  lemma {:induction false} RemoveCommutes(tiles: Tiles, cells: seq<Point2D>, c: Point2D)
    requires CellsExist(tiles, cells) && c in tiles
    ensures RemoveTerrainObjects(ClearObject(tiles, c), cells) == ClearObject(RemoveTerrainObjects(tiles, cells), c)
  {
    if cells != [] {
      var d := cells[0];
      assert ClearObject(ClearObject(tiles, c), d) == ClearObject(ClearObject(tiles, d), c);
      RemoveCommutes(ClearObject(tiles, d), cells[1..], c);
    }
  }

  // ------------------------------------------------------ restore per bucket

  /** With no two terrain entries on one cell, replaying the terrain records
      gives back the cells exactly. */
  lemma {:induction false} UndoTerrainRestores(tiles: Tiles, origin: Point2D, es: seq<CopiedEntry>)
    requires forall i :: 0 <= i < |es| ==> es[i].CopiedTerrainEntry?
    requires DistinctOffsets(es)
    ensures var r := PasteTerrainEntries(tiles, origin, es);
            TerrainRecordsApply(r.tiles, r.records) && UndoTerrain(r.tiles, r.records) == tiles
  {
    if es != [] {
      var e := es[0];
      var cell := Plus(origin, e.offset);
      if cell !in tiles {
        UndoTerrainRestores(tiles, origin, es[1..]);
      } else {
        var before := tiles[cell];
        var t1 := tiles[cell := before.(tileIndex := e.tileIndex, subTileIndex := e.subTileIndex)];
        var rest := PasteTerrainEntries(t1, origin, es[1..]);
        var rec := OriginalCellTerrainData(cell, before.tileIndex, before.subTileIndex);
        UndoTerrainRestores(t1, origin, es[1..]);
        TerrainFootprint(t1, origin, es[1..]);
        OffsetToPlus(origin, e.offset);
        assert forall i :: 0 <= i < |rest.records| ==> rest.records[i].cellCoords != cell;
        assert rest.tiles[cell] == t1[cell];
        UndoTerrainStep(tiles, cell, t1[cell], rest.tiles, rest.records);
      }
    }
  }

  /** Every terrain record holds the tile and sub-tile index its cell had. */
  predicate CapturesTerrain(tiles: Tiles, records: seq<OriginalCellTerrainData>) {
    forall i :: 0 <= i < |records| ==>
      && records[i].cellCoords in tiles
      && records[i].tileIndex == tiles[records[i].cellCoords].tileIndex
      && records[i].subTileIndex == tiles[records[i].cellCoords].subTileIndex
  }

  /** With no two terrain entries on one cell, every terrain record holds the
      values its cell had before the paste. */
  lemma {:induction false} TerrainRecordsCapture(tiles: Tiles, origin: Point2D, es: seq<CopiedEntry>)
    requires forall i :: 0 <= i < |es| ==> es[i].CopiedTerrainEntry?
    requires DistinctOffsets(es)
    ensures CapturesTerrain(tiles, PasteTerrainEntries(tiles, origin, es).records)
  {
    if es != [] {
      var e := es[0];
      var cell := Plus(origin, e.offset);
      if cell !in tiles {
        TerrainRecordsCapture(tiles, origin, es[1..]);
      } else {
        var before := tiles[cell];
        var t1 := tiles[cell := before.(tileIndex := e.tileIndex, subTileIndex := e.subTileIndex)];
        var rest := PasteTerrainEntries(t1, origin, es[1..]);
        TerrainRecordsCapture(t1, origin, es[1..]);
        TerrainFootprint(t1, origin, es[1..]);
        OffsetToPlus(origin, e.offset);
        assert forall i :: 0 <= i < |rest.records| ==> rest.records[i].cellCoords != cell;
        assert CapturesTerrain(tiles, rest.records);
      }
    }
  }

  /** One step of `UndoTerrainRestores`: the first record puts back the one
      cell the later records never touch. */
  lemma UndoTerrainStep(tiles: Tiles, cell: Point2D, pasted: MapTile, restTiles: Tiles, records: seq<OriginalCellTerrainData>)
    requires cell in tiles && TerrainRecordsApply(restTiles, records) && cell in restTiles
    requires pasted.overlay == tiles[cell].overlay && pasted.terrainObject == tiles[cell].terrainObject
    requires restTiles[cell] == pasted
    requires forall i :: 0 <= i < |records| ==> records[i].cellCoords != cell
    requires UndoTerrain(restTiles, records) == tiles[cell := pasted]
    ensures var rec := OriginalCellTerrainData(cell, tiles[cell].tileIndex, tiles[cell].subTileIndex);
            UndoTerrain(restTiles, [rec] + records) == tiles
  {
    var rec := OriginalCellTerrainData(cell, tiles[cell].tileIndex, tiles[cell].subTileIndex);
    UndoTerrainFirst(restTiles, rec, records);
    UndoTerrainSkipsCell(restTiles, records, cell, tiles[cell]);
    WriteBack(tiles, cell, pasted);
  }

  /** `UndoTerrain` applies its first record, then the others. */
  lemma UndoTerrainFirst(tiles: Tiles, rec: OriginalCellTerrainData, records: seq<OriginalCellTerrainData>)
    requires rec.cellCoords in tiles && TerrainRecordsApply(tiles, records)
    ensures var cell := rec.cellCoords;
            UndoTerrain(tiles, [rec] + records)
            == UndoTerrain(tiles[cell := tiles[cell].(tileIndex := rec.tileIndex, subTileIndex := rec.subTileIndex)], records)
  {
    assert ([rec] + records)[1..] == records;
  }

  /** Writing a cell's own value back over another undoes the other write. */
  lemma WriteBack(tiles: Tiles, cell: Point2D, other: MapTile)
    requires cell in tiles
    ensures tiles[cell := other][cell := tiles[cell]] == tiles
  {
  }

  /** The overlay loop keeps every overlay a rules-table type at its own
      index, and so its records always name a valid index or -1. */
  lemma {:induction false} OverlayRecordsValid(rules: Rules, tiles: Tiles, origin: Point2D, es: seq<CopiedEntry>)
    requires forall i :: 0 <= i < |es| ==> es[i].CopiedOverlayEntry?
    requires IndexedByPosition(rules.overlayTypes) && OverlaysFromRules(rules, tiles)
    ensures var r := PasteOverlayEntries(rules, tiles, origin, es);
            OverlayRecordsApply(rules, r.tiles, r.records) && OverlaysFromRules(rules, r.tiles)
  {
    if es != [] {
      var e := es[0];
      var cell := Plus(origin, e.offset);
      if cell !in tiles || FindByName(rules.overlayTypes, e.overlayTypeName).None? {
        OverlayRecordsValid(rules, tiles, origin, es[1..]);
      } else {
        var k := FindByName(rules.overlayTypes, e.overlayTypeName).value;
        var placed := Grid.Overlay(rules.overlayTypes[k], e.frameIndex, cell);
        var t1 := tiles[cell := tiles[cell].(overlay := Some(placed))];
        assert OverlaysFromRules(rules, t1);
        OverlayRecordsValid(rules, t1, origin, es[1..]);
      }
    }
  }

  /** Every overlay record is the record of the overlay its cell had. */
  predicate CapturesOverlays(tiles: Tiles, records: seq<OriginalOverlayInfo>) {
    forall i :: 0 <= i < |records| ==>
      records[i].cellCoords in tiles && records[i] == OverlayRecord(tiles[records[i].cellCoords], records[i].cellCoords)
  }

  /** With no two overlay entries on one cell, every overlay record holds the
      overlay its cell had before the paste: -1 and frame 0 for none. */
  lemma {:induction false} OverlayRecordsCapture(rules: Rules, tiles: Tiles, origin: Point2D, es: seq<CopiedEntry>)
    requires forall i :: 0 <= i < |es| ==> es[i].CopiedOverlayEntry?
    requires DistinctOffsets(es)
    ensures CapturesOverlays(tiles, PasteOverlayEntries(rules, tiles, origin, es).records)
  {
    if es != [] {
      var e := es[0];
      var cell := Plus(origin, e.offset);
      if cell !in tiles || FindByName(rules.overlayTypes, e.overlayTypeName).None? {
        OverlayRecordsCapture(rules, tiles, origin, es[1..]);
      } else {
        var k := FindByName(rules.overlayTypes, e.overlayTypeName).value;
        var placed := Grid.Overlay(rules.overlayTypes[k], e.frameIndex, cell);
        var t1 := tiles[cell := tiles[cell].(overlay := Some(placed))];
        var rest := PasteOverlayEntries(rules, t1, origin, es[1..]);
        OverlayRecordsCapture(rules, t1, origin, es[1..]);
        OverlayFootprint(rules, t1, origin, es[1..]);
        OffsetToPlus(origin, e.offset);
        assert forall i :: 0 <= i < |rest.records| ==> rest.records[i].cellCoords != cell;
        assert CapturesOverlays(tiles, rest.records);
      }
    }
  }

  /** With no two overlay entries on one cell and every overlay on the map a
      rules-table type at its own index, replaying the overlay records gives
      back the cells exactly, absent overlays included. */
  lemma {:induction false} UndoOverlaysRestores(rules: Rules, tiles: Tiles, origin: Point2D, es: seq<CopiedEntry>)
    requires forall i :: 0 <= i < |es| ==> es[i].CopiedOverlayEntry?
    requires IndexedByPosition(rules.overlayTypes) && OverlaysFromRules(rules, tiles)
    requires DistinctOffsets(es)
    ensures var r := PasteOverlayEntries(rules, tiles, origin, es);
            OverlayRecordsApply(rules, r.tiles, r.records) && UndoOverlays(rules, r.tiles, r.records) == tiles
  {
    OverlayRecordsValid(rules, tiles, origin, es);
    if es != [] {
      var e := es[0];
      var cell := Plus(origin, e.offset);
      if cell !in tiles || FindByName(rules.overlayTypes, e.overlayTypeName).None? {
        UndoOverlaysRestores(rules, tiles, origin, es[1..]);
      } else {
        var k := FindByName(rules.overlayTypes, e.overlayTypeName).value;
        var before := tiles[cell];
        var placed := Grid.Overlay(rules.overlayTypes[k], e.frameIndex, cell);
        var t1 := tiles[cell := before.(overlay := Some(placed))];
        var rest := PasteOverlayEntries(rules, t1, origin, es[1..]);
        var rec := OverlayRecord(before, cell);
        assert OverlaysFromRules(rules, t1);
        UndoOverlaysRestores(rules, t1, origin, es[1..]);
        OverlayFootprint(rules, t1, origin, es[1..]);
        OffsetToPlus(origin, e.offset);
        assert forall i :: 0 <= i < |rest.records| ==> rest.records[i].cellCoords != cell;
        assert rest.tiles[cell] == t1[cell];
        RebuiltOverlay(rules, tiles, cell, rec);
        UndoOverlaysStep(rules, tiles, cell, t1[cell], rest.tiles, rest.records, rec);
      }
    }
  }

  /** The overlay `Undo` rebuilds from a cell's record is the overlay the
      cell held, given the overlays come from the rules table. */
  lemma RebuiltOverlay(rules: Rules, tiles: Tiles, cell: Point2D, rec: OriginalOverlayInfo)
    requires cell in tiles && OverlaysFromRules(rules, tiles)
    requires rec == OverlayRecord(tiles[cell], cell)
    ensures rec.overlayTypeIndex == -1 || 0 <= rec.overlayTypeIndex < |rules.overlayTypes|
    ensures tiles[cell].overlay
            == if rec.overlayTypeIndex == -1 then None
               else Some(Grid.Overlay(rules.overlayTypes[rec.overlayTypeIndex], rec.frameIndex, cell))
  {
  }

  /** One step of `UndoOverlaysRestores`: the first record rebuilds the one
      cell the later records never touch. */
  lemma UndoOverlaysStep(rules: Rules, tiles: Tiles, cell: Point2D, pasted: MapTile, restTiles: Tiles,
                         records: seq<OriginalOverlayInfo>, rec: OriginalOverlayInfo)
    requires cell in tiles && OverlayRecordsApply(rules, restTiles, records) && cell in restTiles
    requires pasted.tileIndex == tiles[cell].tileIndex && pasted.subTileIndex == tiles[cell].subTileIndex
    requires pasted.terrainObject == tiles[cell].terrainObject
    requires restTiles[cell] == pasted
    requires forall i :: 0 <= i < |records| ==> records[i].cellCoords != cell
    requires UndoOverlays(rules, restTiles, records) == tiles[cell := pasted]
    requires rec.cellCoords == cell
    requires rec.overlayTypeIndex == -1 || 0 <= rec.overlayTypeIndex < |rules.overlayTypes|
    requires tiles[cell].overlay
             == if rec.overlayTypeIndex == -1 then None
                else Some(Grid.Overlay(rules.overlayTypes[rec.overlayTypeIndex], rec.frameIndex, cell))
    ensures OverlayRecordsApply(rules, restTiles, [rec] + records)
    ensures UndoOverlays(rules, restTiles, [rec] + records) == tiles
  {
    var v := pasted.(overlay := tiles[cell].overlay);
    assert v == tiles[cell];
    assert ([rec] + records)[1..] == records;
    UndoOverlaysSkipsCell(rules, restTiles, records, cell, v);
    assert tiles[cell := pasted][cell := v] == tiles;
  }

  /** Removing the recorded terrain objects gives back the cells exactly: a
      recorded cell was free before its object was placed. */
  lemma {:induction false} RemoveTerrainObjectsRestores(rules: Rules, tiles: Tiles, origin: Point2D, es: seq<CopiedEntry>)
    requires forall i :: 0 <= i < |es| ==> es[i].CopiedTerrainObjectEntry?
    ensures var r := PasteTerrainObjectEntries(rules, tiles, origin, es);
            CellsExist(r.tiles, r.records) && RemoveTerrainObjects(r.tiles, r.records) == tiles
  {
    if es != [] {
      var e := es[0];
      var cell := Plus(origin, e.offset);
      if cell !in tiles || tiles[cell].terrainObject.Some?
         || FindByName(rules.terrainTypes, e.terrainObjectTypeName).None? {
        RemoveTerrainObjectsRestores(rules, tiles, origin, es[1..]);
      } else {
        var k := FindByName(rules.terrainTypes, e.terrainObjectTypeName).value;
        var placed := Grid.TerrainObject(rules.terrainTypes[k], cell);
        var t1 := tiles[cell := tiles[cell].(terrainObject := Some(placed))];
        var rest := PasteTerrainObjectEntries(rules, t1, origin, es[1..]);
        RemoveTerrainObjectsRestores(rules, t1, origin, es[1..]);
        assert ClearObject(t1, cell) == tiles;
        RemoveObjectsStep(tiles, t1, cell, rest.tiles, rest.records);
      }
    }
  }

  /** One step of `RemoveTerrainObjectsRestores`: removing the first placed
      object last is the same as removing it first. */
  lemma RemoveObjectsStep(tiles: Tiles, t1: Tiles, cell: Point2D, restTiles: Tiles, records: seq<Point2D>)
    requires cell in t1 && cell in restTiles && ClearObject(t1, cell) == tiles
    requires CellsExist(restTiles, records) && RemoveTerrainObjects(restTiles, records) == t1
    ensures CellsExist(restTiles, [cell] + records)
    ensures RemoveTerrainObjects(restTiles, [cell] + records) == tiles
  {
    assert ([cell] + records)[1..] == records;
    RemoveCommutes(restTiles, records, cell);
  }

  // ---------------------------------------- undo sees only its own field

  lemma {:induction false} UndoTerrainCongruent(a: Tiles, b: Tiles, records: seq<OriginalCellTerrainData>)
    requires SameTerrain(a, b) && TerrainRecordsApply(a, records)
    ensures TerrainRecordsApply(b, records)
    ensures SameTerrain(UndoTerrain(a, records), UndoTerrain(b, records))
  {
    if records != [] {
      var rec := records[0];
      var d := rec.cellCoords;
      UndoTerrainCongruent(a[d := a[d].(tileIndex := rec.tileIndex, subTileIndex := rec.subTileIndex)],
                           b[d := b[d].(tileIndex := rec.tileIndex, subTileIndex := rec.subTileIndex)], records[1..]);
    }
  }

  lemma {:induction false} UndoOverlaysCongruent(rules: Rules, a: Tiles, b: Tiles, records: seq<OriginalOverlayInfo>)
    requires SameOverlays(a, b) && OverlayRecordsApply(rules, a, records)
    ensures OverlayRecordsApply(rules, b, records)
    ensures SameOverlays(UndoOverlays(rules, a, records), UndoOverlays(rules, b, records))
  {
    if records != [] {
      var rec := records[0];
      var d := rec.cellCoords;
      var restored := if rec.overlayTypeIndex == -1 then None
                      else Some(Grid.Overlay(rules.overlayTypes[rec.overlayTypeIndex], rec.frameIndex, d));
      UndoOverlaysCongruent(rules, a[d := a[d].(overlay := restored)], b[d := b[d].(overlay := restored)], records[1..]);
    }
  }

  lemma {:induction false} RemoveCongruent(a: Tiles, b: Tiles, cells: seq<Point2D>)
    requires SameObjects(a, b) && CellsExist(a, cells)
    ensures CellsExist(b, cells)
    ensures SameObjects(RemoveTerrainObjects(a, cells), RemoveTerrainObjects(b, cells))
  {
    if cells != [] {
      RemoveCongruent(ClearObject(a, cells[0]), ClearObject(b, cells[0]), cells[1..]);
    }
  }

  // ------------------------------------------------------------ the mutation

  /** The buckets of a mutation, in the order `Perform` runs them. */
  function TerrainBucket(mu: Mutation): seq<CopiedEntry> { Bucket(mu.data, CopiedEntryType.Terrain) }
  function OverlayBucket(mu: Mutation): seq<CopiedEntry> { Bucket(mu.data, CopiedEntryType.Overlay) }
  function TerrainObjectBucket(mu: Mutation): seq<CopiedEntry> { Bucket(mu.data, CopiedEntryType.TerrainObject) }

  /** On a map whose overlays all come from an index-ordered overlay table,
      `Perform` keeps that so, and leaves records `Undo` can replay. */
  lemma PerformEnablesUndo(m: Map, mu: Mutation)
    requires IndexedByPosition(m.rules.overlayTypes) && OverlaysFromRules(m.rules, m.tiles)
    ensures var p := Perform(m, mu);
            UndoApplies(p.result, p.undo) && OverlaysFromRules(p.result.rules, p.result.tiles)
  {
    var terrain := PasteTerrainEntries(m.tiles, mu.origin, TerrainBucket(mu));
    var overlays := PasteOverlayEntries(m.rules, terrain.tiles, mu.origin, OverlayBucket(mu));
    var objects := PasteTerrainObjectEntries(m.rules, overlays.tiles, mu.origin, TerrainObjectBucket(mu));
    assert OverlaysFromRules(m.rules, terrain.tiles);
    OverlayRecordsValid(m.rules, terrain.tiles, mu.origin, OverlayBucket(mu));
    assert OverlaysFromRules(m.rules, objects.tiles);
  }

  /** The inverse law: on such a map, with no two entries of the terrain
      bucket or of the overlay bucket on one cell, `Undo` after `Perform`
      gives back the map exactly. */
  lemma PerformThenUndoRestores(m: Map, mu: Mutation)
    requires IndexedByPosition(m.rules.overlayTypes) && OverlaysFromRules(m.rules, m.tiles)
    requires DistinctOffsets(TerrainBucket(mu)) && DistinctOffsets(OverlayBucket(mu))
    ensures var p := Perform(m, mu);
            UndoApplies(p.result, p.undo) && Undo(p.result, mu, p.undo).result == m
  {
    var rules := m.rules;
    var terrain := PasteTerrainEntries(m.tiles, mu.origin, TerrainBucket(mu));
    var overlays := PasteOverlayEntries(rules, terrain.tiles, mu.origin, OverlayBucket(mu));
    var objects := PasteTerrainObjectEntries(rules, overlays.tiles, mu.origin, TerrainObjectBucket(mu));
    var p := objects.tiles;
    PerformEnablesUndo(m, mu);
    UndoTerrainRestores(m.tiles, mu.origin, TerrainBucket(mu));
    assert OverlaysFromRules(rules, terrain.tiles);
    UndoOverlaysRestores(rules, terrain.tiles, mu.origin, OverlayBucket(mu));
    RemoveTerrainObjectsRestores(rules, overlays.tiles, mu.origin, TerrainObjectBucket(mu));

    var u1 := UndoTerrain(p, terrain.records);
    UndoTerrainCongruent(p, terrain.tiles, terrain.records);
    assert SameTerrain(u1, m.tiles);
    assert SameOverlays(u1, overlays.tiles);
    UndoOverlaysCongruent(rules, u1, overlays.tiles, overlays.records);
    var u2 := UndoOverlays(rules, u1, overlays.records);
    assert SameOverlays(u2, m.tiles);
    assert SameObjects(u2, p);
    RemoveCongruent(u2, p, objects.records);
    var u3 := RemoveTerrainObjects(u2, objects.records);
    assert SameObjects(u3, m.tiles);
    assert SameTerrain(u3, m.tiles);
    SameFieldsEqual(u3, m.tiles);
  }

  // ------------------------------------------------------ skipped entries

  /** Terrain entries that all miss the map change nothing and leave no
      record. */
  lemma {:induction false} TerrainOutsideMapSkipped(tiles: Tiles, origin: Point2D, es: seq<CopiedEntry>)
    requires forall i :: 0 <= i < |es| ==> es[i].CopiedTerrainEntry? && Plus(origin, es[i].offset) !in tiles
    ensures PasteTerrainEntries(tiles, origin, es) == Pasted(tiles, [])
  {
    if es != [] {
      TerrainOutsideMapSkipped(tiles, origin, es[1..]);
    }
  }

  /** Overlay entries that each miss the map or name no overlay type change
      nothing and leave no record. */
  lemma {:induction false} OverlaysSkipped(rules: Rules, tiles: Tiles, origin: Point2D, es: seq<CopiedEntry>)
    requires forall i :: 0 <= i < |es| ==> es[i].CopiedOverlayEntry?
    requires forall i :: 0 <= i < |es| ==>
               Plus(origin, es[i].offset) !in tiles || FindByName(rules.overlayTypes, es[i].overlayTypeName).None?
    ensures PasteOverlayEntries(rules, tiles, origin, es) == Pasted(tiles, [])
  {
    if es != [] {
      OverlaysSkipped(rules, tiles, origin, es[1..]);
    }
  }

  /** Terrain-object entries that each miss the map, hit an occupied cell or
      name no terrain type change nothing and leave no record. */
  lemma {:induction false} TerrainObjectsSkipped(rules: Rules, tiles: Tiles, origin: Point2D, es: seq<CopiedEntry>)
    requires forall i :: 0 <= i < |es| ==> es[i].CopiedTerrainObjectEntry?
    requires forall i :: 0 <= i < |es| ==>
               var cell := Plus(origin, es[i].offset);
               cell !in tiles || tiles[cell].terrainObject.Some?
               || FindByName(rules.terrainTypes, es[i].terrainObjectTypeName).None?
    ensures PasteTerrainObjectEntries(rules, tiles, origin, es) == Pasted(tiles, [])
  {
    if es != [] {
      TerrainObjectsSkipped(rules, tiles, origin, es[1..]);
    }
  }

  /** An overlay entry whose type name is not in the table is a no-op in any
      selection: the pass gives the same cells and records without it. */
  lemma {:induction false} UnknownOverlaySkipped(rules: Rules, tiles: Tiles, origin: Point2D,
                                                 a: seq<CopiedEntry>, e: CopiedEntry, b: seq<CopiedEntry>)
    requires forall i :: 0 <= i < |a| ==> a[i].CopiedOverlayEntry?
    requires forall i :: 0 <= i < |b| ==> b[i].CopiedOverlayEntry?
    requires e.CopiedOverlayEntry? && FindByName(rules.overlayTypes, e.overlayTypeName).None?
    ensures PasteOverlayEntries(rules, tiles, origin, a + [e] + b) == PasteOverlayEntries(rules, tiles, origin, a + b)
  {
    if a == [] {
      assert a + [e] + b == [e] + b && ([e] + b)[1..] == b && a + b == b;
    } else {
      var x := a[0];
      var cell := Plus(origin, x.offset);
      assert (a + [e] + b)[0] == x && (a + [e] + b)[1..] == a[1..] + [e] + b;
      assert (a + b)[0] == x && (a + b)[1..] == a[1..] + b;
      if cell !in tiles || FindByName(rules.overlayTypes, x.overlayTypeName).None? {
        UnknownOverlaySkipped(rules, tiles, origin, a[1..], e, b);
      } else {
        var k := FindByName(rules.overlayTypes, x.overlayTypeName).value;
        var placed := Grid.Overlay(rules.overlayTypes[k], x.frameIndex, cell);
        UnknownOverlaySkipped(rules, tiles[cell := tiles[cell].(overlay := Some(placed))], origin, a[1..], e, b);
      }
    }
  }

  /** A terrain-object entry whose type name is not in the table is a no-op in
      any selection: the pass gives the same cells and records without it. */
  lemma {:induction false} UnknownTerrainObjectSkipped(rules: Rules, tiles: Tiles, origin: Point2D,
                                                       a: seq<CopiedEntry>, e: CopiedEntry, b: seq<CopiedEntry>)
    requires forall i :: 0 <= i < |a| ==> a[i].CopiedTerrainObjectEntry?
    requires forall i :: 0 <= i < |b| ==> b[i].CopiedTerrainObjectEntry?
    requires e.CopiedTerrainObjectEntry? && FindByName(rules.terrainTypes, e.terrainObjectTypeName).None?
    ensures PasteTerrainObjectEntries(rules, tiles, origin, a + [e] + b)
            == PasteTerrainObjectEntries(rules, tiles, origin, a + b)
  {
    if a == [] {
      assert a + [e] + b == [e] + b && ([e] + b)[1..] == b && a + b == b;
    } else {
      var x := a[0];
      var cell := Plus(origin, x.offset);
      assert (a + [e] + b)[0] == x && (a + [e] + b)[1..] == a[1..] + [e] + b;
      assert (a + b)[0] == x && (a + b)[1..] == a[1..] + b;
      if cell !in tiles || tiles[cell].terrainObject.Some?
         || FindByName(rules.terrainTypes, x.terrainObjectTypeName).None? {
        UnknownTerrainObjectSkipped(rules, tiles, origin, a[1..], e, b);
      } else {
        var k := FindByName(rules.terrainTypes, x.terrainObjectTypeName).value;
        var placed := Grid.TerrainObject(rules.terrainTypes[k], cell);
        UnknownTerrainObjectSkipped(rules, tiles[cell := tiles[cell].(terrainObject := Some(placed))], origin,
                                    a[1..], e, b);
      }
    }
  }

  /** A paste whose every entry misses the map changes nothing, keeps no
      undo record, and still signals a refresh. */
  lemma PasteOutsideMapChangesNothing(m: Map, mu: Mutation)
    requires forall e | e in mu.data :: Plus(mu.origin, e.offset) !in m.tiles
    ensures var p := Perform(m, mu);
            p.result == m && p.undo == UndoData([], [], []) && p.refresh == AddRefresh(|mu.data|, mu.origin)
  {
    TerrainOutsideMapSkipped(m.tiles, mu.origin, TerrainBucket(mu));
    OverlaysSkipped(m.rules, m.tiles, mu.origin, OverlayBucket(mu));
    TerrainObjectsSkipped(m.rules, m.tiles, mu.origin, TerrainObjectBucket(mu));
  }

  // ------------------------------------------------------------- examples

  /** Undo replays its records first to last, so two terrain entries on one
      cell leave the first pasted tile behind instead of the original. */
  lemma DuplicateTerrainOffsetsDefeatUndo()
    ensures var cell := Point2D(0, 0);
            var m := Map(map[cell := MapTile(0, 0, None, None)], Rules([], []));
            var mu := Mutation([CopiedTerrainEntry(cell, 1, 0), CopiedTerrainEntry(cell, 2, 0)], cell);
            var p := Perform(m, mu);
            && p.undo.terrain == [OriginalCellTerrainData(cell, 0, 0), OriginalCellTerrainData(cell, 1, 0)]
            && UndoApplies(p.result, p.undo)
            && Undo(p.result, mu, p.undo).result.tiles[cell].tileIndex == 1
  {
    var cell := Point2D(0, 0);
    var tile := MapTile(0, 0, None, None);
    var m := Map(map[cell := tile], Rules([], []));
    var es := [CopiedTerrainEntry(cell, 1, 0), CopiedTerrainEntry(cell, 2, 0)];
    var mu := Mutation(es, cell);
    assert Bucket(es, CopiedEntryType.Terrain) == es by {
      assert es[1..] == [CopiedTerrainEntry(cell, 2, 0)];
    }
    assert Bucket(es, CopiedEntryType.Overlay) == [] by {
      assert es[1..] == [CopiedTerrainEntry(cell, 2, 0)];
    }
    assert Bucket(es, CopiedEntryType.TerrainObject) == [] by {
      assert es[1..] == [CopiedTerrainEntry(cell, 2, 0)];
    }
    var t1 := map[cell := tile.(tileIndex := 1)];
    var t2 := map[cell := tile.(tileIndex := 2)];
    assert m.tiles[cell := tile.(tileIndex := 1, subTileIndex := 0)] == t1;
    assert t1[cell := t1[cell].(tileIndex := 2, subTileIndex := 0)] == t2;
    assert PasteTerrainEntries(t1, cell, es[1..]) == Pasted(t2, [OriginalCellTerrainData(cell, 1, 0)]);
  }

  /** A two-cell map, a terrain entry for the first cell and a TIBERIUM01
      overlay entry for the second, pasted with the first cell as origin. */
  function ScenarioMap(): Map {
    Map(map[Point2D(10, 10) := MapTile(3, 1, None, None), Point2D(11, 10) := MapTile(4, 0, None, None)],
        Rules([ObjectType(0, "GEM01"), ObjectType(1, "TIBERIUM01")], []))
  }

  function ScenarioMutation(): Mutation {
    Mutation([CopiedTerrainEntry(Point2D(0, 0), 5, 0), CopiedOverlayEntry(Point2D(1, 0), "TIBERIUM01", 2)],
             Point2D(10, 10))
  }

  lemma ScenarioBuckets()
    ensures TerrainBucket(ScenarioMutation()) == [CopiedTerrainEntry(Point2D(0, 0), 5, 0)]
    ensures OverlayBucket(ScenarioMutation()) == [CopiedOverlayEntry(Point2D(1, 0), "TIBERIUM01", 2)]
    ensures TerrainObjectBucket(ScenarioMutation()) == []
  {
    var overlayEntry := CopiedOverlayEntry(Point2D(1, 0), "TIBERIUM01", 2);
    var es := ScenarioMutation().data;
    assert es[1..] == [overlayEntry] && [overlayEntry][1..] == [];
    assert Bucket([overlayEntry], CopiedEntryType.Terrain) == [];
    assert Bucket([overlayEntry], CopiedEntryType.Overlay) == [overlayEntry];
    assert Bucket([overlayEntry], CopiedEntryType.TerrainObject) == [];
  }

  /** Pasting the scenario sets the first cell's terrain, lays a frame-2
      TIBERIUM01 overlay on the second, and asks for a local refresh. */
  lemma ScenarioPerform()
    ensures var p := Perform(ScenarioMap(), ScenarioMutation());
            var tiberium := ObjectType(1, "TIBERIUM01");
            && p.result.tiles[Point2D(10, 10)] == MapTile(5, 0, None, None)
            && p.result.tiles[Point2D(11, 10)] == MapTile(4, 0, Some(Grid.Overlay(tiberium, 2, Point2D(11, 10))), None)
            && p.refresh == AddRefreshPoint(Point2D(10, 10))
  {
    var origin := Point2D(10, 10);
    var a := Point2D(10, 10);
    var b := Point2D(11, 10);
    var tiberium := ObjectType(1, "TIBERIUM01");
    var m := ScenarioMap();
    var tiles := m.tiles;
    ScenarioBuckets();
    assert FindByName(m.rules.overlayTypes, "TIBERIUM01") == Some(1) by {
      assert m.rules.overlayTypes[1..] == [tiberium];
    }
    var t1 := tiles[a := MapTile(5, 0, None, None)];
    assert PasteTerrainEntries(tiles, origin, [CopiedTerrainEntry(Point2D(0, 0), 5, 0)])
           == Pasted(t1, [OriginalCellTerrainData(a, 3, 1)]);
    assert PasteOverlayEntries(m.rules, t1, origin, [CopiedOverlayEntry(Point2D(1, 0), "TIBERIUM01", 2)])
           == Pasted(t1[b := MapTile(4, 0, Some(Grid.Overlay(tiberium, 2, b)), None)], [OriginalOverlayInfo(-1, 0, b)]);
  }

  /** Undoing the scenario's paste gives the original map back. */
  lemma ScenarioUndo()
    ensures var p := Perform(ScenarioMap(), ScenarioMutation());
            && UndoApplies(p.result, p.undo)
            && Undo(p.result, ScenarioMutation(), p.undo).result == ScenarioMap()
  {
    ScenarioBuckets();
    PerformThenUndoRestores(ScenarioMap(), ScenarioMutation());
  }
}
