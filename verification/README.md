# Copy/paste of map terrain, and map expansion

This project is a Dafny model of two parts of a tile-based map editor. The
first is the copy/paste subsystem. The second is the size arithmetic of the
"expand map" window.

**Copied map data** is a small binary format, modelled in module
`CopiedMapData`. A container holds a 4-byte entry count followed by one record
per entry. A record has three parts:

- a 1-byte type tag: 1 for terrain, 2 for overlay, 4 for terrain object;
- an 8-byte offset from the paste origin, x then y;
- a payload that depends on the tag:
  - terrain: an int32 tile index and one sub-tile byte;
  - overlay: a length-prefixed ASCII name and an int32 frame index;
  - terrain object: a length-prefixed ASCII name.

Integers are little-endian two's complement (module `Bytes`). A stream is a
byte sequence, and each reader returns what it read together with the bytes
after it. An exception becomes a `DecodeError`.

`Deserialize` behaves like the C# code:

- It appends to the entries the container already holds.
- A buffer shorter than 4 bytes is logged and ignored.
- A negative count reads nothing.
- Entries read before an exception stay in the list.

Module `CopiedMapDataLemmas` proves the following:

- The round trip: serialized entries come back in order. Each non-ASCII
  character of a name comes back as '?'. A name's length header counts UTF-16
  code units, as C# `string.Length` does. A character outside the Basic
  Multilingual Plane is therefore two units but only one '?', and the unused
  byte after it reads back as a NUL character. The entries come back unchanged
  exactly when every name is ASCII.
- The record layout, byte by byte: tag, offset x, offset y, then the payload.
- The failure modes: truncated strings, a count larger than the data, tags
  other than 1, 2 and 4, and the unchecked final sub-tile byte, which reads
  as 255 when missing.

**The paste mutation** is modelled in module `PasteTerrainMutation`, over the
cell map of module `Grid`. `Perform` applies the entries to cells at
`origin + offset` in three passes: terrain, then overlays, then terrain objects.
It skips an entry, leaving no undo record, in three cases:

- its cell is off the map;
- its type name is not in the rules;
- it is a terrain object and its cell already holds one.

`Undo` replays the undo records. Both operations pick a refresh signal from
the entry count. The three passes read the entries through `FindAll` by entry
type. Each bucket keeps the list's order, and every entry lands in exactly one
bucket.

Modules `PasteTerrainEffects` (what the passes write and record) and
`PasteTerrainLemmas` (buckets, skipping, records and undo) prove the
following:

- Each pass writes what the C# code writes:
  - a terrain entry on the map sets its cell's tile and sub-tile index;
  - an overlay entry on the map with a known type name puts that overlay,
    with its frame, on its cell;
  - a terrain-object entry on a free cell with a known type name puts that
    object on the cell.
  A later applied entry on the same cell overrides this. For overlays, only an
  entry whose type name is known is applied. For terrain objects the first
  applied entry wins, because an occupied cell is skipped.
- Each pass leaves exactly one record per applied entry, in entry order. For
  terrain objects this is proved when no two entries target one cell. For any
  entries, the terrain-object pass records no cell twice, and records or
  changes only cells that some entry targets.
- An overlay or terrain-object entry with an unknown type name is a no-op,
  whatever other entries are pasted with it.
- Each record holds its cell's earlier values, provided no two entries of the
  pass target one cell.
- Undo restores the map exactly, under three assumptions:
  - no two entries of the terrain pass, and no two of the overlay pass,
    target the same cell;
  - the overlay table is indexed by position;
  - every overlay on the map is its table type at its own cell.
- A lemma with two terrain entries on one cell shows that Undo does not
  restore that cell. Undo replays its records first to last, so the first
  pasted tile is left behind.

**Map expansion** is modelled in module `ExpandMap`. The handler computes the
new width and height with C# `int` arithmetic, which wraps silently. It
rejects a width, then a height, that is not between 1 and the maximum.
Otherwise it resizes with:

- east shift = north + west;
- south shift = north + east.

The maximum width and height are parameters, because their values are not
part of this model.

## Model

| member | source | states |
|---|---|---|
| Bytes.Int32RoundTrip | src/Mutations/Classes/PasteTerrainMutation.cs:54-60 | an int32 written by `BitConverter.GetBytes` reads back unchanged with `BitConverter.ToInt32` |
| Bytes.BytesRoundTrip | src/Mutations/Classes/PasteTerrainMutation.cs:248 | any 4 bytes are the encoding of the int32 they decode to, so the count header loses nothing |
| Bytes.Int32ToBytesIsLittleEndian | src/Mutations/Classes/PasteTerrainMutation.cs:226 | the 4 bytes of an int32 are its two's-complement value, least significant byte first |
| Bytes.Wrap32 | src/TSMapEditor/UI/Windows/ExpandMapWindow.cs:43 | a C# `int` sum always lands in the int32 range and equals the exact sum when that fits |
| CopiedMapData.ReadInt | src/Mutations/Classes/PasteTerrainMutation.cs:54-60 | fails with end of stream exactly when fewer than 4 bytes remain; otherwise yields an int32 and consumes exactly 4 bytes |
| CopiedMapData.ReadAsciiString | src/Mutations/Classes/PasteTerrainMutation.cs:62-71 | fewer than 4 bytes is end of stream; a negative length is its own error; a length beyond the remaining bytes is end of stream; otherwise the read succeeds and consumes exactly the header and `length` bytes, each decoded as `Encoding.ASCII` does, so a byte of 128 or more becomes '?' |
| CopiedMapData.AsciiStringToBytes | src/Mutations/Classes/PasteTerrainMutation.cs:73-80 | the header is the UTF-16 length and the buffer is 4 bytes plus that length; then the name's `Encoding.ASCII` bytes, one per character, itself if ASCII and '?' otherwise; then zero bytes for what is left over after supplementary characters |
| CopiedMapData.Sanitize | src/Mutations/Classes/PasteTerrainMutation.cs:69-77 | character by character: a character is kept exactly when it is ASCII, and every other character becomes '?' |
| CopiedMapData.Utf16Length | src/Mutations/Classes/PasteTerrainMutation.cs:75-76 | `str.Length`: at least the number of characters, and equal to it exactly when no character is outside the Basic Multilingual Plane; its value is fixed by `Utf16LengthOfChar` and `Utf16LengthAppend` |
| CopiedMapData.AsciiReadBack | src/Mutations/Classes/PasteTerrainMutation.cs:62-80 | what a written name reads back as: its UTF-16 length in ASCII characters, the name with each non-ASCII character as '?', then NUL characters; the name itself when it is ASCII |
| CopiedMapData.ReadByte | src/Mutations/Classes/PasteTerrainMutation.cs:152 | at the end of the stream the byte read is -1 and nothing is consumed; otherwise it is a value 0..255 and the stream advances by one |
| CopiedMapData.ReadOffset | src/Mutations/Classes/PasteTerrainMutation.cs:86-92 | the offset needs 8 bytes, fails exactly when fewer remain, and consumes exactly 8 |
| CopiedMapData.ReadCustomData | src/Mutations/Classes/PasteTerrainMutation.cs:149-212 | a successful read yields the entry class the tag selects, carrying the offset read before it, and consumes at least one byte |
| CopiedMapData.ReadEntry | src/Mutations/Classes/PasteTerrainMutation.cs:256-276 | end of stream is tag -1 and fails as an invalid entry type; every tag but 1, 2 and 4 fails with that tag; a success had the entry's own tag in front |
| CopiedMapData.ReadEntriesWith | src/Mutations/Classes/PasteTerrainMutation.cs:254-278 | the loop yields at most `count` entries, and ends without an error exactly when it yields all `count` |
| CopiedMapData.Deserialize | src/Mutations/Classes/PasteTerrainMutation.cs:240-280 | under 4 bytes is the short-buffer return with the entries untouched; the earlier entries are always kept as a prefix; it completes exactly when the declared count (0 if negative) of entries was appended |
| CopiedMapData.SanitizeEntry | src/Mutations/Classes/PasteTerrainMutation.cs:173-212 | a written-then-read entry keeps its kind and offset; a terrain entry is unchanged; an overlay keeps its frame index; each name becomes `AsciiReadBack` of it; the entry is itself exactly when its names are ASCII |
| CopiedMapData.WriteData | src/Mutations/Classes/PasteTerrainMutation.cs:107-115 | an entry is written as its tag byte first; terrain takes 14 bytes, an overlay 17 plus the name's UTF-16 length, a terrain object 13 plus it |
| CopiedMapData.WriteEntries | src/Mutations/Classes/PasteTerrainMutation.cs:229-232 | the entries are written back to back: the output is exactly as long as their encoded sizes added up |
| CopiedMapData.Serialize | src/Mutations/Classes/PasteTerrainMutation.cs:219-238 | the output is the 4-byte header plus every entry, and the header decodes to the number of entries |
| CopiedMapDataLemmas.ReadIntOfWritten | src/Mutations/Classes/PasteTerrainMutation.cs:54-60 | reading an int32 written in front of any bytes gives it back and leaves exactly those bytes |
| CopiedMapDataLemmas.Utf16LengthOfChar | src/Mutations/Classes/PasteTerrainMutation.cs:75-76 | one character is one UTF-16 code unit, or two when it lies outside the Basic Multilingual Plane |
| CopiedMapDataLemmas.Utf16LengthAppend | src/Mutations/Classes/PasteTerrainMutation.cs:75-76 | the UTF-16 length of a concatenation is the sum of the lengths |
| CopiedMapDataLemmas.TwoSupplementaryCharacters | src/Mutations/Classes/PasteTerrainMutation.cs:75-76 | two characters outside the Basic Multilingual Plane have UTF-16 length 4 |
| CopiedMapDataLemmas.WrittenNameBytes | src/Mutations/Classes/PasteTerrainMutation.cs:73-80 | each character of a written name is the byte after the header at its position: its own code when ASCII, '?' otherwise |
| CopiedMapDataLemmas.HighByteReadsAsQuestionMark | src/Mutations/Classes/PasteTerrainMutation.cs:62-71 | a one-byte string whose byte is 200 reads back as "?", with nothing left over |
| CopiedMapDataLemmas.ReadAsciiStringOfWritten | src/Mutations/Classes/PasteTerrainMutation.cs:62-80 | a written name followed by any bytes reads back as `AsciiReadBack` of the name, and exactly its own bytes are consumed |
| CopiedMapDataLemmas.DecodeWrittenName | src/Mutations/Classes/PasteTerrainMutation.cs:69-78 | decoding the bytes `ASCIIStringToBytes` wrote after the header gives the `AsciiReadBack` of the name |
| CopiedMapDataLemmas.SupplementaryNameReadsBack | src/Mutations/Classes/PasteTerrainMutation.cs:73-80 | "A" and one character outside the Basic Multilingual Plane is written with header 3 as 'A', '?', 0, and reads back as "A?" and a NUL |
| CopiedMapDataLemmas.TruncatedStringFails | src/Mutations/Classes/PasteTerrainMutation.cs:62-71 | a written name cut short anywhere before its last byte fails with end of stream, never with a partial string |
| CopiedMapDataLemmas.ReadOffsetOfWritten | src/Mutations/Classes/PasteTerrainMutation.cs:88-92 | the offset written as x then y is read back as x then y |
| CopiedMapDataLemmas.ReadTerrainDataOfWritten | src/Mutations/Classes/PasteTerrainMutation.cs:140-153 | a terrain payload of 4 tile bytes and the sub-tile byte reads back as the same tile and sub-tile index |
| CopiedMapDataLemmas.ReadOverlayDataOfWritten | src/Mutations/Classes/PasteTerrainMutation.cs:173-186 | an overlay payload reads back as the sanitized name and the same frame index |
| CopiedMapDataLemmas.ReadCustomDataOfWritten | src/Mutations/Classes/PasteTerrainMutation.cs:140-212 | every entry class's payload reads back with the class's own reader, names sanitized, consuming exactly the payload |
| CopiedMapDataLemmas.WriteDataLayout | src/Mutations/Classes/PasteTerrainMutation.cs:86-115 | byte by byte: the tag at 0, x in bytes 1-4 and y in 5-8, then the payload: tile index in 9-12 and sub-tile at 13 for 14 bytes in all; or the written name and then the frame index; or the written name alone |
| CopiedMapDataLemmas.ReadEntryOfWritten | src/Mutations/Classes/PasteTerrainMutation.cs:86-115 | reading a written record gives back the entry with sanitized names and leaves exactly the bytes after it |
| CopiedMapDataLemmas.ReadEntriesOfChain | src/Mutations/Classes/PasteTerrainMutation.cs:254-278 | a loop body that reads a run of values one after another yields them in order, then carries on in what follows |
| CopiedMapDataLemmas.WrittenEntriesChain | src/Mutations/Classes/PasteTerrainMutation.cs:229-232 | written entries read back one after another, in list order, names sanitized |
| CopiedMapDataLemmas.ReadEntriesOfWritten | src/Mutations/Classes/PasteTerrainMutation.cs:254-278 | reading more entries than were written yields the written ones first, then whatever reading the following bytes yields |
| CopiedMapDataLemmas.DeserializeOfCount | src/Mutations/Classes/PasteTerrainMutation.cs:248-278 | after a count header, the loop runs the declared number of times (none if negative), and what it read is appended |
| CopiedMapDataLemmas.DeserializeOfSerialize | src/Mutations/Classes/PasteTerrainMutation.cs:219-280 | deserializing serialized entries completes, appending them in order, names sanitized, whatever the container held before and whatever bytes follow |
| CopiedMapDataLemmas.RoundTrip | src/Mutations/Classes/PasteTerrainMutation.cs:219-280 | an empty container deserializes serialized entries to completion, and gets back exactly those entries if and only if every name is ASCII |
| CopiedMapDataLemmas.CountBeyondDataFails | src/Mutations/Classes/PasteTerrainMutation.cs:254-276 | a count larger than the entries present appends them and then fails on the -1 tag read at the end of the stream |
| CopiedMapDataLemmas.BadTagFails | src/Mutations/Classes/PasteTerrainMutation.cs:256-277 | a tag other than 1, 2 or 4 where an entry should start fails with that tag, after appending the entries before it |
| CopiedMapDataLemmas.MissingSubTileReadsAs255 | src/Mutations/Classes/PasteTerrainMutation.cs:149-153 | a terrain record without its final sub-tile byte still reads, with sub-tile index 255, and the call completes |
| GameMath.Plus | src/Mutations/Classes/PasteTerrainMutation.cs:315 | the target cell is the origin moved by the offset, componentwise |
| Grid.FindByName | src/Mutations/Classes/PasteTerrainMutation.cs:340 | `List.Find` by exact name: the first type with that name, and none exactly when no type has it |
| PasteTerrainMutation.Bucket | src/Mutations/Classes/PasteTerrainMutation.cs:312 | `FindAll` by entry type: only entries of that type, and every entry of that type in the list |
| PasteTerrainMutation.AddRefresh | src/Mutations/Classes/PasteTerrainMutation.cs:301-307 | exactly one signal: invalidate the whole map when there are more than 10 entries, otherwise a refresh point at the origin |
| PasteTerrainMutation.PasteTerrainEntries | src/Mutations/Classes/PasteTerrainMutation.cs:311-326 | the terrain pass changes terrain only, never adds or removes cells, and records at most one on-map cell per entry; the writes are stated by `TerrainPasteWrites` and `TerrainPasteRecords` |
| PasteTerrainMutation.UndoTerrain | src/Mutations/Classes/PasteTerrainMutation.cs:386-392 | terrain undo leaves overlays and objects alone, and leaves every cell no record names unchanged |
| PasteTerrainMutation.OverlayRecord | src/Mutations/Classes/PasteTerrainMutation.cs:344-347 | the record names its cell, and its index is -1 when the cell had no overlay |
| PasteTerrainMutation.PasteOverlayEntries | src/Mutations/Classes/PasteTerrainMutation.cs:330-355 | the overlay pass changes overlays only, never adds or removes cells, and records at most one on-map cell per entry; the writes are stated by `OverlayPasteWrites` and `OverlayPasteRecords` |
| PasteTerrainMutation.UndoOverlays | src/Mutations/Classes/PasteTerrainMutation.cs:394-409 | overlay undo leaves terrain and objects alone, and leaves every cell no record names unchanged |
| PasteTerrainMutation.PasteTerrainObjectEntries | src/Mutations/Classes/PasteTerrainMutation.cs:359-378 | the object pass changes terrain objects only, records only cells that were free, and never replaces an existing object; the writes are stated by `TerrainObjectPasteWrites` and `TerrainObjectPasteRecords` |
| PasteTerrainMutation.RemoveTerrainObjects | src/Mutations/Classes/PasteTerrainMutation.cs:411-414 | each recorded cell ends without a terrain object, and every other cell is unchanged |
| PasteTerrainMutation.Perform | src/Mutations/Classes/PasteTerrainMutation.cs:309-382 | rules and cell set unchanged, no more records per type than entries of that type, an existing terrain object never replaced, and the refresh chosen by `AddRefresh`; the writes are stated by the `PasteTerrainEffects.Perform…` lemmas |
| PasteTerrainMutation.Undo | src/Mutations/Classes/PasteTerrainMutation.cs:384-417 | rules and cell set unchanged, and the same refresh signal as `Perform` |
| PasteTerrainLemmas.BucketAppend | src/Mutations/Classes/PasteTerrainMutation.cs:312 | `FindAll` keeps the list's order: the bucket of a concatenation is the concatenation of the buckets |
| PasteTerrainLemmas.BucketOfOne | src/Mutations/Classes/PasteTerrainMutation.cs:312 | one entry is kept exactly when it has the bucket's type; with `BucketAppend` this fixes every bucket |
| PasteTerrainLemmas.BucketsPartition | src/Mutations/Classes/PasteTerrainMutation.cs:311-360 | the three buckets together hold every entry exactly as often as the list does, and nothing else |
| PasteTerrainLemmas.TerrainFootprint | src/Mutations/Classes/PasteTerrainMutation.cs:311-326 | terrain records are only for cells some entry targets, and cells no entry targets are unchanged |
| PasteTerrainLemmas.OverlayFootprint | src/Mutations/Classes/PasteTerrainMutation.cs:330-355 | overlay records are only for cells some entry targets, and cells no entry targets are unchanged |
| PasteTerrainLemmas.TerrainObjectFootprint | src/Mutations/Classes/PasteTerrainMutation.cs:359-378 | terrain-object records are only for cells some entry targets, and cells no entry targets are unchanged, whatever the offsets |
| PasteTerrainLemmas.TerrainObjectRecordsDistinct | src/Mutations/Classes/PasteTerrainMutation.cs:364-377 | whatever the offsets, no cell is recorded twice, because a placed object makes its cell occupied and an occupied cell is skipped |
| PasteTerrainLemmas.UndoTerrainSkipsCell | src/Mutations/Classes/PasteTerrainMutation.cs:386-392 | terrain undo commutes with a write to a cell none of its records names |
| PasteTerrainLemmas.UndoOverlaysSkipsCell | src/Mutations/Classes/PasteTerrainMutation.cs:394-409 | overlay undo commutes with a write to a cell none of its records names |
| PasteTerrainLemmas.RemoveCommutes | src/Mutations/Classes/PasteTerrainMutation.cs:411-414 | removing one more terrain object commutes with the removal loop |
| PasteTerrainLemmas.TerrainRecordsCapture | src/Mutations/Classes/PasteTerrainMutation.cs:316-321 | with one entry per cell, every terrain record holds the tile and sub-tile index its cell had before the paste |
| PasteTerrainLemmas.OverlayRecordsCapture | src/Mutations/Classes/PasteTerrainMutation.cs:335-347 | with one entry per cell, every overlay record holds the type index and frame its cell had, or -1 and 0 for no overlay |
| PasteTerrainLemmas.UndoTerrainRestores | src/Mutations/Classes/PasteTerrainMutation.cs:386-392 | with one entry per cell, replaying the terrain records gives the cells back exactly |
| PasteTerrainLemmas.OverlayRecordsValid | src/Mutations/Classes/PasteTerrainMutation.cs:344-405 | every overlay record's index is -1 or a valid index into the overlay table, and the pass keeps every overlay a table type at its own cell |
| PasteTerrainLemmas.RebuiltOverlay | src/Mutations/Classes/PasteTerrainMutation.cs:397-408 | the overlay `Undo` rebuilds from a cell's record is the overlay the cell held, absence included |
| PasteTerrainLemmas.UndoOverlaysRestores | src/Mutations/Classes/PasteTerrainMutation.cs:394-409 | with one entry per cell and a position-indexed overlay table, replaying the overlay records gives the cells back exactly |
| PasteTerrainLemmas.RemoveTerrainObjectsRestores | src/Mutations/Classes/PasteTerrainMutation.cs:411-414 | removing the recorded terrain objects gives the cells back exactly, because a recorded cell was free before |
| PasteTerrainLemmas.UndoTerrainCongruent | src/Mutations/Classes/PasteTerrainMutation.cs:386-392 | terrain undo reads only terrain: maps that agree on terrain still agree after it |
| PasteTerrainLemmas.UndoOverlaysCongruent | src/Mutations/Classes/PasteTerrainMutation.cs:394-409 | overlay undo reads only overlays: maps that agree on overlays still agree after it |
| PasteTerrainLemmas.RemoveCongruent | src/Mutations/Classes/PasteTerrainMutation.cs:411-414 | object removal reads only objects: maps that agree on objects still agree after it |
| PasteTerrainLemmas.PerformEnablesUndo | src/Mutations/Classes/PasteTerrainMutation.cs:309-382 | `Perform` leaves records `Undo` can replay without a missing cell or a bad index, and keeps the overlays table types |
| PasteTerrainLemmas.PerformThenUndoRestores | src/Mutations/Classes/PasteTerrainMutation.cs:384-417 | with one entry per cell in the terrain and overlay passes, `Undo` after `Perform` gives the map back exactly |
| PasteTerrainLemmas.TerrainOutsideMapSkipped | src/Mutations/Classes/PasteTerrainMutation.cs:316-319 | terrain entries whose cells are off the map change nothing and leave no record |
| PasteTerrainLemmas.OverlaysSkipped | src/Mutations/Classes/PasteTerrainMutation.cs:335-342 | a list of overlay entries that each miss the map or name no overlay type changes nothing and leaves no record |
| PasteTerrainLemmas.TerrainObjectsSkipped | src/Mutations/Classes/PasteTerrainMutation.cs:364-374 | a list of terrain-object entries that each miss the map, hit an occupied cell or name no terrain type changes nothing and leaves no record |
| PasteTerrainLemmas.UnknownOverlaySkipped | src/Mutations/Classes/PasteTerrainMutation.cs:335-342 | an overlay entry with an unknown type name, anywhere among other entries, leaves the pass's cells and records as they are without it |
| PasteTerrainLemmas.UnknownTerrainObjectSkipped | src/Mutations/Classes/PasteTerrainMutation.cs:364-374 | a terrain-object entry with an unknown type name, anywhere among other entries, leaves the pass's cells and records as they are without it |
| PasteTerrainLemmas.PasteOutsideMapChangesNothing | src/Mutations/Classes/PasteTerrainMutation.cs:309-382 | a paste entirely off the map leaves the map as it was, with no undo records, and still signals a refresh |
| PasteTerrainLemmas.DuplicateTerrainOffsetsDefeatUndo | src/Mutations/Classes/PasteTerrainMutation.cs:386-392 | two terrain entries on one cell: `Undo` leaves the first pasted tile behind instead of the original |
| PasteTerrainLemmas.ScenarioPerform | src/Mutations/Classes/PasteTerrainMutation.cs:309-382 | pasting a tile and a TIBERIUM01 overlay sets the tile, places the overlay at its cell with its frame, and asks for a refresh point |
| PasteTerrainLemmas.ScenarioUndo | src/Mutations/Classes/PasteTerrainMutation.cs:384-417 | undoing that paste restores the original map, the absent overlay included |
| PasteTerrainEffects.TerrainPasteWrites | src/Mutations/Classes/PasteTerrainMutation.cs:311-325 | each terrain entry on the map leaves its tile and sub-tile index on its cell, unless a later entry targets the same cell |
| PasteTerrainEffects.TerrainPasteRecords | src/Mutations/Classes/PasteTerrainMutation.cs:311-325 | the terrain records name exactly the cells of the entries on the map, one each, in entry order |
| PasteTerrainEffects.OverlayPasteWrites | src/Mutations/Classes/PasteTerrainMutation.cs:330-354 | each overlay entry on the map with a known type name leaves `Overlay(type, frame, cell)` on its cell, unless a later entry targets the same cell |
| PasteTerrainEffects.OverlayPasteRecords | src/Mutations/Classes/PasteTerrainMutation.cs:330-354 | the overlay records name exactly the cells of the entries on the map with a known type name, one each, in entry order |
| PasteTerrainEffects.TerrainObjectPasteWrites | src/Mutations/Classes/PasteTerrainMutation.cs:359-377 | each terrain-object entry on a free cell with a known type name leaves `TerrainObject(type, cell)` there, unless an earlier entry targets the same cell |
| PasteTerrainEffects.TerrainObjectPasteRecords | src/Mutations/Classes/PasteTerrainMutation.cs:359-377 | with no two entries on one cell, the records are exactly the cells of the entries on a free cell with a known type name, in entry order |
| PasteTerrainEffects.PerformWritesTerrain | src/Mutations/Classes/PasteTerrainMutation.cs:309-325 | after `Perform`, each terrain entry on the map has set its cell's tile and sub-tile index, unless a later terrain entry targets the same cell |
| PasteTerrainEffects.PerformWritesOverlays | src/Mutations/Classes/PasteTerrainMutation.cs:309-354 | after `Perform`, each overlay entry on the map with a known type name has put its overlay on its cell, unless a later overlay entry targets the same cell |
| PasteTerrainEffects.PerformPlacesTerrainObjects | src/Mutations/Classes/PasteTerrainMutation.cs:309-377 | after `Perform`, each terrain-object entry on a cell free before the paste with a known type name has put its object there, unless an earlier one targets the same cell |
| PasteTerrainEffects.PerformTerrainRecords | src/Mutations/Classes/PasteTerrainMutation.cs:309-325 | `Perform`'s terrain records name exactly the cells of the terrain entries on the map, in entry order |
| PasteTerrainEffects.PerformOverlayRecords | src/Mutations/Classes/PasteTerrainMutation.cs:309-354 | `Perform`'s overlay records name exactly the cells of the overlay entries on the map with a known type name, in entry order |
| PasteTerrainEffects.PerformTerrainObjectRecords | src/Mutations/Classes/PasteTerrainMutation.cs:309-377 | with no two terrain-object entries on one cell, `Perform` records exactly the cells of the terrain-object entries on a free cell with a known type name, in entry order |
| ExpandMap.ExpandMap | src/TSMapEditor/UI/Windows/ExpandMapWindow.cs:43-80 | rejects the width exactly when the wrapped width is outside 1..max, then the height likewise; a resize is within bounds, with east shift the wrapped north + west and south shift the wrapped north + east |
| ExpandMap.ExpandMapExact | src/TSMapEditor/UI/Windows/ExpandMapWindow.cs:43-80 | the same handler on exact sums: rejects exactly the sizes outside 1..max, and resizes to the true new size |
| ExpandMap.SouthExpansionLeavesShifts | src/TSMapEditor/UI/Windows/ExpandMapWindow.cs:63-80 | the south amount changes neither the width check, the width nor either shift |
| ExpandMap.ExactWithoutOverflow | src/TSMapEditor/UI/Windows/ExpandMapWindow.cs:43-80 | when no sum leaves the int32 range, the handler is the exact one |
| ExpandMap.WrappedWidthAccepted | src/TSMapEditor/UI/Windows/ExpandMapWindow.cs:43-51 | width 100 with east and west 2^31-1 wraps to width 98 and is accepted, where the exact width is rejected |

## Left out

- Logging, message boxes, `Hide()` and the text of the messages are left out.
  The height message says the height should be between 0 and the maximum,
  but the condition above it rejects 0. The model follows the condition.
- The cached tile image that `Perform` and `Undo` clear is a render cache. It
  is not part of the cell model.
- `Map.AddTerrainObject` and `Map.RemoveTerrainObject` are not part of this
  model. The model treats them as setting and clearing the cell's terrain
  object, and says nothing about any object list the map keeps.
- `Map.Resize` is not part of this model: the handler's result names the call
  and its arguments.
- `Point2D.GetData` is not part of this model. The offset is taken to be x
  then y as two int32 values, which is what `ReadData` reads back.
- `BitConverter` uses the host byte order. The model fixes it as
  little-endian.
- `MemoryStream` is a cursor over a byte sequence. A short `Stream.Read` is
  treated as end of stream, which is how a memory stream behaves.
- `ReadASCIIString` with a negative length raises .NET's overflow exception
  from `new byte[length]`, not the copied-map-data exception. The model
  reports it as its own error, `NegativeStringLength`.
- Null names are not modelled: a name is always a string.
- Names are sequences of Unicode scalar values, and their UTF-16 length is
  computed from them. A C# string may also hold an unpaired surrogate, which
  no scalar value represents. Such names are not modelled.
- Encoding needs int32 values, an int32 entry count and names whose UTF-16
  length is an int32. These are the `Encodable` and `IsInt32` preconditions.
- PasteTerrainEffects.PerformTerrainObjectRecords: assumes no two
  terrain-object entries target one cell. With such duplicates, the record
  list is stated only by `TerrainObjectFootprint` and
  `TerrainObjectRecordsDistinct`, and by the bounds `Perform` ensures.
- PasteTerrainEffects.TerrainObjectPasteRecords: the same assumption and the
  same fallback for duplicates as `PerformTerrainObjectRecords`.
- GameMath.Plus: `origin + offset` uses unbounded integers, while C#
  `Point2D` addition on `int` wraps. The model does not wrap target cells.
- `Undo` on records it cannot apply (a missing cell, an index outside the
  overlay table) throws in C#. `Undo` requires `UndoApplies` instead, and
  `PerformEnablesUndo` shows that `Perform` always leaves applicable records
  when its overlays come from the rules.
- Indexing of the overlay table: `Undo` rebuilds an overlay as
  `OverlayTypes[index]`. This is the original type only when every type's
  `Index` is its position. That is stated as the assumption
  `IndexedByPosition`, not proved.
- PasteTerrainLemmas.PerformThenUndoRestores: assumes no two entries of the
  terrain pass, and no two of the overlay pass, target one cell. With
  duplicates the source does not restore the map either; see
  `DuplicateTerrainOffsetsDefeatUndo`.
- Structures, vehicles and infantry have tags but no entry class in the
  source. They are read as invalid entry types, and the model does the same.
- `Deserialize` does not roll back. Entries read before an exception stay in
  the list (PasteTerrainMutation.cs lines 276-277), and the model keeps them
  too.

## Findings

| source | as written | input that shows it | evidently intended | confidence | as-written member | corrected member |
|---|---|---|---|---|---|---|
| src/TSMapEditor/UI/Windows/ExpandMapWindow.cs:43-44 | `newWidth` is an unchecked C# `int` sum that can wrap before the bounds check | width 100, east and west each 2147483647, maximum 512: the sum wraps to 98 and a resize to width 98 goes ahead, with shifts of 2147483647 | a width outside 1..max is rejected, whatever the amounts typed | low (the inputs are implausible); not executed | ExpandMap.WrappedWidthAccepted | ExpandMap.ExpandMapExact |
