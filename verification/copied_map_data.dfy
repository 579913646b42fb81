/** The copy/paste wire format of `CopiedMapData` and its entries, with the
    byte stream replaced by a cursor: every reader takes the bytes not yet
    consumed and returns what it read together with the bytes that remain. */
module CopiedMapData {
  import opened Results
  import opened Bytes
  import opened GameMath

  /** The `CopiedEntryType` flag enumeration; only Terrain, Overlay and
      TerrainObject have entry classes. */
  datatype CopiedEntryType = Invalid | Terrain | Overlay | TerrainObject | Structure | Vehicle | Infantry

  /** The numeric value of each enumeration member, written as the tag byte. */
  function TagValue(t: CopiedEntryType): (r: byte)
  {
    match t
    case Invalid => 0
    case Terrain => 1
    case Overlay => 2
    case TerrainObject => 4
    case Structure => 8
    case Vehicle => 16
    case Infantry => 32
  }

  /** The tags `Deserialize` accepts: those with an entry class. */
  predicate IsImplementedTag(tag: int) {
    tag == 1 || tag == 2 || tag == 4
  }

  /** One copied map element with its offset from the paste origin. */
  datatype CopiedEntry =
    | CopiedTerrainEntry(offset: Point2D, tileIndex: int, subTileIndex: byte)
    | CopiedOverlayEntry(offset: Point2D, overlayTypeName: string, frameIndex: int)
    | CopiedTerrainObjectEntry(offset: Point2D, terrainObjectTypeName: string)
  {
    function EntryType(): (r: CopiedEntryType)
      ensures IsImplementedTag(TagValue(r))
    {
      match this
      case CopiedTerrainEntry(_, _, _) => Terrain
      case CopiedOverlayEntry(_, _, _) => Overlay
      case CopiedTerrainObjectEntry(_, _) => TerrainObject
    }
  }

  /** Why reading copied map data fails. `EndOfStream` and `InvalidEntryType`
      are the `CopiedMapDataSerializationException`s; `NegativeStringLength`
      is the runtime's overflow error from allocating a negative-size array. */
  datatype DecodeError =
    | EndOfStream
    | InvalidEntryType(tag: int)
    | NegativeStringLength(length: int)

  /** A value read from the front of a byte sequence, and the bytes after it. */
  datatype Parsed<+T> = Parsed(value: T, rest: seq<byte>)

  // ---------------------------------------------------------------- ASCII

  predicate IsAscii(s: string) {
    forall i :: 0 <= i < |s| ==> s[i] as int < 128
  }

  /** `Encoding.ASCII.GetBytes` on one character: non-ASCII becomes '?'. */
  function AsciiByte(c: char): (r: byte)
    ensures r < 128
    ensures c as int < 128 ==> r == c as int
    ensures c as int >= 128 ==> r == '?' as int
  {
    if c as int < 128 then c as int else '?' as int
  }

  /** `Encoding.ASCII.GetString` on one byte: bytes above 127 become '?'. */
  function AsciiChar(b: byte): (r: char)
    ensures r as int < 128
    ensures b < 128 ==> r as int == b
    ensures b >= 128 ==> r == '?'
  {
    if b < 128 then b as char else '?'
  }

  function AsciiDecode(bs: seq<byte>): (r: string)
    ensures |r| == |bs| && IsAscii(r)
    ensures forall i :: 0 <= i < |bs| ==> r[i] == AsciiChar(bs[i])
  {
    seq(|bs|, i requires 0 <= i < |bs| => AsciiChar(bs[i]))
  }

  function AsciiEncode(s: string): (r: seq<byte>)
    ensures |r| == |s|
    ensures forall i :: 0 <= i < |s| ==> r[i] == AsciiByte(s[i])
  {
    seq(|s|, i requires 0 <= i < |s| => AsciiByte(s[i]))
  }

  /** `Encoding.ASCII.GetBytes` then `GetString` on one character: ASCII
      characters are kept and every other character becomes '?'. */
  function Sanitize(s: string): (r: string)
    ensures |r| == |s| && IsAscii(r)
    ensures forall i :: 0 <= i < |s| ==> (r[i] == s[i] <==> s[i] as int < 128)
    ensures forall i :: 0 <= i < |s| && s[i] as int >= 128 ==> r[i] == '?'
    ensures IsAscii(s) ==> r == s
  {
    seq(|s|, i requires 0 <= i < |s| => if s[i] as int < 128 then s[i] else '?')
  }

  /** Characters at or above this code point lie outside the Basic
      Multilingual Plane, and a C# string holds each of them as a surrogate
      pair of two UTF-16 code units. */
  const FirstSupplementary: int := 0x1_0000

  /** C#'s `string.Length`: the number of UTF-16 code units. A model string is
      a sequence of Unicode scalar values, so a supplementary character
      counts twice. */
  function Utf16Length(s: string): (r: nat)
    ensures |s| <= r
    ensures r == |s| <==> forall i :: 0 <= i < |s| ==> s[i] as int < FirstSupplementary
  {
    if s == [] then 0
    else (if s[0] as int < FirstSupplementary then 1 else 2) + Utf16Length(s[1..])
  }

  /** The string `ReadASCIIString` gives back for a name `ASCIIStringToBytes`
      wrote. The header counts UTF-16 code units, but `Encoding.ASCII` writes
      one '?' for a whole surrogate pair. So the bytes it leaves unwritten
      keep their initial 0 and read back as NUL characters after the
      sanitized name. */
  function AsciiReadBack(s: string): (r: string)
    ensures |r| == Utf16Length(s) && IsAscii(r)
    ensures r[..|s|] == Sanitize(s)
    ensures forall i :: |s| <= i < |r| ==> r[i] == 0 as char
    ensures IsAscii(s) ==> r == s
  {
    if IsAscii(s) then assert Utf16Length(s) == |s|; Sanitize(s)
    else Sanitize(s) + seq(Utf16Length(s) - |s|, _ => 0 as char)
  }

  predicate HasAsciiNames(e: CopiedEntry) {
    match e
    case CopiedTerrainEntry(_, _, _) => true
    case CopiedOverlayEntry(_, name, _) => IsAscii(name)
    case CopiedTerrainObjectEntry(_, name) => IsAscii(name)
  }

  /** An entry as it reads back after being written: each name replaced by
      what `ReadASCIIString` makes of its bytes. */
  function SanitizeEntry(e: CopiedEntry): (r: CopiedEntry)
    ensures r.EntryType() == e.EntryType() && r.offset == e.offset
    ensures HasAsciiNames(r)
    ensures r == e <==> HasAsciiNames(e)
    ensures e.CopiedTerrainEntry? ==> r == e
    ensures e.CopiedOverlayEntry? ==>
              r.frameIndex == e.frameIndex && r.overlayTypeName == AsciiReadBack(e.overlayTypeName)
    ensures e.CopiedTerrainObjectEntry? ==> r.terrainObjectTypeName == AsciiReadBack(e.terrainObjectTypeName)
  {
    match e
    case CopiedTerrainEntry(_, _, _) => e
    case CopiedOverlayEntry(offset, name, frameIndex) => CopiedOverlayEntry(offset, AsciiReadBack(name), frameIndex)
    case CopiedTerrainObjectEntry(offset, name) => CopiedTerrainObjectEntry(offset, AsciiReadBack(name))
  }

  function SanitizeAll(es: seq<CopiedEntry>): (r: seq<CopiedEntry>)
    ensures |r| == |es|
    ensures forall i :: 0 <= i < |es| ==> r[i] == SanitizeEntry(es[i])
  {
    if es == [] then [] else [SanitizeEntry(es[0])] + SanitizeAll(es[1..])
  }

  // ---------------------------------------------------------------- readers

  /** `Stream.ReadByte`: the next byte, or -1 at the end of the stream (which
      leaves the stream where it is). */
  function ReadByte(bs: seq<byte>): (r: Parsed<int>)
    ensures bs == [] ==> r == Parsed(-1, bs)
    ensures bs != [] ==> 0 <= r.value < 256 && bs == [r.value] + r.rest
  {
    if bs == [] then Parsed(-1, bs) else Parsed(bs[0] as int, bs[1..])
  }

  /** `CopiedMapEntry.ReadInt`: fails when fewer than four bytes remain. */
  function ReadInt(bs: seq<byte>): (r: Result<Parsed<int>, DecodeError>)
    ensures r.Failure? <==> |bs| < 4
    ensures r.Failure? ==> r.error == EndOfStream
    ensures r.Success? ==> IsInt32(r.value.value) && r.value.rest == bs[4..]
  {
    if |bs| < 4 then Failure(EndOfStream)
    else
      Success(Parsed(BytesToInt32(bs[..4]), bs[4..]))
  }

  /** `CopiedMapEntry.ReadASCIIString`: an int32 length, then that many bytes.
      A negative length fails where C# allocates the array; too few bytes
      fail with end of stream. */
  function ReadAsciiString(bs: seq<byte>): (r: Result<Parsed<string>, DecodeError>)
    ensures |bs| < 4 ==> r == Failure(EndOfStream)
    ensures |bs| >= 4 ==>
              var length := BytesToInt32(bs[..4]);
              && (length < 0 ==> r == Failure(NegativeStringLength(length)))
              && (0 <= length && |bs| - 4 < length ==> r == Failure(EndOfStream))
              && (r.Success? <==> 0 <= length <= |bs| - 4)
              && (r.Success? ==> |r.value.value| == length && r.value.rest == bs[4 + length..])
    ensures r.Success? ==> IsAscii(r.value.value) && |bs| == 4 + |r.value.value| + |r.value.rest|
    ensures r.Success? ==> r.value.value == AsciiDecode(bs[4..4 + |r.value.value|])
  {
    var Parsed(length, afterLength) :- ReadInt(bs);
    if length < 0 then Failure(NegativeStringLength(length))
    else if |afterLength| < length then Failure(EndOfStream)
    else Success(Parsed(AsciiDecode(afterLength[..length]), afterLength[length..]))
  }

  /** The offset at the start of `ReadData`: x, then y. */
  function ReadOffset(bs: seq<byte>): (r: Result<Parsed<Point2D>, DecodeError>)
    ensures r.Failure? <==> |bs| < 8
    ensures r.Success? ==> r.value.rest == bs[8..]
  {
    var Parsed(x, afterX) :- ReadInt(bs);
    var Parsed(y, afterY) :- ReadInt(afterX);
    Success(Parsed(Point2D(x, y), afterY))
  }

  /** `ReadCustomData` of the entry class an implemented tag selects. The
      sub-tile byte of a terrain entry is read without a check, so a missing
      one reads as `(byte)-1`, which is 255. */
  function ReadCustomData(tag: int, offset: Point2D, bs: seq<byte>): (r: Result<Parsed<CopiedEntry>, DecodeError>)
    requires IsImplementedTag(tag)
    ensures r.Success? ==> tag == TagValue(r.value.value.EntryType()) && r.value.value.offset == offset
    ensures r.Success? ==> |r.value.rest| < |bs|
  {
    if tag == 1 then
      var Parsed(tileIndex, afterTile) :- ReadInt(bs);
      var Parsed(subTile, afterSubTile) := ReadByte(afterTile);
      Success(Parsed(CopiedTerrainEntry(offset, tileIndex, subTile % 256), afterSubTile))
    else if tag == 2 then
      var Parsed(name, afterName) :- ReadAsciiString(bs);
      var Parsed(frameIndex, afterFrame) :- ReadInt(afterName);
      Success(Parsed(CopiedOverlayEntry(offset, name, frameIndex), afterFrame))
    else
      var Parsed(name, afterName) :- ReadAsciiString(bs);
      Success(Parsed(CopiedTerrainObjectEntry(offset, name), afterName))
  }

  /** One iteration of the `Deserialize` loop: the tag byte, the switch that
      rejects every tag without an entry class, then `ReadData`. */
  function ReadEntry(bs: seq<byte>): (r: Result<Parsed<CopiedEntry>, DecodeError>)
    ensures bs == [] ==> r == Failure(InvalidEntryType(-1))
    ensures bs != [] && !IsImplementedTag(bs[0]) ==> r == Failure(InvalidEntryType(bs[0]))
    ensures r.Success? ==> bs != [] && bs[0] == TagValue(r.value.value.EntryType())
    ensures r.Success? ==> |r.value.rest| < |bs|
  {
    var Parsed(tag, afterTag) := ReadByte(bs);
    if !IsImplementedTag(tag) then Failure(InvalidEntryType(tag))
    else
      var Parsed(offset, afterOffset) :- ReadOffset(afterTag);
      ReadCustomData(tag, offset, afterOffset)
  }

  /** The entries a run of the `Deserialize` loop read, and the error that
      ended it early, if any. */
  datatype EntriesRead = EntriesRead(entries: seq<CopiedEntry>, error: Option<DecodeError>)

  /** A reader of one entry from the front of a stream. */
  type EntryReader = seq<byte> -> Result<Parsed<CopiedEntry>, DecodeError>

  /** The `Deserialize` loop with `read` as its body: reads `count` entries
      one after another, stopping at the first failure. The entries read
      before a failure are returned with it. */
  function ReadEntriesWith(read: EntryReader, bs: seq<byte>, count: nat): (r: EntriesRead)
    ensures |r.entries| <= count
    ensures r.error.None? <==> |r.entries| == count
    decreases count
  {
    if count == 0 then EntriesRead([], None)
    else
      match read(bs)
      case Failure(e) => EntriesRead([], Some(e))
      case Success(Parsed(entry, rest)) =>
        var more := ReadEntriesWith(read, rest, count - 1);
        EntriesRead([entry] + more.entries, more.error)
  }

  /** The `Deserialize` loop itself. */
  function ReadEntries(bs: seq<byte>, count: nat): EntriesRead {
    ReadEntriesWith(ReadEntry, bs, count)
  }

  /** How a call of `Deserialize` ended: normally, by the logged short-buffer
      return, or by an exception. */
  datatype Outcome = Completed | ShortBuffer | Failed(error: DecodeError)

  /** The entry list of a `CopiedMapData` after `Deserialize`, and how it ended. */
  datatype Deserialized = Deserialized(entries: seq<CopiedEntry>, outcome: Outcome)

  /** `CopiedMapData.Deserialize` on a container that already holds `existing`:
      it appends, and entries read before an exception stay appended. A
      negative declared count reads nothing. */
  function Deserialize(existing: seq<CopiedEntry>, bytes: seq<byte>): (r: Deserialized)
    ensures |bytes| < 4 <==> r.outcome == ShortBuffer
    ensures |bytes| < 4 ==> r.entries == existing
    ensures |existing| <= |r.entries| && r.entries[..|existing|] == existing
    ensures |bytes| >= 4 ==>
              var count := BytesToInt32(bytes[..4]);
              (r.outcome.Completed? <==> |r.entries| == |existing| + (if count < 0 then 0 else count))
  {
    if |bytes| < 4 then Deserialized(existing, ShortBuffer)
    else
      var count := BytesToInt32(bytes[..4]);
      var read := ReadEntries(bytes[4..], if count < 0 then 0 else count);
      Deserialized(existing + read.entries, if read.error.None? then Completed else Failed(read.error.value))
  }

  // ---------------------------------------------------------------- writers

  /** What the writers need: every integer fits a C# `int`. A string's length
      always does in C#. */
  predicate Encodable(e: CopiedEntry) {
    && IsInt32(e.offset.x) && IsInt32(e.offset.y)
    && match e
       case CopiedTerrainEntry(_, tileIndex, _) => IsInt32(tileIndex)
       case CopiedOverlayEntry(_, name, frameIndex) => IsInt32(Utf16Length(name)) && IsInt32(frameIndex)
       case CopiedTerrainObjectEntry(_, name) => IsInt32(Utf16Length(name))
  }

  predicate AllEncodable(es: seq<CopiedEntry>) {
    forall i :: 0 <= i < |es| ==> Encodable(es[i])
  }

  /** `ASCIIStringToBytes`: a buffer of 4 + `str.Length` zero bytes, holding
      the length and then the `Encoding.ASCII` bytes of the string, with no
      terminator. */
  function AsciiStringToBytes(s: string): (r: seq<byte>)
    requires IsInt32(Utf16Length(s))
    ensures |r| == 4 + Utf16Length(s)
    ensures BytesToInt32(r[..4]) == Utf16Length(s)
    ensures r[4..4 + |s|] == AsciiEncode(s)
    ensures r[4 + |s|..] == seq(Utf16Length(s) - |s|, _ => 0)
  {
    var header := Int32ToBytes(Utf16Length(s));
    Int32RoundTrip(Utf16Length(s));
    var r := header + AsciiEncode(s) + seq(Utf16Length(s) - |s|, _ => 0);
    assert r[..4] == header;
    assert r[4..4 + |s|] == AsciiEncode(s);
    r
  }

  /** `GetCustomData` of each entry class. */
  function CustomData(e: CopiedEntry): (r: seq<byte>)
    requires Encodable(e)
  {
    match e
    case CopiedTerrainEntry(_, tileIndex, subTileIndex) => Int32ToBytes(tileIndex) + [subTileIndex]
    case CopiedOverlayEntry(_, name, frameIndex) => AsciiStringToBytes(name) + Int32ToBytes(frameIndex)
    case CopiedTerrainObjectEntry(_, name) => AsciiStringToBytes(name)
  }

  /** The number of bytes each kind of entry occupies on the wire. */
  function EncodedSize(e: CopiedEntry): nat {
    match e
    case CopiedTerrainEntry(_, _, _) => 1 + 8 + 5
    case CopiedOverlayEntry(_, name, _) => 1 + 8 + 4 + Utf16Length(name) + 4
    case CopiedTerrainObjectEntry(_, name) => 1 + 8 + 4 + Utf16Length(name)
  }

  /** `CopiedMapEntry.WriteData`: tag byte, offset x and y, payload. */
  function WriteData(e: CopiedEntry): (r: seq<byte>)
    requires Encodable(e)
    ensures |r| == EncodedSize(e)
    ensures r[0] == TagValue(e.EntryType())
  {
    [TagValue(e.EntryType())] + Int32ToBytes(e.offset.x) + Int32ToBytes(e.offset.y) + CustomData(e)
  }

  /** The entries written back to back, in list order. */
  function WriteEntries(es: seq<CopiedEntry>): (r: seq<byte>)
    requires AllEncodable(es)
    ensures |r| == EncodedLength(es)
  {
    if es == [] then [] else WriteData(es[0]) + WriteEntries(es[1..])
  }

  /** The bytes all of `es` occupies on the wire, header excluded. */
  function EncodedLength(es: seq<CopiedEntry>): nat {
    if es == [] then 0 else EncodedSize(es[0]) + EncodedLength(es[1..])
  }

  /** `CopiedMapData.Serialize`: the entry count, then every entry. The
      header decodes back to the number of entries. */
  function Serialize(es: seq<CopiedEntry>): (r: seq<byte>)
    requires IsInt32(|es|) && AllEncodable(es)
    ensures |r| == 4 + EncodedLength(es)
    ensures BytesToInt32(r[..4]) == |es|
  {
    var header := Int32ToBytes(|es|);
    Int32RoundTrip(|es|);
    assert (header + WriteEntries(es))[..4] == header;
    header + WriteEntries(es)
  }
}
