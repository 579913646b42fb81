/** Round trips and failure modes of the copied map data format. */
module CopiedMapDataLemmas {
  import opened Results
  import opened Bytes
  import opened GameMath
  import opened CopiedMapData

  lemma ConcatAssoc<T>(a: seq<T>, b: seq<T>, c: seq<T>)
    ensures (a + b) + c == a + (b + c)
  {
  }

  lemma ReadIntOfWritten(v: int, tail: seq<byte>)
    requires IsInt32(v)
    ensures ReadInt(Int32ToBytes(v) + tail) == Success(Parsed(v, tail))
  {
    var bs := Int32ToBytes(v) + tail;
    assert bs[..4] == Int32ToBytes(v);
    assert bs[4..] == tail;
    Int32RoundTrip(v);
  }

  /** One character takes one UTF-16 code unit, or two (a surrogate pair)
      when it lies outside the Basic Multilingual Plane. */
  lemma Utf16LengthOfChar(c: char)
    ensures Utf16Length([c]) == if c as int < FirstSupplementary then 1 else 2
  {
    assert [c][1..] == [];
  }

  /** The UTF-16 length of a concatenation is the sum of the lengths. With
      `Utf16LengthOfChar` this fixes `Utf16Length` on every string. */
  lemma {:induction false} Utf16LengthAppend(a: string, b: string)
    ensures Utf16Length(a + b) == Utf16Length(a) + Utf16Length(b)
  {
    if a == [] {
      assert a + b == b;
    } else {
      assert (a + b)[0] == a[0];
      assert (a + b)[1..] == a[1..] + b;
      Utf16LengthAppend(a[1..], b);
    }
  }

  /** Two supplementary characters are four code units, as `str.Length`
      counts them. */
  lemma TwoSupplementaryCharacters()
    ensures Utf16Length("\U{1F600}\U{1F600}") == 4
  {
    var s := "\U{1F600}\U{1F600}";
    Utf16LengthOfChar(s[0]);
    Utf16LengthAppend([s[0]], [s[1]]);
    assert s == [s[0]] + [s[1]];
  }

  /** The bytes of a written string decode to what `AsciiReadBack` says. */
  lemma DecodeWrittenName(s: string)
    requires IsInt32(Utf16Length(s))
    ensures AsciiDecode(AsciiStringToBytes(s)[4..]) == AsciiReadBack(s)
  {
    var w := AsciiStringToBytes(s);
    var r := AsciiReadBack(s);
    forall i | 0 <= i < |r|
      ensures AsciiChar(w[4 + i]) == r[i]
    {
      if i < |s| {
        assert r[..|s|][i] == r[i];
      }
    }
  }

  /** Each character of a written name is one byte after the header: its
      own code when it is ASCII, and '?' otherwise. */
  lemma WrittenNameBytes(s: string)
    requires IsInt32(Utf16Length(s))
    ensures var w := AsciiStringToBytes(s);
            forall i :: 0 <= i < |s| ==> w[4 + i] == if s[i] as int < 128 then s[i] as int else '?' as int
  {
    var w := AsciiStringToBytes(s);
    forall i | 0 <= i < |s|
      ensures w[4 + i] == if s[i] as int < 128 then s[i] as int else '?' as int
    {
      assert w[4..4 + |s|][i] == w[4 + i];
    }
  }

  /** A payload byte of 128 or more reads back as '?'. */
  lemma HighByteReadsAsQuestionMark()
    ensures ReadAsciiString([1, 0, 0, 0, 200]) == Success(Parsed("?", []))
  {
    var bs: seq<byte> := [1, 0, 0, 0, 200];
    assert Int32ToBytes(1) == [1, 0, 0, 0];
    assert bs[..4] == Int32ToBytes(1);
    Int32RoundTrip(1);
    var r := ReadAsciiString(bs);
    assert r.Success? && |r.value.value| == 1;
    assert r.value.value == AsciiDecode(bs[4..5]) == "?";
    assert r.value.rest == bs[5..] == [];
  }

  /** A written string reads back as `AsciiReadBack` of it, and exactly its
      bytes are consumed. */
  lemma ReadAsciiStringOfWritten(s: string, tail: seq<byte>)
    requires IsInt32(Utf16Length(s))
    ensures ReadAsciiString(AsciiStringToBytes(s) + tail) == Success(Parsed(AsciiReadBack(s), tail))
  {
    var w := AsciiStringToBytes(s);
    var bs := w + tail;
    var length := Utf16Length(s);
    assert bs[..4] == w[..4];
    assert bs[4..][..length] == w[4..];
    assert bs[4 + length..] == tail;
    DecodeWrittenName(s);
  }

  /** A name with a character outside the Basic Multilingual Plane: the
      header counts its two UTF-16 code units, one '?' stands for both, and
      the byte left over reads back as NUL. */
  lemma SupplementaryNameReadsBack()
    ensures var name := "A\U{1F600}";
            && AsciiStringToBytes(name) == [3, 0, 0, 0, 'A' as int, '?' as int, 0]
            && AsciiReadBack(name) == ['A', '?', 0 as char]
  {
    var name := "A\U{1F600}";
    assert name[1..][1..] == [];
    assert Utf16Length(name) == 3;
    assert Int32ToBytes(3) == [3, 0, 0, 0];
  }

  /** A string cut short anywhere fails with `EndOfStream`, never with a
      partial string. */
  lemma TruncatedStringFails(s: string, k: nat)
    requires IsInt32(Utf16Length(s)) && k < 4 + Utf16Length(s)
    ensures ReadAsciiString(AsciiStringToBytes(s)[..k]) == Failure(EndOfStream)
  {
    var bs := AsciiStringToBytes(s)[..k];
    if k >= 4 {
      assert bs[..4] == AsciiStringToBytes(s)[..4];
    }
  }

  lemma ReadOffsetOfWritten(offset: Point2D, tail: seq<byte>)
    requires IsInt32(offset.x) && IsInt32(offset.y)
    ensures ReadOffset(Int32ToBytes(offset.x) + Int32ToBytes(offset.y) + tail) == Success(Parsed(offset, tail))
  {
    assert Int32ToBytes(offset.x) + Int32ToBytes(offset.y) + tail
        == Int32ToBytes(offset.x) + (Int32ToBytes(offset.y) + tail);
    ReadIntOfWritten(offset.x, Int32ToBytes(offset.y) + tail);
    ReadIntOfWritten(offset.y, tail);
  }

  lemma ReadCustomDataOfWritten(e: CopiedEntry, tail: seq<byte>)
    requires Encodable(e)
    ensures ReadCustomData(TagValue(e.EntryType()), e.offset, CustomData(e) + tail)
            == Success(Parsed(SanitizeEntry(e), tail))
  {
    match e
    case CopiedTerrainEntry(offset, tileIndex, subTileIndex) =>
      ReadTerrainDataOfWritten(offset, tileIndex, subTileIndex, tail);
    case CopiedOverlayEntry(offset, name, frameIndex) =>
      ReadOverlayDataOfWritten(offset, name, frameIndex, tail);
    case CopiedTerrainObjectEntry(offset, name) =>
      ReadAsciiStringOfWritten(name, tail);
  }

  lemma ReadTerrainDataOfWritten(offset: Point2D, tileIndex: int, subTileIndex: byte, tail: seq<byte>)
    requires IsInt32(tileIndex)
    ensures ReadCustomData(1, offset, Int32ToBytes(tileIndex) + [subTileIndex] + tail)
            == Success(Parsed(CopiedTerrainEntry(offset, tileIndex, subTileIndex), tail))
  {
    assert Int32ToBytes(tileIndex) + [subTileIndex] + tail == Int32ToBytes(tileIndex) + ([subTileIndex] + tail);
    ReadIntOfWritten(tileIndex, [subTileIndex] + tail);
  }

  lemma ReadOverlayDataOfWritten(offset: Point2D, name: string, frameIndex: int, tail: seq<byte>)
    requires IsInt32(Utf16Length(name)) && IsInt32(frameIndex)
    ensures ReadCustomData(2, offset, AsciiStringToBytes(name) + Int32ToBytes(frameIndex) + tail)
            == Success(Parsed(CopiedOverlayEntry(offset, AsciiReadBack(name), frameIndex), tail))
  {
    assert AsciiStringToBytes(name) + Int32ToBytes(frameIndex) + tail
           == AsciiStringToBytes(name) + (Int32ToBytes(frameIndex) + tail);
    ReadAsciiStringOfWritten(name, Int32ToBytes(frameIndex) + tail);
    ReadIntOfWritten(frameIndex, tail);
  }

  /** `WriteData` then `ReadEntry` gives the entry back, names sanitized, and
      consumes exactly the entry's bytes. */
  lemma ReadEntryOfWritten(e: CopiedEntry, tail: seq<byte>)
    requires Encodable(e)
    ensures ReadEntry(WriteData(e) + tail) == Success(Parsed(SanitizeEntry(e), tail))
  {
    var afterOffset := CustomData(e) + tail;
    var afterTag := Int32ToBytes(e.offset.x) + Int32ToBytes(e.offset.y) + afterOffset;
    WriteDataShape(e, tail);
    ReadOffsetOfWritten(e.offset, afterOffset);
    ReadEntryUnfold(TagValue(e.EntryType()), e.offset, afterTag, afterOffset);
    ReadCustomDataOfWritten(e, tail);
  }

  /** `WriteData` then anything: the tag, the offset, the custom data, the rest. */
  lemma WriteDataShape(e: CopiedEntry, tail: seq<byte>)
    requires Encodable(e)
    ensures WriteData(e) + tail
            == [TagValue(e.EntryType())] + (Int32ToBytes(e.offset.x) + Int32ToBytes(e.offset.y) + (CustomData(e) + tail))
  {
  }

  /** Where each field of an entry sits in its record: the tag byte at 0, x at
      1..5 and y at 5..9, then the payload from 9 on. A terrain payload is the
      tile index and the sub-tile byte; an overlay payload is the name's
      length-prefixed bytes and then the frame index; a terrain-object payload
      is the name's length-prefixed bytes. */
  lemma WriteDataLayout(e: CopiedEntry)
    requires Encodable(e)
    ensures var w := WriteData(e);
            && w[0] == TagValue(e.EntryType())
            && BytesToInt32(w[1..5]) == e.offset.x
            && BytesToInt32(w[5..9]) == e.offset.y
            && (e.CopiedTerrainEntry? ==> |w| == 14 && BytesToInt32(w[9..13]) == e.tileIndex && w[13] == e.subTileIndex)
            && (e.CopiedOverlayEntry? ==>
                  var n := Utf16Length(e.overlayTypeName);
                  w[9..13 + n] == AsciiStringToBytes(e.overlayTypeName) && BytesToInt32(w[13 + n..]) == e.frameIndex)
            && (e.CopiedTerrainObjectEntry? ==> w[9..] == AsciiStringToBytes(e.terrainObjectTypeName))
  {
    WriteDataHeader(e);
    match e
    case CopiedTerrainEntry(_, _, _) => TerrainRecordLayout(e);
    case CopiedOverlayEntry(_, _, _) => OverlayRecordLayout(e);
    case CopiedTerrainObjectEntry(_, _) =>
  }

  lemma TerrainRecordLayout(e: CopiedEntry)
    requires e.CopiedTerrainEntry? && Encodable(e)
    ensures var w := WriteData(e);
            |w| == 14 && BytesToInt32(w[9..13]) == e.tileIndex && w[13] == e.subTileIndex
  {
    var w := WriteData(e);
    WriteDataHeader(e);
    TerrainPayloadLayout(e.tileIndex, e.subTileIndex);
    assert w[9..13] == w[9..][..4];
  }

  lemma OverlayRecordLayout(e: CopiedEntry)
    requires e.CopiedOverlayEntry? && Encodable(e)
    ensures var w := WriteData(e);
            var n := Utf16Length(e.overlayTypeName);
            w[9..13 + n] == AsciiStringToBytes(e.overlayTypeName) && BytesToInt32(w[13 + n..]) == e.frameIndex
  {
    var w := WriteData(e);
    var n := Utf16Length(e.overlayTypeName);
    WriteDataHeader(e);
    OverlayPayloadLayout(e.overlayTypeName, e.frameIndex);
    assert w[9..13 + n] == w[9..][..4 + n];
    assert w[13 + n..] == w[9..][4 + n..];
  }

  /** The record's first nine bytes are the tag and the offset; the payload
      follows. */
  lemma WriteDataHeader(e: CopiedEntry)
    requires Encodable(e)
    ensures var w := WriteData(e);
            && w[0] == TagValue(e.EntryType())
            && BytesToInt32(w[1..5]) == e.offset.x
            && BytesToInt32(w[5..9]) == e.offset.y
            && w[9..] == CustomData(e)
  {
    var head, xs, ys, body := [TagValue(e.EntryType())], Int32ToBytes(e.offset.x), Int32ToBytes(e.offset.y), CustomData(e);
    var w := WriteData(e);
    assert w == head + xs + ys + body;
    assert w[1..5] == xs;
    assert w[5..9] == ys;
    assert w[9..] == body;
    Int32RoundTrip(e.offset.x);
    Int32RoundTrip(e.offset.y);
  }

  lemma TerrainPayloadLayout(tileIndex: int, subTileIndex: byte)
    requires IsInt32(tileIndex)
    ensures var c := Int32ToBytes(tileIndex) + [subTileIndex];
            |c| == 5 && BytesToInt32(c[..4]) == tileIndex && c[4] == subTileIndex
  {
    var c := Int32ToBytes(tileIndex) + [subTileIndex];
    assert c[..4] == Int32ToBytes(tileIndex);
    Int32RoundTrip(tileIndex);
  }

  lemma OverlayPayloadLayout(name: string, frameIndex: int)
    requires IsInt32(Utf16Length(name)) && IsInt32(frameIndex)
    ensures var c := AsciiStringToBytes(name) + Int32ToBytes(frameIndex);
            var n := Utf16Length(name);
            c[..4 + n] == AsciiStringToBytes(name) && BytesToInt32(c[4 + n..]) == frameIndex
  {
    var c := AsciiStringToBytes(name) + Int32ToBytes(frameIndex);
    assert c[4 + Utf16Length(name)..] == Int32ToBytes(frameIndex);
    Int32RoundTrip(frameIndex);
  }

  /** `ReadEntry` past an implemented tag and a readable offset is
      `ReadCustomData` of what follows. */
  lemma ReadEntryUnfold(tag: byte, offset: Point2D, afterTag: seq<byte>, afterOffset: seq<byte>)
    requires IsImplementedTag(tag)
    requires ReadOffset(afterTag) == Success(Parsed(offset, afterOffset))
    ensures ReadEntry([tag] + afterTag) == ReadCustomData(tag, offset, afterOffset)
  {
    assert ([tag] + afterTag)[1..] == afterTag;
  }

  lemma ReadEntriesStep(read: EntryReader, bs: seq<byte>, count: nat, e: CopiedEntry, rest: seq<byte>)
    requires count > 0
    requires read(bs) == Success(Parsed(e, rest))
    ensures ReadEntriesWith(read, bs, count)
            == EntriesRead([e] + ReadEntriesWith(read, rest, count - 1).entries, ReadEntriesWith(read, rest, count - 1).error)
  {
  }

  /** `read` reads `vals` one after another from `bs`, and reading them
      leaves `end`. */
  predicate ReadsAsChain(read: EntryReader, bs: seq<byte>, vals: seq<CopiedEntry>, end: seq<byte>)
    decreases |vals|
  {
    if vals == [] then bs == end
    else
      var r := read(bs);
      r.Success? && r.value.value == vals[0] && ReadsAsChain(read, r.value.rest, vals[1..], end)
  }

  /** Reading `|vals| + extra` entries along a chain: the chained entries
      come first, then reading carries on from where the chain ends. */
  lemma {:induction false} ReadEntriesOfChain(read: EntryReader, bs: seq<byte>, vals: seq<CopiedEntry>, end: seq<byte>,
                                              count: nat, extra: nat)
    requires ReadsAsChain(read, bs, vals, end) && count == |vals| + extra
    ensures ReadEntriesWith(read, bs, count)
            == EntriesRead(vals + ReadEntriesWith(read, end, extra).entries, ReadEntriesWith(read, end, extra).error)
    decreases |vals|
  {
    var after := ReadEntriesWith(read, end, extra);
    if vals == [] {
      assert vals + after.entries == after.entries;
      assert count == extra;
    } else {
      var rest := read(bs).value.rest;
      ReadEntriesStep(read, bs, count, vals[0], rest);
      assert |vals[1..]| + extra == count - 1;
      ReadEntriesOfChain(read, rest, vals[1..], end, count - 1, extra);
      ConcatAssoc([vals[0]], vals[1..], after.entries);
      assert [vals[0]] + vals[1..] == vals;
    }
  }

  /** Written entries form a chain that ends in whatever follows them. */
  lemma {:induction false} WrittenEntriesChain(es: seq<CopiedEntry>, tail: seq<byte>)
    requires AllEncodable(es)
    ensures ReadsAsChain(ReadEntry, WriteEntries(es) + tail, SanitizeAll(es), tail)
  {
    if es == [] {
      assert WriteEntries(es) + tail == tail;
    } else {
      var rest := WriteEntries(es[1..]) + tail;
      assert WriteEntries(es) == WriteData(es[0]) + WriteEntries(es[1..]);
      ConcatAssoc(WriteData(es[0]), WriteEntries(es[1..]), tail);
      ReadEntryOfWritten(es[0], rest);
      WrittenEntriesChain(es[1..], tail);
      assert SanitizeAll(es)[1..] == SanitizeAll(es[1..]);
    }
  }

  /** Reading `|es| + extra` entries from written entries: the written ones
      come back first, names sanitized, then reading carries on in whatever
      follows them. */
  lemma ReadEntriesOfWritten(es: seq<CopiedEntry>, tail: seq<byte>, count: nat, extra: nat)
    requires AllEncodable(es) && count == |es| + extra
    ensures ReadEntries(WriteEntries(es) + tail, count)
            == EntriesRead(SanitizeAll(es) + ReadEntries(tail, extra).entries, ReadEntries(tail, extra).error)
  {
    WrittenEntriesChain(es, tail);
    ReadEntriesOfChain(ReadEntry, WriteEntries(es) + tail, SanitizeAll(es), tail, count, extra);
  }

  /** `Deserialize` past a declared count `c`: the loop runs `c` times, or
      not at all when `c` is negative. */
  lemma DeserializeOfCount(existing: seq<CopiedEntry>, c: int, body: seq<byte>)
    requires IsInt32(c)
    ensures var read := ReadEntries(body, if c < 0 then 0 else c);
            Deserialize(existing, Int32ToBytes(c) + body)
            == Deserialized(existing + read.entries, if read.error.None? then Completed else Failed(read.error.value))
  {
    var bs := Int32ToBytes(c) + body;
    assert bs[..4] == Int32ToBytes(c);
    assert bs[4..] == body;
    Int32RoundTrip(c);
  }

  /** The serialization round trip: whatever the container held before, the
      serialized entries are appended in order, names sanitized, and bytes
      after them are ignored. */
  lemma DeserializeOfSerialize(existing: seq<CopiedEntry>, es: seq<CopiedEntry>, tail: seq<byte>)
    requires IsInt32(|es|) && AllEncodable(es)
    ensures Deserialize(existing, Serialize(es) + tail) == Deserialized(existing + SanitizeAll(es), Completed)
  {
    ConcatAssoc(Int32ToBytes(|es|), WriteEntries(es), tail);
    DeserializeOfCount(existing, |es|, WriteEntries(es) + tail);
    ReadEntriesOfWritten(es, tail, |es|, 0);
    assert ReadEntries(tail, 0) == EntriesRead([], None);
    assert SanitizeAll(es) + [] == SanitizeAll(es);
  }

  /** An empty container gets the serialized entries back and completes;
      the entries are exactly the originals if and only if every name is
      ASCII. */
  lemma RoundTrip(es: seq<CopiedEntry>)
    requires IsInt32(|es|) && AllEncodable(es)
    ensures Deserialize([], Serialize(es)).outcome == Completed
    ensures Deserialize([], Serialize(es)).entries == es <==> forall i :: 0 <= i < |es| ==> HasAsciiNames(es[i])
  {
    DeserializeOfSerialize([], es, []);
    assert Serialize(es) + [] == Serialize(es);
    assert [] + SanitizeAll(es) == SanitizeAll(es);
    if SanitizeAll(es) == es {
      forall i | 0 <= i < |es|
        ensures HasAsciiNames(es[i])
      {
        assert SanitizeAll(es)[i] == SanitizeEntry(es[i]);
      }
    }
  }

  /** A declared count larger than the entries present: the present entries
      are appended, then the tag read at the end of the stream is -1 and the
      call fails. */
  lemma CountBeyondDataFails(existing: seq<CopiedEntry>, es: seq<CopiedEntry>, count: int)
    requires IsInt32(count) && count > |es| && AllEncodable(es)
    ensures Deserialize(existing, Int32ToBytes(count) + WriteEntries(es))
            == Deserialized(existing + SanitizeAll(es), Failed(InvalidEntryType(-1)))
  {
    var bs := Int32ToBytes(count) + WriteEntries(es);
    assert bs[..4] == Int32ToBytes(count);
    assert bs[4..] == WriteEntries(es) + [];
    Int32RoundTrip(count);
    ReadEntriesOfWritten(es, [], count, count - |es|);
    assert ReadEntries([], count - |es|) == EntriesRead([], Some(InvalidEntryType(-1)));
    assert SanitizeAll(es) + [] == SanitizeAll(es);
  }

  /** A tag byte other than 1, 2 or 4 where an entry is expected fails the
      call; the entries before it stay appended. */
  lemma BadTagFails(existing: seq<CopiedEntry>, es: seq<CopiedEntry>, count: int, tag: byte, rest: seq<byte>)
    requires IsInt32(count) && count > |es| && AllEncodable(es)
    requires !IsImplementedTag(tag)
    ensures Deserialize(existing, Int32ToBytes(count) + WriteEntries(es) + ([tag] + rest))
            == Deserialized(existing + SanitizeAll(es), Failed(InvalidEntryType(tag)))
  {
    ConcatAssoc(Int32ToBytes(count), WriteEntries(es), [tag] + rest);
    DeserializeOfCount(existing, count, WriteEntries(es) + ([tag] + rest));
    ReadEntriesOfWritten(es, [tag] + rest, count, count - |es|);
    assert ReadEntries([tag] + rest, count - |es|) == EntriesRead([], Some(InvalidEntryType(tag)));
    assert SanitizeAll(es) + [] == SanitizeAll(es);
  }

  /** A terrain entry whose final sub-tile byte is missing still reads, with
      sub-tile index 255. */
  lemma MissingSubTileReadsAs255(existing: seq<CopiedEntry>, x: int, y: int, tileIndex: int)
    requires IsInt32(x) && IsInt32(y) && IsInt32(tileIndex)
    ensures Deserialize(existing, Int32ToBytes(1) + ([1] + Int32ToBytes(x) + Int32ToBytes(y) + Int32ToBytes(tileIndex)))
            == Deserialized(existing + [CopiedTerrainEntry(Point2D(x, y), tileIndex, 255)], Completed)
  {
    var entry := [1] + Int32ToBytes(x) + Int32ToBytes(y) + Int32ToBytes(tileIndex);
    var bs := Int32ToBytes(1) + entry;
    assert bs[..4] == Int32ToBytes(1);
    assert bs[4..] == entry;
    Int32RoundTrip(1);
    assert entry[1..] == Int32ToBytes(x) + (Int32ToBytes(y) + (Int32ToBytes(tileIndex) + []));
    ReadIntOfWritten(x, Int32ToBytes(y) + (Int32ToBytes(tileIndex) + []));
    ReadIntOfWritten(y, Int32ToBytes(tileIndex) + []);
    ReadIntOfWritten(tileIndex, []);
  }
}
