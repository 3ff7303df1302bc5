/** The parser of an encoded 7z header. */
module SevenZipParsers {
  import opened Common
  import opened SevenZip
  import opened SevenZipHeaders
  import opened SevenZipClassification

  lemma HeaderIsClassified(data: Bytes)
    ensures var r := EncodedHeader(data);
            && (r == NotEncoded <==> data != [] && data[0] != 0x17)
            && (forall start, end :: r == PackRange(start, end) <==> HoldsRange(data, start, end))
            && (r == Panicked <==> CountsNegative(data))
            && (data == [] || CutOff(data) ==> r == Rejected)
  {
    forall start, end ensures EncodedHeader(data) == PackRange(start, end) <==> HoldsRange(data, start, end) {
      RangeExactly(data, start, end);
    }
    PanicExactly(data);
    if CutOff(data) {
      CutOffIsRejected(data);
    }
    FirstByteDecides(data);
  }

  lemma FirstByteDecides(data: Bytes)
    ensures EncodedHeader(data) == NotEncoded <==> data != [] && data[0] != 0x17
    ensures data == [] ==> EncodedHeader(data) == Rejected
  {
  }

  method ReadSizes(reader: SevenZipByteReader, count: nat) returns (r: Option<seq<int>>)
    requires reader.Valid()
    modifies reader
    ensures reader.Valid()
    ensures match SizesAt(reader.data, old(reader.pos), count, [])
            case Got(sizes, next) => r == Some(sizes) && reader.pos == next
            case _ => r == None
  {
    var sizes: seq<int> := [];
    var idx := 0;
    while idx < count
      invariant idx <= count && reader.Valid()
      invariant SizesAt(reader.data, old(reader.pos), count, [])
                == SizesAt(reader.data, reader.pos, count - idx, sizes)
    {
      var size := reader.ReadNumber();
      if size.None? {
        return None;
      }
      sizes := sizes + [size.value];
      idx := idx + 1;
    }
    return Some(sizes);
  }

  method SumSizes(sizes: seq<int>) returns (total: int)
    ensures total == WrapSum(sizes, |sizes|)
  {
    total := 0;
    for i := 0 to |sizes|
      invariant total == WrapSum(sizes, i)
    {
      total := Wrap64(total + sizes[i]);
    }
  }

  method ReadProperties(reader: SevenZipByteReader, packPos: int, count: int) returns (r: PackRange)
    requires reader.Valid()
    modifies reader
    ensures r == Conclude(packPos, PropertiesAt(reader.data, old(reader.pos), count, []))
  {
    var sizes: seq<int> := [];
    while true
      invariant reader.Valid()
      invariant PropertiesAt(reader.data, old(reader.pos), count, [])
                == PropertiesAt(reader.data, reader.pos, count, sizes)
      decreases |reader.data| - reader.pos
    {
      var nid := reader.ReadByte();
      if nid.None? {
        return Rejected;
      }
      if nid.value == 0x09 {
        if count < 0 {
          return Panicked;
        }
        var got := ReadSizes(reader, count);
        if got.None? {
          return Rejected;
        }
        sizes := got.value;
      } else if nid.value == 0x0A {
        var skipped := reader.SkipDigests(count);
        if !skipped.Got? {
          return if skipped.Panic? then Panicked else Rejected;
        }
      } else if nid.value == 0x00 {
        if |sizes| == 0 {
          return Rejected;
        }
        var total := SumSizes(sizes);
        return PackRange(packPos, Wrap64(packPos + total));
      } else {
        return Rejected;
      }
    }
  }

  /** A header that is not encoded is told by its first byte; a range comes from exactly the data that starts with a
      serialised pack info with a list of sizes, a panic from a negative count of streams before a list or digests, and
      everything else, empty data and cut-off pack infos among it, is refused. */
  method ParseSevenZipEncodedHeaderPackRange(nextHeader: Bytes) returns (r: PackRange)
    ensures r == EncodedHeader(nextHeader)
    ensures r == NotEncoded <==> nextHeader != [] && nextHeader[0] != 0x17
    ensures forall start, end :: r == PackRange(start, end) <==> HoldsRange(nextHeader, start, end)
    ensures r == Panicked <==> CountsNegative(nextHeader)
    ensures nextHeader == [] || CutOff(nextHeader) ==> r == Rejected
  {
    HeaderIsClassified(nextHeader);
    var reader := new SevenZipByteReader(nextHeader);
    var nid := reader.ReadByte();
    if nid.None? {
      return Rejected;
    }
    if nid.value != 0x17 {
      return NotEncoded;
    }
    nid := reader.ReadByte();
    if nid.None? || nid.value != 0x06 {
      return Rejected;
    }
    var packPos := reader.ReadNumber();
    if packPos.None? {
      return Rejected;
    }
    var count := reader.ReadNumber();
    if count.None? {
      return Rejected;
    }
    r := ReadProperties(reader, packPos.value, count.value);
  }
}
