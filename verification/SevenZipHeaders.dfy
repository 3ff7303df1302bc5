/** What the two 7z header parsers read, and the serialisations they invert. */
module SevenZipHeaders {
  import opened Common
  import opened SevenZip

  // ---------------------------------------------------------------- pack info of an encoded header

  /** Where the packed header lies; that it is not encoded; an error; or a panic from a negative count. */
  datatype PackRange = PackRange(start: int, end: int) | NotEncoded | Rejected | Panicked

  /** `count` numbers at `pos`, after those in `got`. */
  function SizesAt(data: Bytes, pos: nat, count: nat, got: seq<int>): (r: Read<seq<int>>)
    requires pos <= |data|
    ensures !r.Panic? && (r.Got? ==> pos <= r.next <= |data|)
    decreases count
  {
    if count == 0 then Got(got, pos)
    else
      match NumberAt(data, pos)
      case Got(v, next) => SizesAt(data, next, count - 1, got + [v])
      case _ => OutOfData
  }

  /** `int64` addition from the left. */
  function WrapSum(sizes: seq<int>, n: nat): int
    requires n <= |sizes|
  {
    if n == 0 then 0 else Wrap64(WrapSum(sizes, n - 1) + sizes[n - 1])
  }

  /** The sizes that stand when the properties from `pos` on end; a later list of sizes replaces an earlier one. */
  function PropertiesAt(data: Bytes, pos: nat, count: int, sizes: seq<int>): Read<seq<int>>
    decreases |data| - pos
  {
    if pos >= |data| then OutOfData
    else if data[pos] == 0x09 then
      if count < 0 then Panic
      else
        match SizesAt(data, pos + 1, count, [])
        case Got(got, next) => PropertiesAt(data, next, count, got)
        case _ => OutOfData
    else if data[pos] == 0x0A then
      match DigestsAt(data, pos + 1, count)
      case Got(_, next) => PropertiesAt(data, next, count, sizes)
      case OutOfData => OutOfData
      case Panic => Panic
    else if data[pos] == 0x00 then Got(sizes, pos + 1)
    else OutOfData
  }

  function Conclude(packPos: int, r: Read<seq<int>>): PackRange {
    match r
    case Got(sizes, _) =>
      if sizes == [] then Rejected else PackRange(packPos, Wrap64(packPos + WrapSum(sizes, |sizes|)))
    case OutOfData => Rejected
    case Panic => Panicked
  }

  function EncodedHeader(data: Bytes): PackRange {
    if |data| == 0 then Rejected
    else if data[0] != 0x17 then NotEncoded
    else if |data| == 1 || data[1] != 0x06 then Rejected
    else
      match NumberAt(data, 2)
      case Got(packPos, p) =>
        (match NumberAt(data, p)
         case Got(count, q) => Conclude(packPos, PropertiesAt(data, q, count, []))
         case _ => Rejected)
      case _ => Rejected
  }

  // ---------------------------------------------------------------- serialisations

  /** A number and the encoding chosen for it, which may be longer than it need be. */
  datatype Encoded = Encoded(value: int, code: Bytes)

  /** A pattern of 64 bits from 2^63 on, which the reader takes for a negative number, has one encoding only. */
  predicate IsCode(e: Encoded) {
    if e.value >= 0 then
      e.code != [] && Fits(e.value, |e.code| - 1) && e.code == EncodeNumber(e.value, |e.code| - 1)
    else IsNegativeCode(e.value, e.code, 8)
  }

  predicate IsNegativeCode(v: int, code: Bytes, k: nat) {
    -0x8000_0000_0000_0000 <= v < 0 && code == [255] + EncodeLittleEndian(v + 0x1_0000_0000_0000_0000, k)
  }

  lemma CodeInverse(data: Bytes, pos: nat, e: Encoded)
    requires IsCode(e) && StandsAt(data, pos, e.code)
    ensures NumberAt(data, pos) == Got(e.value, pos + |e.code|)
  {
    if e.value >= 0 {
      NumberInverse(data, pos, e.value, |e.code| - 1);
    } else {
      NegativeInverse(data, pos, e.value, e.code, 8);
    }
  }

  lemma NegativeInverse(data: Bytes, pos: nat, v: int, code: Bytes, k: nat)
    requires k == 8 && IsNegativeCode(v, code, k) && StandsAt(data, pos, code)
    ensures NumberAt(data, pos) == Got(v, pos + |code|)
  {
    var x := v + 0x1_0000_0000_0000_0000;
    StandsFirst(data, pos, 255, EncodeLittleEndian(x, k));
    FixedInverse(data, pos + 1, x, k);
    LeadingOnesTable(255);
  }

  predicate Encodes(list: seq<Encoded>) {
    forall e | e in list :: IsCode(e)
  }

  function EncodeNumbers(list: seq<Encoded>): Bytes
  {
    if list == [] then [] else list[0].code + EncodeNumbers(list[1..])
  }

  function Values(list: seq<Encoded>): seq<int> {
    seq(|list|, i requires 0 <= i < |list| => list[i].value)
  }

  /** Bit `i` of `defined` as weight `w`; clear past the end. */
  function Bit(defined: seq<bool>, i: nat, w: nat): nat {
    if i < |defined| && defined[i] then w else 0
  }

  function Nibble(d: seq<bool>, at: nat): (r: nat)
    ensures r < 16
  {
    Bit(d, at, 8) + Bit(d, at + 1, 4) + Bit(d, at + 2, 2) + Bit(d, at + 3, 1)
  }

  function PackByte(d: seq<bool>, at: nat): byte {
    16 * Nibble(d, at) + Nibble(d, at + 4)
  }

  /** The vector that marks the digests of `defined`; `spare` is what the last byte holds past them. */
  function PackBits(defined: seq<bool>, spare: seq<bool>): Bytes {
    seq(VectorBytes(|defined|), i requires 0 <= i => PackByte(defined + spare, 8 * i))
  }

  /** `all` is the byte that says whether every digest is defined; without it a bit vector follows. */
  datatype Property =
    | PackSizes(list: seq<Encoded>)
    | PackDigests(all: byte, defined: seq<bool>, spare: seq<bool>, crcs: Bytes)

  /** A property of a pack info with `n` streams. */
  predicate Conforming(p: Property, n: nat) {
    match p
    case PackSizes(list) => |list| == n && Encodes(list)
    case PackDigests(all, defined, _, crcs) =>
      |defined| == n && |crcs| == 4 * (if all != 0 then n else CountTrue(defined, n))
  }

  predicate AllConforming(ps: seq<Property>, n: nat) {
    ps == [] || (Conforming(ps[0], n) && AllConforming(ps[1..], n))
  }

  function EncodeProperty(p: Property, n: nat): Bytes
    requires Conforming(p, n)
  {
    match p
    case PackSizes(list) => [0x09] + EncodeNumbers(list)
    case PackDigests(all, defined, spare, crcs) =>
      if all != 0 then [0x0A] + ([all] + crcs) else [0x0A] + ([0] + (PackBits(defined, spare) + crcs))
  }

  function EncodeProperties(ps: seq<Property>, n: nat): Bytes
    requires AllConforming(ps, n)
  {
    if ps == [] then [0x00] else EncodeProperty(ps[0], n) + EncodeProperties(ps[1..], n)
  }

  function EncodePackInfo(packPos: Encoded, count: Encoded, ps: seq<Property>): Bytes
    requires IsCode(packPos) && IsCode(count) && count.value >= 0
    requires AllConforming(ps, count.value)
  {
    [0x17, 0x06] + (packPos.code + (count.code + EncodeProperties(ps, count.value)))
  }

  /** The sizes that stand once all properties were read. */
  function FinalSizes(ps: seq<Property>, sizes: seq<int>): seq<int> {
    if ps == [] then sizes else FinalSizes(ps[1..], NextSizes(ps[0], sizes))
  }

  function NextSizes(p: Property, sizes: seq<int>): seq<int> {
    if p.PackSizes? then Values(p.list) else sizes
  }

  // ---------------------------------------------------------------- inverses

  lemma SizesAtStep(data: Bytes, pos: nat, count: nat, got: seq<int>, v: int, next: nat)
    requires pos <= |data| && count > 0 && NumberAt(data, pos) == Got(v, next)
    ensures SizesAt(data, pos, count, got) == SizesAt(data, next, count - 1, got + [v])
  {
  }

  lemma {:induction false} SizesInverse(data: Bytes, pos: nat, list: seq<Encoded>, got: seq<int>)
    requires Encodes(list) && StandsAt(data, pos, EncodeNumbers(list))
    ensures SizesAt(data, pos, |list|, got) == Got(got + Values(list), pos + |EncodeNumbers(list)|)
    decreases |list|
  {
    if list == [] {
      assert got + Values(list) == got;
    } else {
      var next := FirstSize(data, pos, list, got);
      SizesInverse(data, next, list[1..], got + [list[0].value]);
      ValuesStep(list, got);
    }
  }

  lemma {:induction false} FirstSize(data: Bytes, pos: nat, list: seq<Encoded>, got: seq<int>) returns (next: nat)
    requires list != [] && Encodes(list) && StandsAt(data, pos, EncodeNumbers(list))
    ensures next == pos + |list[0].code| && StandsAt(data, next, EncodeNumbers(list[1..]))
    ensures SizesAt(data, pos, |list|, got) == SizesAt(data, next, |list| - 1, got + [list[0].value])
  {
    next := pos + |list[0].code|;
    StandsSplit(data, pos, list[0].code, EncodeNumbers(list[1..]));
    CodeInverse(data, pos, list[0]);
    SizesAtStep(data, pos, |list|, got, list[0].value, next);
  }

  lemma ValuesStep(list: seq<Encoded>, got: seq<int>)
    requires list != []
    ensures (got + [list[0].value]) + Values(list[1..]) == got + Values(list)
  {
  }

  lemma PackedBit(d: seq<bool>, at: nat, j: nat)
    requires j < 8 && at + j < |d|
    ensures BitSet(PackByte(d, at), MaskBit(j)) == d[at + j]
  {
    MaskTable();
    if j < 4 {
      HighBit(Nibble(d, at), Nibble(d, at + 4), j);
      NibbleBit(d, at, j);
    } else {
      LowBit(Nibble(d, at), Nibble(d, at + 4), j);
      NibbleBit(d, at + 4, j - 4);
    }
  }

  lemma NibbleBit(d: seq<bool>, at: nat, j: nat)
    requires j < 4 && at + j < |d|
    ensures BitSet(Nibble(d, at), MaskBit(j + 4)) == d[at + j]
  {
    MaskTable();
    if j == 0 {
    } else if j == 1 {
    } else if j == 2 {
    } else {
    }
  }

  lemma HighBit(high: nat, low: nat, j: nat)
    requires high < 16 && low < 16 && j < 4
    ensures BitSet(16 * high + low, MaskBit(j)) == BitSet(high, MaskBit(j + 4))
  {
    MaskTable();
    if j == 0 {
      assert (16 * high + low) / 128 == high / 8;
    } else if j == 1 {
      assert (16 * high + low) / 64 == high / 4;
    } else if j == 2 {
      assert (16 * high + low) / 32 == high / 2;
    } else {
      assert (16 * high + low) / 16 == high;
    }
  }

  lemma LowBit(high: nat, low: nat, j: nat)
    requires high < 16 && low < 16 && 4 <= j < 8
    ensures BitSet(16 * high + low, MaskBit(j)) == BitSet(low, MaskBit(j))
  {
    MaskTable();
    if j == 4 {
      assert (16 * high + low) / 8 == 2 * high + low / 8;
    } else if j == 5 {
      assert (16 * high + low) / 4 == 4 * high + low / 4;
    } else if j == 6 {
      assert (16 * high + low) / 2 == 8 * high + low / 2;
    } else {
      assert MaskBit(j) == 1;
    }
  }

  lemma VectorInverse(data: Bytes, pos: nat, defined: seq<bool>, spare: seq<bool>)
    requires StandsAt(data, pos, PackBits(defined, spare)) && pos + VectorBytes(|defined|) <= |data|
    ensures CountBits(data, pos, |defined|) == CountTrue(defined, |defined|)
  {
    var n := |defined|;
    forall k | 0 <= k < n ensures (VectorCovers(n, k); defined[k] == BitAt(data, pos, k)) {
      VectorCovers(n, k);
      StandsByte(data, pos, PackBits(defined, spare), k / 8);
      PackedBit(defined + spare, 8 * (k / 8), k % 8);
    }
    BitsTrue(data, pos, defined, n);
  }

  /** Skipping digests consumes the flag, the vector when there is one, and four bytes for each defined digest. */
  lemma DigestsInverse(data: Bytes, pos: nat, p: Property, n: nat)
    requires p.PackDigests? && Conforming(p, n) && StandsAt(data, pos, EncodeProperty(p, n))
    ensures DigestsAt(data, pos + 1, n) == Got((), pos + |EncodeProperty(p, n)|)
    ensures |EncodeProperty(p, n)|
            == 2 + (if p.all != 0 then 4 * n else VectorBytes(n) + 4 * CountTrue(p.defined, n))
  {
    StandsEnds(data, pos, EncodeProperty(p, n));
    if p.all != 0 {
      StandsFirst(data, pos, 0x0A, [p.all] + p.crcs);
      StandsFirst(data, pos + 1, p.all, p.crcs);
    } else {
      var bits := PackBits(p.defined, p.spare);
      StandsFirst(data, pos, 0x0A, [0] + (bits + p.crcs));
      StandsFirst(data, pos + 1, 0, bits + p.crcs);
      StandsSplit(data, pos + 2, bits, p.crcs);
      StandsEnds(data, pos + 2, bits);
      VectorInverse(data, pos + 2, p.defined, p.spare);
    }
  }

  lemma SizesStep(data: Bytes, pos: nat, n: nat, p: Property, sizes: seq<int>)
    requires p.PackSizes? && Conforming(p, n) && StandsAt(data, pos, EncodeProperty(p, n))
    ensures PropertiesAt(data, pos, n, sizes)
            == PropertiesAt(data, pos + |EncodeProperty(p, n)|, n, Values(p.list))
  {
    StandsFirst(data, pos, 0x09, EncodeNumbers(p.list));
    SizesInverse(data, pos + 1, p.list, []);
    assert [] + Values(p.list) == Values(p.list);
  }

  lemma DigestsStep(data: Bytes, pos: nat, n: nat, p: Property, sizes: seq<int>)
    requires p.PackDigests? && Conforming(p, n) && StandsAt(data, pos, EncodeProperty(p, n))
    ensures PropertiesAt(data, pos, n, sizes)
            == PropertiesAt(data, pos + |EncodeProperty(p, n)|, n, sizes)
  {
    DigestsInverse(data, pos, p, n);
    StandsByte(data, pos, EncodeProperty(p, n), 0);
  }

  lemma PropertyStep(data: Bytes, pos: nat, n: nat, p: Property, sizes: seq<int>)
    requires Conforming(p, n) && StandsAt(data, pos, EncodeProperty(p, n))
    ensures PropertiesAt(data, pos, n, sizes)
            == PropertiesAt(data, pos + |EncodeProperty(p, n)|, n, NextSizes(p, sizes))
  {
    if p.PackSizes? {
      SizesStep(data, pos, n, p, sizes);
    } else {
      DigestsStep(data, pos, n, p, sizes);
    }
  }

  lemma EndStep(data: Bytes, pos: nat, n: nat, sizes: seq<int>)
    requires StandsAt(data, pos, [0x00])
    ensures PropertiesAt(data, pos, n, sizes) == Got(sizes, pos + 1)
  {
  }

  lemma PropertiesSplit(data: Bytes, pos: nat, n: nat, ps: seq<Property>) returns (next: nat)
    requires ps != [] && AllConforming(ps, n)
    requires StandsAt(data, pos, EncodeProperties(ps, n))
    ensures StandsAt(data, pos, EncodeProperty(ps[0], n))
    ensures next == pos + |EncodeProperty(ps[0], n)|
    ensures StandsAt(data, next, EncodeProperties(ps[1..], n))
    ensures next + |EncodeProperties(ps[1..], n)| == pos + |EncodeProperties(ps, n)|
  {
    StandsSplit(data, pos, EncodeProperty(ps[0], n), EncodeProperties(ps[1..], n));
    next := pos + |EncodeProperty(ps[0], n)|;
  }

  /** Properties in any order and number: the last list of sizes is the one that stands. */
  lemma {:induction false} PropertiesInverse(data: Bytes, pos: nat, n: nat, ps: seq<Property>, sizes: seq<int>)
    requires AllConforming(ps, n)
    requires StandsAt(data, pos, EncodeProperties(ps, n))
    ensures PropertiesAt(data, pos, n, sizes) == Got(FinalSizes(ps, sizes), pos + |EncodeProperties(ps, n)|)
    decreases |ps|
  {
    if ps == [] {
      EndStep(data, pos, n, sizes);
    } else {
      var next := PropertiesSplit(data, pos, n, ps);
      PropertyStep(data, pos, n, ps[0], sizes);
      PropertiesInverse(data, next, n, ps[1..], NextSizes(ps[0], sizes));
    }
  }

  function Sum(list: seq<Encoded>, n: nat): int
    requires n <= |list|
  {
    if n == 0 then 0 else Sum(list, n - 1) + list[n - 1].value
  }

  lemma WrapAbsorbs(a: int, b: int)
    ensures Wrap64(Wrap64(a) + b) == Wrap64(a + b) == Wrap64(b + Wrap64(a))
  {
  }

  /** Adding up with wrap-around is wrapping the sum. */
  lemma {:induction false} SumWrapsOnce(list: seq<Encoded>, n: nat)
    requires n <= |list|
    ensures WrapSum(Values(list), n) == Wrap64(Sum(list, n))
  {
    if n > 0 {
      SumWrapsOnce(list, n - 1);
      WrapAbsorbs(Sum(list, n - 1), list[n - 1].value);
    }
  }

  /** Where the streams of a pack info end, as an `int64`. */
  function StreamsEnd(packPos: int, list: seq<Encoded>): int {
    Wrap64(packPos + Sum(list, |list|))
  }

  /** Any serialised pack info is read back as its position and the end of its streams. */
  lemma {:induction false} PackInfoInverse(data: Bytes, packPos: Encoded, count: Encoded, ps: seq<Property>, list: seq<Encoded>)
    requires IsCode(packPos) && IsCode(count) && count.value >= 0
    requires AllConforming(ps, count.value)
    requires FinalSizes(ps, []) == Values(list) && list != []
    requires StandsAt(data, 0, EncodePackInfo(packPos, count, ps))
    ensures EncodedHeader(data) == PackRange(packPos.value, StreamsEnd(packPos.value, list))
  {
    var next := PackInfoAt(data, packPos, count, ps);
    EndOfStreams(packPos.value, list, next);
  }

  lemma {:induction false} PackInfoAt(data: Bytes, packPos: Encoded, count: Encoded, ps: seq<Property>) returns (next: nat)
    requires IsCode(packPos) && IsCode(count) && count.value >= 0
    requires AllConforming(ps, count.value)
    requires StandsAt(data, 0, EncodePackInfo(packPos, count, ps))
    ensures EncodedHeader(data) == Conclude(packPos.value, Got(FinalSizes(ps, []), next))
  {
    var at := HeaderParts(data, packPos, count, EncodeProperties(ps, count.value));
    PropertiesInverse(data, at, count.value, ps, []);
    next := at + |EncodeProperties(ps, count.value)|;
  }

  lemma EndOfStreams(packPos: int, list: seq<Encoded>, next: nat)
    requires list != []
    ensures Conclude(packPos, Got(Values(list), next)) == PackRange(packPos, StreamsEnd(packPos, list))
  {
    SumWrapsOnce(list, |list|);
    WrapAbsorbs(Sum(list, |list|), packPos);
  }

  lemma {:induction false} HeaderParts(data: Bytes, packPos: Encoded, count: Encoded, tail: Bytes) returns (at: nat)
    requires IsCode(packPos) && IsCode(count)
    requires StandsAt(data, 0, [0x17, 0x06] + (packPos.code + (count.code + tail)))
    ensures StandsAt(data, at, tail)
    ensures EncodedHeader(data) == Conclude(packPos.value, PropertiesAt(data, at, count.value, []))
  {
    var p, q := TwoNumbers(data, packPos, count, tail);
    HeaderAt(data, packPos.value, p, count.value, q);
    at := q;
  }

  lemma {:induction false} TwoNumbers(data: Bytes, packPos: Encoded, count: Encoded, tail: Bytes) returns (p: nat, q: nat)
    requires IsCode(packPos) && IsCode(count)
    requires StandsAt(data, 0, [0x17, 0x06] + (packPos.code + (count.code + tail)))
    ensures |data| >= 2 && data[0] == 0x17 && data[1] == 0x06
    ensures NumberAt(data, 2) == Got(packPos.value, p) && NumberAt(data, p) == Got(count.value, q)
    ensures p == 2 + |packPos.code| && q == p + |count.code| && StandsAt(data, q, tail)
  {
    SplitInFour(data, packPos.code, count.code, tail);
    p := 2 + |packPos.code|;
    q := p + |count.code|;
    TwoCodes(data, 2, packPos, count);
  }

  lemma {:induction false} TwoCodes(data: Bytes, pos: nat, a: Encoded, b: Encoded)
    requires IsCode(a) && IsCode(b) && StandsAt(data, pos, a.code) && StandsAt(data, pos + |a.code|, b.code)
    ensures NumberAt(data, pos) == Got(a.value, pos + |a.code|)
    ensures NumberAt(data, pos + |a.code|) == Got(b.value, pos + |a.code| + |b.code|)
  {
    CodeInverse(data, pos, a);
    CodeInverse(data, pos + |a.code|, b);
  }

  lemma HeaderAt(data: Bytes, packPos: int, p: nat, count: int, q: nat)
    requires |data| >= 2 && data[0] == 0x17 && data[1] == 0x06
    requires NumberAt(data, 2) == Got(packPos, p) && NumberAt(data, p) == Got(count, q)
    ensures EncodedHeader(data) == Conclude(packPos, PropertiesAt(data, q, count, []))
  {
  }

  lemma {:induction false} SplitInFour(data: Bytes, a: Bytes, b: Bytes, tail: Bytes)
    requires StandsAt(data, 0, [0x17, 0x06] + (a + (b + tail)))
    ensures |data| >= 2 && data[0] == 0x17 && data[1] == 0x06
    ensures StandsAt(data, 2, a) && StandsAt(data, 2 + |a|, b) && StandsAt(data, 2 + |a| + |b|, tail)
  {
    StandsSplit(data, 0, [0x17, 0x06], a + (b + tail));
    StandsByte(data, 0, [0x17, 0x06], 0);
    StandsByte(data, 0, [0x17, 0x06], 1);
    StandsSplit(data, 2, a, b + tail);
    StandsSplit(data, 2 + |a|, b, tail);
  }

  // ---------------------------------------------------------------- the start header

  const SIGNATURE: Bytes := [0x37, 0x7A, 0xBC, 0xAF, 0x27, 0x1C]

  /** Where the next header lies, as positions of the archive, and its checksum. */
  datatype NextHeader = NextHeader(start: int, end: int, bytesNeeded: int, crc: nat)

  /** The start header, with `crc32` as the checksum function. */
  function ParseSevenZipNextHeaderRange(head: Bytes, crc32: Bytes -> nat): Option<NextHeader> {
    if |head| < 32 then None
    else if head[..6] != SIGNATURE then None
    else if crc32(head[12..32]) != LittleEndian(head, 8, 4) then None
    else
      var nextOffset, nextSize := Signed(LittleEndian(head, 12, 8)), Signed(LittleEndian(head, 20, 8));
      if nextOffset < 0 || nextSize <= 0 then None
      else
        var start := Wrap64(32 + nextOffset);
        var end := Wrap64(start + nextSize);
        Some(NextHeader(start, end, end, LittleEndian(head, 28, 4)))
  }

  /** Offset, size and checksum of the next header, as the checksum of the start header covers them. */
  function NextHeaderFields(offset: nat, size: nat, crc: nat): (r: Bytes)
    ensures |r| == 20
  {
    EncodeLittleEndian(offset, 8) + (EncodeLittleEndian(size, 8) + EncodeLittleEndian(crc, 4))
  }

  function EncodeStartHeader(version: Bytes, offset: nat, size: nat, crc: nat, crc32: Bytes -> nat): Bytes {
    var fields := NextHeaderFields(offset, size, crc);
    [0x37, 0x7A, 0xBC, 0xAF, 0x27, 0x1C] + (version + (EncodeLittleEndian(crc32(fields), 4) + fields))
  }

  lemma {:induction false} StandsSlice(data: Bytes, pos: nat, bytes: Bytes)
    requires StandsAt(data, pos, bytes) && pos + |bytes| <= |data|
    ensures data[pos..pos + |bytes|] == bytes
  {
    forall i | 0 <= i < |bytes| ensures data[pos + i] == bytes[i] {
      StandsByte(data, pos, bytes, i);
    }
  }

  /** What a start header says about the next header; an offset or size past 2^63 is taken for negative. */
  function Described(offset: nat, size: nat, crc: nat): Option<NextHeader> {
    if offset >= 0x8000_0000_0000_0000 || size >= 0x8000_0000_0000_0000 || size == 0 then None
    else
      var end := Wrap64(32 + offset + size);
      Some(NextHeader(Wrap64(32 + offset), end, end, crc))
  }

  /** Every start header is read back, whatever its version bytes and what follows it; an empty next header is refused,
      and so are an offset and a size that are no `int64`. */
  lemma {:induction false} StartHeaderInverse(head: Bytes, version: Bytes, offset: nat, size: nat, crc: nat, crc32: Bytes -> nat)
    requires |version| == 2 && crc < 0x1_0000_0000
    requires offset < 0x1_0000_0000_0000_0000 && size < 0x1_0000_0000_0000_0000
    requires crc32(NextHeaderFields(offset, size, crc)) < 0x1_0000_0000
    requires StandsAt(head, 0, EncodeStartHeader(version, offset, size, crc, crc32))
    ensures ParseSevenZipNextHeaderRange(head, crc32) == Described(offset, size, crc)
  {
    FieldsOfStartHeader(head, version, offset, size, crc, crc32);
    if offset < 0x8000_0000_0000_0000 {
      WrapAbsorbs(32 + offset, size);
    }
  }

  lemma {:induction false} FieldsOfStartHeader(head: Bytes, version: Bytes, offset: nat, size: nat, crc: nat, crc32: Bytes -> nat)
    requires |version| == 2 && crc < 0x1_0000_0000
    requires offset < 0x1_0000_0000_0000_0000 && size < 0x1_0000_0000_0000_0000
    requires crc32(NextHeaderFields(offset, size, crc)) < 0x1_0000_0000
    requires StandsAt(head, 0, EncodeStartHeader(version, offset, size, crc, crc32))
    ensures |head| >= 32 && head[..6] == SIGNATURE && crc32(head[12..32]) == LittleEndian(head, 8, 4)
    ensures LittleEndian(head, 12, 8) == offset && LittleEndian(head, 20, 8) == size && LittleEndian(head, 28, 4) == crc
  {
    var fields := NextHeaderFields(offset, size, crc);
    SplitStartHeader(head, version, EncodeLittleEndian(crc32(fields), 4), fields);
    FixedInverse(head, 8, crc32(fields), 4);
    FieldsInverse(head, offset, size, crc);
  }

  lemma {:induction false} SplitStartHeader(head: Bytes, version: Bytes, check: Bytes, fields: Bytes)
    requires |version| == 2 && |check| == 4
    requires StandsAt(head, 0, [0x37, 0x7A, 0xBC, 0xAF, 0x27, 0x1C] + (version + (check + fields)))
    ensures |head| >= 6 && head[..6] == SIGNATURE && StandsAt(head, 8, check) && StandsAt(head, 12, fields)
  {
    StandsSplit(head, 0, SIGNATURE, version + (check + fields));
    StandsSplit(head, 6, version, check + fields);
    StandsSplit(head, 8, check, fields);
    StandsEnds(head, 0, SIGNATURE);
    StandsSlice(head, 0, SIGNATURE);
  }

  lemma {:induction false} FieldsInverse(head: Bytes, offset: nat, size: nat, crc: nat)
    requires offset < 0x1_0000_0000_0000_0000 && size < 0x1_0000_0000_0000_0000 && crc < 0x1_0000_0000
    requires StandsAt(head, 12, NextHeaderFields(offset, size, crc))
    ensures |head| >= 32 && head[12..32] == NextHeaderFields(offset, size, crc)
    ensures LittleEndian(head, 12, 8) == offset && LittleEndian(head, 20, 8) == size && LittleEndian(head, 28, 4) == crc
  {
    var o, s, c := EncodeLittleEndian(offset, 8), EncodeLittleEndian(size, 8), EncodeLittleEndian(crc, 4);
    StandsEnds(head, 12, o + (s + c));
    StandsSlice(head, 12, o + (s + c));
    StandsSplit(head, 12, o, s + c);
    StandsSplit(head, 20, s, c);
    FixedInverse(head, 12, offset, 8);
    FixedInverse(head, 20, size, 8);
    FixedInverse(head, 28, crc, 4);
  }

  lemma FixedInverse(data: Bytes, pos: nat, v: nat, k: nat)
    requires (k == 4 && v < 0x1_0000_0000) || (k == 8 && v < 0x1_0000_0000_0000_0000)
    requires StandsAt(data, pos, EncodeLittleEndian(v, k))
    ensures pos + k <= |data| && LittleEndian(data, pos, k) == v
  {
    LittleEndianInverse(data, pos, v, k);
    PowersOf256();
    assert Shifted(1, 2) == 0x1_0000;
    assert Shifted(1, 4) == 0x1_0000_0000;
    NothingAbove(v, k);
    ZeroShifted(k);
  }

  lemma {:induction false} ZeroShifted(k: nat)
    ensures Shifted(0, k) == 0
  {
    if k > 0 {
      ZeroShifted(k - 1);
    }
  }
}
