/** Which data the 7z header parsers accept: exactly the serialisations, read backwards from what was parsed. */
module SevenZipClassification {
  import opened Common
  import opened SevenZip
  import opened SevenZipHeaders

  // ---------------------------------------------------------------- numbers

  lemma {:induction false} StandsJoin(data: Bytes, pos: nat, a: Bytes, b: Bytes)
    requires StandsAt(data, pos, a) && StandsAt(data, pos + |a|, b)
    ensures StandsAt(data, pos, a + b)
    decreases |a|
  {
    if a == [] {
      assert a + b == b;
    } else {
      assert (a + b)[1..] == a[1..] + b;
      StandsJoin(data, pos + 1, a[1..], b);
    }
  }

  lemma {:induction false} SliceStands(data: Bytes, pos: nat, end: nat)
    requires pos <= end <= |data|
    ensures StandsAt(data, pos, data[pos..end])
    decreases end - pos
  {
    if pos < end {
      assert data[pos..end][1..] == data[pos + 1..end];
      SliceStands(data, pos + 1, end);
    }
  }

  /** The bytes a number was read from are its low bytes, and what was added above them stays above. */
  lemma {:induction false} LowBytes(data: Bytes, pos: nat, k: nat, high: nat)
    requires pos + k <= |data|
    ensures var v := LittleEndian(data, pos, k) + Shifted(high, k);
            StandsAt(data, pos, EncodeLittleEndian(v, k)) && Above(v, k) == high
    decreases k
  {
    if k > 0 {
      LowBytes(data, pos + 1, k - 1, high);
      var rest := LittleEndian(data, pos + 1, k - 1) + Shifted(high, k - 1);
      var v := LittleEndian(data, pos, k) + Shifted(high, k);
      assert v == data[pos] + 256 * rest;
      LowByte(data[pos], rest);
      StandsJoin(data, pos, [data[pos]], EncodeLittleEndian(rest, k - 1));
    }
  }

  lemma LowByte(b: byte, rest: nat)
    ensures (b + 256 * rest) % 256 == b && (b + 256 * rest) / 256 == rest
  {
  }

  lemma {:induction false} ShiftedAdds(a: nat, b: nat, k: nat)
    ensures Shifted(a + b, k) == Shifted(a, k) + Shifted(b, k)
  {
    if k > 0 {
      ShiftedAdds(a, b, k - 1);
    }
  }

  /** A number of fewer than nine bytes stays far below 2^63. */
  lemma ShortIsSmall(low: nat, high: nat, k: nat)
    requires k < 8 && low < Shifted(1, k) && high < MaskBit(k)
    ensures low + Shifted(high, k) < 0x8000_0000_0000_0000
  {
    ShiftedAdds(high, 1, k);
    ShiftedAdds(high + 1, MaskBit(k) - (high + 1), k);
    HighestShort(k);
  }

  lemma HighestShort(k: nat)
    requires k < 8
    ensures Shifted(MaskBit(k), k) <= 0x100_0000_0000_0000
  {
    MaskTable();
    PowersOf256();
    if k < 4 {
      assert Shifted(MaskBit(k), k) <= Shifted(128, 3) by {
        assert k == 0 || k == 1 || k == 2 || k == 3;
      }
    } else {
      assert k == 4 || k == 5 || k == 6 || k == 7;
    }
  }

  /** Every number that was read stands there as one of its encodings. */
  lemma NumberCode(data: Bytes, pos: nat) returns (e: Encoded)
    requires NumberAt(data, pos).Got?
    ensures IsCode(e) && StandsAt(data, pos, e.code)
    ensures NumberAt(data, pos) == Got(e.value, pos + |e.code|)
  {
    var k := LeadingOnes(data[pos], 0);
    LeadingOnesTable(data[pos]);
    if k < 8 {
      e := ShortCode(data, pos, k);
    } else {
      e := LongCode(data, pos);
    }
  }

  lemma {:induction false} ShortCode(data: Bytes, pos: nat, k: nat) returns (e: Encoded)
    requires k < 8 && pos + 1 + k <= |data| && LeadingOnes(data[pos], 0) == k
    ensures IsCode(e) && StandsAt(data, pos, e.code)
    ensures NumberAt(data, pos) == Got(e.value, pos + |e.code|)
  {
    var high := HighBits(data[pos], k);
    var low := LittleEndian(data, pos + 1, k);
    LittleEndianBound(data, pos + 1, k);
    ShortIsSmall(low, high, k);
    LowBytes(data, pos + 1, k, high);
    var v := low + Shifted(high, k);
    e := Encoded(v, EncodeNumber(v, k));
    StandsJoin(data, pos, [data[pos]], EncodeLittleEndian(v, k));
    NumberAtShort(data, pos, k);
  }

  /** The bits of a first byte that belong to the number. */
  lemma HighBits(first: byte, k: nat) returns (high: nat)
    requires k < 8 && LeadingOnes(first, 0) == k
    ensures high < MaskBit(k) && first == LeadBits(k) + high
  {
    MaskTable();
    LeadingOnesTable(first);
    assert k == 0 || k == 1 || k == 2 || k == 3 || k == 4 || k == 5 || k == 6 || k == 7;
    high := first - LeadBits(k);
  }

  lemma {:induction false} LongCode(data: Bytes, pos: nat) returns (e: Encoded)
    requires pos + 9 <= |data| && data[pos] == 255
    ensures IsCode(e) && StandsAt(data, pos, e.code)
    ensures NumberAt(data, pos) == Got(e.value, pos + |e.code|)
  {
    var x := LittleEndian(data, pos + 1, 8);
    LittleEndianBound(data, pos + 1, 8);
    PowersOf256();
    ZeroShifted(8);
    LowBytes(data, pos + 1, 8, 0);
    LeadingOnesTable(255);
    StandsJoin(data, pos, [255], EncodeLittleEndian(x, 8));
    e := Encoded(Signed(x), [255] + EncodeLittleEndian(x, 8));
  }

  // ---------------------------------------------------------------- properties

  lemma {:induction false} SizesCode(data: Bytes, pos: nat, count: nat, got: seq<int>) returns (list: seq<Encoded>)
    requires pos <= |data| && SizesAt(data, pos, count, got).Got?
    ensures |list| == count && Encodes(list) && StandsAt(data, pos, EncodeNumbers(list))
    ensures SizesAt(data, pos, count, got) == Got(got + Values(list), pos + |EncodeNumbers(list)|)
    decreases count
  {
    if count == 0 {
      list := [];
      assert got + Values([]) == got;
    } else {
      var e := NumberCode(data, pos);
      var next := pos + |e.code|;
      SizesAtStep(data, pos, count, got, e.value, next);
      var rest := SizesCode(data, next, count - 1, got + [e.value]);
      list := [e] + rest;
      assert list[1..] == rest;
      StandsJoin(data, pos, e.code, EncodeNumbers(rest));
      ValuesStep(list, got);
    }
  }

  /** The bits of a byte, highest first. */
  function BitsOf(b: byte): seq<bool> {
    seq(8, j requires 0 <= j < 8 => BitSet(b, MaskBit(j)))
  }

  /** The bits of `n` bytes from `pos` on. */
  function BitsAt(data: Bytes, pos: nat, n: nat): (r: seq<bool>)
    requires pos + n <= |data|
    ensures |r| == 8 * n
    decreases n
  {
    if n == 0 then [] else BitsOf(data[pos]) + BitsAt(data, pos + 1, n - 1)
  }

  lemma {:induction false} BitsAtByte(data: Bytes, pos: nat, n: nat, i: nat, j: nat)
    requires pos + n <= |data| && i < n && j < 8
    ensures 8 * i + j < 8 * n && BitsAt(data, pos, n)[8 * i + j] == BitSet(data[pos + i], MaskBit(j))
    decreases n
  {
    if i > 0 {
      BitsAtByte(data, pos + 1, n - 1, i - 1, j);
      BehindFirstByte(data, pos, n, 8 * (i - 1) + j);
    }
  }

  lemma BehindFirstByte(data: Bytes, pos: nat, n: nat, k: nat)
    requires n > 0 && pos + n <= |data| && k < 8 * (n - 1)
    ensures BitsAt(data, pos, n)[8 + k] == BitsAt(data, pos + 1, n - 1)[k]
  {
  }

  /** Packing the bits of a byte gives the byte. */
  lemma PackedByte(d: seq<bool>, at: nat, b: byte)
    requires at + 8 <= |d| && forall j :: 0 <= j < 8 ==> d[at + j] == BitSet(b, MaskBit(j))
    ensures PackByte(d, at) == b
  {
    var high, low := b / 16, b % 16;
    EightBits(d, at, b);
    BitsOfNibbles(high, low);
    PackedNibble(d, at, high);
    PackedNibble(d, at + 4, low);
  }

  lemma EightBits(d: seq<bool>, at: nat, b: byte)
    requires at + 8 <= |d| && forall j :: 0 <= j < 8 ==> d[at + j] == BitSet(b, MaskBit(j))
    ensures d[at] == BitSet(b, 128) && d[at + 1] == BitSet(b, 64) && d[at + 2] == BitSet(b, 32)
    ensures d[at + 3] == BitSet(b, 16) && d[at + 4] == BitSet(b, 8) && d[at + 5] == BitSet(b, 4)
    ensures d[at + 6] == BitSet(b, 2) && d[at + 7] == BitSet(b, 1)
  {
    MaskTable();
    assert d[at + 0] == BitSet(b, MaskBit(0));
  }

  lemma {:induction false} BitsOfNibbles(high: nat, low: nat)
    requires high < 16 && low < 16
    ensures var b := 16 * high + low;
            && BitSet(b, 128) == (high / 8 % 2 == 1) && BitSet(b, 64) == (high / 4 % 2 == 1)
            && BitSet(b, 32) == (high / 2 % 2 == 1) && BitSet(b, 16) == (high % 2 == 1)
            && BitSet(b, 8) == (low / 8 % 2 == 1) && BitSet(b, 4) == (low / 4 % 2 == 1)
            && BitSet(b, 2) == (low / 2 % 2 == 1) && BitSet(b, 1) == (low % 2 == 1)
  {
    HighNibble(high, low);
    LowNibble(high, low);
  }

  lemma HighNibble(high: nat, low: nat)
    requires high < 16 && low < 16
    ensures var b := 16 * high + low;
            b / 128 == high / 8 && b / 64 == high / 4 && b / 32 == high / 2 && b / 16 == high
  {
  }

  lemma LowNibble(high: nat, low: nat)
    requires high < 16 && low < 16
    ensures var b := 16 * high + low;
            b / 8 == 2 * high + low / 8 && b / 4 == 4 * high + low / 4 && b / 2 == 8 * high + low / 2
  {
  }

  lemma PackedNibble(d: seq<bool>, at: nat, h: nat)
    requires at + 4 <= |d| && h < 16
    requires d[at] <==> h / 8 % 2 == 1
    requires d[at + 1] <==> h / 4 % 2 == 1
    requires d[at + 2] <==> h / 2 % 2 == 1
    requires d[at + 3] <==> h % 2 == 1
    ensures Nibble(d, at) == h
  {
    FourBits(h);
  }

  lemma FourBits(h: nat)
    requires h < 16
    ensures h == 8 * (h / 8 % 2) + 4 * (h / 4 % 2) + 2 * (h / 2 % 2) + h % 2
  {
  }

  lemma VectorIsLongEnough(n: nat)
    ensures n <= 8 * VectorBytes(n)
  {
  }

  /** A bit vector in the data is the one its flags are packed into. */
  lemma {:induction false} VectorCode(data: Bytes, pos: nat, n: nat) returns (defined: seq<bool>, spare: seq<bool>)
    requires pos + VectorBytes(n) <= |data|
    ensures |defined| == n && CountTrue(defined, n) == CountBits(data, pos, n)
    ensures StandsAt(data, pos, PackBits(defined, spare)) && |PackBits(defined, spare)| == VectorBytes(n)
  {
    var bits := BitsAt(data, pos, VectorBytes(n));
    VectorIsLongEnough(n);
    defined, spare := bits[..n], bits[n..];
    assert defined + spare == bits;
    FlagsOfVector(data, pos, n, defined);
    PackedBack(data, pos, VectorBytes(n), defined, spare);
  }

  lemma {:induction false} FlagsOfVector(data: Bytes, pos: nat, n: nat, defined: seq<bool>)
    requires pos + VectorBytes(n) <= |data| && n <= 8 * VectorBytes(n)
    requires defined == BitsAt(data, pos, VectorBytes(n))[..n]
    ensures CountTrue(defined, n) == CountBits(data, pos, n)
  {
    forall k | 0 <= k < n ensures (VectorCovers(n, k); defined[k] == BitAt(data, pos, k)) {
      VectorCovers(n, k);
      BitsAtByte(data, pos, VectorBytes(n), k / 8, k % 8);
    }
    BitsTrue(data, pos, defined, n);
  }

  lemma {:induction false} PackedBack(data: Bytes, pos: nat, m: nat, defined: seq<bool>, spare: seq<bool>)
    requires pos + m <= |data| && m == VectorBytes(|defined|)
    requires defined + spare == BitsAt(data, pos, m)
    ensures StandsAt(data, pos, PackBits(defined, spare))
  {
    forall i | 0 <= i < m ensures PackByte(defined + spare, 8 * i) == data[pos + i] {
      ByteOfBits(data, pos, m, i);
    }
    assert PackBits(defined, spare) == data[pos..pos + m];
    SliceStands(data, pos, pos + m);
  }

  lemma ByteOfBits(data: Bytes, pos: nat, m: nat, i: nat)
    requires pos + m <= |data| && i < m
    ensures PackByte(BitsAt(data, pos, m), 8 * i) == data[pos + i]
  {
    forall j | 0 <= j < 8 ensures BitsAt(data, pos, m)[8 * i + j] == BitSet(data[pos + i], MaskBit(j)) {
      BitsAtByte(data, pos, m, i, j);
    }
    PackedByte(BitsAt(data, pos, m), 8 * i, data[pos + i]);
  }

  lemma {:induction false} DigestsCode(data: Bytes, pos: nat, n: nat) returns (p: Property)
    requires pos < |data| && data[pos] == 0x0A && DigestsAt(data, pos + 1, n).Got?
    ensures p.PackDigests? && Conforming(p, n) && StandsAt(data, pos, EncodeProperty(p, n))
  {
    var next := DigestsAt(data, pos + 1, n).next;
    var all := data[pos + 1];
    StandsOne(data, pos);
    StandsOne(data, pos + 1);
    if all != 0 {
      var crcs := data[pos + 2..next];
      p := PackDigests(all, seq(n, _ => false), [], crcs);
      SliceStands(data, pos + 2, next);
      StandsJoin(data, pos + 1, [all], crcs);
      StandsJoin(data, pos, [0x0A], [all] + crcs);
    } else {
      p := MarkedDigestsCode(data, pos, n);
    }
  }

  lemma {:induction false} MarkedDigestsCode(data: Bytes, pos: nat, n: nat) returns (p: Property)
    requires pos + 1 < |data| && data[pos] == 0x0A && data[pos + 1] == 0 && DigestsAt(data, pos + 1, n).Got?
    ensures p.PackDigests? && Conforming(p, n) && StandsAt(data, pos, EncodeProperty(p, n))
  {
    var next := DigestsAt(data, pos + 1, n).next;
    var defined, spare := VectorCode(data, pos + 2, n);
    var at := pos + 2 + VectorBytes(n);
    var vector, crcs := PackBits(defined, spare), data[at..next];
    p := PackDigests(0, defined, spare, crcs);
    SliceStands(data, at, next);
    StandsOne(data, pos);
    StandsOne(data, pos + 1);
    StandsJoin(data, pos + 2, vector, crcs);
    StandsJoin(data, pos + 1, [0], vector + crcs);
    StandsJoin(data, pos, [0x0A], [0] + (vector + crcs));
  }

  lemma StandsOne(data: Bytes, pos: nat)
    requires pos < |data|
    ensures StandsAt(data, pos, [data[pos]])
  {
    assert [data[pos]][1..] == [];
  }

  lemma SizesProperty(data: Bytes, pos: nat, n: nat) returns (p: Property)
    requires pos < |data| && data[pos] == 0x09 && SizesAt(data, pos + 1, n, []).Got?
    ensures p.PackSizes? && Conforming(p, n) && StandsAt(data, pos, EncodeProperty(p, n))
  {
    var list := SizesCode(data, pos + 1, n, []);
    p := PackSizes(list);
    StandsOne(data, pos);
    StandsJoin(data, pos, [0x09], EncodeNumbers(list));
  }

  /** Properties that were read to their end stand there serialised. */
  lemma {:induction false} PropertiesCode(data: Bytes, pos: nat, n: nat, sizes: seq<int>) returns (ps: seq<Property>)
    requires PropertiesAt(data, pos, n, sizes).Got?
    ensures AllConforming(ps, n) && StandsAt(data, pos, EncodeProperties(ps, n))
    decreases |data| - pos
  {
    if data[pos] == 0x00 {
      ps := [];
      StandsOne(data, pos);
    } else {
      var p := PropertyCode(data, pos, n, sizes);
      PropertyStep(data, pos, n, p, sizes);
      var next := pos + |EncodeProperty(p, n)|;
      StandsEnds(data, pos, EncodeProperty(p, n));
      PropertyIsSome(p, n);
      var rest := PropertiesCode(data, next, n, NextSizes(p, sizes));
      ps := [p] + rest;
      assert ps[1..] == rest;
      StandsJoin(data, pos, EncodeProperty(p, n), EncodeProperties(rest, n));
    }
  }

  lemma PropertyIsSome(p: Property, n: nat)
    requires Conforming(p, n)
    ensures |EncodeProperty(p, n)| > 0
  {
  }

  lemma PropertyCode(data: Bytes, pos: nat, n: nat, sizes: seq<int>) returns (p: Property)
    requires PropertiesAt(data, pos, n, sizes).Got? && data[pos] != 0x00
    ensures Conforming(p, n) && StandsAt(data, pos, EncodeProperty(p, n))
  {
    if data[pos] == 0x09 {
      p := SizesProperty(data, pos, n);
    } else {
      p := DigestsCode(data, pos, n);
    }
  }

  /** The list of sizes that stands. */
  lemma {:induction false} FinalList(ps: seq<Property>, n: nat, before: seq<Encoded>) returns (list: seq<Encoded>)
    requires AllConforming(ps, n) && Encodes(before)
    ensures Encodes(list) && FinalSizes(ps, Values(before)) == Values(list)
    decreases |ps|
  {
    if ps == [] {
      list := before;
    } else if ps[0].PackSizes? {
      list := FinalList(ps[1..], n, ps[0].list);
    } else {
      list := FinalList(ps[1..], n, before);
    }
  }

  // ---------------------------------------------------------------- what is accepted

  /** The data starts with a serialised pack info whose last list of sizes is `list`. */
  predicate StartsWith(data: Bytes, packPos: Encoded, count: Encoded, ps: seq<Property>, list: seq<Encoded>) {
    && IsCode(packPos) && IsCode(count) && count.value >= 0
    && AllConforming(ps, count.value) && FinalSizes(ps, []) == Values(list)
    && StandsAt(data, 0, EncodePackInfo(packPos, count, ps))
  }

  /** It does, the list is not empty, and the streams lie from `start` to `end`. */
  ghost predicate HoldsRange(data: Bytes, start: int, end: int) {
    exists packPos, count, ps, list :: StartsWith(data, packPos, count, ps, list) && list != []
                                       && start == packPos.value && end == StreamsEnd(packPos.value, list)
  }

  /** A pack info with a negative count of streams, up to a list of sizes or to digests that have begun. */
  predicate StartsNegative(data: Bytes, packPos: Encoded, count: Encoded) {
    && IsCode(packPos) && IsCode(count) && count.value < 0
    && StandsAt(data, 0, [0x17, 0x06] + (packPos.code + (count.code + [])))
    && var at := 2 + |packPos.code| + |count.code|;
       at < |data| && (data[at] == 0x09 || (data[at] == 0x0A && at + 1 < |data|))
  }

  lemma {:induction false} CountedNeverPanics(data: Bytes, pos: nat, n: nat, sizes: seq<int>)
    ensures !PropertiesAt(data, pos, n, sizes).Panic?
    decreases |data| - pos
  {
    if pos < |data| && data[pos] == 0x09 {
      var r := SizesAt(data, pos + 1, n, []);
      if r.Got? {
        CountedNeverPanics(data, r.next, n, r.value);
      }
    } else if pos < |data| && data[pos] == 0x0A {
      var r := DigestsAt(data, pos + 1, n);
      if r.Got? {
        CountedNeverPanics(data, r.next, n, sizes);
      }
    }
  }

  /** With a negative count a list or digests panic, and without either there are no sizes. */
  lemma NegativeCount(data: Bytes, pos: nat, n: int, packPos: int)
    requires n < 0
    ensures Conclude(packPos, PropertiesAt(data, pos, n, []))
            == if pos < |data| && (data[pos] == 0x09 || (data[pos] == 0x0A && pos + 1 < |data|)) then Panicked
               else Rejected
  {
  }

  lemma HasTwoNumbers(data: Bytes)
    requires EncodedHeader(data).PackRange? || EncodedHeader(data).Panicked?
    ensures |data| >= 2 && data[0] == 0x17 && data[1] == 0x06
    ensures NumberAt(data, 2).Got? && NumberAt(data, NumberAt(data, 2).next).Got?
  {
  }

  /** The two numbers of data that gets as far as its properties. */
  lemma {:induction false} HeaderNumbers(data: Bytes) returns (packPos: Encoded, count: Encoded, at: nat)
    requires EncodedHeader(data).PackRange? || EncodedHeader(data).Panicked?
    ensures IsCode(packPos) && IsCode(count) && at == 2 + |packPos.code| + |count.code|
    ensures StandsAt(data, 0, [0x17, 0x06]) && StandsAt(data, 2, packPos.code)
    ensures StandsAt(data, 2 + |packPos.code|, count.code)
    ensures EncodedHeader(data) == Conclude(packPos.value, PropertiesAt(data, at, count.value, []))
  {
    HasTwoNumbers(data);
    packPos, count := NumbersFrom(data);
    at := 2 + |packPos.code| + |count.code|;
    HeaderAt(data, packPos.value, 2 + |packPos.code|, count.value, at);
  }

  lemma {:induction false} NumbersFrom(data: Bytes) returns (packPos: Encoded, count: Encoded)
    requires |data| >= 2 && data[0] == 0x17 && data[1] == 0x06
    requires NumberAt(data, 2).Got? && NumberAt(data, NumberAt(data, 2).next).Got?
    ensures IsCode(packPos) && IsCode(count)
    ensures StandsAt(data, 0, [0x17, 0x06]) && StandsAt(data, 2, packPos.code)
    ensures var p := 2 + |packPos.code|;
            && StandsAt(data, p, count.code)
            && NumberAt(data, 2) == Got(packPos.value, p)
            && NumberAt(data, p) == Got(count.value, p + |count.code|)
  {
    packPos := NumberCode(data, 2);
    count := NumberCode(data, 2 + |packPos.code|);
    SliceStands(data, 0, 2);
    assert data[0..2] == [0x17, 0x06];
  }

  lemma JoinFour(data: Bytes, a: Bytes, b: Bytes, tail: Bytes)
    requires StandsAt(data, 0, [0x17, 0x06]) && StandsAt(data, 2, a) && StandsAt(data, 2 + |a|, b)
    requires StandsAt(data, 2 + |a| + |b|, tail)
    ensures StandsAt(data, 0, [0x17, 0x06] + (a + (b + tail)))
  {
    StandsJoin(data, 2 + |a|, b, tail);
    StandsJoin(data, 2, a, b + tail);
    StandsJoin(data, 0, [0x17, 0x06], a + (b + tail));
  }

  lemma {:induction false} RangeIsHeld(data: Bytes, start: int, end: int)
    requires EncodedHeader(data) == PackRange(start, end)
    ensures HoldsRange(data, start, end)
  {
    var numbers, at := NumbersOf(data);
    var ps, list := PropertiesEnd(data, at, numbers[1].value, numbers[0].value, start, end);
    PartsHold(data, numbers, at, ps, list);
  }

  /** Position and count, kept together. */
  lemma {:induction false} NumbersOf(data: Bytes) returns (numbers: seq<Encoded>, at: nat)
    requires EncodedHeader(data).PackRange?
    ensures |numbers| == 2 && Encodes(numbers) && at == 2 + |numbers[0].code| + |numbers[1].code|
    ensures StandsAt(data, 0, [0x17, 0x06]) && StandsAt(data, 2, numbers[0].code)
    ensures StandsAt(data, 2 + |numbers[0].code|, numbers[1].code)
    ensures EncodedHeader(data) == Conclude(numbers[0].value, PropertiesAt(data, at, numbers[1].value, []))
  {
    var packPos, count;
    packPos, count, at := HeaderNumbers(data);
    numbers := [packPos, count];
  }

  lemma {:induction false} PartsHold(data: Bytes, numbers: seq<Encoded>, at: nat, ps: seq<Property>, list: seq<Encoded>)
    requires |numbers| == 2 && Encodes(numbers) && at == 2 + |numbers[0].code| + |numbers[1].code|
    requires numbers[1].value >= 0 && list != []
    requires AllConforming(ps, numbers[1].value) && FinalSizes(ps, []) == Values(list)
    requires StandsAt(data, 0, [0x17, 0x06]) && StandsAt(data, 2, numbers[0].code)
    requires StandsAt(data, 2 + |numbers[0].code|, numbers[1].code)
    requires StandsAt(data, at, EncodeProperties(ps, numbers[1].value))
    ensures HoldsRange(data, numbers[0].value, StreamsEnd(numbers[0].value, list))
  {
    JoinFour(data, numbers[0].code, numbers[1].code, EncodeProperties(ps, numbers[1].value));
    BothAreCodes(numbers);
    StartHolds(data, numbers[0], numbers[1], ps, list);
  }

  lemma {:induction false} BothAreCodes(numbers: seq<Encoded>)
    requires |numbers| == 2 && Encodes(numbers)
    ensures IsCode(numbers[0]) && IsCode(numbers[1])
  {
    assert numbers[0] in numbers && numbers[1] in numbers;
  }

  lemma {:induction false} StartHolds(data: Bytes, packPos: Encoded, count: Encoded, ps: seq<Property>, list: seq<Encoded>)
    requires StartsWith(data, packPos, count, ps, list) && list != []
    ensures HoldsRange(data, packPos.value, StreamsEnd(packPos.value, list))
  {
  }

  lemma {:induction false} PropertiesEnd(data: Bytes, at: nat, count: int, packPos: int, start: int, end: int)
    returns (ps: seq<Property>, list: seq<Encoded>)
    requires Conclude(packPos, PropertiesAt(data, at, count, [])) == PackRange(start, end)
    ensures count >= 0 && list != [] && start == packPos && end == StreamsEnd(packPos, list)
    ensures AllConforming(ps, count) && StandsAt(data, at, EncodeProperties(ps, count))
    ensures FinalSizes(ps, []) == Values(list)
  {
    if count < 0 {
      NegativeCount(data, at, count, packPos);
    } else {
      var next;
      ps, list, next := PropertiesList(data, at, count);
      ListEnds(packPos, list, next, start, end);
    }
  }

  lemma {:induction false} PropertiesList(data: Bytes, at: nat, n: nat)
    returns (ps: seq<Property>, list: seq<Encoded>, next: nat)
    requires PropertiesAt(data, at, n, []).Got?
    ensures AllConforming(ps, n) && StandsAt(data, at, EncodeProperties(ps, n)) && FinalSizes(ps, []) == Values(list)
    ensures PropertiesAt(data, at, n, []) == Got(Values(list), next)
  {
    ps := PropertiesCode(data, at, n, []);
    PropertiesInverse(data, at, n, ps, []);
    list := FinalList(ps, n, []);
    assert Values([]) == [];
    next := at + |EncodeProperties(ps, n)|;
  }

  lemma {:induction false} ListEnds(packPos: int, list: seq<Encoded>, next: nat, start: int, end: int)
    requires Conclude(packPos, Got(Values(list), next)) == PackRange(start, end)
    ensures list != [] && start == packPos && end == StreamsEnd(packPos, list)
  {
    assert |Values(list)| == |list|;
    if list != [] {
      EndOfStreams(packPos, list, next);
    }
  }

  /** A range is read from exactly the data that starts with a serialised pack info with a list of sizes; it is that of
      its streams, sizes past 2^63 and the sum taken as an `int64` takes them. */
  lemma RangeExactly(data: Bytes, start: int, end: int)
    ensures EncodedHeader(data) == PackRange(start, end) <==> HoldsRange(data, start, end)
  {
    if EncodedHeader(data) == PackRange(start, end) {
      RangeIsHeld(data, start, end);
    }
    if HoldsRange(data, start, end) {
      var packPos, count, ps, list :| StartsWith(data, packPos, count, ps, list) && list != []
                                      && start == packPos.value && end == StreamsEnd(packPos.value, list);
      PackInfoInverse(data, packPos, count, ps, list);
    }
  }

  ghost predicate CountsNegative(data: Bytes) {
    exists packPos, count :: StartsNegative(data, packPos, count)
  }

  /** The parser panics on exactly the data with a negative count of streams and a list of sizes or digests after it. */
  lemma PanicExactly(data: Bytes)
    ensures EncodedHeader(data) == Panicked <==> CountsNegative(data)
  {
    if EncodedHeader(data) == Panicked {
      var packPos, count, at := HeaderNumbers(data);
      PanicStarts(data, packPos, count, at);
    }
    if CountsNegative(data) {
      var packPos, count :| StartsNegative(data, packPos, count);
      NegativePanics(data, packPos, count);
    }
  }

  lemma PanicStarts(data: Bytes, packPos: Encoded, count: Encoded, at: nat)
    requires IsCode(packPos) && IsCode(count) && at == 2 + |packPos.code| + |count.code|
    requires StandsAt(data, 0, [0x17, 0x06]) && StandsAt(data, 2, packPos.code)
    requires StandsAt(data, 2 + |packPos.code|, count.code)
    requires Conclude(packPos.value, PropertiesAt(data, at, count.value, [])) == Panicked
    ensures StartsNegative(data, packPos, count)
  {
    if count.value >= 0 {
      CountedNeverPanics(data, at, count.value, []);
    } else {
      NegativeCount(data, at, count.value, packPos.value);
      JoinFour(data, packPos.code, count.code, []);
    }
  }

  lemma NegativePanics(data: Bytes, packPos: Encoded, count: Encoded)
    requires StartsNegative(data, packPos, count)
    ensures EncodedHeader(data) == Panicked
  {
    var p, q := TwoNumbers(data, packPos, count, []);
    HeaderAt(data, packPos.value, p, count.value, q);
    NegativeCount(data, q, count.value, packPos.value);
  }

  // ---------------------------------------------------------------- cut-off data

  lemma {:induction false} LittleEndianExtends(short: Bytes, long: Bytes, pos: nat, k: nat)
    requires short <= long && pos + k <= |short|
    ensures LittleEndian(short, pos, k) == LittleEndian(long, pos, k)
    decreases k
  {
    if k > 0 {
      LittleEndianExtends(short, long, pos + 1, k - 1);
    }
  }

  /** What was read from a prefix is read from the whole. */
  lemma NumberExtends(short: Bytes, long: Bytes, pos: nat)
    requires short <= long && NumberAt(short, pos).Got?
    ensures NumberAt(long, pos) == NumberAt(short, pos)
  {
    LittleEndianExtends(short, long, pos + 1, LeadingOnes(short[pos], 0));
  }

  lemma {:induction false} SizesExtend(short: Bytes, long: Bytes, pos: nat, count: nat, got: seq<int>)
    requires short <= long && pos <= |short| && SizesAt(short, pos, count, got).Got?
    ensures SizesAt(long, pos, count, got) == SizesAt(short, pos, count, got)
    decreases count
  {
    if count > 0 {
      NumberExtends(short, long, pos);
      var r := NumberAt(short, pos);
      SizesExtend(short, long, r.next, count - 1, got + [r.value]);
    }
  }

  lemma {:induction false} BitsExtend(short: Bytes, long: Bytes, pos: nat, n: nat)
    requires short <= long && pos + VectorBytes(n) <= |short|
    ensures CountBits(short, pos, n) == CountBits(long, pos, n)
  {
    if n > 0 {
      VectorCovers(n, n - 1);
      BitsExtend(short, long, pos, n - 1);
    }
  }

  lemma DigestsExtend(short: Bytes, long: Bytes, pos: nat, n: nat)
    requires short <= long && DigestsAt(short, pos, n).Got?
    ensures DigestsAt(long, pos, n) == DigestsAt(short, pos, n)
  {
    if short[pos] == 0 {
      BitsExtend(short, long, pos + 1, n);
    }
  }

  lemma {:induction false} PropertiesExtend(short: Bytes, long: Bytes, pos: nat, n: nat, sizes: seq<int>)
    requires short <= long && PropertiesAt(short, pos, n, sizes).Got?
    ensures PropertiesAt(long, pos, n, sizes) == PropertiesAt(short, pos, n, sizes)
    ensures PropertiesAt(short, pos, n, sizes).next <= |short|
    decreases |short| - pos
  {
    if short[pos] == 0x09 {
      SizesExtend(short, long, pos + 1, n, []);
      var r := SizesAt(short, pos + 1, n, []);
      PropertiesExtend(short, long, r.next, n, r.value);
    } else if short[pos] == 0x0A {
      DigestsExtend(short, long, pos + 1, n);
      PropertiesExtend(short, long, DigestsAt(short, pos + 1, n).next, n, sizes);
    }
  }

  /** The data is a serialised pack info cut off somewhere. */
  ghost predicate CutOff(data: Bytes) {
    exists packPos: Encoded, count: Encoded, ps: seq<Property> ::
      IsCode(packPos) && IsCode(count) && count.value >= 0 && AllConforming(ps, count.value)
      && data < EncodePackInfo(packPos, count, ps)
  }

  /** Cut off anywhere, a serialised pack info is refused. */
  lemma CutOffIsRejected(data: Bytes)
    requires CutOff(data)
    ensures EncodedHeader(data) == Rejected
  {
    var packPos: Encoded, count: Encoded, ps: seq<Property> :|
      IsCode(packPos) && IsCode(count) && count.value >= 0 && AllConforming(ps, count.value)
      && data < EncodePackInfo(packPos, count, ps);
    var whole := EncodePackInfo(packPos, count, ps);
    SliceStands(whole, 0, |whole|);
    assert whole[0..|whole|] == whole;
    var p, q := TwoNumbers(whole, packPos, count, EncodeProperties(ps, count.value));
    PropertiesInverse(whole, q, count.value, ps, []);
    CutOffHeader(data, whole, packPos.value, p, count.value, q);
  }

  lemma CutOffHeader(short: Bytes, long: Bytes, packPos: int, p: nat, n: nat, q: nat)
    requires short < long && long[0] == 0x17
    requires NumberAt(long, 2) == Got(packPos, p) && NumberAt(long, p) == Got(n, q)
    requires PropertiesAt(long, q, n, []).Got? && PropertiesAt(long, q, n, []).next == |long|
    ensures EncodedHeader(short) == Rejected
  {
    if |short| >= 2 && NumberAt(short, 2).Got? {
      NumberExtends(short, long, 2);
      if NumberAt(short, p).Got? {
        NumberExtends(short, long, p);
        CutOffProperties(short, long, q, n);
        CountedNeverPanics(short, q, n, []);
      }
    }
  }

  lemma CutOffProperties(short: Bytes, long: Bytes, pos: nat, n: nat)
    requires short < long
    requires PropertiesAt(long, pos, n, []).Got? && PropertiesAt(long, pos, n, []).next == |long|
    ensures !PropertiesAt(short, pos, n, []).Got?
  {
    if PropertiesAt(short, pos, n, []).Got? {
      PropertiesExtend(short, long, pos, n, []);
    }
  }

  // ---------------------------------------------------------------- start headers

  lemma FixedCode(data: Bytes, pos: nat, k: nat)
    requires pos + k <= |data|
    ensures StandsAt(data, pos, EncodeLittleEndian(LittleEndian(data, pos, k), k))
  {
    LowBytes(data, pos, k, 0);
    ZeroShifted(k);
  }

  /** The data starts with a start header for a next header of that offset, size and checksum, its own being right. */
  predicate StartsHeader(head: Bytes, version: Bytes, offset: nat, size: nat, crc: nat, crc32: Bytes -> nat) {
    && |version| == 2 && crc < 0x1_0000_0000
    && offset < 0x1_0000_0000_0000_0000 && size < 0x1_0000_0000_0000_0000
    && crc32(NextHeaderFields(offset, size, crc)) < 0x1_0000_0000
    && StandsAt(head, 0, EncodeStartHeader(version, offset, size, crc, crc32))
  }

  ghost predicate HoldsNextHeader(head: Bytes, crc32: Bytes -> nat, h: NextHeader) {
    exists version, offset, size, crc :: StartsHeader(head, version, offset, size, crc, crc32)
                                         && Described(offset, size, crc) == Some(h)
  }

  /** The place of the next header is read from exactly the data that starts with a start header. */
  lemma StartHeaderExactly(head: Bytes, crc32: Bytes -> nat, h: NextHeader)
    ensures ParseSevenZipNextHeaderRange(head, crc32) == Some(h) <==> HoldsNextHeader(head, crc32, h)
  {
    if ParseSevenZipNextHeaderRange(head, crc32) == Some(h) {
      var offset, size, crc := StartHeaderCode(head, crc32);
      StartHeaderInverse(head, head[6..8], offset, size, crc, crc32);
    }
    if HoldsNextHeader(head, crc32, h) {
      var version, offset, size, crc :| StartsHeader(head, version, offset, size, crc, crc32)
                                        && Described(offset, size, crc) == Some(h);
      StartHeaderInverse(head, version, offset, size, crc, crc32);
    }
  }

  lemma StartHeaderCode(head: Bytes, crc32: Bytes -> nat) returns (offset: nat, size: nat, crc: nat)
    requires |head| >= 32 && head[..6] == SIGNATURE && crc32(head[12..32]) == LittleEndian(head, 8, 4)
    ensures StartsHeader(head, head[6..8], offset, size, crc, crc32)
  {
    offset, size, crc := LittleEndian(head, 12, 8), LittleEndian(head, 20, 8), LittleEndian(head, 28, 4);
    FieldsCode(head);
    var fields := NextHeaderFields(offset, size, crc);
    StandsSlice(head, 12, fields);
    FixedCode(head, 8, 4);
    FixedBounds(head);
    SliceStands(head, 6, 8);
    SliceStands(head, 0, 6);
    assert head[0..6] == head[..6];
    var check := EncodeLittleEndian(crc32(fields), 4);
    StandsJoin(head, 8, check, fields);
    StandsJoin(head, 6, head[6..8], check + fields);
    StandsJoin(head, 0, head[..6], head[6..8] + (check + fields));
  }

  lemma FieldsCode(head: Bytes)
    requires |head| >= 32
    ensures StandsAt(head, 12, NextHeaderFields(LittleEndian(head, 12, 8), LittleEndian(head, 20, 8), LittleEndian(head, 28, 4)))
  {
    FixedCode(head, 12, 8);
    FixedCode(head, 20, 8);
    FixedCode(head, 28, 4);
    StandsJoin(head, 20, EncodeLittleEndian(LittleEndian(head, 20, 8), 8), EncodeLittleEndian(LittleEndian(head, 28, 4), 4));
    StandsJoin(head, 12, EncodeLittleEndian(LittleEndian(head, 12, 8), 8),
               EncodeLittleEndian(LittleEndian(head, 20, 8), 8) + EncodeLittleEndian(LittleEndian(head, 28, 4), 4));
  }

  lemma FixedBounds(head: Bytes)
    requires |head| >= 32
    ensures LittleEndian(head, 8, 4) < 0x1_0000_0000 && LittleEndian(head, 28, 4) < 0x1_0000_0000
    ensures LittleEndian(head, 12, 8) < 0x1_0000_0000_0000_0000 && LittleEndian(head, 20, 8) < 0x1_0000_0000_0000_0000
  {
    LittleEndianBound(head, 8, 4);
    LittleEndianBound(head, 28, 4);
    LittleEndianBound(head, 12, 8);
    LittleEndianBound(head, 20, 8);
    PowersOf256();
    assert Shifted(1, 2) == 0x1_0000;
    assert Shifted(1, 4) == 0x1_0000_0000;
  }
}
