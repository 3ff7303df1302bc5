/** The 7z headers an archive probe reads: the start header and pack info of an encoded header. */
module SevenZip {
  import opened Common

  // ---------------------------------------------------------------- little-endian numbers

  /** The little-endian number in the `k` bytes at `pos`. */
  function LittleEndian(data: Bytes, pos: nat, k: nat): nat
    requires pos + k <= |data|
    decreases k
  {
    if k == 0 then 0 else data[pos] + 256 * LittleEndian(data, pos + 1, k - 1)
  }

  /** `x << (8 * k)`. */
  function Shifted(x: nat, k: nat): nat {
    if k == 0 then x else 256 * Shifted(x, k - 1)
  }

  /** The `k` low bytes of `v`, lowest first. */
  function EncodeLittleEndian(v: nat, k: nat): (r: Bytes)
    ensures |r| == k
  {
    if k == 0 then [] else [v % 256] + EncodeLittleEndian(v / 256, k - 1)
  }

  /** `bytes` stands in `data` at `pos`. */
  predicate StandsAt(data: Bytes, pos: nat, bytes: Bytes)
    decreases |bytes|
  {
    if bytes == [] then pos <= |data|
    else pos < |data| && data[pos] == bytes[0] && StandsAt(data, pos + 1, bytes[1..])
  }

  lemma {:induction false} StandsSplit(data: Bytes, pos: nat, a: Bytes, b: Bytes)
    requires StandsAt(data, pos, a + b)
    ensures StandsAt(data, pos, a) && StandsAt(data, pos + |a|, b)
    decreases |a|
  {
    if a == [] {
      assert a + b == b;
      StandsEnds(data, pos, b);
    } else {
      assert (a + b)[1..] == a[1..] + b;
      StandsSplit(data, pos + 1, a[1..], b);
    }
  }

  lemma {:induction false} StandsEnds(data: Bytes, pos: nat, bytes: Bytes)
    requires StandsAt(data, pos, bytes)
    ensures pos + |bytes| <= |data|
    decreases |bytes|
  {
    if bytes != [] {
      StandsEnds(data, pos + 1, bytes[1..]);
    }
  }

  lemma {:induction false} StandsByte(data: Bytes, pos: nat, bytes: Bytes, i: nat)
    requires StandsAt(data, pos, bytes) && i < |bytes|
    ensures pos + i < |data| && data[pos + i] == bytes[i]
    decreases |bytes|
  {
    if i > 0 {
      StandsByte(data, pos + 1, bytes[1..], i - 1);
    }
  }

  lemma StandsFirst(data: Bytes, pos: nat, b: byte, rest: Bytes)
    requires StandsAt(data, pos, [b] + rest)
    ensures pos < |data| && data[pos] == b && StandsAt(data, pos + 1, rest)
  {
    assert ([b] + rest)[1..] == rest;
  }

  /** What is left of `v` above its `k` low bytes. */
  function Above(v: nat, k: nat): nat {
    if k == 0 then v else Above(v / 256, k - 1)
  }

  /** The encoded bytes are `v` without what is above them. */
  lemma {:induction false} LittleEndianInverse(data: Bytes, pos: nat, v: nat, k: nat)
    requires StandsAt(data, pos, EncodeLittleEndian(v, k))
    ensures pos + k <= |data|
    ensures LittleEndian(data, pos, k) + Shifted(Above(v, k), k) == v
    decreases k
  {
    if k > 0 {
      StandsFirst(data, pos, v % 256, EncodeLittleEndian(v / 256, k - 1));
      LittleEndianInverse(data, pos + 1, v / 256, k - 1);
    }
  }

  lemma {:induction false} NothingAbove(v: nat, k: nat)
    requires v < Shifted(1, k)
    ensures Above(v, k) == 0
  {
    if k > 0 {
      NothingAbove(v / 256, k - 1);
    }
  }

  lemma {:induction false} LittleEndianBound(data: Bytes, pos: nat, k: nat)
    requires pos + k <= |data|
    ensures LittleEndian(data, pos, k) < Shifted(1, k)
    decreases k
  {
    if k > 0 {
      LittleEndianBound(data, pos + 1, k - 1);
    }
  }

  /** One more byte at the top, as the reading loop adds it. */
  lemma {:induction false} LittleEndianTop(data: Bytes, pos: nat, k: nat)
    requires pos + k < |data|
    ensures LittleEndian(data, pos, k + 1) == LittleEndian(data, pos, k) + Shifted(data[pos + k], k)
    decreases k
  {
    if k > 0 {
      LittleEndianTop(data, pos + 1, k - 1);
    }
  }

  // ---------------------------------------------------------------- 7z numbers

  /** The bit the reading loop tests in its round `i`. */
  function MaskBit(i: nat): (r: nat)
    ensures r <= 128
  {
    if i == 0 then 128 else MaskBit(i - 1) / 2
  }

  /** `b & mask != 0` for a mask of one bit, or none. */
  predicate BitSet(b: nat, mask: nat) {
    mask > 0 && b / mask % 2 == 1
  }

  lemma MaskTable()
    ensures MaskBit(0) == 128 && MaskBit(1) == 64 && MaskBit(2) == 32 && MaskBit(3) == 16
    ensures MaskBit(4) == 8 && MaskBit(5) == 4 && MaskBit(6) == 2 && MaskBit(7) == 1 && MaskBit(8) == 0
  {
    assert MaskBit(2) == 32;
    assert MaskBit(4) == 8;
    assert MaskBit(6) == 2;
  }

  /** How many bits of the first byte are set before the first clear one, from bit `i` on: so many bytes follow. */
  function LeadingOnes(first: byte, i: nat): (r: nat)
    requires i <= 8
    ensures i <= r <= 8
    decreases 8 - i
  {
    if i == 8 || first < 256 - MaskBit(i) then i else LeadingOnes(first, i + 1)
  }

  lemma LeadingOnesTable(first: byte)
    ensures LeadingOnes(first, 0)
            == if first < 128 then 0 else if first < 192 then 1 else if first < 224 then 2 else if first < 240 then 3
               else if first < 248 then 4 else if first < 252 then 5 else if first < 254 then 6
               else if first == 254 then 7 else 8
  {
    MaskTable();
    assert LeadingOnes(first, 6) == if first < 254 then 6 else if first == 254 then 7 else 8;
    assert LeadingOnes(first, 4) == if first < 248 then 4 else if first < 252 then 5 else LeadingOnes(first, 6);
    assert LeadingOnes(first, 2) == if first < 224 then 2 else if first < 240 then 3 else LeadingOnes(first, 4);
  }

  /** What a reading step gave and where the next one starts; a panic is `make` with a negative length. */
  datatype Read<+T> = Got(value: T, next: nat) | OutOfData | Panic

  /** The bits of the first byte in front of the first clear one, when `k` bytes follow. */
  function LeadBits(k: nat): nat {
    if k == 8 then 255 else 256 - 2 * MaskBit(k)
  }

  /** A 64-bit pattern as an `int64`. */
  function Signed(x: nat): int {
    if x < 0x8000_0000_0000_0000 then x else x - 0x1_0000_0000_0000_0000
  }

  /** The number at `pos`: the following bytes are its low part, the bits after the first clear one its high part. */
  function NumberAt(data: Bytes, pos: nat): (r: Read<int>)
    ensures !r.Panic?
    ensures r.Got? ==> pos < r.next <= |data|
  {
    if pos >= |data| then OutOfData
    else
      var k := LeadingOnes(data[pos], 0);
      if pos + 1 + k > |data| then OutOfData
      else
        var low := LittleEndian(data, pos + 1, k);
        Got(if k == 8 then Signed(low) else low + Shifted(data[pos] - LeadBits(k), k), pos + 1 + k)
  }

  /** The round in which the loop meets the first clear bit. */
  lemma BitsOfFirst(first: byte, i: nat)
    requires i < 8
    ensures i < LeadingOnes(first, 0) ==> BitSet(first, MaskBit(i))
    ensures i == LeadingOnes(first, 0) ==> !BitSet(first, MaskBit(i))
    ensures MaskBit(i) > 0
    ensures i == LeadingOnes(first, 0) ==> LeadBits(i) <= first && first % MaskBit(i) == first - LeadBits(i)
  {
    MaskTable();
    LeadingOnesTable(first);
    TestedBits(first, i, MaskBit(i), LeadingOnes(first, 0));
  }

  lemma TestedBits(first: byte, i: nat, mask: nat, ones: nat)
    requires i < 8
    requires mask == if i == 0 then 128 else if i == 1 then 64 else if i == 2 then 32 else if i == 3 then 16
                     else if i == 4 then 8 else if i == 5 then 4 else if i == 6 then 2 else 1
    requires ones == if first < 128 then 0 else if first < 192 then 1 else if first < 224 then 2
                     else if first < 240 then 3 else if first < 248 then 4 else if first < 252 then 5
                     else if first < 254 then 6 else if first == 254 then 7 else 8
    ensures i < ones ==> BitSet(first, mask)
    ensures i == ones ==> !BitSet(first, mask) && 256 - 2 * mask <= first && first % mask == first - (256 - 2 * mask)
  {
  }

  /** `v` can be written with `k` bytes after the first: what is above them goes into the first. */
  predicate Fits(v: nat, k: nat) {
    k <= 8 && v < 0x8000_0000_0000_0000 && Above(v, k) < (if k == 8 then 1 else MaskBit(k))
  }

  lemma FirstByte(k: nat, high: nat)
    requires k < 8 && high < MaskBit(k)
    ensures LeadBits(k) + high < 256
    ensures LeadingOnes(LeadBits(k) + high, 0) == k
  {
    MaskTable();
    LeadingOnesTable(LeadBits(k) + high);
    if k == 0 {
    } else if k == 1 {
    } else if k == 2 {
    } else if k == 3 {
    } else if k == 4 {
    } else if k == 5 {
    } else if k == 6 {
    } else {
    }
  }

  /** The 7z encoding of `v` with `k` bytes after the first. */
  function EncodeNumber(v: nat, k: nat): (r: Bytes)
    requires Fits(v, k)
    ensures |r| == 1 + k
  {
    if k < 8 then FirstByte(k, Above(v, k)); [LeadBits(k) + Above(v, k)] + EncodeLittleEndian(v, k)
    else [255] + EncodeLittleEndian(v, k)
  }

  /** Reading inverts every encoding of a number below 2^63, and consumes exactly its bytes. */
  lemma NumberInverse(data: Bytes, pos: nat, v: nat, k: nat)
    requires Fits(v, k) && StandsAt(data, pos, EncodeNumber(v, k))
    ensures NumberAt(data, pos) == Got(v, pos + 1 + k)
  {
    if k < 8 {
      FirstByte(k, Above(v, k));
      StandsFirst(data, pos, LeadBits(k) + Above(v, k), EncodeLittleEndian(v, k));
      LittleEndianInverse(data, pos + 1, v, k);
      NumberAtShort(data, pos, k);
    } else {
      StandsFirst(data, pos, 255, EncodeLittleEndian(v, k));
      LittleEndianInverse(data, pos + 1, v, k);
      LeadingOnesTable(255);
    }
  }

  lemma NumberAtShort(data: Bytes, pos: nat, k: nat)
    requires k < 8 && pos + 1 + k <= |data| && LeadingOnes(data[pos], 0) == k
    ensures LeadBits(k) <= data[pos]
    ensures NumberAt(data, pos)
            == Got(LittleEndian(data, pos + 1, k) + Shifted(data[pos] - LeadBits(k), k), pos + 1 + k)
  {
  }

  lemma PowersOf256()
    ensures Shifted(1, 7) == 0x100_0000_0000_0000 && Shifted(1, 8) == 0x1_0000_0000_0000_0000
  {
    assert Shifted(1, 2) == 0x1_0000;
    assert Shifted(1, 4) == 0x1_0000_0000;
    assert Shifted(1, 6) == 0x1_0000_0000_0000;
  }

  /** Every number below 2^63 has an encoding. */
  lemma EveryNumberFits(v: nat)
    requires v < 0x8000_0000_0000_0000
    ensures exists k :: Fits(v, k)
  {
    PowersOf256();
    NothingAbove(v, 8);
    assert Fits(v, 8);
  }

  // ---------------------------------------------------------------- digests

  /** Bit `idx` of the vector at `pos`, the highest bit of each byte first. */
  predicate BitAt(data: Bytes, pos: nat, idx: nat)
    requires pos + idx / 8 < |data|
  {
    BitSet(data[pos + idx / 8], MaskBit(idx % 8))
  }

  /** How many bytes a vector of `n` bits takes. */
  function VectorBytes(n: nat): nat {
    (n + 7) / 8
  }

  lemma VectorCovers(n: nat, idx: nat)
    requires idx < n
    ensures idx / 8 < VectorBytes(n)
  {
  }

  function CountBits(data: Bytes, pos: nat, n: nat): nat
    requires pos + VectorBytes(n) <= |data|
  {
    if n == 0 then 0
    else
      VectorCovers(n, n - 1);
      CountBits(data, pos, n - 1) + if BitAt(data, pos, n - 1) then 1 else 0
  }

  /** Past `n` digests at `pos`: all defined, or a bit vector first; four bytes for each defined one. */
  function DigestsAt(data: Bytes, pos: nat, n: int): (r: Read<()>)
    ensures r.Got? ==> pos < r.next <= |data|
  {
    if pos >= |data| then OutOfData
    else if n < 0 then Panic
    else if data[pos] != 0 then Past(data, pos + 1, n)
    else if pos + 1 + VectorBytes(n) > |data| then OutOfData
    else Past(data, pos + 1 + VectorBytes(n), CountBits(data, pos + 1, n))
  }

  /** Past `n` four-byte digests. */
  function Past(data: Bytes, pos: nat, n: nat): Read<()> {
    if pos + 4 * n > |data| then OutOfData else Got((), pos + 4 * n)
  }

  // ---------------------------------------------------------------- the reader

  class SevenZipByteReader {
    const data: Bytes
    var pos: nat

    predicate Valid()
      reads this
    {
      pos <= |data|
    }

    constructor (data: Bytes)
      ensures Valid() && this.data == data && pos == 0
    {
      this.data := data;
      pos := 0;
    }

    method ReadByte() returns (b: Option<byte>)
      requires Valid()
      modifies this
      ensures Valid()
      ensures if old(pos) < |data| then b == Some(data[old(pos)]) && pos == old(pos) + 1
              else b == None && pos == old(pos)
    {
      if pos >= |data| {
        return None;
      }
      b := Some(data[pos]);
      pos := pos + 1;
    }

    method ReadNumber() returns (r: Option<int>)
      requires Valid()
      modifies this
      ensures Valid()
      ensures match NumberAt(data, old(pos))
              case Got(v, next) => r == Some(v) && pos == next
              case _ => r == None
    {
      var first := ReadByte();
      if first.None? {
        return None;
      }
      ghost var p, k := pos, LeadingOnes(first.value, 0);
      var mask := 0x80;
      var value := 0;
      var i := 0;
      while i < 8
        invariant i <= 8 && i <= k && pos == p + i && Valid()
        invariant mask == MaskBit(i)
        invariant value == LowPart(data, p, i)
      {
        BitsOfFirst(first.value, i);
        if !BitSet(first.value, mask) {
          NumberAtShort(data, old(pos), i);
          return Some(value + Shifted(first.value % mask, i));
        }
        var next := ReadByte();
        if next.None? {
          return None;
        }
        Accumulate(data, p, i);
        assert next.value == data[p + i];
        value := Wrap64(value + Shifted(next.value, i));
        mask := mask / 2;
        i := i + 1;
      }
      return Some(value);
    }

    /** The bit vector, one bit for each digest. */
    method ReadBits(defined: array<bool>) returns (ok: bool)
      requires Valid()
      modifies this, defined
      ensures Valid()
      ensures ok == (old(pos) + VectorBytes(defined.Length) <= |data|)
      ensures ok ==> pos == old(pos) + VectorBytes(defined.Length)
      ensures ok ==> forall idx :: 0 <= idx < defined.Length ==>
                       (VectorCovers(defined.Length, idx); defined[idx] == BitAt(data, old(pos), idx))
    {
      var mask, current: byte := 0, 0;
      ghost var p, n := pos, defined.Length;
      for idx := 0 to defined.Length
        invariant Valid() && pos == p + VectorBytes(idx)
        invariant mask == (if idx % 8 == 0 then 0 else MaskBit(idx % 8))
        invariant idx % 8 != 0 ==> current == data[p + idx / 8]
        invariant forall k :: 0 <= k < idx ==> (VectorCovers(idx, k); defined[k] == BitAt(data, p, k))
      {
        VectorGrows(idx, n);
        MaskEnds(idx % 8);
        if mask == 0 {
          var b := ReadByte();
          if b.None? {
            assert p + VectorBytes(n) > |data|;
            return false;
          }
          current := b.value;
          mask := 0x80;
        }
        defined[idx] := BitSet(current, mask);
        mask := mask / 2;
      }
      return true;
    }

    method SkipDigests(count: int) returns (r: Read<()>)
      requires Valid()
      modifies this
      ensures Valid()
      ensures r == DigestsAt(data, old(pos), count) && (r.Got? ==> pos == r.next)
    {
      var all := ReadByte();
      if all.None? {
        return OutOfData;
      }
      if count < 0 {
        return Panic;
      }
      ghost var p := pos;
      var defined := new bool[count];
      if all.value != 0 {
        for idx := 0 to count
          invariant pos == p && forall k :: 0 <= k < idx ==> defined[k]
        {
          defined[idx] := true;
        }
        AllTrue(defined[..], count);
      } else {
        var read := ReadBits(defined);
        if !read {
          return OutOfData;
        }
        BitsTrue(data, p, defined[..], count);
      }
      var ok := SkipDefined(defined);
      if !ok {
        return OutOfData;
      }
      return Got((), pos);
    }

    /** Four bytes for each defined digest. */
    method SkipDefined(defined: array<bool>) returns (ok: bool)
      requires Valid()
      modifies this
      ensures Valid()
      ensures ok == (old(pos) + 4 * CountTrue(defined[..], defined.Length) <= |data|)
      ensures ok ==> pos == old(pos) + 4 * CountTrue(defined[..], defined.Length)
    {
      ghost var bits := defined[..];
      for idx := 0 to defined.Length
        invariant Valid() && pos == old(pos) + 4 * CountTrue(bits, idx)
      {
        if defined[idx] {
          CountTrueGrows(bits, idx + 1, defined.Length);
          ok := ReadN(4);
          if !ok {
            return;
          }
        }
      }
      return true;
    }

    method ReadN(n: int) returns (ok: bool)
      requires Valid()
      modifies this
      ensures Valid()
      ensures ok == (0 <= n && old(pos) + n <= |data|) && pos == if ok then old(pos) + n else old(pos)
    {
      if n < 0 || pos + n > |data| {
        return false;
      }
      pos := pos + n;
      return true;
    }
  }

  /** What `k` low bytes come to in an `int64`: only the eighth can reach the sign. */
  function LowPart(data: Bytes, pos: nat, k: nat): int
    requires pos + k <= |data|
  {
    if k == 8 then Signed(LittleEndian(data, pos, 8)) else LittleEndian(data, pos, k)
  }

  lemma Accumulate(data: Bytes, pos: nat, k: nat)
    requires k < 8 && pos + k < |data|
    ensures Wrap64(LowPart(data, pos, k) + Shifted(data[pos + k], k)) == LowPart(data, pos, k + 1)
  {
    LittleEndianTop(data, pos, k);
    LittleEndianBound(data, pos, k + 1);
    PowersOf256();
    if k < 7 {
      PowersUpTo(k + 1);
    }
  }

  lemma PowersUpTo(k: nat)
    requires k <= 7
    ensures Shifted(1, k) <= 0x100_0000_0000_0000
  {
    PowersOf256();
    assert k == 0 || k == 1 || k == 2 || k == 3 || k == 4 || k == 5 || k == 6 || k == 7;
  }

  lemma MaskEnds(j: nat)
    requires j < 8
    ensures MaskBit(j) > 0 && (MaskBit(j) / 2 == 0 <==> j == 7)
  {
    MaskTable();
    assert j == 0 || j == 1 || j == 2 || j == 3 || j == 4 || j == 5 || j == 6 || j == 7;
  }

  lemma VectorGrows(idx: nat, count: nat)
    requires idx < count
    ensures VectorBytes(idx + 1) == VectorBytes(idx) + (if idx % 8 == 0 then 1 else 0)
    ensures idx % 8 == 0 ==> VectorBytes(idx) == idx / 8 && VectorBytes(idx) < VectorBytes(count)
    ensures idx % 8 != 0 ==> VectorBytes(idx) == idx / 8 + 1
    ensures (idx + 1) % 8 == (if idx % 8 == 7 then 0 else idx % 8 + 1)
    ensures idx % 8 != 7 ==> (idx + 1) / 8 == idx / 8
  {
  }

  function CountTrue(s: seq<bool>, n: nat): nat
    requires n <= |s|
  {
    if n == 0 then 0 else CountTrue(s, n - 1) + if s[n - 1] then 1 else 0
  }

  lemma {:induction false} CountTrueGrows(s: seq<bool>, i: nat, n: nat)
    requires i <= n <= |s|
    ensures CountTrue(s, i) <= CountTrue(s, n)
  {
    if i < n {
      CountTrueGrows(s, i, n - 1);
    }
  }

  lemma {:induction false} AllTrue(s: seq<bool>, n: nat)
    requires n <= |s| && forall k :: 0 <= k < n ==> s[k]
    ensures CountTrue(s, n) == n
  {
    if n > 0 {
      AllTrue(s, n - 1);
    }
  }

  lemma {:induction false} BitsTrue(data: Bytes, pos: nat, s: seq<bool>, n: nat)
    requires n <= |s| && pos + VectorBytes(n) <= |data|
    requires forall k :: 0 <= k < n ==> (VectorCovers(n, k); s[k] == BitAt(data, pos, k))
    ensures CountTrue(s, n) == CountBits(data, pos, n)
  {
    if n > 0 {
      VectorCovers(n, n - 1);
      BitsTrue(data, pos, s, n - 1);
    }
  }
}
