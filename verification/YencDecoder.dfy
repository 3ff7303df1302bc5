/** The streaming yEnc body decoder: `Read`, `parseFooter` and `Verify`. */
module YencDecoding {
  import opened Common
  import opened TextLines

  const EQUALS: byte := 61
  /** "yend" */
  const YEND: Bytes := [121, 101, 110, 100]
  /** "pcrc32=" */
  const PCRC32: Bytes := [112, 99, 114, 99, 51, 50, 61]
  /** "crc32=" */
  const CRC32: Bytes := [99, 114, 99, 51, 50, 61]

  /** The error a reader gives once its bytes are used up. */
  datatype StreamEnd = Eof | UnexpectedEof | Broken

  /** The checksum as a fold over bytes; CRC-32 is one such fold. */
  type Checksum = (nat, byte) -> nat

  function Fold(step: Checksum, hash: nat, data: Bytes): nat
    decreases |data|
  {
    if data == [] then hash else Fold(step, step(hash, data[0]), data[1..])
  }

  lemma {:induction false} FoldConcat(step: Checksum, hash: nat, a: Bytes, b: Bytes)
    ensures Fold(step, hash, a + b) == Fold(step, Fold(step, hash, a), b)
    decreases |a|
  {
    if a == [] {
      assert a + b == b;
    } else {
      assert (a + b)[1..] == a[1..] + b;
      FoldConcat(step, step(hash, a[0]), a[1..], b);
    }
  }

  // ---------------------------------------------------------------- specification of Read

  /** The decoder's own state; `input` is what the buffered reader has not handed out yet. */
  datatype Decoder = Decoder(input: Bytes, escaped: bool, reachedEnd: bool, hash: nat, expectedCRC: nat)

  function Fresh(input: Bytes, hash: nat): Decoder {
    Decoder(input, false, false, hash, 0)
  }

  datatype ReadResult = ReadResult(out: Bytes, decoder: Decoder, err: Option<StreamEnd>)
  {
    function Prepend(before: Bytes): ReadResult {
      this.(out := before + out)
    }
  }

  function Plain(b: byte): byte {
    (b + 256 - 42) % 256
  }

  function Unescaped(b: byte): byte {
    (b + 256 - 64 - 42) % 256
  }

  /** One field of the footer line. */
  function FooterField(field: Bytes, prefix: Bytes): Option<nat> {
    if HasPrefix(field, prefix) then ParseHex32(field[|prefix|..]) else None
  }

  /** The checksum the footer's fields announce, `crc` where they announce none. */
  function FooterCRC(fields: seq<Bytes>, crc: nat): nat {
    if fields == [] then crc
    else
      var part := FooterField(fields[0], PCRC32);
      var whole := FooterField(fields[0], CRC32);
      if part.Some? then part.value
      else if whole.Some? then FooterCRC(fields[1..], whole.value)
      else FooterCRC(fields[1..], crc)
  }

  function AtFooter(d: Decoder): Decoder
    requires d.input != []
  {
    var line := d.input[1..];
    d.(input := line[LineLength(line)..],
       reachedEnd := true,
       expectedCRC := FooterCRC(Fields(line[..LineLength(line)]), d.expectedCRC))
  }

  predicate FooterAhead(d: Decoder) {
    d.input != [] && d.input[0] == EQUALS && !d.escaped && HasPrefix(d.input[1..], YEND)
  }

  /** The byte decoded from the next input byte, if that byte yields one. */
  function Emitted(d: Decoder): (out: Bytes)
    requires d.input != []
    ensures |out| <= 1
  {
    if d.escaped then [Unescaped(d.input[0])]
    else if d.input[0] in [EQUALS, CR, LF] then []
    else [Plain(d.input[0])]
  }

  function Advanced(d: Decoder): Decoder
    requires d.input != []
  {
    d.(input := d.input[1..], escaped := !d.escaped && d.input[0] == EQUALS)
  }

  /** Decodes until `k` bytes are out, the footer is reached or the stream ends; leaves the hash alone. */
  function Decode(d: Decoder, end: StreamEnd, k: nat): (r: ReadResult)
    ensures |r.out| <= k
    ensures r.err.None? ==> |r.out| == k && !r.decoder.reachedEnd
    ensures r.decoder.hash == d.hash
    decreases |d.input|
  {
    if d.reachedEnd then ReadResult([], d, Some(Eof))
    else if k == 0 then ReadResult([], d, None)
    else if d.input == [] then ReadResult([], d, Some(end))
    else if FooterAhead(d) then ReadResult([], AtFooter(d), Some(Eof))
    else Decode(Advanced(d), end, k - |Emitted(d)|).Prepend(Emitted(d))
  }

  datatype Reading = Reading(step: Checksum, end: StreamEnd)

  /** One call of `Read` with a buffer of `k` bytes. */
  function ReadCall(env: Reading, d: Decoder, k: nat): ReadResult {
    var r := Decode(d, env.end, k);
    r.(decoder := r.decoder.(hash := Fold(env.step, d.hash, r.out)))
  }

  /** Successive calls with the given buffer sizes, up to the first one that returns an error. */
  function ReadCalls(env: Reading, d: Decoder, sizes: seq<nat>): ReadResult
    decreases |sizes|
  {
    if sizes == [] then ReadResult([], d, None)
    else
      var r := ReadCall(env, d, sizes[0]);
      if r.err.Some? then r else ReadCalls(env, r.decoder, sizes[1..]).Prepend(r.out)
  }

  function Total(sizes: seq<nat>): nat {
    if sizes == [] then 0 else sizes[0] + Total(sizes[1..])
  }

  // ---------------------------------------------------------------- reading in chunks

  lemma PrependTwice(r: ReadResult, a: Bytes, b: Bytes)
    ensures r.Prepend(b).Prepend(a) == r.Prepend(a + b)
  {
    assert a + (b + r.out) == (a + b) + r.out;
  }

  lemma PrependBoth(whole: ReadResult, first: ReadResult, rest: ReadResult, out: Bytes)
    requires whole == if first.err.Some? then first else rest.Prepend(first.out)
    ensures whole.Prepend(out)
            == if first.Prepend(out).err.Some? then first.Prepend(out) else rest.Prepend(first.Prepend(out).out)
  {
    PrependTwice(rest, out, first.out);
  }

  /** Nothing more comes out of `d`: finished, out of input, or at the footer. */
  predicate Stops(d: Decoder) {
    d.reachedEnd || d.input == [] || FooterAhead(d)
  }

  lemma StoppedDecode(d: Decoder, end: StreamEnd, j: nat, k: nat)
    requires Stops(d) && j > 0 && k > 0
    ensures Decode(d, end, j) == Decode(d, end, k) && Decode(d, end, j).err.Some?
  {
  }

  lemma OneStep(d: Decoder, end: StreamEnd, k: nat)
    requires !Stops(d) && k > 0
    ensures Decode(d, end, k) == Decode(Advanced(d), end, k - |Emitted(d)|).Prepend(Emitted(d))
  {
  }

  lemma DecodeNothing(d: Decoder, end: StreamEnd, k: nat)
    ensures Decode(d, end, 0) == ReadResult([], d, if d.reachedEnd then Some(Eof) else None)
    ensures d.reachedEnd ==> Decode(d, end, k) == Decode(d, end, 0)
    ensures Decode(d, end, k).Prepend([]) == Decode(d, end, k)
  {
    assert [] + Decode(d, end, k).out == Decode(d, end, k).out;
  }

  /** Decoding `j + k` bytes is decoding `j` and, unless that ended, `k` more. */
  lemma {:induction false} DecodeSplit(d: Decoder, end: StreamEnd, j: nat, k: nat)
    ensures Decode(d, end, j + k)
            == if Decode(d, end, j).err.Some? then Decode(d, end, j)
               else Decode(Decode(d, end, j).decoder, end, k).Prepend(Decode(d, end, j).out)
    decreases |d.input|
  {
    if j == 0 {
      DecodeNothing(d, end, k);
    } else if Stops(d) {
      StoppedDecode(d, end, j, j + k);
    } else {
      var next, out := Advanced(d), Emitted(d);
      DecodeSplit(next, end, j - |out|, k);
      OneStep(d, end, j);
      OneStep(d, end, j + k);
      var r := Decode(next, end, j - |out|);
      PrependBoth(Decode(next, end, j - |out| + k), r, Decode(r.decoder, end, k), out);
      assert j - |out| + k == j + k - |out|;
    }
  }

  lemma {:induction false} DecodeIgnoresHash(d: Decoder, end: StreamEnd, k: nat, hash: nat)
    ensures var r := Decode(d, end, k);
            Decode(d.(hash := hash), end, k) == r.(decoder := r.decoder.(hash := hash))
    decreases |d.input|
  {
    if !d.reachedEnd && k > 0 && d.input != [] && !FooterAhead(d) {
      assert Advanced(d.(hash := hash)) == Advanced(d).(hash := hash);
      DecodeIgnoresHash(Advanced(d), end, k - |Emitted(d)|, hash);
    }
  }

  /** Two calls of `Read`, the second only when the first ended without an error, are one of both sizes. */
  lemma ReadCallSplit(env: Reading, d: Decoder, j: nat, k: nat)
    requires !d.reachedEnd
    ensures var r := ReadCall(env, d, j);
            ReadCall(env, d, j + k) == if r.err.Some? then r else ReadCall(env, r.decoder, k).Prepend(r.out)
  {
    var first := Decode(d, env.end, j);
    DecodeSplit(d, env.end, j, k);
    if first.err.None? {
      var rest := Decode(first.decoder, env.end, k);
      DecodeIgnoresHash(first.decoder, env.end, k, Fold(env.step, d.hash, first.out));
      FoldConcat(env.step, d.hash, first.out, rest.out);
    }
  }

  /** However the output is cut into buffers, the calls together behave as one call: the same bytes, error,
      unread input, escape state, hash and announced checksum. */
  lemma {:induction false} ChunkingIsInvisible(env: Reading, d: Decoder, sizes: seq<nat>)
    requires !d.reachedEnd
    ensures ReadCalls(env, d, sizes) == ReadCall(env, d, Total(sizes))
    decreases |sizes|
  {
    if sizes != [] {
      var r := ReadCall(env, d, sizes[0]);
      ReadCallSplit(env, d, sizes[0], Total(sizes[1..]));
      if r.err.None? {
        ChunkingIsInvisible(env, r.decoder, sizes[1..]);
      }
    }
  }

  // ---------------------------------------------------------------- footer and verification

  /** The first well-formed pcrc32 field decides, wherever it stands. */
  lemma {:induction false} PartChecksumWins(fields: seq<Bytes>, i: nat, crc: nat)
    requires i < |fields|
    requires FooterField(fields[i], PCRC32).Some?
    requires forall j :: 0 <= j < i ==> FooterField(fields[j], PCRC32).None?
    ensures FooterCRC(fields, crc) == FooterField(fields[i], PCRC32).value
  {
    if i > 0 {
      assert FooterField(fields[0], PCRC32).None?;
      var whole := FooterField(fields[0], CRC32);
      assert fields[1..][i - 1] == fields[i];
      assert forall j :: 0 <= j < i - 1 ==> fields[1..][j] == fields[j + 1];
      PartChecksumWins(fields[1..], i - 1, if whole.Some? then whole.value else crc);
    }
  }

  /** Without one, the last well-formed crc32 field decides. */
  lemma {:induction false} LastWholeChecksumWins(fields: seq<Bytes>, i: nat, crc: nat)
    requires i < |fields|
    requires forall f | f in fields :: FooterField(f, PCRC32).None?
    requires FooterField(fields[i], CRC32).Some?
    requires forall j :: i < j < |fields| ==> FooterField(fields[j], CRC32).None?
    ensures FooterCRC(fields, crc) == FooterField(fields[i], CRC32).value
    decreases |fields|
  {
    assert fields[0] in fields;
    var whole := FooterField(fields[0], CRC32);
    if i > 0 {
      assert fields[1..][i - 1] == fields[i];
      assert forall j :: i - 1 < j < |fields| - 1 ==> fields[1..][j] == fields[j + 1];
      LastWholeChecksumWins(fields[1..], i - 1, if whole.Some? then whole.value else crc);
    } else {
      NoChecksumKeeps(fields[1..], whole.value);
    }
  }

  lemma {:induction false} NoChecksumKeeps(fields: seq<Bytes>, crc: nat)
    requires forall f | f in fields :: FooterField(f, PCRC32).None? && FooterField(f, CRC32).None?
    ensures FooterCRC(fields, crc) == crc
  {
    if fields != [] {
      assert fields[0] in fields;
      NoChecksumKeeps(fields[1..], crc);
    }
  }

  /** The decoder trusts a body with no announced checksum or an announced zero. */
  predicate Verified(d: Decoder) {
    d.expectedCRC == 0 || d.hash == d.expectedCRC
  }
}
