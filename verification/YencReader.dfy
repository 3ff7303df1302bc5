/** The decoder object: one buffered stream, read piecewise into callers' buffers. */
module YencReader {
  import opened Common
  import opened TextLines
  import opened YencDecoding
  import opened YencHeaders

  datatype ChecksumMismatch = ChecksumMismatch(expected: nat, actual: nat)

  class YencDecoder {
    const env: Reading
    var input: Bytes
    var reachedEnd: bool
    var escaped: bool
    var hash: nat
    var expectedCRC: nat
    var header: YencHeader

    ghost function State(): Decoder
      reads this
    {
      Decoder(input, escaped, reachedEnd, hash, expectedCRC)
    }

    constructor (env: Reading, input: Bytes)
      ensures State() == Fresh(input, 0) && header == NO_HEADER && this.env == env
    {
      this.env := env;
      this.input := input;
      reachedEnd, escaped, hash, expectedCRC := false, false, 0, 0;
      header := NO_HEADER;
    }

    /** Skips to the first header line and reads it together with the part line that may follow. */
    method DiscardHeader() returns (err: Option<StreamEnd>)
      modifies this`input, this`header
      ensures HeaderResult(header, input, err) == ReadHeader(old(input), env.end, old(header))
    {
      while HasNewline(input)
        invariant header == old(header)
        invariant ReadHeader(input, env.end, header) == ReadHeader(old(input), env.end, header)
        decreases |input|
      {
        var n := LineLength(input);
        var line := input[..n];
        input := input[n..];
        if HasPrefix(line, YBEGIN) {
          header := ParseYbeginLine(line, header);
          err := HandlePotentialPartHeader();
          return;
        }
      }
      input := [];
      return Some(env.end);
    }

    method HandlePotentialPartHeader() returns (err: Option<StreamEnd>)
      modifies this`input, this`header
      ensures HeaderResult(header, input, err) == ReadPart(old(input), env.end, old(header))
    {
      if |input| < 6 || input[..6] != YPART {
        assert !HasPrefix(input, YPART);
        return None;
      }
      assert HasPrefix(input, YPART);
      var n := LineLength(input);
      if !HasNewline(input) {
        input := [];
        return Some(env.end);
      }
      header := ParseYpartLine(input[..n], header);
      input := input[n..];
      return None;
    }

    /** Decodes into p[lo..]; every return path adds the delivered bytes to the hash. */
    method Read(p: array<byte>, lo: nat) returns (n: nat, err: Option<StreamEnd>)
      requires lo <= p.Length
      modifies this`input, this`escaped, this`reachedEnd, this`hash, this`expectedCRC, p
      ensures lo + n <= p.Length
      ensures ReadResult(p[..lo + n], State(), err)
              == ReadCall(env, old(State()), p.Length - lo).Prepend(old(p[..lo]))
      ensures forall k :: lo + n <= k < p.Length ==> p[k] == old(p[k])
    {
      if reachedEnd {
        assert p[..lo] + [] == p[..lo];
        return 0, Some(Eof);
      }
      ghost var before := p[..lo];
      n, err := DecodeInto(p, lo);
      assert p[lo..lo + n] == p[..lo + n][|before|..];
      hash := Absorb(p[lo..lo + n]);
    }

    /** The loop of `Read`, without the hash. */
    method DecodeInto(p: array<byte>, lo: nat) returns (n: nat, err: Option<StreamEnd>)
      requires lo <= p.Length && !reachedEnd
      modifies this`input, this`escaped, this`reachedEnd, this`expectedCRC, p
      ensures lo + n <= p.Length
      ensures ReadResult(p[..lo + n], State(), err)
              == Decode(old(State()), env.end, p.Length - lo).Prepend(old(p[..lo]))
      ensures forall k :: lo + n <= k < p.Length ==> p[k] == old(p[k])
    {
      n, err := 0, None;
      ghost var whole := Decode(State(), env.end, p.Length - lo).Prepend(p[..lo]);
      ghost var filled := p[..lo];
      while lo + n < p.Length && err.None?
        invariant lo + n <= p.Length && filled == p[..lo + n]
        invariant GoesOn(whole, State(), env.end, p.Length - lo - n, filled, err)
        invariant forall k :: lo + n <= k < p.Length ==> p[k] == old(p[k])
        decreases |input|, err.None?
      {
        ghost var d := State();
        ghost var decoded;
        n, err, decoded := DecodeOne(p, lo, n);
        StepTo(d, State(), decoded, err, env.end, p.Length - lo - n + |decoded|, filled, whole);
        filled := filled + decoded;
      }
      if err.None? {
        StopsFull(whole, State(), env.end, filled);
      }
    }

    static lemma StopsFull(whole: ReadResult, d: Decoder, end: StreamEnd, filled: Bytes)
      requires GoesOn(whole, d, end, 0, filled, None)
      ensures whole == ReadResult(filled, d, None)
    {
      assert filled + [] == filled;
    }

    /** The loop's result `whole` is reached from here: by decoding on, or with the error at hand. */
    static ghost predicate GoesOn(whole: ReadResult, d: Decoder, end: StreamEnd, k: nat, filled: Bytes,
                                  err: Option<StreamEnd>) {
      if err.Some? then whole == ReadResult(filled, d, err)
      else !d.reachedEnd && whole == Decode(d, end, k).Prepend(filled)
    }

    /** The body of that loop: one input byte, stored when it gave one. */
    method DecodeOne(p: array<byte>, lo: nat, n: nat) returns (m: nat, err: Option<StreamEnd>, ghost decoded: Bytes)
      requires lo + n < p.Length && !reachedEnd
      modifies this`input, this`escaped, this`reachedEnd, this`expectedCRC, p
      ensures ByteStep(old(State()), env.end, State(), decoded, err) && |decoded| <= 1
      ensures m == n + |decoded| && p[..lo + m] == old(p[..lo + n]) + decoded
      ensures forall k :: lo + m <= k < p.Length ==> p[k] == old(p[k])
    {
      var bytes;
      bytes, err := DecodeByte();
      decoded := bytes;
      m := Store(p, lo, n, bytes);
    }

    /** `p[n] = b; n++`, when a byte was decoded. */
    static method Store(p: array<byte>, lo: nat, n: nat, decoded: Bytes) returns (m: nat)
      requires lo + n < p.Length && |decoded| <= 1
      modifies p
      ensures m == n + |decoded| && p[..lo + m] == old(p[..lo + n]) + decoded
      ensures forall k :: lo + m <= k < p.Length ==> p[k] == old(p[k])
    {
      m := n;
      if decoded != [] {
        p[lo + n] := decoded[0];
        m := n + 1;
      }
    }

    /** One input byte. */
    method DecodeByte() returns (decoded: Bytes, err: Option<StreamEnd>)
      requires !reachedEnd
      modifies this`input, this`escaped, this`reachedEnd, this`expectedCRC
      ensures ByteStep(old(State()), env.end, State(), decoded, err)
      ensures |decoded| <= 1 && (err.None? ==> !reachedEnd)
    {
      decoded := [];
      if input == [] {
        return decoded, Some(env.end);
      }
      var b := input[0];
      input := input[1..];
      if b == EQUALS && !escaped {
        if HasPrefix(input, YEND) {
          reachedEnd := true;
          ParseFooter();
          return decoded, Some(Eof);
        }
        escaped := true;
        return decoded, None;
      }
      if (b == CR || b == LF) && !escaped {
        return decoded, None;
      }
      if escaped {
        decoded := [Unescaped(b)];
        escaped := false;
      } else {
        decoded := [Plain(b)];
      }
      return decoded, None;
    }

    /** What one byte of input does to the decoder. */
    static ghost predicate ByteStep(d: Decoder, end: StreamEnd, after: Decoder, decoded: Bytes,
                                    err: Option<StreamEnd>) {
      if d.input == [] then err == Some(end) && after == d && decoded == []
      else if FooterAhead(d) then err == Some(Eof) && after == AtFooter(d) && decoded == []
      else err == None && after == Advanced(d) && decoded == Emitted(d)
    }

    static lemma StepTo(d: Decoder, after: Decoder, decoded: Bytes, err: Option<StreamEnd>, end: StreamEnd, k: nat,
                        out: Bytes, whole: ReadResult)
      requires k > 0 && |decoded| <= 1 && GoesOn(whole, d, end, k, out, None)
      requires ByteStep(d, end, after, decoded, err)
      ensures |after.input| < |d.input| || (after.input == d.input && err.Some?)
      ensures GoesOn(whole, after, end, k - |decoded|, out + decoded, err)
    {
      if err.None? {
        PrependTwice(Decode(after, end, k - |decoded|), out, decoded);
      }
    }

    /** `hash.Write`. */
    method Absorb(data: Bytes) returns (h: nat)
      ensures h == Fold(env.step, hash, data)
    {
      h := hash;
      for i := 0 to |data|
        invariant Fold(env.step, h, data[i..]) == Fold(env.step, hash, data)
      {
        assert data[i..][1..] == data[i + 1..];
        h := env.step(h, data[i]);
      }
    }

    /** Reads the rest of the footer line; stops at the first well-formed pcrc32 field. */
    method ParseFooter()
      modifies this`input, this`expectedCRC
      ensures input == old(input)[LineLength(old(input))..]
      ensures expectedCRC == FooterCRC(Fields(old(input)[..LineLength(old(input))]), old(expectedCRC))
    {
      var n := LineLength(input);
      var parts := Fields(input[..n]);
      input := input[n..];
      for i := 0 to |parts|
        invariant input == old(input)[n..]
        invariant FooterCRC(parts[i..], expectedCRC) == FooterCRC(parts, old(expectedCRC))
      {
        assert parts[i..][1..] == parts[i + 1..];
        var part := parts[i];
        if HasPrefix(part, PCRC32) {
          var crc := ParseHex32(part[|PCRC32|..]);
          if crc.Some? {
            expectedCRC := crc.value;
            return;
          }
        }
        if HasPrefix(part, CRC32) {
          var crc := ParseHex32(part[|CRC32|..]);
          if crc.Some? {
            expectedCRC := crc.value;
          }
        }
      }
    }

    method Verify() returns (err: Option<ChecksumMismatch>)
      ensures err.None? <==> Verified(State())
      ensures err.Some? ==> err.value == ChecksumMismatch(expectedCRC, hash)
    {
      if expectedCRC == 0 {
        return None;
      }
      if hash != expectedCRC {
        return Some(ChecksumMismatch(expectedCRC, hash));
      }
      return None;
    }
  }
}
