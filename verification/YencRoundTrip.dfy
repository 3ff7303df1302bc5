/** Encodings as specification: what a conforming body decodes to, and when a body can be misread. */
module YencRoundTrip {
  import opened Common
  import opened NumberText
  import opened TextLines
  import opened YencDecoding

  /** Encoded values that must not appear unescaped: NUL, LF, CR and '='. */
  predicate Critical(code: byte) {
    code in [0, LF, CR, EQUALS]
  }

  function Code(data: byte): byte {
    (data as int + 42) % 256
  }

  function EscapedCode(data: byte): byte {
    (data as int + 42 + 64) % 256
  }

  /** One item of an encoded body; an escaped item is two bytes on the wire. */
  datatype Token = Verbatim(data: byte) | Escaped(data: byte) | LineBreak(code: byte)
  {
    function Wire(): Bytes {
      match this
      case Verbatim(data) => [Code(data)]
      case Escaped(data) => [EQUALS, EscapedCode(data)]
      case LineBreak(code) => [code]
    }

    function Data(): Bytes {
      if LineBreak? then [] else [data]
    }

    /** What the yEnc draft 1.3 lets an encoder emit: NUL, LF, CR and '=' must be escaped; TAB, space and '.' may be. */
    predicate Conforming() {
      match this
      case Verbatim(data) => !Critical(Code(data))
      case Escaped(data) => Critical(Code(data)) || Code(data) in [TAB, SPACE, 46]
      case LineBreak(code) => code in [CR, LF]
    }

    /** What the decoder can tell apart: any byte may be escaped and NUL may be plain. */
    predicate Decodable() {
      match this
      case Verbatim(data) => Code(data) !in [LF, CR, EQUALS]
      case Escaped(_) => true
      case LineBreak(code) => code in [CR, LF]
    }
  }

  function Wire(tokens: seq<Token>): Bytes {
    if tokens == [] then [] else tokens[0].Wire() + Wire(tokens[1..])
  }

  function Payload(tokens: seq<Token>): Bytes {
    if tokens == [] then [] else tokens[0].Data() + Payload(tokens[1..])
  }

  /** Some escape pair together with what follows it on the wire spells "=yend". */
  predicate Misread(tokens: seq<Token>, tail: Bytes) {
    tokens != [] &&
    (HasPrefix(Wire(tokens) + tail, [EQUALS] + YEND) || Misread(tokens[1..], tail))
  }

  function Footer(footer: Bytes): Bytes {
    [EQUALS] + YEND + footer
  }

  /** A body followed by its footer line and whatever comes after that. */
  function Article(tokens: seq<Token>, footer: Bytes): Bytes {
    Wire(tokens) + Footer(footer)
  }

  /** The checksum announced by the footer line. */
  function Announced(footer: Bytes): nat {
    FooterCRC(Fields((YEND + footer)[..LineLength(YEND + footer)]), 0)
  }

  function Remainder(footer: Bytes): Bytes {
    (YEND + footer)[LineLength(YEND + footer)..]
  }

  /** A conforming encoder never writes an escape pair that starts like the footer. */
  lemma {:induction false} ConformingIsNotMisread(tokens: seq<Token>, tail: Bytes)
    requires forall t | t in tokens :: t.Conforming()
    ensures !Misread(tokens, tail)
    ensures forall t | t in tokens :: t.Decodable()
  {
    if tokens != [] {
      var t := tokens[0];
      assert t in tokens;
      var all := t.Wire() + (Wire(tokens[1..]) + tail);
      assert Wire(tokens) + tail == all;
      assert all[0] == t.Wire()[0];
      assert t.Escaped? ==> all[1] == t.Wire()[1];
      assert YEND[0] == 121;
      ConformingIsNotMisread(tokens[1..], tail);
    }
  }

  /** Decoding the wire form of `tokens` hands out their data and then goes on with `tail`, unless an escape pair is
      taken for the footer; then the output is cut short. */
  lemma {:induction false} DecodeTokens(tokens: seq<Token>, tail: Bytes, end: StreamEnd, hash: nat, k: nat)
    requires forall t | t in tokens :: t.Decodable()
    requires k > |Payload(tokens)|
    ensures var r := Decode(Fresh(Wire(tokens) + tail, hash), end, k);
            if Misread(tokens, tail)
            then |r.out| < |Payload(tokens)|
            else r == Decode(Fresh(tail, hash), end, k - |Payload(tokens)|).Prepend(Payload(tokens))
    decreases |tokens|
  {
    if tokens == [] {
      assert Wire(tokens) + tail == tail;
    } else {
      var t, rest := tokens[0], Wire(tokens[1..]) + tail;
      assert Wire(tokens) + tail == t.Wire() + rest;
      assert t in tokens;
      DecodeTokens(tokens[1..], tail, end, hash, k - |t.Data()|);
      DecodeOneToken(t, rest, end, hash, k);
      PrependTwice(Decode(Fresh(tail, hash), end, k - |Payload(tokens)|), t.Data(), Payload(tokens[1..]));
    }
  }

  lemma DecodeOneToken(t: Token, rest: Bytes, end: StreamEnd, hash: nat, k: nat)
    requires t.Decodable() && k > |t.Data()|
    ensures var r := Decode(Fresh(t.Wire() + rest, hash), end, k);
            if HasPrefix(t.Wire() + rest, [EQUALS] + YEND)
            then r.out == [] && t.Data() != []
            else r == Decode(Fresh(rest, hash), end, k - |t.Data()|).Prepend(t.Data())
  {
    var d := Fresh(t.Wire() + rest, hash);
    DecodeToken(t, rest, hash);
    FooterAheadIsPrefix(d);
    if FooterAhead(d) {
      assert d.input[0] == t.Wire()[0];
    } else if t.Escaped? {
      assert Decode(d, end, k) == Decode(Advanced(d), end, k).Prepend([]);
    }
  }

  lemma FooterAheadIsPrefix(d: Decoder)
    requires !d.escaped
    ensures FooterAhead(d) <==> HasPrefix(d.input, [EQUALS] + YEND)
  {
    if HasPrefix(d.input, [EQUALS] + YEND) {
      assert d.input[1..][..4] == YEND;
    }
    if FooterAhead(d) {
      assert d.input[..5] == [EQUALS] + YEND;
    }
  }

  /** One token's bytes advance the decoder by the token's data. */
  lemma DecodeToken(t: Token, rest: Bytes, hash: nat)
    requires t.Decodable()
    ensures var d := Fresh(t.Wire() + rest, hash);
            if t.Escaped?
            then Emitted(d) == [] && Emitted(Advanced(d)) == t.Data() && Advanced(Advanced(d)) == Fresh(rest, hash)
            else Emitted(d) == t.Data() && Advanced(d) == Fresh(rest, hash)
  {
    var input := t.Wire() + rest;
    match t
    case LineBreak(_) =>
      assert input[1..] == rest;
    case Verbatim(data) =>
      assert input[1..] == rest;
    case Escaped(data) =>
      assert input[1..][0] == EscapedCode(data) && input[1..][1..] == rest;
  }

  /** What reading leaves at the start of a footer line. */
  lemma DecodeFooter(footer: Bytes, end: StreamEnd, hash: nat, k: nat)
    requires k > 0
    ensures Decode(Fresh(Footer(footer), hash), end, k)
            == ReadResult([], Decoder(Remainder(footer), false, true, hash, Announced(footer)), Some(Eof))
  {
    FooterAheadIsPrefix(Fresh(Footer(footer), hash));
    assert Footer(footer)[1..] == YEND + footer;
  }

  /** One read with room for more than the data hands out the data, parses the footer and hashes exactly the data. */
  lemma DrainArticle(env: Reading, tokens: seq<Token>, footer: Bytes, hash: nat, k: nat)
    requires forall t | t in tokens :: t.Decodable()
    requires !Misread(tokens, Footer(footer))
    requires k > |Payload(tokens)|
    ensures ReadCall(env, Fresh(Article(tokens, footer), hash), k) == Drained(env, tokens, footer, hash)
  {
    DecodeTokens(tokens, Footer(footer), env.end, hash, k);
    DecodeFooter(footer, env.end, hash, k - |Payload(tokens)|);
  }

  /** A body without its footer is handed out whole, and then the stream's own end is reported. */
  lemma DrainTruncated(env: Reading, tokens: seq<Token>, hash: nat, k: nat)
    requires forall t | t in tokens :: t.Decodable()
    requires !Misread(tokens, [])
    requires k > |Payload(tokens)|
    ensures ReadCall(env, Fresh(Wire(tokens), hash), k)
            == ReadResult(Payload(tokens),
                          Decoder([], false, false, Fold(env.step, hash, Payload(tokens)), 0),
                          Some(env.end))
  {
    assert Wire(tokens) + [] == Wire(tokens);
    DecodeTokens(tokens, [], env.end, hash, k);
    assert Payload(tokens) + [] == Payload(tokens);
  }

  function Drained(env: Reading, tokens: seq<Token>, footer: Bytes, hash: nat): ReadResult {
    ReadResult(Payload(tokens),
               Decoder(Remainder(footer), false, true, Fold(env.step, hash, Payload(tokens)), Announced(footer)),
               Some(Eof))
  }

  /** Draining a body gives back its data exactly when no escape pair is taken for the footer. */
  lemma DrainIsInverse(env: Reading, tokens: seq<Token>, footer: Bytes, hash: nat, k: nat)
    requires forall t | t in tokens :: t.Decodable()
    requires k > |Payload(tokens)|
    ensures ReadCall(env, Fresh(Article(tokens, footer), hash), k).out == Payload(tokens)
            <==> !Misread(tokens, Footer(footer))
  {
    if Misread(tokens, Footer(footer)) {
      DecodeTokens(tokens, Footer(footer), env.end, hash, k);
    } else {
      DrainArticle(env, tokens, footer, hash, k);
    }
  }

  /** Such a body exists: the escaped byte 15 followed by the bytes 59, 68 and 58 is written `=yend`. */
  function Misreadable(): seq<Token> {
    [Escaped(15), Verbatim(59), Verbatim(68), Verbatim(58)]
  }

  /** An encoder that escapes more than it must can be misread, whatever the footer: of four bytes none comes out. */
  lemma OverEscapingIsMisread(env: Reading, footer: Bytes, hash: nat, k: nat)
    requires k > 4
    ensures (forall t | t in Misreadable() :: t.Decodable()) && Misread(Misreadable(), Footer(footer))
    ensures Payload(Misreadable()) == [15, 59, 68, 58]
    ensures ReadCall(env, Fresh(Article(Misreadable(), footer), hash), k).out == []
  {
    var tokens := Misreadable();
    MisreadableWire();
    var input := Article(tokens, footer);
    assert input[..5] == [EQUALS] + YEND;
    FooterAheadIsPrefix(Fresh(input, hash));
  }

  lemma MisreadableWire()
    ensures Wire(Misreadable()) == [EQUALS] + YEND && Payload(Misreadable()) == [15, 59, 68, 58]
  {
    var tokens := Misreadable();
    assert tokens[1..] == [Verbatim(59), Verbatim(68), Verbatim(58)];
    assert tokens[1..][1..] == [Verbatim(68), Verbatim(58)];
    assert tokens[1..][1..][1..] == [Verbatim(58)];
    assert tokens[1..][1..][1..][1..] == [];
  }

  /** Every conforming encoding decodes to its data, for every way of cutting the reads that leaves room for one
      byte more than the data; the footer is parsed and the hash has absorbed exactly the data. */
  lemma RoundTrip(env: Reading, tokens: seq<Token>, footer: Bytes, hash: nat, sizes: seq<nat>)
    requires forall t | t in tokens :: t.Conforming()
    requires Total(sizes) > |Payload(tokens)|
    ensures ReadCalls(env, Fresh(Article(tokens, footer), hash), sizes) == Drained(env, tokens, footer, hash)
  {
    ConformingIsNotMisread(tokens, Footer(footer));
    ChunkingIsInvisible(env, Fresh(Article(tokens, footer), hash), sizes);
    DrainArticle(env, tokens, footer, hash, Total(sizes));
  }

  function WithBreak(tokens: seq<Token>): (r: seq<Token>)
    ensures Payload(r) == Payload(tokens)
    ensures forall t | t in r :: t in tokens || t == LineBreak(CR) || t == LineBreak(LF)
  {
    var r := [LineBreak(CR), LineBreak(LF)] + tokens;
    assert r[1..] == [LineBreak(LF)] + tokens && r[1..][1..] == tokens;
    r
  }

  /** The encoder of the draft: escape the critical characters, break the line every `width` items. */
  function Encode(data: Bytes, width: nat, column: nat): (tokens: seq<Token>)
    ensures Payload(tokens) == data
    ensures forall t | t in tokens :: t.Conforming()
    decreases |data|
  {
    if data == [] then []
    else
      var token: Token := if Critical(Code(data[0])) then Escaped(data[0]) else Verbatim(data[0]);
      if width > 0 && column + 1 >= width then
        [token] + WithBreak(Encode(data[1..], width, 0))
      else
        [token] + Encode(data[1..], width, column + 1)
  }

  // ---------------------------------------------------------------- footers as they are written

  /** The field is `key` with the 32-bit number `v` in hexadecimal. */
  predicate Announces(field: Bytes, key: string, v: nat) {
    Ascii(key) <= field && v < 0x1_0000_0000 && WritesHex(field[|key|..], v)
  }

  /** Eight hexadecimal digits in any case make such a field. */
  lemma AnnouncesHex(key: string, v: nat, upper: seq<bool>)
    requires v < 0x1_0000_0000 && |upper| == 8
    ensures Announces(Ascii(key) + Hex(v, upper), key, v)
  {
    EightHexDigits(v, upper);
    assert (Ascii(key) + Hex(v, upper))[|key|..] == Hex(v, upper);
  }

  lemma FooterFieldExactly(field: Bytes, v: nat)
    ensures FooterField(field, PCRC32) == Some(v) <==> Announces(field, "pcrc32=", v)
    ensures FooterField(field, CRC32) == Some(v) <==> Announces(field, "crc32=", v)
  {
    assert PCRC32 == Ascii("pcrc32=") && CRC32 == Ascii("crc32=");
    if HasPrefix(field, PCRC32) {
      ParseHex32Exactly(field[7..], v);
    }
    if HasPrefix(field, CRC32) {
      ParseHex32Exactly(field[6..], v);
    }
  }

  lemma NotAnnounced(field: Bytes, key: string, prefix: Bytes)
    requires (key == "pcrc32=" && prefix == PCRC32) || (key == "crc32=" && prefix == CRC32)
    requires forall u: nat :: !Announces(field, key, u)
    ensures FooterField(field, prefix) == None
  {
    var r := FooterField(field, prefix);
    if r.Some? {
      FooterFieldExactly(field, r.value);
      assert false;
    }
  }

  lemma AnnouncedByFields(line: Written, after: Bytes)
    requires line.Valid()
    ensures Announced(line.Text() + after) == FooterCRC(line.fields, 0) && Remainder(line.Text() + after) == after
  {
    WrittenIsRead(YEND, line, after);
    var text := YEND + line.Text();
    assert YEND + (line.Text() + after) == text + after;
    assert (text + after)[..|text|] == text && (text + after)[|text|..] == after;
    assert ([YEND] + line.fields)[1..] == line.fields;
    assert !HasPrefix(YEND, PCRC32) && !HasPrefix(YEND, CRC32) by {
      assert YEND[0] == 121;
    }
  }

  ghost predicate Silent(fields: seq<Bytes>, key: string) {
    forall f, u: nat :: f in fields ==> !Announces(f, key, u)
  }

  /** The first checksum of the part among the fields is `v`. */
  ghost predicate SaysForPart(fields: seq<Bytes>, i: nat, v: nat) {
    && i < |fields| && Announces(fields[i], "pcrc32=", v)
    && forall j: nat, u: nat :: j < i ==> !Announces(fields[j], "pcrc32=", u)
  }

  /** There is no checksum of the part, and the last one of the whole file is `v`. */
  ghost predicate SaysForWhole(fields: seq<Bytes>, i: nat, v: nat) {
    && Silent(fields, "pcrc32=")
    && i < |fields| && Announces(fields[i], "crc32=", v)
    && forall j: nat, u: nat :: i < j < |fields| ==> !Announces(fields[j], "crc32=", u)
  }

  /** What a footer of these fields asks the checksum to be; zero where it asks nothing. */
  ghost predicate Says(fields: seq<Bytes>, v: nat) {
    || (exists i: nat :: SaysForPart(fields, i, v))
    || (exists i: nat :: SaysForWhole(fields, i, v))
    || (v == 0 && Silent(fields, "pcrc32=") && Silent(fields, "crc32="))
  }

  /** A drained conforming article gives its data, is consumed up to the end of its written footer line, and verifies
      exactly when that announces zero or the checksum of the data. */
  lemma VerifyIsExact(env: Reading, tokens: seq<Token>, line: Written, after: Bytes, v: nat, hash: nat, sizes: seq<nat>)
    requires forall t | t in tokens :: t.Conforming()
    requires Total(sizes) > |Payload(tokens)|
    requires line.Valid() && Says(line.fields, v)
    ensures var r := ReadCalls(env, Fresh(Article(tokens, line.Text() + after), hash), sizes);
            && r.out == Payload(tokens) && r.decoder.input == after
            && (Verified(r.decoder) <==> v == 0 || v == Fold(env.step, hash, Payload(tokens)))
  {
    RoundTrip(env, tokens, line.Text() + after, hash, sizes);
    AnnouncedIsSaid(line, after, v);
  }

  lemma AnnouncedIsSaid(line: Written, after: Bytes, v: nat)
    requires line.Valid() && Says(line.fields, v)
    ensures Announced(line.Text() + after) == v && Remainder(line.Text() + after) == after
  {
    AnnouncedByFields(line, after);
    var fields := line.fields;
    if i: nat :| SaysForPart(fields, i, v) {
      SaidForPart(fields, i, v);
    } else if i: nat :| SaysForWhole(fields, i, v) {
      SaidForWhole(fields, i, v);
    } else {
      forall f | f in fields ensures FooterField(f, PCRC32).None? && FooterField(f, CRC32).None? {
        NotAnnounced(f, "pcrc32=", PCRC32);
        NotAnnounced(f, "crc32=", CRC32);
      }
      NoChecksumKeeps(fields, 0);
    }
  }

  lemma SaidForPart(fields: seq<Bytes>, i: nat, v: nat)
    requires SaysForPart(fields, i, v)
    ensures FooterCRC(fields, 0) == v
  {
    FooterFieldExactly(fields[i], v);
    forall j: nat | j < i ensures FooterField(fields[j], PCRC32).None? {
      NotAnnounced(fields[j], "pcrc32=", PCRC32);
    }
    PartChecksumWins(fields, i, 0);
  }

  lemma SaidForWhole(fields: seq<Bytes>, i: nat, v: nat)
    requires SaysForWhole(fields, i, v)
    ensures FooterCRC(fields, 0) == v
  {
    FooterFieldExactly(fields[i], v);
    forall f | f in fields ensures FooterField(f, PCRC32).None? {
      NotAnnounced(f, "pcrc32=", PCRC32);
    }
    forall j: nat | i < j < |fields| ensures FooterField(fields[j], CRC32).None? {
      NotAnnounced(fields[j], "crc32=", CRC32);
    }
    LastWholeChecksumWins(fields, i, 0);
  }
}
