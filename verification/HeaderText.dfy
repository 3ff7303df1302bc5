/** Header lines as they are written, and what reading them gives back. */
module HeaderText {
  import opened Common
  import opened FileWriting
  import opened NumberText
  import opened TextLines
  import opened YencDecoding
  import opened YencHeaders

  /** The keywords and keys as text. */
  lemma Keywords()
    ensures YBEGIN == Ascii("=ybegin") && YPART == Ascii("=ypart") && [EQUALS] + YEND == Ascii("=yend")
    ensures PART == Ascii("part=") && TOTAL == Ascii("total=") && SIZE == Ascii("size=") && NAME == Ascii("name=")
    ensures BEGIN == Ascii("begin=") && END == Ascii("end=")
    ensures PCRC32 == Ascii("pcrc32=") && CRC32 == Ascii("crc32=")
    ensures [TAB, LF, CR, SPACE] == Ascii("\t\n\r ")
  {
  }

  predicate Fits64(v: int) {
    -0x8000_0000_0000_0000 <= v < 0x8000_0000_0000_0000
  }

  /** The field is `key` with the 64-bit number `v` in decimal. */
  predicate Gives(field: Bytes, key: string, v: int) {
    Ascii(key) <= field && Fits64(v) && WritesInt(field[|key|..], v)
  }

  /** The shortest decimal text makes such a field. */
  lemma GivesDecimal(key: string, n: nat)
    requires n < 0x8000_0000_0000_0000
    ensures Gives(Ascii(key) + Decimal(n), key, n)
  {
    DecimalWrites(n);
    assert (Ascii(key) + Decimal(n))[|key|..] == Decimal(n);
  }

  ghost predicate GivesNone(field: Bytes, key: string) {
    forall v :: !Gives(field, key, v)
  }

  lemma ValueExactly(field: Bytes, key: string, v: int)
    requires Ascii(key) <= field
    ensures ParseInt64(Value(field, Ascii(key))) == Some(v) <==> Gives(field, key, v)
  {
    ParseInt64Exactly(field[|key|..], v);
  }

  lemma ValueNone(field: Bytes, key: string)
    requires Ascii(key) <= field && GivesNone(field, key)
    ensures ParseInt64(Value(field, Ascii(key))) == None
  {
    var r := ParseInt64(Value(field, Ascii(key)));
    if r.Some? {
      ValueExactly(field, key, r.value);
      assert false;
    }
  }

  // ---------------------------------------------------------------- one field

  /** A field's first byte tells which of a line's keys it can start with. */
  lemma OneKey(field: Bytes, key: string)
    requires key != "" && Ascii(key) <= field
    ensures field[0] == key[0] as int % 256
  {
    assert Ascii(key)[0] == field[0];
  }

  /** What each field of a `=ybegin` line does. */
  lemma BeginFieldExactly(h: YencHeader, field: Bytes, v: int)
    ensures Gives(field, "part=", v) ==> WithBeginField(h, field) == if v > 0 then h.(partNumber := v) else h
    ensures Gives(field, "total=", v) ==> WithBeginField(h, field) == if v > 0 then h.(totalParts := v) else h
    ensures Gives(field, "size=", v) ==> WithBeginField(h, field) == h.(fileSize := v)
    ensures Ascii("name=") <= field ==> WithBeginField(h, field) == h.(fileName := field[5..])
  {
    Keywords();
    if Ascii("part=") <= field {
      OneKey(field, "part=");
      ValueExactly(field, "part=", v);
    }
    if Ascii("total=") <= field {
      OneKey(field, "total=");
      ValueExactly(field, "total=", v);
    }
    if Ascii("size=") <= field {
      OneKey(field, "size=");
      ValueExactly(field, "size=", v);
    }
    if Ascii("name=") <= field {
      OneKey(field, "name=");
    }
  }

  /** Any other field, and a number that is none or does not fit, leaves the header alone. */
  lemma OtherBeginField(h: YencHeader, field: Bytes)
    requires GivesNone(field, "part=") && GivesNone(field, "total=") && GivesNone(field, "size=")
    requires !(Ascii("name=") <= field)
    ensures WithBeginField(h, field) == h
  {
    Keywords();
    if Ascii("part=") <= field {
      ValueNone(field, "part=");
    } else if Ascii("total=") <= field {
      ValueNone(field, "total=");
    } else if Ascii("size=") <= field {
      ValueNone(field, "size=");
    }
  }

  /** What each field of a `=ypart` line does: positions count from one on the line and from zero in the header. */
  lemma PartFieldExactly(h: YencHeader, field: Bytes, v: int)
    ensures Gives(field, "begin=", v) ==> WithPartField(h, field) == h.(partOffset := Wrap64(v - 1))
    ensures Gives(field, "end=", v) ==> WithPartField(h, field) == if v > 0 then h.(partEnd := v) else h
  {
    Keywords();
    if Ascii("begin=") <= field {
      OneKey(field, "begin=");
      ValueExactly(field, "begin=", v);
    }
    if Ascii("end=") <= field {
      OneKey(field, "end=");
      ValueExactly(field, "end=", v);
    }
  }

  lemma OtherPartField(h: YencHeader, field: Bytes)
    requires GivesNone(field, "begin=") && GivesNone(field, "end=")
    ensures WithPartField(h, field) == h
  {
    Keywords();
    if Ascii("begin=") <= field {
      ValueNone(field, "begin=");
    } else if Ascii("end=") <= field {
      ValueNone(field, "end=");
    }
  }

  // ---------------------------------------------------------------- the fields of a line

  predicate Has(fields: seq<Bytes>, key: string) {
    exists f :: f in fields && Ascii(key) <= f
  }

  predicate Agree(fields: seq<Bytes>, key: string, v: int) {
    forall f :: f in fields && Ascii(key) <= f ==> Gives(f, key, v)
  }

  /** The fields with the key give the number, in one place or several; without a number there are none. */
  predicate Sets(fields: seq<Bytes>, key: string, o: Option<int>) {
    match o
    case Some(v) => Has(fields, key) && Agree(fields, key, v)
    case None => !Has(fields, key)
  }

  predicate Names(fields: seq<Bytes>, name: Bytes) {
    forall f :: f in fields && Ascii("name=") <= f ==> f == Ascii("name=") + name
  }

  function Or(o: Option<int>, other: int): int {
    if o.Some? then o.value else other
  }

  /** What a `=ybegin` line says; an article of a single part has neither part number nor total. */
  datatype BeginValues = BeginValues(part: Option<int>, total: Option<int>, size: Option<int>, name: Option<Bytes>)
  {
    /** Fields in any order that say so, among any others. */
    predicate WrittenAs(fields: seq<Bytes>) {
      && Sets(fields, "part=", part) && Or(part, 1) > 0
      && Sets(fields, "total=", total) && Or(total, 1) > 0
      && Sets(fields, "size=", size)
      && if name.Some? then Has(fields, "name=") && Names(fields, name.value) else !Has(fields, "name=")
    }
  }

  /** What a `=ypart` line says: the positions of the part's first and last byte, counted from one. */
  datatype PartValues = PartValues(begin: int, end: int)
  {
    predicate WrittenAs(fields: seq<Bytes>) {
      && Sets(fields, "begin=", Some(begin)) && begin > 0
      && Sets(fields, "end=", Some(end)) && end > 0
    }
  }

  lemma BeginStep(h: YencHeader, f: Bytes, part: int, total: int, size: int, name: Bytes)
    requires part > 0 && total > 0
    requires Agree([f], "part=", part) && Agree([f], "total=", total) && Agree([f], "size=", size) && Names([f], name)
    ensures WithBeginField(h, f)
            == YencHeader(if Ascii("part=") <= f then part else h.partNumber,
                          if Ascii("total=") <= f then total else h.totalParts,
                          h.partOffset, h.partEnd,
                          if Ascii("size=") <= f then size else h.fileSize,
                          if Ascii("name=") <= f then name else h.fileName)
  {
    assert f in [f];
    forall key | key in ["part=", "total=", "size=", "name="] && Ascii(key) <= f ensures f[0] == key[0] as int % 256 {
      OneKey(f, key);
    }
    BeginFieldExactly(h, f, part);
    BeginFieldExactly(h, f, total);
    BeginFieldExactly(h, f, size);
    if Ascii("name=") <= f {
      assert f[5..] == name;
    } else if !(Ascii("part=") <= f) && !(Ascii("total=") <= f) && !(Ascii("size=") <= f) {
      OtherBeginField(h, f);
    }
  }

  lemma PartStep(h: YencHeader, f: Bytes, begin: int, end: int)
    requires begin > 0 && end > 0
    requires Agree([f], "begin=", begin) && Agree([f], "end=", end)
    ensures WithPartField(h, f) == h.(partOffset := if Ascii("begin=") <= f then begin - 1 else h.partOffset,
                                      partEnd := if Ascii("end=") <= f then end else h.partEnd)
  {
    assert f in [f];
    forall key | key in ["begin=", "end="] && Ascii(key) <= f ensures f[0] == key[0] as int % 256 {
      OneKey(f, key);
    }
    PartFieldExactly(h, f, begin);
    PartFieldExactly(h, f, end);
    if !(Ascii("begin=") <= f) && !(Ascii("end=") <= f) {
      OtherPartField(h, f);
    }
  }

  lemma HasStep(fields: seq<Bytes>, key: string)
    requires fields != []
    ensures Has(fields, key) <==> Ascii(key) <= fields[0] || Has(fields[1..], key)
  {
    assert fields[0] in fields;
    if Has(fields, key) {
      var f :| f in fields && Ascii(key) <= f;
      assert f == fields[0] || f in fields[1..];
    }
    if Has(fields[1..], key) {
      var f :| f in fields[1..] && Ascii(key) <= f;
      assert f in fields && Has(fields, key);
    }
  }

  lemma {:induction false} BeginFieldsGive(h: YencHeader, fields: seq<Bytes>, part: int, total: int, size: int, name: Bytes)
    requires part > 0 && total > 0
    requires Agree(fields, "part=", part) && Agree(fields, "total=", total) && Agree(fields, "size=", size)
    requires Names(fields, name)
    ensures WithBeginFields(h, fields)
            == YencHeader(if Has(fields, "part=") then part else h.partNumber,
                          if Has(fields, "total=") then total else h.totalParts,
                          h.partOffset, h.partEnd,
                          if Has(fields, "size=") then size else h.fileSize,
                          if Has(fields, "name=") then name else h.fileName)
    decreases |fields|
  {
    if fields != [] {
      var f := fields[0];
      assert f in fields;
      assert forall g | g in fields[1..] :: g in fields;
      BeginStep(h, f, part, total, size, name);
      BeginFieldsGive(WithBeginField(h, f), fields[1..], part, total, size, name);
      HasStep(fields, "part=");
      HasStep(fields, "total=");
      HasStep(fields, "size=");
      HasStep(fields, "name=");
    }
  }

  lemma {:induction false} PartFieldsGive(h: YencHeader, fields: seq<Bytes>, begin: int, end: int)
    requires begin > 0 && end > 0
    requires Agree(fields, "begin=", begin) && Agree(fields, "end=", end)
    ensures WithPartFields(h, fields)
            == h.(partOffset := if Has(fields, "begin=") then begin - 1 else h.partOffset,
                  partEnd := if Has(fields, "end=") then end else h.partEnd)
    decreases |fields|
  {
    if fields != [] {
      PartStep(h, fields[0], begin, end);
      PartFieldsGive(WithPartField(h, fields[0]), fields[1..], begin, end);
      HasStep(fields, "begin=");
      HasStep(fields, "end=");
    }
  }

  // ---------------------------------------------------------------- the lines of an article

  /** A line that is no header: its only newline is its last byte, and it does not start with "=ybegin". */
  predicate OtherLine(line: Bytes) {
    && line != [] && line[|line| - 1] == 10
    && (forall i :: 0 <= i < |line| - 1 ==> line[i] != 10)
    && !(Ascii("=ybegin") <= line)
  }

  lemma OtherLineLength(line: Bytes, rest: Bytes)
    requires OtherLine(line)
    ensures LineLength(line + rest) == |line| && HasNewline(line + rest) && (line + rest)[..|line|] == line
    ensures (line + rest)[|line|..] == rest
  {
    var front := line[..|line| - 1];
    assert line + rest == front + ([10] + rest);
    LineLengthWithin(front, [10] + rest);
  }

  /** The search skips other lines. */
  lemma {:induction false} FindSkips(before: seq<Bytes>, rest: Bytes)
    requires forall line | line in before :: OtherLine(line)
    ensures FindHeader(Concat(before) + rest) == FindHeader(rest)
    decreases |before|
  {
    if before == [] {
      assert Concat(before) + rest == rest;
    } else {
      var line, more := before[0], Concat(before[1..]) + rest;
      assert line in before;
      Keywords();
      assert Concat(before) + rest == line + more;
      OtherLineLength(line, more);
      FindSkips(before[1..], rest);
    }
  }

  lemma FindWritten(line: Written, rest: Bytes)
    requires line.Valid()
    ensures FindHeader(Ascii("=ybegin") + line.Text() + rest) == Some(Split(Ascii("=ybegin") + line.Text(), rest))
  {
    Keywords();
    WrittenIsRead(Ascii("=ybegin"), line, rest);
    Prefixed(Ascii("=ybegin"), line.Text(), rest);
    Prefixed(Ascii("=ybegin"), line.Text(), []);
  }

  lemma BeginLineGives(h: YencHeader, line: Written, b: BeginValues)
    requires line.Valid() && b.WrittenAs(line.fields)
    ensures WithBeginFields(h, Fields(Ascii("=ybegin") + line.Text()))
            == YencHeader(Or(b.part, h.partNumber), Or(b.total, h.totalParts), h.partOffset, h.partEnd,
                          Or(b.size, h.fileSize), if b.name.Some? then b.name.value else h.fileName)
  {
    var word := YBEGIN;
    Keywords();
    WrittenIsRead(word, line, []);
    assert word[0] == 61;
    assert ([word] + line.fields)[1..] == line.fields;
    OtherBeginField(h, word);
    BeginFieldsGive(h, line.fields, Or(b.part, 1), Or(b.total, 1), Or(b.size, 0), if b.name.Some? then b.name.value else []);
  }

  lemma PartLineGives(h: YencHeader, line: Written, p: PartValues)
    requires line.Valid() && p.WrittenAs(line.fields)
    ensures WithPartFields(h, Fields(Ascii("=ypart") + line.Text())) == h.(partOffset := p.begin - 1, partEnd := p.end)
  {
    var word := YPART;
    Keywords();
    WrittenIsRead(word, line, []);
    assert word[0] == 61;
    assert ([word] + line.fields)[1..] == line.fields;
    OtherPartField(h, word);
    PartFieldsGive(h, line.fields, p.begin, p.end);
  }

  /** What comes before the data of an article: other lines, the `=ybegin` line and, for a part of a file, the `=ypart`
      line. */
  function Head(before: seq<Bytes>, first: Written): Bytes
    requires first.Valid()
  {
    Concat(before) + (Ascii("=ybegin") + first.Text())
  }

  /** Reading written header lines gives what was written, with the part's place counted from zero, and leaves the rest. */
  lemma HeaderIsReadBack(before: seq<Bytes>, first: Written, b: BeginValues, second: Written, p: PartValues,
                         rest: Bytes, end: StreamEnd)
    requires forall line | line in before :: OtherLine(line)
    requires first.Valid() && b.WrittenAs(first.fields)
    requires second.Valid() && p.WrittenAs(second.fields)
    ensures var h := YencHeader(Or(b.part, 0), Or(b.total, 0), p.begin - 1, p.end, Or(b.size, 0),
                                if b.name.Some? then b.name.value else []);
            ReadHeader(Head(before, first) + (Ascii("=ypart") + second.Text()) + rest, end, NO_HEADER)
            == HeaderResult(h, rest, None)
  {
    var text := Ascii("=ypart") + second.Text();
    ReadHead(before, first, b, text + rest, end);
    assert Head(before, first) + text + rest == Head(before, first) + (text + rest);
    ReadPartLine(BeginHeader(b), second, p, rest, end);
  }

  lemma ReadPartLine(h: YencHeader, line: Written, p: PartValues, rest: Bytes, end: StreamEnd)
    requires line.Valid() && p.WrittenAs(line.fields)
    ensures ReadPart((Ascii("=ypart") + line.Text()) + rest, end, h)
            == HeaderResult(h.(partOffset := p.begin - 1, partEnd := p.end), rest, None)
  {
    var word := YPART;
    Keywords();
    WrittenIsRead(word, line, rest);
    PartLineGives(h, line, p);
    Prefixed(word, line.Text(), rest);
  }

  lemma Prefixed(word: Bytes, text: Bytes, rest: Bytes)
    ensures word <= word + text + rest
    ensures (word + text + rest)[..|word + text|] == word + text && (word + text + rest)[|word + text|..] == rest
  {
    assert (word + text + rest)[..|word|] == word;
  }

  /** What the `=ybegin` line alone gives. */
  function BeginHeader(b: BeginValues): YencHeader {
    YencHeader(Or(b.part, 0), Or(b.total, 0), 0, 0, Or(b.size, 0), if b.name.Some? then b.name.value else [])
  }

  lemma ReadHead(before: seq<Bytes>, first: Written, b: BeginValues, rest: Bytes, end: StreamEnd)
    requires forall line | line in before :: OtherLine(line)
    requires first.Valid() && b.WrittenAs(first.fields)
    ensures ReadHeader(Head(before, first) + rest, end, NO_HEADER) == ReadPart(rest, end, BeginHeader(b))
  {
    var text := Ascii("=ybegin") + first.Text();
    assert Head(before, first) + rest == Concat(before) + (text + rest);
    FindSkips(before, text + rest);
    FindWritten(first, rest);
    BeginLineGives(NO_HEADER, first, b);
  }

  /** Without a `=ypart` line the part's place stays zero. */
  lemma HeaderWithoutPartLine(before: seq<Bytes>, first: Written, b: BeginValues, rest: Bytes, end: StreamEnd)
    requires forall line | line in before :: OtherLine(line)
    requires first.Valid() && b.WrittenAs(first.fields)
    requires !(Ascii("=ypart") <= rest)
    ensures ReadHeader(Head(before, first) + rest, end, NO_HEADER)
            == HeaderResult(YencHeader(Or(b.part, 0), Or(b.total, 0), 0, 0, Or(b.size, 0),
                                       if b.name.Some? then b.name.value else []), rest, None)
  {
    ReadHead(before, first, b, rest, end);
    Keywords();
  }

  /** A `=ypart` line that is not finished uses up the stream, whose end is reported. */
  lemma UnfinishedPartLine(before: seq<Bytes>, first: Written, b: BeginValues, tail: Bytes, end: StreamEnd)
    requires forall line | line in before :: OtherLine(line)
    requires first.Valid() && b.WrittenAs(first.fields)
    requires Ascii("=ypart") <= tail && forall i :: 0 <= i < |tail| ==> tail[i] != 10
    ensures ReadHeader(Head(before, first) + tail, end, NO_HEADER) == HeaderResult(BeginHeader(b), [], Some(end))
  {
    ReadHead(before, first, b, tail, end);
    Keywords();
    LineLengthWithin(tail, []);
    assert tail + [] == tail;
  }

  /** A stream without a header line is used up, and its own end is reported. */
  lemma NoHeaderLine(before: seq<Bytes>, tail: Bytes, end: StreamEnd)
    requires forall line | line in before :: OtherLine(line)
    requires forall i :: 0 <= i < |tail| ==> tail[i] != 10
    ensures ReadHeader(Concat(before) + tail, end, NO_HEADER) == HeaderResult(NO_HEADER, [], Some(end))
  {
    FindSkips(before, tail);
    LineLengthWithin(tail, []);
    assert tail + [] == tail;
  }

  // ---------------------------------------------------------------- the prefix scan on written articles

  /** The scan of an article keeps everything up to its header line, or as many bytes as it may, and reports no error;
      without a limit of the caller's it may keep 8192 bytes. */
  lemma PrefixEndsAfterHead(before: seq<Bytes>, first: Written, rest: Bytes, maxBytes: int, end: StreamEnd)
    requires forall line | line in before :: OtherLine(line)
    requires first.Valid()
    ensures var limit: int := if maxBytes <= 0 then 8192 else maxBytes;
            var head, body := Head(before, first), Head(before, first) + rest;
            && body[..PrefixLength(body, Limit(maxBytes))] == (if |head| <= limit then head else head[..limit])
            && !ScanFails(body, Limit(maxBytes), end)
  {
    var text := Ascii("=ybegin") + first.Text();
    assert Head(before, first) + rest == Concat(before) + (text + rest);
    FindSkips(before, text + rest);
    FindWritten(first, rest);
  }

  /** Without a header line the scan keeps what it may, and a broken stream is reported unless the limit was reached or
      the unfinished last line starts like a header. */
  lemma PrefixWithoutHead(before: seq<Bytes>, tail: Bytes, maxBytes: int, end: StreamEnd)
    requires forall line | line in before :: OtherLine(line)
    requires forall i :: 0 <= i < |tail| ==> tail[i] != 10
    ensures var limit: int := if maxBytes <= 0 then 8192 else maxBytes;
            var body := Concat(before) + tail;
            && body[..PrefixLength(body, Limit(maxBytes))] == (if |body| <= limit then body else body[..limit])
            && (ScanFails(body, Limit(maxBytes), end)
                <==> end != Eof && |body| < limit && !(Ascii("=ybegin") <= tail))
  {
    FindSkips(before, tail);
    LineLengthWithin(tail, []);
    assert tail + [] == tail;
    LastOfLines(before, tail);
    Keywords();
  }

  lemma {:induction false} LastOfLines(before: seq<Bytes>, tail: Bytes)
    requires forall line | line in before :: OtherLine(line)
    requires forall i :: 0 <= i < |tail| ==> tail[i] != 10
    ensures LastLine(Concat(before) + tail) == tail
    decreases |before|
  {
    if before == [] {
      assert Concat(before) + tail == tail;
      LineLengthWithin(tail, []);
      assert tail + [] == tail;
    } else {
      assert before[0] in before;
      assert Concat(before) + tail == before[0] + (Concat(before[1..]) + tail);
      OtherLineLength(before[0], Concat(before[1..]) + tail);
      LastOfLines(before[1..], tail);
    }
  }
}
