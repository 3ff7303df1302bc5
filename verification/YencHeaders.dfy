/** The `=ybegin` / `=ypart` header lines, and the prefix scan that fetches just enough of a body to read them. */
module YencHeaders {
  import opened Common
  import opened TextLines
  import opened YencDecoding

  /** "=ybegin" */
  const YBEGIN: Bytes := [61, 121, 98, 101, 103, 105, 110]
  /** "=ypart" */
  const YPART: Bytes := [61, 121, 112, 97, 114, 116]
  /** "part=" */
  const PART: Bytes := [112, 97, 114, 116, 61]
  /** "total=" */
  const TOTAL: Bytes := [116, 111, 116, 97, 108, 61]
  /** "size=" */
  const SIZE: Bytes := [115, 105, 122, 101, 61]
  /** "name=" */
  const NAME: Bytes := [110, 97, 109, 101, 61]
  /** "begin=" */
  const BEGIN: Bytes := [98, 101, 103, 105, 110, 61]
  /** "end=" */
  const END: Bytes := [101, 110, 100, 61]

  const DEFAULT_PREFIX_LIMIT := 8192

  datatype YencHeader = YencHeader(
    partNumber: int, totalParts: int, partOffset: int, partEnd: int, fileSize: int, fileName: Bytes)

  const NO_HEADER := YencHeader(0, 0, 0, 0, 0, [])

  function Value(field: Bytes, key: Bytes): Bytes
    requires HasPrefix(field, key)
  {
    field[|key|..]
  }

  function WithBeginField(h: YencHeader, field: Bytes): YencHeader {
    if HasPrefix(field, PART) then
      var v := ParseInt64(Value(field, PART));
      if v.Some? && v.value > 0 then h.(partNumber := v.value) else h
    else if HasPrefix(field, TOTAL) then
      var v := ParseInt64(Value(field, TOTAL));
      if v.Some? && v.value > 0 then h.(totalParts := v.value) else h
    else if HasPrefix(field, SIZE) then
      var v := ParseInt64(Value(field, SIZE));
      if v.Some? then h.(fileSize := v.value) else h
    else if HasPrefix(field, NAME) then h.(fileName := Value(field, NAME))
    else h
  }

  function WithBeginFields(h: YencHeader, fields: seq<Bytes>): YencHeader
    decreases |fields|
  {
    if fields == [] then h
    else WithBeginFields(WithBeginField(h, fields[0]), fields[1..])
  }

  function WithPartField(h: YencHeader, field: Bytes): YencHeader {
    var begin := if HasPrefix(field, BEGIN) then ParseInt64(Value(field, BEGIN)) else None;
    var end := if HasPrefix(field, END) then ParseInt64(Value(field, END)) else None;
    var h1 := if begin.Some? then h.(partOffset := Wrap64(begin.value - 1)) else h;
    if end.Some? && end.value > 0 then h1.(partEnd := end.value) else h1
  }

  function WithPartFields(h: YencHeader, fields: seq<Bytes>): YencHeader
    decreases |fields|
  {
    if fields == [] then h
    else WithPartFields(WithPartField(h, fields[0]), fields[1..])
  }

  datatype Split = Split(line: Bytes, rest: Bytes)

  /** The first terminated line that starts with "=ybegin", and what follows it. */
  function FindHeader(s: Bytes): (r: Option<Split>)
    ensures r.Some? ==> |r.value.rest| < |s|
    decreases |s|
  {
    if !HasNewline(s) then None
    else
      var line, rest := s[..LineLength(s)], s[LineLength(s)..];
      if HasPrefix(line, YBEGIN) then Some(Split(line, rest)) else FindHeader(rest)
  }

  /** Position just after that line. */
  function HeaderEnd(s: Bytes): (r: Option<nat>)
    ensures r.Some? ==> 0 < r.value <= |s|
  {
    if FindHeader(s).Some? then Some(|s| - |FindHeader(s).value.rest|) else None
  }

  /** A header with the unread input and the error of the call that read it. */
  datatype HeaderResult = HeaderResult(header: YencHeader, rest: Bytes, err: Option<StreamEnd>)

  function ReadPart(s: Bytes, end: StreamEnd, h: YencHeader): HeaderResult {
    if !HasPrefix(s, YPART) then HeaderResult(h, s, None)
    else if !HasNewline(s) then HeaderResult(h, [], Some(end))
    else
      var n := LineLength(s);
      HeaderResult(WithPartFields(h, Fields(s[..n])), s[n..], None)
  }

  function ReadHeader(s: Bytes, end: StreamEnd, h: YencHeader): HeaderResult {
    match FindHeader(s)
    case None => HeaderResult(h, [], Some(end))
    case Some(Split(line, rest)) => ReadPart(rest, end, WithBeginFields(h, Fields(line)))
  }

  // ---------------------------------------------------------------- the loops over a line's fields

  method ParseYbeginLine(line: Bytes, header: YencHeader) returns (h: YencHeader)
    ensures h == WithBeginFields(header, Fields(line))
  {
    var parts := Fields(line);
    h := header;
    for i := 0 to |parts|
      invariant WithBeginFields(h, parts[i..]) == WithBeginFields(header, parts)
    {
      assert parts[i..][1..] == parts[i + 1..];
      h := ParseYbeginField(parts[i], h);
    }
  }

  method ParseYbeginField(part: Bytes, header: YencHeader) returns (h: YencHeader)
    ensures h == WithBeginField(header, part)
  {
    h := header;
    if HasPrefix(part, PART) {
      var parsed := ParseInt64(Value(part, PART));
      if parsed.Some? && parsed.value > 0 {
        h := h.(partNumber := parsed.value);
      }
      return;
    }
    if HasPrefix(part, TOTAL) {
      var parsed := ParseInt64(Value(part, TOTAL));
      if parsed.Some? && parsed.value > 0 {
        h := h.(totalParts := parsed.value);
      }
      return;
    }
    if HasPrefix(part, SIZE) {
      var size := ParseInt64(Value(part, SIZE));
      if size.Some? {
        h := h.(fileSize := size.value);
      }
      return;
    }
    if HasPrefix(part, NAME) {
      h := h.(fileName := Value(part, NAME));
    }
  }

  method ParseYpartLine(line: Bytes, header: YencHeader) returns (h: YencHeader)
    ensures h == WithPartFields(header, Fields(line))
  {
    var parts := Fields(line);
    h := header;
    for i := 0 to |parts|
      invariant WithPartFields(h, parts[i..]) == WithPartFields(header, parts)
    {
      assert parts[i..][1..] == parts[i + 1..];
      h := ParseYpartField(parts[i], h);
    }
  }

  method ParseYpartField(part: Bytes, header: YencHeader) returns (h: YencHeader)
    ensures h == WithPartField(header, part)
  {
    h := header;
    if HasPrefix(part, BEGIN) {
      var offset := ParseInt64(Value(part, BEGIN));
      if offset.Some? {
        h := h.(partOffset := Wrap64(offset.value - 1));
      }
    }
    if HasPrefix(part, END) {
      var end := ParseInt64(Value(part, END));
      if end.Some? && end.value > 0 {
        h := h.(partEnd := end.value);
      }
    }
  }

  // ---------------------------------------------------------------- the prefix scan

  function Limit(maxBytes: int): (limit: nat)
    ensures limit > 0
  {
    if maxBytes <= 0 then DEFAULT_PREFIX_LIMIT else maxBytes
  }

  /** The scan stops at the end of the first header line if that fits, and else at the limit or the stream's end. */
  function PrefixLength(s: Bytes, limit: nat): (n: nat)
    ensures n <= |s| && n <= limit
  {
    var end := HeaderEnd(s);
    if end.Some? && end.value <= limit then end.value else Min(|s|, limit)
  }

  /** The text after the last newline. */
  function LastLine(s: Bytes): Bytes
    decreases |s|
  {
    if HasNewline(s) then LastLine(s[LineLength(s)..]) else s
  }

  /** A broken stream is reported unless the scan had already stopped for another reason. */
  predicate ScanFails(s: Bytes, limit: nat, end: StreamEnd) {
    end != Eof && HeaderEnd(s).None? && |s| < limit && !HasPrefix(LastLine(s), YBEGIN)
  }

  method ReadBodyPrefixUntilYBegin(body: Bytes, end: StreamEnd, maxBytes: int)
    returns (data: Bytes, err: Option<StreamEnd>)
    ensures data == body[..PrefixLength(body, Limit(maxBytes))]
    ensures err == if ScanFails(body, Limit(maxBytes), end) then Some(end) else None
  {
    var limit := Limit(maxBytes);
    var unread := body;
    ghost var total, fails := PrefixLength(body, limit), ScanFails(body, limit, end);
    data := [];
    while |data| < limit
      invariant |data| <= limit && body == data + unread
      invariant total == |data| + PrefixLength(unread, limit - |data|)
      invariant fails == ScanFails(unread, limit - |data|, end)
      decreases |unread|
    {
      var kept, stop;
      kept, stop, err := ScanLine(unread, limit - |data|, end);
      Advance(data, unread, kept);
      data, unread := data + unread[..kept], unread[kept..];
      if stop {
        return;
      }
    }
    return data, None;
  }

  lemma Advance(done: Bytes, left: Bytes, n: nat)
    requires n <= |left|
    ensures (done + left[..n]) + left[n..] == done + left
  {
  }

  /** The body of that loop: how many bytes of the next line are kept, and whether the scan ends there. */
  method ScanLine(unread: Bytes, remaining: nat, end: StreamEnd) returns (kept: nat, stop: bool, err: Option<StreamEnd>)
    requires remaining > 0
    ensures kept <= |unread| && kept <= remaining && (stop || kept > 0)
    ensures PrefixLength(unread, remaining) == kept + if stop then 0 else PrefixLength(unread[kept..], remaining - kept)
    ensures stop ==> err == if ScanFails(unread, remaining, end) then Some(end) else None
    ensures !stop ==> err == None && ScanFails(unread, remaining, end) == ScanFails(unread[kept..], remaining - kept, end)
  {
    var n := LineLength(unread);
    var line, failed := unread[..n], !HasNewline(unread);
    ScanStep(unread, remaining, end);
    kept := 0;
    if |line| > 0 {
      if |line| > remaining {
        kept := remaining;
      } else {
        kept := |line|;
      }
      if HasPrefix(line, YBEGIN) || kept >= remaining {
        return kept, true, None;
      }
    }
    if failed {
      if end == Eof {
        return kept, true, None;
      }
      return kept, true, Some(end);
    }
    return kept, false, None;
  }

  /** One line of the scan. */
  lemma ScanStep(s: Bytes, limit: nat, end: StreamEnd)
    requires limit > 0
    ensures var n := LineLength(s);
            if n >= limit then PrefixLength(s, limit) == limit && !ScanFails(s, limit, end)
            else if n > 0 && HasPrefix(s[..n], YBEGIN) then PrefixLength(s, limit) == n && !ScanFails(s, limit, end)
            else if !HasNewline(s) then PrefixLength(s, limit) == n && (ScanFails(s, limit, end) <==> end != Eof)
            else && PrefixLength(s, limit) == n + PrefixLength(s[n..], limit - n)
                 && (ScanFails(s, limit, end) <==> ScanFails(s[n..], limit - n, end))
  {
    HeaderEndFirstLine(s);
    var n := LineLength(s);
    assert !HasNewline(s) ==> s[..n] == s;
  }

  lemma HeaderEndFirstLine(s: Bytes)
    ensures HeaderEnd(s).Some? ==> HeaderEnd(s).value >= LineLength(s)
  {
  }

  /** Reading the header from the scanned prefix gives what the whole body gives, except for the `=ypart` range. */
  lemma PrefixKeepsHeader(body: Bytes, end: StreamEnd, maxBytes: int)
    requires HeaderEnd(body).Some? && HeaderEnd(body).value <= Limit(maxBytes)
    ensures var prefix := body[..PrefixLength(body, Limit(maxBytes))];
            var short, full := ReadHeader(prefix, Eof, NO_HEADER), ReadHeader(body, end, NO_HEADER);
            && |prefix| == HeaderEnd(body).value
            && short.err == None && short.rest == []
            && short.header == full.header.(partOffset := 0, partEnd := 0)
  {
    var Split(line, rest) := FindHeader(body).value;
    var h := WithBeginFields(NO_HEADER, Fields(line));
    FindHeaderInPrefix(body);
    assert ReadHeader(body[..HeaderEnd(body).value], Eof, NO_HEADER) == HeaderResult(h, [], None);
    BeginFieldsKeepRange(NO_HEADER, Fields(line));
    ReadPartKeepsRest(rest, end, h);
  }

  lemma ReadPartKeepsRest(s: Bytes, end: StreamEnd, h: YencHeader)
    ensures ReadPart(s, end, h).header.(partOffset := h.partOffset, partEnd := h.partEnd) == h
  {
    PartFieldsKeepRest(h, Fields(s[..LineLength(s)]));
  }

  lemma {:induction false} FindHeaderInPrefix(s: Bytes)
    requires FindHeader(s).Some?
    ensures FindHeader(s[..HeaderEnd(s).value]) == Some(Split(FindHeader(s).value.line, []))
    decreases |s|
  {
    var n, e := LineLength(s), HeaderEnd(s).value;
    var prefix, rest := s[..e], s[n..];
    HeaderEndFirstLine(s);
    LineLengthOfPrefix(s, e);
    assert HasNewline(prefix) && prefix[..n] == s[..n];
    if HasPrefix(s[..n], YBEGIN) {
      assert prefix[n..] == [];
    } else {
      FindHeaderInPrefix(rest);
      assert prefix[n..] == rest[..HeaderEnd(rest).value];
    }
  }

  lemma {:induction false} LineLengthOfPrefix(s: Bytes, e: nat)
    requires LineLength(s) <= e <= |s|
    ensures LineLength(s[..e]) == LineLength(s)
  {
    if s != [] && s[0] != LF {
      assert s[..e][1..] == s[1..][..e - 1];
      LineLengthOfPrefix(s[1..], e - 1);
    }
  }

  lemma {:induction false} BeginFieldsKeepRange(h: YencHeader, fields: seq<Bytes>)
    ensures WithBeginFields(h, fields).partOffset == h.partOffset && WithBeginFields(h, fields).partEnd == h.partEnd
    decreases |fields|
  {
    if fields != [] {
      BeginFieldsKeepRange(WithBeginField(h, fields[0]), fields[1..]);
    }
  }

  lemma {:induction false} PartFieldsKeepRest(h: YencHeader, fields: seq<Bytes>)
    ensures WithPartFields(h, fields).(partOffset := h.partOffset, partEnd := h.partEnd) == h
    decreases |fields|
  {
    if fields != [] {
      PartFieldsKeepRest(WithPartField(h, fields[0]), fields[1..]);
    }
  }
}
