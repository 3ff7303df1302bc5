/** What a finished file holds: the exact meaning of one segment's success, and order-independence over a whole file. */
module FileAssembly {
  import opened Common
  import opened YencDecoding
  import opened YencRoundTrip
  import opened YencHeaders
  import opened YencReader
  import opened FileWriting
  import opened SegmentProcessing

  // ---------------------------------------------------------------- one segment

  lemma {:induction false} NoErrorKeepsAnnouncement(d: Decoder, end: StreamEnd, k: nat)
    requires Decode(d, end, k).err != Some(Eof) || (d.input == [] && !d.reachedEnd)
    ensures Decode(d, end, k).decoder.expectedCRC == d.expectedCRC
    decreases |d.input|
  {
    if !d.reachedEnd && k > 0 && d.input != [] && !FooterAhead(d) {
      NoErrorKeepsAnnouncement(Advanced(d), end, k - |Emitted(d)|);
    }
  }

  /** A buffer that the data fills is filled with the data's front, before any footer is seen. */
  lemma FullBuffer(tokens: seq<Token>, tail: Bytes, end: StreamEnd, hash: nat, k: nat)
    requires forall t | t in tokens :: t.Decodable()
    requires !Misread(tokens, tail) && k <= |Payload(tokens)|
    ensures var r := Decode(Fresh(Wire(tokens) + tail, hash), end, k);
            r.out == Payload(tokens)[..k] && r.err == None && r.decoder.expectedCRC == 0
  {
    var data := Payload(tokens);
    DecodeTokens(tokens, tail, end, hash, |data| + 1);
    FilledRead(Fresh(Wire(tokens) + tail, hash), end, k, data, Decode(Fresh(tail, hash), end, 1));
  }

  lemma FilledRead(d: Decoder, end: StreamEnd, k: nat, data: Bytes, rest: ReadResult)
    requires !d.reachedEnd && k <= |data|
    requires Decode(d, end, |data| + 1) == rest.Prepend(data)
    ensures var r := Decode(d, end, k);
            r.out == data[..k] && r.err == None && r.decoder.expectedCRC == d.expectedCRC
  {
    ShorterRead(d, end, k, |data| + 1);
    NoErrorKeepsAnnouncement(d, end, k);
    assert (data + rest.out)[..k] == data[..k];
  }

  /** A read that asks for no more than a longer read delivers is filled with the front of what that delivers. */
  lemma ShorterRead(d: Decoder, end: StreamEnd, k: nat, longer: nat)
    requires !d.reachedEnd && k <= longer && k <= |Decode(d, end, longer).out|
    ensures Decode(d, end, k).err == None && Decode(d, end, k).out == Decode(d, end, longer).out[..k]
  {
    DecodeSplit(d, end, k, longer - k);
    ErrorMeansShort(d, end, k);
  }

  lemma {:induction false} ErrorMeansShort(d: Decoder, end: StreamEnd, k: nat)
    requires !d.reachedEnd
    ensures Decode(d, end, k).err.Some? ==> |Decode(d, end, k).out| < k
    decreases |d.input|
  {
    if k > 0 && d.input != [] && !FooterAhead(d) {
      ErrorMeansShort(Advanced(d), end, k - |Emitted(d)|);
    }
  }

  /** The exact outcome for an article with a footer: the announced checksum is compared only when the listed size
      exceeds the decoded size; otherwise the front of the data is accepted as it is. */
  lemma ArticleOutcome(env: Reading, job: Job, input: Bytes, h: YencHeader, tokens: seq<Token>, footer: Bytes)
    requires ReadHeader(input, env.end, NO_HEADER) == HeaderResult(h, Article(tokens, footer), None)
    requires forall t | t in tokens :: t.Decodable()
    requires !Misread(tokens, Footer(footer))
    ensures var offset := WriteOffset(h.partOffset, job.offset);
            var sum, size := Fold(env.step, 0, Payload(tokens)), job.segment.bytes;
            SegmentOutcome(env, job, input)
            == if size <= |Payload(tokens)| then Decoded(h, offset, Payload(tokens)[..size])
               else if Announced(footer) == 0 || Announced(footer) == sum then Decoded(h, offset, Payload(tokens))
               else Failed(IntegrityError(ChecksumMismatch(Announced(footer), sum)))
  {
    var k := job.segment.bytes;
    if k <= |Payload(tokens)| {
      FullBuffer(tokens, Footer(footer), env.end, 0, k);
    } else {
      DrainArticle(env, tokens, footer, 0, k);
    }
  }

  /** A stream that ends before its footer is accepted, checksum unseen, exactly when the buffer was full already or
      the reader reported an end of file, premature or not. */
  lemma TruncatedOutcome(env: Reading, job: Job, input: Bytes, h: YencHeader, tokens: seq<Token>)
    requires ReadHeader(input, env.end, NO_HEADER) == HeaderResult(h, Wire(tokens), None)
    requires forall t | t in tokens :: t.Decodable()
    requires !Misread(tokens, [])
    ensures SegmentOutcome(env, job, input)
            == if job.segment.bytes <= |Payload(tokens)|
               then Decoded(h, WriteOffset(h.partOffset, job.offset), Payload(tokens)[..job.segment.bytes])
               else if env.end != Broken then Decoded(h, WriteOffset(h.partOffset, job.offset), Payload(tokens))
               else Failed(ReadError(Broken))
  {
    var k := job.segment.bytes;
    if k <= |Payload(tokens)| {
      assert Wire(tokens) + [] == Wire(tokens);
      FullBuffer(tokens, [], env.end, 0, k);
    } else {
      DrainTruncated(env, tokens, 0, k);
    }
  }

  /** The data lands at the header's offset exactly when that is positive or the listed offset is zero too. */
  lemma LandsAtPartOffset(partOffset: int, listed: nat)
    ensures WriteOffset(partOffset, listed) == partOffset <==> partOffset != 0 || listed == 0
  {
  }

  // ---------------------------------------------------------------- one file

  /** Segment `i` of task `t` decodes to part `listed[i]`, whole, under a header that gives the part's place. */
  predicate Carries(t: Task, parts: seq<Bytes>, listed: seq<nat>, outcomes: seq<Outcome>, i: nat)
    requires i < |t.segments| == |listed| == |outcomes|
  {
    CarriedBy(t, parts, listed, i, outcomes[i])
  }

  /** An attempt at segment `i` that decodes to its part. */
  predicate CarriedBy(t: Task, parts: seq<Bytes>, listed: seq<nat>, i: nat, o: Outcome)
    requires i < |t.segments| == |listed|
  {
    && listed[i] < |parts|
    && o.Decoded?
    && o.data == parts[listed[i]]
    && o.offset == WriteOffset(PartStart(parts, listed[i]), ListedOffset(t, i))
  }

  /** The part that starts the file is listed first, or after nothing but segments of listed size zero. */
  predicate FirstPartListedFirst(t: Task, parts: seq<Bytes>, listed: seq<nat>)
    requires |t.segments| == |listed|
  {
    forall i :: 0 <= i < |listed| && listed[i] < |parts| && PartStart(parts, listed[i]) == 0 && parts[listed[i]] != []
                ==> ListedOffset(t, i) == 0
  }

  /** What a successful run of a segment writes. */
  function SegmentWrite(o: Outcome): WriteOp
    requires o.Decoded? && o.offset >= 0
  {
    WriteOp(o.offset, o.data)
  }

  /** Successful segments in any finishing order `order`, each at least once: after the final truncation to the real
      size the file is the concatenation of its parts, whatever the preallocated file held. */
  lemma FileIsAssembled(
      t: Task, parts: seq<Bytes>, listed: seq<nat>, outcomes: seq<Outcome>,
      content: Bytes, order: seq<nat>, log: seq<WriteOp>)
    requires |t.segments| == |listed| == |outcomes|
    requires forall i: nat :: i < |listed| ==> Carries(t, parts, listed, outcomes, i)
    requires FirstPartListedFirst(t, parts, listed)
    requires forall k: nat :: k < |parts| ==> k in listed
    requires |log| == |order|
    requires forall j :: 0 <= j < |order| ==>
               order[j] < |listed| && Carries(t, parts, listed, outcomes, order[j])
               && log[j] == SegmentWrite(outcomes[order[j]])
    requires forall i: nat :: i < |listed| ==> i in order
    ensures Resize(Replay(content, log), |Concat(parts)|) == Concat(parts)
  {
    var target := Concat(parts);
    forall w | w in log ensures Agrees(w, target) {
      var j :| 0 <= j < |log| && log[j] == w;
      SegmentAgrees(t, parts, listed, outcomes, order[j]);
    }
    forall p: nat | p < |target| ensures Covered(log, p) {
      var k := SomePartCovers(parts, p);
      assert k in listed;
      var i: nat :| i < |listed| && listed[i] == k;
      assert i in order;
      var j :| 0 <= j < |order| && order[j] == i;
      SegmentAgrees(t, parts, listed, outcomes, i);
      assert log[j] in log && Covers(log[j], p);
    }
    AgreeingWritesAssemble(content, log, target);
  }

  lemma SegmentAgrees(t: Task, parts: seq<Bytes>, listed: seq<nat>, outcomes: seq<Outcome>, i: nat)
    requires i < |t.segments| == |listed| == |outcomes|
    requires Carries(t, parts, listed, outcomes, i)
    requires FirstPartListedFirst(t, parts, listed)
    ensures parts[listed[i]] != [] ==> SegmentWrite(outcomes[i]) == PartWrite(parts, listed[i])
    ensures Agrees(SegmentWrite(outcomes[i]), Concat(parts))
  {
    PartAgrees(parts, listed[i]);
  }

  function ByteCount(part: Bytes): int {
    |part|
  }

  /** Progress over a file counts every byte once when every segment succeeded once. */
  lemma {:induction false} BytesWrittenIsTotal(parts: seq<Bytes>)
    ensures SumOf(parts, ByteCount) == |Concat(parts)|
  {
    if parts != [] {
      BytesWrittenIsTotal(parts[1..]);
    }
  }

  // ---------------------------------------------------------------- when a file comes out whole

  /** Every part is listed exactly once. */
  predicate Permutation(parts: seq<Bytes>, listed: seq<nat>) {
    && (forall k: nat :: k < |parts| ==> k in listed)
    && (forall i :: 0 <= i < |listed| ==> listed[i] < |parts|)
    && forall i, j :: 0 <= i < j < |listed| ==> listed[i] != listed[j]
  }

  predicate AllCarry(t: Task, parts: seq<Bytes>, listed: seq<nat>, outcomes: seq<Outcome>)
    requires |t.segments| == |listed| == |outcomes|
  {
    forall i: nat :: i < |listed| ==> Carries(t, parts, listed, outcomes, i)
  }

  /** A finishing order in which every segment succeeds at least once. */
  predicate Finishes(order: seq<nat>, segments: nat) {
    (forall j :: 0 <= j < |order| ==> order[j] < segments) && forall i: nat :: i < segments ==> i in order
  }

  function Writes(t: Task, parts: seq<Bytes>, listed: seq<nat>, outcomes: seq<Outcome>, order: seq<nat>): seq<WriteOp>
    requires |t.segments| == |listed| == |outcomes| && AllCarry(t, parts, listed, outcomes)
    requires Finishes(order, |listed|)
  {
    seq(|order|, j requires 0 <= j < |order| =>
      assert Carries(t, parts, listed, outcomes, order[j]); SegmentWrite(outcomes[order[j]]))
  }

  /** The file is right at the end, whatever it held before and in whatever order the segments finished. */
  ghost predicate AlwaysWhole(t: Task, parts: seq<Bytes>, listed: seq<nat>, outcomes: seq<Outcome>)
    requires |t.segments| == |listed| == |outcomes| && AllCarry(t, parts, listed, outcomes)
  {
    forall content: Bytes, order: seq<nat> :: Finishes(order, |listed|) ==>
      Resize(Replay(content, Writes(t, parts, listed, outcomes, order)), |Concat(parts)|) == Concat(parts)
  }

  /** With every part listed once and every segment carrying its part, the file always comes out whole exactly when
      the part that starts it is listed first: otherwise nothing is ever written to its first byte. */
  lemma WholeExactlyWhenFirstListedFirst(t: Task, parts: seq<Bytes>, listed: seq<nat>, outcomes: seq<Outcome>)
    requires |t.segments| == |listed| == |outcomes|
    requires Permutation(parts, listed) && AllCarry(t, parts, listed, outcomes)
    ensures AlwaysWhole(t, parts, listed, outcomes) <==> FirstPartListedFirst(t, parts, listed)
  {
    if FirstPartListedFirst(t, parts, listed) {
      forall content: Bytes, order: seq<nat> | Finishes(order, |listed|)
        ensures Resize(Replay(content, Writes(t, parts, listed, outcomes, order)), |Concat(parts)|) == Concat(parts)
      {
        FileIsAssembled(t, parts, listed, outcomes, content, order, Writes(t, parts, listed, outcomes, order));
      }
    } else {
      var i: nat :| i < |listed| && PartStart(parts, listed[i]) == 0 && parts[listed[i]] != []
                    && ListedOffset(t, i) != 0;
      FirstByteIsNeverWritten(t, parts, listed, outcomes, i);
    }
  }

  lemma FirstByteIsNeverWritten(t: Task, parts: seq<Bytes>, listed: seq<nat>, outcomes: seq<Outcome>, i: nat)
    requires |t.segments| == |listed| == |outcomes|
    requires Permutation(parts, listed) && AllCarry(t, parts, listed, outcomes)
    requires i < |listed| && PartStart(parts, listed[i]) == 0 && parts[listed[i]] != [] && ListedOffset(t, i) != 0
    ensures !AlwaysWhole(t, parts, listed, outcomes)
  {
    var target, order := Concat(parts), seq(|listed|, k => k);
    ConcatSplit(parts, listed[i]);
    var content: Bytes := [if target[0] == 0 then 1 else 0];
    forall k: nat | k < |listed| ensures k in order {
      assert order[k] == k;
    }
    assert Finishes(order, |listed|);
    var log := Writes(t, parts, listed, outcomes, order);
    forall w | w in log ensures !Covers(w, 0) {
      var j :| 0 <= j < |log| && log[j] == w;
      assert Carries(t, parts, listed, outcomes, j);
      if parts[listed[j]] != [] && PartStart(parts, listed[j]) == 0 {
        OnePartStartsTheFile(parts, listed[i], listed[j]);
      }
    }
    UncoveredByteStays(content, log, 0);
    assert Resize(Replay(content, log), |target|)[0] != target[0];
  }

  lemma OnePartStartsTheFile(parts: seq<Bytes>, j: nat, k: nat)
    requires j < |parts| && k < |parts| && parts[j] != [] && parts[k] != []
    requires PartStart(parts, j) == PartStart(parts, k) == 0
    ensures j == k
  {
    if j < k {
      LaterPartsStartLater(parts, j, k);
    } else if k < j {
      LaterPartsStartLater(parts, k, j);
    }
  }

  lemma LaterPartsStartLater(parts: seq<Bytes>, j: nat, k: nat)
    requires j < k < |parts| && parts[j] != []
    ensures PartStart(parts, k) > 0
  {
    ConcatSplit(parts[..k], j);
    assert parts[..k][j] == parts[j];
  }

  lemma {:induction false} UncoveredByteStays(content: Bytes, log: seq<WriteOp>, i: nat)
    requires i < |content| && forall w | w in log :: !Covers(w, i)
    ensures i < |Replay(content, log)| && Replay(content, log)[i] == content[i]
  {
    if log != [] {
      assert log[|log| - 1] in log;
      UncoveredByteStays(content, log[..|log| - 1], i);
    }
  }

  /** Listing the first part second misplaces it: a two-part file comes out wrong. */
  lemma MisplacedFirstPart()
    ensures var parts: seq<Bytes> := [[1], [2]];
            var t := Task(Path("f"), false, [Segment("b", 1), Segment("a", 1)]);
            var log := [WriteOp(WriteOffset(PartStart(parts, 1), ListedOffset(t, 0)), parts[1]),
                        WriteOp(WriteOffset(PartStart(parts, 0), ListedOffset(t, 1)), parts[0])];
            Resize(Replay([], log), |Concat(parts)|) == [0, 1] != Concat(parts)
  {
    var parts: seq<Bytes> := [[1], [2]];
    var t := Task(Path("f"), false, [Segment("b", 1), Segment("a", 1)]);
    assert parts[..1] == [parts[0]] && parts[1..] == [parts[1]] && parts[1..][1..] == [];
    assert Concat([parts[0]]) == [1] && Concat(parts) == [1, 2];
    assert t.segments[..1] == [Segment("b", 1)];
    assert ListedOffset(t, 1) == 1;
    var w0, w1 := WriteOp(1, [2]), WriteOp(1, [1]);
    assert [w0, w1][..1] == [w0] && [w0][..0] == [];
    assert Replay([], [w0]) == Overwrite([], 1, [2]) == [0, 2];
    assert Replay([], [w0, w1]) == Overwrite([0, 2], 1, [1]) == [0, 1];
  }
}
