/** Whole articles as a poster writes them, and the files a download makes of them. */
module WrittenArticles {
  import opened Common
  import opened FileAssembly
  import opened FileWriting
  import opened HeaderText
  import opened NumberText
  import opened SegmentProcessing
  import opened TextLines
  import opened YencDecoding
  import opened YencHeaders
  import opened YencReader
  import opened YencRoundTrip

  /** An article without its `=ypart` line: other lines, the `=ybegin` line, the encoded data, the footer that announces
      `sum`, and what follows the footer. */
  datatype Article = Article(before: seq<Bytes>, first: Written, values: BeginValues,
                             tokens: seq<Token>, last: Written, sum: nat, after: Bytes)
  {
    ghost predicate Valid() {
      && (forall line | line in before :: OtherLine(line))
      && first.Valid() && values.WrittenAs(first.fields)
      && (forall t | t in tokens :: t.Conforming())
      && last.Valid() && Says(last.fields, sum)
    }

    ghost function Body(): Bytes
      requires Valid()
    {
      YencRoundTrip.Article(tokens, last.Text() + after)
    }

    /** The article of a file in one piece. */
    ghost function Text(): Bytes
      requires Valid()
    {
      Head(before, first) + Body()
    }

    function Data(): Bytes {
      Payload(tokens)
    }

    /** The header of the article, for a part that starts at `start` and ends before `end`. */
    function Header(start: int, end: int): YencHeader {
      YencHeader(Or(values.part, 0), Or(values.total, 0), start, end, Or(values.size, 0),
                 if values.name.Some? then values.name.value else [])
    }
  }

  /** The article of one part, with its `=ypart` line. */
  datatype PartArticle = PartArticle(whole: Article, second: Written, place: PartValues)
  {
    ghost predicate Valid() {
      whole.Valid() && second.Valid() && place.WrittenAs(second.fields)
    }

    ghost function Text(): Bytes
      requires Valid()
    {
      Head(whole.before, whole.first) + (Ascii("=ypart") + second.Text()) + whole.Body()
    }
  }

  /** What a segment of `bytes` listed bytes becomes when its data lands at `offset`. */
  function Received(env: Reading, a: Article, h: YencHeader, bytes: nat, offset: int): Outcome {
    var crc := Fold(env.step, 0, a.Data());
    if bytes <= |a.Data()| then Decoded(h, offset, a.Data()[..bytes])
    else if a.sum == 0 || a.sum == crc then Decoded(h, offset, a.Data())
    else Failed(IntegrityError(ChecksumMismatch(a.sum, crc)))
  }

  /** The article of a part lands where its `=ypart` line says, except that the start of the file goes to the listed
      offset. */
  lemma PartArticleOutcome(env: Reading, job: Job, part: PartArticle)
    requires part.Valid()
    ensures var a, begin := part.whole, part.place.begin;
            SegmentOutcome(env, job, part.Text())
            == Received(env, a, a.Header(begin - 1, part.place.end), job.segment.bytes,
                        if begin > 1 then begin - 1 else job.offset)
  {
    var a, p := part.whole, part.place;
    var footer := a.last.Text() + a.after;
    HeaderIsReadBack(a.before, a.first, a.values, part.second, p, a.Body(), env.end);
    ConformingIsNotMisread(a.tokens, Footer(footer));
    AnnouncedIsSaid(a.last, a.after, a.sum);
    ArticleOutcome(env, job, part.Text(), a.Header(p.begin - 1, p.end), a.tokens, footer);
  }

  /** The article of a file in one piece lands at its listed offset. */
  lemma WholeArticleOutcome(env: Reading, job: Job, a: Article)
    requires a.Valid()
    ensures SegmentOutcome(env, job, a.Text())
            == Received(env, a, a.Header(0, 0), job.segment.bytes, job.offset)
  {
    var footer := a.last.Text() + a.after;
    NoPartLine(a.tokens, footer);
    HeaderWithoutPartLine(a.before, a.first, a.values, a.Body(), env.end);
    ConformingIsNotMisread(a.tokens, Footer(footer));
    AnnouncedIsSaid(a.last, a.after, a.sum);
    ArticleOutcome(env, job, a.Text(), a.Header(0, 0), a.tokens, footer);
  }

  /** A stream without a header line fails with the stream's own end, and one that breaks off inside its `=ypart` line
      does too. */
  lemma HeaderlessOutcome(env: Reading, job: Job, before: seq<Bytes>, tail: Bytes)
    requires forall line | line in before :: OtherLine(line)
    requires forall i :: 0 <= i < |tail| ==> tail[i] != 10
    ensures SegmentOutcome(env, job, Concat(before) + tail) == Failed(HeaderError(env.end))
    ensures forall a: Article :: a.Valid() && Ascii("=ypart") <= tail ==>
              SegmentOutcome(env, job, Head(a.before, a.first) + tail) == Failed(HeaderError(env.end))
  {
    NoHeaderLine(before, tail, env.end);
    forall a: Article | a.Valid() && Ascii("=ypart") <= tail
      ensures SegmentOutcome(env, job, Head(a.before, a.first) + tail) == Failed(HeaderError(env.end))
    {
      UnfinishedPartLine(a.before, a.first, a.values, tail, env.end);
    }
  }

  /** Encoded data never looks like a `=ypart` line. */
  lemma NoPartLine(tokens: seq<Token>, footer: Bytes)
    requires forall t | t in tokens :: t.Conforming()
    ensures !(Ascii("=ypart") <= YencRoundTrip.Article(tokens, footer))
  {
    var body := YencRoundTrip.Article(tokens, footer);
    Keywords();
    if tokens == [] {
      assert body == Footer(footer) && body[2] == YEND[1];
    } else {
      var t := tokens[0];
      assert t in tokens;
      assert body == t.Wire() + (Wire(tokens[1..]) + Footer(footer));
      assert body[0] == t.Wire()[0];
      assert t.Escaped? ==> body[1] == t.Wire()[1];
    }
  }

  // ---------------------------------------------------------------- files of such articles

  /** An intact article of a part is a whole write of it exactly when the listed size is the part's, or exceeds it and
      the announced checksum is zero or right. */
  lemma ConformingArticleCarries(env: Reading, t: Task, parts: seq<Bytes>, listed: seq<nat>, i: nat, part: PartArticle)
    requires i < |t.segments| == |listed| && listed[i] < |parts|
    requires part.Valid() && IsPart(part, parts, listed[i])
    ensures CarriedBy(t, parts, listed, i, SegmentOutcome(env, TaskJob(t, i), part.Text()))
            <==> Intact(env, part, t.segments[i].bytes)
  {
    PartArticleOutcome(env, TaskJob(t, i), part);
  }

  /** The article holds part `k` and says so. */
  predicate IsPart(part: PartArticle, parts: seq<Bytes>, k: nat)
    requires k < |parts|
  {
    part.whole.Data() == parts[k] && part.place.begin == PartStart(parts, k) + 1
  }

  predicate Intact(env: Reading, part: PartArticle, bytes: nat) {
    var a := part.whole;
    || |a.Data()| == bytes
    || (|a.Data()| < bytes && (a.sum == 0 || a.sum == Fold(env.step, 0, a.Data())))
  }

  ghost predicate PartsPosted(env: Reading, t: Task, parts: seq<Bytes>, listed: seq<nat>, articles: seq<PartArticle>)
    requires |t.segments| == |listed| == |articles| && Permutation(parts, listed)
  {
    forall i :: 0 <= i < |articles| ==>
      articles[i].Valid() && IsPart(articles[i], parts, listed[i]) && Intact(env, articles[i], t.segments[i].bytes)
  }

  /** A file posted in parts, each of them once and intact, comes out whole, in any finishing order and over any earlier
      content, exactly when the part that starts it is listed first. */
  lemma PartsComeOutWhole(env: Reading, t: Task, parts: seq<Bytes>, listed: seq<nat>, articles: seq<PartArticle>,
                          outcomes: seq<Outcome>)
    requires |t.segments| == |listed| == |articles| == |outcomes| && Permutation(parts, listed)
    requires PartsPosted(env, t, parts, listed, articles)
    requires forall i: nat :: i < |articles| ==> outcomes[i] == SegmentOutcome(env, TaskJob(t, i), articles[i].Text())
    ensures AllCarry(t, parts, listed, outcomes)
    ensures AlwaysWhole(t, parts, listed, outcomes) <==> FirstPartListedFirst(t, parts, listed)
  {
    forall i: nat | i < |listed| ensures Carries(t, parts, listed, outcomes, i) {
      ConformingArticleCarries(env, t, parts, listed, i, articles[i]);
    }
    WholeExactlyWhenFirstListedFirst(t, parts, listed, outcomes);
  }

  ghost predicate Posted(t: Task, datas: seq<Bytes>, articles: seq<Article>)
    requires |t.segments| == |datas| == |articles|
  {
    forall i :: 0 <= i < |articles| ==> articles[i].Valid() && articles[i].Data() == datas[i]
  }

  /** Every listed size is the size of what the segment decodes to. */
  predicate ExactSizes(t: Task, datas: seq<Bytes>)
    requires |t.segments| == |datas|
  {
    forall i :: 0 <= i < |datas| ==> t.segments[i].bytes == |datas[i]|
  }

  lemma {:induction false} ExactOffsets(t: Task, datas: seq<Bytes>, i: nat)
    requires |t.segments| == |datas| && i <= |datas|
    requires ExactSizes(t, datas)
    ensures ListedOffset(t, i) == PartStart(datas, i)
  {
    if i > 0 {
      var k := i - 1;
      ExactOffsets(t, datas, k);
      assert t.segments[..i] == t.segments[..k] + [t.segments[k]];
      SumOfConcat(t.segments[..k], [t.segments[k]], SegmentBytes);
      PartStartStep(datas, k);
    }
  }

  lemma PartStartStep(datas: seq<Bytes>, k: nat)
    requires k < |datas|
    ensures PartStart(datas, k + 1) == PartStart(datas, k) + |datas[k]|
  {
    var next := datas[..k + 1];
    ConcatSplit(next, k);
    assert next[k + 1..] == [] && next[..k] == datas[..k];
  }

  /** A file whose articles have no part lines comes out whole, in any finishing order and over any earlier content,
      when the listed sizes are exact; the checksums are then never looked at. */
  lemma WholeWithoutPartLines(env: Reading, t: Task, datas: seq<Bytes>, articles: seq<Article>, outcomes: seq<Outcome>)
    requires |t.segments| == |datas| == |articles| == |outcomes|
    requires Posted(t, datas, articles) && ExactSizes(t, datas)
    requires forall i: nat :: i < |articles| ==> outcomes[i] == SegmentOutcome(env, TaskJob(t, i), articles[i].Text())
    ensures var order := seq(|datas|, k => k);
            AllCarry(t, datas, order, outcomes) && AlwaysWhole(t, datas, order, outcomes)
  {
    var listed: seq<nat> := seq(|datas|, k => k);
    forall i: nat | i < |listed| ensures Carries(t, datas, listed, outcomes, i) && ListedOffset(t, i) == PartStart(datas, i) {
      WholeArticleOutcome(env, TaskJob(t, i), articles[i]);
      ExactOffsets(t, datas, i);
    }
    forall k: nat | k < |datas| ensures k in listed {
      assert listed[k] == k;
    }
    WholeExactlyWhenFirstListedFirst(t, datas, listed, outcomes);
  }
}
