/** From an NZB's listed segments to bytes on disk: the dispatch offsets and one segment's processing. */
module SegmentProcessing {
  import opened Common
  import opened TextLines
  import opened YencDecoding
  import opened YencHeaders
  import opened YencReader
  import opened FileWriting

  datatype Segment = Segment(messageID: string, bytes: nat)

  datatype Task = Task(path: Path, isComplete: bool, segments: seq<Segment>)

  datatype Job = Job(segment: Segment, path: Path, offset: nat)

  // ---------------------------------------------------------------- dispatch

  function SegmentBytes(s: Segment): int {
    s.bytes
  }

  lemma {:induction false} SegmentBytesNonNegative(s: seq<Segment>)
    ensures SumOf(s, SegmentBytes) >= 0
  {
    if s != [] {
      SegmentBytesNonNegative(s[1..]);
    }
  }

  /** The listed sizes of the segments before the `i`th. */
  function ListedOffset(t: Task, i: nat): nat
    requires i <= |t.segments|
  {
    SegmentBytesNonNegative(t.segments[..i]);
    SumOf(t.segments[..i], SegmentBytes)
  }

  function TaskJob(t: Task, i: nat): Job
    requires i < |t.segments|
  {
    Job(t.segments[i], t.path, ListedOffset(t, i))
  }

  function TaskJobs(t: Task): seq<Job> {
    if t.isComplete then [] else seq(|t.segments|, i requires 0 <= i < |t.segments| => TaskJob(t, i))
  }

  function AllJobs(tasks: seq<Task>): seq<Job> {
    if tasks == [] then [] else AllJobs(tasks[..|tasks| - 1]) + TaskJobs(tasks[|tasks| - 1])
  }

  /** A complete task sends nothing, wherever it stands. */
  lemma {:induction false} CompleteTaskSendsNothing(before: seq<Task>, t: Task, after: seq<Task>)
    requires t.isComplete
    ensures AllJobs(before + [t] + after) == AllJobs(before + after)
    decreases |after|
  {
    if after == [] {
      LastTaskSends(before, t);
      assert before + [t] + after == before + [t] && before + after == before;
    } else {
      var front := after[..|after| - 1];
      CompleteTaskSendsNothing(before, t, front);
      LastOfRow(before + [t], after);
      LastOfRow(before, after);
    }
  }

  lemma LastOfRow(before: seq<Task>, after: seq<Task>)
    requires after != []
    ensures AllJobs(before + after)
            == AllJobs(before + after[..|after| - 1]) + TaskJobs(after[|after| - 1])
  {
    var all := before + after;
    assert all[..|all| - 1] == before + after[..|after| - 1];
  }

  lemma LastTaskSends(before: seq<Task>, t: Task)
    ensures AllJobs(before + [t]) == AllJobs(before) + TaskJobs(t)
  {
    assert (before + [t])[..|before|] == before;
  }

  /** Any other sends one job for each of its segments, in order and after the jobs of the tasks before it, with the
      file's path and the listed bytes in front of the segment. */
  lemma IncompleteTaskSendsAll(before: seq<Task>, t: Task, i: nat)
    requires !t.isComplete && i < |t.segments|
    ensures var jobs, done := AllJobs(before + [t]), AllJobs(before);
            && |jobs| == |done| + |t.segments| && done <= jobs
            && jobs[|done| + i].segment == t.segments[i] && jobs[|done| + i].path == t.path
            && (i == 0 ==> jobs[|done| + i].offset == 0)
            && (i > 0 ==> jobs[|done| + i].offset == jobs[|done| + i - 1].offset + t.segments[i - 1].bytes)
  {
    LastTaskSends(before, t);
    if i > 0 {
      var k := i - 1;
      assert t.segments[..i] == t.segments[..k] + [t.segments[k]];
      SumOfConcat(t.segments[..k], [t.segments[k]], SegmentBytes);
    }
  }

  /** The order in which the dispatcher sends jobs; `done` is what went over the channel. */
  method DispatchJobs(tasks: seq<Task>) returns (done: seq<Job>)
    ensures done == AllJobs(tasks)
  {
    done := [];
    for k := 0 to |tasks|
      invariant done == AllJobs(tasks[..k])
    {
      assert tasks[..k + 1][..k] == tasks[..k];
      if !tasks[k].isComplete {
        done := DispatchTask(tasks[k], done);
      }
    }
    assert tasks[..|tasks|] == tasks;
  }

  /** The inner loop: the running offset is the sum of the listed sizes so far. */
  method DispatchTask(task: Task, before: seq<Job>) returns (done: seq<Job>)
    requires !task.isComplete
    ensures done == before + TaskJobs(task)
  {
    var currentOffset: nat := 0;
    done := before;
    for i := 0 to |task.segments|
      invariant currentOffset == ListedOffset(task, i)
      invariant |done| == |before| + i && done[..|before|] == before
      invariant forall j :: 0 <= j < i ==> done[|before| + j] == TaskJob(task, j)
    {
      var seg := task.segments[i];
      done := done + [Job(seg, task.path, currentOffset)];
      currentOffset := currentOffset + seg.bytes;
      assert task.segments[..i + 1] == task.segments[..i] + [seg];
      SumOfConcat(task.segments[..i], [seg], SegmentBytes);
    }
  }

  /** The collector waits for exactly as many completions as the dispatcher sends jobs. */
  method CountSegments(tasks: seq<Task>) returns (totalSegments: nat)
    ensures totalSegments == |AllJobs(tasks)|
  {
    totalSegments := 0;
    for k := 0 to |tasks|
      invariant totalSegments == |AllJobs(tasks[..k])|
    {
      assert tasks[..k + 1][..k] == tasks[..k];
      if !tasks[k].isComplete {
        totalSegments := totalSegments + |tasks[k].segments|;
      }
    }
    assert tasks[..|tasks|] == tasks;
  }

  // ---------------------------------------------------------------- one segment

  datatype Fetched = FetchFailed | NilReader | Stream(input: Bytes)

  datatype SegmentError =
    | FetchError
    | HeaderError(reason: StreamEnd)
    | ReadError(reason: StreamEnd)
    | IntegrityError(mismatch: ChecksumMismatch)
    | WriteError(cause: IOError)

  datatype Outcome = Failed(error: SegmentError) | Decoded(header: YencHeader, offset: int, data: Bytes)

  /** The header's part offset, or the listed offset where the header has none. */
  function WriteOffset(partOffset: int, listed: nat): int {
    if partOffset == 0 && listed != 0 then listed else partOffset
  }

  /** What a segment's stream decodes to before anything is written. */
  function SegmentOutcome(env: Reading, job: Job, input: Bytes): Outcome {
    var h := ReadHeader(input, env.end, NO_HEADER);
    if h.err.Some? then Failed(HeaderError(h.err.value))
    else
      var r := ReadCall(env, Fresh(h.rest, 0), job.segment.bytes);
      if r.err == Some(Broken) then Failed(ReadError(Broken))
      else if !Verified(r.decoder) then Failed(IntegrityError(ChecksumMismatch(r.decoder.expectedCRC, r.decoder.hash)))
      else Decoded(h.header, WriteOffset(h.header.partOffset, job.offset), r.out)
  }

  /** `io.ReadFull`; the error is dropped once the buffer is full. */
  method ReadFull(d: YencDecoder, data: array<byte>) returns (n: nat, err: Option<StreamEnd>)
    requires !d.reachedEnd
    modifies d, data
    ensures n <= data.Length && d.header == old(d.header)
    ensures ReadResult(data[..n], d.State(), err) == ReadCall(d.env, old(d.State()), data.Length)
  {
    n, err := 0, None;
    ghost var start := d.State();
    while n < data.Length && err.None?
      invariant n <= data.Length && d.header == old(d.header)
      invariant if n < data.Length && err.None? then n == 0 && d.State() == start
                else ReadResult(data[..n], d.State(), err) == ReadCall(d.env, start, data.Length)
      decreases data.Length - n, err.None?
    {
      var more;
      ghost var empty := data[..0];
      more, err := d.Read(data, n);
      n := n + more;
      var r := ReadCall(d.env, start, data.Length);
      assert empty + r.out == r.out;
    }
  }

  class DownloadFile {
    const path: Path
    var actualSize: int

    constructor (path: Path)
      ensures this.path == path && actualSize == 0
    {
      this.path := path;
      actualSize := 0;
    }
  }

  class QueueItem {
    var bytesWritten: int

    constructor ()
      ensures bytesWritten == 0
    {
      bytesWritten := 0;
    }
  }

  /** Header, body and checksum of one article; the file learns its real size from the header. */
  method DecodeSegment(env: Reading, file: DownloadFile, job: Job, input: Bytes) returns (o: Outcome)
    modifies file
    ensures o == SegmentOutcome(env, job, input)
    ensures o.Decoded? ==>
              file.actualSize == if o.header.fileSize > 0 then o.header.fileSize else old(file.actualSize)
  {
    var decoder := new YencDecoder(env, input);
    var headerErr := decoder.DiscardHeader();
    if headerErr.Some? {
      return Failed(HeaderError(headerErr.value));
    }
    if decoder.header.fileSize > 0 {
      file.actualSize := decoder.header.fileSize;
    }
    var writeOffset := decoder.header.partOffset;
    if writeOffset == 0 && job.offset != 0 {
      writeOffset := job.offset;
    }
    var data := new byte[job.segment.bytes](_ => 0);
    var n, readErr := ReadFull(decoder, data);
    if readErr.Some? && readErr.value != Eof && readErr.value != UnexpectedEof {
      return Failed(ReadError(readErr.value));
    }
    var mismatch := decoder.Verify();
    if mismatch.Some? {
      return Failed(IntegrityError(mismatch.value));
    }
    return Decoded(decoder.header, writeOffset, data[..n]);
  }

  method ProcessSegment(env: Reading, writer: FileWriter, item: QueueItem, file: DownloadFile, job: Job, fetched: Fetched)
    returns (err: Option<SegmentError>)
    requires writer.Valid() && job.path == file.path
    modifies writer, item, file
    ensures writer.Valid()
    ensures forall other :: other != job.path && other in old(writer.disk) ==>
              other in writer.disk && writer.disk[other] == old(writer.disk[other])
    ensures !fetched.Stream? ==> err == Some(FetchError)
    ensures fetched.Stream? ==>
              var o := SegmentOutcome(env, job, fetched.input);
              && (o.Failed? ==> err == Some(o.error))
              && (o.Decoded? && err.Some? ==> o.data != [] && err.value.WriteError?)
    ensures err.Some? ==> writer.Content(job.path) == old(writer.Content(job.path))
                          && item.bytesWritten == old(item.bytesWritten)
    ensures err.None? ==>
              var o := SegmentOutcome(env, job, fetched.input);
              && (o.data != [] ==> o.offset >= 0)
              && writer.Content(job.path) == (if o.data == [] then old(writer.Content(job.path))
                                              else Overwrite(old(writer.Content(job.path)), o.offset, o.data))
              && item.bytesWritten == old(item.bytesWritten) + |o.data|
  {
    if !fetched.Stream? {
      return Some(FetchError);
    }
    var o := DecodeSegment(env, file, job, fetched.input);
    if o.Failed? {
      return Some(o.error);
    }
    if |o.data| > 0 {
      var writeErr := writer.WriteAt(job.path, o.data, o.offset);
      if writeErr.Some? {
        return Some(WriteError(writeErr.value));
      }
      item.bytesWritten := item.bytesWritten + |o.data|;
    }
    return None;
  }
}
