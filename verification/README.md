# GoNZB: a model of the download, archive-probe and assembly core

GoNZB fetches articles over NNTP, decodes yEnc, assembles files, runs a download queue, probes remote archives and
assembles indexed headers into binaries. This project models the parts of it where state, arithmetic and concurrency
meet, and proves what they keep. `dafny verify dfyconfig.toml` checks everything.

## What is modelled

| files | subject |
|---|---|
| `YencDecoder`, `YencReader`, `YencRoundTrip`, `YencHeaders`, `HeaderText`, `TextLines`, `NumberText` | the streaming yEnc decoder (yEnc draft 1.3, "Encoding Technique"), its headers and footer as they are written and read, and the prefix scan of a body |
| `FileWriting`, `SegmentProcessing`, `FileAssembly`, `WrittenArticles` | the positional file writer, one segment from article to file, and a whole file, from written articles on |
| `WorkerPool`, `WorkerPoolRuns`, `WorkerPoolCancellation`, `PoolAssembly` | dispatcher, workers, collector and delayed requeues over two bounded channels, and the files a run leaves |
| `ArchiveRanges`, `ArchiveOverlaps`, `ArchiveTotals`, `ArchiveLayouts`, `ArchiveSoundness`, `ArchiveWrites` | byte ranges of a virtual concatenation of volumes, read from articles, when their count can be trusted, and written to sparse files |
| `SevenZip`, `SevenZipHeaders`, `SevenZipClassification`, `SevenZipParsers` | the 7z number, digest and pack-info parser and the start header (7-Zip's `7zFormat.txt`, "Notes about Notation and encoding", "Pack Info", "Digests") |
| `ProviderSlots`, `Admission`, `Failover` | connection slots and module limits under concurrency; taking a slot and the order of attempts; failover over 430 answers (section 6.2.3 of RFC 3977) |
| `ConnectionPool`, `PooledProvider`, `BodyReads` | pooled connections at a command boundary (section 3.1.1 of RFC 3977), and reading a body through them |
| `QueueManager`, `QueueRunner` | the live queue, and its runner against concurrent callers |
| `AssembleBatch`, `AssembleContributions`, `AssembleRun`, `CacheKeys`, `Sorting` | parallel assembly of a header batch, its merge, and the order and keys it is stored under |

Code that changes state step by step is a class or a method with its loop, proved against a specification function;
long loop bodies are methods of their own. Concurrent code (pool, slots, connection pool, queue runner) is a step
relation over values: every atomic action is a step, locked sections are single steps, and theorems quantify over all
runs. A checksum is an arbitrary fold over the bytes, or an arbitrary function for the 7z start header.

## What turned out not to hold

Each of these has a proof of exactly when the expected property does hold and, where it is about runs, a run that shows
it fail.

- A checksum is compared only when the listed segment size exceeds the decoded size, and a stream that ends early,
  even prematurely, passes unchecked unless the reader reports some other error (`ArticleOutcome`, `TruncatedOutcome`).
- A segment lands at its header offset only when that is nonzero or the listed offset is zero, so a file comes out
  whole only with its first part listed first (`LandsAtPartOffset`, `WholeExactlyWhenFirstListedFirst`,
  `MisplacedFirstPart`).
- An encoder that escapes more than it must can produce `=yend` from an escape pair, which the decoder takes for the
  footer (`OverEscapingIsMisread`, `DrainIsInverse`); a conforming one cannot (`ConformingIsNotMisread`).
- The prefix scan stops before a `=ypart` line, so a part's range is never known from the prefix (`PrefixKeepsHeader`).
- After a cancellation a pool worker can stay blocked for ever, exactly when there are more segments than
  `2 * (capacity + 2)` (`CancellationCanStrandAWorker`).
- Articles that share positions are counted twice, so the completeness check passes on incomplete data
  (`OverlapsAreCountedTwice`), and because it compares the sum over all volumes, one volume's surplus pays for another's
  gap (`VolumesPayForEachOther`). Whether it does on a range is decided by the surplus and missing copies in all
  (`RangeCheckFailsExactlyWhen`). Articles in any order do no harm as long as they share nothing
  (`SoundRangeWithoutDoubles`, `CheckIsSoundWithoutDoubles`). For articles by offset it is settled which archives are
  read right on every range (`ArchiveSoundByArticles`, over `SoundExactlyWhen` for each volume; `FirstByteMatters` and
  `EndsMatter` show what their order and the first byte are for).
- The parser of an encoded 7z header does not refuse every malformed one: a negative count of streams ends in a panic,
  exactly when a list of sizes or digests follow it (`PanicExactly`).
- The module limits can exceed the capacity by one (`LimitsShareCapacity`), can be overshot by concurrent admissions,
  exactly when there are more callers than the limit and a slot to be had (`LimitCanBeOvershot`,
  `ReservationBoundIsReached`), and the reserve percentage is never used (`ReservePercentIsIgnored`).
- A closed connection can be pooled, exactly when a body read was aborted on it (`ClosedConnectionCanBePooled`,
  `PooledIsClean`); a closed provider can keep an open connection, exactly when a return had passed its check and
  there is room (`ClosedProviderCanKeepAConnection`, `LateReturnExactlyWhen`).
- Closing a fetched reader twice closes the pooled one twice, which leaves the pool whole exactly when neither call
  gave the connection back (`ClosingTwice`). A timeout that comes with bytes loses them (`DeliveredIsReceived`).
- Paused does not mean that the running job was asked to stop: exactly a pause between pick and activation misses it
  (`PausedJobCanRunOn`, `UnsignalledExactlyWhen`).
- A terminal queue status is not absorbing (`FailedCanBecomeCompleted`, `TerminalChangesOnlyForEarlyCancel`,
  `OutOfQueueSince`); an accepted cancel does not mean failed (`CancelCanEndInRequeue`, `HowACancelledJobEnds`); and
  completed does not mean post-processed (`CompletedCanBeUnprocessed`, `ProcessedUnlessCancelled`).
- Each assembly worker has its own recovery cap, so the merged work is the serial one exactly while the workers'
  attempts together stay within one cap (`ParallelIsSerial`).

## Model

| member | source | states |
|---|---|---|
| `YencReader.YencDecoder.Read` | internal/nzb/yenc.go:77-127 | the decoded bytes, the error, the escape state, the unread input and the hash are those of the call specification `ReadCall`, and nothing outside the bytes read into the buffer is touched |
| `YencReader.YencDecoder.DecodeInto` | internal/nzb/yenc.go:82-122 | the decoding loop fills the buffer with what `Decode` yields and stops for the same reason |
| `YencReader.YencDecoder.ParseFooter` | internal/nzb/yenc.go:129-151 | the expected checksum after scanning the footer fields left to right, as `FooterFieldExactly` and `VerifyIsExact` pin it to the digits on the line |
| `NumberText.ParseHex32Exactly` | internal/nzb/yenc.go:134-147 | the checksum parser gives a number exactly for that number's hexadecimal text, in either case and with any leading zeros, if it has 32 bits, and otherwise none |
| `NumberText.EightHexDigits` | internal/nzb/yenc.go:134-147 | eight digits in any cases are read back as the number they write |
| `NumberText.ParseInt64Exactly` | internal/nzb/yenc.go:181-198 | the decimal parser gives a number exactly for that number's text, with an optional sign, if it fits 64 bits, and otherwise none |
| `YencRoundTrip.FooterFieldExactly` | internal/nzb/yenc.go:133-149 | a footer field gives a checksum exactly when it is `pcrc32=` or `crc32=` followed by that number in hexadecimal |
| `YencReader.YencDecoder.Verify` | internal/nzb/yenc.go:153-165 | a mismatch is reported exactly when a nonzero checksum is expected and differs from the hash, with both values |
| `YencReader.YencDecoder.DiscardHeader` | internal/nzb/yenc.go:63-75 | header fields, remaining input and error are those of reading the header off the stream |
| `YencReader.YencDecoder.HandlePotentialPartHeader` | internal/nzb/yenc.go:209-221 | an optional `=ypart` line changes only the part range; without one nothing is consumed |
| `YencHeaders.ParseYbeginLine` | internal/nzb/yenc.go:178-207 | the loop over the fields of a `=ybegin` line folds them into the header, a later valid field winning |
| `YencHeaders.ParseYpartLine` | internal/nzb/yenc.go:241-258 | the same for the begin and end of a `=ypart` line; `PartFieldExactly` says what each field does |
| `HeaderText.BeginFieldExactly` | internal/nzb/yenc.go:180-206 | what a field of a `=ybegin` line does, by its key and the number written behind it: part and total only when positive, size always, name as it stands |
| `HeaderText.OtherBeginField` | internal/nzb/yenc.go:180-206 | any other field, and a number that is none or does not fit, leaves the header alone |
| `HeaderText.PartFieldExactly` | internal/nzb/yenc.go:241-258 | the begin field sets the offset to the written number less one, the end field the end to a positive number |
| `HeaderText.OtherPartField` | internal/nzb/yenc.go:241-258 | any other field of that line leaves the header alone |
| `HeaderText.HeaderIsReadBack` | internal/nzb/yenc.go:63-75 | header lines written from part, total, size, name, begin and end, fields in any order and spacing among any others, after any other lines: reading gives those values, the part's place counted from zero, and leaves what follows |
| `HeaderText.HeaderWithoutPartLine` | internal/nzb/yenc.go:223-233 | without a `=ypart` line the part's place stays zero and nothing behind the `=ybegin` line is consumed |
| `HeaderText.UnfinishedPartLine` | internal/nzb/yenc.go:234-239 | a `=ypart` line without its newline uses up the stream and reports its end |
| `HeaderText.NoHeaderLine` | internal/nzb/yenc.go:63-68 | a stream without a header line is used up and its own end reported |
| `YencDecoding.ChunkingIsInvisible` | internal/nzb/yenc.go:77-127 | however the output is cut into buffers, the calls together give the same bytes, error, end state, hash and announced checksum as one large call |
| `YencDecoding.DecodeSplit` | internal/nzb/yenc.go:77-127 | decoding j+k bytes is decoding j and, unless that ended, k more |
| `YencDecoding.PartChecksumWins` | internal/nzb/yenc.go:129-151 | a valid `pcrc32` decides, in either field order |
| `YencDecoding.LastWholeChecksumWins` | internal/nzb/yenc.go:143-149 | without one the last valid `crc32` decides |
| `YencDecoding.NoChecksumKeeps` | internal/nzb/yenc.go:129-151 | without either the expectation stays as it was |
| `YencRoundTrip.RoundTrip` | internal/nzb/yenc.go:77-127 | every conforming encoding followed by its footer decodes to its data, for every cutting of the reads, with the footer parsed and exactly the data hashed |
| `YencRoundTrip.ConformingIsNotMisread` | internal/nzb/yenc.go:90-99 | the look-ahead never takes an escape pair of a conforming encoding for the footer |
| `YencRoundTrip.DrainIsInverse` | internal/nzb/yenc.go:77-127 | for encodings that escape anything decodable, draining gives the data back exactly when no escape pair reads as the footer |
| `YencRoundTrip.OverEscapingIsMisread` | internal/nzb/yenc.go:90-99 | a body of four bytes, one of them escaped without need, is taken for the footer at its first byte and nothing comes out, whatever the footer |
| `YencRoundTrip.DrainTruncated` | internal/nzb/yenc.go:82-87 | a body without footer is handed out whole and then the stream end is reported |
| `YencRoundTrip.VerifyIsExact` | internal/nzb/yenc.go:129-165 | a conforming article drained up to the end of its footer line gives its data and verifies exactly when the number written there, the first `pcrc32`, else the last `crc32`, else none, is zero or the checksum of the data |
| `YencHeaders.ReadBodyPrefixUntilYBegin` | internal/nntp/provider.go:731-765 | the scan returns the prefix of the body that ends after the first `=ybegin` line or at the limit, and an error only when the stream broke before either |
| `YencHeaders.PrefixKeepsHeader` | internal/nntp/provider.go:731-765 | when the header line fits, the prefix ends right after it and yields the same part, total, size and name as the whole body; only the `=ypart` range is missing |
| `HeaderText.PrefixEndsAfterHead` | internal/nntp/provider.go:731-765 | of a written article the scan keeps everything up to its header line, or the first bytes up to the limit, 8192 where the caller gives none, and reports no error |
| `HeaderText.PrefixWithoutHead` | internal/nntp/provider.go:731-765 | without a header line it keeps what the limit allows, and a broken stream is reported unless the limit was reached or the unfinished last line starts like a header |
| `FileWriting.FileWriter.GetOrCreateFile` | internal/engine/file_writer.go:53-84 | an open handle is reused, otherwise the file is opened or created with its content kept |
| `FileWriting.FileWriter.WriteAt` | internal/engine/file_writer.go:26-39 | the content becomes the positional overwrite; other files and, on error, everything stay |
| `FileWriting.FileWriter.PreAllocate` | internal/engine/file_writer.go:41-51 | the content is cut or zero-extended to the size; other files always, and every content on error, stay |
| `FileWriting.FileWriter.CloseFile` | internal/engine/file_writer.go:100-129 | the handle goes; a positive final size truncates or extends, an unknown path is left alone |
| `FileWriting.AgreeingWritesAssemble` | internal/engine/file_writer.go:26-39 | writes that agree with a target and cover it leave the target, in any order, with repetitions, over any earlier content |
| `FileWriting.PartsAssemble` | internal/engine/file_writer.go:26-51 | the parts of a file written at their offsets in any order, then cut to size, are the concatenation |
| `SegmentProcessing.DispatchJobs` | internal/engine/worker.go:201-229 | the jobs of the incomplete tasks in order, each with the sum of the sizes listed before it as offset |
| `SegmentProcessing.CountSegments` | internal/engine/worker.go:19-25 | the count the collector waits for is the number of dispatched jobs |
| `SegmentProcessing.CompleteTaskSendsNothing` | internal/engine/worker.go:205-209 | a complete task sends no job, wherever it stands |
| `SegmentProcessing.IncompleteTaskSendsAll` | internal/engine/worker.go:210-223 | any other sends a job for each segment in order, with the file's path and an offset that grows by the listed sizes from zero |
| `SegmentProcessing.DecodeSegment` | internal/engine/worker.go:154-184 | header, write offset, bounded read and verification give the segment outcome, and a positive file size is recorded |
| `SegmentProcessing.ProcessSegment` | internal/engine/worker.go:137-198 | on success the file changes by one overwrite at the write offset and the progress by the bytes written; on any error neither changes; other files never do |
| `FileAssembly.ArticleOutcome` | internal/engine/worker.go:161-184 | exactly when a well-formed article succeeds and what it yields: the checksum counts only when the listed size exceeds the decoded size |
| `FileAssembly.TruncatedOutcome` | internal/engine/worker.go:172-184 | a stream that ends before its footer is accepted unless the buffer still had room and the reader broke |
| `FileAssembly.LandsAtPartOffset` | internal/engine/worker.go:165-170 | the data lands at the header offset exactly when that is nonzero or the listed offset is zero |
| `FileAssembly.FileIsAssembled` | internal/engine/worker.go:161-223 | parts that tile the file, the first listed first: any order of successful writes followed by the final truncation leaves the concatenated parts |
| `FileAssembly.BytesWrittenIsTotal` | internal/engine/worker.go:193-194 | the decoded lengths of the parts add up to the file length |
| `WrittenArticles.ConformingArticleCarries` | internal/engine/worker.go:154-191 | the article of a part, written with its header lines, encoded data and footer, is a whole write of the part at its place exactly when the listed size equals the part's, or exceeds it and the announced checksum is zero or right |
| `FileAssembly.WholeExactlyWhenFirstListedFirst` | internal/engine/worker.go:165-223 | with every part listed once, the file comes out whole for every earlier content and finishing order exactly when the part that starts it is listed first; otherwise its first byte is never written |
| `WrittenArticles.PartArticleOutcome` | internal/engine/worker.go:154-184 | the outcome of a written article of a part: its header, and its data at the place its `=ypart` line gives, or at the listed offset when that is the start of the file |
| `WrittenArticles.WholeArticleOutcome` | internal/engine/worker.go:154-184 | a written article without a part line lands at exactly its listed offset |
| `WrittenArticles.HeaderlessOutcome` | internal/engine/worker.go:155-157 | a stream without header line, or cut off inside its part line, fails with the stream's own end |
| `WrittenArticles.PartsComeOutWhole` | internal/engine/worker.go:161-223 | a file posted in written parts, each once and intact, comes out whole in any finishing order exactly when the part that starts it is listed first |
| `WrittenArticles.WholeWithoutPartLines` | internal/engine/worker.go:161-223 | a file of articles without part lines comes out whole in any finishing order when the listed sizes are exact |
| `WorkerPoolRuns.EverySegmentInOnePlace` | internal/engine/worker.go:18-134 | in every reachable uncancelled state each segment is in exactly one of undispatched, queued, held, in results, delayed or completed |
| `WorkerPoolRuns.CleanShutdown` | internal/engine/worker.go:68-118 | at loop exit all channels are empty and no worker holds a job; each segment succeeded once or used up its four errors; the pool error is nil exactly when all succeeded once |
| `WorkerPoolRuns.Progress` | internal/engine/worker.go:42-134 | until the last segment is counted some step is possible, however full both channels are |
| `WorkerPoolRuns.OnlyBusyResultsProlongARun` | internal/engine/worker.go:88-113 | at most four counting results per segment are consumed and a run is bounded by that and the number of busy results |
| `WorkerPoolRuns.StepKeepsInv` | internal/engine/worker.go:18-134 | every step of dispatcher, workers, collector and requeues keeps conservation, the retry budget and the record of answers |
| `WorkerPoolRuns.SpentStep` | internal/engine/worker.go:88-111 | each counting error of a segment raises its spent retries by exactly one, on every step |
| `WorkerPoolCancellation.CancellationCanStrandAWorker` | internal/engine/worker.go:47-131 | after a cancellation a worker can be left blocked on its result for ever exactly when there are more segments than result places |
| `WorkerPoolCancellation.StrandedForEver` | internal/engine/worker.go:69-71 | no continuation frees such a worker |
| `PoolAssembly.FilesComeOutWhole` | internal/engine/worker.go:18-229 | a pool run without error, in which the attempt that succeeded for each segment of a task carried its part, whatever failed before, leaves exactly the concatenated parts, in whatever order they completed, and adds exactly their length to the progress |
| `PoolAssembly.OrderIsPermutation` | internal/engine/worker.go:18-134 | the successes of a task are its segments, each once |
| `ArchiveRanges.MaterializeFileRangeFromStart` | internal/indexing/inspect/archive_probe.go:739-769 | front to back with the early stop: buffer, count and error are those of the specification, the rest of the target untouched |
| `ArchiveRanges.MaterializeFileRangeFromEnd` | internal/indexing/inspect/archive_probe.go:771-804 | the same back to front with its two stops |
| `ArchiveRanges.MaterializeFileRange` | internal/indexing/inspect/archive_probe.go:725-737 | the direction is chosen by the range and only the stretch of the buffer changes |
| `ArchiveRanges.ReadArchiveRange` | internal/indexing/inspect/archive_probe.go:688-723 | the volumes fill the buffer in turn, up to the first error; an empty range is refused |
| `ArchiveRanges.FillFileIsExact` | internal/indexing/inspect/archive_probe.go:739-804 | for articles in order without shared positions, gaps allowed, both directions put the archive byte at every held position, leave the others, and count exactly the held ones |
| `ArchiveRanges.FillVolumesIsExact` | internal/indexing/inspect/archive_probe.go:700-720 | the same over the virtual concatenation of the volumes |
| `ArchiveRanges.FullCountMeansTrueSlice` | internal/indexing/inspect/archive_probe.go:253-255 | the count reaches the wanted length exactly when every position is held, and then the buffer is the true slice of the archive |
| `ArchiveOverlaps.FillIsWhatWasSeen` | internal/indexing/inspect/archive_probe.go:739-804 | for any articles, shared positions or not: the count is the number of copies on the articles looked at, and exactly the positions those hold are filled, with the true bytes |
| `ArchiveOverlaps.CheckFailsExactlyWhen` | internal/indexing/inspect/archive_probe.go:739-804 | for any articles of one file: the count of an incomplete stretch reaches its length exactly when positions are missing but no more than there are surplus copies among the articles looked at; that of a complete stretch always does |
| `ArchiveTotals.TotalCountsCopies` | internal/indexing/inspect/archive_probe.go:688-723 | for any articles and any range: what a read counts is the sum, over the volumes, of the copies on the articles looked at in each |
| `ArchiveTotals.RangeCheckFailsExactlyWhen` | internal/indexing/inspect/archive_probe.go:340-356 | for any volumes, articles and range: the callers' check passes on an incomplete range exactly when positions are missing, those outside the archive included, but in all no more than there are surplus copies; a complete range always passes |
| `ArchiveTotals.BufferIsTrueExactlyWhen` | internal/indexing/inspect/archive_probe.go:688-723 | a range read without error is the slice of the archive exactly when it lies inside and only zeros were not looked at; a complete range always is |
| `ArchiveTotals.SoundRangeWithoutDoubles` | internal/indexing/inspect/archive_probe.go:253-255 | articles in any order, none of a volume's positions held twice: the check passes on no incomplete range |
| `ArchiveSoundness.ArchiveSoundByArticles` | internal/indexing/inspect/archive_probe.go:253-255 | articles by offset: the check can be trusted on every range exactly when it can in every volume taken for itself and no volume with doubles that a fill sees twice reaches, over volumes that have articles, one with a missing byte or an end of the archive |
| `ArchiveSoundness.PaysAtEndExactlyWhen` | internal/indexing/inspect/archive_probe.go:771-803 | which volumes have surplus for what follows them: a double whose later article does not start at the first bytes, or, the first byte held, whose other article stops before the end |
| `ArchiveSoundness.PaysAtStartExactlyWhen` | internal/indexing/inspect/archive_probe.go:739-769 | which have it for what precedes them: the first byte held, and a double one of whose articles stops before the end |
| `ArchiveSoundness.VolumesPayForEachOther` | internal/indexing/inspect/archive_probe.go:289-291 | two volumes, each sound for itself, that together pass the check with a byte nobody holds |
| `ArchiveOverlaps.CheckIsSoundWithoutDoubles` | internal/indexing/inspect/archive_probe.go:688-723 | articles in any order, none of a volume's positions held twice: the count never exceeds the wanted length, and reaching it means the buffer is the true slice of the archive |
| `ArchiveOverlaps.DisjointIsNoDouble` | internal/indexing/inspect/archive_probe.go:758-763 | articles that share nothing hold no position twice, in whatever order they are listed |
| `ArchiveLayouts.SoundExactlyWhen` | internal/indexing/inspect/archive_probe.go:739-804 | one file of articles by offset, starts and ends: its count can be trusted on every stretch exactly when no byte is held twice, or none is missing, or only the first is missing and articles that share a byte all reach the end, or one doubled byte lies between the missing first byte and another missing one |
| `ArchiveLayouts.UnsoundWithFirstByte` | internal/indexing/inspect/archive_probe.go:739-804 | with the first byte held, a byte held twice and another missing always give a stretch of the file whose count deceives |
| `ArchiveLayouts.FirstByteMatters` | internal/indexing/inspect/archive_probe.go:750-766 | without the first byte they need not: two copies up to the end are never both counted |
| `ArchiveLayouts.EndsMatter` | internal/indexing/inspect/archive_probe.go:771-803 | listed by offset alone, an article that reaches beyond later ones lets the count deceive although every byte is held |
| `ArchiveOverlaps.OverlapsAreCountedTwice` | internal/indexing/inspect/archive_probe.go:758-766 | a part delivered twice is counted twice and the check passes with the other half still zero |
| `ArchiveWriting.ProbeFiles.CreateSparseArchiveFamily` | internal/indexing/inspect/archive_probe.go:397-413 | every volume exists with its exact size, zero-filled |
| `ArchiveWriting.ProbeFiles.WriteArchiveFamilyRange` | internal/indexing/inspect/archive_probe.go:430-469 | contents and count after writing each overlapping volume in turn, up to the first that cannot be opened |
| `ArchiveWriting.ReachExactly` | internal/indexing/inspect/archive_probe.go:430-469 | the writing gets through exactly when every volume the data touches can be opened, and else up to the first that cannot |
| `ArchiveWriting.FamilyWriteIsOneWrite` | internal/indexing/inspect/archive_probe.go:430-469 | the split write changes the concatenation as one write clipped to it, and returns the clipped length |
| `ArchiveWriting.FamilyWriteReadsBack` | internal/indexing/inspect/archive_probe.go:430-469 | inside the archive the written range reads back and nothing else moves |
| `ArchiveWriting.SplitWriteRefinesSingleWrite` | internal/indexing/inspect/archive_probe.go:430-487 | the split write equals the single-file write exactly when the data does not reach beyond the archive |
| `ArchiveWriting.CombinedProbeFile.WriteSparseArchiveFileRange` | internal/indexing/inspect/archive_probe.go:471-487 | one overwrite of the combined file, nothing for no data, an error for a missing file or negative offset |
| `ArchiveWriting.MaterialisedRangeIsTrue` | internal/indexing/inspect/archive_probe.go:247-262 | where the check is right, a range that passes it and is written keeps the combined probe file an image of the archive and makes the range true |
| `ArchiveWriting.ProbeStaysAnImage` | internal/indexing/inspect/archive_probe.go:247-295 | from any image on, any such ranges in any order leave an image of the archive that is true on each of them |
| `ArchiveWriting.FirstArticleKeepsImage` | internal/indexing/inspect/archive_probe.go:222-229 | the first article, written to the fresh probe file, makes it an image exactly when it stays inside the archive and what it has beyond its own volume is zero or right |
| `SevenZip.SevenZipByteReader.ReadNumber` | internal/indexing/inspect/archive_probe.go:910-932 | value and position after a variable-length number, or the end of data |
| `SevenZip.NumberInverse` | internal/indexing/inspect/archive_probe.go:910-932 | reading inverts every valid encoding, of one to nine bytes, of a number below 2^63 and consumes exactly its bytes |
| `SevenZip.EveryNumberFits` | internal/indexing/inspect/archive_probe.go:910-932 | every number below 2^63 has an encoding |
| `SevenZipClassification.NumberCode` | internal/indexing/inspect/archive_probe.go:910-932 | whatever number is read stands there as one of its encodings, negative ones included |
| `SevenZip.SevenZipByteReader.SkipDigests` | internal/indexing/inspect/archive_probe.go:934-968 | position after the digests, the end of data, or a panic for a negative count |
| `SevenZip.SevenZipByteReader.ReadBits` | internal/indexing/inspect/archive_probe.go:945-957 | the bit vector, highest bit first, one byte for every eight digests |
| `SevenZip.SevenZipByteReader.ReadN` | internal/indexing/inspect/archive_probe.go:970-977 | the position moves by the length exactly when that much data is left |
| `SevenZipParsers.ParseSevenZipEncodedHeaderPackRange` | internal/indexing/inspect/archive_probe.go:830-894 | no encoded header exactly for data whose first byte is another; a range from exactly the data that starts with a serialised pack info with a list of sizes; a panic from a negative count before a list or digests; everything else, empty and cut-off data among it, refused |
| `SevenZipHeaders.DigestsInverse` | internal/indexing/inspect/archive_probe.go:934-968 | skipping serialised digests consumes one byte, the vector unless all are defined, and four for each defined digest |
| `SevenZipHeaders.PropertiesInverse` | internal/indexing/inspect/archive_probe.go:861-893 | properties in any order and number: the last list of sizes is the one that stands, exactly the serialised bytes are consumed |
| `SevenZipHeaders.PackInfoInverse` | internal/indexing/inspect/archive_probe.go:830-894 | any serialised pack info is read back as its position and the end of its streams, both as the `int64` they are stored in |
| `SevenZipHeaders.StartHeaderInverse` | internal/indexing/inspect/archive_probe.go:806-828 | any start header is read back as the `int64` range it gives; an empty next header and an offset or size past 2^63 are refused |
| `SevenZipClassification.RangeExactly` | internal/indexing/inspect/archive_probe.go:830-894 | a range is read from exactly the data that starts with a serialised pack info, encodings longer than needed, spare vector bits and negative numbers included, with a list of sizes, and it is that of its streams |
| `SevenZipClassification.PanicExactly` | internal/indexing/inspect/archive_probe.go:864-878 | the parser panics on exactly the data with a negative stream count and a list of sizes, or digests that have begun, right after it |
| `SevenZipClassification.CutOffIsRejected` | internal/indexing/inspect/archive_probe.go:830-894 | a serialised pack info cut off anywhere is refused |
| `SevenZipClassification.StartHeaderExactly` | internal/indexing/inspect/archive_probe.go:806-828 | the place of the next header is read from exactly the data that starts with the signature, two version bytes, the right checksum and an offset and a positive size below 2^63 |
| `ProviderSlots.RunConserves` | internal/nntp/manager.go:707-732 | over all interleavings each semaphore holds one token per caller on it, within its capacity, and each module counter one count per counted caller |
| `ProviderSlots.SlotsAndCounters` | internal/nntp/manager.go:1138-1146 | occupied slots stay within the total capacity and exceed the active counts exactly by the tokens in transit |
| `ProviderSlots.GivingBackNeverBlocks` | internal/nntp/manager.go:948-954 | the receive of a release finds the caller's own token |
| `ProviderSlots.ReservationBound` | internal/nntp/manager.go:1075-1089 | limit L and at most W callers between check and count keep the active count within L-1+W |
| `ProviderSlots.ReservationBoundIsReached` | internal/nntp/manager.go:707-732 | the bound is reached for every limit, width and capacity, given one slot and callers enough |
| `ProviderSlots.LimitCanBeOvershot` | internal/nntp/manager.go:718-724 | some run of n callers exceeds a limit of L exactly when n > L and there is a slot at all |
| `ProviderSlots.AdmissionKeepsTheBound` | internal/nntp/manager.go:1075-1136 | over every run whose admissions pass the limit check under the options, downloader demand coming and going, the active count stays within the limit without demand, less one, plus the width |
| `ProviderSlots.StepMovesOneCaller` | internal/nntp/manager.go:707-954 | a step moves one caller along its own phases; whether it can is decided by that phase, the limit and the room in the semaphore alone |
| `ProviderSlots.LimitsShareCapacity` | internal/nntp/manager.go:1097-1136 | without idle borrowing the limits sum to capacity or one less, with the exact condition, and to one more exactly for a single slot or a full indexer share |
| `ProviderSlots.LimitsAreShares` | internal/nntp/manager.go:1097-1136 | each limit on its own: the indexer's is the greatest number within its share of the capacity, or one, while it may not borrow, and the capacity otherwise; the downloader's is the same of the rest without borrowing, and the capacity with it |
| `ProviderSlots.CanAcquireExactly` | internal/nntp/manager.go:1075-1089 | a module may take a slot always without reservations, and otherwise exactly while its count is below its share, or below the capacity where it has all of it |
| `ProviderSlots.ReservePercentIsIgnored` | internal/nntp/manager.go:1109-1117 | the reserve percentage never has an effect |
| `Admission.Manager.Acquire` | internal/nntp/manager.go:707-732 | a slot is taken exactly when the scope is allowed, the module below its limit (`CanAcquireExactly`) and the semaphore has room; then the semaphore and the counter of the scope's own module go up by one |
| `Admission.Manager.ReleaseForScope` | internal/nntp/manager.go:948-954 | the semaphore and the counter of the scope's own module go down by one |
| `Admission.Manager.ProviderAcquireOrder` | internal/nntp/manager.go:855-894 | the loops give the order of attempts: stable by utilisation for recovery, otherwise the nearly full providers with an idle peer last |
| `Admission.Manager.TryProviders` | internal/nntp/manager.go:808-822 | one round of waiting takes a slot at the first provider of that order with room, when the module is below its limit |
| `Admission.OrderIsPermutation` | internal/nntp/manager.go:855-894 | no provider is dropped or tried twice |
| `Admission.SortOrders` | internal/nntp/manager.go:869-880 | the recovery order is sorted by utilisation, then priority |
| `Admission.RecoveryOrder` | internal/nntp/manager.go:869-880 | for recovery the provider with the smaller part of its slots occupied, in hundredths of a percent, comes first, and of equally occupied ones that with the smaller priority number |
| `Admission.SortIsStable` | internal/nntp/manager.go:871-879 | providers with the same utilisation and priority keep their listed order |
| `Admission.UtilizationIsMonotone` | internal/nntp/manager.go:896-905 | a provider with the smaller ratio of occupied slots is never the more utilised one |
| `Admission.DeferredExactly` | internal/nntp/manager.go:882-929 | tried last is an eligible provider with at least 95 of 100 slots occupied while another eligible one of the list has a free slot |
| `Admission.PlaceInOrder` | internal/nntp/manager.go:882-894 | the place of every provider in the order for other work, by how many deferred and other ones are listed before it |
| `Admission.LoneCandidateKeepsOrder` | internal/nntp/manager.go:855-868 | unless two providers of the list may serve the scope it is tried as it is |
| `Admission.GrantFindsRoom` | internal/nntp/manager.go:812-822 | a round finds a slot exactly when some listed provider has one |
| `Admission.GrantPrefersHeadroom` | internal/nntp/manager.go:855-929 | a nearly full provider is used only when every listed provider with room is one; for recovery none with room is less utilised |
| `Failover.Manager.Fetch` | internal/nntp/manager.go:412-485 | terminates; not found exactly when somebody is eligible and all of those answered 430; an error only after a provider broke; the missing set grows by 430 answers only; a pass without waiting goes by priority; before a reader or an end without one every eligible provider that had a slot and was not missing was asked; a slot is held exactly when a reader is returned, and on slots and counters the call is one walk of a caller of `ProviderSlots` that ends idle or with that reader |
| `Failover.ClosingEndsTheWalk` | internal/nntp/manager.go:503-526 | closing the reader a fetch returned completes that walk: the caller is idle again |
| `Failover.Manager.TryEach` | internal/nntp/manager.go:424-452 | one pass asks, by priority and at most once, exactly the eligible providers not missing that have a free slot, up to the first that delivers; the answers say what happened to the slot and the missing set |
| `Failover.Manager.FetchAfterWait` | internal/nntp/manager.go:466-480 | the waiting half, re-entered with strictly fewer providers left |
| `Failover.FewerLeft` | internal/nntp/manager.go:473-475 | one more eligible provider in the missing set leaves strictly fewer |
| `Failover.Manager.WaitForFetchProvider` | internal/nntp/manager.go:773-793 | a granted provider is eligible and not missing and its slot taken; busy exactly when nobody is eligible, not found exactly when all eligible are missing |
| `Failover.Manager.FetchFromAcquiredProvider` | internal/nntp/manager.go:503-526 | the held slot goes into the reader when the article comes and back otherwise, and only a 430 marks the provider missing |
| `Failover.Manager.ArticleNotFoundError` | internal/nntp/manager.go:487-501 | the error names the missing providers in order |
| `Failover.AttemptAt` | internal/nntp/manager.go:487-501 | each missing provider is named at the place given by the missing ones before it, and no other is |
| `Failover.AllowsExactly` | internal/nntp/manager.go:1021-1048 | which provider may serve which scope: each named scope needs its role, where a provider has any roles |
| `Failover.CountsDecide` | internal/nntp/manager.go:454-458 | the count of missing eligible providers reaches the eligible count exactly when all are missing |
| `Failover.ReleaseReader.Close` | internal/nntp/manager.go:1170-1184 | every close closes the wrapped reader; the first gives back exactly one slot, later ones none |
| `ConnectionPool.PooledIsClean` | internal/nntp/provider.go:554-609 | in every reachable state the pool is within its size and a pooled connection is at a command boundary, pooled once, in nobody's hands, and open exactly when no body read was aborted on it |
| `ConnectionPool.NoneLeaks` | internal/nntp/provider.go:554-671 | a dialled connection nobody has is pooled or closed, and no two users share one |
| `ConnectionPool.StepKeepsInv` | internal/nntp/provider.go:554-729 | every step of get, use, read, close, discard, return and provider close keeps the pool invariant |
| `ConnectionPool.ClosedConnectionCanBePooled` | internal/nntp/provider.go:1025-1071 | a run in which a read aborted by its context is followed by a drain from buffered data and a closed connection is pooled |
| `ConnectionPool.ClosedProviderCanKeepAConnection` | internal/nntp/provider.go:593-631 | a run in which a closed provider keeps an open pooled connection |
| `ConnectionPool.DrainedStaysEmpty` | internal/nntp/provider.go:611-631 | without a user between check and push, or without room, the pool of a closed and drained provider stays empty |
| `ConnectionPool.LateReturnExactlyWhen` | internal/nntp/provider.go:581-631 | a closed and drained provider can still come to keep a connection exactly when there is room and some user has passed the check and not pushed yet |
| `PooledProvider.NntpProvider.GetConn` | internal/nntp/provider.go:554-579 | the first pooled connection that has not expired, or a new one when the dial succeeds; those passed over are closed, the rest untouched |
| `PooledProvider.SkippedHadExpired` | internal/nntp/provider.go:561-572 | everything in front of the connection handed out had expired, and it had not |
| `PooledProvider.NntpProvider.ReturnConn` | internal/nntp/provider.go:581-609 | pooled at the end exactly when open, unexpired and with room, closed otherwise; the pool stays clean if the connection was not in it |
| `PooledProvider.NntpProvider.Close` | internal/nntp/provider.go:611-631 | nothing stays pooled and everything that was is closed; a second call does nothing |
| `PooledProvider.NntpProvider.FetchWithConn` | internal/nntp/provider.go:673-709 | a reader on the connection exactly when the article follows; after a 430 the connection goes back, when it may, and is closed otherwise; after any failure it is closed |
| `PooledProvider.NntpProvider.Fetch` | internal/nntp/provider.go:176-203 | a second attempt exactly after a recoverable error of the first; afterwards every connection is pooled, closed, in the hands it was in, or under the reader that came back |
| `PooledProvider.ClosingTwice` | internal/nntp/provider.go:1055-1071 | closing a reader twice leaves the pool whole exactly when neither call gave the connection back: two returns pool it twice, one leaves it pooled but closed |
| `PooledProvider.NntpProvider.FetchBodyPrefix` | internal/nntp/provider.go:711-729 | a connection whose body was read in part is closed, never pooled |
| `PooledProvider.PooledReader.Close` | internal/nntp/provider.go:1055-1071 | the connection goes back only drained, at a boundary; otherwise it is closed; it is kept, so a second call does the same again |
| `BodyReads.BodyReader.Read` | internal/nntp/provider.go:1025-1053 | the retry loop returns the first answer that is no timeout; an ended context closes the connection |
| `BodyReads.DeliveredIsReceived` | internal/nntp/provider.go:1032-1052 | the body handed out is the body received exactly when no timeout came with bytes, and shorter otherwise |
| `BodyReads.ReadIsAPoolStep` | internal/nntp/provider.go:1025-1053 | a read is a step of the connection pool or none: it keeps the pool invariant and leaves the connection open exactly when it was and the context has not ended |
| `PooledProvider.PooledReader.Discard` | internal/nntp/provider.go:1073-1079 | the connection is closed and forgotten, the pool untouched |
| `QueueManagement.QueueManager.Add` | internal/engine/manager.go:202-225 | the item is appended to the live queue |
| `QueueManagement.QueueManager.Pick` | internal/engine/manager.go:250-260 | the first item of the queue that has neither completed nor failed, none while paused |
| `QueueManagement.QueueManager.Activate` | internal/engine/manager.go:275-279 | the item becomes active with a cancel function, its context a child of the loop's |
| `QueueManagement.QueueManager.Pause` | internal/engine/manager.go:334-351 | paused; a running job is signalled and remembered |
| `QueueManagement.QueueManager.Resume` | internal/engine/manager.go:354-368 | unpaused, and whether it was paused |
| `QueueManagement.QueueManager.Cancel` | internal/engine/manager.go:376-415 | accepted exactly for a live unfinished item, which is signalled or failed and removed |
| `QueueManagement.QueueManager.FinalizeJob` | internal/engine/manager.go:493-585 | requeued in place, failed or completed and removed, the active item cleared |
| `QueueManagement.QueueManager.RemoveFromLiveQueue` | internal/engine/manager.go:601-608 | the first occurrence is removed |
| `QueueManagement.RemoveKeepsOrder` | internal/engine/manager.go:601-608 | removal keeps the loading order and exactly the other items |
| `QueueRunner.StepKeepsInv` | internal/engine/manager.go:237-585 | every step of the runner and of Add, Cancel, Pause, Resume and Stop keeps the queue invariant |
| `QueueRunner.NoLostWakeUp` | internal/engine/manager.go:246-269 | a runner blocked while the queue is unpaused and non-empty finds a token, or a caller about to send one |
| `QueueRunner.RunnerIsNeverStuck` | internal/engine/workflow.go:18-86 | outside the channel the runner always has a step of its own |
| `QueueRunner.JobIsBounded` | internal/engine/workflow.go:18-86 | between two looks at the queue the runner takes at most twelve steps of its own, whatever the callers do |
| `QueueRunner.LiveQueue` | internal/engine/manager.go:223-225 | the live queue is in loading order, each item once, holds exactly the unfinished items, and exactly the active item has a cancel function |
| `QueueRunner.PauseAndCancelDecide` | internal/engine/manager.go:334-415 | pause signals a running job exactly when the queue was not paused already or the job has been signalled before; cancel of a live item signals it or fails and removes it, leaving the others |
| `QueueRunner.PauseSignalsSince` | internal/engine/manager.go:334-351 | a running job has been asked to stop exactly when a pause took effect since its activation, and its context has then ended |
| `QueueRunner.UnsignalledExactlyWhen` | internal/engine/manager.go:250-279 | a job runs on in a paused queue, never asked to stop, exactly when the pause took effect between its pick and its activation; pausing again changes nothing |
| `QueueRunner.ContextEndedExactlyWhen` | internal/engine/manager.go:250-415 | the context of the running job has ended exactly when the manager was stopped, even before the job began, or a pause took effect or a cancel named the job since its activation |
| `QueueRunner.PausedJobCanRunOn` | internal/engine/manager.go:250-279 | a run in which a paused queue runs a job whose context is alive and which no pause will signal |
| `QueueRunner.HowAJobEnds` | internal/engine/manager.go:493-569 | a live job is requeued in place exactly when it ended with a cancellation and a pause took effect since its activation, failed for any other error, completed without one |
| `QueueRunner.HowACancelledJobEnds` | internal/engine/manager.go:376-569 | after an accepted cancel of the running job its context stays ended and the job is requeued, failed or completed under exactly those conditions |
| `QueueRunner.TerminalChangesOnlyForEarlyCancel` | internal/engine/manager.go:553-569 | a finished item changes status exactly when the running job it is left the queue before activation, and then from failed to completed |
| `QueueRunner.OutOfQueueSince` | internal/engine/manager.go:250-279 | such a job was cancelled between pick and activation |
| `QueueRunner.FailedCanBecomeCompleted` | internal/engine/manager.go:250-279 | a run in which a failed item ends completed |
| `QueueRunner.CancelCanEndInRequeue` | internal/engine/manager.go:499-522 | a run in which an accepted cancel ends in a requeue |
| `QueueRunner.ProcessedUnlessCancelled` | internal/engine/workflow.go:52-86 | a job that ended without an error passed the decision about its post-processing and was post-processed exactly when it then was neither cancelled nor out of the queue |
| `QueueRunner.CompletedCanBeUnprocessed` | internal/engine/workflow.go:65-74 | a run in which a completed item was never post-processed |
| `AssembleRun.Split` | internal/indexing/assemble/service.go:212-236 | contiguous batches that cover the headers, as many as workers, the first ones one header longer where it does not divide evenly |
| `AssembleRun.BuildAssembleWork` | internal/indexing/assemble/service.go:461-565 | one pass: header i gives a part made from its rematch when it is not backed off, wants recovery, recovers and is among the first that ask, up to the cap, and from its subject match otherwise; a key's record is that of its first header; the counters count their headers |
| `AssembleContributions.PartOfEachHeader` | internal/indexing/assemble/service.go:489-562 | the key, part number, total, file name and header id of each part, in the order of the headers |
| `AssembleContributions.RecordOfEachKey` | internal/indexing/assemble/service.go:545-549 | the keys are those of the headers that are the first with theirs, in order and each once, and the record kept is that header's |
| `AssembleContributions.CountersOfWork` | internal/indexing/assemble/service.go:468-513 | each recovery counter is the number of headers in its class, and the two lanes divide the headers by their structured identity |
| `AssembleRun.Treat` | internal/indexing/assemble/service.go:491-514 | the rematch counts exactly when recovery is wanted, not backed off, within the cap and succeeds; each counter gains one exactly in its own case |
| `AssembleRun.MergeAssembleWorks` | internal/indexing/assemble/service.go:776-800 | the merged work is the fold of the workers' works |
| `AssembleBatch.MergeIsCollect` | internal/indexing/assemble/service.go:776-800 | merging two works is the work of the headers in a row |
| `AssembleBatch.ParallelIsSerial` | internal/indexing/assemble/service.go:212-273 | the merged work is that of one pass exactly when the workers' recovery attempts together stay within the cap |
| `AssembleRun.AssembleInParallel` | internal/indexing/assemble/service.go:212-273 | the same of the whole run: split, build, merge |
| `AssembleRun.PersistAssembleWork` | internal/indexing/assemble/service.go:567-637 | the two store errors exactly as the store answers; records are upserted in the order of their cache keys; every part gets the id the store returned for its own record, and the parts go on in the order of id, part number and header; the missing-id error comes only for a part without record |
| `AssembleRun.KeysHaveOneOrder` | internal/indexing/assemble/service.go:579-585 | whatever order the merge left the keys in, the records are upserted in one and the same |
| `CacheKeys.AtMostIsLexicographic` | internal/indexing/assemble/service.go:579-585 | the keys are ordered as in a dictionary |
| `CacheKeys.CacheKeyIsInjective` | internal/indexing/assemble/service.go:966-968 | two binaries have the same cache key exactly when provider, newsgroup and binary key agree, whatever characters the last holds |
| `CacheKeys.DecimalWritesNumber` | internal/indexing/assemble/service.go:966-968 | the numbers in the key are written in decimal |
| `AssembleRun.MissingIdIsUnreachable` | internal/indexing/assemble/service.go:609-616 | no merged work has such a part, and each key stands for one record |

## Left out

- YencHeaders.ParseYbeginLine: fields are split at ASCII white space and decimal numbers read as Go does for ASCII digits; other Unicode spaces are not modelled. A file name is cut at its first space, as in the code.
- YencReader.YencDecoder.DiscardHeader: `ReadYencHeader` returns the header and the part-line error in one statement whose evaluation order Go leaves open; the model takes the part line into account, as the repository's tests expect.
- FileWriting.FileWriter.WriteAt: I/O errors in the middle of a write, syncing and locks of single files; opening may fail, later writes to an open handle do not.
- SegmentProcessing.ProcessSegment: a fetch is an error, a nil reader or a stream; a negative listed segment size is excluded by the type.
- WorkerPoolRuns.OnlyBusyResultsProlongARun: busy retries are unbounded, as in the code; delays and sleeps are pending steps without a clock.
- ArchiveRanges.ReadArchiveRange: cancellation is folded into a failed fetch, so the check between volumes is not a step of its own; fetching, its three attempts and backoff are the given result of each article.
- ArchiveWriting.ProbeFiles.WriteArchiveFamilyRange: volumes are distinct files, one content each; two volumes with the same base name are not modelled.
- SevenZip.SevenZipByteReader.ReadNumber: disjoint bits are combined by addition instead of a bitwise or.
- SevenZipParsers.ParseSevenZipEncodedHeaderPackRange: a `make` that fails for an absurdly large positive count of streams.
- ProviderSlots.RunConserves: the semaphore and counter updates of one caller are separate steps; per-scope statistics and waiting counters are not modelled.
- Admission.Manager.ProviderAcquireOrder: the semaphores stand still while the order is computed; absent (nil) providers do not occur.
- Failover.Manager.Fetch: the free slots and the answers of a pass are given, because other callers hold the slots, and those of a re-entry are any; waiting ends in a grant or a cancellation without a clock. Scopes are not trimmed.
- Failover.ReleaseReader.Close: the calls of the wrapped reader's `Close` are counted; what they do is `PooledProvider.PooledReader.Close`.
- Admission.Manager.Acquire: `Admission.Manager` and `Failover.Manager` are two views of the one manager, the first over the shared slots and counters, the second over one caller's calls; `ProviderSlots` is where the callers meet.
- PooledProvider.PooledReader.Discard: its one caller discards a reader that was not closed before.
- BodyReads.BodyReader.Read: what the wrapped reader gives, byte counts and errors, is given; deadlines have no clock.
- ConnectionPool.PooledIsClean: group statistics and overview commands, which use and return connections in the same way.
- QueueManagement.QueueManager.FinalizeJob: timestamps, byte counts, persisted copies, events and notifications.
- QueueRunner.NoLostWakeUp: items loaded from the store are distinct and unfinished; hydration, downloading and post-processing are single long operations with any outcome.
- AssembleRun.BuildAssembleWork: a context error or a failing recovery, which drop the whole run, and durations; matching is a function of the header.
- AssembleRun.PersistAssembleWork: the store calls after the parts are sorted, and the refresh of the binaries' statistics. Binary keys are trimmed when a record is made; strings are compared by character, which for UTF-8 is the order of their bytes.
- ArchiveSoundness.ArchiveSoundByArticles: the next header's checksum, compared after the count (archive_probe.go:256-259), which catches a wrong pass there unless it collides; the encoded header has none.
- Sockets, TLS, authentication, clocks, logging, databases, external tools, HTTP controllers and user interface.
- Search aggregation, settings, categories and archive-name heuristics, which keep no state and run no protocol.
