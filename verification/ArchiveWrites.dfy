/** Writing byte ranges into the sparse probe files of an archive: split over volumes, or one combined file. */
module ArchiveWriting {
  import opened Common
  import opened FileWriting
  import opened ArchiveRanges
  import A = ArchiveTotals

  /** The content of each volume's file, in volume order; `None` where the file cannot be opened. */
  type Contents = seq<Option<Bytes>>

  /** The write that puts `data`, which starts at position `start`, into a volume of positions from `base` on. */
  function Clip(base: nat, size: nat, start: int, data: Bytes): WriteOp {
    var from, to := Max(start, base), Min(start + |data|, base + size);
    if to <= from then WriteOp(0, [])
    else WriteOp(from - base, seq(to - from, i requires 0 <= i < to - from => data[from - start + i]))
  }

  /** Where volume `i` starts in the archive. */
  function StartOf(sizes: seq<nat>, i: nat): nat
    requires i <= |sizes|
  {
    if i == 0 then 0 else StartOf(sizes, i - 1) + sizes[i - 1]
  }

  function Share(sizes: seq<nat>, i: nat, start: int, data: Bytes): WriteOp
    requires i < |sizes|
  {
    Clip(StartOf(sizes, i), sizes[i], start, data)
  }

  /** The volume cannot be opened though there is something to write to it. */
  predicate Stuck(content: Option<Bytes>, op: WriteOp) {
    op.data != [] && content.None?
  }

  function Put(content: Option<Bytes>, op: WriteOp): Option<Bytes> {
    if op.data == [] || content.None? then content else Some(Overwrite(content.value, op.offset, op.data))
  }

  /** The first volume from `i` on that is stuck, or the number of volumes. */
  function Reach(contents: Contents, sizes: seq<nat>, start: int, data: Bytes, i: nat): (r: nat)
    requires i <= |sizes| == |contents|
    ensures i <= r <= |sizes|
    decreases |sizes| - i
  {
    if i == |sizes| || Stuck(contents[i], Share(sizes, i, start, data)) then i
    else Reach(contents, sizes, start, data, i + 1)
  }

  /** Some byte of the data lies in the volume. */
  predicate Touches(sizes: seq<nat>, i: nat, start: int, data: Bytes)
    requires i < |sizes|
  {
    Max(start, StartOf(sizes, i)) < Min(start + |data|, StartOf(sizes, i) + sizes[i])
  }

  /** Volume `n` cannot be opened though the data touches it, and none before it is like that. */
  predicate BlocksFirst(contents: Contents, sizes: seq<nat>, start: int, data: Bytes, n: nat)
    requires |sizes| == |contents|
  {
    && n < |sizes| && Touches(sizes, n, start, data) && contents[n].None?
    && forall i :: 0 <= i < n && Touches(sizes, i, start, data) ==> contents[i].Some?
  }

  /** The writing gets through exactly when every volume the data touches can be opened, and else up to the first that
      cannot. */
  lemma {:induction false} ReachExactly(contents: Contents, sizes: seq<nat>, start: int, data: Bytes, i: nat)
    requires i <= |sizes| == |contents|
    ensures var n := Reach(contents, sizes, start, data, i);
            && (n == |sizes| <==> forall k :: i <= k < |sizes| && Touches(sizes, k, start, data) ==> contents[k].Some?)
            && (n < |sizes| ==> Touches(sizes, n, start, data) && contents[n].None?)
            && forall k :: i <= k < n && Touches(sizes, k, start, data) ==> contents[k].Some?
    decreases |sizes| - i
  {
    if i < |sizes| && !Stuck(contents[i], Share(sizes, i, start, data)) {
      ReachExactly(contents, sizes, start, data, i + 1);
    }
  }

  /** The contents once the first `n` volumes were written. */
  function After(contents: Contents, sizes: seq<nat>, start: int, data: Bytes, n: nat): (r: Contents)
    requires |sizes| == |contents|
    ensures |r| == |contents|
  {
    seq(|contents|, i requires 0 <= i < |contents| =>
      if i < n then Put(contents[i], Share(sizes, i, start, data)) else contents[i])
  }

  /** The bytes that went to the first `n` volumes. */
  function Counted(sizes: seq<nat>, start: int, data: Bytes, n: nat): nat
    requires n <= |sizes|
  {
    if n == 0 then 0 else Counted(sizes, start, data, n - 1) + |Share(sizes, n - 1, start, data).data|
  }

  /** The probe files of one archive, created and written in place. */
  class ProbeFiles {
    var contents: Contents

    /** `os.Create` and `Truncate` of every volume. */
    method CreateSparseArchiveFamily(sizes: seq<nat>)
      modifies this
      ensures Complete(contents, sizes)
      ensures forall i :: 0 <= i < |sizes| ==> contents[i] == Some(Resize([], sizes[i]))
    {
      contents := [];
      var i := 0;
      while i < |sizes|
        invariant i <= |sizes| && |contents| == i
        invariant forall k :: 0 <= k < i ==> contents[k] == Some(Resize([], sizes[k]))
      {
        contents := contents + [Some(Resize([], sizes[i]))];
        i := i + 1;
      }
    }

    method WriteArchiveFamilyRange(sizes: seq<nat>, start: int, data: Bytes) returns (written: nat, ok: bool)
      requires |contents| == |sizes|
      modifies this
      ensures var n := Reach(old(contents), sizes, start, data, 0);
              && contents == After(old(contents), sizes, start, data, n)
              && written == Counted(sizes, start, data, n)
              && ok == (n == |sizes|)
      ensures ok <==> forall i :: 0 <= i < |sizes| && Touches(sizes, i, start, data) ==> old(contents)[i].Some?
      ensures !ok ==> exists n :: BlocksFirst(old(contents), sizes, start, data, n)
                                  && contents == After(old(contents), sizes, start, data, n)
    {
      ReachExactly(contents, sizes, start, data, 0);
      if |data| == 0 {
        NothingToWrite(contents, sizes, start, 0);
        return 0, true;
      }
      written, ok := 0, true;
      ghost var was, n := contents, Reach(contents, sizes, start, data, 0);
      var globalOffset := 0;
      var i := 0;
      while i < |sizes|
        invariant i <= |sizes| && ok && n == Reach(was, sizes, start, data, i)
        invariant globalOffset == StartOf(sizes, i)
        invariant contents == After(was, sizes, start, data, i)
        invariant written == Counted(sizes, start, data, i)
      {
        AfterStep(was, sizes, start, data, i);
        var bytes, fine := WriteOverlap(i, globalOffset, sizes[i], start, data);
        if !fine {
          ok := false;
          return;
        }
        written := written + bytes;
        globalOffset := globalOffset + sizes[i];
        i := i + 1;
      }
    }

    /** The body of the loop over the volumes. */
    method WriteOverlap(i: nat, fileStart: nat, size: nat, start: int, data: Bytes) returns (written: nat, ok: bool)
      requires i < |contents|
      modifies this
      ensures var op := Clip(fileStart, size, start, data);
              && ok == !Stuck(old(contents)[i], op)
              && written == (if ok then |op.data| else 0)
              && contents == old(contents)[i := Put(old(contents)[i], op)]
    {
      var overlapStart := Max(start, fileStart);
      var overlapEnd := Min(start + |data|, fileStart + size);
      if overlapEnd <= overlapStart {
        return 0, true;
      }
      if contents[i].None? {
        return 0, false;
      }
      var source := data[overlapStart - start..overlapEnd - start];
      assert source == Clip(fileStart, size, start, data).data;
      contents := contents[i := Some(Overwrite(contents[i].value, overlapStart - fileStart, source))];
      return overlapEnd - overlapStart, true;
    }
  }

  lemma AfterStep(was: Contents, sizes: seq<nat>, start: int, data: Bytes, i: nat)
    requires i < |sizes| == |was|
    ensures var op := Share(sizes, i, start, data);
            && After(was, sizes, start, data, i)[i] == was[i]
            && After(was, sizes, start, data, i)[i := Put(was[i], op)] == After(was, sizes, start, data, i + 1)
            && (Stuck(was[i], op) ==>
                  After(was, sizes, start, data, i)[i := Put(was[i], op)] == After(was, sizes, start, data, i))
  {
  }

  lemma {:induction false} NothingToWrite(contents: Contents, sizes: seq<nat>, start: int, i: nat)
    requires i <= |sizes| == |contents|
    ensures Reach(contents, sizes, start, [], i) == |sizes|
    ensures After(contents, sizes, start, [], |sizes|) == contents
    ensures Counted(sizes, start, [], |sizes|) == Counted(sizes, start, [], i)
    decreases |sizes| - i
  {
    if i < |sizes| {
      NothingToWrite(contents, sizes, start, i + 1);
    }
  }

  // ---------------------------------------------------------------- the volumes as one file

  /** Every volume's file is there with its exact size, as `CreateSparseArchiveFamily` leaves it. */
  predicate Complete(contents: Contents, sizes: seq<nat>) {
    && |contents| == |sizes|
    && forall i :: 0 <= i < |sizes| ==> contents[i].Some? && |contents[i].value| == sizes[i]
  }

  /** The first `n` volumes, one after the other. */
  function JoinedTo(contents: Contents, n: nat): Bytes
    requires n <= |contents| && forall i :: 0 <= i < |contents| ==> contents[i].Some?
  {
    if n == 0 then [] else JoinedTo(contents, n - 1) + contents[n - 1].value
  }

  function Joined(contents: Contents): Bytes
    requires forall i :: 0 <= i < |contents| ==> contents[i].Some?
  {
    JoinedTo(contents, |contents|)
  }

  lemma OverlayOfConcat(a: Bytes, b: Bytes, at: int, x: Fetched)
    ensures Overlay(a + b, at, x) == Overlay(a, at, x) + Overlay(b, at + |a|, x)
  {
    forall k | 0 <= k < |a + b|
      ensures Overlay(a + b, at, x)[k] == (Overlay(a, at, x) + Overlay(b, at + |a|, x))[k]
    {
      if k >= |a| {
        assert at + |a| + (k - |a|) == at + k;
      }
    }
  }

  lemma ClipLength(base: nat, size: nat, start: int, data: Bytes)
    ensures |Clip(base, size, start, data).data| == Overlap(Article(start, data), base, base + size)
  {
  }

  /** Clipped to a window it fits in, an overwrite is an overlay. */
  lemma ClipIsOverlay(content: Bytes, base: nat, start: int, data: Bytes)
    ensures var op := Clip(base, |content|, start, data);
            Overwrite(content, op.offset, op.data) == Overlay(content, base, Article(start, data))
  {
    ClipLength(base, |content|, start, data);
    var op := Clip(base, |content|, start, data);
    if op.data == [] {
      OverlayOfNothing(content, base, Article(start, data));
    } else {
      var w, o := Overwrite(content, op.offset, op.data), Overlay(content, base, Article(start, data));
      forall k: nat | k < |content| ensures w[k] == o[k] {
        ClippedByte(base, |content|, start, data, k);
      }
    }
  }

  lemma ClippedByte(base: nat, size: nat, start: int, data: Bytes, k: nat)
    requires k < size
    ensures var op := Clip(base, size, start, data);
            && (op.offset <= k < op.offset + |op.data| <==> start <= base + k < start + |data|)
            && (op.offset <= k < op.offset + |op.data| ==> op.data[k - op.offset] == data[base + k - start])
  {
  }

  lemma OverlapSplits(a: Fetched, lo: int, mid: int, hi: int)
    requires a.Article? && lo <= mid <= hi
    ensures Overlap(a, lo, hi) == Overlap(a, lo, mid) + Overlap(a, mid, hi)
  {
  }

  lemma {:induction false} JoinedLength(contents: Contents, sizes: seq<nat>, n: nat)
    requires Complete(contents, sizes) && n <= |sizes|
    ensures |JoinedTo(contents, n)| == StartOf(sizes, n)
  {
    if n > 0 {
      JoinedLength(contents, sizes, n - 1);
    }
  }

  lemma {:induction false} CompleteIsNeverStuck(contents: Contents, sizes: seq<nat>, start: int, data: Bytes, i: nat)
    requires Complete(contents, sizes) && i <= |sizes|
    ensures Reach(contents, sizes, start, data, i) == |sizes|
    decreases |sizes| - i
  {
    if i < |sizes| {
      CompleteIsNeverStuck(contents, sizes, start, data, i + 1);
    }
  }

  lemma PutKeepsSize(content: Bytes, base: nat, start: int, data: Bytes)
    ensures Put(Some(content), Clip(base, |content|, start, data))
            == Some(Overlay(content, base, Article(start, data)))
  {
    ClipIsOverlay(content, base, start, data);
  }

  lemma AfterIsComplete(contents: Contents, sizes: seq<nat>, start: int, data: Bytes)
    requires Complete(contents, sizes)
    ensures Complete(After(contents, sizes, start, data, |sizes|), sizes)
    ensures forall i :: 0 <= i < |sizes| ==>
              After(contents, sizes, start, data, |sizes|)[i].value
              == Overlay(contents[i].value, StartOf(sizes, i), Article(start, data))
  {
    forall i | 0 <= i < |sizes|
      ensures After(contents, sizes, start, data, |sizes|)[i]
              == Some(Overlay(contents[i].value, StartOf(sizes, i), Article(start, data)))
    {
      PutKeepsSize(contents[i].value, StartOf(sizes, i), start, data);
    }
  }

  lemma {:induction false} OverlaidAsOne(before: Contents, after: Contents, sizes: seq<nat>, a: Fetched, n: nat)
    requires Complete(before, sizes) && Complete(after, sizes) && n <= |sizes|
    requires forall i :: 0 <= i < |sizes| ==>
               after[i].value == Overlay(before[i].value, StartOf(sizes, i), a)
    ensures JoinedTo(after, n) == Overlay(JoinedTo(before, n), 0, a)
  {
    if n > 0 {
      OverlaidAsOne(before, after, sizes, a, n - 1);
      JoinedLength(before, sizes, n - 1);
      var last := after[n - 1].value;
      OverlaidPair(JoinedTo(before, n - 1), before[n - 1].value, JoinedTo(after, n - 1), last, StartOf(sizes, n - 1),
                   a);
    }
  }

  lemma OverlaidPair(head: Bytes, tail: Bytes, head': Bytes, tail': Bytes, mid: nat, a: Fetched)
    requires |head| == mid && head' == Overlay(head, 0, a) && tail' == Overlay(tail, mid, a)
    ensures head' + tail' == Overlay(head + tail, 0, a)
  {
    OverlayOfConcat(head, tail, 0, a);
  }

  lemma {:induction false} CountedIsOverlap(sizes: seq<nat>, start: int, data: Bytes, n: nat)
    requires n <= |sizes|
    ensures Counted(sizes, start, data, n) == Overlap(Article(start, data), 0, StartOf(sizes, n))
  {
    if n > 0 {
      CountedIsOverlap(sizes, start, data, n - 1);
      ClipLength(StartOf(sizes, n - 1), sizes[n - 1], start, data);
      OverlapSplits(Article(start, data), 0, StartOf(sizes, n - 1), StartOf(sizes, n));
    }
  }

  /** Writing over the volumes is one write over their concatenation, clipped to it, and the clipped length counts. */
  lemma FamilyWriteIsOneWrite(contents: Contents, sizes: seq<nat>, start: int, data: Bytes)
    requires Complete(contents, sizes)
    ensures Reach(contents, sizes, start, data, 0) == |sizes|
    ensures var now := After(contents, sizes, start, data, |sizes|);
            Complete(now, sizes) && Joined(now) == Overlay(Joined(contents), 0, Article(start, data))
    ensures Counted(sizes, start, data, |sizes|) == Overlap(Article(start, data), 0, |Joined(contents)|)
  {
    CompleteIsNeverStuck(contents, sizes, start, data, 0);
    AfterIsComplete(contents, sizes, start, data);
    OverlaidAsOne(contents, After(contents, sizes, start, data, |sizes|), sizes, Article(start, data), |sizes|);
    CountedIsOverlap(sizes, start, data, |sizes|);
    JoinedLength(contents, sizes, |sizes|);
  }

  /** Data inside the archive: the same range read back gives it, all of it is counted, and nothing else moved. */
  lemma FamilyWriteReadsBack(contents: Contents, sizes: seq<nat>, start: nat, data: Bytes)
    requires Complete(contents, sizes) && start + |data| <= |Joined(contents)|
    ensures var now := After(contents, sizes, start, data, |sizes|);
            && Complete(now, sizes)
            && Joined(now) == Joined(contents)[..start] + data + Joined(contents)[start + |data|..]
            && Counted(sizes, start, data, |sizes|) == |data|
  {
    FamilyWriteIsOneWrite(contents, sizes, start, data);
    OverlayInside(Joined(contents), start, data);
  }

  lemma OverlayInside(whole: Bytes, start: nat, data: Bytes)
    requires start + |data| <= |whole|
    ensures Overlay(whole, 0, Article(start, data)) == whole[..start] + data + whole[start + |data|..]
  {
  }

  /** The split write is the single-file write exactly when the data does not reach beyond the archive. */
  lemma SplitWriteRefinesSingleWrite(contents: Contents, sizes: seq<nat>, start: nat, data: Bytes)
    requires Complete(contents, sizes)
    ensures var now := After(contents, sizes, start, data, |sizes|);
            && Complete(now, sizes)
            && (Joined(now) == Overwrite(Joined(contents), start, data)
                <==> data == [] || start + |data| <= |Joined(contents)|)
  {
    FamilyWriteIsOneWrite(contents, sizes, start, data);
    OverlayVersusOverwrite(Joined(contents), start, data);
  }

  lemma OverlayVersusOverwrite(whole: Bytes, start: nat, data: Bytes)
    ensures Overlay(whole, 0, Article(start, data)) == Overwrite(whole, start, data)
            <==> data == [] || start + |data| <= |whole|
  {
    var o, w := Overlay(whole, 0, Article(start, data)), Overwrite(whole, start, data);
    if data == [] {
      OverlayOfNothing(whole, 0, Article(start, data));
    } else if start + |data| <= |whole| {
      assert forall k :: 0 <= k < |whole| ==> o[k] == w[k];
    } else {
      assert |o| != |w|;
    }
  }

  // ---------------------------------------------------------------- one combined file

  /** The probe file of a combined archive: every byte is still zero or the archive's own. */
  predicate SparseImage(content: Bytes, truth: Bytes) {
    |content| == |truth| && forall i :: 0 <= i < |truth| ==> content[i] == 0 || content[i] == truth[i]
  }

  class CombinedProbeFile {
    var content: Option<Bytes>

    method CreateSparseArchiveFile(size: nat)
      modifies this
      ensures content == Some(Resize([], size))
    {
      content := Some(Resize([], size));
    }

    /** A negative offset is refused by `WriteAt`. */
    method WriteSparseArchiveFileRange(start: int, data: Bytes) returns (written: nat, ok: bool)
      modifies this
      ensures ok <==> data == [] || (old(content).Some? && 0 <= start)
      ensures written == if ok then |data| else 0
      ensures content == if ok && data != [] then Some(Overwrite(old(content).value, start, data)) else old(content)
    {
      if |data| == 0 {
        return 0, true;
      }
      if content.None? || start < 0 {
        return 0, false;
      }
      content := Some(Overwrite(content.value, start, data));
      return |data|, true;
    }
  }

  /** Writing a range that passes the check keeps the probe file an image of the archive and makes the range true, where
      the check is right: for articles in any order that hold no position twice (`SoundRangeWithoutDoubles`), or on any
      range of a sound archive (`ArchiveSoundByArticles`). */
  lemma MaterialisedRangeIsTrue(family: seq<Volume>, truth: seq<Bytes>, start: int, end: int, content: Bytes)
    requires Faithful(family, truth) && SparseImage(content, Concat(truth))
    requires A.RangePasses(family, start, end) && A.SoundRange(family, start, end)
    ensures 0 <= start < end <= |content|
    ensures var now := Overwrite(content, start, ReadRange(family, start, end).buffer);
            && SparseImage(now, Concat(truth))
            && now[start..end] == Concat(truth)[start..end]
  {
    PassedIsTrue(family, truth, Range(start, end));
    var buffer := ReadRange(family, start, end).buffer;
    TrueWriteKeepsImage(content, Concat(truth), start, end, buffer);
  }

  lemma PassedIsTrue(family: seq<Volume>, truth: seq<Bytes>, r: Range)
    requires Faithful(family, truth) && Materialises(family, r)
    ensures 0 <= r.start < r.end <= |Concat(truth)|
    ensures ReadRange(family, r.start, r.end).buffer == Concat(truth)[r.start..r.end]
  {
    A.BufferIsTrueExactlyWhen(family, truth, r.start, r.end);
  }

  lemma PassedIsInside(family: seq<Volume>, r: Range)
    requires Materialises(family, r)
    ensures 0 <= r.start < r.end
  {
    A.ReadCount(family, r.start, r.end);
    A.InsideWhenComplete(family, r.start, r.end);
  }

  lemma TrueWriteKeepsImage(content: Bytes, whole: Bytes, start: nat, end: nat, buffer: Bytes)
    requires SparseImage(content, whole) && start < end <= |whole| && buffer == whole[start..end]
    ensures SparseImage(Overwrite(content, start, buffer), whole)
    ensures Overwrite(content, start, buffer)[start..end] == whole[start..end]
  {
    var now := Overwrite(content, start, buffer);
    forall i | start <= i < end ensures now[i] == whole[i] {
      assert buffer[i - start] == whole[i];
    }
  }

  lemma EmptyProbeIsAnImage(truth: Bytes)
    ensures SparseImage(Resize([], |truth|), truth)
  {
  }

  /** A range of the archive that is read and then written. */
  datatype Range = Range(start: int, end: int)

  /** The range passes the check of its length, and the check is right. */
  predicate Materialises(family: seq<Volume>, r: Range) {
    A.RangePasses(family, r.start, r.end) && A.SoundRange(family, r.start, r.end)
  }

  /** The write of that range. */
  function RangeWrite(family: seq<Volume>, r: Range): WriteOp
    requires Materialises(family, r)
  {
    PassedIsInside(family, r);
    WriteOp(r.start, ReadRange(family, r.start, r.end).buffer)
  }

  /** From any image on, any ranges in any order leave an image of the archive that is true on each of them. */
  lemma ProbeStaysAnImage(family: seq<Volume>, truth: seq<Bytes>, content: Bytes, ranges: seq<Range>, log: seq<WriteOp>)
    requires Faithful(family, truth) && SparseImage(content, Concat(truth)) && |log| == |ranges|
    requires forall i :: 0 <= i < |ranges| ==>
               Materialises(family, ranges[i]) && log[i] == RangeWrite(family, ranges[i])
    ensures TrueImage(Replay(content, log), Concat(truth), ranges, |ranges|)
  {
    forall i | 0 <= i < |ranges| ensures TrueWrite(log[i], ranges[i], Concat(truth)) {
      PassedIsTrue(family, truth, ranges[i]);
    }
    TrueWritesKeepImage(content, Concat(truth), ranges, log, |ranges|);
    assert log[..|ranges|] == log;
  }

  predicate TrueWrite(w: WriteOp, r: Range, whole: Bytes) {
    0 <= r.start < r.end <= |whole| && w == WriteOp(r.start, whole[r.start..r.end])
  }

  lemma {:induction false} TrueWritesKeepImage(content: Bytes, whole: Bytes, ranges: seq<Range>, log: seq<WriteOp>,
                                               n: nat)
    requires n <= |ranges| == |log| && SparseImage(content, whole)
    requires forall i :: 0 <= i < |ranges| ==> TrueWrite(log[i], ranges[i], whole)
    ensures TrueImage(Replay(content, log[..n]), whole, ranges, n)
  {
    if n > 0 {
      TrueWritesKeepImage(content, whole, ranges, log, n - 1);
      assert log[..n][..n - 1] == log[..n - 1];
      OneMoreRange(Replay(content, log[..n - 1]), whole, ranges, n, log[n - 1].data);
    }
  }

  /** The first write of a combined probe file. */
  function FirstWrite(whole: Bytes, a: Fetched): Bytes
    requires a.Article? && a.offset >= 0
  {
    Overwrite(Resize([], |whole|), a.offset, a.body)
  }

  /** The article stays inside the archive, and what it has beyond the first `size` positions is zero or right. */
  predicate FitsArchive(whole: Bytes, size: nat, a: Fetched)
    requires a.Article? && a.offset >= 0
  {
    a.body == []
    || (a.offset + |a.body| <= |whole|
        && forall p :: size <= p < |whole| && Holds(a, p) ==>
             a.body[p - a.offset] == 0 || a.body[p - a.offset] == whole[p])
  }

  /** The first article's body, written to the fresh probe file before any range, makes it an image exactly when it does
      not reach beyond the archive and what it has beyond its own volume is zero or happens to be right. */
  lemma FirstArticleKeepsImage(family: seq<Volume>, truth: seq<Bytes>)
    requires Faithful(family, truth) && family != [] && family[0].refs != []
    requires family[0].refs[0].Article? && family[0].refs[0].offset >= 0
    ensures var whole, a := Concat(truth), family[0].refs[0];
            SparseImage(FirstWrite(whole, a), whole) <==> FitsArchive(whole, family[0].size, a)
  {
    var whole, a := Concat(truth), family[0].refs[0];
    FirstVolumeIsFront(family, truth);
    forall p | Holds(a, p) && p < family[0].size ensures a.body[p - a.offset] == whole[p] {
      TrueInFront(family, truth, a, p);
    }
    FirstWriteKeepsImage(whole, family[0].size, a);
  }

  lemma FirstVolumeIsFront(family: seq<Volume>, truth: seq<Bytes>)
    requires Faithful(family, truth) && family != []
    ensures family[0].size == |truth[0]| <= |Concat(truth)|
    ensures forall p :: 0 <= p < family[0].size ==> Concat(truth)[p] == truth[0][p]
  {
  }

  lemma TrueInFront(family: seq<Volume>, truth: seq<Bytes>, a: Fetched, p: nat)
    requires Faithful(family, truth) && family != [] && a in family[0].refs && Holds(a, p) && p < family[0].size
    ensures p < |Concat(truth)| && a.body[p - a.offset] == Concat(truth)[p]
  {
    FirstVolumeIsFront(family, truth);
  }

  lemma FirstWriteKeepsImage(whole: Bytes, size: nat, a: Fetched)
    requires a.Article? && a.offset >= 0 && size <= |whole|
    requires forall p :: Holds(a, p) && p < size ==> a.body[p - a.offset] == whole[p]
    ensures SparseImage(FirstWrite(whole, a), whole) <==> FitsArchive(whole, size, a)
  {
    var now := FirstWrite(whole, a);
    EmptyProbeIsAnImage(whole);
    if a.body != [] && a.offset + |a.body| <= |whole| {
      forall p | 0 <= p < |whole| ensures now[p] == if Holds(a, p) then a.body[p - a.offset] else 0 {
      }
    }
  }

  lemma OneMoreRange(before: Bytes, whole: Bytes, ranges: seq<Range>, n: nat, buffer: Bytes)
    requires 0 < n <= |ranges| && TrueImage(before, whole, ranges, n - 1)
    requires var last := ranges[n - 1];
             0 <= last.start < last.end <= |whole| && buffer == whole[last.start..last.end]
    ensures TrueImage(Overwrite(before, ranges[n - 1].start, buffer), whole, ranges, n)
  {
    var last := ranges[n - 1];
    TrueWriteKeepsImage(before, whole, last.start, last.end, buffer);
    forall i | 0 <= i < n - 1 ensures TrueOn(Overwrite(before, last.start, buffer), whole, ranges[i]) {
      TrueStaysTrue(before, whole, ranges[i], last, buffer);
    }
  }

  /** An image that is true on the first `n` ranges. */
  predicate TrueImage(content: Bytes, whole: Bytes, ranges: seq<Range>, n: nat)
    requires n <= |ranges|
  {
    SparseImage(content, whole) && forall i :: 0 <= i < n ==> TrueOn(content, whole, ranges[i])
  }

  predicate TrueOn(content: Bytes, whole: Bytes, r: Range) {
    0 <= r.start <= r.end <= |content| == |whole| && content[r.start..r.end] == whole[r.start..r.end]
  }

  lemma TrueStaysTrue(content: Bytes, whole: Bytes, r: Range, last: Range, buffer: Bytes)
    requires TrueOn(content, whole, r) && 0 <= last.start < last.end <= |whole|
    requires buffer == whole[last.start..last.end]
    ensures TrueOn(Overwrite(content, last.start, buffer), whole, r)
  {
    var now := Overwrite(content, last.start, buffer);
    forall k | r.start <= k < r.end ensures now[k] == whole[k] {
      assert content[k] == content[r.start..r.end][k - r.start] == whole[r.start..r.end][k - r.start];
    }
  }
}
