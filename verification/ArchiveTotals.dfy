/** The count of a range read over all volumes, which is what its callers check: exactly when it can be trusted. */
module ArchiveTotals {
  import opened Common
  import opened FileWriting
  import opened ArchiveRanges
  import opened ArchiveOverlaps

  // ---------------------------------------------------------------- the volumes of a range

  /** Where volume `k` starts in the archive. */
  function Base(family: seq<Volume>, k: nat): nat
    requires k <= |family|
  {
    if k == 0 then 0 else Base(family, k - 1) + family[k - 1].size
  }

  function ArchiveSize(family: seq<Volume>): nat {
    Base(family, |family|)
  }

  lemma {:induction false} BaseGrows(family: seq<Volume>, j: nat, k: nat)
    requires j <= k <= |family|
    ensures Base(family, j) <= Base(family, k)
    ensures j < k ==> Base(family, j) + family[j].size <= Base(family, k)
  {
    if j < k {
      BaseGrows(family, j, k - 1);
    }
  }

  /** The part of a volume, whose first position is `base`, that the range `[lo, hi)` of the archive asks for, in
      positions of the volume. */
  function From(base: nat, lo: int): nat {
    Max(0, lo - base)
  }

  function To(v: Volume, base: nat, hi: int): int {
    Min(v.size, hi - base)
  }

  /** The articles looked at in the volume for that range. */
  function Looked(v: Volume, base: nat, lo: int, hi: int): seq<Fetched> {
    var from, to := From(base, lo), To(v, base, hi);
    if from < to then Seen(v.refs, from, to - from) else []
  }

  /** What can be counted of a stretch of a file on the articles a fill of it looks at. */
  datatype Measure = CopyCount | GapCount | SurplusCount | Width

  function Measured(m: Measure, seen: seq<Fetched>, lo: int, hi: int): nat
    requires lo <= hi
  {
    match m
    case CopyCount => Copies(seen, lo, hi)
    case GapCount => Missing(seen, lo, hi)
    case SurplusCount => Surplus(seen, lo, hi)
    case Width => hi - lo
  }

  function Of(m: Measure, v: Volume, base: nat, lo: int, hi: int): nat {
    var from, to := From(base, lo), To(v, base, hi);
    if from < to then Measured(m, Looked(v, base, lo, hi), from, to) else 0
  }

  function At(m: Measure, family: seq<Volume>, k: nat, lo: int, hi: int): nat
    requires k < |family|
  {
    Of(m, family[k], Base(family, k), lo, hi)
  }

  predicate Touched(family: seq<Volume>, k: nat, lo: int, hi: int)
    requires k < |family|
  {
    From(Base(family, k), lo) < To(family[k], Base(family, k), hi)
  }

  /** The measure added up over volume `k` and those after it. */
  function Total(m: Measure, family: seq<Volume>, k: nat, lo: int, hi: int): nat
    requires k <= |family|
    decreases |family| - k
  {
    if k == |family| then 0 else At(m, family, k, lo, hi) + Total(m, family, k + 1, lo, hi)
  }

  /** How many positions of the range lie outside the archive. */
  function Outside(family: seq<Volume>, lo: int, hi: int): nat
    requires lo <= hi
  {
    (hi - lo) - Share(0, ArchiveSize(family), lo, hi - lo)
  }

  /** The missing positions of a range, those outside the archive included, and its surplus copies. */
  function MissingIn(family: seq<Volume>, lo: int, hi: int): nat
    requires lo <= hi
  {
    Total(GapCount, family, 0, lo, hi) + Outside(family, lo, hi)
  }

  function SurplusIn(family: seq<Volume>, lo: int, hi: int): nat {
    Total(SurplusCount, family, 0, lo, hi)
  }

  // ---------------------------------------------------------------- the count

  lemma FillCountsCopies(refs: seq<Fetched>, at: nat, buffer: Bytes)
    requires FillFile(refs, at, buffer).ok
    ensures FillFile(refs, at, buffer).written == Copies(Seen(refs, at, |buffer|), at, at + |buffer|)
  {
    if at == 0 {
      ForwardCountsCopies(refs, buffer);
    } else {
      BackwardCountsCopies(refs, at, buffer);
    }
  }

  lemma VolumeCountsCopies(v: Volume, base: nat, start: int, buffer: Bytes)
    requires FillVolume(v, base, start, buffer).ok
    ensures FillVolume(v, base, start, buffer).written == Of(CopyCount, v, base, start, start + |buffer|)
  {
    var from, to := Max(0, base - start), Min(|buffer|, base + v.size - start);
    if from < to {
      FillCountsCopies(v.refs, start + from - base, Window(buffer, from, to));
    }
  }

  /** For any articles and any range: what a read counts is the sum, over the volumes, of the copies on the articles
      looked at in each. */
  lemma {:induction false} TotalCountsCopies(family: seq<Volume>, k: nat, start: int, buffer: Bytes)
    requires k <= |family| && FillVolumes(family[k..], Base(family, k), start, buffer).ok
    ensures FillVolumes(family[k..], Base(family, k), start, buffer).written
            == Total(CopyCount, family, k, start, start + |buffer|)
    decreases |family| - k
  {
    if k < |family| {
      var between := FirstCountsCopies(family, k, start, buffer);
      TotalCountsCopies(family, k + 1, start, between);
    }
  }

  lemma FirstCountsCopies(family: seq<Volume>, k: nat, start: int, buffer: Bytes) returns (between: Bytes)
    requires k < |family| && FillVolumes(family[k..], Base(family, k), start, buffer).ok
    ensures |between| == |buffer|
    ensures var rest := FillVolumes(family[k + 1..], Base(family, k + 1), start, between);
            rest.ok && FillVolumes(family[k..], Base(family, k), start, buffer).written
                       == At(CopyCount, family, k, start, start + |buffer|) + rest.written
  {
    var r, rest := FillVolumesStep(family, k, Base(family, k), start, buffer);
    VolumeCountsCopies(family[k], Base(family, k), start, buffer);
    between := r.buffer;
  }

  lemma WidthOf(v: Volume, base: nat, lo: int, hi: int)
    requires lo <= hi
    ensures Of(Width, v, base, lo, hi) == Share(base, v.size, lo, hi - lo)
  {
  }

  lemma {:induction false} WidthsAddUp(family: seq<Volume>, k: nat, lo: int, hi: int)
    requires k <= |family| && lo <= hi
    ensures Base(family, k) <= ArchiveSize(family)
    ensures Total(Width, family, k, lo, hi)
            == Share(Base(family, k), ArchiveSize(family) - Base(family, k), lo, hi - lo)
    decreases |family| - k
  {
    BaseGrows(family, k, |family|);
    if k < |family| {
      WidthsAddUp(family, k + 1, lo, hi);
      WidthOf(family[k], Base(family, k), lo, hi);
      SharesAdd(Base(family, k), family[k].size, ArchiveSize(family) - Base(family, k + 1), lo, hi - lo);
    }
  }

  lemma {:induction false} TotalsBalance(family: seq<Volume>, k: nat, lo: int, hi: int)
    requires k <= |family|
    ensures Total(CopyCount, family, k, lo, hi) + Total(GapCount, family, k, lo, hi)
            == Total(Width, family, k, lo, hi) + Total(SurplusCount, family, k, lo, hi)
    decreases |family| - k
  {
    if k < |family| {
      TotalsBalance(family, k + 1, lo, hi);
      if Touched(family, k, lo, hi) {
        var v, base := family[k], Base(family, k);
        CopiesBalance(Looked(v, base, lo, hi), From(base, lo), To(v, base, hi));
      }
    }
  }

  lemma ReadCount(family: seq<Volume>, lo: int, hi: int)
    requires ReadRange(family, lo, hi).ok
    ensures lo < hi
    ensures ReadRange(family, lo, hi).written + MissingIn(family, lo, hi) == hi - lo + SurplusIn(family, lo, hi)
  {
    assert family[0..] == family;
    TotalCountsCopies(family, 0, lo, Zeros(hi - lo));
    TotalsBalance(family, 0, lo, hi);
    WidthsAddUp(family, 0, lo, hi);
  }

  // ---------------------------------------------------------------- which positions are filled

  /** Some article looked at in volume `k` or a later one holds position `g` of the archive. */
  predicate SeenFrom(family: seq<Volume>, k: nat, lo: int, hi: int, g: int) {
    exists i: nat :: k <= i < |family| && SeenBy(family, i, lo, hi, g)
  }

  predicate SeenBy(family: seq<Volume>, k: nat, lo: int, hi: int, g: int)
    requires k < |family|
  {
    LookedAt(family[k], Base(family, k), lo, hi, g)
  }

  predicate LookedAt(v: Volume, base: nat, lo: int, hi: int, g: int) {
    base <= g < base + v.size && Held(Looked(v, base, lo, hi), g - base)
  }

  predicate CompleteRange(family: seq<Volume>, lo: int, hi: int) {
    forall g :: lo <= g < hi ==> SeenFrom(family, 0, lo, hi, g)
  }

  /** The volume a position lies in. */
  lemma {:induction false} VolumeOf(family: seq<Volume>, n: nat, g: int) returns (k: nat)
    requires n <= |family| && 0 <= g < Base(family, n)
    ensures k < n && Base(family, k) <= g < Base(family, k) + family[k].size
  {
    if g >= Base(family, n - 1) {
      k := n - 1;
    } else {
      k := VolumeOf(family, n - 1, g);
    }
  }

  lemma OneVolume(family: seq<Volume>, j: nat, k: nat, g: int)
    requires j < |family| && Base(family, j) <= g < Base(family, j) + family[j].size
    requires k < |family| && Base(family, k) <= g < Base(family, k) + family[k].size
    ensures j == k
  {
    if j < k {
      BaseGrows(family, j, k);
    } else {
      BaseGrows(family, k, j);
    }
  }

  lemma {:induction false} TotalAtLeast(m: Measure, family: seq<Volume>, k: nat, lo: int, hi: int, i: nat)
    requires k <= i < |family|
    ensures Total(m, family, k, lo, hi) >= At(m, family, i, lo, hi)
    decreases |family| - k
  {
    if k < i {
      TotalAtLeast(m, family, k + 1, lo, hi, i);
    }
  }

  lemma {:induction false} TotalOfNone(m: Measure, family: seq<Volume>, k: nat, lo: int, hi: int)
    requires k <= |family| && forall i: nat :: k <= i < |family| ==> At(m, family, i, lo, hi) == 0
    ensures Total(m, family, k, lo, hi) == 0
    decreases |family| - k
  {
    if k < |family| {
      TotalOfNone(m, family, k + 1, lo, hi);
    }
  }

  /** Nothing is missing exactly when every position of the range is filled. */
  lemma NothingMissing(family: seq<Volume>, lo: int, hi: int)
    requires lo < hi
    ensures MissingIn(family, lo, hi) == 0 <==> CompleteRange(family, lo, hi)
  {
    if MissingIn(family, lo, hi) == 0 {
      forall g | lo <= g < hi ensures SeenFrom(family, 0, lo, hi, g) {
        FilledWhenNothingMissing(family, lo, hi, g);
      }
    } else if Outside(family, lo, hi) > 0 {
      var g := if lo < 0 then lo else hi - 1;
      NobodySeesOutside(family, lo, hi, g);
    } else if forall i: nat :: i < |family| ==> At(GapCount, family, i, lo, hi) == 0 {
      TotalOfNone(GapCount, family, 0, lo, hi);
    } else {
      var k: nat :| k < |family| && At(GapCount, family, k, lo, hi) > 0;
      GapIsUnseen(family, lo, hi, k);
    }
  }

  lemma NobodySeesOutside(family: seq<Volume>, lo: int, hi: int, g: int)
    requires g < 0 || g >= ArchiveSize(family)
    ensures !SeenFrom(family, 0, lo, hi, g)
  {
    forall k: nat | k < |family| ensures !SeenBy(family, k, lo, hi, g) {
      BaseGrows(family, k, |family|);
    }
  }

  lemma FilledWhenNothingMissing(family: seq<Volume>, lo: int, hi: int, g: int)
    requires lo <= g < hi && MissingIn(family, lo, hi) == 0
    ensures SeenFrom(family, 0, lo, hi, g)
  {
    var k := VolumeOf(family, |family|, g);
    TotalAtLeast(GapCount, family, 0, lo, hi, k);
    assert Touched(family, k, lo, hi);
    var v, base := family[k], Base(family, k);
    NoneMissing(Looked(v, base, lo, hi), From(base, lo), To(v, base, hi));
    assert SeenBy(family, k, lo, hi, g);
  }

  lemma GapIsUnseen(family: seq<Volume>, lo: int, hi: int, k: nat)
    requires k < |family| && At(GapCount, family, k, lo, hi) > 0
    ensures !CompleteRange(family, lo, hi)
  {
    var v, base := family[k], Base(family, k);
    var seen, from, to := Looked(v, base, lo, hi), From(base, lo), To(v, base, hi);
    NoneMissing(seen, from, to);
    var p :| from <= p < to && !Held(seen, p);
    var g := base + p;
    forall i: nat | i < |family| ensures !SeenBy(family, i, lo, hi, g) {
      if Base(family, i) <= g < Base(family, i) + family[i].size {
        OneVolume(family, i, k, g);
      }
    }
    assert lo <= g < hi && !SeenFrom(family, 0, lo, hi, g);
  }

  // ---------------------------------------------------------------- when the callers' check passes wrongly

  /** The check of the callers of `readArchiveRange`. */
  predicate RangePasses(family: seq<Volume>, lo: int, hi: int) {
    var r := ReadRange(family, lo, hi); r.ok && r.written >= hi - lo
  }

  /** For any volumes, articles and range: the check passes on an incomplete range exactly when positions are missing,
      those outside the archive included, but all in all no more than there are surplus copies on the articles looked
      at; a complete range always passes. One volume's surplus pays for another's gap. */
  lemma RangeCheckFailsExactlyWhen(family: seq<Volume>, lo: int, hi: int)
    requires ReadRange(family, lo, hi).ok
    ensures lo < hi
    ensures RangePasses(family, lo, hi) && !CompleteRange(family, lo, hi)
            <==> 0 < MissingIn(family, lo, hi) <= SurplusIn(family, lo, hi)
    ensures CompleteRange(family, lo, hi) ==> RangePasses(family, lo, hi)
  {
    ReadCount(family, lo, hi);
    NothingMissing(family, lo, hi);
  }

  /** The check is right on the range. */
  predicate SoundRange(family: seq<Volume>, lo: int, hi: int) {
    RangePasses(family, lo, hi) ==> CompleteRange(family, lo, hi)
  }

  /** Where no volume holds a position twice the check is right on every range, whatever the order of the articles. */
  lemma SoundRangeWithoutDoubles(family: seq<Volume>, lo: int, hi: int)
    requires NoneDoubled(family)
    ensures SoundRange(family, lo, hi)
  {
    if RangePasses(family, lo, hi) {
      forall k: nat | k < |family| ensures At(SurplusCount, family, k, lo, hi) == 0 {
        if Touched(family, k, lo, hi) {
          NoSurplusSeen(family[k].refs, From(Base(family, k), lo), To(family[k], Base(family, k), hi));
        }
      }
      TotalOfNone(SurplusCount, family, 0, lo, hi);
      RangeCheckFailsExactlyWhen(family, lo, hi);
    }
  }

  // ---------------------------------------------------------------- what the buffer holds

  /** What one volume does to a buffer, when its articles are true. */
  lemma VolumeFillsSeen(v: Volume, base: nat, content: Bytes, start: int, buffer: Bytes, i: nat)
    requires |content| == v.size && FaithfulFile(v.refs, content) && i < |buffer|
    requires FillVolume(v, base, start, buffer).ok
    ensures FillVolume(v, base, start, buffer).buffer[i]
            == if LookedAt(v, base, start, start + |buffer|, start + i) then content[start + i - base] else buffer[i]
  {
    var from, to := Max(0, base - start), Min(|buffer|, base + v.size - start);
    var seen := Looked(v, base, start, start + |buffer|);
    LookedIs(v, base, start, |buffer|);
    if from < to {
      WindowFillsSeen(v.refs, seen, base, content, start, buffer, from, to, i);
    } else {
      NoneHoldsHere(seen, start + i - base);
    }
  }

  lemma NoneHoldsHere(seen: seq<Fetched>, p: int)
    requires seen == []
    ensures !Held(seen, p)
  {
  }

  lemma WindowFillsSeen(refs: seq<Fetched>, seen: seq<Fetched>, base: nat, content: Bytes, start: int, buffer: Bytes,
                        from: nat, to: nat, i: nat)
    requires FaithfulFile(refs, content) && i < |buffer|
    requires from == Max(0, base - start) < to == Min(|buffer|, base + |content| - start)
    requires seen == Seen(refs, start + from - base, to - from)
    requires FillFile(refs, start + from - base, Window(buffer, from, to)).ok
    ensures Splice(buffer, from, to, FillFile(refs, start + from - base, Window(buffer, from, to)).buffer)[i]
            == if base <= start + i < base + |content| && Held(seen, start + i - base) then content[start + i - base]
               else buffer[i]
  {
    var window, at := Window(buffer, from, to), start + from - base;
    FillIsWhatWasSeen(refs, content, at, window);
    SplicedSeen(seen, content, base, start, buffer, from, to, FillFile(refs, at, window).buffer, i);
  }

  lemma LookedIs(v: Volume, base: nat, start: int, size: nat)
    ensures var from, to := Max(0, base - start), Min(size, base + v.size - start);
            Looked(v, base, start, start + size)
            == if from < to then Seen(v.refs, start + from - base, to - from) else []
  {
  }

  lemma SplicedSeen(seen: seq<Fetched>, content: Bytes, base: nat, start: int, buffer: Bytes, from: nat, to: nat,
                    part: Bytes, i: nat)
    requires from == Max(0, base - start) < to == Min(|buffer|, base + |content| - start) && i < |buffer|
    requires FilledFrom(seen, content, start + from - base, Window(buffer, from, to), part)
    ensures Splice(buffer, from, to, part)[i]
            == if base <= start + i < base + |content| && Held(seen, start + i - base) then content[start + i - base]
               else buffer[i]
  {
    SplicedByte(buffer, from, to, part, i);
    if from <= i < to {
      var j := i - from;
      assert start + from - base + j == start + i - base;
    }
  }

  lemma SplicedByte(buffer: Bytes, from: nat, to: nat, part: Bytes, i: nat)
    requires from <= to <= |buffer| && |part| == to - from && i < |buffer|
    ensures Splice(buffer, from, to, part)[i] == if from <= i < to then part[i - from] else buffer[i]
  {
  }

  /** A byte of the buffer after volume `k` and those after it: the archive's where it was looked at. */
  function Filled(family: seq<Volume>, k: nat, contents: seq<Bytes>, lo: int, hi: int, g: int, before: byte): byte
    requires Faithful(family, contents) && k <= |family|
    decreases |family| - k
  {
    if k == |family| then before
    else
      Filled(family, k + 1, contents, lo, hi, g,
             if SeenBy(family, k, lo, hi, g) then contents[k][g - Base(family, k)] else before)
  }

  lemma {:induction false} VolumesFillSeen(family: seq<Volume>, k: nat, contents: seq<Bytes>, start: int, buffer: Bytes,
                                           i: nat)
    requires Faithful(family, contents) && k <= |family| && i < |buffer|
    requires FillVolumes(family[k..], Base(family, k), start, buffer).ok
    ensures FillVolumes(family[k..], Base(family, k), start, buffer).buffer[i]
            == Filled(family, k, contents, start, start + |buffer|, start + i, buffer[i])
    decreases |family| - k
  {
    if k < |family| {
      var between := FirstFillsSeen(family, k, contents, start, buffer, i);
      VolumesFillSeen(family, k + 1, contents, start, between, i);
    }
  }

  /** The buffer after volume `k`, from which the later ones go on. */
  lemma FirstFillsSeen(family: seq<Volume>, k: nat, contents: seq<Bytes>, start: int, buffer: Bytes, i: nat)
    returns (between: Bytes)
    requires Faithful(family, contents) && k < |family| && i < |buffer|
    requires FillVolumes(family[k..], Base(family, k), start, buffer).ok
    ensures var rest := FillVolumes(family[k + 1..], Base(family, k + 1), start, between);
            rest.ok && rest.buffer == FillVolumes(family[k..], Base(family, k), start, buffer).buffer
    ensures |between| == |buffer|
    ensures between[i] == if SeenBy(family, k, start, start + |buffer|, start + i)
                          then contents[k][start + i - Base(family, k)] else buffer[i]
  {
    var r, rest := FillVolumesStep(family, k, Base(family, k), start, buffer);
    VolumeFillsSeen(family[k], Base(family, k), contents[k], start, buffer, i);
    between := r.buffer;
  }

  lemma {:induction false} FilledIs(family: seq<Volume>, k: nat, contents: seq<Bytes>, lo: int, hi: int, g: int,
                                    before: byte)
    requires Faithful(family, contents) && k <= |family|
    ensures SeenFrom(family, k, lo, hi, g) ==>
              0 <= g < |Concat(contents)| && Filled(family, k, contents, lo, hi, g, before) == Concat(contents)[g]
    ensures !SeenFrom(family, k, lo, hi, g) ==> Filled(family, k, contents, lo, hi, g, before) == before
    decreases |family| - k
  {
    if k < |family| {
      SeenFirstOrLater(family, k, lo, hi, g);
      if SeenBy(family, k, lo, hi, g) {
        PartOfConcat(family, contents, k, g - Base(family, k));
        FilledIs(family, k + 1, contents, lo, hi, g, contents[k][g - Base(family, k)]);
      } else {
        FilledIs(family, k + 1, contents, lo, hi, g, before);
      }
    }
  }

  lemma SeenFirstOrLater(family: seq<Volume>, k: nat, lo: int, hi: int, g: int)
    requires k < |family|
    ensures SeenFrom(family, k, lo, hi, g) <==> SeenBy(family, k, lo, hi, g) || SeenFrom(family, k + 1, lo, hi, g)
  {
  }

  lemma {:induction false} BasesAreStarts(family: seq<Volume>, contents: seq<Bytes>, k: nat)
    requires Faithful(family, contents) && k <= |family|
    ensures Base(family, k) == |Concat(contents[..k])|
  {
    if k > 0 {
      BasesAreStarts(family, contents, k - 1);
      ConcatSplit(contents[..k], k - 1);
      assert contents[..k][..k - 1] == contents[..k - 1] && contents[..k][k..] == [];
    }
  }

  lemma PartOfConcat(family: seq<Volume>, contents: seq<Bytes>, k: nat, p: nat)
    requires Faithful(family, contents) && k < |family| && p < family[k].size
    ensures Base(family, k) + p < |Concat(contents)| && Concat(contents)[Base(family, k) + p] == contents[k][p]
  {
    BasesAreStarts(family, contents, k);
    ConcatSplit(contents, k);
  }

  lemma SizeIsLength(family: seq<Volume>, contents: seq<Bytes>)
    requires Faithful(family, contents)
    ensures ArchiveSize(family) == |Concat(contents)|
  {
    BasesAreStarts(family, contents, |family|);
    assert contents[..|family|] == contents;
  }

  /** With true articles every position looked at has its byte and every other one is zero; so a range that was read
      without error is the slice of the archive exactly when it lies inside and only zeros were not looked at, and a
      complete range always is. */
  lemma BufferIsTrueExactlyWhen(family: seq<Volume>, contents: seq<Bytes>, lo: int, hi: int)
    requires Faithful(family, contents) && ReadRange(family, lo, hi).ok
    ensures var buffer, whole := ReadRange(family, lo, hi).buffer, Concat(contents);
            0 <= lo < hi <= |whole| ==> (buffer == whole[lo..hi] <==> OnlyZerosUnseen(family, whole, lo, hi))
    ensures CompleteRange(family, lo, hi) ==>
              0 <= lo < hi <= |Concat(contents)| && ReadRange(family, lo, hi).buffer == Concat(contents)[lo..hi]
  {
    ReadCount(family, lo, hi);
    if CompleteRange(family, lo, hi) {
      InsideWhenComplete(family, lo, hi);
      SizeIsLength(family, contents);
    }
    if 0 <= lo < hi <= |Concat(contents)| {
      TrueWhenZerosUnseen(family, contents, lo, hi);
      if CompleteRange(family, lo, hi) {
        assert OnlyZerosUnseen(family, Concat(contents), lo, hi);
      }
    }
  }

  predicate OnlyZerosUnseen(family: seq<Volume>, whole: Bytes, lo: int, hi: int)
    requires 0 <= lo < hi <= |whole|
  {
    forall g :: lo <= g < hi && !SeenFrom(family, 0, lo, hi, g) ==> whole[g] == 0
  }

  lemma TrueWhenZerosUnseen(family: seq<Volume>, contents: seq<Bytes>, lo: int, hi: int)
    requires Faithful(family, contents) && ReadRange(family, lo, hi).ok && 0 <= lo < hi <= |Concat(contents)|
    ensures ReadRange(family, lo, hi).buffer == Concat(contents)[lo..hi]
            <==> OnlyZerosUnseen(family, Concat(contents), lo, hi)
  {
    var buffer, whole := ReadRange(family, lo, hi).buffer, Concat(contents);
    ReadByte(family, contents, lo, hi, lo);
    SliceByByte(buffer, whole, lo, hi);
    if OnlyZerosUnseen(family, whole, lo, hi) {
      forall g | lo <= g < hi ensures buffer[g - lo] == whole[g] {
        ReadByte(family, contents, lo, hi, g);
      }
    }
    if buffer == whole[lo..hi] {
      forall g | lo <= g < hi && !SeenFrom(family, 0, lo, hi, g) ensures whole[g] == 0 {
        ReadByte(family, contents, lo, hi, g);
      }
    }
  }

  /** The buffer has the archive's byte for position `g` where that was looked at, and zero elsewhere. */
  predicate ByteIs(buffer: Bytes, whole: Bytes, lo: int, g: int, seen: bool)
    requires lo <= g < lo + |buffer|
  {
    if seen then 0 <= g < |whole| && buffer[g - lo] == whole[g] else buffer[g - lo] == 0
  }

  lemma ReadByte(family: seq<Volume>, contents: seq<Bytes>, lo: int, hi: int, g: int)
    requires Faithful(family, contents) && ReadRange(family, lo, hi).ok && lo <= g < hi
    ensures |ReadRange(family, lo, hi).buffer| == hi - lo
    ensures ByteIs(ReadRange(family, lo, hi).buffer, Concat(contents), lo, g, SeenFrom(family, 0, lo, hi, g))
  {
    var i: nat := g - lo;
    assert family[0..] == family;
    VolumesFillSeen(family, 0, contents, lo, Zeros(hi - lo), i);
    FilledIs(family, 0, contents, lo, hi, g, 0);
  }

  lemma SliceByByte(buffer: Bytes, whole: Bytes, lo: int, hi: int)
    requires 0 <= lo < hi <= |whole| && |buffer| == hi - lo
    ensures buffer == whole[lo..hi] <==> forall g :: lo <= g < hi ==> buffer[g - lo] == whole[g]
  {
    if forall g :: lo <= g < hi ==> buffer[g - lo] == whole[g] {
      forall i | 0 <= i < |buffer| ensures buffer[i] == whole[lo..hi][i] {
        assert buffer[lo + i - lo] == whole[lo + i];
      }
    }
    if buffer == whole[lo..hi] {
      forall g | lo <= g < hi ensures buffer[g - lo] == whole[g] {
        assert whole[lo..hi][g - lo] == whole[g];
      }
    }
  }

  lemma InsideWhenComplete(family: seq<Volume>, lo: int, hi: int)
    requires lo < hi && CompleteRange(family, lo, hi)
    ensures 0 <= lo && hi <= ArchiveSize(family)
  {
    assert SeenFrom(family, 0, lo, hi, lo) && SeenFrom(family, 0, lo, hi, hi - 1);
    if lo < 0 {
      NobodySeesOutside(family, lo, hi, lo);
    }
    if hi > ArchiveSize(family) {
      NobodySeesOutside(family, lo, hi, hi - 1);
    }
  }
}
