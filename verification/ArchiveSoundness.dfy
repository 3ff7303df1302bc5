/** Archives of articles listed by offset: for which families of volumes the callers' check can be trusted on every
    range, and how one volume's surplus hides another's gap. */
module ArchiveSoundness {
  import opened Common
  import opened FileWriting
  import opened ArchiveRanges
  import opened ArchiveOverlaps
  import opened ArchiveLayouts
  import opened ArchiveTotals

  predicate AllMonotone(family: seq<Volume>) {
    forall k :: 0 <= k < |family| ==> Monotone(family[k].refs)
  }

  /** The check is right on every range, those that reach outside the archive included. */
  ghost predicate ArchiveSound(family: seq<Volume>) {
    forall lo, hi :: lo < hi ==> SoundRange(family, lo, hi)
  }

  /** Every volume taken for itself. */
  ghost predicate VolumesSound(family: seq<Volume>) {
    forall k :: 0 <= k < |family| ==> SoundEverywhere(family[k].refs, family[k].size)
  }

  // ---------------------------------------------------------------- gaps, and who can pay for them

  predicate Gap(v: Volume) {
    !AllHeldBy(v.refs, 0, v.size)
  }

  /** What lies before and after the archive is missing too. */
  predicate GapAt(family: seq<Volume>, k: int) {
    k < 0 || k >= |family| || Gap(family[k])
  }

  /** Reading that stretch of the volume fills it and counts copies beyond it. */
  predicate PaysOn(v: Volume, from: nat, to: nat)
    requires from <= to
  {
    var seen := Seen(v.refs, from, to - from);
    Missing(seen, from, to) == 0 && Surplus(seen, from, to) > 0
  }

  ghost predicate PaysAtEnd(v: Volume) {
    exists a: nat :: a < v.size && PaysOn(v, a, v.size)
  }

  ghost predicate PaysAtStart(v: Volume) {
    exists b: nat :: 0 < b <= v.size && PaysOn(v, 0, b)
  }

  /** Nothing from volume `p` to volume `q` fails for want of articles. */
  predicate Readable(family: seq<Volume>, p: int, q: int) {
    forall k :: p <= k <= q && 0 <= k < |family| && family[k].size > 0 ==> family[k].refs != []
  }

  /** The surplus of one volume reaches the gap of another. */
  ghost predicate Pays(family: seq<Volume>, p: int, q: int)
    requires -1 <= p < q <= |family|
  {
    Readable(family, p, q)
    && ((0 <= p && PaysAtEnd(family[p]) && GapAt(family, q))
        || (q < |family| && GapAt(family, p) && PaysAtStart(family[q])))
  }

  ghost predicate SomeonePays(family: seq<Volume>) {
    exists p: int, q: int :: -1 <= p < q <= |family| && Pays(family, p, q)
  }

  // ---------------------------------------------------------------- windows of one volume

  lemma NoGapNoneMissing(refs: seq<Fetched>, lo: nat, hi: nat)
    requires Monotone(refs) && lo <= hi && AllHeldBy(refs, lo, hi)
    ensures Missing(Seen(refs, lo, hi - lo), lo, hi) == 0
  {
    SeenHoldsAll(refs, lo, hi);
    NoneMissing(Seen(refs, lo, hi - lo), lo, hi);
  }

  lemma OneUnseen(refs: seq<Fetched>, lo: nat, hi: nat, y: nat)
    requires Monotone(refs) && lo <= y < hi && !Held(refs, y)
    requires forall p :: lo <= p < hi && p != y ==> Held(refs, p)
    ensures Missing(Seen(refs, lo, hi - lo), lo, hi) == 1
  {
    var seen := Seen(refs, lo, hi - lo);
    HeldIsTimes(refs, y);
    SeenTimesAtMost(refs, lo, hi - lo, y);
    forall p | lo <= p < hi && p != y ensures Times(seen, p) > 0 {
      if lo == 0 {
        ForwardSeesHeld(refs, hi, p);
      } else {
        BackwardSeesHeld(refs, lo, p);
      }
      HeldIsTimes(seen, p);
    }
    OneMissing(seen, lo, hi, y);
  }

  lemma {:induction false} LastMissing(refs: seq<Fetched>, size: nat) returns (y: nat)
    requires !AllHeldBy(refs, 0, size)
    ensures y < size && !Held(refs, y) && AllHeldBy(refs, y + 1, size)
  {
    if !Held(refs, size - 1) {
      y := size - 1;
    } else {
      y := LastMissing(refs, size - 1);
    }
  }

  /** In a sound volume a window that is filled in part counts fewer surplus copies than it misses. */
  lemma SoundWindow(refs: seq<Fetched>, size: nat, lo: nat, hi: nat)
    requires Monotone(refs) && refs != [] && SoundEverywhere(refs, size) && lo < hi <= size
    ensures var seen := Seen(refs, lo, hi - lo);
            Missing(seen, lo, hi) > 0 ==> Surplus(seen, lo, hi) < Missing(seen, lo, hi)
  {
    ArticlesAreFilled(refs, lo, Zeros(hi - lo));
    CheckFailsExactlyWhen(refs, lo, hi);
    assert Sound(refs, lo, hi);
  }

  // ---------------------------------------------------------------- which volumes a range reads

  lemma {:induction false} VolumesAreRead(family: seq<Volume>, k: nat, start: int, buffer: Bytes)
    requires AllMonotone(family) && k <= |family|
    requires forall i: nat :: k <= i < |family| && Touched(family, i, start, start + |buffer|) ==> family[i].refs != []
    ensures FillVolumes(family[k..], Base(family, k), start, buffer).ok
    decreases |family| - k
  {
    if k < |family| {
      var r, rest := FillVolumesStep(family, k, Base(family, k), start, buffer);
      VolumeIsRead(family[k], Base(family, k), start, buffer);
      VolumesAreRead(family, k + 1, start, r.buffer);
    }
  }

  lemma VolumeIsRead(v: Volume, base: nat, start: int, buffer: Bytes)
    requires Monotone(v.refs) && (From(base, start) < To(v, base, start + |buffer|) ==> v.refs != [])
    ensures FillVolume(v, base, start, buffer).ok
  {
    var from, to := Max(0, base - start), Min(|buffer|, base + v.size - start);
    if from < to {
      ArticlesAreFilled(v.refs, start + from - base, Window(buffer, from, to));
    }
  }

  lemma {:induction false} ReadMeansArticles(family: seq<Volume>, k: nat, start: int, buffer: Bytes, i: nat)
    requires k <= i < |family| && Touched(family, i, start, start + |buffer|)
    requires FillVolumes(family[k..], Base(family, k), start, buffer).ok
    ensures family[i].refs != []
    decreases |family| - k
  {
    var between := FirstIsRead(family, k, start, buffer);
    if k < i {
      ReadMeansArticles(family, k + 1, start, between, i);
    }
  }

  lemma FirstIsRead(family: seq<Volume>, k: nat, start: int, buffer: Bytes) returns (between: Bytes)
    requires k < |family| && FillVolumes(family[k..], Base(family, k), start, buffer).ok
    ensures |between| == |buffer| && FillVolumes(family[k + 1..], Base(family, k + 1), start, between).ok
    ensures Touched(family, k, start, start + |buffer|) ==> family[k].refs != []
  {
    var r, rest := FillVolumesStep(family, k, Base(family, k), start, buffer);
    between := r.buffer;
  }

  lemma RangeIsRead(family: seq<Volume>, lo: int, hi: int)
    requires AllMonotone(family) && lo < hi
    requires forall i: nat :: i < |family| && Touched(family, i, lo, hi) ==> family[i].refs != []
    ensures ReadRange(family, lo, hi).ok
  {
    assert family[0..] == family;
    VolumesAreRead(family, 0, lo, Zeros(hi - lo));
  }

  lemma TouchedHasArticles(family: seq<Volume>, lo: int, hi: int, i: nat)
    requires ReadRange(family, lo, hi).ok && i < |family| && Touched(family, i, lo, hi)
    ensures family[i].refs != []
  {
    assert family[0..] == family;
    ReadMeansArticles(family, 0, lo, Zeros(hi - lo), i);
  }

  // ---------------------------------------------------------------- sums over the volumes

  lemma {:induction false} TotalOfOne(m: Measure, family: seq<Volume>, k: nat, lo: int, hi: int, q: nat)
    requires k <= q < |family| && forall i: nat :: k <= i < |family| && i != q ==> At(m, family, i, lo, hi) == 0
    ensures Total(m, family, k, lo, hi) == At(m, family, q, lo, hi)
    decreases |family| - k
  {
    if k < q {
      TotalOfOne(m, family, k + 1, lo, hi, q);
    } else {
      TotalOfNone(m, family, k + 1, lo, hi);
    }
  }

  /** Where no volume counts more surplus copies than it misses positions, neither does the range. */
  lemma {:induction false} NobodyPays(family: seq<Volume>, k: nat, lo: int, hi: int)
    requires k <= |family|
    requires forall i: nat :: k <= i < |family| ==>
               At(SurplusCount, family, i, lo, hi) <= At(GapCount, family, i, lo, hi)
    ensures Total(SurplusCount, family, k, lo, hi) <= Total(GapCount, family, k, lo, hi)
    ensures (exists q: nat :: k <= q < |family|
                              && At(SurplusCount, family, q, lo, hi) < At(GapCount, family, q, lo, hi))
            ==> Total(SurplusCount, family, k, lo, hi) < Total(GapCount, family, k, lo, hi)
    decreases |family| - k
  {
    if k < |family| {
      NobodyPays(family, k + 1, lo, hi);
    }
  }

  // ---------------------------------------------------------------- sound when nobody pays

  /** In a range on which the check passes wrongly, some volume pays. */
  lemma WrongRangeHasPayer(family: seq<Volume>, lo: int, hi: int) returns (p: nat)
    requires AllMonotone(family) && VolumesSound(family) && ReadRange(family, lo, hi).ok && lo < hi
    requires 0 < MissingIn(family, lo, hi) <= SurplusIn(family, lo, hi)
    ensures p < |family| && Touched(family, p, lo, hi)
    ensures At(GapCount, family, p, lo, hi) == 0 < At(SurplusCount, family, p, lo, hi)
  {
    forall i: nat | i < |family| && At(GapCount, family, i, lo, hi) > 0
      ensures At(SurplusCount, family, i, lo, hi) < At(GapCount, family, i, lo, hi)
    {
      TouchedHasArticles(family, lo, hi, i);
      SoundWindow(family[i].refs, family[i].size, From(Base(family, i), lo), To(family[i], Base(family, i), hi));
    }
    if forall i: nat :: i < |family| ==> At(SurplusCount, family, i, lo, hi) <= At(GapCount, family, i, lo, hi) {
      NobodyPays(family, 0, lo, hi);
      if forall i: nat :: i < |family| ==> At(GapCount, family, i, lo, hi) == 0 {
        TotalOfNone(GapCount, family, 0, lo, hi);
      }
      assert false;
    }
    p :| p < |family| && At(SurplusCount, family, p, lo, hi) > At(GapCount, family, p, lo, hi);
  }

  /** A range that goes beyond volume `p` reads it to its end, one that begins before it from its start. */
  lemma PayerAtEdge(family: seq<Volume>, lo: int, hi: int, p: nat)
    requires p < |family| && Touched(family, p, lo, hi)
    requires At(GapCount, family, p, lo, hi) == 0 < At(SurplusCount, family, p, lo, hi)
    ensures hi >= Base(family, p) + family[p].size ==> PaysAtEnd(family[p])
    ensures lo <= Base(family, p) ==> PaysAtStart(family[p])
  {
    var v, base := family[p], Base(family, p);
    assert PaysOn(v, From(base, lo), To(v, base, hi));
  }

  lemma BetweenIsRead(family: seq<Volume>, lo: int, hi: int, p: int, q: int)
    requires ReadRange(family, lo, hi).ok && p < q
    requires 0 <= p < |family| ==> lo < Base(family, p) + family[p].size
    requires p < 0 ==> lo < 0
    requires 0 <= q < |family| ==> hi > Base(family, q)
    requires q >= |family| ==> hi > ArchiveSize(family)
    requires 0 <= p || q < |family|
    requires 0 <= p < |family| ==> Touched(family, p, lo, hi)
    requires 0 <= q < |family| ==> Touched(family, q, lo, hi)
    ensures Readable(family, p, q)
  {
    forall k | p <= k <= q && 0 <= k < |family| && family[k].size > 0 ensures family[k].refs != [] {
      if 0 <= p < k {
        BaseGrows(family, p, k);
      }
      if k < q < |family| {
        BaseGrows(family, k, q);
      }
      BaseGrows(family, k, |family|);
      TouchedHasArticles(family, lo, hi, k);
    }
  }

  lemma SoundWhenNobodyPays(family: seq<Volume>, lo: int, hi: int)
    requires AllMonotone(family) && VolumesSound(family) && lo < hi && !SoundRange(family, lo, hi)
    ensures SomeonePays(family)
  {
    RangeCheckFailsExactlyWhen(family, lo, hi);
    var p := WrongRangeHasPayer(family, lo, hi);
    PayerAtEdge(family, lo, hi, p);
    BaseGrows(family, p, |family|);
    var n := |family|;
    if hi > ArchiveSize(family) {
      BetweenIsRead(family, lo, hi, p, n);
      assert Pays(family, p, n);
    } else if lo < 0 {
      BetweenIsRead(family, lo, hi, -1, p);
      assert Pays(family, -1, p);
    } else {
      if forall i: nat :: i < |family| ==> At(GapCount, family, i, lo, hi) == 0 {
        TotalOfNone(GapCount, family, 0, lo, hi);
      }
      var q: nat :| q < |family| && At(GapCount, family, q, lo, hi) > 0;
      MissedIsGap(family, lo, hi, q);
      if p < q {
        BaseGrows(family, p, q);
        BetweenIsRead(family, lo, hi, p, q);
        assert Pays(family, p, q);
      } else {
        BaseGrows(family, q, p);
        BetweenIsRead(family, lo, hi, q, p);
        assert Pays(family, q, p);
      }
    }
  }

  lemma MissedIsGap(family: seq<Volume>, lo: int, hi: int, q: nat)
    requires AllMonotone(family) && q < |family| && At(GapCount, family, q, lo, hi) > 0
    ensures Gap(family[q])
  {
    if !Gap(family[q]) {
      NoGapNoneMissing(family[q].refs, From(Base(family, q), lo), To(family[q], Base(family, q), hi));
    }
  }

  // ---------------------------------------------------------------- unsound when somebody pays

  lemma WrongRange(family: seq<Volume>, lo: int, hi: int)
    requires lo < hi && ReadRange(family, lo, hi).ok && 0 < MissingIn(family, lo, hi) <= SurplusIn(family, lo, hi)
    ensures !ArchiveSound(family)
  {
    RangeCheckFailsExactlyWhen(family, lo, hi);
    assert !SoundRange(family, lo, hi);
  }

  /** A volume that is not sound for itself makes the archive unsound. */
  lemma UnsoundVolume(family: seq<Volume>, k: nat)
    requires AllMonotone(family) && k < |family| && !SoundEverywhere(family[k].refs, family[k].size)
    ensures !ArchiveSound(family)
  {
    var v, base := family[k], Base(family, k);
    var a: nat, b: nat :| a < b <= v.size && !Sound(v.refs, a, b);
    CheckFailsExactlyWhen(v.refs, a, b);
    var lo, hi := base + a, base + b;
    forall i: nat | i < |family| && i != k ensures !Touched(family, i, lo, hi) {
      NotTouched(family, i, k, lo, hi);
    }
    InsideOneVolume(family, k, a, b);
    RangeIsRead(family, lo, hi);
    WrongRange(family, lo, hi);
  }

  /** What a range inside volume `k` misses is what the volume misses there, and its surplus is counted. */
  lemma InsideOneVolume(family: seq<Volume>, k: nat, a: nat, b: nat)
    requires k < |family| && a < b <= family[k].size
    ensures var lo, hi, seen := Base(family, k) + a, Base(family, k) + b, Seen(family[k].refs, a, b - a);
            && MissingIn(family, lo, hi) == Missing(seen, a, b)
            && SurplusIn(family, lo, hi) >= Surplus(seen, a, b)
  {
    var v, base := family[k], Base(family, k);
    var lo, hi := base + a, base + b;
    assert Looked(v, base, lo, hi) == Seen(v.refs, a, b - a);
    forall i: nat | i < |family| && i != k ensures At(GapCount, family, i, lo, hi) == 0 {
      NotTouched(family, i, k, lo, hi);
    }
    TotalOfOne(GapCount, family, 0, lo, hi, k);
    TotalAtLeast(SurplusCount, family, 0, lo, hi, k);
    BaseGrows(family, k, |family|);
  }

  lemma NotTouched(family: seq<Volume>, i: nat, k: nat, lo: int, hi: int)
    requires i < |family| && k < |family| && i != k
    requires i < k ==> Base(family, k) <= lo
    requires k < i ==> hi <= Base(family, k) + family[k].size
    ensures !Touched(family, i, lo, hi) && At(GapCount, family, i, lo, hi) == 0
  {
    if i < k {
      BaseGrows(family, i, k);
    } else {
      BaseGrows(family, k, i);
    }
  }

  lemma {:induction false} FirstGap(family: seq<Volume>, p: int, q: int) returns (first: int)
    requires p < q && GapAt(family, q)
    ensures p < first <= q && GapAt(family, first) && forall k :: p < k < first ==> !GapAt(family, k)
    decreases q - p
  {
    if GapAt(family, p + 1) {
      first := p + 1;
    } else {
      first := FirstGap(family, p + 1, q);
    }
  }

  lemma {:induction false} LastGap(family: seq<Volume>, p: int, q: int) returns (last: int)
    requires p < q && GapAt(family, p)
    ensures p <= last < q && GapAt(family, last) && forall k :: last < k < q ==> !GapAt(family, k)
    decreases q - p
  {
    if GapAt(family, q - 1) {
      last := q - 1;
    } else {
      last := LastGap(family, p, q - 1);
    }
  }

  lemma NoGapInside(family: seq<Volume>, k: nat, lo: int, hi: int)
    requires AllMonotone(family) && k < |family| && !Gap(family[k])
    ensures At(GapCount, family, k, lo, hi) == 0
  {
    if Touched(family, k, lo, hi) {
      NoGapNoneMissing(family[k].refs, From(Base(family, k), lo), To(family[k], Base(family, k), hi));
    }
  }

  /** Where to stop, in volume `q` or beyond the archive, for just one position to be missing. */
  lemma StopAfterGap(family: seq<Volume>, q: nat) returns (hi: int)
    requires AllMonotone(family) && q <= |family| && GapAt(family, q)
    ensures Base(family, q) < hi
    ensures q == |family| ==> hi == ArchiveSize(family) + 1
    ensures q < |family| ==>
              hi <= Base(family, q) + family[q].size
              && forall lo :: lo <= Base(family, q) ==> At(GapCount, family, q, lo, hi) == 1
  {
    if q == |family| {
      hi := ArchiveSize(family) + 1;
    } else {
      var v, base := family[q], Base(family, q);
      var z: nat :| z < v.size && !Held(v.refs, z);
      var y := FirstMissing(v.refs, z);
      hi := base + y + 1;
      OneUnseen(v.refs, 0, y + 1, y);
      forall lo | lo <= base ensures At(GapCount, family, q, lo, hi) == 1 {
        assert Looked(v, base, lo, hi) == Seen(v.refs, 0, y + 1);
      }
    }
  }

  /** Where to begin, in volume `p` or before the archive, for just one position to be missing. */
  lemma BeginBeforeGap(family: seq<Volume>, p: int) returns (lo: int)
    requires AllMonotone(family) && -1 <= p < |family| && GapAt(family, p)
    ensures p < 0 ==> lo == -1
    ensures p >= 0 ==>
              Base(family, p) <= lo < Base(family, p) + family[p].size
              && forall hi :: hi >= Base(family, p) + family[p].size ==> At(GapCount, family, p, lo, hi) == 1
  {
    if p < 0 {
      lo := -1;
    } else {
      var v, base := family[p], Base(family, p);
      var y := LastMissing(v.refs, v.size);
      lo := base + y;
      OneUnseen(v.refs, y, v.size, y);
      forall hi | hi >= base + v.size ensures At(GapCount, family, p, lo, hi) == 1 {
        assert Looked(v, base, lo, hi) == Seen(v.refs, y, v.size - y);
      }
    }
  }

  /** The volumes between `p` and `q` have no gap, and those outside are not read. */
  lemma NoOtherGap(family: seq<Volume>, p: int, q: int, lo: int, hi: int, i: nat)
    requires AllMonotone(family) && -1 <= p < q <= |family| && i < |family| && i != p && i != q
    requires forall k :: p < k < q ==> !GapAt(family, k)
    requires 0 <= p ==> Base(family, p) <= lo
    requires q < |family| ==> hi <= Base(family, q) + family[q].size
    ensures At(GapCount, family, i, lo, hi) == 0 && (i < p || q < i ==> !Touched(family, i, lo, hi))
  {
    if i < p {
      NotTouched(family, i, p, lo, hi);
    } else if q < i {
      NotTouched(family, i, q, lo, hi);
    } else {
      assert !GapAt(family, i);
      NoGapInside(family, i, lo, hi);
    }
  }

  /** From inside volume `p` on to one position that is missing, nothing missing in between. */
  lemma PaidAtEnd(family: seq<Volume>, p: nat, q: nat, a: nat)
    requires AllMonotone(family) && p < q <= |family| && Readable(family, p, q)
    requires a < family[p].size && PaysOn(family[p], a, family[p].size)
    requires GapAt(family, q) && forall k :: p < k < q ==> !GapAt(family, k)
    ensures !ArchiveSound(family)
  {
    var v, base := family[p], Base(family, p);
    var lo := base + a;
    var hi := StopAfterGap(family, q);
    BaseGrows(family, p, q);
    BaseGrows(family, q, |family|);
    assert Looked(v, base, lo, hi) == Seen(v.refs, a, v.size - a);
    forall i: nat | i < |family| && i != q
      ensures At(GapCount, family, i, lo, hi) == 0 && (i < p || q < i ==> !Touched(family, i, lo, hi))
    {
      if i != p {
        NoOtherGap(family, p, q, lo, hi, i);
      }
    }
    OneGapPaid(family, lo, hi, p, q);
  }

  /** From one position that is missing on into volume `q`, nothing missing in between. */
  lemma PaidAtStart(family: seq<Volume>, p: int, q: nat, b: nat)
    requires AllMonotone(family) && -1 <= p < q < |family| && Readable(family, p, q)
    requires 0 < b <= family[q].size && PaysOn(family[q], 0, b)
    requires GapAt(family, p) && forall k :: p < k < q ==> !GapAt(family, k)
    ensures !ArchiveSound(family)
  {
    var v, base := family[q], Base(family, q);
    var lo := BeginBeforeGap(family, p);
    var hi := base + b;
    if p >= 0 {
      BaseGrows(family, p, q);
    }
    BaseGrows(family, q, |family|);
    assert Looked(v, base, lo, hi) == Seen(v.refs, 0, b);
    forall i: nat | i < |family| && i != p
      ensures At(GapCount, family, i, lo, hi) == 0 && (i < p || q < i ==> !Touched(family, i, lo, hi))
    {
      if i != q {
        NoOtherGap(family, p, q, lo, hi, i);
      }
    }
    OneGapPaid(family, lo, hi, q, p);
  }

  /** A range that misses one position, in volume `gap` or outside the archive, while volume `payer` counts a copy too
      many. */
  lemma OneGapPaid(family: seq<Volume>, lo: int, hi: int, payer: nat, gap: int)
    requires AllMonotone(family) && payer < |family| && At(SurplusCount, family, payer, lo, hi) > 0
    requires forall i: nat :: i < |family| && i != gap ==> At(GapCount, family, i, lo, hi) == 0
    requires lo < hi && Outside(family, lo, hi) == if 0 <= gap < |family| then 0 else 1
    requires 0 <= gap < |family| ==> At(GapCount, family, gap, lo, hi) == 1
    requires forall i: nat :: i < |family| && Touched(family, i, lo, hi) ==> family[i].refs != []
    ensures !ArchiveSound(family)
  {
    TotalAtLeast(SurplusCount, family, 0, lo, hi, payer);
    if 0 <= gap < |family| {
      TotalOfOne(GapCount, family, 0, lo, hi, gap);
    } else {
      TotalOfNone(GapCount, family, 0, lo, hi);
    }
    RangeIsRead(family, lo, hi);
    WrongRange(family, lo, hi);
  }

  lemma UnsoundWhenPaid(family: seq<Volume>, p: int, q: int)
    requires AllMonotone(family) && -1 <= p < q <= |family| && Pays(family, p, q)
    ensures !ArchiveSound(family)
  {
    if 0 <= p && PaysAtEnd(family[p]) && GapAt(family, q) {
      var a: nat :| a < family[p].size && PaysOn(family[p], a, family[p].size);
      var first := FirstGap(family, p, q);
      PaidAtEnd(family, p, first, a);
    } else {
      var b: nat :| 0 < b <= family[q].size && PaysOn(family[q], 0, b);
      var last := LastGap(family, p, q);
      PaidAtStart(family, last, q, b);
    }
  }

  /** For volumes whose articles are listed by offset: the callers' check can be trusted on every range of the archive
      exactly when it can in every volume taken for itself and no volume's surplus reaches another one's gap, or the
      end or the beginning of the archive, over volumes that have articles. */
  lemma ArchiveSoundExactlyWhen(family: seq<Volume>)
    requires AllMonotone(family)
    ensures ArchiveSound(family) <==> VolumesSound(family) && !SomeonePays(family)
  {
    if !VolumesSound(family) {
      var k: nat :| k < |family| && !SoundEverywhere(family[k].refs, family[k].size);
      UnsoundVolume(family, k);
    } else if SomeonePays(family) {
      var p: int, q: int :| -1 <= p < q <= |family| && Pays(family, p, q);
      UnsoundWhenPaid(family, p, q);
    } else {
      forall lo, hi | lo < hi ensures SoundRange(family, lo, hi) {
        if !SoundRange(family, lo, hi) {
          SoundWhenNobodyPays(family, lo, hi);
        }
      }
    }
  }

  // ---------------------------------------------------------------- which volumes pay, by their articles

  lemma SurplusSomewhere(refs: seq<Fetched>, lo: int, hi: int)
    requires Surplus(refs, lo, hi) > 0
    ensures !NoDouble(refs, lo, hi)
  {
    if NoDouble(refs, lo, hi) {
      NoSurplus(refs, lo, hi);
    }
  }

  /** A volume pays for what precedes it exactly when it holds its first byte and has two articles that share a byte,
      one of which stops before its end. */
  lemma PaysAtStartExactlyWhen(v: Volume)
    requires Monotone(v.refs) && SoundEverywhere(v.refs, v.size)
    ensures PaysAtStart(v) <==> Held(v.refs, 0) && !DoublesReachEnd(v.refs, v.size)
  {
    if b: nat :| 0 < b <= v.size && PaysOn(v, 0, b) {
      var seen := SeenForward(v.refs, b);
      assert seen == Seen(v.refs, 0, b - 0);
      NoneMissing(seen, 0, b);
      HeldIsTimes(seen, 0);
      ForwardTimesAtMost(v.refs, b, 0);
      HeldIsTimes(v.refs, 0);
      SurplusSomewhere(seen, 0, b);
      if DoublesReachEnd(v.refs, v.size) {
        forall p | 0 <= p < b ensures Times(seen, p) <= 1 {
          ForwardSeesNoDouble(v.refs, v.size, b, p);
        }
        assert false;
      }
    }
    if Held(v.refs, 0) && !DoublesReachEnd(v.refs, v.size) {
      var i, j, p :| 0 <= i < j < |v.refs| && 0 <= p < v.size && Holds(v.refs[i], p) && Holds(v.refs[j], p)
                     && End(v.refs[i]) < v.size;
      DoubleLeavesNoGap(v, i, j, p);
      PaysUpTo(v, i, j, p, End(v.refs[i]) + 1);
    }
  }

  lemma PaysUpTo(v: Volume, i: nat, j: nat, p: nat, b: nat)
    requires Monotone(v.refs) && i < j < |v.refs| && Holds(v.refs[i], p) && Holds(v.refs[j], p)
    requires End(v.refs[i]) < b <= v.size && AllHeldBy(v.refs, 0, v.size)
    ensures PaysOn(v, 0, b)
  {
    ForwardSeesDouble(v.refs, i, j, p, b);
    SomeSurplus(Seen(v.refs, 0, b - 0), 0, b, End(v.refs[i]) - 1);
    NoGapNoneMissing(v.refs, 0, b);
  }

  /** Two articles that share a byte, where the later one does not start at the file's first bytes, or the file's first
      byte is held and the other stops before the end. */
  ghost predicate LateDouble(v: Volume) {
    exists i, j, p :: 0 <= i < j < |v.refs| && 0 <= p < v.size && Holds(v.refs[i], p) && Holds(v.refs[j], p)
                      && (v.refs[j].offset >= 2 || (Held(v.refs, 0) && End(v.refs[i]) < v.size))
  }

  /** A backward fill that starts before the later of two articles sees what they share twice. */
  lemma {:induction false} BackwardSeesDouble(refs: seq<Fetched>, at: nat, i: nat, j: nat, p: nat)
    requires Monotone(refs) && i < j < |refs| && Holds(refs[i], p) && Holds(refs[j], p)
    requires at < refs[j].offset && at <= p
    ensures Times(SeenBackward(refs, at), p) > 1
  {
    var last := |refs| - 1;
    var a, part := refs[last], refs[..last];
    TimesConcat(SeenBackward(part, at), [a], p);
    TimesOfOne(a, p);
    assert part[i] == refs[i];
    if j < last {
      assert part[j] == refs[j] && a.offset >= refs[j].offset;
      BackwardSeesDouble(part, at, i, j, p);
    } else {
      assert refs[i] in part && Holds(refs[i], p);
      BackwardSeesHeld(part, at, p);
      HeldIsTimes(SeenBackward(part, at), p);
    }
  }

  /** Articles that share bytes only when both start at the first bytes are never seen together from 1 on. */
  lemma {:induction false} BackwardSeesNoDouble(refs: seq<Fetched>, size: nat, at: nat, p: nat)
    requires Monotone(refs) && 1 <= at <= p < size
    requires forall i, j, q :: 0 <= i < j < |refs| && 0 <= q < size && Holds(refs[i], q) && Holds(refs[j], q) ==>
               refs[j].offset < 2
    ensures Times(SeenBackward(refs, at), p) <= 1
  {
    if refs != [] {
      var last := |refs| - 1;
      var a, part := refs[last], refs[..last];
      TimesOfOne(a, p);
      if a.offset > at {
        TimesConcat(SeenBackward(part, at), [a], p);
        if Holds(a, p) {
          forall b | b in part ensures !Holds(b, p) {
            var i: nat :| i < |part| && part[i] == b;
            assert refs[i] == b;
          }
          HeldIsTimes(part, p);
          BackwardTimesAtMost(part, at, p);
        } else {
          BackwardSeesNoDouble(part, size, at, p);
        }
      }
    }
  }

  /** A volume pays for what follows it exactly when it has such a late double. */
  lemma PaysAtEndExactlyWhen(v: Volume)
    requires Monotone(v.refs) && SoundEverywhere(v.refs, v.size)
    ensures PaysAtEnd(v) <==> LateDouble(v)
  {
    if a: nat :| a < v.size && PaysOn(v, a, v.size) {
      PayerIsLate(v, a);
    }
    if LateDouble(v) {
      var i, j, p :| 0 <= i < j < |v.refs| && 0 <= p < v.size && Holds(v.refs[i], p) && Holds(v.refs[j], p)
                     && (v.refs[j].offset >= 2 || (Held(v.refs, 0) && End(v.refs[i]) < v.size));
      DoubleLeavesNoGap(v, i, j, p);
      if v.refs[j].offset >= 2 {
        PaysFrom(v, i, j, p, v.refs[j].offset - 1);
      } else {
        PaysUpTo(v, i, j, p, v.size);
      }
    }
  }

  /** What a double says of the gaps of a sound volume. */
  lemma DoubleLeavesNoGap(v: Volume, i: nat, j: nat, p: nat)
    requires Monotone(v.refs) && SoundEverywhere(v.refs, v.size)
    requires i < j < |v.refs| && p < v.size && Holds(v.refs[i], p) && Holds(v.refs[j], p)
    ensures Held(v.refs, 0) ==> AllHeldBy(v.refs, 0, v.size)
    ensures p >= 2 ==> AllHeldBy(v.refs, 1, v.size)
  {
    TwiceHeld(v.refs, i, j, p);
    SoundExactlyWhen(v.refs, v.size);
  }

  lemma PaysFrom(v: Volume, i: nat, j: nat, p: nat, a: nat)
    requires Monotone(v.refs) && i < j < |v.refs| && Holds(v.refs[i], p) && Holds(v.refs[j], p) && p < v.size
    requires 1 <= a < v.refs[j].offset && AllHeldBy(v.refs, 1, v.size)
    ensures a < v.size && PaysOn(v, a, v.size)
  {
    BackwardSeesDouble(v.refs, a, i, j, p);
    SomeSurplus(Seen(v.refs, a, v.size - a), a, v.size, p);
    NoGapNoneMissing(v.refs, a, v.size);
  }

  lemma PayerIsLate(v: Volume, a: nat)
    requires Monotone(v.refs) && a < v.size && PaysOn(v, a, v.size)
    ensures LateDouble(v)
  {
    var seen := Seen(v.refs, a, v.size - a);
    SurplusSomewhere(seen, a, v.size);
    var p: nat :| a <= p < v.size && Times(seen, p) > 1;
    if !LateDouble(v) {
      if a == 0 {
        NoneMissing(seen, 0, v.size);
        HeldIsTimes(seen, 0);
        ForwardTimesAtMost(v.refs, v.size, 0);
        HeldIsTimes(v.refs, 0);
        ForwardSeesNoDouble(v.refs, v.size, v.size, p);
      } else {
        BackwardSeesNoDouble(v.refs, v.size, a, p);
      }
      assert false;
    }
  }

  // ---------------------------------------------------------------- which archives are sound, by their articles

  /** The same as `Pays`, said of the articles. */
  ghost predicate Reaches(family: seq<Volume>, p: int, q: int)
    requires -1 <= p < q <= |family|
  {
    Readable(family, p, q)
    && ((0 <= p && LateDouble(family[p]) && GapAt(family, q))
        || (q < |family| && GapAt(family, p)
            && Held(family[q].refs, 0) && !DoublesReachEnd(family[q].refs, family[q].size)))
  }

  /** For articles listed by offset, the check can be trusted on every range of the archive exactly when it can in every
      volume taken for itself (`SoundExactlyWhen`) and no volume with doubled bytes that a fill sees twice reaches,
      over volumes that have articles, one with a missing byte or an end of the archive. */
  lemma ArchiveSoundByArticles(family: seq<Volume>)
    requires AllMonotone(family)
    ensures ArchiveSound(family)
            <==> VolumesSound(family)
                 && forall p: int, q: int :: -1 <= p < q <= |family| ==> !Reaches(family, p, q)
  {
    ArchiveSoundExactlyWhen(family);
    if VolumesSound(family) {
      forall p: int, q: int | -1 <= p < q <= |family| ensures Pays(family, p, q) <==> Reaches(family, p, q) {
        if 0 <= p {
          PaysAtEndExactlyWhen(family[p]);
        }
        if q < |family| {
          PaysAtStartExactlyWhen(family[q]);
        }
      }
    }
  }

  // ---------------------------------------------------------------- two volumes

  /** Both files are sound on every range of their own; together they pass the check with a byte that nobody holds, the
      doubled one of the first paying for the missing one of the second. */
  lemma VolumesPayForEachOther(x: byte)
    requires x != 0
    ensures var a, rest := Article(0, [x]), Article(1, [x]);
            var first, second := Volume(2, [a, a, rest]), Volume(2, [a]);
            && SoundEverywhere(first.refs, 2) && SoundEverywhere(second.refs, 2)
            && ReadRange([first, second], 0, 4) == Filling([x, x, x, 0], 4, true)
            && !Held(second.refs, 1) && !ArchiveSound([first, second])
  {
    var a, rest := Article(0, [x]), Article(1, [x]);
    var first, second := Volume(2, [a, a, rest]), Volume(2, [a]);
    FirstIsWhole(a, rest);
    SecondHasNoDouble(a);
    PairIsRead(x, a, rest);
    LastByteUnseen([first, second], a);
    assert !SoundRange([first, second], 0, 4);
  }

  lemma LastByteUnseen(family: seq<Volume>, a: Fetched)
    requires |family| == 2 && family[0].size == 2 && family[1] == Volume(2, [a])
    requires a.Article? && a.offset == 0 && |a.body| == 1
    ensures !CompleteRange(family, 0, 4)
  {
    assert Base(family, 0) == 0 && Base(family, 1) == 2;
    SeenTimesAtMost([a], 0, 2, 1);
    TimesOfOne(a, 1);
    HeldIsTimes(Seen([a], 0, 2), 1);
    assert !SeenFrom(family, 0, 0, 4, 3);
  }

  lemma FirstIsWhole(a: Fetched, rest: Fetched)
    requires a.Article? && a.offset == 0 && |a.body| == 1 && rest.Article? && rest.offset == 1 && |rest.body| == 1
    ensures Monotone([a, a, rest]) && SoundEverywhere([a, a, rest], 2)
  {
    var refs := [a, a, rest];
    assert Holds(a, 0) && a in refs && Holds(rest, 1) && rest in refs;
    forall p | 0 <= p < 2 ensures Held(refs, p) {
    }
    SoundExactlyWhen(refs, 2);
  }

  lemma SecondHasNoDouble(a: Fetched)
    requires a.Article? && a.offset == 0 && |a.body| == 1
    ensures Monotone([a]) && SoundEverywhere([a], 2) && !Held([a], 1)
  {
    forall p | 0 <= p < 2 ensures Times([a], p) <= 1 {
      TimesOfOne(a, p);
    }
    SoundExactlyWhen([a], 2);
  }

  lemma PairIsRead(x: byte, a: Fetched, rest: Fetched)
    requires a == Article(0, [x]) && rest == Article(1, [x])
    ensures ReadRange([Volume(2, [a, a, rest]), Volume(2, [a])], 0, 4) == Filling([x, x, x, 0], 4, true)
  {
    var first, second := Volume(2, [a, a, rest]), Volume(2, [a]);
    assert [a, a, rest][1..] == [a, rest] && [a, rest][1..] == [rest];
    assert Overlay([0, 0], 0, a) == [x, 0] && Overlay([x, 0], 0, a) == [x, 0] && Overlay([x, 0], 0, rest) == [x, x];
    assert FillForward([rest], [x, 0]) == Filling([x, x], 1, true);
    assert FillForward([a, rest], [x, 0]) == Filling([x, x], 2, true);
    assert FillForward([a, a, rest], [0, 0]) == Filling([x, x], 3, true);
    assert [a][1..] == [];
    assert FillForward([a], [0, 0]) == Filling([x, 0], 1, true);
    assert Window([0, 0, 0, 0], 0, 2) == [0, 0] && Splice([0, 0, 0, 0], 0, 2, [x, x]) == [x, x, 0, 0];
    assert FillVolume(first, 0, 0, [0, 0, 0, 0]) == Filling([x, x, 0, 0], 3, true);
    assert Window([x, x, 0, 0], 2, 4) == [0, 0] && Splice([x, x, 0, 0], 2, 4, [x, 0]) == [x, x, x, 0];
    assert FillVolume(second, 2, 0, [x, x, 0, 0]) == Filling([x, x, x, 0], 1, true);
    assert [first, second][1..] == [second] && [second][1..] == [];
    assert FillVolumes([second], 2, 0, [x, x, 0, 0]) == Filling([x, x, x, 0], 1, true);
    assert Zeros(4) == [0, 0, 0, 0];
  }
}
