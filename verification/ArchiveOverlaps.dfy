/** When the count of a range read can be trusted: articles that share positions, in any order of delivery. */
module ArchiveOverlaps {
  import opened Common
  import opened FileWriting
  import opened ArchiveRanges

  // ---------------------------------------------------------------- the articles a fill looks at

  /** Up to the first article that reaches the end of the range. */
  function SeenForward(refs: seq<Fetched>, size: nat): seq<Fetched> {
    if refs == [] || refs[0].Unavailable? then []
    else if Overlap(refs[0], 0, size) > 0 && refs[0].offset + |refs[0].body| >= size then [refs[0]]
    else [refs[0]] + SeenForward(refs[1..], size)
  }

  /** From the back, up to the first article that starts at or before the range. */
  function SeenBackward(refs: seq<Fetched>, at: int): seq<Fetched> {
    if refs == [] || refs[|refs| - 1].Unavailable? then []
    else if refs[|refs| - 1].offset <= at then [refs[|refs| - 1]]
    else SeenBackward(refs[..|refs| - 1], at) + [refs[|refs| - 1]]
  }

  function Seen(refs: seq<Fetched>, at: int, size: nat): seq<Fetched> {
    if at <= 0 then SeenForward(refs, size) else SeenBackward(refs, at)
  }

  // ---------------------------------------------------------------- how often a position is held

  function Times(refs: seq<Fetched>, p: int): nat {
    if refs == [] then 0 else (if Holds(refs[0], p) then 1 else 0) + Times(refs[1..], p)
  }

  lemma {:induction false} TimesConcat(a: seq<Fetched>, b: seq<Fetched>, p: int)
    ensures Times(a + b, p) == Times(a, p) + Times(b, p)
  {
    if a == [] {
      assert a + b == b;
    } else {
      assert (a + b)[1..] == a[1..] + b;
      TimesConcat(a[1..], b, p);
    }
  }

  lemma TimesOfOne(a: Fetched, p: int)
    ensures Times([a], p) == if Holds(a, p) then 1 else 0
  {
    assert [a][1..] == [];
  }

  lemma {:induction false} HeldIsTimes(refs: seq<Fetched>, p: int)
    ensures Held(refs, p) <==> Times(refs, p) > 0
  {
    if refs != [] {
      HeldByFirstOrRest(refs, p);
      HeldIsTimes(refs[1..], p);
    }
  }

  /** The copies of the positions of `[lo, hi)` that the articles hold. */
  function Copies(refs: seq<Fetched>, lo: int, hi: int): nat
    decreases hi - lo
  {
    if hi <= lo then 0 else Copies(refs, lo, hi - 1) + Times(refs, hi - 1)
  }

  /** The copies beyond the first of each position. */
  function Surplus(refs: seq<Fetched>, lo: int, hi: int): nat
    decreases hi - lo
  {
    if hi <= lo then 0 else Surplus(refs, lo, hi - 1) + Max(0, Times(refs, hi - 1) - 1)
  }

  /** The positions no article holds. */
  function Missing(refs: seq<Fetched>, lo: int, hi: int): nat
    decreases hi - lo
  {
    if hi <= lo then 0 else Missing(refs, lo, hi - 1) + if Times(refs, hi - 1) == 0 then 1 else 0
  }

  lemma {:induction false} CopiesBalance(refs: seq<Fetched>, lo: int, hi: int)
    requires lo <= hi
    ensures Copies(refs, lo, hi) + Missing(refs, lo, hi) == hi - lo + Surplus(refs, lo, hi)
    decreases hi - lo
  {
    if lo < hi {
      CopiesBalance(refs, lo, hi - 1);
    }
  }

  lemma {:induction false} CopiesConcat(a: seq<Fetched>, b: seq<Fetched>, lo: int, hi: int)
    ensures Copies(a + b, lo, hi) == Copies(a, lo, hi) + Copies(b, lo, hi)
    decreases hi - lo
  {
    if lo < hi {
      CopiesConcat(a, b, lo, hi - 1);
      TimesConcat(a, b, hi - 1);
    }
  }

  lemma {:induction false} CopiesOfNone(lo: int, hi: int)
    ensures Copies([], lo, hi) == 0
    decreases hi - lo
  {
    if lo < hi {
      CopiesOfNone(lo, hi - 1);
    }
  }

  lemma {:induction false} CopiesOfOne(a: Fetched, lo: int, hi: int)
    requires a.Article?
    ensures Copies([a], lo, hi) == Overlap(a, lo, hi)
    decreases hi - lo
  {
    if lo < hi {
      CopiesOfOne(a, lo, hi - 1);
      TimesOfOne(a, hi - 1);
    }
  }

  lemma {:induction false} NoneMissing(refs: seq<Fetched>, lo: int, hi: int)
    requires lo <= hi
    ensures Missing(refs, lo, hi) == 0 <==> AllHeldBy(refs, lo, hi)
    decreases hi - lo
  {
    if lo < hi {
      NoneMissing(refs, lo, hi - 1);
      HeldIsTimes(refs, hi - 1);
    }
  }

  // ---------------------------------------------------------------- what a fill counts and what it fills

  lemma {:induction false} ForwardCountsCopies(refs: seq<Fetched>, buffer: Bytes)
    requires FillForward(refs, buffer).ok
    ensures FillForward(refs, buffer).written == Copies(SeenForward(refs, |buffer|), 0, |buffer|)
  {
    var n := |buffer|;
    if refs == [] {
      CopiesOfNone(0, n);
    } else {
      var a, part := refs[0], refs[1..];
      CopiesOfOne(a, 0, n);
      if !(Overlap(a, 0, n) > 0 && a.offset + |a.body| >= n) {
        CopiesConcat([a], SeenForward(part, n), 0, n);
        ForwardCountsCopies(part, if Overlap(a, 0, n) == 0 then buffer else Overlay(buffer, 0, a));
      }
    }
  }

  lemma {:induction false} BackwardCountsCopies(refs: seq<Fetched>, at: int, buffer: Bytes)
    requires FillBackward(refs, at, buffer).ok
    ensures FillBackward(refs, at, buffer).written == Copies(SeenBackward(refs, at), at, at + |buffer|)
  {
    var hi := at + |buffer|;
    if refs == [] {
      CopiesOfNone(at, hi);
    } else {
      var a, part := refs[|refs| - 1], refs[..|refs| - 1];
      CopiesOfOne(a, at, hi);
      if a.offset > at {
        CopiesConcat(SeenBackward(part, at), [a], at, hi);
        BackwardCountsCopies(part, at, Overlay(buffer, at, a));
      }
    }
  }

  /** What a buffer holds after true articles were laid over it: the content where one of them was seen to hold it. */
  predicate FilledFrom(seen: seq<Fetched>, content: Bytes, at: nat, before: Bytes, after: Bytes)
    requires at + |before| <= |content|
  {
    && |after| == |before|
    && forall k :: 0 <= k < |before| ==> after[k] == if Held(seen, at + k) then content[at + k] else before[k]
  }

  lemma FilledWithOneMore(part: seq<Fetched>, seen: seq<Fetched>, a: Fetched, content: Bytes, at: nat, before: Bytes,
                          after: Bytes)
    requires at + |before| <= |content| && FaithfulFile([a], content)
    requires forall p :: Held(seen, p) <==> Holds(a, p) || Held(part, p)
    requires FilledFrom(part, content, at, Overlay(before, at, a), after)
    ensures FilledFrom(seen, content, at, before, after)
  {
    assert a in [a];
  }

  lemma {:induction false} ForwardFillsSeen(refs: seq<Fetched>, content: Bytes, buffer: Bytes)
    requires FillForward(refs, buffer).ok && |buffer| <= |content| && FaithfulFile(refs, content)
    ensures FilledFrom(SeenForward(refs, |buffer|), content, 0, buffer, FillForward(refs, buffer).buffer)
  {
    if refs != [] {
      var a, part, n := refs[0], refs[1..], |buffer|;
      assert a in refs && forall x :: x in part ==> x in refs;
      var seen := SeenForward(refs, n);
      if Overlap(a, 0, n) == 0 {
        OverlayOfNothing(buffer, 0, a);
      }
      var over := Overlay(buffer, 0, a);
      if Overlap(a, 0, n) > 0 && a.offset + |a.body| >= n {
        FilledWithOneMore([], seen, a, content, 0, buffer, over);
      } else {
        ForwardFillsSeen(part, content, over);
        FilledWithOneMore(SeenForward(part, n), seen, a, content, 0, buffer, FillForward(part, over).buffer);
      }
    }
  }

  lemma {:induction false} BackwardFillsSeen(refs: seq<Fetched>, content: Bytes, at: nat, buffer: Bytes)
    requires FillBackward(refs, at, buffer).ok && at + |buffer| <= |content| && FaithfulFile(refs, content)
    ensures FilledFrom(SeenBackward(refs, at), content, at, buffer, FillBackward(refs, at, buffer).buffer)
  {
    if refs != [] {
      var a, part := refs[|refs| - 1], refs[..|refs| - 1];
      assert a in refs && forall x :: x in part ==> x in refs;
      var seen, over := SeenBackward(refs, at), Overlay(buffer, at, a);
      if a.offset <= at {
        FilledWithOneMore([], seen, a, content, at, buffer, over);
      } else {
        BackwardFillsSeen(part, content, at, over);
        FilledWithOneMore(SeenBackward(part, at), seen, a, content, at, buffer, FillBackward(part, at, over).buffer);
      }
    }
  }

  /** Whatever articles share: the count is the number of copies seen, and exactly the positions seen are filled. */
  lemma FillIsWhatWasSeen(refs: seq<Fetched>, content: Bytes, at: nat, buffer: Bytes)
    requires FillFile(refs, at, buffer).ok && at + |buffer| <= |content| && FaithfulFile(refs, content)
    ensures var r, seen := FillFile(refs, at, buffer), Seen(refs, at, |buffer|);
            r.written == Copies(seen, at, at + |buffer|) && FilledFrom(seen, content, at, buffer, r.buffer)
  {
    if at == 0 {
      ForwardCountsCopies(refs, buffer);
      ForwardFillsSeen(refs, content, buffer);
    } else {
      BackwardCountsCopies(refs, at, buffer);
      BackwardFillsSeen(refs, content, at, buffer);
    }
  }

  // ---------------------------------------------------------------- when the count of one file deceives

  /** Whether the count of a stretch of one file reaches its length, and whether every position of it was filled. The
      callers compare the sum of these counts over the volumes of a range (`ArchiveTotals`). */
  predicate Passes(refs: seq<Fetched>, lo: nat, hi: nat)
    requires lo <= hi
  {
    var r := FillFile(refs, lo, Zeros(hi - lo)); r.ok && r.written >= hi - lo
  }

  predicate Complete(refs: seq<Fetched>, lo: nat, hi: nat)
    requires lo <= hi
  {
    AllHeldBy(Seen(refs, lo, hi - lo), lo, hi)
  }

  predicate AllHeldBy(refs: seq<Fetched>, lo: int, hi: int) {
    forall p :: lo <= p < hi ==> Held(refs, p)
  }

  /** For any articles: the count of an incomplete stretch reaches its length exactly when positions are missing, but no
      more than there are surplus copies among the articles looked at; that of a complete stretch always does. */
  lemma CheckFailsExactlyWhen(refs: seq<Fetched>, lo: nat, hi: nat)
    requires lo <= hi && FillFile(refs, lo, Zeros(hi - lo)).ok
    ensures var seen := Seen(refs, lo, hi - lo);
            && (Passes(refs, lo, hi) && !Complete(refs, lo, hi)
                <==> 0 < Missing(seen, lo, hi) <= Surplus(seen, lo, hi))
            && (Complete(refs, lo, hi) ==> Passes(refs, lo, hi))
  {
    var seen := Seen(refs, lo, hi - lo);
    if lo == 0 {
      ForwardCountsCopies(refs, Zeros(hi - lo));
    } else {
      BackwardCountsCopies(refs, lo, Zeros(hi - lo));
    }
    CopiesBalance(seen, lo, hi);
    NoneMissing(seen, lo, hi);
  }

  /** A complete stretch of true articles is the slice of the content, whatever the buffer held. */
  lemma CompleteIsTrue(refs: seq<Fetched>, content: Bytes, at: nat, buffer: Bytes)
    requires at + |buffer| <= |content| && FaithfulFile(refs, content)
    requires FillFile(refs, at, buffer).ok && AllHeldBy(Seen(refs, at, |buffer|), at, at + |buffer|)
    ensures FillFile(refs, at, buffer).buffer == content[at..at + |buffer|]
  {
    FillIsWhatWasSeen(refs, content, at, buffer);
  }

  /** A part delivered twice counts twice: the check passes and the other part stays zero. */
  lemma OverlapsAreCountedTwice(x: byte)
    requires x != 0
    ensures var half := Article(0, [x]);
            var r := FillFile([half, half], 0, [0, 0]);
            r.ok && r.written == 2 && r.buffer == [x, 0] && !Held([half, half], 1)
  {
    var half := Article(0, [x]);
    assert [half, half][1..] == [half];
    assert FillForward([half], [x, 0]) == Filling(Overlay([x, 0], 0, half), 1, true);
    assert Overlay([0, 0], 0, half) == [x, 0];
    assert Overlay([x, 0], 0, half) == [x, 0];
  }

  // ---------------------------------------------------------------- articles that share nothing, in any order

  ghost predicate Disjoint(refs: seq<Fetched>) {
    forall i, j, p :: 0 <= i < j < |refs| && Holds(refs[i], p) ==> !Holds(refs[j], p)
  }

  lemma InOrderIsDisjoint(refs: seq<Fetched>)
    requires InOrder(refs)
    ensures Disjoint(refs)
  {
  }

  /** No position of `[lo, hi)` is held twice. */
  predicate NoDouble(refs: seq<Fetched>, lo: int, hi: int) {
    forall p :: lo <= p < hi ==> Times(refs, p) <= 1
  }

  lemma {:induction false} DisjointIsNoDouble(refs: seq<Fetched>, p: int)
    requires Disjoint(refs)
    ensures Times(refs, p) <= 1
  {
    if refs != [] {
      DisjointIsNoDouble(refs[1..], p);
      if Holds(refs[0], p) {
        HeldIsTimes(refs[1..], p);
      }
    }
  }

  lemma {:induction false} ForwardTimesAtMost(refs: seq<Fetched>, size: nat, p: int)
    ensures Times(SeenForward(refs, size), p) <= Times(refs, p)
  {
    if refs != [] && refs[0].Article? {
      ForwardTimesAtMost(refs[1..], size, p);
      TimesOfOne(refs[0], p);
      TimesConcat([refs[0]], SeenForward(refs[1..], size), p);
    }
  }

  lemma {:induction false} BackwardTimesAtMost(refs: seq<Fetched>, at: int, p: int)
    ensures Times(SeenBackward(refs, at), p) <= Times(refs, p)
  {
    if refs != [] && refs[|refs| - 1].Article? {
      var a, part := refs[|refs| - 1], refs[..|refs| - 1];
      BackwardTimesAtMost(part, at, p);
      TimesConcat(SeenBackward(part, at), [a], p);
      TimesConcat(part, [a], p);
      assert part + [a] == refs;
    }
  }

  lemma SeenTimesAtMost(refs: seq<Fetched>, at: int, size: nat, p: int)
    ensures Times(Seen(refs, at, size), p) <= Times(refs, p)
  {
    ForwardTimesAtMost(refs, size, p);
    BackwardTimesAtMost(refs, at, p);
  }

  lemma {:induction false} NoSurplus(refs: seq<Fetched>, lo: int, hi: int)
    requires NoDouble(refs, lo, hi)
    ensures Surplus(refs, lo, hi) == 0
    decreases hi - lo
  {
    if lo < hi {
      NoSurplus(refs, lo, hi - 1);
    }
  }

  /** Where no position is held twice the check passes exactly on complete ranges, whatever the order. */
  lemma SoundWithoutDoubles(refs: seq<Fetched>, lo: nat, hi: nat)
    requires lo <= hi && NoDouble(refs, lo, hi) && FillFile(refs, lo, Zeros(hi - lo)).ok
    ensures Passes(refs, lo, hi) <==> Complete(refs, lo, hi)
  {
    NoSurplusSeen(refs, lo, hi);
    CheckFailsExactlyWhen(refs, lo, hi);
  }

  lemma NoSurplusSeen(refs: seq<Fetched>, lo: nat, hi: nat)
    requires lo <= hi && NoDouble(refs, lo, hi)
    ensures Surplus(Seen(refs, lo, hi - lo), lo, hi) == 0
  {
    var seen := Seen(refs, lo, hi - lo);
    forall p | lo <= p < hi ensures Times(seen, p) <= 1 {
      SeenTimesAtMost(refs, lo, hi - lo, p);
    }
    NoSurplus(seen, lo, hi);
  }

  lemma FileWithoutDoubles(refs: seq<Fetched>, content: Bytes, at: nat, buffer: Bytes)
    requires FillFile(refs, at, buffer).ok && at + |buffer| <= |content| && FaithfulFile(refs, content)
    requires NoDouble(refs, at, at + |buffer|)
    ensures var r := FillFile(refs, at, buffer);
            r.written <= |buffer| && (r.written == |buffer| ==> r.buffer == content[at..at + |buffer|])
  {
    var hi := at + |buffer|;
    var seen := Seen(refs, at, |buffer|);
    FillIsWhatWasSeen(refs, content, at, buffer);
    assert hi - at == |buffer|;
    NoSurplusSeen(refs, at, hi);
    CopiesBalance(seen, at, hi);
    NoneMissing(seen, at, hi);
    if FillFile(refs, at, buffer).written == |buffer| {
      CompleteIsTrue(refs, content, at, buffer);
    }
  }

  /** How many positions of a buffer of length `size` at `start` lie in a stretch of length `total` at `base`. */
  function Share(base: nat, total: nat, start: int, size: nat): nat {
    Max(0, Min(start + size, base + total) - Max(start, base))
  }

  predicate TrueWithin(content: Bytes, base: nat, start: int, before: Bytes, after: Bytes) {
    && |after| == |before|
    && forall k :: 0 <= k < |before| ==>
         after[k] == if base <= start + k < base + |content| then content[start + k - base] else before[k]
  }

  lemma VolumeWithoutDoubles(v: Volume, content: Bytes, base: nat, start: int, buffer: Bytes)
    requires |content| == v.size && FaithfulFile(v.refs, content) && NoDouble(v.refs, 0, v.size)
    requires FillVolume(v, base, start, buffer).ok
    ensures var r, share := FillVolume(v, base, start, buffer), Share(base, v.size, start, |buffer|);
            r.written <= share && (r.written == share ==> TrueWithin(content, base, start, buffer, r.buffer))
  {
    var from, to := Max(0, base - start), Min(|buffer|, base + v.size - start);
    if from < to {
      WindowWithoutDoubles(v, content, base, start, buffer, from, to);
    } else {
      NoShare(content, base, start, buffer);
    }
  }

  lemma NoShare(content: Bytes, base: nat, start: int, buffer: Bytes)
    requires Min(|buffer|, base + |content| - start) <= Max(0, base - start)
    ensures Share(base, |content|, start, |buffer|) == 0 && TrueWithin(content, base, start, buffer, buffer)
  {
  }

  lemma WindowWithoutDoubles(v: Volume, content: Bytes, base: nat, start: int, buffer: Bytes, from: nat, to: nat)
    requires |content| == v.size && FaithfulFile(v.refs, content) && NoDouble(v.refs, 0, v.size)
    requires from == Max(0, base - start) < to == Min(|buffer|, base + v.size - start)
    requires FillFile(v.refs, start + from - base, Window(buffer, from, to)).ok
    ensures Share(base, v.size, start, |buffer|) == to - from
    ensures var r := FillFile(v.refs, start + from - base, Window(buffer, from, to));
            && r.written <= to - from
            && (r.written == to - from ==>
                  TrueWithin(content, base, start, buffer, Splice(buffer, from, to, r.buffer)))
  {
    var at, window := start + from - base, Window(buffer, from, to);
    FileWithoutDoubles(v.refs, content, at, window);
    SplicedIsTrue(content, base, start, buffer, from, to, FillFile(v.refs, at, window).buffer);
  }

  lemma SplicedIsTrue(content: Bytes, base: nat, start: int, buffer: Bytes, from: nat, to: nat, part: Bytes)
    requires from == Max(0, base - start) < to == Min(|buffer|, base + |content| - start) && |part| == to - from
    ensures part == content[start + from - base..start + to - base] ==>
              TrueWithin(content, base, start, buffer, Splice(buffer, from, to, part))
  {
  }

  predicate NoneDoubled(family: seq<Volume>) {
    forall i :: 0 <= i < |family| ==> NoDouble(family[i].refs, 0, family[i].size)
  }

  lemma {:induction false} VolumesWithoutDoubles(family: seq<Volume>, contents: seq<Bytes>, base: nat, start: int,
                                                 buffer: Bytes)
    requires Faithful(family, contents) && NoneDoubled(family) && FillVolumes(family, base, start, buffer).ok
    ensures var r, share := FillVolumes(family, base, start, buffer), Share(base, |Concat(contents)|, start, |buffer|);
            r.written <= share && (r.written == share ==> TrueWithin(Concat(contents), base, start, buffer, r.buffer))
  {
    if family != [] {
      FirstAndOthers(family, contents);
      var r, next := FillVolume(family[0], base, start, buffer), base + family[0].size;
      VolumeWithoutDoubles(family[0], contents[0], base, start, buffer);
      VolumesWithoutDoubles(family[1..], contents[1..], next, start, r.buffer);
      var first, others, rest := contents[0], Concat(contents[1..]), FillVolumes(family[1..], next, start, r.buffer);
      BothShares(first, others, base, start, buffer, r, rest);
      assert FillVolumes(family, base, start, buffer) == Filling(rest.buffer, r.written + rest.written, rest.ok);
    }
  }

  lemma FirstAndOthers(family: seq<Volume>, contents: seq<Bytes>)
    requires family != [] && Faithful(family, contents) && NoneDoubled(family)
    ensures Faithful(family[1..], contents[1..]) && NoneDoubled(family[1..])
    ensures |contents[0]| == family[0].size && FaithfulFile(family[0].refs, contents[0])
    ensures NoDouble(family[0].refs, 0, family[0].size)
    ensures Concat(contents) == contents[0] + Concat(contents[1..])
  {
  }

  lemma BothShares(first: Bytes, others: Bytes, base: nat, start: int, buffer: Bytes, r: Filling, rest: Filling)
    requires |r.buffer| == |buffer|
    requires r.written <= Share(base, |first|, start, |buffer|)
    requires r.written == Share(base, |first|, start, |buffer|) ==> TrueWithin(first, base, start, buffer, r.buffer)
    requires rest.written <= Share(base + |first|, |others|, start, |buffer|)
    requires rest.written == Share(base + |first|, |others|, start, |buffer|) ==>
               TrueWithin(others, base + |first|, start, r.buffer, rest.buffer)
    ensures var share := Share(base, |first + others|, start, |buffer|);
            && r.written + rest.written <= share
            && (r.written + rest.written == share ==> TrueWithin(first + others, base, start, buffer, rest.buffer))
  {
    SharesAdd(base, |first|, |others|, start, |buffer|);
    if r.written + rest.written == Share(base, |first + others|, start, |buffer|) {
      TrueWithinBoth(first, others, base, start, buffer, r.buffer, rest.buffer);
    }
  }

  lemma SharesAdd(base: nat, size: nat, total: nat, start: int, length: nat)
    ensures Share(base, size + total, start, length)
            == Share(base, size, start, length) + Share(base + size, total, start, length)
  {
  }

  lemma TrueWithinBoth(first: Bytes, others: Bytes, base: nat, start: int, before: Bytes, between: Bytes, after: Bytes)
    requires TrueWithin(first, base, start, before, between)
    requires TrueWithin(others, base + |first|, start, between, after)
    ensures TrueWithin(first + others, base, start, before, after)
  {
  }

  /** Articles in any order, as long as no position inside a volume is held twice: the count never exceeds the wanted
      length, and when it reaches it the buffer is that slice of the archive. */
  lemma CheckIsSoundWithoutDoubles(family: seq<Volume>, contents: seq<Bytes>, start: int, end: int)
    requires Faithful(family, contents) && NoneDoubled(family) && ReadRange(family, start, end).ok
    ensures var r := ReadRange(family, start, end);
            && r.written <= end - start
            && (r.written == end - start ==>
                  0 <= start && end <= |Concat(contents)| && r.buffer == Concat(contents)[start..end])
  {
    VolumesWithoutDoubles(family, contents, 0, start, Zeros(end - start));
  }
}
