/** Articles listed by offset: for which layouts of one file the count of a stretch can be trusted everywhere. */
module ArchiveLayouts {
  import opened Common
  import opened FileWriting
  import opened ArchiveRanges
  import opened ArchiveOverlaps

  // ---------------------------------------------------------------- articles by offset

  /** Every article was delivered, and neither starts nor ends go back. */
  predicate Monotone(refs: seq<Fetched>) {
    && (forall i :: 0 <= i < |refs| ==> refs[i].Article?)
    && forall i, j :: 0 <= i < j < |refs| ==>
         refs[i].offset <= refs[j].offset && refs[i].offset + |refs[i].body| <= refs[j].offset + |refs[j].body|
  }

  predicate Sound(refs: seq<Fetched>, lo: nat, hi: nat)
    requires lo <= hi
  {
    Passes(refs, lo, hi) ==> Complete(refs, lo, hi)
  }

  ghost predicate SoundEverywhere(refs: seq<Fetched>, size: nat) {
    forall lo: nat, hi: nat :: lo < hi <= size ==> Sound(refs, lo, hi)
  }

  lemma {:induction false} ForwardIsFilled(refs: seq<Fetched>, buffer: Bytes)
    requires forall i :: 0 <= i < |refs| ==> refs[i].Article?
    ensures FillForward(refs, buffer).ok
  {
    if refs != [] {
      ForwardIsFilled(refs[1..], if Overlap(refs[0], 0, |buffer|) == 0 then buffer else Overlay(buffer, 0, refs[0]));
    }
  }

  lemma {:induction false} BackwardIsFilled(refs: seq<Fetched>, at: int, buffer: Bytes)
    requires forall i :: 0 <= i < |refs| ==> refs[i].Article?
    ensures FillBackward(refs, at, buffer).ok
  {
    if refs != [] {
      BackwardIsFilled(refs[..|refs| - 1], at, Overlay(buffer, at, refs[|refs| - 1]));
    }
  }

  lemma ArticlesAreFilled(refs: seq<Fetched>, at: nat, buffer: Bytes)
    requires refs != [] && forall i :: 0 <= i < |refs| ==> refs[i].Article?
    ensures FillFile(refs, at, buffer).ok
  {
    ForwardIsFilled(refs, buffer);
    BackwardIsFilled(refs, at, buffer);
  }

  lemma NoneStartsBefore(refs: seq<Fetched>, p: int)
    requires Monotone(refs) && Held(refs, p)
    ensures refs[0].offset <= p
  {
    var a :| a in refs && Holds(a, p);
    var i: nat :| i < |refs| && refs[i] == a;
    assert i > 0 ==> refs[0].offset <= refs[i].offset;
  }

  lemma {:induction false} ForwardSeesHeld(refs: seq<Fetched>, size: nat, p: nat)
    requires Monotone(refs) && Held(refs, p) && p < size
    ensures Held(SeenForward(refs, size), p)
  {
    var a, part, seen := refs[0], refs[1..], SeenForward(refs, size);
    HeldByFirstOrRest(refs, p);
    HeldByFirstOrRest(seen, p);
    if Overlap(a, 0, size) > 0 && a.offset + |a.body| >= size {
      NoneStartsBefore(refs, p);
    } else if !Holds(a, p) {
      ForwardSeesHeld(part, size, p);
      assert seen[1..] == SeenForward(part, size);
    }
  }

  lemma {:induction false} BackwardSeesHeld(refs: seq<Fetched>, at: int, p: int)
    requires Monotone(refs) && Held(refs, p) && at <= p
    ensures Held(SeenBackward(refs, at), p)
  {
    var a, part, seen := refs[|refs| - 1], refs[..|refs| - 1], SeenBackward(refs, at);
    HeldByLastOrEarlier(refs, p);
    HeldByLastOrEarlier(seen, p);
    if !Holds(a, p) && a.offset > at {
      BackwardSeesHeld(part, at, p);
      assert seen[..|seen| - 1] == SeenBackward(part, at);
    }
  }

  lemma SeenHoldsAll(refs: seq<Fetched>, lo: nat, hi: nat)
    requires Monotone(refs) && lo <= hi && AllHeldBy(refs, lo, hi)
    ensures Complete(refs, lo, hi)
  {
    var seen := Seen(refs, lo, hi - lo);
    forall p | lo <= p < hi ensures Held(seen, p) {
      if lo == 0 {
        ForwardSeesHeld(refs, hi, p);
      } else {
        BackwardSeesHeld(refs, lo, p);
      }
    }
  }

  /** One position missing, another held twice: the count is reached. */
  lemma {:induction false} OneMissing(refs: seq<Fetched>, lo: int, hi: int, y: int)
    requires lo <= y < hi && Times(refs, y) == 0 && forall p :: lo <= p < hi && p != y ==> Times(refs, p) > 0
    ensures Missing(refs, lo, hi) == 1
    decreases hi - lo
  {
    if y < hi - 1 {
      OneMissing(refs, lo, hi - 1, y);
    } else {
      forall p | lo <= p < y ensures Held(refs, p) {
        HeldIsTimes(refs, p);
      }
      NoneMissing(refs, lo, y);
    }
  }

  lemma {:induction false} SomeSurplus(refs: seq<Fetched>, lo: int, hi: int, x: int)
    requires lo <= x < hi && Times(refs, x) > 1
    ensures Surplus(refs, lo, hi) > 0
    decreases hi - lo
  {
    if x < hi - 1 {
      SomeSurplus(refs, lo, hi - 1, x);
    }
  }

  lemma PassesWrongly(refs: seq<Fetched>, lo: nat, hi: nat, x: int, y: int)
    requires refs != [] && lo <= x < hi && lo <= y < hi && forall i :: 0 <= i < |refs| ==> refs[i].Article?
    requires var seen := Seen(refs, lo, hi - lo);
             Times(seen, x) > 1 && Times(seen, y) == 0 && forall p :: lo <= p < hi && p != y ==> Times(seen, p) > 0
    ensures !Sound(refs, lo, hi)
  {
    var seen := Seen(refs, lo, hi - lo);
    OneMissing(seen, lo, hi, y);
    SomeSurplus(seen, lo, hi, x);
    ArticlesAreFilled(refs, lo, Zeros(hi - lo));
    CheckFailsExactlyWhen(refs, lo, hi);
  }

  /** Above a missing position a backward fill that starts there sees every copy. */
  lemma {:induction false} BackwardSeesAllAbove(refs: seq<Fetched>, y: int, p: int)
    requires Monotone(refs) && !Held(refs, y) && y <= p
    ensures Times(SeenBackward(refs, y), p) == Times(refs, p)
  {
    if refs != [] {
      var a, part := refs[|refs| - 1], refs[..|refs| - 1];
      HeldByLastOrEarlier(refs, y);
      if a.offset <= y {
        NoneReachesOver(refs, y, p);
        HeldIsTimes(refs, p);
        TimesOfOne(a, p);
      } else {
        BackwardSeesAllAbove(part, y, p);
        TimesConcat(SeenBackward(part, y), [a], p);
        TimesConcat(part, [a], p);
        assert part + [a] == refs;
      }
    }
  }

  lemma NoneReachesOver(refs: seq<Fetched>, y: int, p: int)
    requires Monotone(refs) && refs != [] && refs[|refs| - 1].offset <= y <= p && !Held(refs, y)
    ensures !Held(refs, p)
  {
    forall a | a in refs ensures !Holds(a, p) {
      assert !Holds(a, y);
    }
  }

  /** Up to a missing position a forward fill sees every article. */
  lemma {:induction false} ForwardSeesAllBelow(refs: seq<Fetched>, y: nat)
    requires Monotone(refs) && !Held(refs, y)
    ensures SeenForward(refs, y + 1) == refs
  {
    if refs != [] {
      HeldByFirstOrRest(refs, y);
      ForwardSeesAllBelow(refs[1..], y);
    }
  }

  lemma {:induction false} LastMissingBelow(refs: seq<Fetched>, y: nat, x: nat) returns (last: nat)
    requires y < x && !Held(refs, y)
    ensures y <= last < x && !Held(refs, last) && AllHeldBy(refs, last + 1, x)
    decreases x
  {
    if !Held(refs, x - 1) {
      last := x - 1;
    } else {
      last := LastMissingBelow(refs, y, x - 1);
    }
  }

  lemma {:induction false} FirstMissing(refs: seq<Fetched>, y: nat) returns (first: nat)
    requires !Held(refs, y)
    ensures first <= y && !Held(refs, first) && AllHeldBy(refs, 0, first)
  {
    if AllHeldBy(refs, 0, y) {
      first := y;
    } else {
      var z: nat :| z < y && !Held(refs, z);
      first := FirstMissing(refs, z);
    }
  }

  lemma UnsoundAbove(refs: seq<Fetched>, size: nat, y: nat, x: nat)
    requires Monotone(refs) && 0 < y < x < size && !Held(refs, y) && Times(refs, x) > 1
    ensures !SoundEverywhere(refs, size)
  {
    var last := LastMissingBelow(refs, y, x);
    forall p | last <= p ensures Times(SeenBackward(refs, last), p) == Times(refs, p) {
      BackwardSeesAllAbove(refs, last, p);
      HeldIsTimes(refs, p);
    }
    forall p | last < p <= x ensures Times(refs, p) > 0 {
      HeldIsTimes(refs, p);
    }
    HeldIsTimes(refs, last);
    PassesWrongly(refs, last, x + 1, x, last);
    assert last < x + 1 <= size;
  }

  lemma UnsoundBelow(refs: seq<Fetched>, size: nat, x: nat)
    requires Monotone(refs) && Held(refs, 0) && x < size && Times(refs, x) > 1
    requires forall y :: 0 < y < x ==> Held(refs, y)
    requires !AllHeldBy(refs, 0, size)
    ensures !SoundEverywhere(refs, size)
  {
    var z: nat :| z < size && !Held(refs, z);
    var y := FirstMissing(refs, z);
    HeldIsTimes(refs, x);
    assert x < y;
    UnsoundUpTo(refs, y, x);
    assert 0 < y + 1 <= size;
  }

  lemma UnsoundUpTo(refs: seq<Fetched>, y: nat, x: nat)
    requires Monotone(refs) && refs != [] && x < y && Times(refs, x) > 1 && !Held(refs, y) && AllHeldBy(refs, 0, y)
    ensures !Sound(refs, 0, y + 1)
  {
    ForwardSeesAllBelow(refs, y);
    assert Seen(refs, 0, y + 1) == refs;
    forall p | 0 <= p < y ensures Times(refs, p) > 0 {
      HeldIsTimes(refs, p);
    }
    HeldIsTimes(refs, y);
    PassesWrongly(refs, 0, y + 1, x, y);
  }

  // ---------------------------------------------------------------- a file without its first byte

  function End(a: Fetched): int
    requires a.Article?
  {
    a.offset + |a.body|
  }

  /** Of two articles that share a position of the file, both reach its end. */
  ghost predicate DoublesReachEnd(refs: seq<Fetched>, size: nat) {
    forall i, j, p :: 0 <= i < j < |refs| && 0 <= p < size && Holds(refs[i], p) && Holds(refs[j], p) ==>
      End(refs[i]) >= size
  }

  /** The byte after the first is all that is held twice, and the one after it is missing. */
  predicate OneByteTwice(refs: seq<Fetched>, size: nat) {
    2 < size && Times(refs, 1) == 2 && !Held(refs, 2) && NoDouble(refs, 2, size)
  }

  lemma {:induction false} TimesOfTail(refs: seq<Fetched>, p: int)
    requires refs != []
    ensures Times(refs, p) == Times(refs[..|refs| - 1], p) + if Holds(refs[|refs| - 1], p) then 1 else 0
  {
    TimesConcat(refs[..|refs| - 1], [refs[|refs| - 1]], p);
    assert refs[..|refs| - 1] + [refs[|refs| - 1]] == refs;
  }

  /** A forward fill stops at the first article that reaches its end. */
  lemma {:induction false} ForwardSeesNoDouble(refs: seq<Fetched>, size: nat, hi: nat, p: nat)
    requires Monotone(refs) && DoublesReachEnd(refs, size) && p < hi <= size
    ensures Times(SeenForward(refs, hi), p) <= 1
  {
    if refs != [] {
      var a, part := refs[0], refs[1..];
      TimesOfOne(a, p);
      if !(Overlap(a, 0, hi) > 0 && End(a) >= hi) {
        TimesConcat([a], SeenForward(part, hi), p);
        if Holds(a, p) {
          forall b | b in part ensures !Holds(b, p) {
            var j: nat :| j < |part| && part[j] == b;
            assert refs[j + 1] == b;
          }
          HeldIsTimes(part, p);
          ForwardTimesAtMost(part, hi, p);
        } else {
          assert forall i, j, q :: 0 <= i < j < |part| && 0 <= q < size && Holds(part[i], q) && Holds(part[j], q) ==>
            Holds(refs[i + 1], q) && Holds(refs[j + 1], q) && End(refs[i + 1]) >= size;
          ForwardSeesNoDouble(part, size, hi, p);
        }
      }
    }
  }

  /** The last position of a forward fill, and the first of a backward one, are seen once at most. */
  lemma {:induction false} LastSeenOnce(refs: seq<Fetched>, hi: nat)
    requires Monotone(refs) && hi > 0
    ensures Times(SeenForward(refs, hi), hi - 1) <= 1
  {
    if refs != [] {
      TimesOfOne(refs[0], hi - 1);
      TimesConcat([refs[0]], SeenForward(refs[1..], hi), hi - 1);
      LastSeenOnce(refs[1..], hi);
    }
  }

  lemma {:induction false} FirstSeenOnce(refs: seq<Fetched>, at: int)
    requires Monotone(refs)
    ensures Times(SeenBackward(refs, at), at) <= 1
  {
    if refs != [] {
      var a, part := refs[|refs| - 1], refs[..|refs| - 1];
      TimesOfOne(a, at);
      TimesConcat(SeenBackward(part, at), [a], at);
      FirstSeenOnce(part, at);
    }
  }

  lemma SoundWithoutSurplus(refs: seq<Fetched>, lo: nat, hi: nat)
    requires lo <= hi && NoDouble(Seen(refs, lo, hi - lo), lo, hi)
    ensures Sound(refs, lo, hi)
  {
    NoSurplus(Seen(refs, lo, hi - lo), lo, hi);
    if FillFile(refs, lo, Zeros(hi - lo)).ok {
      CheckFailsExactlyWhen(refs, lo, hi);
    }
  }

  lemma SoundWhenDoublesReachEnd(refs: seq<Fetched>, size: nat, lo: nat, hi: nat)
    requires Monotone(refs) && AllHeldBy(refs, 1, size) && DoublesReachEnd(refs, size) && lo < hi <= size
    ensures Sound(refs, lo, hi)
  {
    if lo == 0 {
      forall p | 0 <= p < hi ensures Times(SeenForward(refs, hi), p) <= 1 {
        ForwardSeesNoDouble(refs, size, hi, p);
      }
      SoundWithoutSurplus(refs, lo, hi);
    } else {
      SeenHoldsAll(refs, lo, hi);
    }
  }

  lemma {:induction false} SurplusAtMost(refs: seq<Fetched>, lo: int, hi: int, x: int)
    requires lo <= x < hi && Times(refs, x) <= 2 && forall p :: lo <= p < hi && p != x ==> Times(refs, p) <= 1
    ensures Surplus(refs, lo, hi) <= 1
    decreases hi - lo
  {
    if x < hi - 1 {
      SurplusAtMost(refs, lo, hi - 1, x);
    } else {
      NoSurplus(refs, lo, hi - 1);
    }
  }

  lemma {:induction false} TwoMissing(refs: seq<Fetched>, lo: int, hi: int, y: int, z: int)
    requires lo <= y < z < hi && Times(refs, y) == 0 && Times(refs, z) == 0
    ensures Missing(refs, lo, hi) >= 2
    ensures (forall p :: lo <= p < hi && p != y && p != z ==> Times(refs, p) > 0) ==> Missing(refs, lo, hi) == 2
    decreases hi - lo
  {
    if z < hi - 1 {
      TwoMissing(refs, lo, hi - 1, y, z);
    } else {
      MissingAtLeast(refs, lo, z, y);
      if forall p :: lo <= p < hi && p != y && p != z ==> Times(refs, p) > 0 {
        OneMissing(refs, lo, z, y);
      }
    }
  }

  lemma {:induction false} MissingAtLeast(refs: seq<Fetched>, lo: int, hi: int, y: int)
    requires lo <= y < hi && Times(refs, y) == 0
    ensures Missing(refs, lo, hi) >= 1
    decreases hi - lo
  {
    if y < hi - 1 {
      MissingAtLeast(refs, lo, hi - 1, y);
    }
  }

  lemma SoundWhenOneByteTwice(refs: seq<Fetched>, size: nat, lo: nat, hi: nat)
    requires Monotone(refs) && !Held(refs, 0) && OneByteTwice(refs, size) && lo < hi <= size
    ensures Sound(refs, lo, hi)
  {
    var seen := Seen(refs, lo, hi - lo);
    HeldIsTimes(refs, 0);
    HeldIsTimes(refs, 2);
    forall p | lo <= p < hi ensures Times(seen, p) <= Times(refs, p) {
      SeenTimesAtMost(refs, lo, hi - lo, p);
    }
    if lo == 0 && hi >= 3 {
      TwoMissing(seen, 0, hi, 0, 2);
      SurplusAtMost(seen, 0, hi, 1);
      if FillFile(refs, lo, Zeros(hi - lo)).ok {
        CheckFailsExactlyWhen(refs, lo, hi);
      }
    } else {
      LastSeenOnce(refs, 2);
      FirstSeenOnce(refs, 1);
      SoundWithoutSurplus(refs, lo, hi);
    }
  }

  /** Where an article and a later one share a position, a forward fill that goes beyond the first sees its last
      position twice. */
  lemma {:induction false} ForwardSeesDouble(refs: seq<Fetched>, i: nat, j: nat, p: nat, hi: nat)
    requires Monotone(refs) && i < j < |refs| && Holds(refs[i], p) && Holds(refs[j], p) && End(refs[i]) < hi
    ensures End(refs[i]) > p && Times(SeenForward(refs, hi), End(refs[i]) - 1) > 1
  {
    var a, part := refs[0], refs[1..];
    var last: nat := End(refs[i]) - 1;
    assert End(a) < hi;
    TimesConcat([a], SeenForward(part, hi), last);
    TimesOfOne(a, last);
    assert part[j - 1] == refs[j];
    if i == 0 {
      assert Holds(refs[j], last) && refs[j] in part;
      ForwardSeesHeld(part, hi, last);
      HeldIsTimes(SeenForward(part, hi), last);
    } else {
      assert part[i - 1] == refs[i];
      ForwardSeesDouble(part, i - 1, j - 1, p, hi);
    }
  }

  /** Only the first byte is missing up to just beyond the shorter of two articles that share a position. */
  lemma UnsoundBeyond(refs: seq<Fetched>, size: nat, i: nat, j: nat, p: nat)
    requires Monotone(refs) && !Held(refs, 0) && i < j < |refs| && Holds(refs[i], p) && Holds(refs[j], p)
    requires End(refs[i]) < size && AllHeldBy(refs, 1, End(refs[i]) + 1)
    ensures !SoundEverywhere(refs, size)
  {
    var hi: nat := End(refs[i]) + 1;
    ForwardSeesDouble(refs, i, j, p, hi);
    var seen := SeenForward(refs, hi);
    assert seen == Seen(refs, 0, hi - 0);
    HeldIsTimes(refs, 0);
    ForwardTimesAtMost(refs, hi, 0);
    forall q | 0 <= q < hi && q != 0 ensures Times(seen, q) > 0 {
      ForwardSeesHeld(refs, hi, q);
      HeldIsTimes(seen, q);
    }
    PassesWrongly(refs, 0, hi, hi - 2, 0);
    assert 0 < hi <= size;
  }

  lemma {:induction false} SurplusIsAtLeast(refs: seq<Fetched>, lo: int, hi: int, x: int)
    requires lo <= x < hi && Times(refs, x) > 1
    ensures Surplus(refs, lo, hi) >= Times(refs, x) - 1
    ensures (exists y :: lo <= y < hi && y != x && Times(refs, y) > 1) ==> Surplus(refs, lo, hi) >= 2
    decreases hi - lo
  {
    if x < hi - 1 {
      SurplusIsAtLeast(refs, lo, hi - 1, x);
    } else if y :| lo <= y < hi && y != x && Times(refs, y) > 1 {
      SurplusIsAtLeast(refs, lo, hi - 1, y);
    }
  }

  /** What a backward fill from 1 does not see of a position lies on articles that start there. */
  lemma {:induction false} BackwardSkips(refs: seq<Fetched>, x: nat) returns (i: nat, j: nat)
    requires Monotone(refs) && !Held(refs, 0) && x >= 1 && Times(SeenBackward(refs, 1), x) < Times(refs, x)
    ensures i < j < |refs| && refs[i].offset == refs[j].offset == 1 && Holds(refs[i], x) && Holds(refs[j], x)
  {
    var last := |refs| - 1;
    var a, part := refs[last], refs[..last];
    TimesOfTail(refs, x);
    TimesOfOne(a, x);
    HeldByLastOrEarlier(refs, 0);
    if a.offset > 1 {
      TimesConcat(SeenBackward(part, 1), [a], x);
      i, j := BackwardSkips(part, x);
    } else {
      HeldIsTimes(part, x);
      var b :| b in part && Holds(b, x);
      i :| i < |part| && part[i] == b;
      assert !Holds(refs[i], 0) by {
        assert refs[i] in refs;
      }
      j := last;
    }
  }

  /** Up to the first byte missing after a double, only the first byte is missing. */
  lemma UnsoundUpToGap(refs: seq<Fetched>, size: nat, x: nat, e: nat)
    requires Monotone(refs) && !Held(refs, 0) && 1 <= x < e < size && Times(refs, x) > 1
    requires !Held(refs, e) && AllHeldBy(refs, 1, e)
    requires Surplus(refs, 0, e + 1) >= 2 || Times(SeenBackward(refs, 1), x) > 1
    ensures !SoundEverywhere(refs, size)
  {
    HeldIsTimes(refs, 0);
    HeldIsTimes(refs, e);
    if Times(SeenBackward(refs, 1), x) > 1 {
      var seen := Seen(refs, 1, e + 1 - 1);
      BackwardTimesAtMost(refs, 1, e);
      forall p | 1 <= p < e ensures Times(seen, p) > 0 {
        BackwardSeesHeld(refs, 1, p);
        HeldIsTimes(seen, p);
      }
      PassesWrongly(refs, 1, e + 1, x, e);
      assert 1 < e + 1 <= size;
    } else {
      ForwardSeesAllBelow(refs, e);
      assert Seen(refs, 0, e + 1 - 0) == refs;
      forall p | 1 <= p < e ensures Times(refs, p) > 0 {
        HeldIsTimes(refs, p);
      }
      TwoMissing(refs, 0, e + 1, 0, e);
      ArticlesAreFilled(refs, 0, Zeros(e + 1));
      CheckFailsExactlyWhen(refs, 0, e + 1);
      assert 0 < e + 1 <= size && !Sound(refs, 0, e + 1);
    }
  }

  /** A double, the first byte missing and another one after the double. */
  lemma UnsoundWithGap(refs: seq<Fetched>, size: nat, x: nat, e: nat)
    requires Monotone(refs) && !Held(refs, 0) && 1 <= x < e < size && Times(refs, x) > 1
    requires !Held(refs, e) && AllHeldBy(refs, 1, e) && NoDouble(refs, e, size) && !OneByteTwice(refs, size)
    ensures !SoundEverywhere(refs, size)
  {
    SurplusIsAtLeast(refs, 0, e + 1, x);
    if Surplus(refs, 0, e + 1) >= 2 || Times(SeenBackward(refs, 1), x) > 1 {
      UnsoundUpToGap(refs, size, x, e);
    } else {
      var i, j := BackwardSkips(refs, x);
      TwiceHeld(refs, i, j, 1);
      assert x == 1;
      if End(refs[i]) > 2 {
        TwiceHeld(refs, i, j, 2);
        StaysBelow(refs, j, e);
      } else {
        assert e > 2;
        UnsoundBeyond(refs, size, i, j, 1);
      }
    }
  }

  lemma TwiceHeld(refs: seq<Fetched>, i: nat, j: nat, p: int)
    requires i < j < |refs| && Holds(refs[i], p) && Holds(refs[j], p)
    ensures Times(refs, p) > 1
  {
    TimesConcat(refs[..j], refs[j..], p);
    assert refs[..j] + refs[j..] == refs;
    HeldIsTimes(refs[..j], p);
    HeldIsTimes(refs[j..], p);
    assert refs[..j][i] == refs[i] && refs[j..][0] == refs[j];
    assert refs[i] in refs[..j] && refs[j] in refs[j..];
  }

  /** An article that starts below a missing position ends there at the latest. */
  lemma StaysBelow(refs: seq<Fetched>, j: nat, e: int)
    requires Monotone(refs) && j < |refs| && refs[j].offset <= e && !Held(refs, e)
    ensures End(refs[j]) <= e
  {
    assert refs[j] in refs && !Holds(refs[j], e);
  }

  // ---------------------------------------------------------------- which layouts are sound

  /** For articles by offset, the count can be trusted on every stretch of the file exactly when nothing in it is held
      twice, or nothing is missing, or, its first byte missing, nothing else is and doubled articles all reach its end,
      or a single doubled byte follows the missing one and precedes another. */
  lemma SoundExactlyWhen(refs: seq<Fetched>, size: nat)
    requires Monotone(refs)
    ensures SoundEverywhere(refs, size)
            <==> || NoDouble(refs, 0, size)
                 || AllHeldBy(refs, 0, size)
                 || (!Held(refs, 0)
                     && ((AllHeldBy(refs, 1, size) && DoublesReachEnd(refs, size)) || OneByteTwice(refs, size)))
  {
    if NoDouble(refs, 0, size) || AllHeldBy(refs, 0, size) {
      forall lo: nat, hi: nat | lo < hi <= size ensures Sound(refs, lo, hi) {
        if AllHeldBy(refs, 0, size) {
          SeenHoldsAll(refs, lo, hi);
        } else if FillFile(refs, lo, Zeros(hi - lo)).ok {
          SoundWithoutDoubles(refs, lo, hi);
        }
      }
    } else {
      var x: nat :| x < size && Times(refs, x) > 1;
      if Held(refs, 0) {
        UnsoundWithFirstByte(refs, size, x);
      } else {
        WithoutFirstByte(refs, size, x);
      }
    }
  }

  /** With the first byte held, a double and a missing byte are enough. */
  lemma UnsoundWithFirstByte(refs: seq<Fetched>, size: nat, x: nat)
    requires Monotone(refs) && Held(refs, 0) && x < size && Times(refs, x) > 1 && !AllHeldBy(refs, 0, size)
    ensures !SoundEverywhere(refs, size)
  {
    if y: nat :| 0 < y < x && !Held(refs, y) {
      UnsoundAbove(refs, size, y, x);
    } else {
      UnsoundBelow(refs, size, x);
    }
  }

  lemma WithoutFirstByte(refs: seq<Fetched>, size: nat, x: nat)
    requires Monotone(refs) && !Held(refs, 0) && x < size && Times(refs, x) > 1
    ensures SoundEverywhere(refs, size)
            <==> (AllHeldBy(refs, 1, size) && DoublesReachEnd(refs, size)) || OneByteTwice(refs, size)
  {
    HeldIsTimes(refs, 0);
    if AllHeldBy(refs, 1, size) && DoublesReachEnd(refs, size) {
      forall lo: nat, hi: nat | lo < hi <= size ensures Sound(refs, lo, hi) {
        SoundWhenDoublesReachEnd(refs, size, lo, hi);
      }
    } else if OneByteTwice(refs, size) {
      forall lo: nat, hi: nat | lo < hi <= size ensures Sound(refs, lo, hi) {
        SoundWhenOneByteTwice(refs, size, lo, hi);
      }
    } else if AllHeldBy(refs, 1, size) {
      var i, j, p :| 0 <= i < j < |refs| && 0 <= p < size && Holds(refs[i], p) && Holds(refs[j], p)
                     && End(refs[i]) < size;
      UnsoundBeyond(refs, size, i, j, p);
    } else {
      UnsoundBesidesFirstByte(refs, size, x);
    }
  }

  lemma UnsoundBesidesFirstByte(refs: seq<Fetched>, size: nat, x: nat)
    requires Monotone(refs) && !Held(refs, 0) && 1 <= x < size && Times(refs, x) > 1
    requires !AllHeldBy(refs, 1, size) && !OneByteTwice(refs, size)
    ensures !SoundEverywhere(refs, size)
  {
    var z: nat :| 1 <= z < size && !Held(refs, z);
    var e := FirstMissingFrom(refs, z);
    HeldIsTimes(refs, e);
    if e < x {
      UnsoundAbove(refs, size, e, x);
    } else if NoDouble(refs, e, size) {
      UnsoundWithGap(refs, size, x, e);
    } else {
      var d: nat :| e <= d < size && Times(refs, d) > 1;
      UnsoundAbove(refs, size, e, d);
    }
  }

  lemma {:induction false} FirstMissingFrom(refs: seq<Fetched>, z: nat) returns (first: nat)
    requires 1 <= z && !Held(refs, z)
    ensures 1 <= first <= z && !Held(refs, first) && AllHeldBy(refs, 1, first)
  {
    if AllHeldBy(refs, 1, z) {
      first := z;
    } else {
      var y: nat :| 1 <= y < z && !Held(refs, y);
      first := FirstMissingFrom(refs, y);
    }
  }

  // ---------------------------------------------------------------- two layouts

  /** The first byte matters: two copies that reach the end of the file and miss its first byte are never both
      counted, although a byte is held twice and the first one is missing. */
  lemma FirstByteMatters(x: byte)
    ensures var refs := [Article(1, [x, x]), Article(1, [x, x])];
            Monotone(refs) && !Held(refs, 0) && Times(refs, 1) == 2 && SoundEverywhere(refs, 3)
  {
    var a := Article(1, [x, x]);
    var refs := [a, a];
    assert refs[1..] == [a];
    TimesOfOne(a, 1);
    forall lo: nat, hi: nat | lo < hi <= 3 ensures Sound(refs, lo, hi) {
      if lo == 0 {
        CopiesSeenOnce(a, hi);
      } else {
        assert forall p :: 1 <= p < 3 ==> Holds(a, p) && a in refs;
        SeenHoldsAll(refs, lo, hi);
      }
    }
  }

  lemma CopiesSeenOnce(a: Fetched, hi: nat)
    requires a.Article? && a.offset == 1 && |a.body| == 2 && 0 < hi <= 3
    ensures !Passes([a, a], 0, hi)
  {
    var buffer := Zeros(hi);
    assert [a, a][1..] == [a] && [a][1..] == [];
    if hi == 1 {
      assert FillForward([a], buffer).written == 0;
    } else {
      assert FillForward([a, a], buffer).written == hi - 1;
    }
  }

  /** Listing by offset alone is not enough: after an article that reaches beyond the later ones, a part delivered twice
      stands in for a position that the fill never comes to. */
  lemma EndsMatter(x: byte)
    ensures var refs := [Article(0, [x, x, x, x]), Article(1, [x]), Article(2, [x]), Article(2, [x])];
            && AllHeldBy(refs, 0, 4) && Passes(refs, 1, 4) && !Held(Seen(refs, 1, 3), 3)
  {
    var long, one, two := Article(0, [x, x, x, x]), Article(1, [x]), Article(2, [x]);
    var refs := [long, one, two, two];
    forall p | 0 <= p < 4 ensures Held(refs, p) {
      assert long in refs && Holds(long, p);
    }
    EndsSeen(long, one, two);
    BackwardIsFilled(refs, 1, Zeros(3));
    BackwardCountsCopies(refs, 1, Zeros(3));
    CopiesConcat([one], [two, two], 1, 4);
    CopiesConcat([two], [two], 1, 4);
    CopiesOfOne(one, 1, 4);
    CopiesOfOne(two, 1, 4);
    assert [one] + [two, two] == [one, two, two] && [two] + [two] == [two, two];
  }

  lemma EndsSeen(long: Fetched, one: Fetched, two: Fetched)
    requires long.Article? && one.Article? && two.Article? && one.offset == 1 && two.offset == 2
    ensures SeenBackward([long, one, two, two], 1) == [one, two, two]
  {
    assert [long, one, two, two][..3] == [long, one, two] && [long, one, two][..2] == [long, one];
    assert SeenBackward([long, one], 1) == [one];
    assert SeenBackward([long, one, two], 1) == [one, two];
  }
}
