/** Byte ranges of a virtual concatenation of archive volumes: filled from articles, and written back to volumes. */
module ArchiveRanges {
  import opened Common
  import opened FileWriting

  // ---------------------------------------------------------------- articles over positions of one file

  /** What fetching one article gave: decoded bytes at an offset of the file, or an error (or a cancelled context). */
  datatype Fetched = Article(offset: int, body: Bytes) | Unavailable

  predicate Holds(a: Fetched, p: int) {
    a.Article? && a.offset <= p < a.offset + |a.body|
  }

  /** How many positions of `[lo, hi)` the article holds. */
  function Overlap(a: Fetched, lo: int, hi: int): nat
    requires a.Article?
  {
    Max(0, Min(hi, a.offset + |a.body|) - Max(lo, a.offset))
  }

  /** `buffer`, which stands for the positions from `at` on, with the article's bytes put in their places. */
  function Overlay(buffer: Bytes, at: int, a: Fetched): (r: Bytes)
    ensures |r| == |buffer|
    ensures forall i :: 0 <= i < |buffer| ==>
              r[i] == if Holds(a, at + i) then a.body[at + i - a.offset] else buffer[i]
  {
    seq(|buffer|, i requires 0 <= i < |buffer| =>
      if Holds(a, at + i) then a.body[at + i - a.offset] else buffer[i])
  }

  lemma OverlayOfNothing(buffer: Bytes, at: int, a: Fetched)
    requires a.Article? && Overlap(a, at, at + |buffer|) == 0
    ensures Overlay(buffer, at, a) == buffer
  {
    forall i | 0 <= i < |buffer| ensures Overlay(buffer, at, a)[i] == buffer[i] {
      NotHeldWithoutOverlap(a, at, at + |buffer|, at + i);
    }
  }

  lemma NotHeldWithoutOverlap(a: Fetched, lo: int, hi: int, p: int)
    requires a.Article? && Overlap(a, lo, hi) == 0 && lo <= p < hi
    ensures !Holds(a, p)
  {
  }

  predicate Held(refs: seq<Fetched>, p: int) {
    exists a :: a in refs && Holds(a, p)
  }

  /** The byte the first article holding `p` has there. */
  function ByteAt(refs: seq<Fetched>, p: int): byte
    requires Held(refs, p)
  {
    if Holds(refs[0], p) then refs[0].body[p - refs[0].offset] else ByteAt(refs[1..], p)
  }

  /** Articles come in file order and do not share a position; gaps are allowed. */
  predicate InOrder(refs: seq<Fetched>) {
    forall i, j :: 0 <= i < j < |refs| && refs[i].Article? && refs[j].Article? ==>
      refs[i].offset + |refs[i].body| <= refs[j].offset
  }

  // ---------------------------------------------------------------- filling one file's range

  /** The buffer afterwards, the bytes counted, and whether no fetch failed on the way. */
  datatype Filling = Filling(buffer: Bytes, written: nat, ok: bool)

  /** Front to back, stopping after the article that reaches the end of the range. */
  function FillForward(refs: seq<Fetched>, buffer: Bytes): (r: Filling)
    ensures |r.buffer| == |buffer|
  {
    if refs == [] then Filling(buffer, 0, true)
    else if refs[0].Unavailable? then Filling(buffer, 0, false)
    else
      var n := Overlap(refs[0], 0, |buffer|);
      if n == 0 then FillForward(refs[1..], buffer)
      else if refs[0].offset + |refs[0].body| >= |buffer| then Filling(Overlay(buffer, 0, refs[0]), n, true)
      else
        var rest := FillForward(refs[1..], Overlay(buffer, 0, refs[0]));
        Filling(rest.buffer, n + rest.written, rest.ok)
  }

  /** Back to front, stopping at the article that starts at or before the range. */
  function FillBackward(refs: seq<Fetched>, at: int, buffer: Bytes): (r: Filling)
    ensures |r.buffer| == |buffer|
  {
    if refs == [] then Filling(buffer, 0, true)
    else
      var a := refs[|refs| - 1];
      if a.Unavailable? then Filling(buffer, 0, false)
      else
        var n := Overlap(a, at, at + |buffer|);
        if a.offset <= at then Filling(Overlay(buffer, at, a), n, true)
        else
          var rest := FillBackward(refs[..|refs| - 1], at, Overlay(buffer, at, a));
          Filling(rest.buffer, n + rest.written, rest.ok)
  }

  function FillFile(refs: seq<Fetched>, at: int, buffer: Bytes): (r: Filling)
    ensures |r.buffer| == |buffer|
  {
    if refs == [] then Filling(buffer, 0, false)
    else if at <= 0 then FillForward(refs, buffer)
    else FillBackward(refs, at, buffer)
  }

  // ---------------------------------------------------------------- a stretch of the buffer

  function Splice(buffer: Bytes, from: nat, to: nat, part: Bytes): (r: Bytes)
    requires from <= to <= |buffer| && |part| == to - from
    ensures |r| == |buffer|
  {
    buffer[..from] + part + buffer[to..]
  }

  function Window(buffer: Bytes, from: nat, to: nat): (r: Bytes)
    requires from <= to <= |buffer|
    ensures |r| == to - from
  {
    seq(to - from, i requires 0 <= i < to - from => buffer[from + i])
  }

  lemma WindowIsSlice(buffer: Bytes, from: nat, to: nat)
    requires from <= to <= |buffer|
    ensures Window(buffer, from, to) == buffer[from..to]
  {
  }

  lemma SpliceOfSlices(was: Bytes, now: Bytes, from: nat, to: nat)
    requires from <= to <= |was| == |now|
    requires now[..from] == was[..from] && now[to..] == was[to..]
    ensures now == Splice(was, from, to, Window(now, from, to))
  {
    WindowIsSlice(now, from, to);
  }

  // ---------------------------------------------------------------- the loops

  /** Copy the part of the article inside `[lo, hi)` into its place in `target[from..to]`. */
  method CopyOverlap(a: Fetched, lo: int, hi: int, target: array<byte>, from: nat, to: nat) returns (n: nat)
    requires a.Article? && Overlap(a, lo, hi) > 0
    requires from <= to <= target.Length && hi - lo == to - from
    modifies target
    ensures n == Overlap(a, lo, hi)
    ensures target[from..to] == Overlay(old(target[from..to]), lo, a)
    ensures target[..from] == old(target[..from]) && target[to..] == old(target[to..])
  {
    var overlapStart := Max(lo, a.offset);
    var overlapEnd := Min(hi, a.offset + |a.body|);
    var srcStart := overlapStart - a.offset;
    var dstStart := overlapStart - lo;
    var dstEnd := overlapEnd - lo;
    forall k | dstStart <= k < dstEnd {
      target[from + k] := a.body[srcStart + (k - dstStart)];
    }
    n := overlapEnd - overlapStart;
  }

  method MaterializeFileRangeFromStart(refs: seq<Fetched>, rangeEnd: int, target: array<byte>, from: nat, to: nat)
    returns (written: nat, ok: bool)
    requires from <= to <= target.Length && rangeEnd == to - from
    modifies target
    ensures Filling(target[from..to], written, ok) == FillForward(refs, old(target[from..to]))
    ensures target[..from] == old(target[..from]) && target[to..] == old(target[to..])
  {
    written, ok := 0, true;
    ghost var whole := FillForward(refs, target[from..to]);
    var i := 0;
    while i < |refs|
      invariant i <= |refs| && ok
      invariant var rest := FillForward(refs[i..], target[from..to]);
                whole == Filling(rest.buffer, written + rest.written, rest.ok)
      invariant target[..from] == old(target[..from]) && target[to..] == old(target[to..])
    {
      assert refs[i..][1..] == refs[i + 1..];
      if refs[i].Unavailable? {
        ok := false;
        return;
      }
      if Overlap(refs[i], 0, rangeEnd) > 0 {
        var n := CopyOverlap(refs[i], 0, rangeEnd, target, from, to);
        written := written + n;
        if refs[i].offset + |refs[i].body| >= rangeEnd {
          break;
        }
      }
      i := i + 1;
    }
  }

  method MaterializeFileRangeFromEnd(refs: seq<Fetched>, rangeStart: int, rangeEnd: int,
                                     target: array<byte>, from: nat, to: nat)
    returns (written: nat, ok: bool)
    requires from <= to <= target.Length && rangeEnd - rangeStart == to - from
    modifies target
    ensures Filling(target[from..to], written, ok) == FillBackward(refs, rangeStart, old(target[from..to]))
    ensures target[..from] == old(target[..from]) && target[to..] == old(target[to..])
  {
    written, ok := 0, true;
    ghost var whole := FillBackward(refs, rangeStart, target[from..to]);
    var i := |refs|;
    assert refs[..i] == refs;
    while i > 0
      invariant 0 <= i <= |refs| && ok
      invariant var rest := FillBackward(refs[..i], rangeStart, target[from..to]);
                whole == Filling(rest.buffer, written + rest.written, rest.ok)
      invariant target[..from] == old(target[..from]) && target[to..] == old(target[to..])
    {
      assert refs[..i][..i - 1] == refs[..i - 1];
      i := i - 1;
      if refs[i].Unavailable? {
        ok := false;
        return;
      }
      if Overlap(refs[i], rangeStart, rangeEnd) == 0 {
        OverlayOfNothing(target[from..to], rangeStart, refs[i]);
      } else {
        var n := CopyOverlap(refs[i], rangeStart, rangeEnd, target, from, to);
        written := written + n;
      }
      if refs[i].offset <= rangeStart {
        break;
      }
    }
  }

  method MaterializeFileRange(refs: seq<Fetched>, rangeStart: int, rangeEnd: int,
                              target: array<byte>, from: nat, to: nat)
    returns (written: nat, ok: bool)
    requires 0 <= rangeStart && from <= to <= target.Length && rangeEnd - rangeStart == to - from
    modifies target
    ensures var was, now := old(target[..]), target[..];
            && Filling(Window(now, from, to), written, ok) == FillFile(refs, rangeStart, Window(was, from, to))
            && now == Splice(was, from, to, Window(now, from, to))
  {
    ghost var was := target[..];
    WindowIsSlice(was, from, to);
    written, ok := ChooseDirection(refs, rangeStart, rangeEnd, target, from, to);
    WindowIsSlice(target[..], from, to);
    SpliceOfSlices(was, target[..], from, to);
  }

  method ChooseDirection(refs: seq<Fetched>, rangeStart: int, rangeEnd: int, target: array<byte>, from: nat, to: nat)
    returns (written: nat, ok: bool)
    requires 0 <= rangeStart && from <= to <= target.Length && rangeEnd - rangeStart == to - from
    modifies target
    ensures Filling(target[..][from..to], written, ok) == FillFile(refs, rangeStart, old(target[..])[from..to])
    ensures target[..][..from] == old(target[..])[..from] && target[..][to..] == old(target[..])[to..]
  {
    SlicesOfAll(target, from, to);
    if |refs| == 0 {
      return 0, false;
    }
    if rangeStart <= 0 && rangeEnd <= to - from {
      written, ok := MaterializeFileRangeFromStart(refs, rangeEnd, target, from, to);
    } else {
      written, ok := MaterializeFileRangeFromEnd(refs, rangeStart, rangeEnd, target, from, to);
    }
    SlicesOfAll(target, from, to);
  }

  lemma SlicesOfAll(target: array<byte>, from: nat, to: nat)
    requires from <= to <= target.Length
    ensures target[..][from..to] == target[from..to]
    ensures target[..][..from] == target[..from] && target[..][to..] == target[to..]
  {
  }

  // ---------------------------------------------------------------- counting positions

  function Count(lo: int, hi: int, p: int -> bool): nat
    decreases hi - lo
  {
    if hi <= lo then 0 else Count(lo, hi - 1, p) + if p(hi - 1) then 1 else 0
  }

  lemma {:induction false} CountAll(lo: int, hi: int, p: int -> bool)
    requires lo <= hi && forall k :: lo <= k < hi ==> p(k)
    ensures Count(lo, hi, p) == hi - lo
    decreases hi - lo
  {
    if lo < hi {
      CountAll(lo, hi - 1, p);
    }
  }

  lemma {:induction false} CountAtMost(lo: int, hi: int, p: int -> bool)
    requires lo <= hi
    ensures Count(lo, hi, p) <= hi - lo
    decreases hi - lo
  {
    if lo < hi {
      CountAtMost(lo, hi - 1, p);
    }
  }

  lemma {:induction false} CountMisses(lo: int, hi: int, p: int -> bool, k: int)
    requires lo <= k < hi && !p(k)
    ensures Count(lo, hi, p) < hi - lo
    decreases hi - lo
  {
    if k < hi - 1 {
      CountMisses(lo, hi - 1, p, k);
    } else {
      CountAtMost(lo, hi - 1, p);
    }
  }

  lemma {:induction false} CountDisjointUnion(lo: int, hi: int, p: int -> bool, q: int -> bool, r: int -> bool)
    requires forall k :: lo <= k < hi ==> (r(k) <==> p(k) || q(k)) && !(p(k) && q(k))
    ensures Count(lo, hi, r) == Count(lo, hi, p) + Count(lo, hi, q)
    decreases hi - lo
  {
    if lo < hi {
      CountDisjointUnion(lo, hi - 1, p, q, r);
    }
  }

  lemma {:induction false} CountNone(lo: int, hi: int, p: int -> bool)
    requires forall k :: lo <= k < hi ==> !p(k)
    ensures Count(lo, hi, p) == 0
    decreases hi - lo
  {
    if lo < hi {
      CountNone(lo, hi - 1, p);
    }
  }

  lemma {:induction false} CountHolds(lo: int, hi: int, a: Fetched)
    requires a.Article?
    ensures Count(lo, hi, p => Holds(a, p)) == Overlap(a, lo, hi)
    decreases hi - lo
  {
    if lo < hi {
      CountHolds(lo, hi - 1, a);
    }
  }

  /** Counting inside the window `[base, base + size)` is counting from zero over the clipped interval. */
  lemma {:induction false} CountWindow(lo: int, hi: int, base: int, size: nat, q: int -> bool, r: int -> bool)
    requires forall k :: lo <= k < hi ==> (r(k) <==> base <= k < base + size && q(k - base))
    ensures Count(lo, hi, r) == Count(Max(lo, base) - base, Min(hi, base + size) - base, q)
    decreases hi - lo
  {
    if lo < hi {
      CountWindow(lo, hi - 1, base, size, q, r);
    }
  }

  // ---------------------------------------------------------------- filling is exact

  /** Every held position has the archive byte, every other one is as it was, and the held ones were counted. */
  predicate Exact(refs: seq<Fetched>, at: int, buffer: Bytes, r: Filling) {
    && |r.buffer| == |buffer|
    && (forall k :: 0 <= k < |buffer| ==>
          r.buffer[k] == if Held(refs, at + k) then ByteAt(refs, at + k) else buffer[k])
    && r.written == Count(at, at + |buffer|, p => Held(refs, p))
  }

  lemma HeldByFirstOrRest(refs: seq<Fetched>, p: int)
    requires refs != []
    ensures Held(refs, p) <==> Holds(refs[0], p) || Held(refs[1..], p)
  {
    assert refs == [refs[0]] + refs[1..];
  }

  lemma HeldByLastOrEarlier(refs: seq<Fetched>, p: int)
    requires refs != []
    ensures Held(refs, p) <==> Holds(refs[|refs| - 1], p) || Held(refs[..|refs| - 1], p)
  {
    assert refs == refs[..|refs| - 1] + [refs[|refs| - 1]];
  }

  lemma {:induction false} ByteFromEarlier(refs: seq<Fetched>, p: int)
    requires refs != [] && Held(refs[..|refs| - 1], p)
    ensures Held(refs, p) && ByteAt(refs, p) == ByteAt(refs[..|refs| - 1], p)
  {
    HeldByLastOrEarlier(refs, p);
    var init := refs[..|refs| - 1];
    HeldByFirstOrRest(init, p);
    if !Holds(refs[0], p) {
      assert refs[1..][..|refs[1..]| - 1] == init[1..];
      ByteFromEarlier(refs[1..], p);
    }
  }

  lemma {:induction false} ByteFromLast(refs: seq<Fetched>, p: int)
    requires refs != [] && Holds(refs[|refs| - 1], p) && !Held(refs[..|refs| - 1], p)
    ensures Held(refs, p) && ByteAt(refs, p) == refs[|refs| - 1].body[p - refs[|refs| - 1].offset]
  {
    HeldByLastOrEarlier(refs, p);
    if |refs| > 1 {
      var init := refs[..|refs| - 1];
      HeldByFirstOrRest(init, p);
      assert refs[1..][..|refs[1..]| - 1] == init[1..];
      ByteFromLast(refs[1..], p);
    }
  }

  /** One article on top of a smaller list that it shares no position with. */
  lemma ExactWithOneMore(part: seq<Fetched>, refs: seq<Fetched>, a: Fetched, at: int, buffer: Bytes, rest: Filling)
    requires a.Article?
    requires forall p :: Held(refs, p) <==> Holds(a, p) || Held(part, p)
    requires forall p :: Holds(a, p) ==> !Held(part, p) && ByteAt(refs, p) == a.body[p - a.offset]
    requires forall p :: Held(part, p) ==> ByteAt(refs, p) == ByteAt(part, p)
    requires Exact(part, at, Overlay(buffer, at, a), rest)
    ensures Exact(refs, at, buffer,
                  Filling(rest.buffer, Overlap(a, at, at + |buffer|) + rest.written, rest.ok))
  {
    var hi := at + |buffer|;
    CountHolds(at, hi, a);
    CountDisjointUnion(at, hi, p => Holds(a, p), p => Held(part, p), p => Held(refs, p));
  }

  lemma ExactWhenNoneHeld(refs: seq<Fetched>, at: int, buffer: Bytes)
    requires forall p :: at <= p < at + |buffer| ==> !Held(refs, p)
    ensures Exact(refs, at, buffer, Filling(buffer, 0, true))
  {
    CountNone(at, at + |buffer|, p => Held(refs, p));
  }

  lemma {:induction false} ForwardIsExact(refs: seq<Fetched>, buffer: Bytes)
    requires InOrder(refs) && FillForward(refs, buffer).ok
    ensures Exact(refs, 0, buffer, FillForward(refs, buffer))
  {
    if refs == [] {
      ExactWhenNoneHeld(refs, 0, buffer);
    } else {
      var a, part := refs[0], refs[1..];
      FirstIsDisjoint(refs);
      if Overlap(a, 0, |buffer|) == 0 {
        OverlayOfNothing(buffer, 0, a);
      }
      var over := Overlay(buffer, 0, a);
      if Overlap(a, 0, |buffer|) > 0 && a.offset + |a.body| >= |buffer| {
        ExactWhenNoneHeld(part, 0, over);
        ExactWithOneMore(part, refs, a, 0, buffer, Filling(over, 0, true));
      } else {
        ForwardIsExact(part, over);
        ExactWithOneMore(part, refs, a, 0, buffer, FillForward(part, over));
      }
    }
  }

  lemma {:induction false} BackwardIsExact(refs: seq<Fetched>, at: int, buffer: Bytes)
    requires InOrder(refs) && FillBackward(refs, at, buffer).ok
    ensures Exact(refs, at, buffer, FillBackward(refs, at, buffer))
  {
    if refs == [] {
      ExactWhenNoneHeld(refs, at, buffer);
    } else {
      var a, part := refs[|refs| - 1], refs[..|refs| - 1];
      LastIsDisjoint(refs);
      var over := Overlay(buffer, at, a);
      if a.offset <= at {
        ExactWhenNoneHeld(part, at, over);
        ExactWithOneMore(part, refs, a, at, buffer, Filling(over, 0, true));
      } else {
        BackwardIsExact(part, at, over);
        ExactWithOneMore(part, refs, a, at, buffer, FillBackward(part, at, over));
      }
    }
  }

  lemma FirstIsDisjoint(refs: seq<Fetched>)
    requires InOrder(refs) && refs != [] && refs[0].Article?
    ensures var a, part := refs[0], refs[1..];
            && (forall p :: Held(refs, p) <==> Holds(a, p) || Held(part, p))
            && (forall p :: Held(part, p) ==> p >= a.offset + |a.body| && ByteAt(refs, p) == ByteAt(part, p))
            && (forall p :: Holds(a, p) ==> !Held(part, p) && ByteAt(refs, p) == a.body[p - a.offset])
  {
    var a, part := refs[0], refs[1..];
    forall p ensures Held(refs, p) <==> Holds(a, p) || Held(part, p) { HeldByFirstOrRest(refs, p); }
  }

  lemma LastIsDisjoint(refs: seq<Fetched>)
    requires InOrder(refs) && refs != [] && refs[|refs| - 1].Article?
    ensures var a, part := refs[|refs| - 1], refs[..|refs| - 1];
            && (forall p :: Held(refs, p) <==> Holds(a, p) || Held(part, p))
            && (forall p :: Held(part, p) ==> p < a.offset && ByteAt(refs, p) == ByteAt(part, p))
            && (forall p :: Holds(a, p) ==> !Held(part, p) && ByteAt(refs, p) == a.body[p - a.offset])
  {
    var a, part := refs[|refs| - 1], refs[..|refs| - 1];
    forall p ensures Held(refs, p) <==> Holds(a, p) || Held(part, p) { HeldByLastOrEarlier(refs, p); }
    forall p | Held(part, p) ensures p < a.offset && ByteAt(refs, p) == ByteAt(part, p) { ByteFromEarlier(refs, p); }
    forall p | Holds(a, p) ensures !Held(part, p) && ByteAt(refs, p) == a.body[p - a.offset] {
      ByteFromLast(refs, p);
    }
  }

  /** Forwards or backwards, with the early stops: the range is filled exactly from articles in order. */
  lemma FillFileIsExact(refs: seq<Fetched>, at: int, buffer: Bytes)
    requires 0 <= at && InOrder(refs) && FillFile(refs, at, buffer).ok
    ensures Exact(refs, at, buffer, FillFile(refs, at, buffer))
  {
    if at <= 0 {
      ForwardIsExact(refs, buffer);
    } else {
      BackwardIsExact(refs, at, buffer);
    }
  }

  // ---------------------------------------------------------------- a range of the whole archive

  /** One volume of a split archive: its exact size, and what fetching its articles gives, in order. */
  datatype Volume = Volume(size: nat, refs: seq<Fetched>)

  /** One volume, whose first position is `base`, filling its share of the buffer that starts at `start`. */
  function FillVolume(v: Volume, base: nat, start: int, buffer: Bytes): (r: Filling)
    ensures |r.buffer| == |buffer|
  {
    var from, to := Max(0, base - start), Min(|buffer|, base + v.size - start);
    if to <= from then Filling(buffer, 0, true)
    else
      var r := FillFile(v.refs, start + from - base, Window(buffer, from, to));
      Filling(Splice(buffer, from, to, r.buffer), r.written, r.ok)
  }

  function FillVolumes(family: seq<Volume>, base: nat, start: int, buffer: Bytes): (r: Filling)
    ensures |r.buffer| == |buffer|
  {
    if family == [] then Filling(buffer, 0, true)
    else
      var r := FillVolume(family[0], base, start, buffer);
      if !r.ok then r
      else
        var rest := FillVolumes(family[1..], base + family[0].size, start, r.buffer);
        Filling(rest.buffer, r.written + rest.written, rest.ok)
  }

  function ReadRange(family: seq<Volume>, start: int, end: int): Filling {
    if end <= start then Filling([], 0, false) else FillVolumes(family, 0, start, Zeros(end - start))
  }

  method ReadArchiveRange(family: seq<Volume>, start: int, end: int)
    returns (buffer: array<byte>, filled: nat, ok: bool)
    ensures fresh(buffer)
    ensures Filling(buffer[..], filled, ok) == ReadRange(family, start, end)
  {
    if end <= start {
      buffer := new byte[0];
      return buffer, 0, false;
    }
    buffer := new byte[end - start](_ => 0);
    ghost var now := buffer[..];
    assert now == Zeros(end - start);
    ghost var whole := FillVolumes(family, 0, start, now);
    filled, ok := 0, true;
    var offset: nat := 0;
    var i := 0;
    while i < |family|
      invariant i <= |family| && ok && now == buffer[..] && buffer.Length == end - start
      invariant var rest := FillVolumes(family[i..], offset, start, now);
                whole == Filling(rest.buffer, filled + rest.written, rest.ok)
    {
      ghost var r, rest := FillVolumesStep(family, i, offset, start, now);
      var written, fine := MaterializeOverlap(family[i], offset, start, end, buffer);
      now := buffer[..];
      assert Filling(now, written, fine) == r;
      filled := filled + written;
      if !fine {
        ok := false;
        return;
      }
      offset := offset + family[i].size;
      i := i + 1;
    }
  }

  lemma FillVolumesStep(family: seq<Volume>, i: nat, base: nat, start: int, buffer: Bytes)
    returns (r: Filling, rest: Filling)
    requires i < |family|
    ensures r == FillVolume(family[i], base, start, buffer)
    ensures rest == FillVolumes(family[i + 1..], base + family[i].size, start, r.buffer)
    ensures FillVolumes(family[i..], base, start, buffer)
            == if r.ok then Filling(rest.buffer, r.written + rest.written, rest.ok) else r
  {
    assert family[i..][1..] == family[i + 1..];
    r := FillVolume(family[i], base, start, buffer);
    rest := FillVolumes(family[i + 1..], base + family[i].size, start, r.buffer);
  }

  /** The body of the loop over the volumes: nothing when the range does not reach into this one. */
  method MaterializeOverlap(v: Volume, fileStart: nat, start: int, end: int, buffer: array<byte>)
    returns (written: nat, ok: bool)
    requires buffer.Length == end - start
    modifies buffer
    ensures Filling(buffer[..], written, ok) == FillVolume(v, fileStart, start, old(buffer[..]))
  {
    var overlapStart := Max(start, fileStart);
    var overlapEnd := Min(end, fileStart + v.size);
    if overlapEnd <= overlapStart {
      return 0, true;
    }
    var from, to := overlapStart - start, overlapEnd - start;
    written, ok := MaterializeFileRange(v.refs, overlapStart - fileStart, overlapEnd - fileStart, buffer, from, to);
  }

  predicate HeldIn(family: seq<Volume>, base: nat, g: int) {
    family != []
    && if g < base + family[0].size then base <= g && Held(family[0].refs, g - base)
       else HeldIn(family[1..], base + family[0].size, g)
  }

  function ArchiveByte(family: seq<Volume>, base: nat, g: int): byte
    requires HeldIn(family, base, g)
  {
    if g < base + family[0].size then ByteAt(family[0].refs, g - base)
    else ArchiveByte(family[1..], base + family[0].size, g)
  }

  predicate AllInOrder(family: seq<Volume>) {
    forall i :: 0 <= i < |family| ==> InOrder(family[i].refs)
  }

  predicate ExactIn(family: seq<Volume>, base: nat, start: int, buffer: Bytes, r: Filling) {
    && |r.buffer| == |buffer|
    && (forall k :: 0 <= k < |buffer| ==>
          r.buffer[k] == if HeldIn(family, base, start + k) then ArchiveByte(family, base, start + k) else buffer[k])
    && r.written == HeldCount(family, base, start, start + |buffer|)
  }

  predicate AllHeld(family: seq<Volume>, base: nat, lo: int, hi: int) {
    forall g :: lo <= g < hi ==> HeldIn(family, base, g)
  }

  function HeldCount(family: seq<Volume>, base: nat, lo: int, hi: int): nat {
    Count(lo, hi, g => HeldIn(family, base, g))
  }

  lemma HeldCountIsFull(family: seq<Volume>, base: nat, lo: int, hi: int)
    requires lo <= hi
    ensures HeldCount(family, base, lo, hi) <= hi - lo
    ensures HeldCount(family, base, lo, hi) == hi - lo <==> AllHeld(family, base, lo, hi)
  {
    CountAtMost(lo, hi, g => HeldIn(family, base, g));
    if AllHeld(family, base, lo, hi) {
      CountAll(lo, hi, g => HeldIn(family, base, g));
    } else {
      var k :| lo <= k < hi && !HeldIn(family, base, k);
      CountMisses(lo, hi, g => HeldIn(family, base, g), k);
    }
  }

  predicate InWindow(v: Volume, base: nat, g: int) {
    base <= g < base + v.size && Held(v.refs, g - base)
  }

  lemma {:induction false} NothingBelowBase(family: seq<Volume>, base: nat, g: int)
    requires HeldIn(family, base, g)
    ensures base <= g
  {
    if g >= base + family[0].size {
      NothingBelowBase(family[1..], base + family[0].size, g);
    }
  }

  predicate ExactWindow(v: Volume, base: nat, start: int, buffer: Bytes, r: Filling) {
    && |r.buffer| == |buffer|
    && (forall k :: 0 <= k < |buffer| ==>
          r.buffer[k] == if InWindow(v, base, start + k) then ByteAt(v.refs, start + k - base) else buffer[k])
    && r.written == Count(start, start + |buffer|, g => InWindow(v, base, g))
  }

  lemma FillVolumeIsExact(v: Volume, base: nat, start: int, buffer: Bytes)
    requires InOrder(v.refs) && FillVolume(v, base, start, buffer).ok
    ensures ExactWindow(v, base, start, buffer, FillVolume(v, base, start, buffer))
  {
    var from, to := Max(0, base - start), Min(|buffer|, base + v.size - start);
    if to <= from {
      CountNone(start, start + |buffer|, g => InWindow(v, base, g));
    } else {
      FillFileIsExact(v.refs, start + from - base, Window(buffer, from, to));
      SplicedWindowIsExact(v, base, start, buffer, from, to,
                           FillFile(v.refs, start + from - base, Window(buffer, from, to)));
    }
  }

  lemma SplicedWindowIsExact(v: Volume, base: nat, start: int, buffer: Bytes, from: nat, to: nat, r: Filling)
    requires from == Max(0, base - start) < to == Min(|buffer|, base + v.size - start)
    requires Exact(v.refs, start + from - base, Window(buffer, from, to), r)
    ensures ExactWindow(v, base, start, buffer, Filling(Splice(buffer, from, to, r.buffer), r.written, r.ok))
  {
    CountWindow(start, start + |buffer|, base, v.size, p => Held(v.refs, p), g => InWindow(v, base, g));
    forall k | 0 <= k < |buffer|
      ensures Splice(buffer, from, to, r.buffer)[k]
              == if InWindow(v, base, start + k) then ByteAt(v.refs, start + k - base) else buffer[k]
    {
      SpliceIsExact(v, base, start, buffer, from, to, r, k);
    }
  }

  lemma SpliceIsExact(v: Volume, base: nat, start: int, buffer: Bytes, from: nat, to: nat, r: Filling, k: nat)
    requires from == Max(0, base - start) < to == Min(|buffer|, base + v.size - start)
    requires k < |buffer| && Exact(v.refs, start + from - base, Window(buffer, from, to), r)
    ensures Splice(buffer, from, to, r.buffer)[k]
            == if InWindow(v, base, start + k) then ByteAt(v.refs, start + k - base) else buffer[k]
  {
    var b := Splice(buffer, from, to, r.buffer);
    if k < from {
      assert b[k] == buffer[k];
    } else if k < to {
      var j: nat := k - from;
      assert b[k] == r.buffer[j];
      assert start + from - base + j == start + k - base;
    } else {
      assert b[k] == buffer[to..][k - to];
    }
  }

  lemma {:induction false} FillVolumesIsExact(family: seq<Volume>, base: nat, start: int, buffer: Bytes)
    requires AllInOrder(family) && FillVolumes(family, base, start, buffer).ok
    ensures ExactIn(family, base, start, buffer, FillVolumes(family, base, start, buffer))
  {
    if family == [] {
      CountNone(start, start + |buffer|, g => HeldIn(family, base, g));
    } else {
      var r := FillVolume(family[0], base, start, buffer);
      FillVolumeIsExact(family[0], base, start, buffer);
      FillVolumesIsExact(family[1..], base + family[0].size, start, r.buffer);
      ExactWithOneVolume(family, base, start, buffer, r,
                         FillVolumes(family[1..], base + family[0].size, start, r.buffer));
    }
  }

  lemma ExactWithOneVolume(family: seq<Volume>, base: nat, start: int, buffer: Bytes, r: Filling, rest: Filling)
    requires family != []
    requires ExactWindow(family[0], base, start, buffer, r)
    requires ExactIn(family[1..], base + family[0].size, start, r.buffer, rest)
    ensures ExactIn(family, base, start, buffer, Filling(rest.buffer, r.written + rest.written, rest.ok))
  {
    var v, next := family[0], base + family[0].size;
    forall g | HeldIn(family[1..], next, g) ensures next <= g { NothingBelowBase(family[1..], next, g); }
    CountDisjointUnion(start, start + |buffer|, g => InWindow(v, base, g), g => HeldIn(family[1..], next, g),
                       g => HeldIn(family, base, g));
  }

  // ---------------------------------------------------------------- the callers' check is enough

  /** The volumes' articles carry the bytes of the volumes' true contents. */
  predicate Faithful(family: seq<Volume>, contents: seq<Bytes>) {
    && |family| == |contents|
    && (forall i :: 0 <= i < |family| ==> |contents[i]| == family[i].size && FaithfulFile(family[i].refs, contents[i]))
  }

  predicate FaithfulFile(refs: seq<Fetched>, content: Bytes) {
    forall a, p :: a in refs && Holds(a, p) && 0 <= p < |content| ==> a.body[p - a.offset] == content[p]
  }

  lemma {:induction false} ByteAtIsTrue(refs: seq<Fetched>, content: Bytes, p: int)
    requires FaithfulFile(refs, content) && Held(refs, p) && 0 <= p < |content|
    ensures ByteAt(refs, p) == content[p]
  {
    HeldByFirstOrRest(refs, p);
    if Holds(refs[0], p) {
      assert refs[0] in refs;
    } else {
      ByteAtIsTrue(refs[1..], content, p);
    }
  }

  lemma {:induction false} ArchiveByteIsTrue(family: seq<Volume>, contents: seq<Bytes>, base: nat, g: int)
    requires Faithful(family, contents) && HeldIn(family, base, g)
    ensures 0 <= g - base < |Concat(contents)|
    ensures ArchiveByte(family, base, g) == Concat(contents)[g - base]
  {
    if g < base + family[0].size {
      ByteAtIsTrue(family[0].refs, contents[0], g - base);
    } else {
      ArchiveByteIsTrue(family[1..], contents[1..], base + family[0].size, g);
    }
  }

  /** A read that met no error filled every position exactly when the count reaches the wanted length, and then
      the buffer is that slice of the archive. */
  lemma FullCountMeansTrueSlice(family: seq<Volume>, contents: seq<Bytes>, start: int, end: int)
    requires Faithful(family, contents) && AllInOrder(family)
    requires ReadRange(family, start, end).ok
    ensures var r := ReadRange(family, start, end);
            && r.written <= end - start
            && (r.written == end - start <==> AllHeld(family, 0, start, end))
            && (r.written == end - start ==>
                  0 <= start && end <= |Concat(contents)| && r.buffer == Concat(contents)[start..end])
  {
    var r := ReadRange(family, start, end);
    FillVolumesIsExact(family, 0, start, Zeros(end - start));
    HeldCountIsFull(family, 0, start, end);
    if r.written == end - start {
      FullyHeldIsTheSlice(family, contents, start, end, r.buffer);
    }
  }

  lemma FullyHeldIsTheSlice(family: seq<Volume>, contents: seq<Bytes>, start: int, end: int, buffer: Bytes)
    requires Faithful(family, contents) && start < end && |buffer| == end - start
    requires AllHeld(family, 0, start, end)
    requires forall k :: 0 <= k < |buffer| ==>
               HeldIn(family, 0, start + k) && buffer[k] == ArchiveByte(family, 0, start + k)
    ensures 0 <= start && end <= |Concat(contents)| && buffer == Concat(contents)[start..end]
  {
    ArchiveByteIsTrue(family, contents, 0, start);
    ArchiveByteIsTrue(family, contents, 0, end - 1);
    forall k | 0 <= k < |buffer| ensures buffer[k] == Concat(contents)[start + k] {
      ArchiveByteIsTrue(family, contents, 0, start + k);
    }
  }
}
