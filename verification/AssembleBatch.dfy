/** Assembling a batch of article headers into binaries: split over workers, built, merged, persisted. */
module AssembleBatch {
  import opened Common

  /** What identifies a binary, and the rest of its record. */
  datatype Key = Key(provider: int, newsgroup: int, binaryKey: string)

  datatype Record = Record(key: Key, details: int)

  /** The outcome of matching a header: the record and the part's place in it. */
  datatype Match = Match(record: Record, partNumber: int, totalParts: int, fileName: string)

  /** A candidate header with everything its treatment depends on: the match by subject, whether recovery is backed
      off or wanted, and what fetching the article header would give. */
  datatype Header = Header(
    id: int, structured: bool, subjectMatch: Match, backedOff: bool, wantsRecovery: bool,
    fetchFails: bool, recovers: bool, rematch: Match)

  datatype Part = Part(key: Key, header: int, partNumber: int, totalParts: int, fileName: string)

  datatype Recovery = Recovery(attempts: nat, successes: nat, noops: nat, fetchFailures: nat,
                               skippedByCap: nat, skippedByBackoff: nat)

  datatype Work = Work(keys: seq<Key>, records: map<Key, Record>, parts: seq<Part>, laneA: nat, laneB: nat,
                       recovery: Recovery)

  // ---------------------------------------------------------------- one header

  predicate Wants(h: Header) {
    !h.backedOff && h.wantsRecovery
  }

  /** A header and whether recovery was attempted on it. */
  datatype Resolved = Resolved(h: Header, attempted: bool)

  function Matched(r: Resolved): Match {
    if r.attempted && r.h.recovers then r.h.rematch else r.h.subjectMatch
  }

  function Tally(r: Resolved): Recovery {
    if r.h.backedOff then Recovery(0, 0, 0, 0, 0, 1)
    else if !r.h.wantsRecovery then Recovery(0, 0, 0, 0, 0, 0)
    else if !r.attempted then Recovery(0, 0, 0, 0, 1, 0)
    else
      Recovery(1, if r.h.recovers then 1 else 0, if r.h.recovers then 0 else 1, if r.h.fetchFails then 1 else 0, 0, 0)
  }

  function Plus(a: Recovery, b: Recovery): Recovery {
    Recovery(a.attempts + b.attempts, a.successes + b.successes, a.noops + b.noops,
             a.fetchFailures + b.fetchFailures, a.skippedByCap + b.skippedByCap,
             a.skippedByBackoff + b.skippedByBackoff)
  }

  /** The first `n` headers, recovery attempted while fewer than `cap` attempts were made after `used` earlier ones. */
  function Resolve(hs: seq<Header>, cap: nat, used: nat, n: nat): (r: seq<Resolved>)
    requires n <= |hs|
    ensures |r| == n
  {
    if n == 0 then []
    else
      var before := Resolve(hs, cap, used, n - 1);
      before + [Resolved(hs[n - 1], Wants(hs[n - 1]) && Attempts(before, n - 1) + used < cap)]
  }

  function Attempts(rs: seq<Resolved>, n: nat): nat
    requires n <= |rs|
  {
    if n == 0 then 0 else Attempts(rs, n - 1) + if rs[n - 1].attempted then 1 else 0
  }

  function Wanted(hs: seq<Header>, n: nat): nat
    requires n <= |hs|
  {
    if n == 0 then 0 else Wanted(hs, n - 1) + if Wants(hs[n - 1]) then 1 else 0
  }

  // ---------------------------------------------------------------- the work of a sequence of headers

  /** Keys in the order of their first part. */
  function Keys(rs: seq<Resolved>, n: nat): seq<Key>
    requires n <= |rs|
  {
    if n == 0 then [] else AddKey(Keys(rs, n - 1), Matched(rs[n - 1]).record.key)
  }

  function AddKey(keys: seq<Key>, k: Key): seq<Key> {
    if k in keys then keys else keys + [k]
  }

  /** The first record of each key. */
  function Records(rs: seq<Resolved>, n: nat): map<Key, Record>
    requires n <= |rs|
  {
    if n == 0 then map[] else AddRecord(Records(rs, n - 1), Matched(rs[n - 1]).record)
  }

  function AddRecord(m: map<Key, Record>, r: Record): map<Key, Record> {
    if r.key in m then m else m[r.key := r]
  }

  function PartOf(r: Resolved): Part {
    var m := Matched(r);
    Part(m.record.key, r.h.id, m.partNumber, m.totalParts, m.fileName)
  }

  function Parts(rs: seq<Resolved>): seq<Part> {
    seq(|rs|, i requires 0 <= i < |rs| => PartOf(rs[i]))
  }

  function Structured(rs: seq<Resolved>, n: nat): nat
    requires n <= |rs|
  {
    if n == 0 then 0 else Structured(rs, n - 1) + if rs[n - 1].h.structured then 1 else 0
  }

  function Tallies(rs: seq<Resolved>, n: nat): Recovery
    requires n <= |rs|
  {
    if n == 0 then Recovery(0, 0, 0, 0, 0, 0) else Plus(Tallies(rs, n - 1), Tally(rs[n - 1]))
  }

  lemma {:induction false} StructuredAtMost(rs: seq<Resolved>, n: nat)
    requires n <= |rs|
    ensures Structured(rs, n) <= n
  {
    if n > 0 {
      StructuredAtMost(rs, n - 1);
    }
  }

  function Collect(rs: seq<Resolved>): Work {
    StructuredAtMost(rs, |rs|);
    Work(Keys(rs, |rs|), Records(rs, |rs|), Parts(rs), Structured(rs, |rs|), |rs| - Structured(rs, |rs|),
         Tallies(rs, |rs|))
  }

  /** What one worker makes of its headers. */
  function Build(hs: seq<Header>, cap: nat): Work {
    Collect(Resolve(hs, cap, 0, |hs|))
  }

  // ---------------------------------------------------------------- merging

  function MergeKeys(into: seq<Key>, keys: seq<Key>, n: nat): seq<Key>
    requires n <= |keys|
  {
    if n == 0 then into else AddKey(MergeKeys(into, keys, n - 1), keys[n - 1])
  }

  predicate HaveRecords(keys: seq<Key>, records: map<Key, Record>) {
    forall i :: 0 <= i < |keys| ==> keys[i] in records && records[keys[i]].key == keys[i]
  }

  function MergeRecords(into: map<Key, Record>, keys: seq<Key>, records: map<Key, Record>, n: nat): map<Key, Record>
    requires n <= |keys| && HaveRecords(keys, records)
  {
    if n == 0 then into else AddRecord(MergeRecords(into, keys, records, n - 1), records[keys[n - 1]])
  }

  /** Every key has its record. */
  predicate Coherent(w: Work) {
    HaveRecords(w.keys, w.records)
  }

  function Merge(a: Work, b: Work): Work
    requires Coherent(b)
  {
    Work(MergeKeys(a.keys, b.keys, |b.keys|), MergeRecords(a.records, b.keys, b.records, |b.keys|), a.parts + b.parts,
         a.laneA + b.laneA, a.laneB + b.laneB, Plus(a.recovery, b.recovery))
  }

  const EMPTY: Work := Work([], map[], [], 0, 0, Recovery(0, 0, 0, 0, 0, 0))

  predicate AllCoherent(works: seq<Work>) {
    forall i :: 0 <= i < |works| ==> Coherent(works[i])
  }

  function MergeAll(works: seq<Work>, n: nat): Work
    requires n <= |works| && AllCoherent(works)
  {
    if n == 0 then EMPTY else Merge(MergeAll(works, n - 1), works[n - 1])
  }

  // ---------------------------------------------------------------- merging is collecting

  lemma {:induction false} KeyIffRecord(rs: seq<Resolved>, n: nat, k: Key)
    requires n <= |rs|
    ensures k in Keys(rs, n) <==> k in Records(rs, n)
    ensures k in Records(rs, n) ==> Records(rs, n)[k].key == k
  {
    if n > 0 {
      KeyIffRecord(rs, n - 1, k);
      KeyIffRecord(rs, n - 1, Matched(rs[n - 1]).record.key);
    }
  }

  lemma AllHaveRecords(rs: seq<Resolved>, n: nat)
    requires n <= |rs|
    ensures HaveRecords(Keys(rs, n), Records(rs, n))
  {
    var keys := Keys(rs, n);
    forall i | 0 <= i < |keys| ensures keys[i] in Records(rs, n) && Records(rs, n)[keys[i]].key == keys[i] {
      KeyIffRecord(rs, n, keys[i]);
    }
  }

  lemma {:induction false} KeyOfConcat(a: seq<Resolved>, b: seq<Resolved>, n: nat, k: Key)
    requires n <= |b|
    ensures k in Keys(a + b, |a| + n) <==> k in Keys(a, |a|) || k in Keys(b, n)
  {
    if n == 0 {
      KeysOfPrefix(a, b, |a|);
    } else {
      KeyOfConcat(a, b, n - 1, k);
      assert (a + b)[|a| + n - 1] == b[n - 1];
    }
  }

  lemma {:induction false} KeysOfConcat(a: seq<Resolved>, b: seq<Resolved>, n: nat)
    requires n <= |b|
    ensures Keys(a + b, |a| + n) == MergeKeys(Keys(a, |a|), Keys(b, n), |Keys(b, n)|)
  {
    if n == 0 {
      KeysOfPrefix(a, b, |a|);
    } else {
      KeysOfConcat(a, b, n - 1);
      assert (a + b)[|a| + n - 1] == b[n - 1];
      var keys, k := Keys(b, n - 1), Matched(b[n - 1]).record.key;
      KeyOfConcat(a, b, n - 1, k);
      if k !in keys {
        MergeKeysOfPrefix(Keys(a, |a|), keys, k, |keys|);
      }
    }
  }

  lemma {:induction false} KeysOfPrefix(a: seq<Resolved>, b: seq<Resolved>, n: nat)
    requires n <= |a|
    ensures Keys(a + b, n) == Keys(a, n) && Records(a + b, n) == Records(a, n)
    ensures Structured(a + b, n) == Structured(a, n) && Tallies(a + b, n) == Tallies(a, n)
  {
    if n > 0 {
      KeysOfPrefix(a, b, n - 1);
      assert (a + b)[n - 1] == a[n - 1];
    }
  }

  lemma {:induction false} MergeKeysOfPrefix(into: seq<Key>, keys: seq<Key>, k: Key, n: nat)
    requires n <= |keys|
    ensures MergeKeys(into, keys + [k], n) == MergeKeys(into, keys, n)
  {
    if n > 0 {
      MergeKeysOfPrefix(into, keys, k, n - 1);
      assert (keys + [k])[n - 1] == keys[n - 1];
    }
  }

  lemma {:induction false} RecordOfConcat(a: seq<Resolved>, b: seq<Resolved>, n: nat, k: Key)
    requires n <= |b|
    ensures var m, ra, rb := Records(a + b, |a| + n), Records(a, |a|), Records(b, n);
            && (k in m <==> k in ra || k in rb)
            && (k in ra ==> m[k] == ra[k])
            && (k in rb && k !in ra ==> m[k] == rb[k])
  {
    if n == 0 {
      KeysOfPrefix(a, b, |a|);
    } else {
      RecordOfConcat(a, b, n - 1, k);
      assert (a + b)[|a| + n - 1] == b[n - 1];
    }
  }

  lemma {:induction false} StructuredOfConcat(a: seq<Resolved>, b: seq<Resolved>, n: nat)
    requires n <= |b|
    ensures Structured(a + b, |a| + n) == Structured(a, |a|) + Structured(b, n)
  {
    if n == 0 {
      KeysOfPrefix(a, b, |a|);
    } else {
      StructuredOfConcat(a, b, n - 1);
      assert (a + b)[|a| + n - 1] == b[n - 1];
    }
  }

  lemma PlusAssociates(x: Recovery, y: Recovery, t: Recovery, xy: Recovery, all: Recovery, yt: Recovery)
    requires xy == Plus(x, y) && all == Plus(xy, t) && yt == Plus(y, t)
    ensures all == Plus(x, yt)
  {
  }

  lemma TallyStep(a: seq<Resolved>, b: seq<Resolved>, n: nat) returns (t: Recovery)
    requires n < |b|
    ensures Tallies(a + b, |a| + n + 1) == Plus(Tallies(a + b, |a| + n), t)
    ensures Tallies(b, n + 1) == Plus(Tallies(b, n), t)
  {
    assert (a + b)[|a| + n] == b[n];
    t := Tally(b[n]);
  }

  lemma {:induction false} TalliesOfConcat(a: seq<Resolved>, b: seq<Resolved>, n: nat)
    requires n <= |b|
    ensures Tallies(a + b, |a| + n) == Plus(Tallies(a, |a|), Tallies(b, n))
  {
    if n == 0 {
      KeysOfPrefix(a, b, |a|);
    } else {
      TalliesOfConcat(a, b, n - 1);
      var t := TallyStep(a, b, n - 1);
      PlusAssociates(Tallies(a, |a|), Tallies(b, n - 1), t,
                     Tallies(a + b, |a| + n - 1), Tallies(a + b, |a| + n), Tallies(b, n));
    }
  }

  lemma {:induction false} MergeRecordsOfPrefix(into: map<Key, Record>, keys: seq<Key>, records: map<Key, Record>,
                                                r: Record, n: nat)
    requires n <= |keys| && HaveRecords(keys, records) && r.key !in keys
    requires HaveRecords(keys + [r.key], records[r.key := r])
    ensures MergeRecords(into, keys + [r.key], records[r.key := r], n) == MergeRecords(into, keys, records, n)
  {
    if n > 0 {
      MergeRecordsOfPrefix(into, keys, records, r, n - 1);
      assert (keys + [r.key])[n - 1] == keys[n - 1];
    }
  }

  /** Merging one key more is adding its record to what was merged. */
  lemma MergeOneMore(into: map<Key, Record>, keys: seq<Key>, records: map<Key, Record>, r: Record)
    requires HaveRecords(keys, records) && HaveRecords(AddKey(keys, r.key), AddRecord(records, r))
    requires r.key in keys <==> r.key in records
    requires r.key in records ==> r.key in MergeRecords(into, keys, records, |keys|)
    ensures MergeRecords(into, AddKey(keys, r.key), AddRecord(records, r), |AddKey(keys, r.key)|)
            == AddRecord(MergeRecords(into, keys, records, |keys|), r)
  {
    if r.key !in keys {
      MergeRecordsOfPrefix(into, keys, records, r, |keys|);
    }
  }

  /** Records already there win, the others come from the merged work: the first record of each key in the row. */
  lemma {:induction false} RecordsOfConcat(a: seq<Resolved>, b: seq<Resolved>, n: nat)
    requires n <= |b|
    ensures HaveRecords(Keys(b, n), Records(b, n))
    ensures MergeRecords(Records(a, |a|), Keys(b, n), Records(b, n), |Keys(b, n)|) == Records(a + b, |a| + n)
  {
    AllHaveRecords(b, n);
    if n == 0 {
      KeysOfPrefix(a, b, |a|);
    } else {
      RecordsOfConcat(a, b, n - 1);
      assert (a + b)[|a| + n - 1] == b[n - 1];
      var r := Matched(b[n - 1]).record;
      KeyIffRecord(b, n - 1, r.key);
      RecordOfConcat(a, b, n - 1, r.key);
      MergeOneMore(Records(a, |a|), Keys(b, n - 1), Records(b, n - 1), r);
    }
  }

  /** The fields of `Collect` for the first `n` headers. */
  predicate Is(w: Work, rs: seq<Resolved>, n: nat)
    requires n <= |rs|
  {
    && w.keys == Keys(rs, n) && w.records == Records(rs, n)
    && w.laneA == Structured(rs, n) && w.recovery == Tallies(rs, n)
  }

  lemma {:induction false} MergedIs(a: seq<Resolved>, b: seq<Resolved>)
    requires HaveRecords(Keys(b, |b|), Records(b, |b|))
    ensures Is(Merge(Collect(a), Collect(b)), a + b, |a| + |b|)
  {
    var v, w := Collect(a), Collect(b);
    MergedKeys(v, w, a, b);
    MergedRecords(v, w, a, b);
    MergedTallies(v, w, a, b);
    MergedLanes(v, w, a, b);
  }

  lemma {:induction false} MergedKeys(v: Work, w: Work, a: seq<Resolved>, b: seq<Resolved>)
    requires v.keys == Keys(a, |a|) && w.keys == Keys(b, |b|)
    ensures MergeKeys(v.keys, w.keys, |w.keys|) == Keys(a + b, |a| + |b|)
  {
    KeysOfConcat(a, b, |b|);
  }

  lemma {:induction false} MergedRecords(v: Work, w: Work, a: seq<Resolved>, b: seq<Resolved>)
    requires HaveRecords(w.keys, w.records) && v.records == Records(a, |a|)
    requires w.keys == Keys(b, |b|) && w.records == Records(b, |b|)
    ensures MergeRecords(v.records, w.keys, w.records, |w.keys|) == Records(a + b, |a| + |b|)
  {
    RecordsOfConcat(a, b, |b|);
  }

  lemma {:induction false} MergedTallies(v: Work, w: Work, a: seq<Resolved>, b: seq<Resolved>)
    requires Coherent(w) && v.recovery == Tallies(a, |a|) && w.recovery == Tallies(b, |b|)
    ensures Merge(v, w).recovery == Tallies(a + b, |a| + |b|)
  {
    TalliesOfConcat(a, b, |b|);
  }

  lemma {:induction false} MergedLanes(v: Work, w: Work, a: seq<Resolved>, b: seq<Resolved>)
    requires Coherent(w) && v.laneA == Structured(a, |a|) && w.laneA == Structured(b, |b|)
    ensures Merge(v, w).laneA == Structured(a + b, |a| + |b|)
  {
    StructuredOfConcat(a, b, |b|);
  }

  /** Merging two works is the work of the headers in a row: same ordered keys, first record of each key, parts in
      order and counts. */
  lemma MergeIsCollect(a: seq<Resolved>, b: seq<Resolved>)
    ensures Coherent(Collect(b)) && Merge(Collect(a), Collect(b)) == Collect(a + b)
  {
    AllHaveRecords(b, |b|);
    MergedIs(a, b);
    PartsOfConcat(a, b);
    LengthsAdd(a, b);
  }

  lemma LengthsAdd(a: seq<Resolved>, b: seq<Resolved>)
    ensures |a + b| == |a| + |b|
  {
  }

  lemma PartsOfConcat(a: seq<Resolved>, b: seq<Resolved>)
    ensures Parts(a) + Parts(b) == Parts(a + b)
  {
  }

  // ---------------------------------------------------------------- workers

  function Flatten<T>(batches: seq<seq<T>>, n: nat): seq<T>
    requires n <= |batches|
  {
    if n == 0 then [] else Flatten(batches, n - 1) + batches[n - 1]
  }

  /** Each worker resolves its own batch, with its own count of attempts. */
  function ResolveEach(batches: seq<seq<Header>>, cap: nat, n: nat): seq<Resolved>
    requires n <= |batches|
  {
    if n == 0 then []
    else ResolveEach(batches, cap, n - 1) + Resolve(batches[n - 1], cap, 0, |batches[n - 1]|)
  }

  function Works(batches: seq<seq<Header>>, cap: nat): seq<Work> {
    seq(|batches|, i requires 0 <= i < |batches| => Build(batches[i], cap))
  }

  lemma WorksAreCoherent(batches: seq<seq<Header>>, cap: nat)
    ensures AllCoherent(Works(batches, cap))
  {
    forall i | 0 <= i < |batches| ensures Coherent(Works(batches, cap)[i]) {
      AllHaveRecords(Resolve(batches[i], cap, 0, |batches[i]|), |batches[i]|);
    }
  }

  lemma {:induction false} MergedWorks(batches: seq<seq<Header>>, cap: nat, n: nat)
    requires n <= |batches| && AllCoherent(Works(batches, cap))
    ensures MergeAll(Works(batches, cap), n) == Collect(ResolveEach(batches, cap, n))
  {
    if n > 0 {
      MergedWorks(batches, cap, n - 1);
      var last := Resolve(batches[n - 1], cap, 0, |batches[n - 1]|);
      MergeIsCollect(ResolveEach(batches, cap, n - 1), last);
      assert Works(batches, cap)[n - 1] == Collect(last);
      assert ResolveEach(batches, cap, n) == ResolveEach(batches, cap, n - 1) + last;
    }
  }

  // ---------------------------------------------------------------- attempts

  lemma {:induction false} AttemptsCount(hs: seq<Header>, cap: nat, used: nat, n: nat)
    requires n <= |hs|
    ensures Attempts(Resolve(hs, cap, used, n), n) == Min(Wanted(hs, n), Max(0, cap - used))
  {
    if n > 0 {
      AttemptsCount(hs, cap, used, n - 1);
      AttemptsOfPrefix(Resolve(hs, cap, used, n), Resolve(hs, cap, used, n - 1), n - 1);
    }
  }

  lemma {:induction false} AttemptsOfPrefix(longer: seq<Resolved>, shorter: seq<Resolved>, n: nat)
    requires n <= |shorter| <= |longer| && forall i :: 0 <= i < n ==> longer[i] == shorter[i]
    ensures Attempts(longer, n) == Attempts(shorter, n)
  {
    if n > 0 {
      AttemptsOfPrefix(longer, shorter, n - 1);
    }
  }

  /** Resolving a row of headers is resolving its two halves, the second after the attempts of the first. */
  lemma {:induction false} ResolveSplits(a: seq<Header>, b: seq<Header>, cap: nat, n: nat)
    requires n <= |b|
    ensures var first := Resolve(a, cap, 0, |a|);
            Resolve(a + b, cap, 0, |a| + n) == first + Resolve(b, cap, Attempts(first, |a|), n)
  {
    var first := Resolve(a, cap, 0, |a|);
    var used := Attempts(first, |a|);
    if n == 0 {
      ResolveOfPrefix(a, b, cap, |a|);
    } else {
      ResolveSplits(a, b, cap, n - 1);
      assert (a + b)[|a| + n - 1] == b[n - 1];
      var second := Resolve(b, cap, used, n - 1);
      AttemptsAdd(first, second, n - 1);
      AttemptsOfPrefix(Resolve(a + b, cap, 0, |a| + n - 1), first + second, |a| + n - 1);
    }
  }

  lemma {:induction false} AttemptsAdd(a: seq<Resolved>, b: seq<Resolved>, n: nat)
    requires n <= |b|
    ensures Attempts(a + b, |a| + n) == Attempts(a, |a|) + Attempts(b, n)
  {
    if n == 0 {
      AttemptsOfPrefix(a + b, a, |a|);
    } else {
      AttemptsAdd(a, b, n - 1);
      assert (a + b)[|a| + n - 1] == b[n - 1];
    }
  }

  lemma {:induction false} ResolveOfPrefix(a: seq<Header>, b: seq<Header>, cap: nat, n: nat)
    requires n <= |a|
    ensures Resolve(a + b, cap, 0, n) == Resolve(a, cap, 0, n)
  {
    if n > 0 {
      ResolveOfPrefix(a, b, cap, n - 1);
      assert (a + b)[n - 1] == a[n - 1];
    }
  }

  /** Earlier attempts do not show when there is room for all that is wanted, or nothing is. */
  lemma {:induction false} RoomEnough(hs: seq<Header>, cap: nat, used: nat, n: nat)
    requires n <= |hs| && (used == 0 || Wanted(hs, n) == 0 || used + Wanted(hs, n) <= cap)
    ensures Resolve(hs, cap, used, n) == Resolve(hs, cap, 0, n)
  {
    if n > 0 {
      RoomEnough(hs, cap, used, n - 1);
      AttemptsCount(hs, cap, used, n - 1);
    }
  }

  /** What the workers attempt together: each is capped on its own. */
  function AttemptsOfAll(batches: seq<seq<Header>>, cap: nat, n: nat): nat
    requires n <= |batches|
  {
    if n == 0 then 0
    else AttemptsOfAll(batches, cap, n - 1) + Min(Wanted(batches[n - 1], |batches[n - 1]|), cap)
  }

  lemma {:induction false} AttemptsGrow(batches: seq<seq<Header>>, cap: nat, i: nat, n: nat)
    requires i <= n <= |batches|
    ensures AttemptsOfAll(batches, cap, i) <= AttemptsOfAll(batches, cap, n)
  {
    if i < n {
      AttemptsGrow(batches, cap, i, n - 1);
    }
  }

  lemma {:induction false} EachAttempts(batches: seq<seq<Header>>, cap: nat, n: nat)
    requires n <= |batches|
    ensures Attempts(ResolveEach(batches, cap, n), |ResolveEach(batches, cap, n)|) == AttemptsOfAll(batches, cap, n)
  {
    if n > 0 {
      EachAttempts(batches, cap, n - 1);
      var last := batches[n - 1];
      var r := Resolve(last, cap, 0, |last|);
      AttemptsAdd(ResolveEach(batches, cap, n - 1), r, |r|);
      AttemptsCount(last, cap, 0, |last|);
    }
  }

  /** While the workers together stay within one cap, they resolve every header as one pass does. */
  lemma {:induction false} EachIsSerial(batches: seq<seq<Header>>, cap: nat, n: nat)
    requires n <= |batches| && AttemptsOfAll(batches, cap, n) <= cap
    ensures ResolveEach(batches, cap, n) == Resolve(Flatten(batches, n), cap, 0, |Flatten(batches, n)|)
  {
    if n > 0 {
      EachIsSerial(batches, cap, n - 1);
      EachAttempts(batches, cap, n - 1);
      var last := batches[n - 1];
      ResolveSplits(Flatten(batches, n - 1), last, cap, |last|);
      RoomEnough(last, cap, AttemptsOfAll(batches, cap, n - 1), |last|);
    }
  }

  lemma {:induction false} TalliedAttempts(rs: seq<Resolved>, n: nat)
    requires n <= |rs| && OnlyWanted(rs)
    ensures Tallies(rs, n).attempts == Attempts(rs, n)
  {
    if n > 0 {
      TalliedAttempts(rs, n - 1);
    }
  }

  predicate OnlyWanted(rs: seq<Resolved>) {
    forall i :: 0 <= i < |rs| ==> rs[i].attempted ==> Wants(rs[i].h)
  }

  lemma {:induction false} OnlyWantedAreAttempted(hs: seq<Header>, cap: nat, used: nat, n: nat)
    requires n <= |hs|
    ensures OnlyWanted(Resolve(hs, cap, used, n))
  {
    if n > 0 {
      OnlyWantedAreAttempted(hs, cap, used, n - 1);
    }
  }

  lemma OnlyWantedJoin(a: seq<Resolved>, b: seq<Resolved>)
    requires OnlyWanted(a) && OnlyWanted(b)
    ensures OnlyWanted(a + b)
  {
  }

  lemma {:induction false} OnlyWantedByEach(batches: seq<seq<Header>>, cap: nat, n: nat)
    requires n <= |batches|
    ensures OnlyWanted(ResolveEach(batches, cap, n))
  {
    if n > 0 {
      OnlyWantedByEach(batches, cap, n - 1);
      OnlyWantedAreAttempted(batches[n - 1], cap, 0, |batches[n - 1]|);
      OnlyWantedJoin(ResolveEach(batches, cap, n - 1), Resolve(batches[n - 1], cap, 0, |batches[n - 1]|));
    }
  }

  /** Parallel assembly gives the work of one pass over the batch exactly when the workers' attempts together stay
      within the cap: each worker counts its own. */
  lemma ParallelIsSerial(batches: seq<seq<Header>>, cap: nat)
    ensures AllCoherent(Works(batches, cap))
    ensures MergeAll(Works(batches, cap), |batches|) == Build(Flatten(batches, |batches|), cap)
            <==> AttemptsOfAll(batches, cap, |batches|) <= cap
  {
    WorksAreCoherent(batches, cap);
    MergedWorks(batches, cap, |batches|);
    if AttemptsOfAll(batches, cap, |batches|) <= cap {
      EachIsSerial(batches, cap, |batches|);
    } else {
      MoreAttempts(batches, cap);
    }
  }

  /** Beyond the cap the workers attempt more than one pass would. */
  lemma MoreAttempts(batches: seq<seq<Header>>, cap: nat)
    requires AttemptsOfAll(batches, cap, |batches|) > cap
    ensures Collect(ResolveEach(batches, cap, |batches|)).recovery.attempts
            > Build(Flatten(batches, |batches|), cap).recovery.attempts
  {
    var n, all := |batches|, Flatten(batches, |batches|);
    var each, serial := ResolveEach(batches, cap, n), Resolve(all, cap, 0, |all|);
    EachAttempts(batches, cap, n);
    OnlyWantedByEach(batches, cap, n);
    TalliedAttempts(each, |each|);
    OnlyWantedAreAttempted(all, cap, 0, |all|);
    TalliedAttempts(serial, |serial|);
    AttemptsCount(all, cap, 0, |all|);
  }
}
