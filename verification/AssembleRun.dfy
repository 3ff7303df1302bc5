/** The loops of batch assembly: the split over workers, one worker's pass, the merge, and persisting. */
module AssembleRun {
  import opened Common
  import opened AssembleBatch
  import opened AssembleContributions
  import opened Sorting
  import CacheKeys

  // ---------------------------------------------------------------- one worker

  lemma ResolveStep(hs: seq<Header>, cap: nat, n: nat) returns (before: seq<Resolved>, r: Resolved)
    requires n < |hs|
    ensures before == Resolve(hs, cap, 0, n)
    ensures r == Resolved(hs[n], Wants(hs[n]) && Attempts(before, n) < cap)
    ensures Resolve(hs, cap, 0, n + 1) == before + [r]
    ensures Keys(before + [r], n + 1) == AddKey(Keys(before, n), Matched(r).record.key)
    ensures Records(before + [r], n + 1) == AddRecord(Records(before, n), Matched(r).record)
    ensures Parts(before + [r]) == Parts(before) + [PartOf(r)]
    ensures Tallies(before + [r], n + 1) == Plus(Tallies(before, n), Tally(r))
    ensures Structured(before + [r], n + 1) == Structured(before, n) + if r.h.structured then 1 else 0
    ensures Attempts(before + [r], n + 1) == Attempts(before, n) + if r.attempted then 1 else 0
  {
    before := Resolve(hs, cap, 0, n);
    r := Resolved(hs[n], Wants(hs[n]) && Attempts(before, n) < cap);
    KeysOfPrefix(before, [r], n);
    AttemptsOfPrefix(before + [r], before, n);
  }

  lemma WorkOfHeaders(hs: seq<Header>, cap: nat)
    ensures var w := Build(hs, cap);
            && |w.parts| == |hs|
            && (forall i: nat :: i < |hs| ==> MadeFrom(w.parts[i], hs[i], Counted(hs, cap, i)))
            && (forall i: nat :: First(hs, cap, i) ==>
                  var record := Counted(hs, cap, i).record;
                  record.key in w.records && w.records[record.key] == record)
            && w.recovery.attempts == |Members(|hs|, Attempted(hs, cap))|
            && w.recovery.successes == |Members(|hs|, Succeeded(hs, cap))|
  {
    forall i: nat | i < |hs| ensures MadeFrom(Build(hs, cap).parts[i], hs[i], Counted(hs, cap, i)) {
      PartOfEachHeader(hs, cap, i);
    }
    RecordOfEachKey(hs, cap);
    CountersOfWork(hs, cap);
  }

  /** The branches of the loop body: the match that counts, and what the recovery counters gain. */
  method Treat(h: Header, cap: nat, attempts: nat) returns (m: Match, gained: Recovery)
    ensures var r := Resolved(h, Wants(h) && attempts < cap); m == Matched(r) && gained == Tally(r)
    ensures m == if !h.backedOff && h.wantsRecovery && attempts < cap && h.recovers then h.rematch else h.subjectMatch
    ensures gained.skippedByBackoff == if h.backedOff then 1 else 0
    ensures gained.skippedByCap == if !h.backedOff && h.wantsRecovery && attempts >= cap then 1 else 0
    ensures gained.attempts == if !h.backedOff && h.wantsRecovery && attempts < cap then 1 else 0
    ensures gained.successes == if gained.attempts == 1 && h.recovers then 1 else 0
    ensures gained.noops == if gained.attempts == 1 && !h.recovers then 1 else 0
    ensures gained.fetchFailures == if gained.attempts == 1 && h.fetchFails then 1 else 0
  {
    m, gained := h.subjectMatch, Recovery(0, 0, 0, 0, 0, 0);
    if h.backedOff {
      gained := gained.(skippedByBackoff := 1);
    } else if h.wantsRecovery {
      if attempts >= cap {
        gained := gained.(skippedByCap := 1);
      } else {
        gained := gained.(attempts := 1);
        if h.fetchFails {
          gained := gained.(fetchFailures := 1);
        }
        if h.recovers {
          gained := gained.(successes := 1);
          m := h.rematch;
        } else {
          gained := gained.(noops := 1);
        }
      }
    }
  }

  /** One worker's pass. The part of header `i` is made from its rematch when it asks for recovery among the first
      `cap` that do and recovers, and from its subject match otherwise; a key's record is that of its first header. */
  method BuildAssembleWork(headers: seq<Header>, cap: nat) returns (work: Work)
    ensures work == Build(headers, cap)
    ensures |work.parts| == |headers| && forall i: nat :: i < |headers| ==>
              MadeFrom(work.parts[i], headers[i],
                       if Served(headers, cap, i) && headers[i].recovers then headers[i].rematch
                       else headers[i].subjectMatch)
    ensures forall i: nat :: First(headers, cap, i) ==>
              var record := Counted(headers, cap, i).record;
              record.key in work.records && work.records[record.key] == record
    ensures work.recovery.attempts == |Members(|headers|, Attempted(headers, cap))|
    ensures work.recovery.successes == |Members(|headers|, Succeeded(headers, cap))|
  {
    var laneA := CountStructured(headers, cap);
    var keys, records, parts, recovery := MatchHeaders(headers, cap);
    work := Work(keys, records, parts, laneA, |headers| - laneA, recovery);
    WorkOfHeaders(headers, cap);
  }

  /** The second loop, over all headers in order. */
  method MatchHeaders(headers: seq<Header>, cap: nat)
    returns (keys: seq<Key>, records: map<Key, Record>, parts: seq<Part>, recovery: Recovery)
    ensures var rs, n := Resolve(headers, cap, 0, |headers|), |headers|;
            keys == Keys(rs, n) && records == Records(rs, n) && parts == Parts(rs) && recovery == Tallies(rs, n)
  {
    keys, records, parts, recovery := [], map[], [], Recovery(0, 0, 0, 0, 0, 0);
    ghost var rs: seq<Resolved> := [];
    var i := 0;
    while i < |headers|
      invariant i <= |headers| && rs == Resolve(headers, cap, 0, i)
      invariant keys == Keys(rs, i) && records == Records(rs, i) && parts == Parts(rs)
      invariant recovery == Tallies(rs, i) && recovery.attempts == Attempts(rs, i)
    {
      ghost var before, r := ResolveStep(headers, cap, i);
      var m, gained := Treat(headers[i], cap, recovery.attempts);
      recovery := Plus(recovery, gained);
      var key := m.record.key;
      if key !in records {
        keys, records := keys + [key], records[key := m.record];
      }
      KeyIffRecord(rs, i, key);
      parts := parts + [Part(key, headers[i].id, m.partNumber, m.totalParts, m.fileName)];
      rs := before + [r];
      i := i + 1;
    }
  }

  /** The first loop: headers whose structured identity already matched a binary. */
  method CountStructured(headers: seq<Header>, cap: nat) returns (n: nat)
    ensures n == Structured(Resolve(headers, cap, 0, |headers|), |headers|) <= |headers|
  {
    n := 0;
    for i := 0 to |headers|
      invariant n == Structured(Resolve(headers, cap, 0, i), i) <= i
    {
      ghost var before, r := ResolveStep(headers, cap, i);
      if headers[i].structured {
        n := n + 1;
      }
    }
  }

  // ---------------------------------------------------------------- merging

  lemma {:induction false} MergedTogether(into: Work, keys: seq<Key>, records: map<Key, Record>, n: nat, k: Key)
    requires n <= |keys| && HaveRecords(keys, records) && (k in into.keys <==> k in into.records)
    ensures k in MergeKeys(into.keys, keys, n) <==> k in MergeRecords(into.records, keys, records, n)
  {
    if n > 0 {
      MergedTogether(into, keys, records, n - 1, k);
      assert records[keys[n - 1]].key == keys[n - 1];
    }
  }

  lemma {:induction false} MergedKeyHasRecord(works: seq<Work>, n: nat, k: Key)
    requires n <= |works| && AllCoherent(works)
    ensures k in MergeAll(works, n).keys <==> k in MergeAll(works, n).records
  {
    if n > 0 {
      MergedKeyHasRecord(works, n - 1, k);
      assert Coherent(works[n - 1]);
      MergedTogether(MergeAll(works, n - 1), works[n - 1].keys, works[n - 1].records, |works[n - 1].keys|, k);
    }
  }

  method MergeAssembleWorks(works: seq<Work>) returns (merged: Work)
    requires AllCoherent(works)
    ensures merged == MergeAll(works, |works|)
  {
    merged := EMPTY;
    for i := 0 to |works|
      invariant merged == MergeAll(works, i)
    {
      var w := works[i];
      forall k ensures k in merged.keys <==> k in merged.records {
        MergedKeyHasRecord(works, i, k);
      }
      var keys, records := MergeInto(merged, w);
      merged := Work(keys, records, merged.parts + w.parts, merged.laneA + w.laneA, merged.laneB + w.laneB,
                     Plus(merged.recovery, w.recovery));
    }
  }

  /** The loop over one work's keys: a key already there is skipped with its record. */
  method MergeInto(into: Work, work: Work) returns (keys: seq<Key>, records: map<Key, Record>)
    requires Coherent(work)
    requires forall i :: 0 <= i < |work.keys| ==> (work.keys[i] in into.keys <==> work.keys[i] in into.records)
    ensures keys == MergeKeys(into.keys, work.keys, |work.keys|)
    ensures records == MergeRecords(into.records, work.keys, work.records, |work.keys|)
  {
    keys, records := into.keys, into.records;
    for i := 0 to |work.keys|
      invariant keys == MergeKeys(into.keys, work.keys, i)
      invariant records == MergeRecords(into.records, work.keys, work.records, i)
    {
      var key := work.keys[i];
      MergedTogether(into, work.keys, work.records, i, key);
      if key !in records {
        keys, records := keys + [key], records[key := work.records[key]];
      }
    }
  }

  // ---------------------------------------------------------------- the split over workers

  /** Where worker `i` starts: the first `remainder` workers take one header more. */
  function Offset(base: nat, remainder: nat, i: nat): nat {
    if i == 0 then 0 else Offset(base, remainder, i - 1) + base + if i - 1 < remainder then 1 else 0
  }

  lemma {:induction false} OffsetIs(base: nat, remainder: nat, i: nat)
    ensures Offset(base, remainder, i) == i * base + Min(i, remainder)
  {
    if i > 0 {
      OffsetIs(base, remainder, i - 1);
      assert (i - 1) * base + base == i * base;
    }
  }

  lemma {:induction false} OffsetsGrow(base: nat, remainder: nat, i: nat, j: nat)
    requires i <= j
    ensures Offset(base, remainder, i) <= Offset(base, remainder, j)
  {
    if i < j {
      OffsetsGrow(base, remainder, i, j - 1);
    }
  }

  /** Contiguous batches that cover the headers, as many as workers; the first ones take what does not divide evenly. */
  method Split(headers: seq<Header>, concurrency: nat) returns (batches: seq<seq<Header>>)
    requires |headers| > 0 && concurrency > 0
    ensures |batches| == Min(concurrency, |headers|)
    ensures Flatten(batches, |batches|) == headers
    ensures forall i :: 0 <= i < |batches| ==>
              |headers| / |batches| <= |batches[i]| <= |headers| / |batches| + 1 && batches[i] != []
    ensures forall i :: 0 <= i < |batches| ==>
              |batches[i]| == |headers| / |batches| + if i < |headers| % |batches| then 1 else 0
  {
    var workers := Min(concurrency, |headers|);
    var base, remainder := |headers| / workers, |headers| % workers;
    SizesAddUp(|headers|, workers);
    batches := SplitInto(headers, workers, base, remainder);
  }

  lemma SizesAddUp(n: nat, workers: nat)
    requires 0 < workers <= n
    ensures Offset(n / workers, n % workers, workers) == n && n / workers >= 1
  {
    OffsetIs(n / workers, n % workers, workers);
    AtLeastOne(n, workers);
  }

  method SplitInto(headers: seq<Header>, workers: nat, base: nat, remainder: nat) returns (batches: seq<seq<Header>>)
    requires Offset(base, remainder, workers) == |headers|
    ensures |batches| == workers && Flatten(batches, |batches|) == headers
    ensures forall k :: 0 <= k < |batches| ==> |batches[k]| == base + if k < remainder then 1 else 0
  {
    batches := [];
    var offset := 0;
    var i := 0;
    while i < workers
      invariant i <= workers && |batches| == i && offset == Offset(base, remainder, i) <= |headers|
      invariant Flatten(batches, i) == headers[..offset]
      invariant forall k :: 0 <= k < i ==> |batches[k]| == base + if k < remainder then 1 else 0
    {
      var size := if i < remainder then base + 1 else base;
      OffsetsGrow(base, remainder, i + 1, workers);
      var batch := headers[offset..offset + size];
      TakeMore(headers, offset, size);
      FlattenAppend(batches, batch, i);
      batches := batches + [batch];
      offset := offset + size;
      i := i + 1;
    }
    assert headers[..offset] == headers;
  }

  lemma TakeMore(headers: seq<Header>, offset: nat, size: nat)
    requires offset + size <= |headers|
    ensures headers[..offset] + headers[offset..offset + size] == headers[..offset + size]
    ensures |headers[offset..offset + size]| == size
  {
  }

  lemma AtLeastOne(n: nat, workers: nat)
    requires 0 < workers <= n
    ensures n / workers >= 1
  {
  }

  lemma {:induction false} FlattenAppend<T>(batches: seq<seq<T>>, last: seq<T>, n: nat)
    requires n <= |batches|
    ensures Flatten(batches + [last], n) == Flatten(batches, n)
    ensures n == |batches| ==> Flatten(batches + [last], n + 1) == Flatten(batches, n) + last
  {
    if n > 0 {
      FlattenAppend(batches, last, n - 1);
      assert (batches + [last])[n - 1] == batches[n - 1];
    }
  }

  /** One run over a non-empty batch: the merged work is that of a single pass exactly when the workers together stay
      within the recovery cap. */
  method AssembleInParallel(headers: seq<Header>, concurrency: nat, cap: nat)
    returns (work: Work, batches: seq<seq<Header>>)
    requires |headers| > 0 && concurrency > 0
    ensures Flatten(batches, |batches|) == headers && |batches| == Min(concurrency, |headers|)
    ensures work == Build(headers, cap) <==> AttemptsOfAll(batches, cap, |batches|) <= cap
  {
    batches := Split(headers, concurrency);
    var works: seq<Work> := [];
    var i := 0;
    while i < |batches|
      invariant i <= |batches| && works == Works(batches, cap)[..i]
    {
      var w := BuildAssembleWork(batches[i], cap);
      assert Works(batches, cap)[..i + 1] == Works(batches, cap)[..i] + [w];
      works := works + [w];
      i := i + 1;
    }
    assert works == Works(batches, cap);
    ParallelIsSerial(batches, cap);
    work := MergeAssembleWorks(works);
  }

  // ---------------------------------------------------------------- persisting

  datatype Stored = Stored(parts: seq<(int, Part)>) | UpsertFailed | WrongIdCount | MissingBinaryId(key: Key)

  predicate PartsHaveKeys(w: Work) {
    forall i :: 0 <= i < |w.parts| ==> w.parts[i].key in w.keys
  }

  /** `id` is what the store returned for the record of `key`. */
  predicate IdOf(order: seq<Key>, ids: seq<int>, key: Key, id: int)
    requires |ids| == |order|
  {
    exists i :: 0 <= i < |order| && order[i] == key && ids[i] == id
  }

  function CacheKey(k: Key): string {
    CacheKeys.CacheKey(k.provider, k.newsgroup, k.binaryKey)
  }

  /** The order of `sort.Strings` on the cache keys. */
  predicate KeyAtMost(a: Key, b: Key) {
    CacheKeys.AtMost(CacheKey(a), CacheKey(b))
  }

  /** Two keys have one cache key exactly when they are the same. */
  lemma CacheKeyDecides(a: Key, b: Key)
    ensures CacheKey(a) == CacheKey(b) <==> a == b
    ensures KeyAtMost(a, b) && KeyAtMost(b, a) ==> a == b
  {
    CacheKeys.CacheKeyIsInjective(a.provider, a.newsgroup, a.binaryKey, b.provider, b.newsgroup, b.binaryKey);
    CacheKeys.AtMostIsTotal(CacheKey(a), CacheKey(b));
  }

  lemma KeyOrderIsTotal()
    ensures Total(KeyAtMost)
  {
    forall a, b ensures KeyAtMost(a, b) || KeyAtMost(b, a) {
      CacheKeys.AtMostIsTotal(CacheKey(a), CacheKey(b));
    }
    forall a, b, c | KeyAtMost(a, b) && KeyAtMost(b, c) ensures KeyAtMost(a, c) {
      CacheKeys.AtMostIsTransitive(CacheKey(a), CacheKey(b), CacheKey(c));
    }
  }

  /** Whatever the workers and the merge did to the order of the keys, the records are upserted in one and the same. */
  lemma KeysHaveOneOrder(a: seq<Key>, b: seq<Key>)
    requires Ordered(a, KeyAtMost) && Ordered(b, KeyAtMost) && multiset(a) == multiset(b)
    ensures a == b
  {
    KeyOrderIsTotal();
    forall x, y | KeyAtMost(x, y) && KeyAtMost(y, x) ensures x == y {
      CacheKeyDecides(x, y);
    }
    OneOrder(a, b, KeyAtMost);
  }

  /** By binary id, then part number, then article header id. */
  predicate PartAtMost(a: (int, Part), b: (int, Part)) {
    a.0 < b.0
    || (a.0 == b.0
        && (a.1.partNumber < b.1.partNumber || (a.1.partNumber == b.1.partNumber && a.1.header <= b.1.header)))
  }

  /** `returned` is what the store answers to the upsert, ids or an error; it is not asked when there is no record.
      Records upserted in the order of their cache keys, every part tied to the id of its own record, and the tied
      parts handed on in the order of ids, part numbers and headers; the missing-id error comes only when a part's key
      has no record. */
  method PersistAssembleWork(work: Work, returned: Option<seq<int>>)
    returns (r: Stored, order: seq<Key>, upserted: seq<Record>, ids: seq<int>, tied: seq<(int, Part)>)
    requires Coherent(work)
    ensures multiset(order) == multiset(work.keys) && Ordered(order, KeyAtMost)
    ensures |upserted| == |order| && forall i :: 0 <= i < |order| ==>
              order[i] in work.records && upserted[i] == work.records[order[i]]
    ensures r.UpsertFailed? <==> work.keys != [] && returned.None?
    ensures r.WrongIdCount? <==> work.keys != [] && returned.Some? && |returned.value| != |work.keys|
    ensures r.Stored? ==> ids == if work.keys == [] then [] else returned.value
    ensures r.Stored? ==> |ids| == |order| && |tied| == |work.parts|
    ensures r.Stored? ==> forall j :: 0 <= j < |work.parts| ==>
              tied[j].1 == work.parts[j] && IdOf(order, ids, work.parts[j].key, tied[j].0)
    ensures r.Stored? ==> multiset(r.parts) == multiset(tied) && Ordered(r.parts, PartAtMost)
    ensures r.Stored? ==> forall i, j :: 0 <= i < j < |r.parts| ==>
              var (id, p), (id', q) := r.parts[i], r.parts[j];
              id < id' || (id == id' && (p.partNumber < q.partNumber
                                         || (p.partNumber == q.partNumber && p.header <= q.header)))
    ensures r.MissingBinaryId? ==> !PartsHaveKeys(work)
    ensures r.Stored? ==> PartsHaveKeys(work)
  {
    order := SortKeys(work.keys);
    assert |order| == |multiset(order)| == |multiset(work.keys)| == |work.keys|;
    upserted := RecordsOf(work, order);
    ids, tied := [], [];
    if |order| > 0 {
      if returned.None? {
        return UpsertFailed, order, upserted, ids, tied;
      }
      ids := returned.value;
      if |ids| != |order| {
        return WrongIdCount, order, upserted, ids, tied;
      }
    }
    var missing;
    missing, tied := TieParts(work, order, ids);
    if missing.Some? {
      return MissingBinaryId(missing.value), order, upserted, ids, tied;
    }
    var parts := SortParts(tied);
    return Stored(parts), order, upserted, ids, tied;
  }

  lemma HasRecord(work: Work, order: seq<Key>, i: nat)
    requires Coherent(work) && multiset(order) == multiset(work.keys) && i < |order|
    ensures order[i] in work.records
  {
    assert order[i] in multiset(work.keys);
    var k :| 0 <= k < |work.keys| && work.keys[k] == order[i];
  }

  /** The loop over the keys: the records in the same order. */
  method RecordsOf(work: Work, order: seq<Key>) returns (records: seq<Record>)
    requires Coherent(work) && multiset(order) == multiset(work.keys)
    ensures |records| == |order| && forall i :: 0 <= i < |order| ==>
              order[i] in work.records && records[i] == work.records[order[i]]
  {
    records := [];
    for i := 0 to |order|
      invariant |records| == i
      invariant forall k :: 0 <= k < i ==> order[k] in work.records && records[k] == work.records[order[k]]
    {
      HasRecord(work, order, i);
      records := records + [work.records[order[i]]];
    }
  }

  /** `sort.Strings` on the cache keys. */
  method SortKeys(keys: seq<Key>) returns (order: seq<Key>)
    ensures multiset(order) == multiset(keys) && Ordered(order, KeyAtMost)
  {
    KeyOrderIsTotal();
    SortedIs(keys, KeyAtMost);
    order := Sorted(keys, KeyAtMost);
  }

  /** `sort.Slice` on the part records. */
  method SortParts(tied: seq<(int, Part)>) returns (parts: seq<(int, Part)>)
    ensures multiset(parts) == multiset(tied) && Ordered(parts, PartAtMost)
  {
    SortedIs(tied, PartAtMost);
    parts := Sorted(tied, PartAtMost);
  }

  /** The loop over the parts: each gets the id of its key, up to the first whose key has none. */
  method TieParts(work: Work, order: seq<Key>, ids: seq<int>) returns (missing: Option<Key>, tied: seq<(int, Part)>)
    requires |ids| == |order| && multiset(order) == multiset(work.keys)
    ensures missing.None? <==> PartsHaveKeys(work)
    ensures missing.None? ==> |tied| == |work.parts| && forall j :: 0 <= j < |work.parts| ==>
              tied[j].1 == work.parts[j] && IdOf(order, ids, work.parts[j].key, tied[j].0)
  {
    var byKey := IdsByKey(order, ids);
    tied := [];
    for j := 0 to |work.parts|
      invariant |tied| == j
      invariant forall k :: 0 <= k < j ==> work.parts[k].key in work.keys
      invariant forall k :: 0 <= k < j ==>
                  tied[k].1 == work.parts[k] && IdOf(order, ids, work.parts[k].key, tied[k].0)
    {
      var key := work.parts[j].key;
      assert key in order <==> key in work.keys by {
        assert key in multiset(order) <==> key in multiset(work.keys);
      }
      if key !in byKey {
        return Some(key), tied;
      }
      tied := tied + [(byKey[key], work.parts[j])];
    }
    return None, tied;
  }

  method IdsByKey(order: seq<Key>, ids: seq<int>) returns (byKey: map<Key, int>)
    requires |ids| == |order|
    ensures forall k :: k in byKey <==> k in order
    ensures forall k | k in byKey :: IdOf(order, ids, k, byKey[k])
  {
    byKey := map[];
    for i := 0 to |order|
      invariant forall k :: k in byKey <==> k in order[..i]
      invariant forall k | k in byKey :: IdOf(order, ids, k, byKey[k])
    {
      assert IdOf(order, ids, order[i], ids[i]);
      assert order[..i + 1] == order[..i] + [order[i]];
      byKey := byKey[order[i] := ids[i]];
    }
    assert order[..|order|] == order;
  }

  lemma {:induction false} PartKeyIsKey(rs: seq<Resolved>, n: nat, i: nat)
    requires i < n <= |rs|
    ensures PartOf(rs[i]).key in Keys(rs, n)
  {
    if i < n - 1 {
      PartKeyIsKey(rs, n - 1, i);
    }
  }

  lemma {:induction false} KeysAreDistinct(rs: seq<Resolved>, n: nat)
    requires n <= |rs|
    ensures Distinct(Keys(rs, n))
  {
    if n > 0 {
      KeysAreDistinct(rs, n - 1);
      AddKeyDistinct(Keys(rs, n - 1), Matched(rs[n - 1]).record.key);
    }
  }

  predicate Distinct(keys: seq<Key>) {
    forall i, j :: 0 <= i < j < |keys| ==> keys[i] != keys[j]
  }

  lemma AddKeyDistinct(keys: seq<Key>, k: Key)
    requires Distinct(keys)
    ensures Distinct(AddKey(keys, k))
  {
  }

  /** What the workers' merge hands to `PersistAssembleWork` never runs into the missing-id error, and each key
      stands for one record. */
  lemma MissingIdIsUnreachable(batches: seq<seq<Header>>, cap: nat)
    ensures AllCoherent(Works(batches, cap))
    ensures var work := MergeAll(Works(batches, cap), |batches|);
            Coherent(work) && PartsHaveKeys(work) && Distinct(work.keys)
  {
    WorksAreCoherent(batches, cap);
    MergedWorks(batches, cap, |batches|);
    var rs := ResolveEach(batches, cap, |batches|);
    AllHaveRecords(rs, |rs|);
    KeysAreDistinct(rs, |rs|);
    forall i | 0 <= i < |rs| ensures Parts(rs)[i].key in Keys(rs, |rs|) {
      PartKeyIsKey(rs, |rs|, i);
    }
  }
}
