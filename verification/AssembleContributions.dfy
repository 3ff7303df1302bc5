/** What each header of a batch contributes to the work built from it, header by header and counter by counter. */
module AssembleContributions {
  import opened Common
  import opened AssembleBatch

  /** The numbers below `n` in a class. */
  ghost function Members(n: nat, kind: nat -> bool): set<nat> {
    set i: nat | i < n && kind(i)
  }

  lemma MembersGrow(n: nat, kind: nat -> bool)
    ensures |Members(n + 1, kind)| == |Members(n, kind)| + if kind(n) then 1 else 0
  {
    assert Members(n + 1, kind) == Members(n, kind) + if kind(n) then {n} else {};
  }

  // ---------------------------------------------------------------- the classes of headers

  /** Header `i` is not backed off and wants recovery. */
  function Asking(hs: seq<Header>): nat -> bool {
    (i: nat) => i < |hs| && !hs[i].backedOff && hs[i].wantsRecovery
  }

  /** It does, and fewer than `cap` headers before it do. */
  ghost predicate Served(hs: seq<Header>, cap: nat, i: nat) {
    Asking(hs)(i) && |Members(i, Asking(hs))| < cap
  }

  ghost function Attempted(hs: seq<Header>, cap: nat): nat -> bool {
    (i: nat) => Served(hs, cap, i)
  }

  ghost function Succeeded(hs: seq<Header>, cap: nat): nat -> bool {
    (i: nat) => i < |hs| && Served(hs, cap, i) && hs[i].recovers
  }

  ghost function CameToNothing(hs: seq<Header>, cap: nat): nat -> bool {
    (i: nat) => i < |hs| && Served(hs, cap, i) && !hs[i].recovers
  }

  ghost function NotFetched(hs: seq<Header>, cap: nat): nat -> bool {
    (i: nat) => i < |hs| && Served(hs, cap, i) && hs[i].fetchFails
  }

  ghost function OverCap(hs: seq<Header>, cap: nat): nat -> bool {
    (i: nat) => Asking(hs)(i) && !Served(hs, cap, i)
  }

  function BackedOff(hs: seq<Header>): nat -> bool {
    (i: nat) => i < |hs| && hs[i].backedOff
  }

  function HasIdentity(hs: seq<Header>): nat -> bool {
    (i: nat) => i < |hs| && hs[i].structured
  }

  // ---------------------------------------------------------------- recovery is attempted on those served

  lemma {:induction false} WantedAreAsking(hs: seq<Header>, n: nat)
    requires n <= |hs|
    ensures Wanted(hs, n) == |Members(n, Asking(hs))|
  {
    if n > 0 {
      WantedAreAsking(hs, n - 1);
      MembersGrow(n - 1, Asking(hs));
    } else {
      assert Members(0, Asking(hs)) == {};
    }
  }

  lemma {:induction false} ResolvedAt(hs: seq<Header>, cap: nat, n: nat, i: nat)
    requires i < n <= |hs|
    ensures Resolve(hs, cap, 0, n)[i] == Resolved(hs[i], Served(hs, cap, i))
  {
    if i < n - 1 {
      ResolvedAt(hs, cap, n - 1, i);
    } else {
      AttemptsCount(hs, cap, 0, i);
      WantedAreAsking(hs, i);
    }
  }

  /** The match that counts for header `i`. */
  ghost function Counted(hs: seq<Header>, cap: nat, i: nat): Match
    requires i < |hs|
  {
    if Served(hs, cap, i) && hs[i].recovers then hs[i].rematch else hs[i].subjectMatch
  }

  /** A part made from match `m` of a header. */
  predicate MadeFrom(p: Part, h: Header, m: Match) {
    && p.header == h.id && p.key == m.record.key
    && p.partNumber == m.partNumber && p.totalParts == m.totalParts && p.fileName == m.fileName
  }

  /** Every header gives one part, in order: that of its rematch when it is not backed off, wants recovery, recovers and
      comes before the cap is used up, and that of its subject match otherwise. */
  lemma PartOfEachHeader(hs: seq<Header>, cap: nat, i: nat)
    requires i < |hs|
    ensures var w := Build(hs, cap);
            && |w.parts| == |hs|
            && MadeFrom(w.parts[i], hs[i], Counted(hs, cap, i))
  {
    ResolvedAt(hs, cap, |hs|, i);
  }

  // ---------------------------------------------------------------- records and keys

  /** No header before `i` has the key of header `i`. */
  ghost predicate First(hs: seq<Header>, cap: nat, i: nat) {
    i < |hs| && forall j: nat :: j < i ==> Counted(hs, cap, j).record.key != Counted(hs, cap, i).record.key
  }

  ghost function Firsts(hs: seq<Header>, cap: nat): nat -> bool {
    (i: nat) => First(hs, cap, i)
  }

  lemma {:induction false} KeysOfPrefixes(hs: seq<Header>, cap: nat, n: nat)
    requires n <= |hs|
    ensures var keys := Keys(Resolve(hs, cap, 0, |hs|), n);
            && |keys| == |Members(n, Firsts(hs, cap))|
            && forall k :: k in keys <==> exists i: nat :: i < n && Counted(hs, cap, i).record.key == k
  {
    var rs := Resolve(hs, cap, 0, |hs|);
    if n == 0 {
      assert Members(0, Firsts(hs, cap)) == {};
    } else {
      KeysOfPrefixes(hs, cap, n - 1);
      ResolvedAt(hs, cap, |hs|, n - 1);
      MembersGrow(n - 1, Firsts(hs, cap));
      var key := Counted(hs, cap, n - 1).record.key;
      assert Matched(rs[n - 1]).record.key == key;
      forall k ensures k in Keys(rs, n) <==> exists i: nat :: i < n && Counted(hs, cap, i).record.key == k {
        if k == key {
          assert Counted(hs, cap, n - 1).record.key == k;
        }
      }
    }
  }

  /** A first header's key stands behind those of the first headers before it, and its record is the key's. */
  lemma {:induction false} FirstStays(hs: seq<Header>, cap: nat, n: nat, i: nat)
    requires i < n <= |hs| && First(hs, cap, i)
    ensures var rs, record := Resolve(hs, cap, 0, |hs|), Counted(hs, cap, i).record;
            && |Members(i, Firsts(hs, cap))| < |Keys(rs, n)|
            && Keys(rs, n)[|Members(i, Firsts(hs, cap))|] == record.key
            && record.key in Records(rs, n) && Records(rs, n)[record.key] == record
  {
    var rs := Resolve(hs, cap, 0, |hs|);
    ResolvedAt(hs, cap, |hs|, n - 1);
    if i < n - 1 {
      FirstStays(hs, cap, n - 1, i);
    } else {
      KeysOfPrefixes(hs, cap, i);
      KeyIffRecord(rs, i, Counted(hs, cap, i).record.key);
    }
  }

  /** The keys are those of the headers that are the first with theirs, in order and each once; the record kept for a
      key is that of this first header. */
  lemma RecordOfEachKey(hs: seq<Header>, cap: nat)
    ensures var w := Build(hs, cap);
            && |w.keys| == |Members(|hs|, Firsts(hs, cap))|
            && (forall k :: k in w.records <==> k in w.keys)
            && (forall k :: k in w.keys <==> exists i: nat :: i < |hs| && Counted(hs, cap, i).record.key == k)
    ensures forall i: nat :: First(hs, cap, i) ==>
              var w, at, record := Build(hs, cap), |Members(i, Firsts(hs, cap))|, Counted(hs, cap, i).record;
              at < |w.keys| && w.keys[at] == record.key && record.key in w.records && w.records[record.key] == record
  {
    var rs := Resolve(hs, cap, 0, |hs|);
    KeysOfPrefixes(hs, cap, |hs|);
    forall k ensures k in Records(rs, |hs|) <==> k in Keys(rs, |hs|) {
      KeyIffRecord(rs, |hs|, k);
    }
    forall i: nat | First(hs, cap, i)
      ensures var w, at, record := Build(hs, cap), |Members(i, Firsts(hs, cap))|, Counted(hs, cap, i).record;
              at < |w.keys| && w.keys[at] == record.key && record.key in w.records && w.records[record.key] == record
    {
      FirstStays(hs, cap, |hs|, i);
    }
  }

  // ---------------------------------------------------------------- counters

  /** The sizes of the recovery classes among the first `n` headers. */
  ghost function Sizes(hs: seq<Header>, cap: nat, n: nat): Recovery {
    Recovery(|Members(n, Attempted(hs, cap))|, |Members(n, Succeeded(hs, cap))|, |Members(n, CameToNothing(hs, cap))|,
             |Members(n, NotFetched(hs, cap))|, |Members(n, OverCap(hs, cap))|, |Members(n, BackedOff(hs))|)
  }

  ghost function ClassesOf(hs: seq<Header>, cap: nat, i: nat): Recovery {
    Recovery(if Attempted(hs, cap)(i) then 1 else 0, if Succeeded(hs, cap)(i) then 1 else 0,
             if CameToNothing(hs, cap)(i) then 1 else 0, if NotFetched(hs, cap)(i) then 1 else 0,
             if OverCap(hs, cap)(i) then 1 else 0, if BackedOff(hs)(i) then 1 else 0)
  }

  lemma SizesGrow(hs: seq<Header>, cap: nat, n: nat)
    ensures Sizes(hs, cap, n + 1) == Plus(Sizes(hs, cap, n), ClassesOf(hs, cap, n))
  {
    MembersGrow(n, Attempted(hs, cap));
    MembersGrow(n, Succeeded(hs, cap));
    MembersGrow(n, CameToNothing(hs, cap));
    MembersGrow(n, NotFetched(hs, cap));
    MembersGrow(n, OverCap(hs, cap));
    MembersGrow(n, BackedOff(hs));
  }

  lemma TallyIsItsClasses(hs: seq<Header>, cap: nat, i: nat)
    requires i < |hs|
    ensures Tally(Resolved(hs[i], Served(hs, cap, i))) == ClassesOf(hs, cap, i)
  {
  }

  lemma NoSizes(hs: seq<Header>, cap: nat)
    ensures Sizes(hs, cap, 0) == Recovery(0, 0, 0, 0, 0, 0)
  {
    NoMembers(Attempted(hs, cap));
    NoMembers(Succeeded(hs, cap));
    NoMembers(CameToNothing(hs, cap));
    NoMembers(NotFetched(hs, cap));
    NoMembers(OverCap(hs, cap));
    NoMembers(BackedOff(hs));
  }

  /** From `i` headers to one more the sizes grow by what header `i` is tallied as. */
  ghost predicate GrowsBy(rs: seq<Resolved>, sizes: nat -> Recovery, i: nat)
    requires i < |rs|
  {
    sizes(i + 1) == Plus(sizes(i), Tally(rs[i]))
  }

  lemma {:induction false} TalliesAre(rs: seq<Resolved>, sizes: nat -> Recovery, n: nat)
    requires n <= |rs| && sizes(0) == Recovery(0, 0, 0, 0, 0, 0)
    requires forall i: nat :: i < |rs| ==> GrowsBy(rs, sizes, i)
    ensures Tallies(rs, n) == sizes(n)
  {
    if n > 0 {
      TalliesAre(rs, sizes, n - 1);
      assert GrowsBy(rs, sizes, n - 1);
    }
  }

  ghost function SizesFor(hs: seq<Header>, cap: nat): nat -> Recovery {
    (n: nat) => Sizes(hs, cap, n)
  }

  lemma HeaderGrowsSizes(hs: seq<Header>, cap: nat, i: nat)
    requires i < |hs|
    ensures GrowsBy(Resolve(hs, cap, 0, |hs|), SizesFor(hs, cap), i)
  {
    ResolvedAt(hs, cap, |hs|, i);
    TallyIsItsClasses(hs, cap, i);
    SizesGrow(hs, cap, i);
    Applied(hs, cap, i);
    Applied(hs, cap, i + 1);
  }

  lemma Applied(hs: seq<Header>, cap: nat, n: nat)
    ensures SizesFor(hs, cap)(n) == Sizes(hs, cap, n)
  {
  }

  lemma TalliesAreSizes(hs: seq<Header>, cap: nat)
    ensures Tallies(Resolve(hs, cap, 0, |hs|), |hs|) == Sizes(hs, cap, |hs|)
  {
    var rs, sizes := Resolve(hs, cap, 0, |hs|), SizesFor(hs, cap);
    NoSizes(hs, cap);
    Applied(hs, cap, 0);
    forall i: nat | i < |rs| ensures GrowsBy(rs, sizes, i) {
      HeaderGrowsSizes(hs, cap, i);
    }
    TalliesAre(rs, sizes, |hs|);
    Applied(hs, cap, |hs|);
  }

  lemma NoMembers(kind: nat -> bool)
    ensures |Members(0, kind)| == 0
  {
    assert Members(0, kind) == {};
  }

  lemma {:induction false} StructuredOfPrefix(hs: seq<Header>, cap: nat, n: nat)
    requires n <= |hs|
    ensures Structured(Resolve(hs, cap, 0, |hs|), n) == |Members(n, HasIdentity(hs))|
  {
    if n == 0 {
      NoMembers(HasIdentity(hs));
    } else {
      StructuredOfPrefix(hs, cap, n - 1);
      ResolvedAt(hs, cap, |hs|, n - 1);
      MembersGrow(n - 1, HasIdentity(hs));
    }
  }

  /** Every counter is the number of headers in its class; the two lanes divide the headers. */
  lemma CountersOfWork(hs: seq<Header>, cap: nat)
    ensures var w, n := Build(hs, cap), |hs|;
            && w.recovery.attempts == |Members(n, Attempted(hs, cap))|
            && w.recovery.successes == |Members(n, Succeeded(hs, cap))|
            && w.recovery.noops == |Members(n, CameToNothing(hs, cap))|
            && w.recovery.fetchFailures == |Members(n, NotFetched(hs, cap))|
            && w.recovery.skippedByCap == |Members(n, OverCap(hs, cap))|
            && w.recovery.skippedByBackoff == |Members(n, BackedOff(hs))|
            && w.laneA == |Members(n, HasIdentity(hs))| && w.laneA + w.laneB == n
  {
    TalliesAreSizes(hs, cap);
    StructuredOfPrefix(hs, cap, |hs|);
  }
}
