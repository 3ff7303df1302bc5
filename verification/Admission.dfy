/** Admission to the providers: taking and giving back a slot, and the order in which providers are tried. */
module Admission {
  import opened Common
  import opened ProviderSlots
  import F = Failover

  const HEADROOM_PERCENT := 5

  /** The providers in priority order, with the capacity of each semaphore, and the manager's options. */
  datatype Setup = Setup(providers: seq<F.Provider>, priorities: seq<int>, caps: seq<nat>, options: Options)

  predicate WithinCaps(c: Setup, s: Slots) {
    && |c.providers| == |c.priorities| == |c.caps| == |s.used|
    && forall p :: 0 <= p < |c.caps| ==> 0 < c.caps[p] && s.used[p] <= c.caps[p]
  }

  predicate Known(c: Setup, list: seq<nat>) {
    forall i :: 0 <= i < |list| ==> list[i] < |c.providers|
  }

  // ---------------------------------------------------------------- utilisation and headroom

  function Utilization(c: Setup, s: Slots, p: nat): nat
    requires WithinCaps(c, s) && p < |c.providers|
  {
    s.used[p] * 10000 / c.caps[p]
  }

  predicate HasRoom(c: Setup, s: Slots, p: nat)
    requires WithinCaps(c, s) && p < |c.providers|
  {
    s.used[p] < c.caps[p]
  }

  predicate AtHeadroom(c: Setup, s: Slots, p: nat)
    requires WithinCaps(c, s) && p < |c.providers|
  {
    s.used[p] * 100 >= c.caps[p] * (100 - HEADROOM_PERCENT)
  }

  /** Utilisation is the occupied part of the semaphore in hundredths of a percent, rounded down. */
  lemma UtilizationBounds(c: Setup, s: Slots, p: nat)
    requires WithinCaps(c, s) && p < |c.providers|
    ensures Utilization(c, s, p) * c.caps[p] <= s.used[p] * 10000 < (Utilization(c, s, p) + 1) * c.caps[p]
  {
  }

  /** A provider with the smaller part of its slots occupied is never the more utilised one. */
  lemma UtilizationIsMonotone(c: Setup, s: Slots, p: nat, q: nat)
    requires WithinCaps(c, s) && p < |c.providers| && q < |c.providers|
    requires s.used[p] * c.caps[q] <= s.used[q] * c.caps[p]
    ensures Utilization(c, s, p) <= Utilization(c, s, q)
  {
    UtilizationBounds(c, s, p);
    UtilizationBounds(c, s, q);
    RatioOrder(s.used[p], c.caps[p], Utilization(c, s, p), s.used[q], c.caps[q], Utilization(c, s, q));
  }

  lemma RatioOrder(a: nat, b: nat, u: nat, x: nat, y: nat, v: nat)
    requires b > 0 && y > 0 && a * y <= x * b
    requires u * b <= a * 10000 && x * 10000 < (v + 1) * y
    ensures u <= v
  {
  }

  lemma MulAtMost(a: int, b: int, k: nat)
    requires a <= b
    ensures a * k <= b * k
  {
  }

  function EligibleCount(c: Setup, scope: string, list: seq<nat>, n: nat): nat
    requires Known(c, list) && n <= |list|
  {
    if n == 0 then 0
    else EligibleCount(c, scope, list, n - 1) + if F.Allows(c.providers[list[n - 1]], scope) then 1 else 0
  }

  /** Another eligible provider has room. */
  predicate HasIdlePeer(c: Setup, s: Slots, scope: string, list: seq<nat>, p: nat)
    requires WithinCaps(c, s) && Known(c, list)
  {
    exists q :: q in list && q < |c.providers| && q != p && F.Allows(c.providers[q], scope) && HasRoom(c, s, q)
  }

  /** Tried last: nearly full while a peer could serve. */
  predicate Deferred(c: Setup, s: Slots, scope: string, list: seq<nat>, p: nat)
    requires WithinCaps(c, s) && Known(c, list) && p < |c.providers|
  {
    F.Allows(c.providers[p], scope) && AtHeadroom(c, s, p) && HasIdlePeer(c, s, scope, list, p)
  }

  // ---------------------------------------------------------------- the order of attempts

  function Flags(c: Setup, s: Slots, scope: string, list: seq<nat>): (r: seq<bool>)
    requires WithinCaps(c, s) && Known(c, list)
    ensures |r| == |list|
  {
    seq(|list|, i requires 0 <= i < |list| => Deferred(c, s, scope, list, list[i]))
  }

  /** The entries among the first `n` whose flag is `flag`, in order. */
  function Select(list: seq<nat>, flags: seq<bool>, n: nat, flag: bool): seq<nat>
    requires n <= |list| == |flags|
  {
    if n == 0 then []
    else
      var before := Select(list, flags, n - 1, flag);
      if flags[n - 1] == flag then before + [list[n - 1]] else before
  }

  predicate Less(c: Setup, s: Slots, p: nat, q: nat)
    requires WithinCaps(c, s) && p < |c.providers| && q < |c.providers|
  {
    var u, v := Utilization(c, s, p), Utilization(c, s, q);
    if u != v then u < v else c.priorities[p] < c.priorities[q]
  }

  /** The stable sort by utilisation, then priority. */
  function StableSort(c: Setup, s: Slots, list: seq<nat>): (r: seq<nat>)
    requires WithinCaps(c, s) && Known(c, list)
    ensures Known(c, r)
  {
    if list == [] then [] else InsertBefore(c, s, list[0], StableSort(c, s, list[1..]))
  }

  function InsertBefore(c: Setup, s: Slots, p: nat, sorted: seq<nat>): (r: seq<nat>)
    requires WithinCaps(c, s) && p < |c.providers| && Known(c, sorted)
    ensures Known(c, r)
  {
    if sorted == [] || !Less(c, s, sorted[0], p) then [p] + sorted
    else [sorted[0]] + InsertBefore(c, s, p, sorted[1..])
  }

  /** `providerAcquireOrder`. */
  function AcquireOrder(c: Setup, s: Slots, scope: string, list: seq<nat>): seq<nat>
    requires WithinCaps(c, s) && Known(c, list)
  {
    if |list| < 2 || EligibleCount(c, scope, list, |list|) < 2 then list
    else if scope == "recover_yenc" then StableSort(c, s, list)
    else
      var flags := Flags(c, s, scope, list);
      Select(list, flags, |list|, false) + Select(list, flags, |list|, true)
  }

  lemma {:induction false} SelectSplits(list: seq<nat>, flags: seq<bool>, n: nat)
    requires n <= |list| == |flags|
    ensures multiset(Select(list, flags, n, false)) + multiset(Select(list, flags, n, true)) == multiset(list[..n])
  {
    if n > 0 {
      SelectSplits(list, flags, n - 1);
      var x, front, tail := list[n - 1], Select(list, flags, n - 1, false), Select(list, flags, n - 1, true);
      PushCounts(front, tail, x, list[..n - 1], list[..n]);
      SelectStep(list, flags, n, false);
      SelectStep(list, flags, n, true);
    }
  }

  lemma SelectStep(list: seq<nat>, flags: seq<bool>, n: nat, flag: bool)
    requires 0 < n <= |list| == |flags|
    ensures Select(list, flags, n, flag)
            == Select(list, flags, n - 1, flag) + if flags[n - 1] == flag then [list[n - 1]] else []
  {
  }

  lemma PushCounts(a: seq<nat>, b: seq<nat>, x: nat, before: seq<nat>, after: seq<nat>)
    requires multiset(a) + multiset(b) == multiset(before) && after == before + [x]
    ensures multiset(a + [x]) + multiset(b) == multiset(after)
    ensures multiset(a) + multiset(b + [x]) == multiset(after)
  {
  }

  lemma {:induction false} SelectedAre(list: seq<nat>, flags: seq<bool>, n: nat, flag: bool, k: nat)
    requires n <= |list| == |flags| && k < |Select(list, flags, n, flag)|
    ensures exists i :: 0 <= i < n && list[i] == Select(list, flags, n, flag)[k] && flags[i] == flag
  {
    if k < |Select(list, flags, n - 1, flag)| {
      SelectedAre(list, flags, n - 1, flag, k);
    }
  }

  lemma {:induction false} NoneDeferred(list: seq<nat>, flags: seq<bool>, n: nat)
    requires n <= |list| == |flags| && Select(list, flags, n, true) == []
    ensures Select(list, flags, n, false) == list[..n]
  {
    if n > 0 {
      NoneDeferred(list, flags, n - 1);
      assert list[..n] == list[..n - 1] + [list[n - 1]];
    }
  }

  predicate Ordered(c: Setup, s: Slots, list: seq<nat>)
    requires WithinCaps(c, s) && Known(c, list)
  {
    forall i, j :: 0 <= i < j < |list| ==> !Less(c, s, list[j], list[i])
  }

  lemma LessThrough(c: Setup, s: Slots, p: nat, q: nat, r: nat)
    requires WithinCaps(c, s) && p < |c.providers| && q < |c.providers| && r < |c.providers|
    requires Less(c, s, q, r) && !Less(c, s, q, p)
    ensures Less(c, s, p, r)
  {
  }

  lemma {:induction false} InsertCounts(c: Setup, s: Slots, p: nat, sorted: seq<nat>)
    requires WithinCaps(c, s) && p < |c.providers| && Known(c, sorted)
    ensures multiset(InsertBefore(c, s, p, sorted)) == multiset(sorted) + multiset{p}
  {
    if sorted != [] && Less(c, s, sorted[0], p) {
      InsertCounts(c, s, p, sorted[1..]);
      assert sorted == [sorted[0]] + sorted[1..];
    }
  }

  lemma {:induction false} InsertOrders(c: Setup, s: Slots, p: nat, sorted: seq<nat>)
    requires WithinCaps(c, s) && p < |c.providers| && Known(c, sorted) && Ordered(c, s, sorted)
    ensures Ordered(c, s, InsertBefore(c, s, p, sorted))
  {
    if sorted == [] {
    } else if Less(c, s, sorted[0], p) {
      InsertOrders(c, s, p, sorted[1..]);
      var rest := InsertBefore(c, s, p, sorted[1..]);
      forall j | 0 <= j < |rest| ensures !Less(c, s, rest[j], sorted[0]) {
        InsertCounts(c, s, p, sorted[1..]);
        assert rest[j] in multiset(rest);
        assert rest[j] == p || rest[j] in sorted[1..];
      }
    } else {
      forall j | 0 <= j < |sorted| ensures !Less(c, s, sorted[j], p) {
        if Less(c, s, sorted[j], p) {
          LessThrough(c, s, sorted[0], sorted[j], p);
        }
      }
    }
  }

  lemma {:induction false} SortOrders(c: Setup, s: Slots, list: seq<nat>)
    requires WithinCaps(c, s) && Known(c, list)
    ensures Ordered(c, s, StableSort(c, s, list)) && multiset(StableSort(c, s, list)) == multiset(list)
  {
    if list != [] {
      SortOrders(c, s, list[1..]);
      InsertOrders(c, s, list[0], StableSort(c, s, list[1..]));
      InsertCounts(c, s, list[0], StableSort(c, s, list[1..]));
      assert list == [list[0]] + list[1..];
    }
  }

  /** Tried last is an eligible provider with at least 95 of every 100 slots occupied, while another eligible provider
      of the list has a free one. */
  lemma DeferredExactly(c: Setup, s: Slots, scope: string, list: seq<nat>, p: nat)
    requires WithinCaps(c, s) && Known(c, list) && p < |c.providers|
    ensures Deferred(c, s, scope, list, p)
            <==> && F.Allows(c.providers[p], scope)
                 && 100 * s.used[p] >= 95 * c.caps[p]
                 && exists i :: 0 <= i < |list| && list[i] != p && F.Allows(c.providers[list[i]], scope)
                                && s.used[list[i]] < c.caps[list[i]]
  {
    if HasIdlePeer(c, s, scope, list, p) {
      var q :| q in list && q < |c.providers| && q != p && F.Allows(c.providers[q], scope) && HasRoom(c, s, q);
      var i :| 0 <= i < |list| && list[i] == q;
    }
  }

  function Count(flags: seq<bool>, n: nat, flag: bool): nat
    requires n <= |flags|
  {
    if n == 0 then 0 else Count(flags, n - 1, flag) + if flags[n - 1] == flag then 1 else 0
  }

  lemma {:induction false} SelectAt(list: seq<nat>, flags: seq<bool>, n: nat, flag: bool, i: nat)
    requires n <= |list| == |flags|
    ensures |Select(list, flags, n, flag)| == Count(flags, n, flag)
    ensures i < n && flags[i] == flag ==>
              Count(flags, i, flag) < Count(flags, n, flag)
              && Select(list, flags, n, flag)[Count(flags, i, flag)] == list[i]
  {
    if n > 0 {
      SelectAt(list, flags, n - 1, flag, i);
    }
  }

  /** Where entry `i` goes: a flagged one behind all that are not flagged and the flagged ones listed before it, any
      other behind those listed before it that are not flagged. */
  function PlaceOf(flags: seq<bool>, i: nat): nat
    requires i < |flags|
  {
    if flags[i] then Count(flags, |flags|, false) + Count(flags, i, true) else Count(flags, i, false)
  }

  lemma PlaceInSelects(list: seq<nat>, flags: seq<bool>, i: nat)
    requires i < |list| == |flags|
    ensures var order := Select(list, flags, |list|, false) + Select(list, flags, |list|, true);
            PlaceOf(flags, i) < |order| && order[PlaceOf(flags, i)] == list[i]
  {
    SelectAt(list, flags, |list|, false, i);
    SelectAt(list, flags, |list|, true, i);
  }

  /** The place of each listed provider in the order for other work than recovery. */
  lemma PlaceInOrder(c: Setup, s: Slots, scope: string, list: seq<nat>, i: nat)
    requires WithinCaps(c, s) && Known(c, list) && EligibleCount(c, scope, list, |list|) >= 2
    requires scope != "recover_yenc" && i < |list|
    ensures var order, k := AcquireOrder(c, s, scope, list), PlaceOf(Flags(c, s, scope, list), i);
            k < |order| && order[k] == list[i]
  {
    CountsAtMost(c, scope, list, |list|);
    PlaceInSelects(list, Flags(c, s, scope, list), i);
  }

  predicate MayServe(c: Setup, scope: string, list: seq<nat>, i: nat)
    requires Known(c, list)
  {
    i < |list| && F.Allows(c.providers[list[i]], scope)
  }

  lemma {:induction false} OneIsCounted(c: Setup, scope: string, list: seq<nat>, n: nat)
    requires Known(c, list) && n <= |list|
    ensures EligibleCount(c, scope, list, n) >= 1 <==> exists i: nat :: i < n && MayServe(c, scope, list, i)
  {
    if n > 0 {
      OneIsCounted(c, scope, list, n - 1);
      assert MayServe(c, scope, list, n - 1) <==> F.Allows(c.providers[list[n - 1]], scope);
    }
  }

  lemma {:induction false} TwoAreServing(c: Setup, scope: string, list: seq<nat>, n: nat) returns (i: nat, j: nat)
    requires Known(c, list) && n <= |list| && EligibleCount(c, scope, list, n) >= 2
    ensures i < j < n && MayServe(c, scope, list, i) && MayServe(c, scope, list, j)
  {
    if EligibleCount(c, scope, list, n - 1) >= 2 {
      i, j := TwoAreServing(c, scope, list, n - 1);
    } else {
      OneIsCounted(c, scope, list, n - 1);
      i :| i < n - 1 && MayServe(c, scope, list, i);
      j := n - 1;
    }
  }

  lemma {:induction false} TwoAreCounted(c: Setup, scope: string, list: seq<nat>, n: nat, i: nat, j: nat)
    requires Known(c, list) && i < j < n <= |list| && MayServe(c, scope, list, i) && MayServe(c, scope, list, j)
    ensures EligibleCount(c, scope, list, n) >= 2
  {
    if j < n - 1 {
      TwoAreCounted(c, scope, list, n - 1, i, j);
    } else {
      OneIsCounted(c, scope, list, n - 1);
    }
  }

  /** Two are counted exactly when two places of the list hold providers that may serve the scope. */
  lemma EligibleAreCounted(c: Setup, scope: string, list: seq<nat>)
    requires Known(c, list)
    ensures EligibleCount(c, scope, list, |list|) >= 2
            <==> exists i: nat, j: nat :: i < j && MayServe(c, scope, list, i) && MayServe(c, scope, list, j)
  {
    if EligibleCount(c, scope, list, |list|) >= 2 {
      var i, j := TwoAreServing(c, scope, list, |list|);
    }
    if i: nat, j: nat :| i < j && MayServe(c, scope, list, i) && MayServe(c, scope, list, j) {
      TwoAreCounted(c, scope, list, |list|, i, j);
    }
  }

  /** Unless two of the list may serve the scope, it is tried as it is. */
  lemma LoneCandidateKeepsOrder(c: Setup, s: Slots, scope: string, list: seq<nat>)
    requires WithinCaps(c, s) && Known(c, list)
    requires forall i: nat, j: nat :: i < j && MayServe(c, scope, list, i) ==> !MayServe(c, scope, list, j)
    ensures AcquireOrder(c, s, scope, list) == list
  {
    EligibleAreCounted(c, scope, list);
  }

  predicate Tie(c: Setup, s: Slots, p: nat, q: nat)
    requires WithinCaps(c, s) && p < |c.providers| && q < |c.providers|
  {
    Utilization(c, s, p) == Utilization(c, s, q) && c.priorities[p] == c.priorities[q]
  }

  /** The entries of the list on a par with provider `p`, in order. */
  function TiesOf(c: Setup, s: Slots, list: seq<nat>, p: nat): seq<nat>
    requires WithinCaps(c, s) && p < |c.providers| && Known(c, list)
  {
    if list == [] then []
    else (if Tie(c, s, list[0], p) then [list[0]] else []) + TiesOf(c, s, list[1..], p)
  }

  lemma {:induction false} InsertKeepsTies(c: Setup, s: Slots, q: nat, sorted: seq<nat>, p: nat)
    requires WithinCaps(c, s) && p < |c.providers| && q < |c.providers| && Known(c, sorted)
    ensures TiesOf(c, s, InsertBefore(c, s, q, sorted), p) == TiesOf(c, s, [q] + sorted, p)
  {
    assert ([q] + sorted)[1..] == sorted;
    if sorted != [] && Less(c, s, sorted[0], q) {
      var rest := sorted[1..];
      InsertKeepsTies(c, s, q, rest, p);
      assert ([q] + rest)[1..] == rest;
      assert ([sorted[0]] + InsertBefore(c, s, q, rest))[1..] == InsertBefore(c, s, q, rest);
    }
  }

  /** The recovery order keeps the listed order of providers with the same utilisation and priority. */
  lemma {:induction false} SortIsStable(c: Setup, s: Slots, list: seq<nat>, p: nat)
    requires WithinCaps(c, s) && p < |c.providers| && Known(c, list)
    ensures TiesOf(c, s, StableSort(c, s, list), p) == TiesOf(c, s, list, p)
  {
    if list != [] {
      var sorted := StableSort(c, s, list[1..]);
      SortIsStable(c, s, list[1..], p);
      InsertKeepsTies(c, s, list[0], sorted, p);
      assert ([list[0]] + sorted)[1..] == sorted;
    }
  }

  /** `u` is the occupied part of the provider's slots in hundredths of a percent, rounded down. */
  predicate Occupied(c: Setup, s: Slots, p: nat, u: nat)
    requires WithinCaps(c, s) && p < |c.providers|
  {
    u * c.caps[p] <= s.used[p] * 10000 < (u + 1) * c.caps[p]
  }

  lemma OccupiedIsUtilization(c: Setup, s: Slots, p: nat, u: nat)
    requires WithinCaps(c, s) && p < |c.providers| && Occupied(c, s, p, u)
    ensures u == Utilization(c, s, p)
  {
    UtilizationBounds(c, s, p);
    FloorIsUnique(s.used[p] * 10000, c.caps[p], u, Utilization(c, s, p));
  }

  lemma FloorIsUnique(x: nat, y: nat, u: nat, v: nat)
    requires y > 0 && u * y <= x < (u + 1) * y && v * y <= x < (v + 1) * y
    ensures u == v
  {
    if u < v {
      MulAtMost(u + 1, v, y);
    } else if v < u {
      MulAtMost(v + 1, u, y);
    }
  }

  /** For recovery the less occupied provider comes first, and of equally occupied ones that of the smaller priority
      number. */
  lemma RecoveryOrder(c: Setup, s: Slots, list: seq<nat>, i: nat, j: nat, u: nat, v: nat)
    requires WithinCaps(c, s) && Known(c, list) && EligibleCount(c, "recover_yenc", list, |list|) >= 2
    requires i < j < |AcquireOrder(c, s, "recover_yenc", list)|
    requires Known(c, AcquireOrder(c, s, "recover_yenc", list))
    requires var order := AcquireOrder(c, s, "recover_yenc", list);
             Occupied(c, s, order[i], u) && Occupied(c, s, order[j], v)
    ensures var order := AcquireOrder(c, s, "recover_yenc", list);
            u < v || (u == v && c.priorities[order[i]] <= c.priorities[order[j]])
  {
    var order := AcquireOrder(c, s, "recover_yenc", list);
    OccupiedIsUtilization(c, s, order[i], u);
    OccupiedIsUtilization(c, s, order[j], v);
    LaterIsNoBetter(c, s, "recover_yenc", list, i, j);
  }

  /** No provider is dropped or tried twice. */
  lemma OrderIsPermutation(c: Setup, s: Slots, scope: string, list: seq<nat>)
    requires WithinCaps(c, s) && Known(c, list)
    ensures multiset(AcquireOrder(c, s, scope, list)) == multiset(list)
    ensures Known(c, AcquireOrder(c, s, scope, list))
  {
    SortOrders(c, s, list);
    SelectSplits(list, Flags(c, s, scope, list), |list|);
    assert list[..|list|] == list;
    PermutedIsKnown(c, AcquireOrder(c, s, scope, list), list);
  }

  lemma PermutedIsKnown(c: Setup, order: seq<nat>, list: seq<nat>)
    requires Known(c, list) && multiset(order) == multiset(list)
    ensures Known(c, order)
  {
    SamePlaces(order, list);
  }

  /** The first provider of the order with a free slot. */
  function FirstRoom(c: Setup, s: Slots, order: seq<nat>): Option<nat>
    requires WithinCaps(c, s) && Known(c, order)
  {
    if order == [] then None
    else if HasRoom(c, s, order[0]) then Some(order[0])
    else FirstRoom(c, s, order[1..])
  }

  lemma {:induction false} FirstRoomIsFirst(c: Setup, s: Slots, order: seq<nat>)
    requires WithinCaps(c, s) && Known(c, order)
    ensures FirstRoom(c, s, order).None? <==> forall i :: 0 <= i < |order| ==> !HasRoom(c, s, order[i])
    ensures FirstRoom(c, s, order).Some? ==> exists i :: IsFirstRoom(c, s, order, i, FirstRoom(c, s, order).value)
  {
    if order != [] {
      FirstRoomIsFirst(c, s, order[1..]);
      if HasRoom(c, s, order[0]) {
        assert IsFirstRoom(c, s, order, 0, order[0]);
      } else if FirstRoom(c, s, order[1..]).Some? {
        var i :| IsFirstRoom(c, s, order[1..], i, FirstRoom(c, s, order[1..]).value);
        assert IsFirstRoom(c, s, order, i + 1, FirstRoom(c, s, order).value);
      }
    }
  }

  predicate IsFirstRoom(c: Setup, s: Slots, order: seq<nat>, i: int, p: nat)
    requires WithinCaps(c, s) && Known(c, order)
  {
    0 <= i < |order| && order[i] == p && HasRoom(c, s, p) && forall k :: 0 <= k < i ==> !HasRoom(c, s, order[k])
  }

  /** A round of waiting finds a slot exactly when some listed provider has one. */
  lemma GrantFindsRoom(c: Setup, s: Slots, scope: string, list: seq<nat>)
    requires WithinCaps(c, s) && Known(c, list)
    ensures Known(c, AcquireOrder(c, s, scope, list))
    ensures FirstRoom(c, s, AcquireOrder(c, s, scope, list)).None?
            <==> forall i :: 0 <= i < |list| ==> !HasRoom(c, s, list[i])
  {
    var order := AcquireOrder(c, s, scope, list);
    OrderIsPermutation(c, s, scope, list);
    FirstRoomIsFirst(c, s, order);
    SamePlaces(order, list);
  }

  /** The slot is taken at a provider that is nearly full only when every listed provider with room is; for the
      recovery scope no listed provider with room is less utilised. */
  lemma GrantPrefersHeadroom(c: Setup, s: Slots, scope: string, list: seq<nat>, p: nat, i: nat)
    requires WithinCaps(c, s) && Known(c, list) && EligibleCount(c, scope, list, |list|) >= 2
    requires Known(c, AcquireOrder(c, s, scope, list)) && FirstRoom(c, s, AcquireOrder(c, s, scope, list)) == Some(p)
    requires i < |list| && HasRoom(c, s, list[i])
    ensures p < |c.providers| && HasRoom(c, s, p)
    ensures scope == "recover_yenc" ==> !Less(c, s, list[i], p)
    ensures scope != "recover_yenc" && Deferred(c, s, scope, list, p) ==> Deferred(c, s, scope, list, list[i])
  {
    var order := AcquireOrder(c, s, scope, list);
    OrderIsPermutation(c, s, scope, list);
    FirstRoomIsFirst(c, s, order);
    SamePlaces(order, list);
    var k :| IsFirstRoom(c, s, order, k, p);
    var j :| 0 <= j < |order| && order[j] == list[i];
    LaterIsNoBetter(c, s, scope, list, k, j);
  }

  lemma SamePlaces(a: seq<nat>, b: seq<nat>)
    requires multiset(a) == multiset(b)
    ensures forall i :: 0 <= i < |a| ==> a[i] in b
    ensures forall j :: 0 <= j < |b| ==> b[j] in a
  {
    forall i | 0 <= i < |a| ensures a[i] in b {
      assert a[i] in multiset(a);
    }
    forall j | 0 <= j < |b| ensures b[j] in a {
      assert b[j] in multiset(b);
    }
  }

  /** Further down the order a provider is not less utilised, or not deferred less. */
  lemma LaterIsNoBetter(c: Setup, s: Slots, scope: string, list: seq<nat>, k: int, j: int)
    requires WithinCaps(c, s) && Known(c, list) && EligibleCount(c, scope, list, |list|) >= 2
    requires 0 <= k <= j < |AcquireOrder(c, s, scope, list)|
    ensures var order := AcquireOrder(c, s, scope, list);
            && order[k] < |c.providers| && order[j] < |c.providers|
            && (scope == "recover_yenc" ==> !Less(c, s, order[j], order[k]))
            && (scope != "recover_yenc" && Deferred(c, s, scope, list, order[k]) ==>
                  Deferred(c, s, scope, list, order[j]))
  {
    OrderIsPermutation(c, s, scope, list);
    CountsAtMost(c, scope, list, |list|);
    if scope == "recover_yenc" {
      SortOrders(c, s, list);
    } else {
      LaterIsDeferredToo(c, s, scope, list, k, j);
    }
  }

  lemma LaterIsDeferredToo(c: Setup, s: Slots, scope: string, list: seq<nat>, k: int, j: int)
    requires WithinCaps(c, s) && Known(c, list)
    requires var flags := Flags(c, s, scope, list);
             0 <= k <= j < |Select(list, flags, |list|, false) + Select(list, flags, |list|, true)|
    ensures var flags := Flags(c, s, scope, list);
            var order := Select(list, flags, |list|, false) + Select(list, flags, |list|, true);
            && order[k] < |c.providers| && order[j] < |c.providers|
            && (Deferred(c, s, scope, list, order[k]) ==> Deferred(c, s, scope, list, order[j]))
  {
    var flags := Flags(c, s, scope, list);
    var head, tail := Select(list, flags, |list|, false), Select(list, flags, |list|, true);
    SelectedAre(list, flags, |list|, k >= |head|, if k < |head| then k else k - |head|);
    SelectedAre(list, flags, |list|, j >= |head|, if j < |head| then j else j - |head|);
  }

  lemma {:induction false} CountsAtMost(c: Setup, scope: string, list: seq<nat>, n: nat)
    requires Known(c, list) && n <= |list|
    ensures EligibleCount(c, scope, list, n) <= n
  {
    if n > 0 {
      CountsAtMost(c, scope, list, n - 1);
    }
  }

  // ---------------------------------------------------------------- the manager

  class Manager {
    const setup: Setup
    var slots: Slots

    constructor (setup: Setup)
      requires |setup.providers| == |setup.priorities| == |setup.caps|
      requires forall p :: 0 <= p < |setup.caps| ==> 0 < setup.caps[p]
      ensures Valid() && this.setup == setup && slots == Slots(seq(|setup.caps|, _ => 0), 0, 0)
    {
      this.setup := setup;
      slots := Slots(seq(|setup.caps|, _ => 0), 0, 0);
    }

    predicate Valid()
      reads this
    {
      WithinCaps(setup, slots)
    }

    /** Check the module, try the semaphore without blocking, count: `demand` is whether the downloader wanted a slot
        recently. */
    method Acquire(scope: string, p: nat, demand: bool) returns (acquired: bool)
      requires Valid() && p < |setup.providers|
      modifies this`slots
      ensures Valid()
      ensures acquired <==> F.Allows(setup.providers[p], scope)
                            && CanAcquire(old(slots), setup.caps, ModuleForScope(scope), setup.options, demand)
                            && old(slots).used[p] < setup.caps[p]
      ensures slots == if acquired then Tally(Occupy(old(slots), p), ModuleForScope(scope), 1) else old(slots)
      ensures slots.used == if acquired then old(slots).used[p := old(slots).used[p] + 1] else old(slots).used
      ensures slots.downloader == old(slots).downloader + if acquired && scope == "downloader" then 1 else 0
      ensures slots.indexer == old(slots).indexer + if acquired && scope != "downloader" then 1 else 0
    {
      if !F.Allows(setup.providers[p], scope) {
        return false;
      }
      var m := ModuleForScope(scope);
      if !CanAcquire(slots, setup.caps, m, setup.options, demand) {
        return false;
      }
      if slots.used[p] < setup.caps[p] {
        slots := Occupy(slots, p);
        slots := Tally(slots, m, 1);
        return true;
      }
      return false;
    }

    method ReleaseForScope(scope: string, p: nat)
      requires Valid() && p < |setup.providers| && slots.used[p] > 0
      modifies this`slots
      ensures Valid() && slots == Tally(Vacate(old(slots), p), ModuleForScope(scope), -1)
      ensures slots.used == old(slots).used[p := old(slots).used[p] - 1]
      ensures slots.downloader == old(slots).downloader - if scope == "downloader" then 1 else 0
      ensures slots.indexer == old(slots).indexer - if scope != "downloader" then 1 else 0
    {
      slots := Vacate(slots, p);
      slots := Tally(slots, ModuleForScope(scope), -1);
    }

    method ProviderAcquireOrder(scope: string, list: seq<nat>) returns (order: seq<nat>)
      requires Valid() && Known(setup, list)
      ensures order == AcquireOrder(setup, slots, scope, list)
    {
      if |list| < 2 {
        return list;
      }
      var eligible := 0;
      for i := 0 to |list|
        invariant eligible == EligibleCount(setup, scope, list, i)
      {
        if F.Allows(setup.providers[list[i]], scope) {
          eligible := eligible + 1;
        }
      }
      if eligible < 2 {
        return list;
      }
      if scope == "recover_yenc" {
        return StableSort(setup, slots, list);
      }
      var head, tail := SplitByHeadroom(scope, list);
      if |tail| == 0 {
        NoneDeferred(list, Flags(setup, slots, scope, list), |list|);
        assert list[..|list|] == list;
        return list;
      }
      return head + tail;
    }

    /** The loop that defers nearly full providers. */
    method SplitByHeadroom(scope: string, list: seq<nat>) returns (head: seq<nat>, tail: seq<nat>)
      requires Valid() && Known(setup, list)
      ensures head == Select(list, Flags(setup, slots, scope, list), |list|, false)
      ensures tail == Select(list, Flags(setup, slots, scope, list), |list|, true)
    {
      ghost var flags := Flags(setup, slots, scope, list);
      head, tail := [], [];
      for i := 0 to |list|
        invariant head == Select(list, flags, i, false) && tail == Select(list, flags, i, true)
      {
        if !F.Allows(setup.providers[list[i]], scope) || !AtHeadroom(setup, slots, list[i])
           || !HasIdlePeer(setup, slots, scope, list, list[i]) {
          head := head + [list[i]];
        } else {
          tail := tail + [list[i]];
        }
      }
    }

    /** One round of the waiting loop. */
    method TryProviders(scope: string, list: seq<nat>, demand: bool) returns (granted: Option<nat>)
      requires Valid() && Known(setup, list)
      modifies this`slots
      ensures Valid() && Known(setup, AcquireOrder(setup, old(slots), scope, list))
      ensures granted == if CanAcquire(old(slots), setup.caps, ModuleForScope(scope), setup.options, demand)
                         then FirstRoom(setup, old(slots), AcquireOrder(setup, old(slots), scope, list)) else None
      ensures granted.Some? ==> granted.value < |old(slots).used|
      ensures slots == if granted.Some? then Tally(Occupy(old(slots), granted.value), ModuleForScope(scope), 1)
                       else old(slots)
    {
      OrderIsPermutation(setup, slots, scope, list);
      var m := ModuleForScope(scope);
      if !CanAcquire(slots, setup.caps, m, setup.options, demand) {
        return None;
      }
      var order := ProviderAcquireOrder(scope, list);
      var i := 0;
      while i < |order|
        invariant i <= |order| && slots == old(slots)
        invariant FirstRoom(setup, slots, order) == FirstRoom(setup, slots, order[i..])
      {
        assert order[i..][1..] == order[i + 1..];
        if slots.used[order[i]] < setup.caps[order[i]] {
          slots := Occupy(slots, order[i]);
          slots := Tally(slots, m, 1);
          return Some(order[i]);
        }
        i := i + 1;
      }
      return None;
    }
  }
}
