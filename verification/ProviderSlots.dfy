/** Connection slots: per-provider semaphores, per-module counters and limits, and who gives what back. */
module ProviderSlots {
  import opened Common

  datatype Module = Indexer | Downloader

  /** `len(semaphore)` of each provider, and the active counters of the two modules. */
  datatype Slots = Slots(used: seq<nat>, indexer: int, downloader: int)

  function Active(s: Slots, m: Module): int {
    if m.Downloader? then s.downloader else s.indexer
  }

  /** The atomic changes: a semaphore send or receive, and a counter update. */
  function Occupy(s: Slots, p: nat): Slots
    requires p < |s.used|
  {
    s.(used := s.used[p := s.used[p] + 1])
  }

  function Vacate(s: Slots, p: nat): Slots
    requires p < |s.used| && s.used[p] > 0
  {
    s.(used := s.used[p := s.used[p] - 1])
  }

  function Tally(s: Slots, m: Module, delta: int): Slots {
    if m.Downloader? then s.(downloader := s.downloader + delta) else s.(indexer := s.indexer + delta)
  }

  // ---------------------------------------------------------------- limits

  function PercentOfCapacity(capacity: int, percent: int): int {
    if capacity <= 0 then 0
    else if percent <= 0 then 1
    else
      var limit := capacity * Min(percent, 100) / 100;
      if limit <= 0 then 1 else limit
  }

  /** `newManagerWithProviders`: a percentage outside 1..100 is replaced. */
  function NormalPercent(percent: int, default: int): int {
    if percent <= 0 then default else Min(percent, 100)
  }

  datatype Options = Options(
    indexerMaxPercent: int, downloaderReservePercent: int, idleBorrow: bool, reservations: bool)

  datatype Limits = Limits(indexer: int, downloader: int)

  /** The limits in force; `demand` says whether the downloader wanted a slot recently. */
  function ModuleLimits(capacity: int, o: Options, demand: bool): Limits {
    var share := NormalPercent(o.indexerMaxPercent, 80);
    if capacity <= 0 then Limits(0, 0)
    else
      var indexer := if !o.idleBorrow || demand then PercentOfCapacity(capacity, share) else capacity;
      var own := if o.idleBorrow then capacity else PercentOfCapacity(capacity, 100 - share);
      var reserved := if !o.idleBorrow && own <= 0
                      then PercentOfCapacity(capacity, NormalPercent(o.downloaderReservePercent, 20)) else own;
      Limits(indexer, if reserved <= 0 then 1 else reserved)
  }

  /** `n` is the greatest whole number within `percent` hundredths of the capacity, or one where that is zero. */
  predicate IsShare(n: int, capacity: int, percent: int) {
    if capacity * percent < 100 then n == 1 else 100 * n <= capacity * percent < 100 * (n + 1)
  }

  /** The indexer's percentage: eighty where none is set, and never more than everything. */
  function IndexerShare(o: Options): int {
    if o.indexerMaxPercent <= 0 then 80 else if o.indexerMaxPercent > 100 then 100 else o.indexerMaxPercent
  }

  /** Each limit on its own. The indexer has its share of the capacity while it may not borrow, and all of it otherwise;
      the downloader has the rest without borrowing, and all of it with. */
  lemma LimitsAreShares(capacity: int, o: Options, demand: bool)
    requires capacity > 0
    ensures var l := ModuleLimits(capacity, o, demand);
            && (!o.idleBorrow || demand ==> IsShare(l.indexer, capacity, IndexerShare(o)))
            && (o.idleBorrow && !demand ==> l.indexer == capacity)
            && (l.indexer == capacity <==>
                  (o.idleBorrow && !demand) || o.indexerMaxPercent >= 100 || capacity == 1)
            && (!o.idleBorrow ==> IsShare(l.downloader, capacity, 100 - IndexerShare(o)))
            && (o.idleBorrow ==> l.downloader == capacity)
  {
    var share := IndexerShare(o);
    Complement(capacity, share);
    if share < 100 {
      AtLeast(capacity, 100 - share);
    }
  }

  /** Without any capacity nothing is admitted. */
  lemma NoCapacityNoLimits(capacity: int, o: Options, demand: bool)
    requires capacity <= 0
    ensures ModuleLimits(capacity, o, demand) == Limits(0, 0)
  {
  }

  /** When a module may take one more slot: always without reservations, and otherwise while it has fewer than its share
      `n` of the summed capacities, or than all of them. */
  lemma CanAcquireExactly(s: Slots, caps: seq<nat>, o: Options, demand: bool, n: int)
    requires TotalCapacity(caps) > 0
    ensures !o.reservations ==> CanAcquire(s, caps, Indexer, o, demand) && CanAcquire(s, caps, Downloader, o, demand)
    ensures o.reservations && (!o.idleBorrow || demand) && IsShare(n, TotalCapacity(caps), IndexerShare(o)) ==>
              (CanAcquire(s, caps, Indexer, o, demand) <==> s.indexer < n)
    ensures o.reservations && o.idleBorrow && !demand ==>
              (CanAcquire(s, caps, Indexer, o, demand) <==> s.indexer < TotalCapacity(caps))
    ensures o.reservations && !o.idleBorrow && IsShare(n, TotalCapacity(caps), 100 - IndexerShare(o)) ==>
              (CanAcquire(s, caps, Downloader, o, demand) <==> s.downloader < n)
    ensures o.reservations && o.idleBorrow ==>
              (CanAcquire(s, caps, Downloader, o, demand) <==> s.downloader < TotalCapacity(caps))
  {
    LimitsAreShares(TotalCapacity(caps), o, demand);
  }

  /** Without idle borrowing the two limits share the capacity up to one slot lost to rounding; they exceed it, by
      exactly one, when there is a single slot or the indexer may use everything. */
  lemma LimitsShareCapacity(capacity: int, o: Options, demand: bool)
    requires capacity > 0 && !o.idleBorrow
    ensures var l, share := ModuleLimits(capacity, o, demand), NormalPercent(o.indexerMaxPercent, 80);
            && l.indexer >= 1 && l.downloader >= 1
            && (l.indexer + l.downloader == capacity + 1 <==> capacity == 1 || share == 100)
            && (l.indexer + l.downloader == capacity - 1 <==>
                  capacity * share >= 100 && capacity * (100 - share) >= 100 && capacity * share % 100 != 0)
            && capacity - 1 <= l.indexer + l.downloader <= capacity + 1
  {
    var share := NormalPercent(o.indexerMaxPercent, 80);
    var x, y := capacity * share, capacity * (100 - share);
    Complement(capacity, share);
    assert x + y == 100 * capacity;
    if share < 100 {
      assert x >= capacity && y >= capacity;
    }
  }

  lemma Complement(capacity: int, share: int)
    requires capacity > 0 && 1 <= share <= 100
    ensures capacity * share + capacity * (100 - share) == 100 * capacity
    ensures share == 100 <==> capacity * (100 - share) == 0
    ensures capacity * share >= capacity && (share < 100 ==> capacity * (100 - share) >= capacity)
    ensures share == 100 ==> capacity * share == 100 * capacity
  {
    if share < 100 {
      AtLeast(capacity, 100 - share);
    }
    AtLeast(capacity, share);
  }

  lemma AtLeast(a: int, b: int)
    requires a > 0 && b >= 1
    ensures a * b >= a
  {
  }

  /** The reserve percentage is never consulted: the downloader's own share is at least one slot already. */
  lemma ReservePercentIsIgnored(capacity: int, o: Options, other: int, demand: bool)
    ensures ModuleLimits(capacity, o, demand) == ModuleLimits(capacity, o.(downloaderReservePercent := other), demand)
  {
  }

  function TotalCapacity(caps: seq<nat>): nat {
    SumNat(caps, |caps|)
  }

  function SumNat(s: seq<nat>, n: nat): nat
    requires n <= |s|
  {
    if n == 0 then 0 else SumNat(s, n - 1) + s[n - 1]
  }

  /** The capacities of the providers add up. */
  lemma CapacityAdds(caps: seq<nat>, c: nat)
    ensures TotalCapacity([]) == 0 && TotalCapacity(caps + [c]) == TotalCapacity(caps) + c
  {
    SumOfPrefix(caps, c, |caps|);
  }

  lemma {:induction false} SumOfPrefix(caps: seq<nat>, c: nat, n: nat)
    requires n <= |caps|
    ensures SumNat(caps + [c], n) == SumNat(caps, n)
  {
    if n > 0 {
      SumOfPrefix(caps, c, n - 1);
      assert (caps + [c])[n - 1] == caps[n - 1];
    }
  }

  function LimitOf(l: Limits, m: Module): int {
    if m.Downloader? then l.downloader else l.indexer
  }

  /** `moduleCanAcquire`. */
  predicate CanAcquire(s: Slots, caps: seq<nat>, m: Module, o: Options, demand: bool) {
    !o.reservations || Active(s, m) < LimitOf(ModuleLimits(TotalCapacity(caps), o, demand), m)
  }

  // ---------------------------------------------------------------- callers, one atomic step at a time

  /** Where a caller is between two atomic steps. */
  datatype Phase =
    | Idle
    | Checked(m: Module)            // found its module below the limit; has not tried a semaphore with success yet
    | Taken(m: Module, p: nat)      // holds a slot that is not counted yet
    | Running(m: Module, p: nat)    // an operation in flight
    | Reading(m: Module, p: nat)    // a fetched article whose reader is open
    | Freed(m: Module)              // gave its slot back, still counted

  datatype Action =
    | Check(m: Module, limit: int)  // `moduleCanAcquire` with the limit in force
    | GiveUp                        // no semaphore had room, or the context ended
    | Take(p: nat)
    | Count
    | Deliver                       // a fetch succeeded: its reader holds the slot now
    | Return                        // any other end of the operation
    | Close                         // the first `Close` of the reader
    | Uncount

  datatype System = System(slots: Slots, callers: seq<Phase>)

  predicate Enabled(caps: seq<nat>, s: System, i: nat, a: Action)
    requires |s.slots.used| == |caps|
  {
    i < |s.callers|
    && var c := s.callers[i];
       match a
       case Check(m, limit) => c.Idle? && Active(s.slots, m) < limit
       case GiveUp => c.Checked?
       case Take(p) => c.Checked? && p < |caps| && s.slots.used[p] < caps[p]
       case Count => c.Taken?
       case Deliver => c.Running?
       case Return => c.Running?
       case Close => c.Reading?
       case Uncount => c.Freed?
  }

  /** The receive in `Return` and `Close` is modelled as blocking: it needs a token. */
  function Apply(s: System, i: nat, a: Action): System
    requires i < |s.callers|
  {
    var c := s.callers[i];
    match a
    case Check(m, _) => s.(callers := s.callers[i := Checked(m)])
    case GiveUp => s.(callers := s.callers[i := Idle])
    case Take(p) =>
      if c.Checked? && p < |s.slots.used| then System(Occupy(s.slots, p), s.callers[i := Taken(c.m, p)]) else s
    case Count =>
      if c.Taken? then System(Tally(s.slots, c.m, 1), s.callers[i := Running(c.m, c.p)]) else s
    case Deliver => if c.Running? then s.(callers := s.callers[i := Reading(c.m, c.p)]) else s
    case Return => if c.Running? then GiveBack(s, i) else s
    case Close => if c.Reading? then GiveBack(s, i) else s
    case Uncount =>
      if c.Freed? then System(Tally(s.slots, c.m, -1), s.callers[i := Idle]) else s
  }

  function GiveBack(s: System, i: nat): System
    requires i < |s.callers| && (s.callers[i].Running? || s.callers[i].Reading?)
  {
    var c := s.callers[i];
    if c.p < |s.slots.used| && s.slots.used[c.p] > 0
    then System(Vacate(s.slots, c.p), s.callers[i := Freed(c.m)]) else s
  }

  /** `moduleForScope`. */
  function ModuleForScope(scope: string): Module {
    if scope == "downloader" then Downloader else Indexer
  }

  /** What an action makes of the caller itself, when the caller is where it can take it. */
  function CallerNext(c: Phase, a: Action): Option<Phase> {
    match c
    case Idle => if a.Check? then Some(Checked(a.m)) else None
    case Checked(m) => if a.GiveUp? then Some(Idle) else if a.Take? then Some(Taken(m, a.p)) else None
    case Taken(m, p) => if a.Count? then Some(Running(m, p)) else None
    case Running(m, p) => if a.Deliver? then Some(Reading(m, p)) else if a.Return? then Some(Freed(m)) else None
    case Reading(m, p) => if a.Close? then Some(Freed(m)) else None
    case Freed(m) => if a.Uncount? then Some(Idle) else None
  }

  /** Where a caller is after a list of its actions. */
  function Walk(c: Phase, steps: seq<Action>): Option<Phase>
    decreases |steps|
  {
    if steps == [] then Some(c)
    else match CallerNext(c, steps[0]) case None => None case Some(d) => Walk(d, steps[1..])
  }

  lemma {:induction false} WalkOn(c: Phase, first: seq<Action>, second: seq<Action>)
    requires Walk(c, first).Some?
    ensures Walk(c, first + second) == Walk(Walk(c, first).value, second)
    decreases |first|
  {
    if first == [] {
      assert first + second == second;
    } else {
      assert (first + second)[1..] == first[1..] + second;
      WalkOn(CallerNext(c, first[0]).value, first[1..], second);
    }
  }

  function Start(caps: seq<nat>, callers: nat): System {
    System(Slots(seq(|caps|, _ => 0), 0, 0), seq(callers, _ => Idle))
  }

  // ---------------------------------------------------------------- conservation

  function Holds(c: Phase, p: nat): int {
    if (c.Taken? || c.Running? || c.Reading?) && c.p == p then 1 else 0
  }

  function Counted(c: Phase, m: Module): int {
    if (c.Running? || c.Reading? || c.Freed?) && c.m == m then 1 else 0
  }

  /** Between the limit check and the counter update. */
  function Between(c: Phase, m: Module): int {
    if (c.Checked? || c.Taken?) && c.m == m then 1 else 0
  }

  function Holding(cs: seq<Phase>, p: nat): int {
    SumOf(cs, (c: Phase) => Holds(c, p))
  }

  function Counting(cs: seq<Phase>, m: Module): int {
    SumOf(cs, (c: Phase) => Counted(c, m))
  }

  function InBetween(cs: seq<Phase>, m: Module): int {
    SumOf(cs, (c: Phase) => Between(c, m))
  }

  lemma HoldingUpdate(cs: seq<Phase>, i: nat, x: Phase, p: nat)
    requires i < |cs|
    ensures Holding(cs[i := x], p) == Holding(cs, p) - Holds(cs[i], p) + Holds(x, p)
  {
    SumOfUpdate(cs, i, x, (c: Phase) => Holds(c, p));
  }

  lemma CountingUpdate(cs: seq<Phase>, i: nat, x: Phase, m: Module)
    requires i < |cs|
    ensures Counting(cs[i := x], m) == Counting(cs, m) - Counted(cs[i], m) + Counted(x, m)
  {
    SumOfUpdate(cs, i, x, (c: Phase) => Counted(c, m));
  }

  lemma BetweenUpdate(cs: seq<Phase>, i: nat, x: Phase, m: Module)
    requires i < |cs|
    ensures InBetween(cs[i := x], m) == InBetween(cs, m) - Between(cs[i], m) + Between(x, m)
  {
    SumOfUpdate(cs, i, x, (c: Phase) => Between(c, m));
  }

  /** Every token in a semaphore is held by a caller, every count is some caller's, and no semaphore overflows. */
  ghost predicate Conserved(caps: seq<nat>, s: System) {
    && |s.slots.used| == |caps|
    && (forall p: nat :: p < |caps| ==> s.slots.used[p] == Holding(s.callers, p) && s.slots.used[p] <= caps[p])
    && (forall i :: 0 <= i < |s.callers| ==>
          (s.callers[i].Taken? || s.callers[i].Running? || s.callers[i].Reading? ==> s.callers[i].p < |caps|))
    && (forall m: Module :: Active(s.slots, m) == Counting(s.callers, m))
  }

  lemma {:induction false} NothingHeld(n: nat, p: nat, m: Module)
    ensures Holding(seq(n, _ => Idle), p) == 0 && Counting(seq(n, _ => Idle), m) == 0
    ensures InBetween(seq(n, _ => Idle), m) == 0
  {
    var cs := seq(n, _ => Idle);
    if n > 0 {
      assert cs[1..] == seq(n - 1, _ => Idle);
      NothingHeld(n - 1, p, m);
    }
  }

  lemma StartIsConserved(caps: seq<nat>, n: nat)
    ensures Conserved(caps, Start(caps, n))
  {
    forall p: nat | p < |caps| ensures Holding(Start(caps, n).callers, p) == 0 {
      NothingHeld(n, p, Indexer);
    }
    forall m: Module ensures Counting(Start(caps, n).callers, m) == 0 {
      NothingHeld(n, 0, m);
    }
  }

  lemma StepConserves(caps: seq<nat>, s: System, i: nat, a: Action)
    requires Conserved(caps, s) && Enabled(caps, s, i, a)
    ensures Conserved(caps, Apply(s, i, a))
  {
    var s' := Apply(s, i, a);
    if a.Return? || a.Close? {
      HeldIsThere(s.callers, i);
    }
    forall p: nat | p < |caps| ensures s'.slots.used[p] == Holding(s'.callers, p) {
      HoldingUpdate(s.callers, i, s'.callers[i], p);
    }
    forall m: Module ensures Active(s'.slots, m) == Counting(s'.callers, m) {
      CountingUpdate(s.callers, i, s'.callers[i], m);
    }
  }

  lemma {:induction false} HeldIsThere(cs: seq<Phase>, i: nat)
    requires i < |cs| && (cs[i].Taken? || cs[i].Running? || cs[i].Reading?)
    ensures Holding(cs, cs[i].p) >= 1
  {
    var p := cs[i].p;
    HoldingUpdate(cs, i, Idle, p);
    HoldingNonNegative(cs[i := Idle], p);
  }

  lemma {:induction false} HoldingNonNegative(cs: seq<Phase>, p: nat)
    ensures Holding(cs, p) >= 0
  {
    if cs != [] {
      HoldingNonNegative(cs[1..], p);
      assert Holding(cs, p) == Holds(cs[0], p) + Holding(cs[1..], p);
    }
  }

  /** Giving back never blocks: the semaphore has the caller's own token. */
  lemma GivingBackNeverBlocks(caps: seq<nat>, s: System, i: nat)
    requires Conserved(caps, s) && i < |s.callers| && (s.callers[i].Running? || s.callers[i].Reading?)
    ensures s.callers[i].p < |caps| && s.slots.used[s.callers[i].p] > 0
    ensures GiveBack(s, i).callers[i] == Freed(s.callers[i].m)
    ensures GiveBack(s, i).slots.used[s.callers[i].p] == s.slots.used[s.callers[i].p] - 1
  {
    HeldIsThere(s.callers, i);
  }

  /** A step moves its own caller along `CallerNext` and no other; beyond that only the limit and the room in the
      semaphore decide whether it is possible. */
  lemma StepMovesOneCaller(caps: seq<nat>, s: System, i: nat, a: Action)
    requires Conserved(caps, s) && i < |s.callers|
    ensures Enabled(caps, s, i, a)
            <==> && CallerNext(s.callers[i], a).Some?
                 && (a.Check? ==> Active(s.slots, a.m) < a.limit)
                 && (a.Take? ==> a.p < |caps| && s.slots.used[a.p] < caps[a.p])
    ensures Enabled(caps, s, i, a) ==>
              Apply(s, i, a).callers == s.callers[i := CallerNext(s.callers[i], a).value]
  {
    if s.callers[i].Running? || s.callers[i].Reading? {
      GivingBackNeverBlocks(caps, s, i);
    }
  }

  // ---------------------------------------------------------------- runs

  ghost predicate Next(caps: seq<nat>, s: System, s': System) {
    |s.slots.used| == |caps| && exists i: nat, a: Action :: Enabled(caps, s, i, a) && s' == Apply(s, i, a)
  }

  ghost predicate IsRun(caps: seq<nat>, run: seq<System>) {
    && run != [] && run[0] == Start(caps, |run[0].callers|)
    && forall k :: 0 <= k < |run| - 1 ==> Next(caps, run[k], run[k + 1])
  }

  lemma {:induction false} RunConserves(caps: seq<nat>, run: seq<System>, k: nat)
    requires IsRun(caps, run) && k < |run|
    ensures Conserved(caps, run[k])
  {
    if k == 0 {
      StartIsConserved(caps, |run[0].callers|);
    } else {
      RunConserves(caps, run, k - 1);
      assert Next(caps, run[k - 1], run[k - 1 + 1]);
      var i: nat, a: Action :| Enabled(caps, run[k - 1], i, a) && run[k] == Apply(run[k - 1], i, a);
      StepConserves(caps, run[k - 1], i, a);
    }
  }

  // ---------------------------------------------------------------- totals

  function HoldsBelow(c: Phase, n: nat): int {
    if (c.Taken? || c.Running? || c.Reading?) && c.p < n then 1 else 0
  }

  /** A slot that is not counted yet, or a count whose slot is gone. */
  function Transit(c: Phase): int {
    if c.Taken? then 1 else if c.Freed? then -1 else 0
  }

  lemma {:induction false} HoldersByProvider(cs: seq<Phase>, n: nat)
    ensures SumOf(cs, (c: Phase) => HoldsBelow(c, n + 1)) == SumOf(cs, (c: Phase) => HoldsBelow(c, n)) + Holding(cs, n)
  {
    if cs != [] {
      HoldersByProvider(cs[1..], n);
      assert Holding(cs, n) == Holds(cs[0], n) + Holding(cs[1..], n);
    }
  }

  lemma {:induction false} NobodyBelowZero(cs: seq<Phase>)
    ensures SumOf(cs, (c: Phase) => HoldsBelow(c, 0)) == 0
  {
    if cs != [] {
      NobodyBelowZero(cs[1..]);
    }
  }

  lemma {:induction false} UsedByHolders(caps: seq<nat>, s: System, n: nat)
    requires Conserved(caps, s) && n <= |caps|
    ensures SumNat(s.slots.used, n) == SumOf(s.callers, (c: Phase) => HoldsBelow(c, n))
    ensures SumNat(s.slots.used, n) <= SumNat(caps, n)
  {
    if n == 0 {
      NobodyBelowZero(s.callers);
    } else {
      UsedByHolders(caps, s, n - 1);
      HoldersByProvider(s.callers, n - 1);
    }
  }

  lemma {:induction false} HoldersMinusCounted(cs: seq<Phase>, n: nat)
    requires forall i :: 0 <= i < |cs| && (cs[i].Taken? || cs[i].Running? || cs[i].Reading?) ==> cs[i].p < n
    ensures SumOf(cs, (c: Phase) => HoldsBelow(c, n)) - Counting(cs, Indexer) - Counting(cs, Downloader)
            == SumOf(cs, Transit)
  {
    if cs != [] {
      HoldersMinusCounted(cs[1..], n);
      assert Counting(cs, Indexer) == Counted(cs[0], Indexer) + Counting(cs[1..], Indexer);
      assert Counting(cs, Downloader) == Counted(cs[0], Downloader) + Counting(cs[1..], Downloader);
      assert cs[0].Taken? || cs[0].Running? || cs[0].Reading? ==> cs[0].p < n;
    }
  }

  /** In every reachable state the occupied slots stay within the total capacity and differ from the two active
      counts exactly by the tokens in transit between a semaphore and a counter. */
  lemma SlotsAndCounters(caps: seq<nat>, run: seq<System>, k: nat)
    requires IsRun(caps, run) && k < |run|
    ensures var s := run[k];
            && |s.slots.used| == |caps|
            && SumNat(s.slots.used, |caps|) <= TotalCapacity(caps)
            && SumNat(s.slots.used, |caps|) - s.slots.indexer - s.slots.downloader == SumOf(s.callers, Transit)
  {
    RunConserves(caps, run, k);
    UsedByHolders(caps, run[k], |caps|);
    HoldersMinusCounted(run[k].callers, |caps|);
    assert Active(run[k].slots, Indexer) == Counting(run[k].callers, Indexer);
    assert Active(run[k].slots, Downloader) == Counting(run[k].callers, Downloader);
  }

  // ---------------------------------------------------------------- the reservation bound

  /** A step in which module `m` is checked against `limit` at most. */
  ghost predicate NextWithin(caps: seq<nat>, m: Module, limit: int, s: System, s': System) {
    && |s.slots.used| == |caps|
    && exists i: nat, a: Action ::
         Enabled(caps, s, i, a) && s' == Apply(s, i, a) && (a.Check? && a.m == m ==> a.limit <= limit)
  }

  ghost predicate IsRunWithin(caps: seq<nat>, m: Module, limit: int, run: seq<System>) {
    && run != [] && run[0] == Start(caps, |run[0].callers|)
    && forall k :: 0 <= k < |run| - 1 ==> NextWithin(caps, m, limit, run[k], run[k + 1])
  }

  lemma {:induction false} RunWithinConserves(caps: seq<nat>, m: Module, limit: int, run: seq<System>, k: nat)
    requires IsRunWithin(caps, m, limit, run) && k < |run|
    ensures Conserved(caps, run[k])
  {
    if k == 0 {
      StartIsConserved(caps, |run[0].callers|);
    } else {
      RunWithinConserves(caps, m, limit, run, k - 1);
      assert NextWithin(caps, m, limit, run[k - 1], run[k - 1 + 1]);
      var i: nat, a: Action :| Enabled(caps, run[k - 1], i, a) && run[k] == Apply(run[k - 1], i, a);
      StepConserves(caps, run[k - 1], i, a);
    }
  }

  /** What a step does to the active count plus the callers between check and count. */
  lemma StepMovesPressure(caps: seq<nat>, s: System, i: nat, a: Action, m: Module)
    requires Conserved(caps, s) && Enabled(caps, s, i, a)
    ensures var s' := Apply(s, i, a);
            Active(s'.slots, m) + InBetween(s'.callers, m)
            <= Active(s.slots, m) + InBetween(s.callers, m) + (if a.Check? && a.m == m then 1 else 0)
  {
    if a.Return? || a.Close? {
      HeldIsThere(s.callers, i);
    }
    BetweenUpdate(s.callers, i, Apply(s, i, a).callers[i], m);
  }

  lemma {:induction false} BetweenNonNegative(cs: seq<Phase>, m: Module)
    ensures InBetween(cs, m) >= 0
  {
    if cs != [] {
      BetweenNonNegative(cs[1..], m);
      assert InBetween(cs, m) == Between(cs[0], m) + InBetween(cs[1..], m);
    }
  }

  /** With limit `limit` and never more than `width` callers of the module between their check and their count, the
      active count stays within `limit - 1 + width`: within the limit itself when admission is serialised. */
  lemma {:induction false} ReservationBound(caps: seq<nat>, m: Module, limit: int, width: nat, run: seq<System>, k: nat)
    requires limit >= 1 && IsRunWithin(caps, m, limit, run) && k < |run|
    requires forall j :: 0 <= j < |run| ==> InBetween(run[j].callers, m) <= width
    ensures Active(run[k].slots, m) + InBetween(run[k].callers, m) <= limit - 1 + width
    ensures Active(run[k].slots, m) <= limit - 1 + width
  {
    BetweenNonNegative(run[k].callers, m);
    if k == 0 {
      NothingHeld(|run[0].callers|, 0, m);
    } else {
      ReservationBound(caps, m, limit, width, run, k - 1);
      RunWithinConserves(caps, m, limit, run, k - 1);
      assert NextWithin(caps, m, limit, run[k - 1], run[k - 1 + 1]);
      PressureStep(caps, m, limit, width, run[k - 1], run[k]);
    }
  }

  lemma {:induction false} PressureStep(caps: seq<nat>, m: Module, limit: int, width: nat, s: System, s': System)
    requires Conserved(caps, s) && NextWithin(caps, m, limit, s, s') && InBetween(s'.callers, m) <= width
    requires Active(s.slots, m) + InBetween(s.callers, m) <= limit - 1 + width
    ensures Active(s'.slots, m) + InBetween(s'.callers, m) <= limit - 1 + width
  {
    var i: nat, a: Action :| Enabled(caps, s, i, a) && s' == Apply(s, i, a)
                             && (a.Check? && a.m == m ==> a.limit <= limit);
    StepMovesPressure(caps, s, i, a, m);
    if a.Check? && a.m == m {
      assert Active(s'.slots, m) == Active(s.slots, m) <= limit - 1;
    }
  }

  // ---------------------------------------------------------------- the bound under the options

  /** A step in which module `m` is admitted by `moduleCanAcquire`, with or without demand by the downloader. */
  ghost predicate NextAdmitted(caps: seq<nat>, m: Module, o: Options, s: System, s': System) {
    && |s.slots.used| == |caps|
    && exists i: nat, a: Action, demand: bool ::
         Enabled(caps, s, i, a) && s' == Apply(s, i, a)
         && (a.Check? && a.m == m ==>
               CanAcquire(s.slots, caps, m, o, demand)
               && a.limit == LimitOf(ModuleLimits(TotalCapacity(caps), o, demand), m))
  }

  ghost predicate IsAdmittedRun(caps: seq<nat>, m: Module, o: Options, run: seq<System>) {
    && run != [] && run[0] == Start(caps, |run[0].callers|)
    && forall k :: 0 <= k < |run| - 1 ==> NextAdmitted(caps, m, o, run[k], run[k + 1])
  }

  /** Demand by the downloader only lowers a limit. */
  lemma DemandLowersLimits(capacity: int, o: Options, demand: bool, m: Module)
    requires capacity > 0
    ensures 1 <= LimitOf(ModuleLimits(capacity, o, demand), m) <= LimitOf(ModuleLimits(capacity, o, false), m)
  {
    PercentAtMostAll(capacity, NormalPercent(o.indexerMaxPercent, 80));
  }

  lemma PercentAtMostAll(capacity: int, percent: int)
    requires capacity > 0 && 1 <= percent <= 100
    ensures 1 <= PercentOfCapacity(capacity, percent) <= capacity
  {
    AtMost(capacity, percent);
  }

  lemma AtMost(a: int, b: int)
    requires a > 0 && 1 <= b <= 100
    ensures 0 <= a * b <= 100 * a
  {
  }

  /** With reservations on, demand by the downloader coming and going, the active count of a module stays within its
      limit without demand, give or take the callers between check and count. */
  lemma AdmissionKeepsTheBound(caps: seq<nat>, m: Module, o: Options, width: nat, run: seq<System>, k: nat)
    requires o.reservations && TotalCapacity(caps) > 0 && IsAdmittedRun(caps, m, o, run) && k < |run|
    requires forall j :: 0 <= j < |run| ==> InBetween(run[j].callers, m) <= width
    ensures Active(run[k].slots, m) <= LimitOf(ModuleLimits(TotalCapacity(caps), o, false), m) - 1 + width
  {
    var limit := LimitOf(ModuleLimits(TotalCapacity(caps), o, false), m);
    forall k | 0 <= k < |run| - 1 ensures NextWithin(caps, m, limit, run[k], run[k + 1]) {
      assert NextAdmitted(caps, m, o, run[k], run[k + 1]);
      AdmittedIsWithin(caps, m, o, run[k], run[k + 1]);
    }
    DemandLowersLimits(TotalCapacity(caps), o, false, m);
    ReservationBound(caps, m, limit, width, run, k);
  }

  lemma AdmittedIsWithin(caps: seq<nat>, m: Module, o: Options, s: System, s': System)
    requires TotalCapacity(caps) > 0 && NextAdmitted(caps, m, o, s, s')
    ensures NextWithin(caps, m, LimitOf(ModuleLimits(TotalCapacity(caps), o, false), m), s, s')
  {
    var i: nat, a: Action, demand: bool :|
      Enabled(caps, s, i, a) && s' == Apply(s, i, a)
      && (a.Check? && a.m == m ==>
            CanAcquire(s.slots, caps, m, o, demand)
            && a.limit == LimitOf(ModuleLimits(TotalCapacity(caps), o, demand), m));
    DemandLowersLimits(TotalCapacity(caps), o, demand, m);
    assert Enabled(caps, s, i, a);
  }

  // ---------------------------------------------------------------- how far a run can go

  /** A run of `n` callers to `s`, its checks within the limit, never more than `width` between check and count. */
  ghost predicate LeadsTo(caps: seq<nat>, m: Module, limit: int, width: nat, n: nat, run: seq<System>, s: System) {
    && IsRunWithin(caps, m, limit, run) && |run[0].callers| == n && run[|run| - 1] == s
    && forall j :: 0 <= j < |run| ==> InBetween(run[j].callers, m) <= width
  }

  ghost predicate Reachable(caps: seq<nat>, m: Module, limit: int, width: nat, n: nat, s: System) {
    exists run :: LeadsTo(caps, m, limit, width, n, run, s)
  }

  lemma OneStepMore(caps: seq<nat>, m: Module, limit: int, width: nat, n: nat, s: System, s': System)
    requires Reachable(caps, m, limit, width, n, s) && NextWithin(caps, m, limit, s, s')
    requires InBetween(s'.callers, m) <= width
    ensures Reachable(caps, m, limit, width, n, s')
  {
    var run :| LeadsTo(caps, m, limit, width, n, run, s);
    var longer := run + [s'];
    forall k | 0 <= k < |longer| - 1 ensures NextWithin(caps, m, limit, longer[k], longer[k + 1]) {
      if k < |run| - 1 {
        assert NextWithin(caps, m, limit, run[k], run[k + 1]);
      }
    }
    assert LeadsTo(caps, m, limit, width, n, longer, s');
  }

  /** The first `done` callers have given their slots back and are still counted; the next `checked` have been
      admitted; the rest have not begun. */
  function Crowd(caps: seq<nat>, m: Module, n: nat, done: nat, checked: nat): System {
    System(Tally(Slots(seq(|caps|, _ => 0), 0, 0), m, done), CrowdCallers(m, n, done, checked))
  }

  function CrowdCallers(m: Module, n: nat, done: nat, checked: nat): (cs: seq<Phase>)
    ensures |cs| == n
  {
    seq(n, i => if i < done then Freed(m) else if i < done + checked then Checked(m) else Idle)
  }

  ghost predicate CrowdReached(caps: seq<nat>, m: Module, limit: int, width: nat, n: nat, done: nat, checked: nat) {
    && Reachable(caps, m, limit, width, n, Crowd(caps, m, n, done, checked))
    && InBetween(CrowdCallers(m, n, done, checked), m) == checked
  }

  lemma NoCrowd(caps: seq<nat>, m: Module, limit: int, width: nat, n: nat)
    ensures CrowdReached(caps, m, limit, width, n, 0, 0)
  {
    NothingHeld(n, 0, m);
    assert CrowdCallers(m, n, 0, 0) == seq(n, _ => Idle);
    assert LeadsTo(caps, m, limit, width, n, [Start(caps, n)], Crowd(caps, m, n, 0, 0));
  }

  /** One more caller is admitted while the count is below the limit. */
  lemma AdmitOne(caps: seq<nat>, m: Module, limit: int, width: nat, n: nat, done: nat, checked: nat)
    requires CrowdReached(caps, m, limit, width, n, done, checked)
    requires done < limit && done + checked < n && checked < width
    ensures CrowdReached(caps, m, limit, width, n, done, checked + 1)
  {
    var s, s' := Crowd(caps, m, n, done, checked), Crowd(caps, m, n, done, checked + 1);
    var i := done + checked;
    assert s'.callers == s.callers[i := Checked(m)];
    BetweenUpdate(s.callers, i, Checked(m), m);
    assert Enabled(caps, s, i, Check(m, limit)) && s' == Apply(s, i, Check(m, limit));
    OneStepMore(caps, m, limit, width, n, s, s');
  }

  /** An admitted caller takes a slot, is counted, finishes and gives the slot back; it is still counted. */
  lemma FinishOne(caps: seq<nat>, m: Module, limit: int, width: nat, n: nat, done: nat, checked: nat, p: nat)
    requires CrowdReached(caps, m, limit, width, n, done, checked) && checked <= width
    requires checked > 0 && done + checked <= n && p < |caps| && caps[p] > 0
    ensures CrowdReached(caps, m, limit, width, n, done + 1, checked - 1)
  {
    var s := Crowd(caps, m, n, done, checked);
    var taken := Apply(s, done, Take(p));
    var counted := Apply(taken, done, Count);
    var freed := Apply(counted, done, Return);
    assert Enabled(caps, s, done, Take(p)) && Enabled(caps, taken, done, Count) && Enabled(caps, counted, done, Return);
    BetweenUpdate(s.callers, done, Taken(m, p), m);
    BetweenUpdate(taken.callers, done, Running(m, p), m);
    BetweenUpdate(counted.callers, done, Freed(m), m);
    OneStepMore(caps, m, limit, width, n, s, taken);
    OneStepMore(caps, m, limit, width, n, taken, counted);
    OneStepMore(caps, m, limit, width, n, counted, freed);
    assert freed.callers == CrowdCallers(m, n, done + 1, checked - 1);
    assert freed.slots.used == seq(|caps|, _ => 0);
    assert freed == Crowd(caps, m, n, done + 1, checked - 1);
  }

  lemma {:induction false} AdmitMany(caps: seq<nat>, m: Module, limit: int, width: nat, n: nat, done: nat, checked: nat)
    requires CrowdReached(caps, m, limit, width, n, done, 0)
    requires done < limit && done + checked <= n && checked <= width
    ensures CrowdReached(caps, m, limit, width, n, done, checked)
  {
    if checked > 0 {
      AdmitMany(caps, m, limit, width, n, done, checked - 1);
      AdmitOne(caps, m, limit, width, n, done, checked - 1);
    }
  }

  lemma {:induction false} FinishMany(caps: seq<nat>, m: Module, limit: int, width: nat, n: nat, done: nat,
                                      checked: nat, p: nat)
    requires CrowdReached(caps, m, limit, width, n, done, checked) && checked <= width
    requires done + checked <= n && p < |caps| && caps[p] > 0
    ensures CrowdReached(caps, m, limit, width, n, done + checked, 0)
    decreases checked
  {
    if checked > 0 {
      FinishOne(caps, m, limit, width, n, done, checked, p);
      FinishMany(caps, m, limit, width, n, done + 1, checked - 1, p);
    }
  }

  /** One caller after the other, up to just below the limit. */
  lemma {:induction false} OneByOne(caps: seq<nat>, m: Module, limit: int, width: nat, n: nat, done: nat, p: nat)
    requires width >= 1 && done < limit && done <= n && p < |caps| && caps[p] > 0
    ensures CrowdReached(caps, m, limit, width, n, done, 0)
  {
    if done == 0 {
      NoCrowd(caps, m, limit, width, n);
    } else {
      OneByOne(caps, m, limit, width, n, done - 1, p);
      AdmitOne(caps, m, limit, width, n, done - 1, 0);
      FinishOne(caps, m, limit, width, n, done - 1, 1, p);
    }
  }

  /** The bound is reached, whatever the limit, the width and the capacities, as soon as there are callers enough and
      one slot: a slot given back serves the next caller while the count still stands. */
  lemma ReservationBoundIsReached(caps: seq<nat>, m: Module, limit: int, width: nat, n: nat)
    requires limit >= 1 && width >= 1 && n >= limit - 1 + width && TotalCapacity(caps) > 0
    ensures exists s :: Reachable(caps, m, limit, width, n, s) && Active(s.slots, m) == limit - 1 + width
  {
    var p := SomeSlot(caps, |caps|);
    OneByOne(caps, m, limit, width, n, limit - 1, p);
    AdmitMany(caps, m, limit, width, n, limit - 1, width);
    FinishMany(caps, m, limit, width, n, limit - 1, width, p);
    var s := Crowd(caps, m, n, limit - 1 + width, 0);
    assert Reachable(caps, m, limit, width, n, s) && Active(s.slots, m) == limit - 1 + width;
  }

  lemma {:induction false} SomeSlot(caps: seq<nat>, n: nat) returns (p: nat)
    requires n <= |caps| && SumNat(caps, n) > 0
    ensures p < n && caps[p] > 0
  {
    if caps[n - 1] > 0 {
      p := n - 1;
    } else {
      p := SomeSlot(caps, n - 1);
    }
  }

  /** Some run of `n` callers, its checks within the limit, takes the active count above it. */
  ghost predicate Overshoots(caps: seq<nat>, m: Module, limit: int, n: nat) {
    exists run: seq<System> ::
      IsRunWithin(caps, m, limit, run) && |run[0].callers| == n && Active(run[|run| - 1].slots, m) > limit
  }

  /** The limit can be overshot exactly when there are more callers than it allows, and a slot to be had. */
  lemma LimitCanBeOvershot(caps: seq<nat>, m: Module, limit: int, n: nat)
    requires limit >= 1
    ensures Overshoots(caps, m, limit, n) <==> n > limit && TotalCapacity(caps) > 0
  {
    if n > limit && TotalCapacity(caps) > 0 {
      var width: nat := n - limit + 1;
      ReservationBoundIsReached(caps, m, limit, width, n);
      var s :| Reachable(caps, m, limit, width, n, s) && Active(s.slots, m) == limit - 1 + width;
      var run: seq<System> :| LeadsTo(caps, m, limit, width, n, run, s);
      assert Active(run[|run| - 1].slots, m) > limit;
    }
    if run: seq<System> :|
      IsRunWithin(caps, m, limit, run) && |run[0].callers| == n && Active(run[|run| - 1].slots, m) > limit
    {
      var k := |run| - 1;
      RunWithinConserves(caps, m, limit, run, k);
      SameCallers(caps, m, limit, run, k);
      assert Active(run[k].slots, m) == Counting(run[k].callers, m);
      CountingAtMostAll(run[k].callers, m);
      if TotalCapacity(caps) == 0 {
        NobodyCounted(run[k].callers, m);
      }
    }
  }

  /** No caller holds or held a slot. */
  predicate NobodyServed(cs: seq<Phase>) {
    forall i :: 0 <= i < |cs| ==> cs[i].Idle? || cs[i].Checked?
  }

  lemma {:induction false} SameCallers(caps: seq<nat>, m: Module, limit: int, run: seq<System>, k: nat)
    requires IsRunWithin(caps, m, limit, run) && k < |run|
    ensures |run[k].callers| == |run[0].callers|
    ensures TotalCapacity(caps) == 0 ==> NobodyServed(run[k].callers)
  {
    if k > 0 {
      SameCallers(caps, m, limit, run, k - 1);
      assert NextWithin(caps, m, limit, run[k - 1], run[k - 1 + 1]);
      var i: nat, a: Action :| Enabled(caps, run[k - 1], i, a) && run[k] == Apply(run[k - 1], i, a);
      if a.Take? {
        SlotInTotal(caps, |caps|, a.p);
      }
    }
  }

  lemma {:induction false} SlotInTotal(caps: seq<nat>, n: nat, p: nat)
    requires p < n <= |caps|
    ensures caps[p] <= SumNat(caps, n)
  {
    if p < n - 1 {
      SlotInTotal(caps, n - 1, p);
    }
  }

  lemma {:induction false} CountingAtMostAll(cs: seq<Phase>, m: Module)
    ensures Counting(cs, m) <= |cs|
  {
    if cs != [] {
      CountingAtMostAll(cs[1..], m);
      assert Counting(cs, m) == Counted(cs[0], m) + Counting(cs[1..], m);
    }
  }

  lemma {:induction false} NobodyCounted(cs: seq<Phase>, m: Module)
    requires NobodyServed(cs)
    ensures Counting(cs, m) == 0
  {
    if cs != [] {
      NobodyCounted(cs[1..], m);
      assert Counting(cs, m) == Counted(cs[0], m) + Counting(cs[1..], m);
    }
  }
}
