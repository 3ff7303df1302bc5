/** Fetching one article over the providers: failover on 430 answers, and the slot a fetch holds. */
module Failover {
  import opened Common
  import S = ProviderSlots

  type Id = string

  /** A provider as the failover sees it; no roles means every role. */
  datatype Provider = Provider(id: Id, roles: set<string>)

  function RoleForScope(scope: string): string {
    if scope == "downloader" then "download"
    else if scope == "recover_yenc" then "yenc_recovery"
    else if scope == "scrape" then "scrape"
    else if scope in ["inspect_discovery", "inspect_par2", "inspect_nfo", "inspect_archive", "inspect_password",
                      "inspect_media"] then "inspection"
    else ""
  }

  predicate Allows(p: Provider, scope: string) {
    var role := RoleForScope(scope);
    role == "" || p.roles == {} || role in p.roles
  }

  const INSPECTIONS := ["inspect_discovery", "inspect_par2", "inspect_nfo", "inspect_archive", "inspect_password",
                        "inspect_media"]

  /** Which providers may serve which scope: each of the named scopes needs its role, where a provider has any. */
  lemma AllowsExactly(p: Provider, scope: string)
    ensures p.roles == {} ==> Allows(p, scope)
    ensures p.roles != {} ==>
              (Allows(p, scope)
               <==> && (scope == "downloader" ==> "download" in p.roles)
                    && (scope == "recover_yenc" ==> "yenc_recovery" in p.roles)
                    && (scope == "scrape" ==> "scrape" in p.roles)
                    && (scope in INSPECTIONS ==> "inspection" in p.roles))
  {
  }

  /** What a provider answers: an article, `430`, or any other error. */
  datatype Answer = Body | NoSuchArticle | Broken

  datatype Outcome = Reader | NotFound(attempts: seq<Id>) | Failed | Cancelled | Busy

  /** The segment being fetched; `missing` is its `MissingFrom`. */
  class Segment {
    var missing: set<Id>
  }

  /** How many of the first `n` providers may serve the scope. */
  function EligibleCount(ps: seq<Provider>, scope: string, n: nat): nat
    requires n <= |ps|
  {
    if n == 0 then 0 else EligibleCount(ps, scope, n - 1) + if Allows(ps[n - 1], scope) then 1 else 0
  }

  function MissingCount(ps: seq<Provider>, scope: string, missing: set<Id>, n: nat): nat
    requires n <= |ps|
  {
    if n == 0 then 0
    else
      MissingCount(ps, scope, missing, n - 1)
      + if Allows(ps[n - 1], scope) && ps[n - 1].id in missing then 1 else 0
  }

  /** Every eligible provider has reported the article missing. */
  predicate AllMissing(ps: seq<Provider>, scope: string, missing: set<Id>) {
    forall i :: 0 <= i < |ps| && Allows(ps[i], scope) ==> ps[i].id in missing
  }

  predicate SomeEligible(ps: seq<Provider>, scope: string) {
    exists i :: 0 <= i < |ps| && Allows(ps[i], scope)
  }

  /** The ids named in a not-found error. */
  function Attempts(ps: seq<Provider>, missing: set<Id>, n: nat): seq<Id>
    requires n <= |ps|
  {
    if n == 0 then []
    else Attempts(ps, missing, n - 1) + if ps[n - 1].id in missing then [ps[n - 1].id] else []
  }

  function MissingAmong(ps: seq<Provider>, missing: set<Id>, n: nat): nat
    requires n <= |ps|
  {
    if n == 0 then 0 else MissingAmong(ps, missing, n - 1) + if ps[n - 1].id in missing then 1 else 0
  }

  /** The error names each missing provider at the place given by how many missing ones stand before it, and no other. */
  lemma {:induction false} AttemptAt(ps: seq<Provider>, missing: set<Id>, n: nat, i: nat)
    requires n <= |ps|
    ensures |Attempts(ps, missing, n)| == MissingAmong(ps, missing, n)
    ensures i < n && ps[i].id in missing ==>
              MissingAmong(ps, missing, i) < MissingAmong(ps, missing, n)
              && Attempts(ps, missing, n)[MissingAmong(ps, missing, i)] == ps[i].id
  {
    if n > 0 {
      AttemptAt(ps, missing, n - 1, i);
    }
  }

  /** Eligible providers that have not reported the article missing: what a re-entry of `Fetch` has fewer of. */
  function Left(ps: seq<Provider>, scope: string, missing: set<Id>): nat {
    MissingAtMostEligible(ps, scope, missing, |ps|);
    EligibleCount(ps, scope, |ps|) - MissingCount(ps, scope, missing, |ps|)
  }

  lemma {:induction false} MissingAtMostEligible(ps: seq<Provider>, scope: string, missing: set<Id>, n: nat)
    requires n <= |ps|
    ensures MissingCount(ps, scope, missing, n) <= EligibleCount(ps, scope, n)
  {
    if n > 0 {
      MissingAtMostEligible(ps, scope, missing, n - 1);
    }
  }

  /** The counts agree exactly when every eligible provider is missing. */
  lemma {:induction false} CountsDecide(ps: seq<Provider>, scope: string, missing: set<Id>, n: nat)
    requires n <= |ps|
    ensures MissingCount(ps, scope, missing, n) == EligibleCount(ps, scope, n)
            <==> forall i :: 0 <= i < n && Allows(ps[i], scope) ==> ps[i].id in missing
    ensures EligibleCount(ps, scope, n) > 0 <==> exists i :: 0 <= i < n && Allows(ps[i], scope)
  {
    if n > 0 {
      CountsDecide(ps, scope, missing, n - 1);
      MissingAtMostEligible(ps, scope, missing, n - 1);
    }
  }

  lemma {:induction false} MissingGrows(ps: seq<Provider>, scope: string, small: set<Id>, large: set<Id>, n: nat)
    requires n <= |ps| && small <= large
    ensures MissingCount(ps, scope, small, n) <= MissingCount(ps, scope, large, n)
    ensures forall i :: 0 <= i < n && Allows(ps[i], scope) && ps[i].id in large && ps[i].id !in small
                        ==> MissingCount(ps, scope, small, n) < MissingCount(ps, scope, large, n)
  {
    if n > 0 {
      MissingGrows(ps, scope, small, large, n - 1);
    }
  }

  /** One more eligible provider missing leaves strictly fewer. */
  lemma FewerLeft(ps: seq<Provider>, scope: string, small: set<Id>, large: set<Id>, p: nat)
    requires small <= large && p < |ps| && Allows(ps[p], scope) && ps[p].id in large && ps[p].id !in small
    ensures Left(ps, scope, large) < Left(ps, scope, small)
  {
    MissingGrows(ps, scope, small, large, |ps|);
  }

  /** The answers a call got, in order; `missing` grows by the ids of those that answered 430. */
  type Answers = seq<(nat, Answer)>

  ghost predicate Consistent(ps: seq<Provider>, scope: string, before: set<Id>, after: set<Id>, asked: Answers) {
    && before <= after
    && (forall e | e in asked :: e.0 < |ps| && Allows(ps[e.0], scope) && ps[e.0].id !in before)
    && (forall e | e in asked && e.1 == NoSuchArticle :: ps[e.0].id in after)
    && (forall id | id in after && id !in before :: Reported(ps, asked, id))
  }

  ghost predicate Reported(ps: seq<Provider>, asked: Answers, id: Id) {
    exists e :: e in asked && e.1 == NoSuchArticle && e.0 < |ps| && ps[e.0].id == id
  }

  lemma ConsistentAdd(ps: seq<Provider>, scope: string, before: set<Id>, after: set<Id>, asked: Answers,
                      p: nat, answer: Answer)
    requires Consistent(ps, scope, before, after, asked)
    requires p < |ps| && Allows(ps[p], scope) && ps[p].id !in after
    ensures var more := if answer == NoSuchArticle then {ps[p].id} else {};
            Consistent(ps, scope, before, after + more, asked + [(p, answer)])
  {
    var more := if answer == NoSuchArticle then {ps[p].id} else {};
    forall id | id in after + more && id !in before ensures Reported(ps, asked + [(p, answer)], id) {
      if id in after {
        assert Reported(ps, asked, id);
        var e :| e in asked && e.1 == NoSuchArticle && e.0 < |ps| && ps[e.0].id == id;
        assert e in asked + [(p, answer)];
      } else {
        assert (p, answer) in asked + [(p, answer)];
      }
    }
  }

  lemma ConsistentJoin(ps: seq<Provider>, scope: string, a: set<Id>, b: set<Id>, c: set<Id>, x: Answers, y: Answers)
    requires Consistent(ps, scope, a, b, x) && Consistent(ps, scope, b, c, y)
    ensures Consistent(ps, scope, a, c, x + y)
  {
    forall id | id in c && id !in a ensures Reported(ps, x + y, id) {
      if id in b {
        assert Reported(ps, x, id);
        var e :| e in x && e.1 == NoSuchArticle && e.0 < |ps| && ps[e.0].id == id;
        assert e in x + y;
      } else {
        assert Reported(ps, y, id);
        var e :| e in y && e.1 == NoSuchArticle && e.0 < |ps| && ps[e.0].id == id;
        assert e in x + y;
      }
    }
  }

  /** What the outcome of a fetch says, given the answers it got and how `missing` grew. */
  ghost predicate Explained(ps: seq<Provider>, waits: bool, scope: string, before: set<Id>, after: set<Id>,
                            asked: Answers, r: Outcome) {
    && Consistent(ps, scope, before, after, asked)
    // not found: exactly when somebody is eligible and all of those reported 430
    && (r.NotFound? ==>
          SomeEligible(ps, scope) && AllMissing(ps, scope, after) && r.attempts == Attempts(ps, after, |ps|))
    && (SomeEligible(ps, scope) && AllMissing(ps, scope, after) ==> r.NotFound? || r.Cancelled?)
    // an error only when a provider broke; busy only when none did, and while waiting only when nobody is eligible
    && (r.Failed? ==> SomeBroken(asked))
    && (r.Busy? ==> OnlyMissing(asked))
    && (r.Busy? && waits ==> !SomeEligible(ps, scope))
    // one pass goes down the providers by priority
    && (!waits ==> InPriorityOrder(asked))
    && (!SomeEligible(ps, scope) ==> asked == [] && (r.Busy? || r.Cancelled?))
  }

  /** No provider was asked after one of lower priority, and none twice. */
  predicate InPriorityOrder(asked: Answers) {
    forall i, j :: 0 <= i < j < |asked| ==> asked[i].0 < asked[j].0
  }

  predicate SomeBroken(asked: Answers) {
    exists e :: e in asked && e.1 == Broken
  }

  predicate OnlyBefore(asked: Answers, p: nat) {
    forall e | e in asked :: e.0 < p
  }

  lemma AskNext(asked: Answers, p: nat, answer: Answer)
    requires InPriorityOrder(asked) && OnlyBefore(asked, p)
    ensures InPriorityOrder(asked + [(p, answer)]) && OnlyBefore(asked + [(p, answer)], p + 1)
    ensures OnlyMissing(asked + [(p, answer)]) <==> OnlyMissing(asked) && answer == NoSuchArticle
    ensures SomeBroken(asked + [(p, answer)]) <==> SomeBroken(asked) || answer == Broken
    ensures (p, answer) in asked + [(p, answer)]
  {
    assert SomeBroken(asked) ==> SomeBroken(asked + [(p, answer)]) by {
      if SomeBroken(asked) {
        var e :| e in asked && e.1 == Broken;
        assert e in asked + [(p, answer)];
      }
    }
    assert answer == Broken ==> SomeBroken(asked + [(p, answer)]) by {
      assert (p, answer) in asked + [(p, answer)];
    }
    forall i | 0 <= i < |asked| ensures asked[i].0 < p {
      assert asked[i] in asked;
    }
    assert OnlyMissing(asked + [(p, answer)]) ==> OnlyMissing(asked) by {
      assert forall e | e in asked :: e in asked + [(p, answer)];
    }
  }

  function Given(p: nat, answer: Option<Answer>): Answers {
    if answer.Some? then [(p, answer.value)] else []
  }

  /** After the first `p` providers of a pass. */
  ghost predicate Tried(ps: seq<Provider>, scope: string, before: set<Id>, after: set<Id>, asked: Answers, p: nat,
                        broken: bool) {
    && Consistent(ps, scope, before, after, asked)
    && InPriorityOrder(asked) && OnlyBefore(asked, p)
    && (if broken then SomeBroken(asked) else OnlyMissing(asked))
    && (asked != [] ==> SomeEligible(ps, scope))
  }

  lemma TriedOneMore(ps: seq<Provider>, scope: string, before: set<Id>, after: set<Id>, asked: Answers, p: nat,
                     broken: bool, answer: Option<Answer>)
    requires Tried(ps, scope, before, after, asked, p, broken) && p < |ps|
    requires answer.Some? ==> Allows(ps[p], scope) && ps[p].id !in after
    ensures var more := if answer == Some(NoSuchArticle) then {ps[p].id} else {};
            && Consistent(ps, scope, before, after + more, asked + Given(p, answer))
            && InPriorityOrder(asked + Given(p, answer))
            && (answer != Some(Body) ==>
                  Tried(ps, scope, before, after + more, asked + Given(p, answer), p + 1,
                        broken || answer == Some(Broken)))
            && (asked + Given(p, answer) != [] ==> SomeEligible(ps, scope))
  {
    if answer.Some? {
      ConsistentAdd(ps, scope, before, after, asked, p, answer.value);
      AskNext(asked, p, answer.value);
    } else {
      assert asked + Given(p, answer) == asked && after + {} == after;
    }
  }

  predicate OnlyMissing(asked: Answers) {
    forall e | e in asked :: e.1 == NoSuchArticle
  }

  /** What the providers have for one pass: whether a slot is free and the module below its limit at a provider's turn,
      and what it would answer. */
  datatype Pass = Pass(free: nat -> bool, reply: nat -> Answer)

  /** The provider was not passed over: it is missing the article, may not serve the scope, gives no slot, or answered. */
  predicate HadTurn(ps: seq<Provider>, scope: string, missing: set<Id>, asked: Answers, pass: Pass, p: nat)
    requires p < |ps|
  {
    ps[p].id in missing || !Allows(ps[p], scope) || !pass.free(p) || (p, pass.reply(p)) in asked
  }

  predicate AllHadTurns(ps: seq<Provider>, scope: string, missing: set<Id>, asked: Answers, pass: Pass, n: nat) {
    forall p :: 0 <= p < n && p < |ps| ==> HadTurn(ps, scope, missing, asked, pass, p)
  }

  /** The answers are those the pass holds, from providers with a free slot. */
  predicate FromPass(asked: Answers, pass: Pass) {
    forall e | e in asked :: pass.free(e.0) && e.1 == pass.reply(e.0)
  }

  lemma TurnsStay(ps: seq<Provider>, scope: string, missing: set<Id>, asked: Answers, pass: Pass, n: nat,
                  missing': set<Id>, more: Answers)
    requires AllHadTurns(ps, scope, missing, asked, pass, n) && missing <= missing'
    ensures AllHadTurns(ps, scope, missing', asked + more, pass, n)
  {
    forall p | 0 <= p < n && p < |ps| ensures HadTurn(ps, scope, missing', asked + more, pass, p) {
      assert HadTurn(ps, scope, missing, asked, pass, p);
    }
  }

  lemma OneMoreTurn(ps: seq<Provider>, scope: string, missing: set<Id>, asked: Answers, pass: Pass, p: nat,
                    missing': set<Id>, answer: Option<Answer>)
    requires AllHadTurns(ps, scope, missing, asked, pass, p) && p < |ps| && missing <= missing'
    requires FromPass(asked, pass)
    requires answer == if ps[p].id !in missing && Allows(ps[p], scope) && pass.free(p) then Some(pass.reply(p)) else None
    ensures AllHadTurns(ps, scope, missing', asked + Given(p, answer), pass, p + 1)
    ensures FromPass(asked + Given(p, answer), pass)
  {
    TurnsStay(ps, scope, missing, asked, pass, p, missing', Given(p, answer));
    if answer.Some? {
      assert (p, answer.value) in asked + Given(p, answer);
    }
    assert HadTurn(ps, scope, missing', asked + Given(p, answer), pass, p);
  }

  lemma ExplainedJoin(ps: seq<Provider>, waits: bool, scope: string, a: set<Id>, b: set<Id>, c: set<Id>,
                      x: Answers, y: Answers, r: Outcome)
    requires Consistent(ps, scope, a, b, x) && OnlyMissing(x) && (!SomeEligible(ps, scope) ==> x == [])
    requires waits && Explained(ps, waits, scope, b, c, y, r)
    ensures Explained(ps, waits, scope, a, c, x + y, r)
  {
    ConsistentJoin(ps, scope, a, b, c, x, y);
    if r.Failed? {
      var e :| e in y && e.1 == Broken;
      assert e in x + y;
    }
  }

  lemma NoMoreLeft(ps: seq<Provider>, scope: string, small: set<Id>, large: set<Id>)
    requires small <= large
    ensures Left(ps, scope, large) <= Left(ps, scope, small)
  {
    MissingGrows(ps, scope, small, large, |ps|);
  }

  // ---------------------------------------------------------------- the steps on slots and counters

  /** What a call did to the slots and counters, as steps of one caller there. */
  type Steps = seq<S.Action>

  /** A limit check that passed, a slot, its count. */
  function Taking(m: S.Module, limit: int, p: nat): Steps {
    [S.Check(m, limit), S.Take(p), S.Count]
  }

  /** Limit checks that passed and found no slot. */
  function Rounds(m: S.Module, limit: int, n: nat): Steps {
    if n == 0 then [] else [S.Check(m, limit), S.GiveUp] + Rounds(m, limit, n - 1)
  }

  const GIVING_BACK: Steps := [S.Return, S.Uncount]

  /** The steps lead an idle caller to where it holds what `reader` says. */
  ghost predicate LeadsTo(m: S.Module, steps: Steps, p: Option<nat>) {
    S.Walk(S.Idle, steps) == Some(if p.Some? then S.Reading(m, p.value) else S.Idle)
  }

  lemma Two(c: S.Phase, a: S.Action, b: S.Action, rest: Steps)
    requires S.CallerNext(c, a).Some? && S.CallerNext(S.CallerNext(c, a).value, b).Some?
    ensures S.Walk(c, [a, b] + rest) == S.Walk(S.CallerNext(S.CallerNext(c, a).value, b).value, rest)
  {
    assert ([a, b] + rest)[1..] == [b] + rest && ([b] + rest)[1..] == rest;
  }

  lemma TakingLeads(m: S.Module, limit: int, p: nat)
    ensures S.Walk(S.Idle, Taking(m, limit, p)) == Some(S.Running(m, p))
  {
    assert Taking(m, limit, p) == [S.Check(m, limit), S.Take(p)] + [S.Count];
    Two(S.Idle, S.Check(m, limit), S.Take(p), [S.Count]);
    assert [S.Count][1..] == [];
  }

  lemma {:induction false} RoundsLeadNowhere(m: S.Module, limit: int, n: nat)
    ensures S.Walk(S.Idle, Rounds(m, limit, n)) == Some(S.Idle)
  {
    if n > 0 {
      Two(S.Idle, S.Check(m, limit), S.GiveUp, Rounds(m, limit, n - 1));
      RoundsLeadNowhere(m, limit, n - 1);
    }
  }

  lemma GivingBackLeads(m: S.Module, p: nat)
    ensures S.Walk(S.Running(m, p), GIVING_BACK) == Some(S.Idle)
    ensures S.Walk(S.Reading(m, p), [S.Close, S.Uncount]) == Some(S.Idle)
  {
    assert GIVING_BACK + [] == GIVING_BACK && [S.Close, S.Uncount] + [] == [S.Close, S.Uncount];
    Two(S.Running(m, p), S.Return, S.Uncount, []);
    Two(S.Reading(m, p), S.Close, S.Uncount, []);
  }

  lemma DeliverLeads(m: S.Module, p: nat)
    ensures S.Walk(S.Running(m, p), [S.Deliver]) == Some(S.Reading(m, p))
  {
    assert [S.Deliver][1..] == [];
  }

  /** A fetched article's slot is given back by the first `Close` of its reader: the caller is idle again. */
  lemma ClosingEndsTheWalk(m: S.Module, steps: Steps, p: nat)
    requires LeadsTo(m, steps, Some(p))
    ensures LeadsTo(m, steps + [S.Close, S.Uncount], None)
  {
    S.WalkOn(S.Idle, steps, [S.Close, S.Uncount]);
    GivingBackLeads(m, p);
  }

  /** What waiting for a provider ends with. */
  datatype Wait = Granted(p: nat) | NoneEligible | NoneLeft | WaitCancelled

  /** The fetching side of the manager, for one caller: `held` are the slots it holds, provider by provider. */
  class Manager {
    const providers: seq<Provider>
    const waitQueue: bool
    var held: seq<nat>

    constructor (providers: seq<Provider>, waitQueue: bool)
      ensures this.providers == providers && this.waitQueue == waitQueue
      ensures held == seq(|providers|, _ => 0)
    {
      this.providers, this.waitQueue := providers, waitQueue;
      held := seq(|providers|, _ => 0);
    }

    predicate Valid()
      reads this
    {
      |held| == |providers|
    }

    /** Whether a slot is free and the module below its limit is up to the other callers. */
    method Acquire(scope: string, p: nat, free: bool) returns (acquired: bool, ghost steps: Steps)
      requires Valid() && p < |providers|
      modifies this
      ensures Valid() && (acquired <==> Allows(providers[p], scope) && free)
      ensures held == if acquired then old(held)[p := old(held)[p] + 1] else old(held)
      ensures S.Walk(S.Idle, steps) == Some(if acquired then S.Running(S.ModuleForScope(scope), p) else S.Idle)
    {
      ghost var m, limit, checked := S.ModuleForScope(scope), *, *;
      steps := [];
      if !Allows(providers[p], scope) {
        return false, steps;
      }
      acquired := free;
      if acquired {
        TakingLeads(m, limit, p);
        steps := Taking(m, limit, p);
        held := held[p := held[p] + 1];
      } else {
        RoundsLeadNowhere(m, limit, if checked then 1 else 0);
        steps := Rounds(m, limit, if checked then 1 else 0);
      }
    }

    method ReleaseForScope(p: nat)
      requires Valid() && p < |providers| && held[p] > 0
      modifies this
      ensures Valid() && held == old(held)[p := old(held)[p] - 1]
    {
      held := held[p := held[p] - 1];
    }

    method EligibleProviders(scope: string) returns (n: nat)
      ensures n == EligibleCount(providers, scope, |providers|)
    {
      n := 0;
      for i := 0 to |providers|
        invariant n == EligibleCount(providers, scope, i)
      {
        if Allows(providers[i], scope) {
          n := n + 1;
        }
      }
    }

    method MissingEligibleProviderCount(scope: string, seg: Segment) returns (n: nat)
      ensures n == MissingCount(providers, scope, seg.missing, |providers|)
    {
      n := 0;
      for i := 0 to |providers|
        invariant n == MissingCount(providers, scope, seg.missing, i)
      {
        if Allows(providers[i], scope) && providers[i].id in seg.missing {
          n := n + 1;
        }
      }
    }

    method ArticleNotFoundError(seg: Segment) returns (r: Outcome)
      ensures r == NotFound(Attempts(providers, seg.missing, |providers|))
    {
      var attempts: seq<Id> := [];
      for i := 0 to |providers|
        invariant attempts == Attempts(providers, seg.missing, i)
      {
        if providers[i].id in seg.missing {
          attempts := attempts + [providers[i].id];
        }
      }
      return NotFound(attempts);
    }

    /** Ask the provider whose slot is held: the slot goes into the reader, or back. */
    method FetchFromAcquiredProvider(scope: string, p: nat, seg: Segment, answer: Answer)
      returns (reader: ReleaseReader?, ghost steps: Steps)
      requires Valid() && p < |providers| && held[p] > 0
      modifies this, seg
      ensures Valid()
      ensures answer == Body <==> reader != null
      ensures reader != null ==> fresh(reader) && reader.Open() && reader.manager == this && reader.provider == p
      ensures held == if answer == Body then old(held) else old(held)[p := old(held)[p] - 1]
      ensures seg.missing == old(seg.missing) + (if answer == NoSuchArticle then {providers[p].id} else {})
      ensures var m := S.ModuleForScope(scope);
              S.Walk(S.Running(m, p), steps) == Some(if answer == Body then S.Reading(m, p) else S.Idle)
    {
      reader := null;
      GivingBackLeads(S.ModuleForScope(scope), p);
      DeliverLeads(S.ModuleForScope(scope), p);
      steps := if answer == Body then [S.Deliver] else GIVING_BACK;
      if answer != Body {
        ReleaseForScope(p);
        if answer == NoSuchArticle {
          seg.missing := seg.missing + {providers[p].id};
        }
        return;
      }
      reader := new ReleaseReader(this, p);
    }

    /** Any number of rounds without a slot, and then one when it was granted. */
    ghost method WaitingSteps(m: S.Module, p: nat, granted: bool) returns (steps: Steps)
      ensures S.Walk(S.Idle, steps) == Some(if granted then S.Running(m, p) else S.Idle)
    {
      var limit, n: nat := *, *;
      RoundsLeadNowhere(m, limit, n);
      steps := Rounds(m, limit, n);
      if granted {
        TakingLeads(m, limit, p);
        S.WalkOn(S.Idle, steps, Taking(m, limit, p));
        steps := steps + Taking(m, limit, p);
      }
    }

    /** Wait until one of the eligible providers that are not missing has a slot. */
    method WaitForFetchProvider(scope: string, seg: Segment) returns (w: Wait, ghost steps: Steps)
      requires Valid()
      modifies this
      ensures Valid()
      ensures w.Granted? ==> w.p < |providers| && Allows(providers[w.p], scope) && providers[w.p].id !in seg.missing
      ensures held == if w.Granted? then old(held)[w.p := old(held)[w.p] + 1] else old(held)
      ensures w.NoneEligible? <==> !SomeEligible(providers, scope)
      ensures w.NoneLeft? <==> SomeEligible(providers, scope) && AllMissing(providers, scope, seg.missing)
      ensures S.Walk(S.Idle, steps) == Some(if w.Granted? then S.Running(S.ModuleForScope(scope), w.p) else S.Idle)
    {
      var eligible := 0;
      var candidates: seq<nat> := [];
      for p := 0 to |providers|
        invariant eligible == EligibleCount(providers, scope, p)
        invariant |candidates| == eligible - MissingCount(providers, scope, seg.missing, p)
        invariant forall c | c in candidates ::
                    c < |providers| && Allows(providers[c], scope) && providers[c].id !in seg.missing
      {
        if Allows(providers[p], scope) {
          eligible := eligible + 1;
          if providers[p].id !in seg.missing {
            candidates := candidates + [p];
          }
        }
      }
      CountsDecide(providers, scope, seg.missing, |providers|);
      steps := [];
      if eligible == 0 {
        return NoneEligible, steps;
      }
      if |candidates| == 0 {
        return NoneLeft, steps;
      }
      var cancelled: bool := *;
      var k: nat :| k < |candidates|;
      var p := candidates[k];
      assert p in candidates;
      steps := WaitingSteps(S.ModuleForScope(scope), p, !cancelled);
      if cancelled {
        return WaitCancelled, steps;
      }
      held := held[p := held[p] + 1];
      return Granted(p), steps;
    }

    /** A reader came back exactly with the outcome `Reader`; it owns the one slot this call still holds. */
    ghost predicate HoldsForReader(was: seq<nat>, r: Outcome, reader: ReleaseReader?, seg: Segment, asked: Answers)
      reads this, reader, seg
    {
      && Valid() && |was| == |held|
      && (r == Reader <==> reader != null)
      && (reader == null ==> held == was)
      && (reader != null ==>
            && reader.Open() && reader.manager == this && reader.provider < |was|
            && held == was[reader.provider := was[reader.provider] + 1]
            && (reader.provider, Body) in asked && providers[reader.provider].id !in seg.missing)
    }

    /** The providers whose turn comes before that of the one that delivered. */
    function Before(reader: ReleaseReader?): nat {
      if reader == null then |providers| else reader.provider
    }

    /** Where the reader's slot is. */
    function SlotOf(reader: ReleaseReader?): Option<nat> {
      if reader == null then None else Some(reader.provider)
    }

    /** One pass over the providers in priority order, then waiting when the policy says so, until a body, an error
        or the certainty that no eligible provider has the article. On the slots and counters it is one caller's walk
        that ends idle, or with the reader that came back. */
    method Fetch(scope: string, seg: Segment, pass: Pass)
      returns (r: Outcome, reader: ReleaseReader?, ghost asked: Answers, ghost steps: Steps)
      requires Valid()
      modifies this, seg
      decreases Left(providers, scope, seg.missing), 1
      ensures reader != null ==> fresh(reader)
      ensures HoldsForReader(old(held), r, reader, seg, asked)
      ensures Explained(providers, waitQueue, scope, old(seg.missing), seg.missing, asked, r)
      ensures r != Cancelled ==> AllHadTurns(providers, scope, seg.missing, asked, pass, Before(reader))
      ensures LeadsTo(S.ModuleForScope(scope), steps, SlotOf(reader))
    {
      reader, asked, steps := null, [], [];
      var cancelled: bool := *;
      if cancelled {
        return Cancelled, null, asked, steps;
      }
      var lastErr;
      reader, lastErr, asked, steps := TryEach(scope, seg, pass);
      if reader != null {
        return Reader, reader, asked, steps;
      }
      var eligible := EligibleProviders(scope);
      var missing := MissingEligibleProviderCount(scope, seg);
      CountsDecide(providers, scope, seg.missing, |providers|);
      MissingAtMostEligible(providers, scope, seg.missing, |providers|);
      if eligible > 0 && missing >= eligible {
        r := ArticleNotFoundError(seg);
        return r, null, asked, steps;
      }
      if lastErr {
        return Failed, null, asked, steps;
      }
      if waitQueue {
        ghost var first, middle := asked, seg.missing;
        NoMoreLeft(providers, scope, old(seg.missing), seg.missing);
        ghost var more;
        r, reader, asked, more := FetchAfterWait(scope, seg);
        ExplainedJoin(providers, waitQueue, scope, old(seg.missing), middle, seg.missing, first, asked, r);
        TurnsStay(providers, scope, middle, first, pass, |providers|, seg.missing, asked);
        asked := first + asked;
        S.WalkOn(S.Idle, steps, more);
        steps := steps + more;
        return;
      }
      return Busy, null, asked, steps;
    }

    /** The loop over the providers: none is passed over but those missing the article, those that may not serve the
        scope and those without a slot. */
    method TryEach(scope: string, seg: Segment, pass: Pass)
      returns (reader: ReleaseReader?, lastErr: bool, ghost asked: Answers, ghost steps: Steps)
      requires Valid()
      modifies this, seg
      ensures reader != null ==> fresh(reader)
      ensures HoldsForReader(old(held), if reader != null then Reader else Busy, reader, seg, asked)
      ensures Consistent(providers, scope, old(seg.missing), seg.missing, asked) && InPriorityOrder(asked)
      ensures reader == null ==> if lastErr then SomeBroken(asked) else OnlyMissing(asked)
      ensures asked != [] ==> SomeEligible(providers, scope)
      ensures AllHadTurns(providers, scope, seg.missing, asked, pass, Before(reader)) && FromPass(asked, pass)
      ensures LeadsTo(S.ModuleForScope(scope), steps, SlotOf(reader))
    {
      reader, lastErr, asked, steps := null, false, [], [];
      var p := 0;
      while p < |providers|
        invariant p <= |providers| && Valid() && held == old(held) && reader == null
        invariant Tried(providers, scope, old(seg.missing), seg.missing, asked, p, lastErr)
        invariant AllHadTurns(providers, scope, seg.missing, asked, pass, p) && FromPass(asked, pass)
        invariant LeadsTo(S.ModuleForScope(scope), steps, None)
      {
        ghost var before := seg.missing;
        var answer;
        ghost var more;
        answer, reader, more := TryProvider(scope, p, seg, pass);
        TriedOneMore(providers, scope, old(seg.missing), before, asked, p, lastErr, answer);
        OneMoreTurn(providers, scope, before, asked, pass, p, seg.missing, answer);
        asked := asked + Given(p, answer);
        S.WalkOn(S.Idle, steps, more);
        steps := steps + more;
        if reader != null {
          assert (p, Body) in Given(p, answer);
          return;
        }
        lastErr := lastErr || answer == Some(Broken);
        p := p + 1;
      }
    }

    /** The body of that loop: a provider already missing or without a free slot is passed over. */
    method TryProvider(scope: string, p: nat, seg: Segment, pass: Pass)
      returns (answer: Option<Answer>, reader: ReleaseReader?, ghost steps: Steps)
      requires Valid() && p < |providers|
      modifies this, seg
      ensures Valid()
      ensures answer == if providers[p].id !in old(seg.missing) && Allows(providers[p], scope) && pass.free(p)
                        then Some(pass.reply(p)) else None
      ensures answer == Some(Body) <==> reader != null
      ensures reader != null ==> fresh(reader) && reader.Open() && reader.manager == this && reader.provider == p
      ensures held == if answer == Some(Body) then old(held)[p := old(held)[p] + 1] else old(held)
      ensures seg.missing == old(seg.missing) + (if answer == Some(NoSuchArticle) then {providers[p].id} else {})
      ensures LeadsTo(S.ModuleForScope(scope), steps, SlotOf(reader))
    {
      answer, reader, steps := None, null, [];
      if providers[p].id !in seg.missing {
        var acquired;
        acquired, steps := Acquire(scope, p, pass.free(p));
        if acquired {
          answer := Some(pass.reply(p));
          ghost var more;
          reader, more := FetchFromAcquiredProvider(scope, p, seg, pass.reply(p));
          S.WalkOn(S.Idle, steps, more);
          steps := steps + more;
        }
      }
    }

    /** The waiting half of `Fetch`: after a 430 it starts over, with strictly fewer providers left. */
    method FetchAfterWait(scope: string, seg: Segment)
      returns (r: Outcome, reader: ReleaseReader?, ghost asked: Answers, ghost steps: Steps)
      requires Valid() && waitQueue
      requires !(SomeEligible(providers, scope) && AllMissing(providers, scope, seg.missing))
      modifies this, seg
      decreases Left(providers, scope, seg.missing), 0
      ensures reader != null ==> fresh(reader)
      ensures HoldsForReader(old(held), r, reader, seg, asked)
      ensures Explained(providers, waitQueue, scope, old(seg.missing), seg.missing, asked, r)
      ensures LeadsTo(S.ModuleForScope(scope), steps, SlotOf(reader))
    {
      reader, asked := null, [];
      var w;
      w, steps := WaitForFetchProvider(scope, seg);
      if w.NoneEligible? {
        return Busy, null, asked, steps;
      }
      if w.NoneLeft? {
        r := ArticleNotFoundError(seg);
        return r, null, asked, steps;
      }
      if w.WaitCancelled? {
        return Cancelled, null, asked, steps;
      }
      var answer: Answer := *;
      ghost var more;
      reader, more := FetchFromAcquiredProvider(scope, w.p, seg, answer);
      S.WalkOn(S.Idle, steps, more);
      steps := steps + more;
      ConsistentAdd(providers, scope, old(seg.missing), old(seg.missing), asked, w.p, answer);
      asked := asked + [(w.p, answer)];
      if answer == NoSuchArticle {
        FewerLeft(providers, scope, old(seg.missing), seg.missing, w.p);
        ghost var first, middle := asked, seg.missing;
        var pass: Pass := *;
        r, reader, asked, more := Fetch(scope, seg, pass);
        ExplainedJoin(providers, waitQueue, scope, old(seg.missing), middle, seg.missing, first, asked, r);
        asked := first + asked;
        S.WalkOn(S.Idle, steps, more);
        steps := steps + more;
        return;
      }
      assert asked == [(w.p, answer)];
      assert (w.p, answer) in asked;
      if answer == Broken {
        return Failed, null, asked, steps;
      }
      return Reader, reader, asked, steps;
    }
  }

  /** A fetched article's reader, which owns the slot until its first `Close`. */
  class ReleaseReader {
    const manager: Manager
    const provider: nat
    var onClose: bool
    var closes: nat          // how often the wrapped reader was closed

    constructor (manager: Manager, provider: nat)
      requires provider < |manager.providers|
      ensures this.manager == manager && this.provider == provider && onClose && closes == 0
    {
      this.manager, this.provider, onClose, closes := manager, provider, true, 0;
    }

    predicate Open()
      reads this
    {
      onClose && provider < |manager.providers|
    }

    /** Every call closes the wrapped reader; the first gives exactly one slot back, every later one none. */
    method Close() returns (ghost steps: Steps)
      requires manager.Valid() && provider < |manager.providers|
      requires onClose ==> manager.held[provider] > 0
      modifies this, manager
      ensures !onClose && manager.Valid() && closes == old(closes) + 1
      ensures manager.held
              == if old(onClose) then old(manager.held)[provider := old(manager.held)[provider] - 1]
                 else old(manager.held)
      ensures steps == if old(onClose) then [S.Close, S.Uncount] else []
    {
      closes := closes + 1;
      steps := [];
      if onClose {
        manager.ReleaseForScope(provider);
        steps := [S.Close, S.Uncount];
        onClose := false;
      }
    }
  }
}
