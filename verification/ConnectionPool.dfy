/** The pool of connections of one provider: who has a connection, and in what state it comes back. */
module ConnectionPool {
  import opened Common

  /** A dialled connection: the socket, whether the next bytes start a reply, and whether a body read closed it
      because its context had ended. */
  datatype Conn = Conn(open: bool, boundary: bool, aborted: bool)

  /** Where a user of the provider is between two steps; connections are numbered in dialling order. */
  datatype User =
    | Idle
    | Getting                 // `getConn` found the provider not closed
    | Using(c: nat)           // a command is under way on an idle connection
    | Reading(c: nat)         // a `pooledReader` on the body
    | Returning(c: nat)       // `returnConn` entered
    | Pushing(c: nat)         // `returnConn` found the provider not closed

  datatype Pool = Pool(conns: seq<Conn>, pool: seq<nat>, done: bool, draining: bool, users: seq<User>)

  datatype Action =
    | StartGet | Reuse | DropExpired | Dial | DialFails | GetRefused
    | Fail                    // the command failed: close
    | Missing                 // `430`: the reply is complete
    | BodyStarts
    | ReadEnds                // the body was read to its end
    | ReadAborted             // `Read` saw the context ended: close, the reader stays
    | CloseDrains             // `Close` read the rest
    | CloseFails              // `Close` could not: close
    | Discard
    | ReturnExpired | ReturnLate | ReturnGoesOn
    | Push | PushFull
    | CloseProvider | DrainOne | DrainEnds

  function Held(u: User): Option<nat> {
    match u
    case Using(c) => Some(c)
    case Reading(c) => Some(c)
    case Returning(c) => Some(c)
    case Pushing(c) => Some(c)
    case _ => None
  }

  predicate Enabled(max: nat, s: Pool, i: nat, a: Action) {
    if a.CloseProvider? then !s.done
    else if a.DrainOne? then s.draining && s.pool != []
    else if a.DrainEnds? then s.draining && s.pool == []
    else
      i < |s.users|
      && var u := s.users[i];
         match a
         case StartGet => u.Idle? && !s.done
         case GetRefused => u.Idle? && s.done
         case Reuse => u.Getting? && s.pool != []
         case DropExpired => u.Getting? && s.pool != []
         case Dial => u.Getting? && s.pool == []
         case DialFails => u.Getting? && s.pool == []
         case Fail => u.Using?
         case Missing => u.Using?
         case BodyStarts => u.Using?
         case ReadEnds => u.Reading?
         case ReadAborted => u.Reading?
         case CloseDrains => u.Reading?
         case CloseFails => u.Reading?
         case Discard => u.Reading?
         case ReturnExpired => u.Returning?
         case ReturnLate => u.Returning? && s.done
         case ReturnGoesOn => u.Returning? && !s.done
         case Push => u.Pushing? && |s.pool| < max
         case PushFull => u.Pushing? && |s.pool| >= max
         case _ => false
  }

  function Become(s: Pool, i: nat, u: User): Pool
    requires i < |s.users|
  {
    s.(users := s.users[i := u])
  }

  function Shut(s: Pool, c: nat): Pool {
    if c < |s.conns| then s.(conns := s.conns[c := s.conns[c].(open := false)]) else s
  }

  function Mark(s: Pool, c: nat, boundary: bool): Pool {
    if c < |s.conns| then s.(conns := s.conns[c := s.conns[c].(boundary := boundary)]) else s
  }

  function Abort(s: Pool, c: nat): Pool {
    if c < |s.conns| then s.(conns := s.conns[c := s.conns[c].(open := false, aborted := true)]) else s
  }

  function Apply(max: nat, s: Pool, i: nat, a: Action): Pool
    requires Enabled(max, s, i, a)
  {
    match a
    case StartGet => Become(s, i, Getting)
    case GetRefused => s
    case Reuse => Become(s.(pool := s.pool[1..]), i, Using(s.pool[0]))
    case DropExpired => Shut(s.(pool := s.pool[1..]), s.pool[0])
    case Dial => Become(s.(conns := s.conns + [Conn(true, true, false)]), i, Using(|s.conns|))
    case DialFails => Become(s, i, Idle)
    case Fail => Become(Shut(s, s.users[i].c), i, Idle)
    case Missing => Become(s, i, Returning(s.users[i].c))
    case BodyStarts => Become(Mark(s, s.users[i].c, false), i, Reading(s.users[i].c))
    case ReadEnds => Mark(s, s.users[i].c, true)
    case ReadAborted => Abort(s, s.users[i].c)
    case CloseDrains => Become(Mark(s, s.users[i].c, true), i, Returning(s.users[i].c))
    case CloseFails => Become(Shut(s, s.users[i].c), i, Idle)
    case Discard => Become(Shut(s, s.users[i].c), i, Idle)
    case ReturnExpired => Become(Shut(s, s.users[i].c), i, Idle)
    case ReturnLate => Become(Shut(s, s.users[i].c), i, Idle)
    case ReturnGoesOn => Become(s, i, Pushing(s.users[i].c))
    case Push => Become(s.(pool := s.pool + [s.users[i].c]), i, Idle)
    case PushFull => Become(Shut(s, s.users[i].c), i, Idle)
    case CloseProvider => s.(done := true, draining := true)
    case DrainOne => Shut(s.(pool := s.pool[1..]), s.pool[0])
    case DrainEnds => s.(draining := false)
  }

  // ---------------------------------------------------------------- places

  function Is(x: nat, c: nat): int {
    if x == c then 1 else 0
  }

  function Has(u: User, c: nat): int {
    if Held(u) == Some(c) then 1 else 0
  }

  function InPool(pool: seq<nat>, c: nat): int {
    SumOf(pool, (x: nat) => Is(x, c))
  }

  function InUse(users: seq<User>, c: nat): int {
    SumOf(users, (u: User) => Has(u, c))
  }

  function Places(s: Pool, c: nat): int {
    InPool(s.pool, c) + InUse(s.users, c)
  }

  lemma InUseUpdate(users: seq<User>, i: nat, u: User, c: nat)
    requires i < |users|
    ensures InUse(users[i := u], c) == InUse(users, c) - Has(users[i], c) + Has(u, c)
  {
    SumOfUpdate(users, i, u, (v: User) => Has(v, c));
  }

  lemma InPoolPush(pool: seq<nat>, x: nat, c: nat)
    ensures InPool(pool + [x], c) == InPool(pool, c) + Is(x, c)
  {
    SumOfConcat(pool, [x], (y: nat) => Is(y, c));
    assert [x][1..] == [];
  }

  lemma InPoolPop(pool: seq<nat>, c: nat)
    requires pool != []
    ensures InPool(pool[1..], c) == InPool(pool, c) - Is(pool[0], c)
  {
  }

  lemma {:induction false} PooledCounts(pool: seq<nat>, c: nat)
    ensures InPool(pool, c) >= 0
    ensures c in pool ==> InPool(pool, c) >= 1
  {
    if pool != [] {
      PooledCounts(pool[1..], c);
      InPoolPop(pool, c);
    }
  }

  lemma {:induction false} UsersCount(users: seq<User>, c: nat)
    ensures InUse(users, c) >= 0
    ensures forall i :: 0 <= i < |users| && Held(users[i]) == Some(c) ==> InUse(users, c) >= 1
  {
    if users != [] {
      UsersCount(users[1..], c);
      assert InUse(users, c) == Has(users[0], c) + InUse(users[1..], c);
    }
  }

  // ---------------------------------------------------------------- the invariant

  /** A dialled connection is in at most one place; in none it is closed; undialled ones are nowhere. */
  predicate PlaceOk(s: Pool, c: nat) {
    && Places(s, c) <= 1
    && (c >= |s.conns| ==> Places(s, c) == 0)
    && (c < |s.conns| && Places(s, c) == 0 ==> !s.conns[c].open)
  }

  /** What is known of a connection in some place: closed exactly when a read was aborted on it, and everywhere but
      under a body reader the next bytes start a reply. */
  predicate Sound(s: Pool, c: nat, atBoundary: bool) {
    && c < |s.conns|
    && (s.conns[c].open <==> !s.conns[c].aborted)
    && (atBoundary ==> s.conns[c].boundary)
  }

  predicate UserOk(s: Pool, u: User) {
    Held(u).Some? ==> Sound(s, Held(u).value, !u.Reading?)
  }

  ghost predicate Inv(max: nat, s: Pool) {
    && |s.pool| <= max
    && (forall c: nat :: PlaceOk(s, c))
    && (forall k :: 0 <= k < |s.pool| ==> Sound(s, s.pool[k], true))
    && (forall i :: 0 <= i < |s.users| ==> UserOk(s, s.users[i]))
  }

  function Start(users: nat): Pool {
    Pool([], [], false, false, seq(users, _ => Idle))
  }

  lemma {:induction false} NobodyHas(n: nat, c: nat)
    ensures InUse(seq(n, _ => Idle), c) == 0
  {
    if n > 0 {
      var us := seq(n, _ => Idle);
      assert us[1..] == seq(n - 1, _ => Idle);
      NobodyHas(n - 1, c);
    }
  }

  lemma StartInv(max: nat, users: nat)
    ensures Inv(max, Start(users))
  {
    forall c: nat ensures PlaceOk(Start(users), c) {
      NobodyHas(users, c);
    }
  }

  /** Two places of one connection are the same place. */
  lemma OnePlace(s: Pool, i: nat, c: nat)
    requires PlaceOk(s, c) && i < |s.users| && Held(s.users[i]) == Some(c)
    ensures c !in s.pool
    ensures forall j :: 0 <= j < |s.users| && j != i ==> Held(s.users[j]) != Some(c)
  {
    PooledCounts(s.pool, c);
    UsersCount(s.users, c);
    forall j | 0 <= j < |s.users| && j != i ensures Held(s.users[j]) != Some(c) {
      InUseUpdate(s.users, i, Idle, c);
      UsersCount(s.users[i := Idle], c);
      assert s.users[i := Idle][j] == s.users[j];
    }
  }

  lemma HeadOnce(s: Pool)
    requires s.pool != [] && PlaceOk(s, s.pool[0])
    ensures s.pool[0] !in s.pool[1..]
    ensures forall j :: 0 <= j < |s.users| ==> Held(s.users[j]) != Some(s.pool[0])
  {
    InPoolPop(s.pool, s.pool[0]);
    PooledCounts(s.pool[1..], s.pool[0]);
    UsersCount(s.users, s.pool[0]);
  }

  /** The state in which user `i`, holding `c`, did something to it and kept it or let it go. */
  lemma HolderStep(max: nat, s: Pool, i: nat, u: User, conn: Conn)
    requires Inv(max, s) && i < |s.users| && Held(s.users[i]).Some?
    requires Held(u) == Held(s.users[i]) || (Held(u) == None && !conn.open)
    requires Held(u).Some? ==> (conn.open <==> !conn.aborted) && (u.Reading? || conn.boundary)
    ensures var c := Held(s.users[i]).value;
            c < |s.conns| && Inv(max, s.(conns := s.conns[c := conn], users := s.users[i := u]))
  {
    var c := Held(s.users[i]).value;
    assert UserOk(s, s.users[i]);
    var s' := s.(conns := s.conns[c := conn], users := s.users[i := u]);
    OnePlace(s, i, c);
    forall d: nat ensures PlaceOk(s', d) {
      assert PlaceOk(s, d);
      InUseUpdate(s.users, i, u, d);
      UsersCount(s.users, d);
      PooledCounts(s.pool, d);
    }
    forall k | 0 <= k < |s'.pool| ensures Sound(s', s'.pool[k], true) {
      assert Sound(s, s.pool[k], true);
    }
    forall j | 0 <= j < |s'.users| ensures UserOk(s', s'.users[j]) {
      assert UserOk(s, s.users[j]);
    }
  }

  /** A user that holds nothing takes nothing, and the flags move. */
  lemma FreeStep(max: nat, s: Pool, i: nat, u: User, done: bool, draining: bool)
    requires Inv(max, s) && i < |s.users| && Held(s.users[i]) == None && Held(u) == None
    ensures Inv(max, s.(users := s.users[i := u], done := done, draining := draining))
  {
    var s' := s.(users := s.users[i := u], done := done, draining := draining);
    forall c: nat ensures PlaceOk(s', c) {
      assert PlaceOk(s, c);
      InUseUpdate(s.users, i, u, c);
    }
    forall k | 0 <= k < |s'.pool| ensures Sound(s', s'.pool[k], true) {
      assert Sound(s, s.pool[k], true);
    }
    forall j | 0 <= j < |s'.users| ensures UserOk(s', s'.users[j]) {
      assert UserOk(s, s.users[j]);
    }
  }

  lemma FlagStep(max: nat, s: Pool, done: bool, draining: bool)
    requires Inv(max, s)
    ensures Inv(max, s.(done := done, draining := draining))
  {
    var s' := s.(done := done, draining := draining);
    forall c: nat ensures PlaceOk(s', c) {
      assert PlaceOk(s, c);
    }
    forall k | 0 <= k < |s'.pool| ensures Sound(s', s'.pool[k], true) {
      assert Sound(s, s.pool[k], true);
    }
    forall j | 0 <= j < |s'.users| ensures UserOk(s', s'.users[j]) {
      assert UserOk(s, s.users[j]);
    }
  }

  lemma ReuseStep(max: nat, s: Pool, i: nat)
    requires Inv(max, s) && i < |s.users| && s.users[i].Getting? && s.pool != []
    ensures Inv(max, Apply(max, s, i, Reuse))
  {
    var s' := Apply(max, s, i, Reuse);
    assert Sound(s, s.pool[0], true);
    forall c: nat ensures PlaceOk(s', c) {
      assert PlaceOk(s, c);
      InUseUpdate(s.users, i, Using(s.pool[0]), c);
      InPoolPop(s.pool, c);
    }
    forall k | 0 <= k < |s'.pool| ensures Sound(s', s'.pool[k], true) {
      assert Sound(s, s.pool[k + 1], true);
    }
    forall j | 0 <= j < |s'.users| ensures UserOk(s', s'.users[j]) {
      assert UserOk(s, s.users[j]);
    }
  }

  lemma PushStep(max: nat, s: Pool, i: nat)
    requires Inv(max, s) && i < |s.users| && s.users[i].Pushing? && |s.pool| < max
    ensures Inv(max, Apply(max, s, i, Push))
  {
    var s' := Apply(max, s, i, Push);
    assert UserOk(s, s.users[i]);
    forall c: nat ensures PlaceOk(s', c) {
      assert PlaceOk(s, c);
      InUseUpdate(s.users, i, Idle, c);
      InPoolPush(s.pool, s.users[i].c, c);
    }
    forall k | 0 <= k < |s'.pool| ensures Sound(s', s'.pool[k], true) {
      assert k < |s.pool| ==> Sound(s, s.pool[k], true);
    }
    forall j | 0 <= j < |s'.users| ensures UserOk(s', s'.users[j]) {
      assert UserOk(s, s.users[j]);
    }
  }

  lemma DialStep(max: nat, s: Pool, i: nat)
    requires Inv(max, s) && i < |s.users| && s.users[i].Getting? && s.pool == []
    ensures Inv(max, Apply(max, s, i, Dial))
  {
    var s' := Apply(max, s, i, Dial);
    forall c: nat ensures PlaceOk(s', c) {
      assert PlaceOk(s, c);
      InUseUpdate(s.users, i, Using(|s.conns|), c);
    }
    forall j | 0 <= j < |s'.users| ensures UserOk(s', s'.users[j]) {
      assert UserOk(s, s.users[j]);
    }
  }

  /** The head of the pool is taken out and closed. */
  lemma DropStep(max: nat, s: Pool)
    requires Inv(max, s) && s.pool != []
    ensures Inv(max, Shut(s.(pool := s.pool[1..]), s.pool[0]))
  {
    var s' := Shut(s.(pool := s.pool[1..]), s.pool[0]);
    assert Sound(s, s.pool[0], true) && PlaceOk(s, s.pool[0]);
    HeadOnce(s);
    forall c: nat ensures PlaceOk(s', c) {
      assert PlaceOk(s, c);
      InPoolPop(s.pool, c);
      PooledCounts(s.pool[1..], c);
      UsersCount(s.users, c);
    }
    forall k | 0 <= k < |s'.pool| ensures Sound(s', s'.pool[k], true) {
      assert Sound(s, s.pool[k + 1], true) && s'.pool[k] in s.pool[1..];
    }
    forall j | 0 <= j < |s'.users| ensures UserOk(s', s'.users[j]) {
      assert UserOk(s, s.users[j]);
    }
  }

  lemma StepKeepsInv(max: nat, s: Pool, i: nat, a: Action)
    requires Inv(max, s) && Enabled(max, s, i, a)
    ensures Inv(max, Apply(max, s, i, a))
  {
    var s' := Apply(max, s, i, a);
    if a.CloseProvider? || a.DrainEnds? || a.GetRefused? {
      FlagStep(max, s, s'.done, s'.draining);
    } else if a.DrainOne? || a.DropExpired? {
      DropStep(max, s);
    } else if a.StartGet? || a.DialFails? {
      FreeStep(max, s, i, s'.users[i], s.done, s.draining);
    } else if a.Reuse? {
      ReuseStep(max, s, i);
    } else if a.Dial? {
      DialStep(max, s, i);
    } else if a.Push? {
      PushStep(max, s, i);
    } else {
      assert UserOk(s, s.users[i]);
      var c := s.users[i].c;
      HolderStep(max, s, i, s'.users[i], s'.conns[c]);
      assert s' == s.(conns := s.conns[c := s'.conns[c]], users := s.users[i := s'.users[i]]);
    }
  }

  // ---------------------------------------------------------------- runs

  ghost predicate Next(max: nat, s: Pool, s': Pool) {
    exists i: nat, a: Action :: Enabled(max, s, i, a) && s' == Apply(max, s, i, a)
  }

  ghost predicate IsRun(max: nat, run: seq<Pool>) {
    && run != [] && run[0] == Start(|run[0].users|)
    && forall k :: 0 <= k < |run| - 1 ==> Next(max, run[k], run[k + 1])
  }

  lemma {:induction false} RunKeepsInv(max: nat, run: seq<Pool>, k: nat)
    requires IsRun(max, run) && k < |run|
    ensures Inv(max, run[k])
  {
    if k == 0 {
      StartInv(max, |run[0].users|);
    } else {
      RunKeepsInv(max, run, k - 1);
      assert Next(max, run[k - 1], run[k - 1 + 1]);
      var i: nat, a: Action :| Enabled(max, run[k - 1], i, a) && run[k] == Apply(max, run[k - 1], i, a);
      StepKeepsInv(max, run[k - 1], i, a);
    }
  }

  /** In every reachable state the pool is within its size; a pooled connection is at a command boundary, in no other
      place of the pool, in nobody's hands, and open exactly when no body read was aborted on it. */
  lemma PooledIsClean(max: nat, run: seq<Pool>, k: nat, j: nat)
    requires IsRun(max, run) && k < |run| && j < |run[k].pool|
    ensures var s, c := run[k], run[k].pool[j];
            && |s.pool| <= max && c < |s.conns|
            && s.conns[c].boundary && (s.conns[c].open <==> !s.conns[c].aborted)
            && (forall l :: 0 <= l < |s.pool| && l != j ==> s.pool[l] != c)
            && (forall u :: 0 <= u < |s.users| ==> Held(s.users[u]) != Some(c))
  {
    RunKeepsInv(max, run, k);
    var s, c := run[k], run[k].pool[j];
    assert Sound(s, c, true) && PlaceOk(s, c);
    forall l | 0 <= l < |s.pool| && l != j ensures s.pool[l] != c {
      if s.pool[l] == c {
        TwiceCounts(s.pool, Min(l, j), Max(l, j));
        UsersCount(s.users, c);
      }
    }
    UsersCount(s.users, c);
    PooledCounts(s.pool, c);
  }

  lemma {:induction false} TwiceCounts(pool: seq<nat>, l: nat, j: nat)
    requires l < j < |pool| && pool[l] == pool[j]
    ensures InPool(pool, pool[j]) >= 2
  {
    InPoolPop(pool, pool[j]);
    if l == 0 {
      assert pool[1..][j - 1] == pool[j];
      PooledCounts(pool[1..], pool[j]);
    } else {
      TwiceCounts(pool[1..], l - 1, j - 1);
    }
  }

  /** A connection nobody has and that is not pooled was closed: none leaks, and no two users share one. */
  lemma NoneLeaks(max: nat, run: seq<Pool>, k: nat, c: nat)
    requires IsRun(max, run) && k < |run| && c < |run[k].conns|
    ensures var s := run[k];
            && ((c !in s.pool && forall u :: 0 <= u < |s.users| ==> Held(s.users[u]) != Some(c)) ==> !s.conns[c].open)
            && (forall u, v :: 0 <= u < v < |s.users| && Held(s.users[u]) == Some(c) ==> Held(s.users[v]) != Some(c))
  {
    RunKeepsInv(max, run, k);
    var s := run[k];
    assert PlaceOk(s, c);
    if c !in s.pool && forall u :: 0 <= u < |s.users| ==> Held(s.users[u]) != Some(c) {
      AbsentCounts(s.pool, s.users, c);
    }
    forall u, v | 0 <= u < v < |s.users| && Held(s.users[u]) == Some(c) ensures Held(s.users[v]) != Some(c) {
      OnePlace(s, u, c);
    }
  }

  lemma {:induction false} AbsentCounts(pool: seq<nat>, users: seq<User>, c: nat)
    requires c !in pool && forall u :: 0 <= u < |users| ==> Held(users[u]) != Some(c)
    ensures InPool(pool, c) == 0 && InUse(users, c) == 0
    decreases |pool| + |users|
  {
    if pool != [] {
      AbsentCounts(pool[1..], users, c);
    } else if users != [] {
      AbsentCounts(pool, users[1..], c);
    }
  }

  // ---------------------------------------------------------------- what the pool does not rule out

  /** One user, one connection. */
  function One(open: bool, boundary: bool, aborted: bool, pooled: bool, done: bool, draining: bool, u: User): Pool {
    Pool([Conn(open, boundary, aborted)], if pooled then [0] else [], done, draining, [u])
  }

  /** A read aborted by its context closes the connection, and `Close` still finds the rest of the body buffered. */
  function AbortedReturn(): seq<Pool> {
    [ Start(1),
      Pool([], [], false, false, [Getting]),
      One(true, true, false, false, false, false, Using(0)),
      One(true, false, false, false, false, false, Reading(0)),
      One(false, false, true, false, false, false, Reading(0)),
      One(false, true, true, false, false, false, Returning(0)),
      One(false, true, true, false, false, false, Pushing(0)),
      One(false, true, true, true, false, false, Idle) ]
  }

  /** So a closed connection can be pooled: exactly the aborted ones are, by `PooledIsClean`. */
  lemma ClosedConnectionCanBePooled()
    ensures IsRun(1, AbortedReturn())
    ensures AbortedReturn()[7].pool == [0] && !AbortedReturn()[7].conns[0].open
  {
    var run := AbortedReturn();
    assert run[0] == Start(|run[0].users|);
    forall k | 0 <= k < 7 ensures Next(1, run[k], run[k + 1]) {
      AbortedReturnStep(k);
    }
  }

  lemma AbortedReturnStep(k: nat)
    requires k < 7
    ensures Next(1, AbortedReturn()[k], AbortedReturn()[k + 1])
  {
    var a := if k == 0 then StartGet else if k == 1 then Dial else if k == 2 then BodyStarts
             else if k == 3 then ReadAborted else if k == 4 then CloseDrains else if k == 5 then ReturnGoesOn else Push;
    var s, s' := AbortedReturn()[k], AbortedReturn()[k + 1];
    assert Enabled(1, s, 0, a);
    var r := Apply(1, s, 0, a);
    assert r.conns == s'.conns && r.pool == s'.pool && r.users == s'.users && r.done == s'.done;
    assert r == s';
  }

  /** A connection returned while the provider closes: the check came before `done`, the push after the drain. */
  function LateReturn(): seq<Pool> {
    [ Start(1),
      Pool([], [], false, false, [Getting]),
      One(true, true, false, false, false, false, Using(0)),
      One(true, true, false, false, false, false, Returning(0)),
      One(true, true, false, false, false, false, Pushing(0)),
      One(true, true, false, false, true, true, Pushing(0)),
      One(true, true, false, false, true, false, Pushing(0)),
      One(true, true, false, true, true, false, Idle) ]
  }

  lemma ClosedProviderCanKeepAConnection()
    ensures IsRun(1, LateReturn())
    ensures var end := LateReturn()[7]; end.done && !end.draining && end.pool == [0] && end.conns[0].open
  {
    var run := LateReturn();
    assert run[0] == Start(|run[0].users|);
    forall k | 0 <= k < 7 ensures Next(1, run[k], run[k + 1]) {
      LateReturnStep(k);
    }
  }

  lemma LateReturnStep(k: nat)
    requires k < 7
    ensures Next(1, LateReturn()[k], LateReturn()[k + 1])
  {
    var a := if k == 0 then StartGet else if k == 1 then Dial else if k == 2 then Missing
             else if k == 3 then ReturnGoesOn else if k == 4 then CloseProvider else if k == 5 then DrainEnds else Push;
    var s, s' := LateReturn()[k], LateReturn()[k + 1];
    assert Enabled(1, s, 0, a);
    var r := Apply(1, s, 0, a);
    assert r.conns == s'.conns && r.pool == s'.pool && r.users == s'.users && r.done == s'.done;
    assert r == s';
  }

  predicate NobodyPushes(s: Pool) {
    forall u :: 0 <= u < |s.users| ==> !s.users[u].Pushing?
  }

  /** What may happen from `s` on. */
  ghost predicate IsPath(max: nat, s: Pool, path: seq<Pool>) {
    && path != [] && path[0] == s
    && forall k :: 0 <= k < |path| - 1 ==> Next(max, path[k], path[k + 1])
  }

  ghost predicate CanKeepAConnection(max: nat, s: Pool) {
    exists path: seq<Pool> :: IsPath(max, s, path) && path[|path| - 1].pool != []
  }

  /** Without a user between check and push, or without room, a drained pool stays empty. */
  lemma {:induction false} DrainedStaysEmpty(max: nat, s: Pool, path: seq<Pool>, k: nat)
    requires IsPath(max, s, path) && k < |path|
    requires s.done && !s.draining && s.pool == [] && (NobodyPushes(s) || max == 0)
    ensures path[k].done && !path[k].draining && path[k].pool == [] && (NobodyPushes(path[k]) || max == 0)
  {
    if k > 0 {
      DrainedStaysEmpty(max, s, path, k - 1);
      assert Next(max, path[k - 1], path[k - 1 + 1]);
      var i: nat, a: Action :| Enabled(max, path[k - 1], i, a) && path[k] == Apply(max, path[k - 1], i, a);
    }
  }

  /** A closed and drained provider can still come to keep a connection exactly when there is room and, as the drain
      ends, a user has passed the check of `returnConn` and not pushed yet. */
  lemma LateReturnExactlyWhen(max: nat, s: Pool)
    requires s.done && !s.draining && s.pool == []
    ensures CanKeepAConnection(max, s) <==> max > 0 && !NobodyPushes(s)
  {
    if max > 0 && !NobodyPushes(s) {
      var i: nat :| i < |s.users| && s.users[i].Pushing?;
      var s' := Apply(max, s, i, Push);
      assert Enabled(max, s, i, Push) && IsPath(max, s, [s, s']);
    } else {
      forall path: seq<Pool> | IsPath(max, s, path) ensures path[|path| - 1].pool == [] {
        DrainedStaysEmpty(max, s, path, |path| - 1);
      }
    }
  }
}
