/** The pool's operations as one caller runs them, over the connections in place. */
module PooledProvider {
  import opened Common
  import opened ConnectionPool

  /** Pooled connections are distinct, dialled and at a command boundary. */
  predicate Clean(pool: seq<nat>, conns: seq<Conn>) {
    && (forall k :: 0 <= k < |pool| ==> pool[k] < |conns| && conns[pool[k]].boundary)
    && (forall k, l :: 0 <= k < l < |pool| ==> pool[k] != pool[l])
  }

  /** Every connection outside `touched` is as it was. */
  predicate OthersKept(before: seq<Conn>, after: seq<Conn>, touched: set<nat>) {
    |before| <= |after| && forall c :: 0 <= c < |before| && c !in touched ==> after[c] == before[c]
  }

  /** The pool as `getConn` finds it once the expired connections in front are thrown out. */
  function SkipExpired(pool: seq<nat>, expired: nat -> bool): seq<nat> {
    if pool == [] || !expired(pool[0]) then pool else SkipExpired(pool[1..], expired)
  }

  /** What is thrown out: connections at the front that had expired, as many as there are before the first that had not. */
  lemma {:induction false} SkippedHadExpired(pool: seq<nat>, expired: nat -> bool) returns (n: nat)
    ensures n <= |pool| && SkipExpired(pool, expired) == pool[n..]
    ensures forall i :: 0 <= i < n ==> expired(pool[i])
    ensures n < |pool| ==> !expired(pool[n])
  {
    n := 0;
    if pool != [] && expired(pool[0]) {
      var k := SkippedHadExpired(pool[1..], expired);
      n := k + 1;
    }
  }

  function Closed(conns: seq<Conn>, c: nat): seq<Conn>
    requires c < |conns|
  {
    conns[c := conns[c].(open := false)]
  }

  datatype Pooled = Pooled(pool: seq<nat>, conns: seq<Conn>)

  /** What `returnConn` makes of the pool. */
  function Returned(s: Pooled, max: nat, done: bool, c: nat, expired: bool): (r: Pooled)
    requires c < |s.conns|
    ensures |r.conns| == |s.conns|
  {
    if expired || done || |s.pool| >= max then s.(conns := Closed(s.conns, c)) else s.(pool := s.pool + [c])
  }

  /** What the reader's `Close` makes of the pool: `drained` says whether the rest of the body could be read. */
  function ReaderClosed(s: Pooled, max: nat, done: bool, c: nat, drained: bool, expired: bool): (r: Pooled)
    requires c < |s.conns|
    ensures |r.conns| == |s.conns|
  {
    if drained then Returned(s.(conns := s.conns[c := s.conns[c].(boundary := true)]), max, done, c, expired)
    else s.(conns := Closed(s.conns, c))
  }

  /** No connection is pooled twice, and every pooled one is open. */
  predicate Wholesome(s: Pooled) {
    && (forall k :: 0 <= k < |s.pool| ==> s.pool[k] < |s.conns| && s.conns[s.pool[k]].open)
    && (forall k, l :: 0 <= k < l < |s.pool| ==> s.pool[k] != s.pool[l])
  }

  /** Closing a reader twice: the pool comes out whole exactly when neither call gave the connection back. It is pooled
      twice exactly when both did; when only the first did, the second closed it in the pool, and when only the second
      did, it is pooled closed. */
  lemma ClosingTwice(s: Pooled, max: nat, c: nat, done: bool, drained: bool, expired: bool,
                     done': bool, drained': bool, expired': bool)
    requires Wholesome(s) && |s.pool| <= max && c < |s.conns| && c !in s.pool && s.conns[c].open
    ensures var once := ReaderClosed(s, max, done, c, drained, expired);
            var twice := ReaderClosed(once, max, done', c, drained', expired');
            var first, second := drained && !expired && !done && |s.pool| < max,
                                 drained' && !expired' && !done' && |once.pool| < max;
            && Wholesome(once)
            && (Wholesome(twice) <==> !first && !second)
            && (twice.pool == s.pool + [c, c] <==> first && second)
            && (first != second <==> twice.pool == s.pool + [c] && !twice.conns[c].open)
  {
    var once := ReaderClosed(s, max, done, c, drained, expired);
    var twice := ReaderClosed(once, max, done', c, drained', expired');
    var first, second := drained && !expired && !done && |s.pool| < max,
                         drained' && !expired' && !done' && |once.pool| < max;
    assert once.pool == if first then s.pool + [c] else s.pool;
    assert twice.pool == if second then once.pool + [c] else once.pool;
    if first && second {
      var n := |s.pool|;
      assert twice.pool[n] == c && twice.pool[n + 1] == c;
    } else if first || second {
      assert twice.pool[|s.pool|] == c;
    }
  }

  /** What a `BODY` command comes to: the article, `430`, or a failure, from which a fresh connection may recover. */
  datatype Reply = ArticleFollows | NoSuchArticle | Failure(recoverable: bool)

  /** What one attempt at a fetch meets: which pooled connections have expired, whether a dial succeeds, the reply, and
      whether the connection has expired by then. */
  datatype Conditions = Conditions(expired: nat -> bool, dials: bool, reply: Reply, expiredAfter: bool)

  class NntpProvider {
    const max: nat
    var conns: seq<Conn>
    var pool: seq<nat>
    var done: bool

    constructor (max: nat)
      ensures Valid() && this.max == max && conns == [] && pool == [] && !done
    {
      this.max := max;
      conns, pool, done := [], [], false;
    }

    predicate Valid()
      reads this
    {
      |pool| <= max && Clean(pool, conns)
    }

    function State(): Pooled
      reads this
    {
      Pooled(pool, conns)
    }

    method CloseConn(c: nat)
      requires c < |conns|
      modifies this`conns
      ensures conns == Closed(old(conns), c) && (old(Valid()) ==> Valid())
    {
      conns := conns[c := conns[c].(open := false)];
    }

    /** The receive from the pool's channel. */
    method Receive() returns (c: nat)
      requires Valid() && pool != []
      modifies this`pool
      ensures Valid() && c == old(pool)[0] && pool == old(pool)[1..] && c !in pool
      ensures forall d :: d in old(pool) <==> d == c || d in pool
    {
      c := pool[0];
      assert pool == [c] + pool[1..];
      assert forall k :: 0 <= k < |pool| - 1 ==> pool[1..][k] == pool[k + 1];
      pool := pool[1..];
    }

    /** The first pooled connection that has not expired, or a new one when the dial succeeds; the expired ones passed
        over are closed, and what is left in the pool is untouched. */
    method GetConn(expired: nat -> bool, dials: bool) returns (r: Option<nat>)
      requires Valid()
      modifies this`conns, this`pool
      ensures Valid()
      ensures done ==> r == None && State() == old(State())
      ensures !done ==>
                var rest := SkipExpired(old(pool), expired);
                && r == (if rest != [] then Some(rest[0]) else if dials then Some(|old(conns)|) else None)
                && pool == (if rest != [] then rest[1..] else [])
                && |conns| == |old(conns)| + if rest == [] && dials then 1 else 0
      ensures r.Some? ==>
                && r.value < |conns| && r.value !in pool && conns[r.value].boundary
                && (if r.value < |old(conns)| then r.value in old(pool) && conns[r.value] == old(conns)[r.value]
                    else conns[r.value] == Conn(true, true, false))
      ensures forall c | c in pool :: c in old(pool)
      ensures forall c | c in old(pool) && c !in pool && r != Some(c) :: c < |conns| && !conns[c].open
      ensures OthersKept(old(conns), conns, set c | c in old(pool) && c !in pool)
    {
      if done {
        return None;
      }
      while pool != []
        invariant Valid() && |conns| == |old(conns)|
        invariant SkipExpired(pool, expired) == SkipExpired(old(pool), expired)
        invariant forall c | c in pool :: c in old(pool)
        invariant forall c | c in old(pool) && c !in pool :: !conns[c].open
        invariant OthersKept(old(conns), conns, set c | c in old(pool) && c !in pool)
        decreases |pool|
      {
        var c := Receive();
        if !expired(c) {
          return Some(c);
        }
        CloseConn(c);
      }
      if !dials {
        return None;
      }
      conns := conns + [Conn(true, true, false)];
      return Some(|conns| - 1);
    }

    /** Back into the pool exactly when the provider is open, the pool has room and the connection has not expired;
        otherwise the connection is closed. The pool stays clean unless the connection was in it already. */
    method ReturnConn(c: nat, expired: bool)
      requires c < |conns|
      modifies this`conns, this`pool
      ensures State() == Returned(old(State()), max, done, c, expired)
      ensures old(Valid()) && c !in old(pool) && old(conns)[c].boundary ==> Valid()
    {
      if expired {
        CloseConn(c);
        return;
      }
      if done {
        CloseConn(c);
        return;
      }
      if |pool| < max {
        pool := pool + [c];
      } else {
        CloseConn(c);
      }
    }

    /** Nothing stays pooled, and everything that was is closed. */
    method Close()
      requires Valid()
      modifies this
      ensures Valid() && done
      ensures if old(done) then pool == old(pool) && conns == old(conns)
              else
                && pool == [] && |conns| == |old(conns)|
                && (forall c | c in old(pool) :: c < |conns| && !conns[c].open)
                && OthersKept(old(conns), conns, set c | c in old(pool))
    {
      if done {
        return;
      }
      done := true;
      while pool != []
        invariant Valid() && done && |conns| == |old(conns)|
        invariant forall c | c in pool :: c in old(pool)
        invariant forall c | c in old(pool) && c !in pool :: !conns[c].open
        invariant OthersKept(old(conns), conns, set c | c in old(pool))
        decreases |pool|
      {
        var c := Receive();
        CloseConn(c);
      }
    }

    /** Every connection is pooled, in the caller's hands or closed. */
    ghost predicate Accounted(held: set<nat>)
      reads this
    {
      forall c :: 0 <= c < |conns| ==> c in pool || c in held || !conns[c].open
    }

    /** One `BODY` command: a reader on the connection, or the connection back, or closed. */
    method FetchWithConn(c: nat, reply: Reply, expired: bool) returns (reader: PooledReader?, missing: bool, retry: bool)
      requires Valid() && c < |conns| && c !in pool && conns[c].boundary
      modifies this`conns, this`pool
      ensures Valid()
      ensures (reader != null <==> reply == ArticleFollows) && (missing <==> reply == NoSuchArticle)
      ensures retry <==> reply == Failure(true)
      ensures reader != null ==>
                && fresh(reader) && reader.provider == this && reader.conn == Some(c)
                && pool == old(pool) && conns == old(conns)[c := old(conns)[c].(boundary := false)]
      ensures missing && !expired && !done && |old(pool)| < max ==> pool == old(pool) + [c] && conns == old(conns)
      ensures reply.Failure? || (missing && (expired || done || |old(pool)| == max)) ==>
                pool == old(pool) && conns == Closed(old(conns), c)
    {
      if reply.Failure? {
        CloseConn(c);
        return null, false, reply.recoverable;
      }
      if reply == NoSuchArticle {
        ReturnConn(c, expired);
        return null, true, false;
      }
      conns := conns[c := conns[c].(boundary := false)];
      reader := new PooledReader(this, c);
      return reader, false, false;
    }

    /** Connections in other hands are dialled and not pooled. */
    ghost predicate Elsewhere(held: set<nat>)
      reads this
    {
      forall c | c in held :: c !in pool && c < |conns|
    }

    /** An open provider has a pooled connection that has not expired, or dials. */
    predicate GetsConn(pooled: seq<nat>, given: Conditions)
      reads this
    {
      !done && (SkipExpired(pooled, given.expired) != [] || given.dials)
    }

    /** One attempt: a connection is got and ends under the reader that came back, in the pool or closed. */
    method Attempt(ghost held: set<nat>, given: Conditions) returns (reader: PooledReader?, missing: bool, retry: bool)
      requires Valid() && Accounted(held) && Elsewhere(held)
      modifies this`conns, this`pool
      ensures var got := GetsConn(old(pool), given);
              && (reader != null <==> got && given.reply == ArticleFollows)
              && (missing <==> got && given.reply == NoSuchArticle)
              && (retry <==> got && given.reply == Failure(true))
      ensures Valid() && (reader != null ==> fresh(reader) && reader.provider == this && reader.Valid() && !retry)
      ensures reader != null ==> reader.conn.Some? && reader.conn.value !in held
      ensures Accounted(held + if reader != null then {reader.conn.value} else {}) && Elsewhere(held)
      ensures |conns| <= |old(conns)| + 1
    {
      var got := GetConn(given.expired, given.dials);
      assert Accounted(held + if got.Some? then {got.value} else {});
      if got.None? {
        return null, false, false;
      }
      HeldStay(old(conns), old(pool), conns, pool, held, got.value);
      reader, missing, retry := FetchWithConn(got.value, given.reply, given.expiredAfter);
    }

    /** Two attempts when the first ends in a recoverable error, and one otherwise. Afterwards no connection is lost:
        those not pooled are closed, but for the one under the reader that came back. */
    method Fetch(ghost held: set<nat>, first: Conditions, second: Conditions)
      returns (reader: PooledReader?, missing: bool, ghost attempts: nat)
      requires Valid() && Accounted(held) && Elsewhere(held)
      modifies this`conns, this`pool
      ensures Valid() && (reader != null ==> fresh(reader) && reader.provider == this && reader.Valid())
      ensures reader != null ==> reader.conn.Some? && reader.conn.value !in held
      ensures Accounted(held + if reader != null then {reader.conn.value} else {}) && Elsewhere(held)
      ensures |conns| <= |old(conns)| + 2
      ensures attempts == if GetsConn(old(pool), first) && first.reply == Failure(true) then 2 else 1
      ensures attempts == 1 ==>
                (reader != null <==> GetsConn(old(pool), first) && first.reply == ArticleFollows)
                && (missing <==> GetsConn(old(pool), first) && first.reply == NoSuchArticle)
      ensures attempts == 2 ==>
                (reader != null ==> second.reply == ArticleFollows) && (missing ==> second.reply == NoSuchArticle)
    {
      reader, missing, attempts := null, false, 0;
      var attempt := 0;
      while attempt < 2
        invariant 0 <= attempt <= 2 && Valid() && Accounted(held) && Elsewhere(held) && reader == null
        invariant |conns| <= |old(conns)| + attempt
        invariant attempts == attempt && !missing && (attempt == 0 ==> pool == old(pool))
        invariant attempt > 0 ==> GetsConn(old(pool), first) && first.reply == Failure(true)
      {
        var retry;
        reader, missing, retry := Attempt(held, if attempt == 0 then first else second);
        attempts := attempts + 1;
        if reader != null || !retry {
          return;
        }
        attempt := attempt + 1;
      }
    }

    /** A prefix of a body is not drained: its connection is closed, never pooled half read. */
    method FetchBodyPrefix(c: nat, reply: Reply, expired: bool) returns (missing: bool)
      requires Valid() && c < |conns| && c !in pool && conns[c].boundary
      modifies this`conns, this`pool
      ensures Valid() && |conns| == |old(conns)|
      ensures missing <==> reply == NoSuchArticle
      ensures if missing && !expired && !done && |old(pool)| < max then pool == old(pool) + [c] && conns == old(conns)
              else pool == old(pool) && !conns[c].open
    {
      var reader, retry;
      reader, missing, retry := FetchWithConn(c, reply, expired);
      if reader != null {
        reader.Discard();
      }
    }
  }

  /** `GetConn` leaves the connections in other hands alone. */
  lemma HeldStay(before: seq<Conn>, pooled: seq<nat>, conns: seq<Conn>, pool: seq<nat>, held: set<nat>, got: nat)
    requires forall c | c in held :: c !in pooled && c < |before|
    requires |before| <= |conns| && forall c | c in pool :: c in pooled
    requires got in pooled || got >= |before|
    ensures forall c | c in held :: c !in pool && c < |conns|
    ensures got !in held
  {
  }

  class PooledReader {
    const provider: NntpProvider
    var conn: Option<nat>

    constructor (provider: NntpProvider, c: nat)
      ensures this.provider == provider && conn == Some(c)
    {
      this.provider, conn := provider, Some(c);
    }

    /** The reader's connection is in its hands only. */
    predicate Valid()
      reads this, provider
    {
      provider.Valid() && (conn.Some? ==> conn.value < |provider.conns| && conn.value !in provider.pool)
    }

    /** Read the rest of the body; only then may the connection go back, at a boundary. The connection is kept, so a
        second call does the same again. */
    method Close(drained: bool, expired: bool)
      requires conn.Some? ==> conn.value < |provider.conns|
      modifies provider`conns, provider`pool
      ensures provider.State()
              == match conn
                 case None => old(provider.State())
                 case Some(c) => ReaderClosed(old(provider.State()), provider.max, provider.done, c, drained, expired)
      ensures old(Valid()) ==> provider.Valid()
    {
      if conn.None? {
        return;
      }
      var c := conn.value;
      if !drained {
        provider.CloseConn(c);
        return;
      }
      provider.conns := provider.conns[c := provider.conns[c].(boundary := true)];
      provider.ReturnConn(c, expired);
    }

    /** A body that was not read to its end: close, and forget the connection. */
    method Discard()
      requires Valid()
      modifies this, provider`conns
      ensures Valid() && conn == None && provider.pool == old(provider.pool)
      ensures old(conn).Some? ==>
                provider.conns == Closed(old(provider.conns), old(conn).value)
    {
      if conn.None? {
        return;
      }
      provider.CloseConn(conn.value);
      conn := None;
    }
  }
}
