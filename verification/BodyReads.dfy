/** Reading a body through the pool's reader: the retry on a timeout, and what it loses. */
module BodyReads {
  import opened Common
  import P = ConnectionPool

  /** What the wrapped reader reports with the bytes it gives; the deadline of one second is a timeout. */
  datatype ReadError = Timeout | EndOfBody | BrokenRead

  /** One turn of the loop in `Read`: whether the context had ended when it began, what the wrapped reader gave, and
      whether the context had ended by then. */
  datatype Turn = Turn(endedBefore: bool, data: Bytes, err: Option<ReadError>, endedAfter: bool)

  /** `Waiting` is a read that has not returned by the last turn. */
  datatype ReadResult = Read(data: Bytes, err: Option<ReadError>) | ContextEnded | Waiting

  /** What one `Read` returns, and the turns left after it. */
  datatype Reading = Reading(result: ReadResult, rest: seq<Turn>)

  function ReadOnce(turns: seq<Turn>): (r: Reading)
    ensures |r.rest| <= |turns| && (r.result.Read? ==> |r.rest| < |turns|)
  {
    if turns == [] then Reading(Waiting, turns)
    else if turns[0].endedBefore then Reading(ContextEnded, turns[1..])
    else if turns[0].err != Some(Timeout) then Reading(Read(turns[0].data, turns[0].err), turns[1..])
    else if turns[0].endedAfter then Reading(ContextEnded, turns[1..])
    else ReadOnce(turns[1..])
  }

  class BodyReader {
    var turns: seq<Turn>
    var open: bool

    constructor (turns: seq<Turn>)
      ensures this.turns == turns && open
    {
      this.turns, open := turns, true;
    }

    /** Try again after a timeout; a context that has ended closes the connection. */
    method Read() returns (r: ReadResult)
      modifies this
      ensures Reading(r, turns) == ReadOnce(old(turns))
      ensures open == (old(open) && r != ContextEnded)
    {
      while turns != []
        invariant ReadOnce(turns) == ReadOnce(old(turns)) && open == old(open)
        decreases |turns|
      {
        var turn := turns[0];
        turns := turns[1..];
        if turn.endedBefore {
          open := false;
          return ContextEnded;
        }
        if turn.err != Some(Timeout) {
          return ReadResult.Read(turn.data, turn.err);
        }
        if turn.endedAfter {
          open := false;
          return ContextEnded;
        }
      }
      return Waiting;
    }
  }

  // ---------------------------------------------------------------- a read as a step of the pool

  /** What a read is for the pool: a connection closed under its reader, or a body at its end; anything else leaves the
      pool's state alone. */
  function StepOf(r: ReadResult): Option<P.Action> {
    match r
    case ContextEnded => Some(P.ReadAborted)
    case Read(_, Some(EndOfBody)) => Some(P.ReadEnds)
    case _ => None
  }

  function AfterRead(max: nat, s: P.Pool, i: nat, r: ReadResult): P.Pool
    requires i < |s.users| && s.users[i].Reading?
  {
    if StepOf(r).Some? then P.Apply(max, s, i, StepOf(r).value) else s
  }

  /** A read by the user of a pooled reader keeps the pool invariant and is, on its connection, what `BodyReader.Read`
      does: the connection stays open exactly when it was and the context has not ended. Nobody else notices. */
  lemma ReadIsAPoolStep(max: nat, s: P.Pool, i: nat, turns: seq<Turn>)
    requires P.Inv(max, s) && i < |s.users| && s.users[i].Reading?
    ensures var r := ReadOnce(turns).result;
            var s', c := AfterRead(max, s, i, r), s.users[i].c;
            && P.Inv(max, s') && c < |s.conns| == |s'.conns|
            && (s'.conns[c].open <==> s.conns[c].open && r != ContextEnded)
            && (s'.conns[c].aborted <==> s.conns[c].aborted || r == ContextEnded)
            && (s'.conns[c].boundary <==> s.conns[c].boundary || (r.Read? && r.err == Some(EndOfBody)))
            && s'.users == s.users && s'.pool == s.pool
            && forall d :: 0 <= d < |s.conns| && d != c ==> s'.conns[d] == s.conns[d]
  {
    var r := ReadOnce(turns).result;
    assert P.UserOk(s, s.users[i]);
    if StepOf(r).Some? {
      P.StepKeepsInv(max, s, i, StepOf(r).value);
    }
  }

  // ---------------------------------------------------------------- what the reads hand out

  /** What repeated reads hand out, until one of them reports anything but success. */
  function Delivered(turns: seq<Turn>): Bytes
    decreases |turns|
  {
    var r := ReadOnce(turns);
    if !r.result.Read? then []
    else if r.result.err.Some? then r.result.data
    else r.result.data + Delivered(r.rest)
  }

  /** What the wrapped reader gave meanwhile. */
  function Received(turns: seq<Turn>): Bytes {
    if turns == [] || turns[0].endedBefore then []
    else if turns[0].err == None || (turns[0].err == Some(Timeout) && !turns[0].endedAfter)
    then turns[0].data + Received(turns[1..])
    else turns[0].data
  }

  /** Some timeout on the way came with bytes. */
  predicate TimesOutWithBytes(turns: seq<Turn>) {
    turns != [] && !turns[0].endedBefore
    && ((turns[0].err == Some(Timeout) && turns[0].data != [])
        || ((turns[0].err == None || (turns[0].err == Some(Timeout) && !turns[0].endedAfter))
            && TimesOutWithBytes(turns[1..])))
  }

  /** The bytes a timeout comes with are dropped: the body handed out is the body received exactly when no timeout
      came with any, and shorter otherwise. */
  lemma {:induction false} DeliveredIsReceived(turns: seq<Turn>)
    ensures Delivered(turns) == Received(turns) <==> !TimesOutWithBytes(turns)
    ensures TimesOutWithBytes(turns) ==> |Delivered(turns)| < |Received(turns)|
  {
    if turns != [] {
      DeliveredIsReceived(turns[1..]);
    }
  }
}
