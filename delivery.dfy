/** deliver_message: the bounded-retry loop that drives a destination until
    one message is sent. */
module Delivery {
  import opened Bytes
  import opened Destinations

  /** What `select` answers: a failure, a timeout, or activity. */
  datatype Select = SelectFailed(errno: int) | SelectTimeout | SelectActive

  /** What the system answers during one round of the loop: to the connect
      made at its start, to `select`, to the writes, and to the disconnect
      made at its end. */
  datatype Round = Round(link: Link, select: Select, writes: nat -> Written, close: Answer)

  /** How a round, or the whole delivery, ends: the message is sent, the
      delivery returns 0, or it goes on. */
  datatype Outcome = Delivered | GaveUp | Again

  /** The round selects on the destination's descriptor: only a destination
      that is ready or sending, and has a descriptor, is watched; otherwise
      `select` is given no descriptor and only waits. */
  predicate Watched(s: State, fd: int)
  {
    (s == Ready || s == Sending) && fd != -1
  }

  /** A destination that no round can move: connecting (connect is only
      called again from the disconnected state), or ready without a
      descriptor. */
  predicate Idle(s: State, fd: int)
  {
    s == Connecting || ((s == Ready || s == Sending) && fd == -1)
  }

  /** The first round sends a whole message of `n` bytes: the descriptor is
      watched once any connect is made, `select` reports activity and the
      writes take everything. */
  predicate FirstRoundSends(s: State, fd: int, kind: Kind, res: seq<char>, r: Round, n: nat)
  {
    (if s == Disconnected then LinkUp(kind, res, fd, r.link) else Watched(s, fd)) &&
    r.select == SelectActive && Attempt(n, r.writes, 0).left == 0
  }

  /** One pass of the `while (retry > 0)` loop on a message with `todo`
      bytes to go and `retry` attempts left.  `watched` says whether the
      select watched the descriptor; `errored` whether the round ended in
      the error state and so disconnected. */
  method Step(d: Destination, msg: seq<Byte>, todo: nat, retry: int, r: Round)
    returns (outcome: Outcome, left: nat, budget: int, ghost watched: bool, ghost errored: bool)
    requires d.Valid() && |msg| > 0 && msg[|msg| - 1] == NL && 0 < todo <= |msg|
    modifies d
    ensures d.Valid()
    ensures left <= todo && d.Stream == old(d.Stream) + msg[|msg| - todo .. |msg| - left]
    ensures outcome == GaveUp <==> r.select.SelectFailed?
    ensures outcome == GaveUp ==> left == todo
    ensures outcome == Delivered ==> watched && r.select == SelectActive && left == 0
    ensures outcome == Again ==> left > 0
    ensures outcome == Again ==>
      budget == (if watched && r.select == SelectActive then 3 else retry - 1) - (if errored then 1 else 0)
    ensures old(d.state) == Disconnected ==> (watched <==> LinkUp(d.kind, d.res, old(d.fd), r.link))
    ensures old(d.state) != Disconnected ==> (watched <==> Watched(old(d.state), old(d.fd)))
    ensures Idle(old(d.state), old(d.fd)) ==>
      outcome != Delivered && left == todo && d.state == old(d.state) && d.fd == old(d.fd)
    ensures errored <==> (outcome == Again &&
      if watched && r.select == SelectActive then WriteFails(todo, r.writes)
      else if old(d.state) == Disconnected then LinkFails(d.kind, d.res, r.link)
      else old(d.state) == Error)
    ensures errored && d.kind == Tcp ==> d.state == Disconnected
    ensures watched && r.select == SelectActive && Attempt(todo, r.writes, 0).left == 0 ==>
      outcome == Delivered
  {
    left, budget, errored := todo, retry, false;
    if d.state == Disconnected {
      var _ := d.Connect(r.link);
    }
    var watching := Watched(d.state, d.fd);
    watched := watching;
    var s := if watching || r.select.SelectFailed? then r.select else SelectTimeout;
    match s {
      case SelectFailed(_) =>
        return GaveUp, left, budget, watched, errored;
      case SelectTimeout =>
        budget := budget - 1;
      case SelectActive =>
        budget := 3;
        var done;
        done, left := d.Write(msg, left, r.writes);
        if done {
          return Delivered, left, budget, watched, errored;
        }
    }
    if d.state == Error {
      errored := true;
      var _ := d.Disconnect(r.close);
      budget := budget - 1;
    }
    outcome := Again;
  }

  /** deliver_message on the bytes of `msg` before its terminator, with the
      answers of round `i` as `rounds(i)`.  Activity resets the budget, so
      the loop need not end: after `fuel` rounds the delivery is reported as
      still going.  What the kernel takes is always a prefix of the message,
      the whole of it exactly when the message is delivered. */
  method Deliver(d: Destination, msg: seq<Byte>, rounds: nat -> Round, fuel: nat) returns (outcome: Outcome)
    requires d.Valid() && |msg| > 0 && msg[|msg| - 1] == NL
    modifies d
    ensures d.Valid()
    ensures |old(d.Stream)| <= |d.Stream| <= |old(d.Stream)| + |msg|
    ensures d.Stream == old(d.Stream) + msg[..|d.Stream| - |old(d.Stream)|]
    ensures outcome == Delivered <==> d.Stream == old(d.Stream) + msg
    ensures d.retry <= 0 ==> outcome == GaveUp && d.Stream == old(d.Stream)
    ensures Idle(old(d.state), old(d.fd)) ==>
      outcome != Delivered && d.state == old(d.state) && d.fd == old(d.fd) && d.Stream == old(d.Stream)
    ensures (forall i :: 0 <= i < fuel ==> rounds(i).select != SelectActive) && d.retry <= fuel ==>
      outcome == GaveUp
    ensures d.retry > 0 && fuel > 0 && FirstRoundSends(old(d.state), old(d.fd), d.kind, d.res, rounds(0), |msg|) ==>
      outcome == Delivered
  {
    var todo := |msg|;
    var budget := d.retry;
    var i := 0;
    while budget > 0 && i < fuel
      invariant 0 <= i <= fuel && 0 < todo <= |msg| && d.Valid()
      invariant d.Stream == old(d.Stream) + msg[..|msg| - todo]
      invariant Idle(old(d.state), old(d.fd)) ==>
        todo == |msg| && d.state == old(d.state) && d.fd == old(d.fd)
      invariant (forall j :: 0 <= j < i ==> rounds(j).select != SelectActive) ==> budget <= d.retry - i
      invariant i == 0 ==> budget == d.retry && todo == |msg| && d.state == old(d.state) && d.fd == old(d.fd)
      invariant FirstRoundSends(old(d.state), old(d.fd), d.kind, d.res, rounds(0), |msg|) ==> i == 0
      invariant d.retry <= 0 ==> i == 0
      decreases fuel - i
    {
      ghost var before := d.Stream;
      ghost var pre := todo;
      var left;
      ghost var watched, errored;
      outcome, left, budget, watched, errored := Step(d, msg, todo, budget, rounds(i));
      assert msg[..|msg| - pre] + msg[|msg| - pre .. |msg| - left] == msg[..|msg| - left];
      todo := left;
      if outcome == Delivered {
        assert msg[..|msg| - 0] == msg;
        return;
      }
      if outcome == GaveUp {
        return;
      }
      i := i + 1;
    }
    outcome := if budget <= 0 then GaveUp else Again;
  }
}
