/** A destination created for a named file is ready from the start but has
    no descriptor: no delivery can open the file. */
module DestinationFindings {
  import opened Bytes
  import opened Destinations
  import opened Delivery
  import NetTools

  /** The one-line message "x\n". */
  const Line: seq<Byte> := [120, NL]

  /** As written: whatever the system answers, a named-file destination
      never delivers its first message. */
  method NamedFileNeverDelivers(rounds: nat -> Round, fuel: nat) returns (outcome: Outcome)
    ensures outcome != Delivered
  {
    var d := Destination.FileInit("relay.log");
    outcome := Deliver(d, Line, rounds, fuel);
  }

  /** Corrected: the same destination connects in the first round, opens
      the file and delivers the message when the system cooperates. */
  method NamedFileFixedDelivers() returns (outcome: Outcome)
    ensures outcome == Delivered
  {
    var d := Destination.FileInitFixed("relay.log");
    var cooperative := (i: nat) => Round(Link(0, NetTools.NoEntry, 0, Done, OpenedFd(5)), SelectActive, (j: nat) => Wrote(2), Done);
    outcome := Deliver(d, Line, cooperative, 1);
  }

  /** A TCP connect whose host lookup answers an entry without an address
      costs two of the three retries in one round: the round times out,
      then the error state disconnects. */
  method FailedConnectCostsTwo() returns (outcome: Outcome, budget: int)
    ensures outcome == Again && budget == 1
  {
    var d := Destination.TcpInit("example:1");
    assert "example:1"[7] == ':';
    var unusable := Round(Link(7, NetTools.Entry([], 4), 0, Done, OpenFailed(0)),
                          SelectTimeout, (j: nat) => Wrote(2), Done);
    var left;
    ghost var watched, errored;
    outcome, left, budget, watched, errored := Step(d, Line, |Line|, d.retry, unusable);
  }
}
