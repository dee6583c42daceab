/** Two defects of logger_run's handling of a failed delivery, each shown
    on a small logger next to the corrected branch. */
module LoggerFindings {
  import opened Bytes
  import opened Queues
  import opened Destinations
  import opened Loggers

  /** The record "x\n" and its NUL. */
  const Rec: Msg := [120, NL, NUL]

  /** A logger with a named backlog file holding `existing`, a destination,
      and `Rec` queued; started, so `Rec` or the first backlog line is in
      hand. */
  method Started(existing: Option<seq<Msg>>) returns (l: Logger)
    ensures fresh(l) && fresh(l.buffer) && fresh(set a | a in l.buffer.segs) && l.Valid() && l.dest != null
    ensures existing == None ==>
      l.msg == Some(Rec) && l.buffer.Contents == [] && l.backlog.named && !l.backlog.reading &&
      l.Pending() == [Rec]
    ensures existing.Some? && existing.value != [] ==>
      l.msg == Some(existing.value[0]) && l.buffer.Contents == [Some(Rec)] &&
      l.backlog.reading && !l.backlog.appending && l.backlog.named && l.backlog.lines == existing.value
  {
    var q := new Queue<Option<Msg>>();
    q.Push(Some(Rec));
    l := new Logger(q);
    l.UseBacklog(existing);
    var d := Destination.TcpInit("relay:514");
    l.SetDestination(d);
    var _ := l.Start();
  }

  /** As written: the backlog opens but the message in hand cannot be
      written to it; it is put back on the queue and kept in hand, so it
      is both the message in hand and the front of the queue, and pending
      twice. */
  method SpillDuplicates() returns (hand: Option<Msg>, front: Option<Msg>)
    ensures hand == Some(Rec) && front == Some(Rec)
  {
    var l := Started(None);
    var _ := l.Spill(Disk(true, false, (j: nat) => true));
    assert l.Pending() == [Rec, Rec];
    hand := l.msg;
    front := l.buffer.Pop();
  }

  /** Corrected: the message stays in hand only, and the queue stays
      empty. */
  method SpillFixedKeepsOne() returns (hand: Option<Msg>, queued: int)
    ensures hand == Some(Rec) && queued == 0
  {
    var l := Started(None);
    var _ := l.SpillFixed(Disk(true, false, (j: nat) => true));
    assert l.Pending() == [Rec];
    hand := l.msg;
    queued := l.buffer.Size();
  }

  /** As written: while an old backlog is read back, a failure to reopen
      it for appending falls through to the drain with no file, and the
      run aborts on the drain's requirement. */
  method ReopenAborts() returns (next: Next)
    ensures next == Abort
  {
    var l := Started(Some([Rec]));
    next := l.Reopen(Disk(false, true, (j: nat) => true));
  }

  /** As written: a successful reopen skips the drain, so the queue keeps
      its message. */
  method ReopenSkipsDrain() returns (queued: int)
    ensures queued == 1
  {
    var l := Started(Some([Rec]));
    var _ := l.Reopen(Disk(true, true, (j: nat) => true));
    queued := l.buffer.Size();
  }

  /** Corrected: a failed reopen only retries the delivery. */
  method ReopenFixedRetries() returns (next: Next)
    ensures next == Retry
  {
    var l := Started(Some([Rec]));
    next := l.ReopenFixed(Disk(false, true, (j: nat) => true));
  }

  /** Corrected: a successful reopen drains the queue into the backlog,
      behind the unread lines. */
  method ReopenFixedDrains() returns (queued: int, lines: seq<Msg>)
    ensures queued == 0 && lines == [Rec, Rec]
  {
    var l := Started(Some([Rec]));
    assert Stored([Some(Rec)], (j: nat) => true, 1);
    var _ := l.ReopenFixed(Disk(true, true, (j: nat) => true));
    assert Values([Some(Rec)]) == [Rec];
    queued := l.buffer.Size();
    lines := l.backlog.lines;
  }
}
