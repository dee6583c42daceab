/** The logger: takes records off the queue, delivers them to the
    destination, and parks them in a backlog file while the destination is
    down. */
module Loggers {
  import opened Bytes
  import opened Queues
  import opened Destinations
  import opened Delivery

  type Msg = seq<Byte>

  /** The backlog file and the logger's two handles on it: whether a file
      name was given, whether the file exists, its lines, the line the read
      handle is at, and which handles are open. */
  datatype Backlog = Backlog(named: bool, present: bool, lines: seq<Msg>, pos: nat,
                             reading: bool, appending: bool)

  /** What the file system answers during one failed delivery: to opening
      the backlog for appending, to writing the message in hand, and to each
      write of the drain. */
  datatype Disk = Disk(append: bool, put: bool, drain: nat -> bool)

  /** What the logger does after a failed delivery: try again, stop (the
      end marker was reached), or abort on a failed requirement. */
  datatype Next = Retry | Finish | Abort

  /** How a run of the logger ends: the end marker was taken, the
      destination was found in its error state (exit status 1), the queue
      was empty where the logger waits for the reader, or the rounds granted
      to the model ran out. */
  datatype Ending = Finished | Exited | Waiting | Running

  /** The messages of the queue, in order, without end markers. */
  function Values(q: seq<Option<Msg>>): (v: seq<Msg>)
    ensures |v| <= |q|
  {
    if q == [] then [] else (if q[0].Some? then [q[0].value] else []) + Values(q[1..])
  }

  lemma {:induction false} ValuesConcat(a: seq<Option<Msg>>, b: seq<Option<Msg>>)
    ensures Values(a + b) == Values(a) + Values(b)
  {
    if a == [] {
      assert a + b == b;
    } else {
      assert (a + b)[0] == a[0] && (a + b)[1..] == a[1..] + b;
      ValuesConcat(a[1..], b);
    }
  }

  /** Cutting the queue at `n`: the messages before, then those after. */
  lemma {:induction false} ValuesSplit(q: seq<Option<Msg>>, n: nat)
    requires n <= |q|
    ensures Values(q) == Values(q[..n]) + Values(q[n..])
  {
    assert q[..n] + q[n..] == q;
    ValuesConcat(q[..n], q[n..]);
  }

  /** One more item taken off the front of `q[n..]`. */
  lemma {:induction false} ValuesGrow(q: seq<Option<Msg>>, n: nat)
    requires n < |q|
    ensures Values(q[..n + 1]) == Values(q[..n]) + (if q[n].Some? then [q[n].value] else [])
  {
    assert q[..n + 1] == q[..n] + [q[n]];
    ValuesConcat(q[..n], [q[n]]);
  }

  /** Queued messages alone keep their number. */
  lemma {:induction false} ValuesAllSome(q: seq<Option<Msg>>)
    requires forall i :: 0 <= i < |q| ==> q[i].Some?
    ensures |Values(q)| == |q|
    ensures forall i :: 0 <= i < |q| ==> Values(q)[i] == q[i].value
  {
    if q != [] {
      ValuesAllSome(q[1..]);
    }
  }

  /** The lines of the backlog still to be read back. */
  function Unread(b: Backlog): seq<Msg>
  {
    if b.pos <= |b.lines| then b.lines[b.pos..] else []
  }

  /** The read handle is within the file; without it the file is empty
      (it is truncated when the read handle closes); a file exists only
      when named. */
  predicate Sound(b: Backlog)
  {
    b.pos <= |b.lines| && (!b.reading ==> b.lines == [] && b.pos == 0) && (!b.named ==> !b.present)
  }

  /** What logger_write_backlog leaves of a queue `q` after writing `n`
    items: the rest, or the rest after the end marker.  Either way the
    messages of `q` keep their order: those written, then those left. */
  lemma {:induction false} Conserved(q: seq<Option<Msg>>, n: nat, rest: seq<Option<Msg>>)
    requires n <= |q|
    requires rest == q[n..] || (n < |q| && q[n] == None && rest == q[n + 1..])
    ensures Values(q) == Values(q[..n]) + Values(rest)
  {
    ValuesSplit(q, n);
    if rest != q[n..] {
      assert q[n..] == [q[n]] + rest;
      ValuesConcat([q[n]], rest);
    }
  }

  /** The first `n` items of the queue were messages, and their writes
    succeeded. */
  ghost predicate Stored(q: seq<Option<Msg>>, puts: nat -> bool, n: nat)
  {
    n <= |q| && (n > 0 ==> q[n - 1].Some? && puts(n - 1) && Stored(q, puts, n - 1))
  }

  /** One pass of logger_write_backlog's loop on the `i`-th item of the
    queue as it was on entry: the item is popped; the end marker stops the
    loop, and so does a failed write, which puts the message back. */
  method Shift(q: Queue<Option<Msg>>, puts: nat -> bool, i: nat, ghost Q: seq<Option<Msg>>)
    returns (x: Option<Msg>, stop: bool)
    requires q.Valid() && i < |Q| && q.Contents == Q[i..]
    modifies q, q.segs
    ensures q.Valid() && x == Q[i]
    ensures fresh(set a | a in q.segs && a !in old(q.segs))
    ensures stop <==> x == None || !puts(i)
    ensures stop && x.Some? ==> q.Contents == Q[i..]
    ensures !(stop && x.Some?) ==> q.Contents == Q[i + 1..]
    ensures !stop ==> q.segs == old(q.segs) || q.segs == old(q.segs)[1..]
  {
    x := q.Pop();
    if x == None {
      return x, true;
    }
    if !puts(i) {
      q.Unpop(x);
      assert q.Contents == [x] + Q[i + 1..] == Q[i..];
      return x, true;
    }
    stop := false;
  }

  /** Writing the first `m` items went well for each of them. */
  lemma {:induction false} StoredAt(q: seq<Option<Msg>>, puts: nat -> bool, m: nat, j: nat)
    requires j < m
    ensures Stored(q, puts, m) ==> q[j].Some? && puts(j)
    decreases m
  {
    if j < m - 1 {
      StoredAt(q, puts, m - 1, j);
    }
  }

  /** One pass of the loop of logger_write_backlog on the `i`-th item of
    `Q`, the queue as it was on entry with segments `S`: 0 when the message
    was written and the loop goes on, -2 on the end marker, -1 when the
    write failed and the message went back. */
  method Move(q: Queue<Option<Msg>>, puts: nat -> bool, i: nat, added: seq<Msg>,
              ghost Q: seq<Option<Msg>>, ghost S: seq<array<Option<Msg>>>)
    returns (r: int, added': seq<Msg>)
    requires i < |Q| && q.Valid() && q.Contents == Q[i..]
    requires |q.segs| <= |S| && q.segs == S[|S| - |q.segs|..]
    requires Stored(Q, puts, i) && added == Values(Q[..i])
    modifies q, q.segs
    ensures q.Valid()
    ensures fresh(set a | a in q.segs && a !in S)
    ensures r == 0 ==>
      q.Contents == Q[i + 1..] && |q.segs| <= |S| && q.segs == S[|S| - |q.segs|..] &&
      Stored(Q, puts, i + 1) && added' == Values(Q[..i + 1])
    ensures r == -1 ==> Q[i].Some? && !puts(i) && q.Contents == Q[i..] && added' == added
    ensures r == -2 ==> Q[i] == None && q.Contents == Q[i + 1..] && added' == added
    ensures r == 0 || r == -1 || r == -2
  {
    var x, stop := Shift(q, puts, i, Q);
    if x == None {
      return -2, added;
    }
    if stop {
      return -1, added;
    }
    ValuesGrow(Q, i);
    return 0, added + [x.value];
  }

  /** The loop of logger_write_backlog: pops at most as many messages as
    `q` held on entry and hands each on, in pop order, as `added`, with the
    answers of the successive writes as `puts`.  Popping the end marker
    stops it (-2); a failed write puts its message back at the front of the
    queue (-1).  `n` counts the messages written.  Either way the messages
    of the queue keep their order: those written, then those left. */
  method Transfer(q: Queue<Option<Msg>>, puts: nat -> bool) returns (r: int, added: seq<Msg>, ghost n: nat)
    requires q.Valid()
    modifies q, q.segs
    ensures q.Valid()
    ensures fresh(set a | a in q.segs && a !in old(q.segs))
    ensures var Q := old(q.Contents);
      Stored(Q, puts, n) && added == Values(Q[..n]) &&
      (r == 0 ==> n == |Q| && q.Contents == []) &&
      (r == -1 ==> n < |Q| && Q[n].Some? && !puts(n) && q.Contents == Q[n..]) &&
      (r == -2 ==> n < |Q| && Q[n] == None && q.Contents == Q[n + 1..]) &&
      (r == 0 || r == -1 || r == -2)
  {
    ghost var Q := q.Contents;
    ghost var S := q.segs;
    var qsize := q.Size();
    var i := 0;
    added := [];
    while i < qsize
      invariant 0 <= i <= qsize == |Q| && q.Valid() && q.Contents == Q[i..]
      invariant |q.segs| <= |S| && q.segs == S[|S| - |q.segs|..]
      invariant Stored(Q, puts, i) && added == Values(Q[..i])
    {
      var step;
      step, added := Move(q, puts, i, added, Q, S);
      if step != 0 {
        return step, added, i;
      }
      i := i + 1;
    }
    assert Q[..i] == Q;
    return 0, added, i;
  }

  /** Lines appended behind the read position join the unread ones, in
    front of what follows them. */
  lemma UnreadAppend(lines: seq<Msg>, pos: nat, added: seq<Msg>, rest: seq<Msg>, all: seq<Msg>)
    requires pos <= |lines| && all == added + rest
    ensures (lines + added)[pos..] + rest == lines[pos..] + all
  {
    assert (lines + added)[pos..] == lines[pos..] + added;
  }

  /** Every message is a record: a line and its terminating NUL. */
  ghost predicate Records(s: seq<Msg>)
  {
    forall i :: 0 <= i < |s| ==> IsRecord(s[i])
  }

  /** What is still pending after some messages went out is what was
    pending then, less those: records all the same. */
  lemma RecordsRemain(out0: seq<Msg>, p0: seq<Msg>, out: seq<Msg>, p: seq<Msg>)
    requires out + p == out0 + p0 && |out0| <= |out| && Records(p0)
    ensures Records(p)
  {
    forall i | 0 <= i < |p|
      ensures IsRecord(p[i])
    {
      assert p[i] == (out + p)[|out| + i] == p0[|out| - |out0| + i];
    }
  }

  class Logger {
    var dest: Destination?
    const buffer: Queue<Option<Msg>>
    var backlog: Backlog
    /** The message in hand, `msg` of logger_run. */
    var msg: Option<Msg>
    /** The messages delivered so far. */
    ghost var Out: seq<Msg>

    ghost predicate Valid()
      reads this, buffer, buffer.segs
    {
      buffer.Valid() && Sound(backlog)
    }

    /** The messages ahead of the queue: the one in hand, then the unread
      backlog. */
    ghost function Ahead(): seq<Msg>
      reads this
    {
      (if msg.Some? then [msg.value] else []) + Unread(backlog)
    }

    /** Every message not yet delivered, in the order it will go out: those
      ahead of the queue, then the queue. */
    ghost function Pending(): seq<Msg>
      reads this, buffer
    {
      (if msg.Some? then [msg.value] else []) + (Unread(backlog) + Values(buffer.Contents))
    }

    /** logger_init: a logger on `buffer` with no destination and no
      backlog file. */
    constructor (buffer: Queue<Option<Msg>>)
      ensures this.buffer == buffer && dest == null && msg == None && Out == []
      ensures backlog == Backlog(false, false, [], 0, false, false)
    {
      this.buffer := buffer;
      dest := null;
      backlog := Backlog(false, false, [], 0, false, false);
      msg := None;
      Out := [];
    }

    /** The `-b` option: the backlog file gets a name, and `existing` is
      what the file holds, if it exists. */
    method UseBacklog(existing: Option<seq<Msg>>)
      modifies this
      ensures backlog == Backlog(true, existing.Some?, if existing.Some? then existing.value else [], 0, false, false)
      ensures dest == old(dest) && msg == old(msg) && Out == old(Out)
    {
      backlog := Backlog(true, existing.Some?, if existing.Some? then existing.value else [], 0, false, false);
    }

    /** logger_set_destination: there shall be only one. */
    method SetDestination(handler: Destination)
      requires dest == null
      modifies this
      ensures dest == handler && backlog == old(backlog) && msg == old(msg) && Out == old(Out)
    {
      dest := handler;
    }

    /** A pop of the queue into the hand; `waiting` when the queue is empty,
      where the logger would wait for the reader. */
    method Take() returns (waiting: bool)
      requires buffer.Valid() && msg == None && Unread(backlog) == []
      modifies this, buffer
      ensures buffer.Valid() && backlog == old(backlog) && dest == old(dest) && Out == old(Out)
      ensures buffer.segs == old(buffer.segs) || buffer.segs == old(buffer.segs)[1..]
      ensures waiting <==> old(buffer.Contents) == []
      ensures waiting ==> msg == None && buffer.Contents == old(buffer.Contents) && Pending() == []
      ensures !waiting ==> msg == old(buffer.Contents)[0] && buffer.Contents == old(buffer.Contents)[1..]
      ensures Pending() == old(Pending())
    {
      var n := buffer.Size();
      if n == 0 {
        return true;
      }
      msg := buffer.Pop();
      assert old(buffer.Contents)[1..] == buffer.Contents;
      return false;
    }

    /** The start of logger_run: the first line of an existing backlog is
      the first message; otherwise the first message is popped. */
    method Start() returns (waiting: bool)
      requires buffer.Valid() && dest != null && msg == None
      requires !backlog.reading && !backlog.appending && backlog.pos == 0
      requires (!backlog.named ==> !backlog.present) && (!backlog.present ==> backlog.lines == [])
      modifies this, buffer
      ensures Valid() && dest == old(dest) && Out == old(Out) && Pending() == old(Pending())
      ensures buffer.segs == old(buffer.segs) || buffer.segs == old(buffer.segs)[1..]
      ensures waiting ==> Pending() == []
      ensures old(backlog).present && old(backlog).lines != [] ==>
        !waiting && msg == Some(old(backlog).lines[0]) && buffer.Contents == old(buffer.Contents) &&
        backlog == old(backlog).(pos := 1, reading := true)
      ensures !(old(backlog).present && old(backlog).lines != []) ==>
        backlog == old(backlog).(lines := []) &&
        (waiting <==> old(buffer.Contents) == []) &&
        (!waiting ==> msg == old(buffer.Contents)[0] && buffer.Contents == old(buffer.Contents)[1..])
    {
      if backlog.named && backlog.present {
        if backlog.lines != [] {
          msg := Some(backlog.lines[0]);
          backlog := backlog.(pos := 1, reading := true);
          return false;
        }
      }
      waiting := Take();
    }

    /** After a delivery: the next message is the next backlog line while
      the backlog is being read back; at its end both handles close, the
      file is truncated and the next message is popped; without a backlog
      it is popped directly. */
    method Sent() returns (waiting: bool)
      requires Valid() && msg.Some?
      modifies this, buffer
      ensures Valid() && dest == old(dest) && Out == old(Out) + [old(msg).value]
      ensures Out + Pending() == old(Out + Pending())
      ensures buffer.segs == old(buffer.segs) || buffer.segs == old(buffer.segs)[1..]
      ensures waiting ==> Pending() == []
      ensures old(backlog).reading && old(backlog).pos < |old(backlog).lines| ==>
        !waiting && msg == Some(old(backlog).lines[old(backlog).pos]) &&
        backlog == old(backlog).(pos := old(backlog).pos + 1, appending := false) &&
        buffer.Contents == old(buffer.Contents)
      ensures old(backlog).reading && old(backlog).pos == |old(backlog).lines| ==>
        backlog == old(backlog).(lines := [], pos := 0, reading := false, appending := false)
      ensures !old(backlog).reading ==> backlog == old(backlog)
      ensures !(old(backlog).reading && old(backlog).pos < |old(backlog).lines|) ==>
        (waiting <==> old(buffer.Contents) == []) &&
        (!waiting ==> msg == old(buffer.Contents)[0] && buffer.Contents == old(buffer.Contents)[1..])
    {
      Handed();
      waiting := Advance();
    }

    /** The message in hand counts as delivered and leaves the hand. */
    method Handed()
      requires Valid() && msg.Some?
      modifies this
      ensures Valid() && msg == None && dest == old(dest) && backlog == old(backlog)
      ensures Out == old(Out) + [old(msg).value]
      ensures Out + Pending() == old(Out + Pending())
    {
      ghost var m, U, V := msg.value, Unread(backlog), Values(buffer.Contents);
      assert old(Out + Pending()) == (Out + [m]) + (U + V);
      Out := Out + [m];
      msg := None;
      assert Pending() == U + V;
    }

    /** With the hand empty, the next message is taken from the backlog or
      the queue; the messages pending stay the same. */
    method Advance() returns (waiting: bool)
      requires Valid() && msg == None
      modifies this, buffer
      ensures Valid() && dest == old(dest) && Out == old(Out) && Pending() == old(Pending())
      ensures buffer.segs == old(buffer.segs) || buffer.segs == old(buffer.segs)[1..]
      ensures waiting ==> Pending() == []
      ensures old(backlog).reading && old(backlog).pos < |old(backlog).lines| ==>
        !waiting && msg == Some(old(backlog).lines[old(backlog).pos]) &&
        backlog == old(backlog).(pos := old(backlog).pos + 1, appending := false) &&
        buffer.Contents == old(buffer.Contents)
      ensures old(backlog).reading && old(backlog).pos == |old(backlog).lines| ==>
        backlog == old(backlog).(lines := [], pos := 0, reading := false, appending := false)
      ensures !old(backlog).reading ==> backlog == old(backlog)
      ensures !(old(backlog).reading && old(backlog).pos < |old(backlog).lines|) ==>
        (waiting <==> old(buffer.Contents) == []) &&
        (!waiting ==> msg == old(buffer.Contents)[0] && buffer.Contents == old(buffer.Contents)[1..])
    {
      NextLine();
      if msg.Some? {
        return false;
      }
      waiting := Take();
    }

    /** The next message after a delivery, from the backlog: its next line
      while it is being read back; at its end both handles close and the
      file is emptied. */
    method NextLine()
      requires Sound(backlog) && msg == None
      modifies this
      ensures Sound(backlog) && dest == old(dest) && Out == old(Out) && Ahead() == old(Ahead())
      ensures old(backlog).reading && old(backlog).pos < |old(backlog).lines| ==>
        msg == Some(old(backlog).lines[old(backlog).pos]) &&
        backlog == old(backlog).(pos := old(backlog).pos + 1, appending := false)
      ensures !(old(backlog).reading && old(backlog).pos < |old(backlog).lines|) ==>
        msg == None && Unread(backlog) == []
      ensures old(backlog).reading && old(backlog).pos == |old(backlog).lines| ==>
        backlog == old(backlog).(lines := [], pos := 0, reading := false, appending := false)
      ensures !old(backlog).reading ==> backlog == old(backlog)
    {
      if backlog.reading {
        if backlog.pos < |backlog.lines| {
          msg := Some(backlog.lines[backlog.pos]);
          backlog := backlog.(pos := backlog.pos + 1, appending := false);
          return;
        }
        backlog := backlog.(lines := [], pos := 0, reading := false, appending := false);
      }
    }

    /** logger_write_backlog: the queue messages popped by `Transfer` are
      appended to the backlog; the end marker closes the append handle. */
    method WriteBacklog(puts: nat -> bool) returns (r: int, ghost n: nat)
      requires buffer.Valid() && backlog.appending && backlog.pos <= |backlog.lines|
      modifies this, buffer, buffer.segs
      ensures buffer.Valid() && msg == old(msg) && dest == old(dest) && Out == old(Out)
      ensures fresh(set a | a in buffer.segs && a !in old(buffer.segs))
      ensures var Q := old(buffer.Contents);
        Stored(Q, puts, n) &&
        backlog == old(backlog).(lines := old(backlog).lines + Values(Q[..n]), appending := r != -2) &&
        (r == 0 ==> n == |Q| && buffer.Contents == []) &&
        (r == -1 ==> n < |Q| && Q[n].Some? && !puts(n) && buffer.Contents == Q[n..]) &&
        (r == -2 ==> n < |Q| && Q[n] == None && buffer.Contents == Q[n + 1..]) &&
        (r == 0 || r == -1 || r == -2)
      ensures Unread(backlog) + Values(buffer.Contents) == old(Unread(backlog) + Values(buffer.Contents))
    {
      var added;
      ghost var Q, L := buffer.Contents, backlog.lines;
      r, added, n := Transfer(buffer, puts);
      Conserved(Q, n, buffer.Contents);
      UnreadAppend(L, backlog.pos, added, Values(buffer.Contents), Values(Q));
      backlog := backlog.(lines := backlog.lines + added, appending := r != -2);
    }

    /** The switch on logger_write_backlog's result: a write error closes
      the append handle; the end marker closes both handles and ends the
      run. */
    method Drain(puts: nat -> bool) returns (next: Next)
      requires buffer.Valid() && backlog.appending && backlog.pos <= |backlog.lines|
      modifies this, buffer, buffer.segs
      ensures buffer.Valid() && msg == old(msg) && dest == old(dest) && Out == old(Out)
      ensures fresh(set a | a in buffer.segs && a !in old(buffer.segs))
      ensures next == Retry || next == Finish
      ensures |old(backlog).lines| <= |backlog.lines| && backlog.lines[..|old(backlog).lines|] == old(backlog).lines
      ensures backlog.pos == old(backlog).pos && backlog.named == old(backlog).named
      ensures backlog.present == old(backlog).present
      ensures next == Retry ==> backlog.reading == old(backlog).reading
      ensures next == Finish ==> !backlog.reading && !backlog.appending
      ensures Unread(backlog) + Values(buffer.Contents) == old(Unread(backlog) + Values(buffer.Contents))
      ensures Stored(old(buffer.Contents), puts, |old(buffer.Contents)|) ==>
        next == Retry && backlog.appending && buffer.Contents == [] &&
        backlog.lines == old(backlog).lines + Values(old(buffer.Contents))
    {
      var r;
      ghost var Q, n := buffer.Contents, 0;
      r, n := WriteBacklog(puts);
      if r != 0 {
        StoredAt(Q, puts, |Q|, n);
      } else {
        assert Q[..n] == Q;
      }
      if r == -1 {
        backlog := backlog.(appending := false);
      } else if r == -2 {
        backlog := backlog.(appending := false, reading := false);
        return Finish;
      }
      return Retry;
    }

    /** Opening the backlog when there is none yet: the append handle, then
      the read handle (which finds the file once the append handle has made
      it).  `ok` when the append handle is open. */
    method OpenBacklog(append: bool) returns (ok: bool)
      requires Valid() && !backlog.reading && backlog.named
      modifies this
      ensures Valid() && msg == old(msg) && dest == old(dest) && Out == old(Out)
      ensures ok <==> append
      ensures backlog == old(backlog).(present := old(backlog).present || append,
                                       reading := old(backlog).present || append,
                                       appending := append)
      ensures Pending() == old(Pending())
    {
      var present := backlog.present || append;
      backlog := backlog.(present := present, reading := present, appending := append);
      return append;
    }

    /** After the message in hand went to the backlog and the queue was
      drained: the first backlog line becomes the message in hand (the read
      handle is at the start of the file). */
    method Reread()
      requires Valid() && msg == None && backlog.reading && backlog.pos < |backlog.lines|
      modifies this
      ensures Valid() && dest == old(dest) && Out == old(Out) && Pending() == old(Pending())
      ensures msg == Some(old(backlog).lines[old(backlog).pos])
      ensures backlog == old(backlog).(pos := old(backlog).pos + 1)
    {
      msg := Some(backlog.lines[backlog.pos]);
      backlog := backlog.(pos := backlog.pos + 1);
    }

    /** The branch after a failed delivery with no backlog yet (corrected):
      the message in hand is written to a new backlog, the queue is drained
      after it, and the first backlog line, the same message, is taken up
      again.  When the message cannot be written it is kept in hand. */
    method SpillFixed(disk: Disk) returns (next: Next)
      requires Valid() && msg.Some? && !backlog.reading
      modifies this, buffer, buffer.segs
      ensures Out == old(Out) && dest == old(dest) && Pending() == old(Pending())
      ensures fresh(set a | a in buffer.segs && a !in old(buffer.segs))
      ensures next == Retry || next == Finish
      ensures next == Retry ==> Valid() && msg.Some?
      ensures next == Finish ==> buffer.Valid()
      ensures old(backlog).named && disk.append && disk.put && next == Retry ==>
        msg == old(msg) && backlog.lines != [] && backlog.lines[0] == old(msg).value && backlog.pos == 1
      ensures !(old(backlog).named && disk.append && disk.put) ==>
        next == Retry && msg == old(msg) && buffer.Contents == old(buffer.Contents)
    {
      if !backlog.named {
        return Retry;
      }
      var ok := OpenBacklog(disk.append);
      if !ok {
        return Retry;
      }
      if !disk.put {
        return Retry;
      }
      next := Record(disk.drain);
      if next == Finish {
        return;
      }
      Reread();
    }

    /** The message in hand goes to the fresh backlog, then the queue after
      it. */
    method Record(puts: nat -> bool) returns (next: Next)
      requires Valid() && msg.Some? && backlog.reading && backlog.appending && backlog.lines == []
      modifies this, buffer, buffer.segs
      ensures Out == old(Out) && dest == old(dest) && Pending() == old(Pending())
      ensures fresh(set a | a in buffer.segs && a !in old(buffer.segs))
      ensures buffer.Valid() && (next == Retry || next == Finish)
      ensures next == Retry ==>
        Valid() && msg == None && backlog.reading &&
        backlog.pos == 0 && backlog.lines != [] && backlog.lines[0] == old(msg).value
    {
      Stage();
      next := Drain(puts);
      assert Pending() == Unread(backlog) + Values(buffer.Contents);
    }

    /** The message in hand becomes the first line of the fresh backlog. */
    method Stage()
      requires Valid() && msg.Some? && backlog.reading && backlog.appending && backlog.lines == []
      modifies this
      ensures Valid() && Out == old(Out) && dest == old(dest) && msg == None
      ensures backlog == old(backlog).(lines := [old(msg).value])
      ensures Pending() == old(Pending()) && Pending() == Unread(backlog) + Values(buffer.Contents)
    {
      var m := msg.value;
      ghost var V := Values(buffer.Contents);
      assert old(Pending()) == [m] + V;
      backlog := backlog.(lines := [m]);
      msg := None;
      assert Unread(backlog) == [m];
      assert Pending() == [m] + V;
    }

    /** The branch after a failed delivery with no backlog yet, as written:
      when the message in hand cannot be written it is put back at the front
      of the queue and also kept in hand, so it is pending twice. */
    method Spill(disk: Disk) returns (next: Next)
      requires Valid() && msg.Some? && !backlog.reading
      modifies this, buffer, buffer.segs
      ensures Out == old(Out) && dest == old(dest)
      ensures fresh(set a | a in buffer.segs && a !in old(buffer.segs))
      ensures next == Retry || next == Finish
      ensures next == Retry ==> Valid() && msg.Some?
      ensures next == Finish ==> buffer.Valid()
      ensures old(backlog).named && disk.append && !disk.put ==>
        msg == old(msg) && buffer.Contents == [old(msg)] + old(buffer.Contents) &&
        Pending() == [old(msg).value] + old(Pending())
      ensures !(old(backlog).named && disk.append && !disk.put) ==> Pending() == old(Pending())
      ensures !(old(backlog).named && disk.append) ==>
        next == Retry && msg == old(msg) && buffer.Contents == old(buffer.Contents)
    {
      if !backlog.named {
        return Retry;
      }
      var ok := OpenBacklog(disk.append);
      if !ok {
        return Retry;
      }
      if !disk.put {
        ghost var A := Ahead();
        buffer.Unpop(msg);
        assert Values(buffer.Contents) == [msg.value] + Values(old(buffer.Contents)) by {
          assert buffer.Contents[0] == msg && buffer.Contents[1..] == old(buffer.Contents);
        }
        assert A == [msg.value];
        return Retry;
      }
      next := Record(disk.drain);
      if next == Finish {
        return;
      }
      Reread();
    }

    /** The branch after a failed delivery while the backlog is being read
      back, as written: with no append handle the backlog is reopened, but
      the test of the result is inverted, so a successful open skips the
      drain and a failed one goes on to drain into no file, which aborts. */
    method Reopen(disk: Disk) returns (next: Next)
      requires Valid() && msg.Some? && backlog.reading
      modifies this, buffer, buffer.segs
      ensures Out == old(Out) && dest == old(dest) && msg == old(msg) && Pending() == old(Pending())
      ensures fresh(set a | a in buffer.segs && a !in old(buffer.segs))
      ensures next == Retry ==> Valid()
      ensures next != Retry ==> buffer.Valid()
      ensures next == Abort <==> !old(backlog).appending && old(backlog).named && !disk.append
      ensures next == Abort ==> backlog == old(backlog) && buffer.Contents == old(buffer.Contents)
      ensures !old(backlog).appending && old(backlog).named && disk.append ==>
        next == Retry && backlog == old(backlog).(appending := true) &&
        buffer.Contents == old(buffer.Contents)
    {
      if !backlog.appending {
        if !backlog.named {
          return Retry;
        }
        if disk.append {
          backlog := backlog.(appending := true);
          return Retry;
        }
        return Abort;
      }
      next := Flush(disk.drain);
    }

    /** The branch after a failed delivery while the backlog is being read
      back (corrected): the append handle is reopened if need be, and the
      queue is drained after the unread backlog; if it cannot be reopened
      the delivery is simply retried. */
    method ReopenFixed(disk: Disk) returns (next: Next)
      requires Valid() && msg.Some? && backlog.reading
      modifies this, buffer, buffer.segs
      ensures Out == old(Out) && dest == old(dest) && msg == old(msg) && Pending() == old(Pending())
      ensures fresh(set a | a in buffer.segs && a !in old(buffer.segs))
      ensures next == Retry || next == Finish
      ensures next == Retry ==> Valid()
      ensures next == Finish ==> buffer.Valid()
      ensures !old(backlog).appending && !(old(backlog).named && disk.append) ==>
        next == Retry && backlog == old(backlog) && buffer.Contents == old(buffer.Contents)
      ensures old(backlog).appending || (old(backlog).named && disk.append) ==>
        |old(backlog).lines| <= |backlog.lines| &&
        backlog.lines[..|old(backlog).lines|] == old(backlog).lines
      ensures (old(backlog).appending || (old(backlog).named && disk.append)) &&
              Stored(old(buffer.Contents), disk.drain, |old(buffer.Contents)|) ==>
        next == Retry && buffer.Contents == [] &&
        backlog.lines == old(backlog).lines + Values(old(buffer.Contents))
    {
      if !backlog.appending {
        if !backlog.named || !disk.append {
          return Retry;
        }
        backlog := backlog.(appending := true);
      }
      next := Flush(disk.drain);
    }

    /** The drain of either branch, on an open append handle, while the
      backlog is being read back: a write error closes the append handle,
      the end marker ends the run. */
    method Flush(puts: nat -> bool) returns (next: Next)
      requires Valid() && msg.Some? && backlog.reading && backlog.appending
      modifies this, buffer, buffer.segs
      ensures Out == old(Out) && dest == old(dest) && msg == old(msg) && Pending() == old(Pending())
      ensures fresh(set a | a in buffer.segs && a !in old(buffer.segs))
      ensures next == Retry || next == Finish
      ensures next == Retry ==> Valid()
      ensures next == Finish ==> buffer.Valid()
      ensures |old(backlog).lines| <= |backlog.lines| &&
        backlog.lines[..|old(backlog).lines|] == old(backlog).lines
      ensures Stored(old(buffer.Contents), puts, |old(buffer.Contents)|) ==>
        next == Retry && buffer.Contents == [] &&
        backlog.lines == old(backlog).lines + Values(old(buffer.Contents))
    {
      next := Drain(puts);
    }

    /** The `else` of `deliver_message` in logger_run, as written. */
    method Undelivered(disk: Disk) returns (next: Next)
      requires Valid() && msg.Some?
      modifies this, buffer, buffer.segs
      ensures Out == old(Out) && dest == old(dest)
      ensures fresh(set a | a in buffer.segs && a !in old(buffer.segs))
      ensures next == Retry ==> Valid() && msg.Some?
      ensures next != Retry ==> buffer.Valid()
      ensures old(backlog).reading ==> Pending() == old(Pending())
      ensures next == Abort <==>
        old(backlog).reading && !old(backlog).appending && old(backlog).named && !disk.append
      ensures !old(backlog).reading && old(backlog).named && disk.append && !disk.put ==>
        Pending() == [old(msg).value] + old(Pending())
    {
      if backlog.reading {
        next := Reopen(disk);
      } else {
        next := Spill(disk);
      }
    }

    /** The `else` of `deliver_message` in logger_run, corrected: nothing
      is lost or repeated, and the run never aborts. */
    method UndeliveredFixed(disk: Disk) returns (next: Next)
      requires Valid() && msg.Some?
      modifies this, buffer, buffer.segs
      ensures Out == old(Out) && dest == old(dest) && Pending() == old(Pending())
      ensures fresh(set a | a in buffer.segs && a !in old(buffer.segs))
      ensures next == Retry || next == Finish
      ensures next == Retry ==> Valid() && msg.Some?
      ensures next == Finish ==> buffer.Valid()
    {
      if backlog.reading {
        next := ReopenFixed(disk);
      } else {
        next := SpillFixed(disk);
      }
    }

    /** logger_cleanup: the destination, if any, is cleaned up. */
    method Cleanup(close: Answer)
      requires dest != null ==> dest.Valid() && dest.state != Sending
      modifies dest
      ensures dest != null ==> dest.Valid() && dest.Stream == old(dest.Stream)
      ensures dest != null && old(dest.state) == Disconnected ==> dest.state == Disconnected
      ensures dest != null && old(dest.state) != Disconnected && dest.kind == Tcp ==>
        dest.state == Disconnected && dest.fd == -1
    {
      if dest != null {
        var _ := dest.Cleanup(close);
      }
    }

    /** logger_run, with the corrected failure branch: the message in hand
      goes to the destination, delivery `k` with the answers `rounds(k)` for
      at most `dfuel` rounds, and failure `f` with the answers `disks(f)`,
      until the end marker is taken, the destination is found in its error
      state, the queue is empty, or `fuel` deliveries were made.  No message
      is lost, repeated or reordered: what went out followed by what is
      still pending is what was pending at the start. */
    method Run(rounds: nat -> nat -> Round, disks: nat -> Disk, dfuel: nat, fuel: nat) returns (ending: Ending)
      requires buffer.Valid() && dest != null && dest.Valid() && msg == None
      requires !backlog.reading && !backlog.appending && backlog.pos == 0
      requires (!backlog.named ==> !backlog.present) && (!backlog.present ==> backlog.lines == [])
      requires Records(Pending())
      modifies this, dest, buffer, buffer.segs
      ensures dest == old(dest) && Out + Pending() == old(Out + Pending())
      ensures ending == Waiting ==> Pending() == []
      ensures ending == Exited ==> dest.state == Error
      ensures ending == Running ==> msg.Some?
    {
      ghost var O0, P0 := Out, Pending();
      var waiting := Start();
      if waiting {
        return Waiting;
      }
      var k, f := 0, 0;
      while msg.Some? && k < fuel
        invariant Valid() && dest == old(dest) && dest.Valid()
        invariant Out + Pending() == O0 + P0 && |O0| <= |Out|
        invariant fresh(set a | a in buffer.segs && a !in old(buffer.segs))
        decreases fuel - k
      {
        RecordsRemain(O0, P0, Out, Pending());
        var stop, failed;
        stop, ending, failed := Serve(rounds(k), disks(f), dfuel);
        if stop {
          return;
        }
        k := k + 1;
        if failed {
          f := f + 1;
        }
      }
      ending := if msg.Some? then Running else Finished;
    }

    /** One pass of logger_run's `while (msg)` loop: the error check, the
      delivery of the message in hand with the answers `r`, and what follows
      it, with the answers `disk` if it fails.  `stop` when the run ends
      with `ending`; `failed` when the delivery failed. */
    method Serve(r: nat -> Round, disk: Disk, dfuel: nat) returns (stop: bool, ending: Ending, failed: bool)
      requires Valid() && dest != null && dest.Valid() && msg.Some? && Records(Pending())
      modifies this, dest, buffer, buffer.segs
      ensures dest == old(dest) && dest.Valid()
      ensures Out + Pending() == old(Out + Pending()) && |old(Out)| <= |Out|
      ensures fresh(set a | a in buffer.segs && a !in old(buffer.segs))
      ensures !stop ==> Valid()
      ensures stop && ending == Waiting ==> Pending() == []
      ensures stop && ending == Exited ==> dest.state == Error
      ensures stop && ending == Running ==> msg.Some?
    {
      if dest.state == Error {
        return true, Exited, false;
      }
      var m := msg.value;
      assert Pending()[0] == m;
      RecordStrLen(m);
      var outcome := Deliver(dest, m[..CStrLen(m)], r, dfuel);
      match outcome {
        case Again =>
          return true, Running, false;
        case Delivered =>
          var waiting := Sent();
          return waiting, Waiting, false;
        case GaveUp =>
          var next := UndeliveredFixed(disk);
          return next == Finish, Finished, true;
      }
    }
  }
}
