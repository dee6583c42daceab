/** The read step shared by the stream sources: pull what the descriptor
    holds into the framing buffer and hand out every complete line. */
module InputTools {
  import opened Bytes
  import opened Framing
  import opened InputBuffers
  import Errno

  /** GENCACHE_MAX_MSG_SIZE: the size of a source's framing buffer. */
  const MaxMsgSize := 1000000

  datatype InputState = IsReady | IsErr | IsEof

  /** What `ioctl(FIONREAD)` answers. */
  datatype Probe = ProbeFailed(errno: int) | Readable(count: int)

  /** What `read` answers: a failure with its errno, or the bytes read (none
      at end of file). */
  datatype Received = ReadFailed(errno: int) | Got(bytes: seq<Byte>)

  /** What the purge leaves of the bytes while a source is discarding an
      oversized line: everything after its first newline, or nothing. */
  ghost function Resync(q: seq<Byte>): (r: seq<Byte>)
    ensures FirstIndex(q, NL) < |q| ==> q == q[..FirstIndex(q, NL) + 1] + r
    ensures FirstIndex(q, NL) == |q| ==> r == []
  {
    if FirstIndex(q, NL) < |q| then q[FirstIndex(q, NL) + 1..] else []
  }

  /** Taking the first line of `p` off the buffer moves it from the lines
    still to come to those reported, and leaves the rest alone. */
  lemma LinesAdvance(p0: seq<Byte>, lines: seq<seq<Byte>>, p: seq<Byte>)
    requires FirstIndex(p, NL) < |p|
    requires lines + Lines(p) == Lines(p0) && Rest(p) == Rest(p0)
    ensures var k := FirstIndex(p, NL) + 1;
      lines + [p[..k] + [NUL]] + Lines(p[k..]) == Lines(p0) && Rest(p[k..]) == Rest(p0)
  {
    LinesStep(p);
    RestStep(p);
    var k := FirstIndex(p, NL) + 1;
    assert lines + [p[..k] + [NUL]] + Lines(p[k..]) == lines + Lines(p);
  }

  /** Bytes came in: the source was not at end of file, the probe counted
    some and the read returned some. */
  predicate Arrived(st: InputState, probe: Probe, received: Received)
  {
    st != IsEof && probe.Readable? && probe.count > 0 && received.Got? && received.bytes != []
  }

  class InputHandler {
    const fd: int
    const inbuf: InputBuffer
    var state: InputState

    /** The buffer passes the integrity test, its read position possibly on
      the end, where a purge can leave it; a source that is not at end of
      file has room to read into; one that is discarding an oversized line
      has an empty buffer with both positions at the start. */
    ghost predicate Valid()
      reads this, inbuf
    {
      inbuf.Steady() &&
      (state != IsEof ==> inbuf.write > 0 && inbuf.available > 0) &&
      (state == IsErr ==> inbuf.border == 0 && inbuf.current == 0 && inbuf.available == inbuf.size)
    }

    /** input_handler_common_init: a ready source on `fd` with an empty
      buffer of GENCACHE_MAX_MSG_SIZE bytes. */
    constructor (fd: int)
      ensures this.fd == fd && state == IsReady && fresh(inbuf) && fresh(inbuf.data)
      ensures inbuf.size == MaxMsgSize && Valid() && inbuf.Pending() == []
      ensures inbuf.border == 0 && inbuf.current == 0
      ensures inbuf.available == MaxMsgSize && inbuf.write == MaxMsgSize
    {
      this.fd := fd;
      inbuf := new InputBuffer(MaxMsgSize);
      state := IsReady;
    }

    /** input_handler_common_read, with the answers of `ioctl` and `read` as
      parameters; the lines passed to report_data are returned in call
      order.  A purge that ends on the end of the buffer leaves the read
      position there, and a later read that fills the buffer is then lost
      with the unread bytes before it: no line is reported and the source
      starts discarding. */
    method Read(probe: Probe, received: Received) returns (status: int, lines: seq<seq<Byte>>)
      requires Valid()
      requires probe.Readable? ==> probe.count >= 0
      requires probe.Readable? && received.Got? ==>
        |received.bytes| <= Min(inbuf.write, probe.count)
      modifies this, inbuf, inbuf.data
      ensures Valid()
      ensures status == -1 <==> state == IsEof
      ensures status == 0 || status == -1
      ensures old(state) == IsEof ==>
        status == -1 && lines == [] && inbuf.Pending() == old(inbuf.Pending())
      ensures old(state) != IsEof && !(probe.Readable? && probe.count > 0) ==>
        status == -1 && lines == [] && inbuf.Pending() == old(inbuf.Pending())
      ensures old(state) != IsEof && probe.Readable? && probe.count > 0 && received.ReadFailed? ==>
        lines == [] && inbuf.Pending() == old(inbuf.Pending()) &&
        (status == 0 <==> received.errno == Errno.EAGAIN || received.errno == Errno.EINTR) &&
        (status == 0 ==> state == old(state))
      ensures old(state) != IsEof && probe.Readable? && probe.count > 0 && received == Got([]) ==>
        status == -1 && lines == [] && inbuf.Pending() == old(inbuf.Pending())
      ensures Arrived(old(state), probe, received) ==>
        status == 0 &&
        if old(inbuf.border) == inbuf.size && |received.bytes| == old(inbuf.write)
        then lines == [] && state == IsErr && inbuf.Pending() == []
        else Absorbed(old(state), old(inbuf.Pending()) + received.bytes, lines)
      ensures Arrived(old(state), probe, received) && state == IsReady ==>
        inbuf.current == NextCurrent(inbuf.size, old(inbuf.current), |received.bytes|)
      ensures (Arrived(old(state), probe, received) && old(state) == IsErr &&
               |received.bytes| == inbuf.size && FirstIndex(received.bytes, NL) == inbuf.size - 1) ==>
        inbuf.border == inbuf.size
    {
      var bytes;
      status, bytes := Receive(probe, received);
      lines := [];
      if bytes != [] {
        lines := Absorb(bytes);
      }
    }

    /** input_handler_common_read with the line-purge corrected: the read
      position never stays on the end, so the bytes of every read are
      absorbed. */
    method ReadFixed(probe: Probe, received: Received) returns (status: int, lines: seq<seq<Byte>>)
      requires Valid() && inbuf.border < inbuf.size
      requires probe.Readable? ==> probe.count >= 0
      requires probe.Readable? && received.Got? ==>
        |received.bytes| <= Min(inbuf.write, probe.count)
      modifies this, inbuf, inbuf.data
      ensures Valid() && inbuf.border < inbuf.size
      ensures status == -1 <==> state == IsEof
      ensures status == 0 || status == -1
      ensures !Arrived(old(state), probe, received) ==>
        lines == [] && inbuf.Pending() == old(inbuf.Pending())
      ensures Arrived(old(state), probe, received) ==>
        status == 0 && Absorbed(old(state), old(inbuf.Pending()) + received.bytes, lines)
      ensures Arrived(old(state), probe, received) && state == IsReady ==>
        inbuf.current == NextCurrent(inbuf.size, old(inbuf.current), |received.bytes|)
    {
      var bytes;
      status, bytes := Receive(probe, received);
      lines := [];
      if bytes != [] {
        lines := AbsorbFixed(bytes);
      }
    }

    /** The probe and the read, up to the update: -1 at end of file, on a
      failed or empty probe, on a fatal read error and on a zero-byte read,
      each leaving the source at end of file; 0 with nothing on EAGAIN or
      EINTR; 0 with the bytes read otherwise. */
    method Receive(probe: Probe, received: Received) returns (status: int, bytes: seq<Byte>)
      requires Valid()
      requires probe.Readable? ==> probe.count >= 0
      requires probe.Readable? && received.Got? ==>
        |received.bytes| <= Min(inbuf.write, probe.count)
      modifies this
      ensures Valid()
      ensures status == -1 <==> state == IsEof
      ensures status == 0 || status == -1
      ensures status == 0 ==> state == old(state)
      ensures bytes != [] <==> Arrived(old(state), probe, received)
      ensures bytes != [] ==> status == 0 && bytes == received.bytes && |bytes| <= inbuf.write
      ensures old(state) == IsEof ==> status == -1
      ensures old(state) != IsEof && !(probe.Readable? && probe.count > 0) ==> status == -1
      ensures old(state) != IsEof && probe.Readable? && probe.count > 0 && received.ReadFailed? ==>
        (status == 0 <==> received.errno == Errno.EAGAIN || received.errno == Errno.EINTR)
      ensures old(state) != IsEof && probe.Readable? && probe.count > 0 && received == Got([]) ==>
        status == -1
    {
      bytes := [];
      if state == IsEof {
        return -1, bytes;
      }
      if probe.ProbeFailed? {
        state := IsEof;
        return -1, bytes;
      }
      if probe.count == 0 {
        state := IsEof;
        return -1, bytes;
      }
      var maxread := Min(inbuf.write, probe.count);
      assert received.Got? ==> |received.bytes| <= maxread <= inbuf.write;
      match received
      case ReadFailed(err) =>
        if err == Errno.EAGAIN || err == Errno.EINTR {
          return 0, bytes;
        }
        state := IsEof;
        return -1, bytes;
      case Got(got) =>
        if |got| == 0 {
          state := IsEof;
          return -1, bytes;
        }
        return 0, got;
    }

    /** The outcome of accepting bytes that leave `q` unread, from state
      `st`: a source discarding an oversized line first resynchronises on the
      first newline; the complete lines are reported; and when no room is
      left the source starts discarding. */
    ghost predicate Absorbed(st: InputState, q: seq<Byte>, lines: seq<seq<Byte>>)
      reads this, inbuf, inbuf.data
      requires inbuf.Sane()
    {
      var s := if st == IsErr then Resync(q) else q;
      lines == Lines(s) &&
      if |Rest(s)| == inbuf.size then state == IsErr && inbuf.Pending() == []
      else
        inbuf.Pending() == Rest(s) &&
        state == (if st == IsErr && FirstIndex(q, NL) == |q| then IsErr else IsReady)
    }

    /** Everything read does once bytes have arrived: account for them,
      resynchronise when discarding, report the complete lines, and start
      discarding when the buffer is full.  When the read position stood on
      the end and the bytes fill the buffer, the update wraps the write
      position onto the start, the search sees nothing, and everything
      unread is purged. */
    method Absorb(bytes: seq<Byte>) returns (lines: seq<seq<Byte>>)
      requires Valid() && state != IsEof && 0 < |bytes| <= inbuf.write
      modifies this, inbuf, inbuf.data
      ensures Valid() && state != IsEof
      ensures if old(inbuf.border) == inbuf.size && |bytes| == old(inbuf.write)
        then lines == [] && state == IsErr && inbuf.Pending() == []
        else Absorbed(old(state), old(inbuf.Pending()) + bytes, lines)
      ensures state == IsReady ==> inbuf.current == NextCurrent(inbuf.size, old(inbuf.current), |bytes|)
      ensures old(state) == IsErr && |bytes| == inbuf.size && FirstIndex(bytes, NL) == inbuf.size - 1 ==>
        inbuf.border == inbuf.size
    {
      if state == IsErr {
        inbuf.PendingLength();
        assert old(inbuf.Pending()) == [];
      }
      Accept(bytes);
      if state == IsErr {
        assert inbuf.Pending() == bytes;
        var purged := Resynchronise();
        if !purged {
          LinesNone([]);
          return [];
        }
      }
      lines := Extract();
    }

    /** `Absorb` with the corrected line-purge. */
    method AbsorbFixed(bytes: seq<Byte>) returns (lines: seq<seq<Byte>>)
      requires Valid() && inbuf.border < inbuf.size && state != IsEof && 0 < |bytes| <= inbuf.write
      modifies this, inbuf, inbuf.data
      ensures Valid() && inbuf.border < inbuf.size && state != IsEof
      ensures Absorbed(old(state), old(inbuf.Pending()) + bytes, lines)
      ensures state == IsReady ==> inbuf.current == NextCurrent(inbuf.size, old(inbuf.current), |bytes|)
    {
      Accept(bytes);
      if state == IsErr {
        var purged := ResynchroniseFixed();
        if !purged {
          LinesNone([]);
          return [];
        }
      }
      lines := Extract();
    }

    /** read(2) filling the buffer, and input_buffer_update.  The bytes join
      the unread ones, except when the read position stands on the end and
      they fill the buffer. */
    method Accept(bytes: seq<Byte>)
      requires Valid() && state != IsEof && 0 < |bytes| <= inbuf.write
      modifies inbuf, inbuf.data
      ensures inbuf.border == old(inbuf.border)
      ensures inbuf.current == NextCurrent(inbuf.size, old(inbuf.current), |bytes|)
      ensures old(inbuf.border) == inbuf.size && |bytes| == old(inbuf.write) ==> inbuf.Lost()
      ensures !(old(inbuf.border) == inbuf.size && |bytes| == old(inbuf.write)) ==>
        inbuf.Steady() && inbuf.Pending() == old(inbuf.Pending()) + bytes
    {
      inbuf.Fill(bytes);
      inbuf.Update(|bytes|);
    }

    /** The purge while discarding an oversized line, as written: the rest
      of it goes, up to and including its newline, and the source is ready
      again, with the read position just past the newline, on the end when
      the newline is the buffer's last byte; without a newline all goes and
      the source stays discarding. */
    method Resynchronise() returns (purged: bool)
      requires state == IsErr && inbuf.Steady() && inbuf.border == 0
      modifies this, inbuf
      ensures var q := old(inbuf.Pending()); purged <==> FirstIndex(q, NL) < |q|
      ensures inbuf.Steady()
      ensures inbuf.Pending() == Resync(old(inbuf.Pending()))
      ensures !purged ==> state == IsErr && Valid()
      ensures purged ==> state == IsReady && inbuf.border == FirstIndex(old(inbuf.Pending()), NL) + 1
      ensures purged ==> inbuf.current == old(inbuf.current)
    {
      inbuf.PendingLength();
      purged := inbuf.PurgeLine();
      if !purged {
        state := IsErr;
        return;
      }
      state := IsReady;
    }

    /** The purge while discarding, corrected: the read position wraps to
      the start when it reaches the end. */
    method ResynchroniseFixed() returns (purged: bool)
      requires state == IsErr && inbuf.Steady()
      modifies this, inbuf
      ensures var q := old(inbuf.Pending()); purged <==> FirstIndex(q, NL) < |q|
      ensures inbuf.Steady() && inbuf.border < inbuf.size
      ensures inbuf.Pending() == Resync(old(inbuf.Pending()))
      ensures !purged ==> state == IsErr && Valid()
      ensures purged ==> state == IsReady && inbuf.current == old(inbuf.current)
    {
      purged := inbuf.PurgeLineFixed();
      if !purged {
        state := IsErr;
        return;
      }
      state := IsReady;
    }

    /** The getline loop and the check for a full buffer that follows it.
      In the broken state nothing is found, the buffer counts as full, and
      the purge empties it. */
    method Extract() returns (lines: seq<seq<Byte>>)
      requires state == IsReady && (inbuf.Steady() || inbuf.Lost())
      modifies this, inbuf
      ensures Valid() && state != IsEof
      ensures old(inbuf.Lost()) ==> lines == [] && state == IsErr && inbuf.Pending() == []
      ensures !old(inbuf.Lost()) ==>
        var p := old(inbuf.Pending());
        lines == Lines(p) &&
        if |Rest(p)| == inbuf.size then state == IsErr && inbuf.Pending() == []
        else inbuf.Pending() == Rest(p) && state == IsReady
      ensures old(inbuf.Steady()) && lines == [] && state == IsReady ==> inbuf.border == old(inbuf.border)
      ensures old(inbuf.border) < inbuf.size ==> inbuf.border < inbuf.size
      ensures state == IsReady ==> inbuf.current == old(inbuf.current)
    {
      ghost var lost := inbuf.Lost();
      lines := ReportLines();
      if !lost {
        inbuf.PendingLength();
      }
      if inbuf.available == 0 {
        state := IsErr;
        var purged := inbuf.PurgeLine();
        assert !purged;
      }
    }

    /** The getline loop: every complete line of the buffer, in order, until
      getline finds none. */
    method ReportLines() returns (lines: seq<seq<Byte>>)
      requires inbuf.Steady() || inbuf.Lost()
      modifies inbuf
      ensures old(inbuf.Steady()) ==> inbuf.Steady()
      ensures old(inbuf.Lost()) ==> inbuf.Lost()
      ensures lines == Lines(old(inbuf.Pending())) && inbuf.Pending() == Rest(old(inbuf.Pending()))
      ensures FirstIndex(inbuf.Pending(), NL) == |inbuf.Pending()|
      ensures lines == [] ==> inbuf.border == old(inbuf.border)
      ensures old(inbuf.border) < inbuf.size ==> inbuf.border < inbuf.size
      ensures inbuf.current == old(inbuf.current)
    {
      ghost var p0 := inbuf.Pending();
      lines := [];
      while true
        invariant old(inbuf.Steady()) ==> inbuf.Steady()
        invariant old(inbuf.Lost()) ==> inbuf.Lost()
        invariant lines + Lines(inbuf.Pending()) == Lines(p0)
        invariant Rest(inbuf.Pending()) == Rest(p0)
        invariant lines == [] ==> inbuf.border == old(inbuf.border)
        invariant old(inbuf.border) < inbuf.size ==> inbuf.border < inbuf.size
        invariant inbuf.current == old(inbuf.current)
        decreases |inbuf.Pending()|
      {
        var more;
        more, lines := NextLine(p0, lines);
        if !more {
          return;
        }
      }
    }

    /** One getline of the loop: a line found joins those before it, and
      what is left has the same lines after them and the same rest. */
    method NextLine(ghost p0: seq<Byte>, lines: seq<seq<Byte>>) returns (more: bool, lines': seq<seq<Byte>>)
      requires inbuf.Steady() || inbuf.Lost()
      requires lines + Lines(inbuf.Pending()) == Lines(p0) && Rest(inbuf.Pending()) == Rest(p0)
      modifies inbuf
      ensures old(inbuf.Steady()) ==> inbuf.Steady()
      ensures old(inbuf.Lost()) ==> inbuf.Lost()
      ensures inbuf.current == old(inbuf.current)
      ensures !more ==>
        lines' == Lines(p0) && inbuf.Pending() == Rest(p0) && FirstIndex(inbuf.Pending(), NL) == |inbuf.Pending()| &&
        inbuf.border == old(inbuf.border)
      ensures more ==>
        lines' + Lines(inbuf.Pending()) == Lines(p0) && Rest(inbuf.Pending()) == Rest(p0) &&
        |inbuf.Pending()| < |old(inbuf.Pending())| && lines' != [] && inbuf.border < inbuf.size
    {
      ghost var p := inbuf.Pending();
      var line := inbuf.GetLine();
      if line == null {
        LinesNone(p);
        return false, lines;
      }
      LinesAdvance(p0, lines, p);
      return true, lines + [line[..]];
    }
  }
}
