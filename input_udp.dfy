/** The read step of a datagram source: one datagram, one record. */
module InputUdp {
  import opened Bytes
  import opened InputBuffers
  import opened InputTools
  import Errno

  /** What `recv` with MSG_TRUNC answers: a failure with its errno, or the
      whole datagram, however long (only what fits is copied). */
  datatype Recv = RecvFailed(errno: int) | Datagram(d: seq<Byte>)

  ghost predicate AllNul(s: seq<Byte>)
  {
    forall i :: 0 <= i < |s| ==> s[i] == NUL
  }

  /** The record a datagram `d` becomes: dropped when a NUL is followed by
      anything else; otherwise cut at its first NUL and given a newline (when
      it does not already end in one) and a NUL terminator. */
  ghost function Framed(d: seq<Byte>): Option<seq<Byte>>
  {
    var k := FirstIndex(d, NUL);
    if !AllNul(d[k..]) then None
    else if k > 0 && d[k - 1] == NL then Some(d[..k] + [NUL])
    else Some(d[..k] + [NL, NUL])
  }

  /** A datagram is dropped exactly when it has a NUL before some other
      byte. */
  lemma FramedDropped(d: seq<Byte>)
    ensures Framed(d) == None <==>
      exists i, j :: 0 <= i < j < |d| && d[i] == NUL && d[j] != NUL
  {
    var k := FirstIndex(d, NUL);
    FirstIndexIsFirst(d, NUL);
    if !AllNul(d[k..]) {
      var j :| 0 <= j < |d[k..]| && d[k..][j] != NUL;
      assert d[k + j] != NUL;
      assert 0 <= k < k + j < |d| && d[k] == NUL;
    } else {
      forall i, j | 0 <= i < j < |d| && d[i] == NUL
        ensures d[j] == NUL
      {
        assert k <= i;
        assert d[k..][j - k] == d[j];
      }
    }
  }

  /** Every record made from a datagram that starts with something other
      than NUL ends in a newline and a NUL, and holds no NUL before the
      terminator; the bytes before its trailer are the datagram's up to its
      first NUL, less a final newline. */
  lemma {:induction false} FramedIsRecord(d: seq<Byte>)
    requires Framed(d).Some? && FirstIndex(d, NUL) > 0
    ensures IsRecord(Framed(d).value)
    ensures var k := FirstIndex(d, NUL);
      Framed(d).value[..k] == d[..k] && |Framed(d).value| == (if d[k - 1] == NL then k + 1 else k + 2)
  {
    var k := FirstIndex(d, NUL);
    FirstIndexIsFirst(d, NUL);
    var m := Framed(d).value;
    assert m[..|m| - 1] == (if d[k - 1] == NL then d[..k] else d[..k] + [NL]);
    assert forall j :: 0 <= j < |m| - 1 ==> m[j] != NUL;
  }

  /** The record of an accepted datagram, as a C string. */
  method Trailer(kept: seq<Byte>) returns (msg: seq<Byte>)
    requires |kept| > 0 && NUL !in kept
    ensures msg == if kept[|kept| - 1] == NL then kept + [NUL] else kept + [NL, NUL]
  {
    var readcount := |kept|;
    var m := new Byte[readcount + 2];
    var i := 0;
    while i < readcount
      invariant 0 <= i <= readcount
      invariant m[..i] == kept[..i]
    {
      m[i] := kept[i];
      i := i + 1;
    }
    var last := m[readcount - 1];
    if last == NUL {
      assert false;
    } else if last == NL {
      m[readcount] := NUL;
      msg := m[..readcount + 1];
    } else {
      m[readcount] := NL;
      m[readcount + 1] := NUL;
      msg := m[..];
    }
  }

  /** input_handler_udp_read, with the answer of `recv` as a parameter; the
      record passed to report_data, if any, is returned.  The buffer takes
      the datagram at its start and its counters never change. */
  method UdpRead(h: InputHandler, r: Recv) returns (status: int, msg: Option<seq<Byte>>)
    requires h.Valid() && (h.state != IsEof ==> h.inbuf.current == 0)
    requires h.state != IsEof && r.Datagram? && 0 < |r.d| <= h.inbuf.write ==>
      !(r.d[0] == NUL && AllNul(r.d))
    modifies h, h.inbuf.data
    ensures h.Valid()
    ensures h.inbuf.current == old(h.inbuf.current) && h.inbuf.border == old(h.inbuf.border)
    ensures h.inbuf.available == old(h.inbuf.available) && h.inbuf.write == old(h.inbuf.write)
    ensures status == 0 || status == -1
    ensures status == -1 <==> h.state == IsEof
    ensures old(h.state) == IsEof ==> status == -1 && msg == None
    ensures old(h.state) != IsEof && r.RecvFailed? ==>
      msg == None && (status == 0 <==> r.errno == Errno.EAGAIN || r.errno == Errno.EINTR)
    ensures old(h.state) != IsEof && r == Datagram([]) ==> status == -1 && msg == None
    ensures old(h.state) != IsEof && r.Datagram? && |r.d| > old(h.inbuf.write) ==>
      status == 0 && msg == None
    ensures old(h.state) != IsEof && r.Datagram? && 0 < |r.d| <= old(h.inbuf.write) ==>
      status == 0 && msg == Framed(r.d)
  {
    if h.state == IsEof {
      return -1, None;
    }
    var buf := h.inbuf;
    match r
    case RecvFailed(err) =>
      if err == Errno.EAGAIN || err == Errno.EINTR {
        return 0, None;
      }
      h.state := IsEof;
      return -1, None;
    case Datagram(d) =>
      if |d| == 0 {
        h.state := IsEof;
        return -1, None;
      }
      buf.Fill(d[..Min(|d|, buf.write)]);
      if |d| > buf.write {
        return 0, None;
      }
      assert buf.data[0..|d|] == d;
      msg := Keep(buf, d);
      return 0, msg;
  }

  /** The NUL check and the trailer, on a datagram `d` that fits and lies at
      the start of the buffer. */
  method Keep(buf: InputBuffer, d: seq<Byte>) returns (msg: Option<seq<Byte>>)
    requires buf.Sane() && 0 < |d| <= buf.size && buf.data[0..|d|] == d
    requires !(d[0] == NUL && AllNul(d))
    ensures msg == Framed(d)
  {
    var readcount := |d|;
    var zero := Memchr(buf.data, 0, readcount, NUL);
    assert buf.data[..][0..readcount] == d;
    if zero < readcount {
      var i := zero;
      while i < readcount
        invariant zero <= i <= readcount
        invariant AllNul(d[zero..i])
      {
        if buf.data[i] != NUL {
          assert d[zero..][i - zero] != NUL;
          return None;
        }
        assert d[zero..i + 1] == d[zero..i] + [d[i]];
        i := i + 1;
      }
      assert d[zero..] == d[zero..readcount];
      readcount := zero;
    } else {
      assert d[zero..] == [];
    }
    FirstIndexIsFirst(d, NUL);
    assert readcount > 0;
    assert NUL !in d[..readcount];
    var m := Trailer(d[..readcount]);
    msg := Some(m);
  }
}
