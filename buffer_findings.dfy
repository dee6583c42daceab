/** Concrete runs of the line-purge on a four-byte buffer, as written and as
    corrected. */
module BufferFindings {
  import opened Bytes
  import opened InputBuffers

  /** A read that fills an empty four-byte buffer whose positions are at the
      start. */
  method FillEmpty(buf: InputBuffer, bytes: seq<Byte>)
    requires buf.Valid() && buf.size == 4 && |bytes| == 4
    requires buf.current == 0 && buf.border == 0 && buf.available == 4 && buf.write == 4
    modifies buf, buf.data
    ensures buf.Valid()
    ensures buf.current == 0 && buf.border == 0 && buf.available == 0 && buf.write == 0
    ensures buf.Pending() == bytes
  {
    buf.Fill(bytes);
    buf.Update(4);
    assert buf.data[0..4] == bytes;
  }

  /** A full read whose last byte is a newline, purged as written, leaves the
      read position on the end.  A second full read then wraps the write
      position onto the start, the counters no longer pass the integrity
      test, and the search finds no line although the second read holds
      one. */
  method PurgeAtEndHidesLine() returns (stored: seq<Byte>, found: int)
    ensures FirstIndex(stored, NL) == 2
    ensures found == -1
  {
    stored := [100, 101, 10, 102];
    var buf := new InputBuffer(4);
    FillEmpty(buf, [97, 98, 99, 10]);
    var purged := buf.PurgeLine();
    buf.Fill(stored);
    buf.Update(4);
    found := buf.Find(NL);
  }

  /** The same two reads with the corrected purge: the line of the second
      read is found. */
  method PurgeAtEndFixedFindsLine() returns (stored: seq<Byte>, found: int)
    ensures found == FirstIndex(stored, NL) + 1 == 3
  {
    stored := [100, 101, 10, 102];
    var buf := new InputBuffer(4);
    FillEmpty(buf, [97, 98, 99, 10]);
    var purged := buf.PurgeLineFixed();
    FillEmpty(buf, stored);
    found := buf.Find(NL);
  }

  /** Brings an empty four-byte buffer to the unread byte `b` at offset 2. */
  method ReadAndTakeLine(buf: InputBuffer)
    requires buf.Valid() && buf.size == 4
    requires buf.current == 0 && buf.border == 0 && buf.available == 4 && buf.write == 4
    modifies buf, buf.data
    ensures buf.Valid() && buf.border == 2 && buf.current == 3
    ensures buf.available == 3 && buf.write == 1
    ensures buf.Pending() == [98]
  {
    var first: seq<Byte> := [97, 10, 98];
    buf.Fill(first);
    buf.Update(3);
    assert buf.data[0..3] == first;
    assert FirstIndex(buf.Pending(), NL) == 1;
    var line := buf.GetLine();
  }

  /** Brings an empty four-byte buffer to unread bytes `b`, `c`, newline
      that run from offset 2 across the end to offset 1. */
  method Prepare(buf: InputBuffer)
    requires buf.Valid() && buf.size == 4
    requires buf.current == 0 && buf.border == 0 && buf.available == 4 && buf.write == 4
    modifies buf, buf.data
    ensures buf.Valid() && buf.border == 2 && buf.current == 1 && buf.available == 1
    ensures buf.Pending() == [98, 99, 10] && FirstIndex(buf.Pending(), NL) == 2
  {
    ReadAndTakeLine(buf);
    buf.Fill([99]);
    buf.Update(1);
    buf.Fill([10]);
    buf.Update(1);
    assert FirstIndex([98, 99, 10], NL) == 2;
  }

  /** A line that wraps past the end: the purge as written sets the read
      position one byte before the start and the counters fail the integrity
      test. */
  method PurgeAcrossEndBreaksBuffer() returns (intact: bool)
    ensures !intact
  {
    var buf := new InputBuffer(4);
    Prepare(buf);
    var purged := buf.PurgeLine();
    intact := buf.Validate();
  }

  /** The same line purged by the corrected purge: the counters stay
      intact. */
  method PurgeAcrossEndFixedKeepsBuffer() returns (intact: bool)
    ensures intact
  {
    var buf := new InputBuffer(4);
    Prepare(buf);
    var purged := buf.PurgeLineFixed();
    intact := buf.Validate();
  }
}
