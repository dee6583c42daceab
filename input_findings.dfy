/** Runs of a stream source over three full reads, with the line-purge as
    written and as corrected. */
module InputFindings {
  import opened Bytes
  import opened Framing
  import opened InputTools

  /** `n` bytes `a`. */
  function Filler(n: nat): (s: seq<Byte>)
    ensures |s| == n && forall i :: 0 <= i < n ==> s[i] == 97
  {
    seq(n, _ => 97)
  }

  /** Filler holds no newline. */
  lemma FillerHasNoNewline(n: nat)
    ensures FirstIndex(Filler(n), NL) == n
  {
    FirstIndexFound(Filler(n), NL);
  }

  /** An oversized line: a full read without a newline. */
  function Oversized(): seq<Byte>
  {
    Filler(MaxMsgSize)
  }

  /** The rest of the oversized line, whose newline is the last byte of a
      full read. */
  function Tail(): seq<Byte>
  {
    Filler(MaxMsgSize - 1) + [NL]
  }

  /** A full read that opens with the line `de`. */
  function Next(): seq<Byte>
  {
    [100, 101, NL] + Filler(MaxMsgSize - 3)
  }

  lemma TailNewline()
    ensures FirstIndex(Tail(), NL) == MaxMsgSize - 1
  {
    FillerHasNoNewline(MaxMsgSize - 1);
    FirstIndexConcat(Filler(MaxMsgSize - 1), [NL], NL);
  }

  /** Discarding up to the newline of the tail leaves nothing. */
  lemma TailResync()
    ensures FirstIndex(Tail(), NL) < |Tail()| && Resync(Tail()) == []
  {
    TailNewline();
  }

  lemma NextLines()
    ensures Lines(Next()) == [[100, 101, NL, NUL]]
    ensures Rest(Next()) == Filler(MaxMsgSize - 3)
  {
    var p := Next();
    var f := Filler(MaxMsgSize - 3);
    assert FirstIndex(p, NL) == 2 by {
      FirstIndexConcat([100, 101, NL], f, NL);
      assert FirstIndex([100, 101, NL], NL) == 2 by {
        assert [100, 101, NL][1..] == [101, NL];
        assert [101, NL][1..] == [NL];
      }
    }
    LinesStep(p);
    RestStep(p);
    assert p[3..] == f;
    assert p[..3] + [NUL] == [100, 101, NL, NUL];
    FillerHasNoNewline(MaxMsgSize - 3);
    LinesNone(f);
    assert Lines(p) == [[100, 101, NL, NUL]] + [];
  }

  /** A fresh source reads an oversized line: nothing is reported and it
      starts discarding, with its buffer emptied. */
  method ReadOversized(h: InputHandler)
    requires h.Valid() && h.state == IsReady && h.inbuf.size == MaxMsgSize
    requires h.inbuf.border == 0 && h.inbuf.current == 0
    requires h.inbuf.available == MaxMsgSize && h.inbuf.write == MaxMsgSize
    modifies h, h.inbuf, h.inbuf.data
    ensures h.Valid() && h.state == IsErr && h.inbuf.size == MaxMsgSize
    ensures h.inbuf.border == 0 && h.inbuf.current == 0
    ensures h.inbuf.available == MaxMsgSize && h.inbuf.write == MaxMsgSize
    ensures h.inbuf.Pending() == []
  {
    h.inbuf.PendingLength();
    FillerHasNoNewline(MaxMsgSize);
    LinesNone(Oversized());
    assert [] + Oversized() == Oversized();
    assert Arrived(IsReady, Readable(MaxMsgSize), Got(Oversized()));
    var status, lines := h.Read(Readable(MaxMsgSize), Got(Oversized()));
    assert h.Absorbed(IsReady, Oversized(), lines);
  }

  /** The same read with the corrected purge, which has the same outcome. */
  method ReadOversizedFixed(h: InputHandler)
    requires h.Valid() && h.state == IsReady && h.inbuf.size == MaxMsgSize
    requires h.inbuf.border == 0 && h.inbuf.current == 0
    requires h.inbuf.available == MaxMsgSize && h.inbuf.write == MaxMsgSize
    modifies h, h.inbuf, h.inbuf.data
    ensures h.Valid() && h.state == IsErr && h.inbuf.size == MaxMsgSize
    ensures h.inbuf.border == 0 && h.inbuf.current == 0
    ensures h.inbuf.available == MaxMsgSize && h.inbuf.write == MaxMsgSize
    ensures h.inbuf.Pending() == []
  {
    h.inbuf.PendingLength();
    FillerHasNoNewline(MaxMsgSize);
    LinesNone(Oversized());
    assert [] + Oversized() == Oversized();
    assert Arrived(IsReady, Readable(MaxMsgSize), Got(Oversized()));
    var status, lines := h.ReadFixed(Readable(MaxMsgSize), Got(Oversized()));
    assert h.Absorbed(IsReady, Oversized(), lines);
  }

  /** The rest of the oversized line ends on the buffer's last byte: as
      written, the source is ready again with its read position on the
      end. */
  method ReadTail(h: InputHandler)
    requires h.Valid() && h.state == IsErr && h.inbuf.size == MaxMsgSize
    requires h.inbuf.write == MaxMsgSize && h.inbuf.Pending() == []
    modifies h, h.inbuf, h.inbuf.data
    ensures h.Valid() && h.state == IsReady && h.inbuf.size == MaxMsgSize
    ensures h.inbuf.border == MaxMsgSize && h.inbuf.write == MaxMsgSize
    ensures h.inbuf.Pending() == []
  {
    TailNewline();
    TailResync();
    LinesNone([]);
    assert [] + Tail() == Tail();
    assert Arrived(IsErr, Readable(MaxMsgSize), Got(Tail()));
    var status, lines := h.Read(Readable(MaxMsgSize), Got(Tail()));
    assert h.Absorbed(IsErr, Tail(), lines);
    h.inbuf.PendingLength();
  }

  /** The same read with the corrected purge: the source is ready again
      with an empty buffer whose positions are inside it. */
  method ReadTailFixed(h: InputHandler)
    requires h.Valid() && h.inbuf.border < h.inbuf.size
    requires h.state == IsErr && h.inbuf.size == MaxMsgSize
    requires h.inbuf.current == 0 && h.inbuf.write == MaxMsgSize && h.inbuf.Pending() == []
    modifies h, h.inbuf, h.inbuf.data
    ensures h.Valid() && h.inbuf.border < h.inbuf.size
    ensures h.state == IsReady && h.inbuf.size == MaxMsgSize
    ensures h.inbuf.write == MaxMsgSize && h.inbuf.Pending() == []
  {
    TailNewline();
    TailResync();
    LinesNone([]);
    assert [] + Tail() == Tail();
    assert Arrived(IsErr, Readable(MaxMsgSize), Got(Tail()));
    var status, lines := h.ReadFixed(Readable(MaxMsgSize), Got(Tail()));
    assert h.Absorbed(IsErr, Tail(), lines);
    h.inbuf.PendingLength();
  }

  /** As written: after an oversized line whose rest ends on the buffer's
      last byte, a full read opening with the line `de` reports nothing,
      and the source starts discarding with an empty buffer, so the line is
      lost. */
  method LineLostAfterPurgeAtEnd() returns (lines: seq<seq<Byte>>, state: InputState)
    ensures Lines(Next()) == [[100, 101, NL, NUL]]
    ensures lines == [] && state == IsErr
  {
    var h := new InputHandler(0);
    ReadOversized(h);
    ReadTail(h);
    var status;
    status, lines := h.Read(Readable(MaxMsgSize), Got(Next()));
    state := h.state;
    NextLines();
  }

  /** With the corrected purge, a full read opening with the line `de`
    into an empty buffer reports that line and keeps the rest. */
  method ReadNextFixed(h: InputHandler) returns (lines: seq<seq<Byte>>)
    requires h.Valid() && h.inbuf.border < h.inbuf.size
    requires h.state == IsReady && h.inbuf.size == MaxMsgSize
    requires h.inbuf.write == MaxMsgSize && h.inbuf.Pending() == []
    modifies h, h.inbuf, h.inbuf.data
    ensures h.Valid() && lines == [[100, 101, NL, NUL]] && h.inbuf.Pending() == Filler(MaxMsgSize - 3)
  {
    NextLines();
    assert [] + Next() == Next();
    var status;
    status, lines := h.ReadFixed(Readable(MaxMsgSize), Got(Next()));
  }

  /** With the corrected purge, the same three reads report the line `de`
      and keep the rest of the third read. */
  method LineKeptWithFixedPurge() returns (lines: seq<seq<Byte>>, ghost pending: seq<Byte>)
    ensures lines == [[100, 101, NL, NUL]] && pending == Filler(MaxMsgSize - 3)
  {
    var h := new InputHandler(0);
    ReadOversizedFixed(h);
    ReadTailFixed(h);
    lines := ReadNextFixed(h);
    pending := h.inbuf.Pending();
  }

  /** As written, a stream line holding a NUL is reported as it stands:
      the bytes `a`, NUL, `b`, newline give one line that is no record, and
      `strlen` sees only `a`, without its newline.  The corrected framing
      drops it. */
  lemma NulLineReported()
    ensures Lines([97, NUL, 98, NL]) == [[97, NUL, 98, NL, NUL]]
    ensures !IsRecord([97, NUL, 98, NL, NUL]) && CStrLen([97, NUL, 98, NL, NUL]) == 1
    ensures RecordLines([97, NUL, 98, NL]) == []
  {
    var p: seq<Byte> := [97, NUL, 98, NL];
    assert IsFirst(p, NL, 3);
    IsFirstUnique(p, NL, 3);
    LinesStep(p);
    assert p[4..] == [];
    LinesNone([]);
    assert p[..4] + [NUL] == [97, NUL, 98, NL, NUL];
    var l: seq<Byte> := [97, NUL, 98, NL, NUL];
    assert l[..4][1] == NUL;
    assert [97, NUL, 98, NL, NUL][1..] == [NUL, 98, NL, NUL];
    assert Strip(l)[1] == NUL;
  }
}
