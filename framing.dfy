/** Newline framing as a function of the bytes: what a stream source should
    report for the bytes it has been fed. */
module Framing {
  import opened Bytes

  /** The complete lines at the front of `p`, each kept with its newline and
      given a NUL terminator, in order. */
  function Lines(p: seq<Byte>): (ls: seq<seq<Byte>>)
    decreases |p|
  {
    if FirstIndex(p, NL) == |p| then []
    else
      var k := FirstIndex(p, NL) + 1;
      [p[..k] + [NUL]] + Lines(p[k..])
  }

  /** What is left of `p` once every complete line is taken: the unfinished
      line at its end. */
  function Rest(p: seq<Byte>): (r: seq<Byte>)
    decreases |p|
  {
    if FirstIndex(p, NL) == |p| then p
    else Rest(p[FirstIndex(p, NL) + 1..])
  }

  /** A line without its terminator. */
  function Strip(l: seq<Byte>): seq<Byte>
  {
    if |l| == 0 then [] else l[..|l| - 1]
  }

  /** The lines without their terminators, joined again. */
  function Unframe(ls: seq<seq<Byte>>): seq<Byte>
  {
    if ls == [] then [] else Strip(ls[0]) + Unframe(ls[1..])
  }

  /** One step of the framing: the first line, then the lines of what
      follows it. */
  lemma {:induction false} LinesStep(p: seq<Byte>)
    requires FirstIndex(p, NL) < |p|
    ensures Lines(p) == [p[..FirstIndex(p, NL) + 1] + [NUL]] + Lines(p[FirstIndex(p, NL) + 1..])
  {
  }

  /** The rest after the first line is the rest of what follows it. */
  lemma {:induction false} RestStep(p: seq<Byte>)
    requires FirstIndex(p, NL) < |p|
    ensures Rest(p) == Rest(p[FirstIndex(p, NL) + 1..])
  {
  }

  /** Without a newline there is no line, and everything is rest. */
  lemma {:induction false} LinesNone(p: seq<Byte>)
    requires FirstIndex(p, NL) == |p|
    ensures Lines(p) == [] && Rest(p) == p
  {
  }

  /** Unframing a line in front: its bytes, then the others'. */
  lemma {:induction false} UnframeCons(l: seq<Byte>, ls: seq<seq<Byte>>)
    ensures Unframe([l] + ls) == Strip(l) + Unframe(ls)
  {
    assert ([l] + ls)[0] == l;
    assert ([l] + ls)[1..] == ls;
  }

  /** The round trip of the first line, given that of what follows it. */
  lemma {:induction false} RoundTripStep(p: seq<Byte>, k: nat)
    requires FirstIndex(p, NL) < |p| && k == FirstIndex(p, NL) + 1
    requires Unframe(Lines(p[k..])) + Rest(p[k..]) == p[k..]
    ensures Unframe(Lines(p)) + Rest(p) == p
  {
    var l := p[..k] + [NUL];
    var U, R := Unframe(Lines(p[k..])), Rest(p[k..]);
    LinesStep(p);
    RestStep(p);
    UnframeCons(l, Lines(p[k..]));
    assert Strip(l) == p[..k];
    Associative(p[..k], U, R);
    assert p[..k] + p[k..] == p;
  }

  lemma Associative(a: seq<Byte>, b: seq<Byte>, c: seq<Byte>)
    ensures a + b + c == a + (b + c)
  {
  }

  /** Framing loses nothing: the lines, stripped of their NUL and joined,
      followed by the unfinished rest, give back the bytes. */
  lemma {:induction false} LinesRoundTrip(p: seq<Byte>)
    ensures Unframe(Lines(p)) + Rest(p) == p
    decreases |p|
  {
    if FirstIndex(p, NL) < |p| {
      var k := FirstIndex(p, NL) + 1;
      LinesRoundTrip(p[k..]);
      RoundTripStep(p, k);
    } else {
      LinesNone(p);
      assert Unframe([]) == [];
    }
  }

  /** The unfinished rest holds no newline. */
  lemma {:induction false} RestHasNoNewline(p: seq<Byte>)
    ensures NL !in Rest(p)
    decreases |p|
  {
    if FirstIndex(p, NL) < |p| {
      RestHasNoNewline(p[FirstIndex(p, NL) + 1..]);
    } else {
      FirstIndexFound(p, NL);
    }
  }

  /** Every line is a newline-terminated C string. */
  lemma {:induction false} LinesEndInNewline(p: seq<Byte>)
    ensures forall i :: 0 <= i < |Lines(p)| ==> EndsLine(Lines(p)[i])
    decreases |p|
  {
    if FirstIndex(p, NL) < |p| {
      var k := FirstIndex(p, NL) + 1;
      LinesEndInNewline(p[k..]);
      var l := p[..k] + [NUL];
      assert EndsLine(l);
      assert Lines(p) == [l] + Lines(p[k..]);
    }
  }

  /** The lines of `ls` without a NUL before their terminator, in order:
      those that `strlen` and `fputs` carry whole. */
  function Kept(ls: seq<seq<Byte>>): (r: seq<seq<Byte>>)
    ensures |r| <= |ls|
    ensures forall l :: l in r ==> l in ls && NUL !in Strip(l)
    ensures (forall l :: l in ls ==> NUL !in Strip(l)) ==> r == ls
  {
    if ls == [] then []
    else if NUL in Strip(ls[0]) then Kept(ls[1..])
    else [ls[0]] + Kept(ls[1..])
  }

  /** Without a NUL in the bytes, no line holds one before its end. */
  lemma {:induction false} LinesNulFree(p: seq<Byte>)
    ensures NUL !in p ==> forall l :: l in Lines(p) ==> NUL !in Strip(l)
    decreases |p|
  {
    if NUL !in p && FirstIndex(p, NL) < |p| {
      var k := FirstIndex(p, NL) + 1;
      LinesNulFree(p[k..]);
      var l := p[..k] + [NUL];
      assert Strip(l) == p[..k];
      assert Lines(p) == [l] + Lines(p[k..]);
    }
  }

  /** Lines that end as getline ends them, less those holding a NUL, are
      records. */
  lemma KeptRecords(ls: seq<seq<Byte>>)
    requires forall i :: 0 <= i < |ls| ==> EndsLine(ls[i])
    ensures forall i :: 0 <= i < |Kept(ls)| ==> IsRecord(Kept(ls)[i])
  {
    forall i | 0 <= i < |Kept(ls)|
      ensures IsRecord(Kept(ls)[i])
    {
      var l := Kept(ls)[i];
      assert l in Kept(ls);
      var j :| 0 <= j < |ls| && ls[j] == l;
      assert EndsLine(ls[j]);
    }
  }

  /** The framing of a stream source corrected: a line holding a NUL is
      dropped, as a datagram source drops a message with one inside, so
      every line reported is a record; bytes without a NUL frame as
      before. */
  function RecordLines(p: seq<Byte>): (ls: seq<seq<Byte>>)
    ensures forall i :: 0 <= i < |ls| ==> IsRecord(ls[i])
    ensures NUL !in p ==> ls == Lines(p)
  {
    LinesEndInNewline(p);
    KeptRecords(Lines(p));
    LinesNulFree(p);
    Kept(Lines(p))
  }

  /** A line as getline hands it out: at least a newline, then the NUL. */
  ghost predicate EndsLine(l: seq<Byte>)
  {
    |l| >= 2 && l[|l| - 1] == NUL && l[|l| - 2] == NL
  }

  /** Extracting lines does not depend on how the bytes were chunked:
      framing `p`, then framing the unfinished rest followed by `q`, gives
      the lines of `p + q` and leaves the same rest. */
  lemma {:induction false} LinesChunked(p: seq<Byte>, q: seq<Byte>)
    ensures Lines(p) + Lines(Rest(p) + q) == Lines(p + q)
    ensures Rest(Rest(p) + q) == Rest(p + q)
    decreases |p|
  {
    if FirstIndex(p, NL) < |p| {
      var k := FirstIndex(p, NL) + 1;
      FirstIndexConcat(p, q, NL);
      assert (p + q)[..k] == p[..k];
      assert (p + q)[k..] == p[k..] + q;
      LinesChunked(p[k..], q);
    }
  }
}
