/** The message queue between the reader and the logger: a chain of
    fixed-size segments, read at `headindex` of the first segment and written
    at `endindex` of the last.  The semaphore is the field `count`. */
module Queues {
  import opened Bytes

  /** REALLOC_SIZE: the number of slots of a segment. */
  const Realloc := 1000

  /** The slots of a chain of segments, in order. */
  function Join<T>(D: seq<seq<T>>): seq<T>
  {
    if D == [] then [] else D[0] + Join(D[1..])
  }

  /** Every segment holds REALLOC_SIZE slots. */
  ghost predicate Uniform<T>(D: seq<seq<T>>)
  {
    forall i :: 0 <= i < |D| ==> |D[i]| == Realloc
  }

  lemma {:induction false} JoinLength<T>(D: seq<seq<T>>)
    requires Uniform(D)
    ensures |Join(D)| == Realloc * |D|
  {
    if D != [] {
      JoinLength(D[1..]);
    }
  }

  /** Chaining a segment at the end appends its slots. */
  lemma {:induction false} JoinAppend<T>(D: seq<seq<T>>, s: seq<T>)
    ensures Join(D + [s]) == Join(D) + s
  {
    if D == [] {
      assert [] + [s] == [s];
    } else {
      assert (D + [s])[1..] == D[1..] + [s];
      JoinAppend(D[1..], s);
    }
  }

  /** Slot `i` of segment `k` is slot `Realloc * k + i` of the chain. */
  lemma {:induction false} JoinIndex<T>(D: seq<seq<T>>, k: int, i: int)
    requires Uniform(D) && 0 <= k < |D| && 0 <= i < Realloc
    ensures Realloc * k + i < |Join(D)| && Join(D)[Realloc * k + i] == D[k][i]
  {
    JoinLength(D);
    if k > 0 {
      JoinIndex(D[1..], k - 1, i);
    }
  }

  /** Writing slot `i` of segment `k` writes slot `Realloc * k + i` of the
      chain. */
  lemma {:induction false} JoinUpdate<T>(D: seq<seq<T>>, k: int, i: int, x: T)
    requires Uniform(D) && 0 <= k < |D| && 0 <= i < Realloc
    ensures Realloc * k + i < |Join(D)|
    ensures Join(D[k := D[k][i := x]]) == Join(D)[Realloc * k + i := x]
  {
    JoinLength(D);
    if k == 0 {
      assert D[0 := D[0][i := x]][1..] == D[1..];
    } else {
      assert D[k := D[k][i := x]][1..] == D[1..][k - 1 := D[k][i := x]];
      JoinUpdate(D[1..], k - 1, i, x);
    }
  }

  /** Slots `a` to `b` of segment `k` are slots `Realloc * k + a` to
      `Realloc * k + b` of the chain. */
  lemma {:induction false} JoinRun<T>(D: seq<seq<T>>, k: int, a: int, b: int)
    requires Uniform(D) && 0 <= k < |D| && 0 <= a <= b <= Realloc
    ensures Realloc * k + b <= |Join(D)|
    ensures Join(D)[Realloc * k + a .. Realloc * k + b] == D[k][a..b]
  {
    JoinLength(D);
    if k > 0 {
      JoinRun(D[1..], k - 1, a, b);
      assert Join(D) == D[0] + Join(D[1..]);
    }
  }

  /** A chain `D` queues `C` from slot `h` of its first segment up to slot
      `e` of its last, exclusive, with both indices inside a segment. */
  ghost predicate Layout<T>(D: seq<seq<T>>, h: int, e: int, C: seq<T>)
  {
    1 <= |D| && Uniform(D) && |Join(D)| == Realloc * |D| &&
    0 <= h < Realloc && 0 <= e < Realloc && (|D| == 1 ==> h <= e) &&
    C == Join(D)[h .. Realloc * (|D| - 1) + e]
  }

  /** Writing slot `e` and moving on keeps the layout and queues `x` last;
      at the end of the segment, chaining the empty segment `s` and
      starting over at its slot 0 does. */
  lemma LayoutPush<T>(D: seq<seq<T>>, h: int, e: int, C: seq<T>, x: T, s: seq<T>)
    requires Layout(D, h, e, C) && |s| == Realloc
    ensures var D' := D[|D| - 1 := D[|D| - 1][e := x]];
      if e + 1 < Realloc then Layout(D', h, e + 1, C + [x])
      else Layout(D' + [s], h, 0, C + [x])
  {
    var n := |D|;
    var p := Realloc * (n - 1) + e;
    var D' := D[n - 1 := D[n - 1][e := x]];
    JoinUpdate(D, n - 1, e, x);
    assert Join(D')[h .. p + 1] == Join(D)[h .. p] + [x];
    assert Uniform(D');
    JoinLength(D');
    if e + 1 == Realloc {
      JoinAppend(D', s);
      assert Uniform(D' + [s]);
      assert (Join(D') + s)[h .. p + 1] == Join(D')[h .. p + 1];
    }
  }

  /** Taking the front message moves past slot `h`; at the end of the head
      segment the segment goes and reading starts over at slot 0 of the
      next. */
  lemma LayoutPop<T>(D: seq<seq<T>>, h: int, e: int, C: seq<T>)
    requires Layout(D, h, e, C) && |C| > 0
    ensures C[0] == D[0][h]
    ensures if h + 1 < Realloc then Layout(D, h + 1, e, C[1..])
      else |D| > 1 && Layout(D[1..], 0, e, C[1..])
  {
    var J := Join(D);
    assert J == D[0] + Join(D[1..]);
    if h + 1 == Realloc {
      assert Uniform(D[1..]);
      JoinLength(D[1..]);
      assert Join(D[1..]) == J[Realloc..];
    }
  }

  /** Writing slot `h - 1` and moving back puts `x` in front. */
  lemma LayoutPutBack<T>(D: seq<seq<T>>, h: int, e: int, C: seq<T>, x: T)
    requires Layout(D, h, e, C) && h > 0
    ensures Layout(D[0 := D[0][h - 1 := x]], h - 1, e, [x] + C)
  {
    var q := Realloc * (|D| - 1) + e;
    var D' := D[0 := D[0][h - 1 := x]];
    JoinUpdate(D, 0, h - 1, x);
    assert Join(D')[h - 1 .. q] == [x] + Join(D)[h .. q];
    assert Uniform(D');
    JoinLength(D');
  }

  /** At the start of the head segment, prepending the empty segment `s`
      and writing its last slot puts `x` in front. */
  lemma LayoutNewHead<T>(D: seq<seq<T>>, e: int, C: seq<T>, x: T, s: seq<T>)
    requires Layout(D, 0, e, C) && |s| == Realloc
    ensures Layout([s[Realloc - 1 := x]] + D, Realloc - 1, e, [x] + C)
  {
    var n := |D|;
    var D' := [s[Realloc - 1 := x]] + D;
    assert D'[1..] == D;
    assert Join(D') == s[Realloc - 1 := x] + Join(D);
    assert Join(D')[Realloc - 1 .. Realloc * n + e] == [x] + Join(D)[0 .. Realloc * (n - 1) + e];
    assert Uniform(D');
    JoinLength(D');
  }

  class Queue<T(0)> {
    /** The chain, from the head segment to the current one. */
    var segs: seq<array<T>>
    var headindex: int
    var endindex: int
    /** The value of the semaphore. */
    var count: int
    /** The slots of each segment. */
    ghost var Cells: seq<seq<T>>
    /** The queued messages, front first. */
    ghost var Contents: seq<T>

    /** The segments are distinct arrays of REALLOC_SIZE slots that hold
      `Cells`. */
    ghost predicate Segments()
      reads this, segs
    {
      |Cells| == |segs| &&
      (forall i :: 0 <= i < |segs| ==> segs[i].Length == Realloc && segs[i][..] == Cells[i]) &&
      (forall i, j :: 0 <= i < j < |segs| ==> segs[i] != segs[j])
    }

    /** The queued messages run from slot `headindex` of the head segment to
      slot `endindex` of the current one, exclusive; both indices stay below
      REALLOC_SIZE and the semaphore counts the messages. */
    ghost predicate Valid()
      reads this, segs
    {
      Segments() && Layout(Cells, headindex, endindex, Contents) && count == |Contents|
    }

    /** buffer_init: one segment, both indices at its start, nothing
      queued. */
    constructor ()
      ensures Valid() && Contents == []
      ensures |segs| == 1 && fresh(segs[0]) && headindex == 0 && endindex == 0 && count == 0
    {
      var a := new T[Realloc];
      segs := [a];
      Cells := [a[..]];
      headindex := 0;
      endindex := 0;
      count := 0;
      Contents := [];
      new;
      assert Join(Cells) == a[..] + Join([]);
    }

    /** buffer_push: store at `endindex` of the current segment; chain a new
      segment when the index reaches its end. */
    method Push(x: T)
      requires Valid()
      modifies this, segs[|segs| - 1]
      ensures Valid() && Contents == old(Contents) + [x]
      ensures headindex == old(headindex) && segs[0] == old(segs[0])
      ensures old(endindex) + 1 < Realloc ==> segs == old(segs) && endindex == old(endindex) + 1
      ensures old(endindex) + 1 == Realloc ==>
        segs[..|segs| - 1] == old(segs) && fresh(segs[|segs| - 1]) && endindex == 0
    {
      ghost var D, C := Cells, Contents;
      Store(x);
      if endindex == Realloc {
        Chain(D, C, x);
      } else {
        LayoutPush(D, headindex, endindex - 1, C, x, D[0]);
      }
    }

    /** The slot write and the semaphore post of a push. */
    method Store(x: T)
      requires Valid()
      modifies this, segs[|segs| - 1]
      ensures Segments() && segs == old(segs) && headindex == old(headindex)
      ensures Cells == old(Cells)[|segs| - 1 := old(Cells)[|segs| - 1][old(endindex) := x]]
      ensures endindex == old(endindex) + 1 && Contents == old(Contents) + [x]
      ensures count == |Contents|
    {
      var last := segs[|segs| - 1];
      last[endindex] := x;
      Cells := Cells[|segs| - 1 := Cells[|segs| - 1][endindex := x]];
      Contents := Contents + [x];
      count := count + 1;
      endindex := endindex + 1;
    }

    /** create_internal_buffer once a push has filled the current segment,
      which held `D` and queued `C` before `x` was stored. */
    method Chain(ghost D: seq<seq<T>>, ghost C: seq<T>, x: T)
      requires Segments() && endindex == Realloc && count == |Contents| && Contents == C + [x]
      requires Layout(D, headindex, Realloc - 1, C) && Cells == D[|D| - 1 := D[|D| - 1][Realloc - 1 := x]]
      modifies this
      ensures Valid() && Contents == old(Contents) && headindex == old(headindex)
      ensures segs[..|segs| - 1] == old(segs) && fresh(segs[|segs| - 1]) && endindex == 0
    {
      var a := new T[Realloc];
      LayoutPush(D, headindex, Realloc - 1, C, x, a[..]);
      segs := segs + [a];
      Cells := Cells + [a[..]];
      endindex := 0;
    }

    /** buffer_pop, once the semaphore wait has passed: take the message at
      `headindex`; drop the head segment when the index reaches its end. */
    method Pop() returns (x: T)
      requires Valid() && count > 0
      modifies this
      ensures Valid()
      ensures x == old(Contents)[0] && Contents == old(Contents)[1..]
      ensures endindex == old(endindex)
      ensures old(headindex) + 1 < Realloc ==> segs == old(segs) && headindex == old(headindex) + 1
      ensures old(headindex) + 1 == Realloc ==> segs == old(segs)[1..] && headindex == 0
    {
      LayoutPop(Cells, headindex, endindex, Contents);
      x := segs[0][headindex];
      headindex := headindex + 1;
      Contents := Contents[1..];
      count := count - 1;
      if headindex == Realloc {
        segs := segs[1..];
        Cells := Cells[1..];
        headindex := 0;
      }
    }

    /** buffer_unpop: put `x` back in front of the queue, prepending a fresh
      segment when the head index is at the start of its segment. */
    method Unpop(x: T)
      requires Valid()
      modifies this, segs[0]
      ensures Valid() && Contents == [x] + old(Contents)
      ensures endindex == old(endindex)
      ensures old(headindex) > 0 ==> segs == old(segs) && headindex == old(headindex) - 1
      ensures old(headindex) == 0 ==>
        segs[1..] == old(segs) && fresh(segs[0]) && headindex == Realloc - 1
    {
      if headindex == 0 {
        PutBackNewHead(x);
      } else {
        PutBack(x);
      }
    }

    /** An unpop inside the head segment: the slot before `headindex`. */
    method PutBack(x: T)
      requires Valid() && headindex > 0
      modifies this, segs[0]
      ensures Valid() && Contents == [x] + old(Contents)
      ensures segs == old(segs) && headindex == old(headindex) - 1 && endindex == old(endindex)
    {
      LayoutPutBack(Cells, headindex, endindex, Contents, x);
      headindex := headindex - 1;
      var head := segs[0];
      head[headindex] := x;
      Cells := Cells[0 := Cells[0][headindex := x]];
      Contents := [x] + Contents;
      count := count + 1;
    }

    /** An unpop at the start of the head segment: a fresh segment goes in
      front and `x` takes its last slot. */
    method PutBackNewHead(x: T)
      requires Valid() && headindex == 0
      modifies this
      ensures Valid() && Contents == [x] + old(Contents)
      ensures segs[1..] == old(segs) && fresh(segs[0])
      ensures headindex == Realloc - 1 && endindex == old(endindex)
    {
      var a := new T[Realloc];
      LayoutNewHead(Cells, endindex, Contents, x, a[..]);
      ghost var s := a[..];
      headindex := Realloc;
      headindex := headindex - 1;
      a[headindex] := x;
      segs := [a] + segs;
      Cells := [s[Realloc - 1 := x]] + Cells;
      Contents := [x] + Contents;
      count := count + 1;
    }

    /** buffer_size: the value of the semaphore, the number of queued
      messages. */
    method Size() returns (n: int)
      requires Valid()
      ensures n == |Contents|
    {
      n := count;
    }

    /** The inner loop of buffer_cleanup: the slots of `a` from `from` up to
      `to`, none when `from` is not below `to`. */
    method FreeRun(a: array<T>, from: int, to: int) returns (freed: seq<T>)
      requires 0 <= from <= a.Length && to <= a.Length
      ensures freed == if from < to then a[from..to] else []
    {
      freed := [];
      var index := from;
      while index < to
        invariant from <= index && (index == from || index <= to)
        invariant freed == a[from..index]
      {
        freed := freed + [a[index]];
        index := index + 1;
      }
    }

    /** buffer_cleanup as written: the message slots freed, in order.  After
      the head segment the index is set to REALLOC_SIZE instead of the start
      of the next segment, so only the head segment's messages are freed
      once the queue spans several segments. */
    method Cleanup() returns (freed: seq<T>)
      requires Valid()
      ensures |segs| == 1 ==> freed == Contents
      ensures |segs| > 1 ==> freed == Contents[..Realloc - headindex]
      ensures |freed| < |Contents| <==> |segs| > 2 || (|segs| == 2 && endindex > 0)
    {
      JoinRun(Cells, 0, headindex, if |segs| == 1 then endindex else Realloc);
      var index := headindex;
      var end := Realloc;
      var i := 0;
      freed := [];
      while i < |segs|
        invariant 0 <= i <= |segs| && 0 <= index <= Realloc
        invariant i == 0 ==> index == headindex && freed == []
        invariant i > 0 ==> index == Realloc
        invariant i > 0 ==> freed == Cells[0][headindex .. if |segs| == 1 then endindex else Realloc]
        invariant end == Realloc || (i == |segs| && end == endindex)
      {
        if i + 1 == |segs| {
          end := endindex;
        }
        var run := FreeRun(segs[i], index, end);
        freed := freed + run;
        index := Realloc;
        i := i + 1;
      }
      if |segs| > 1 {
        assert Contents[..Realloc - headindex] == Join(Cells)[headindex .. Realloc];
      }
    }

    /** buffer_cleanup with the index set to the start of each following
      segment: every queued message is freed, front first. */
    method CleanupFixed() returns (freed: seq<T>)
      requires Valid()
      ensures freed == Contents
    {
      ghost var J := Join(Cells);
      var index := headindex;
      var end := Realloc;
      var i := 0;
      freed := [];
      while i < |segs|
        invariant 0 <= i <= |segs| && 0 <= index < Realloc
        invariant i == 0 ==> index == headindex
        invariant i > 0 ==> index == 0
        invariant i < |segs| ==> freed == J[headindex .. Realloc * i + index]
        invariant i == |segs| ==> freed == Contents
        invariant i < |segs| ==> end == Realloc
      {
        if i + 1 == |segs| {
          end := endindex;
        }
        var run := FreeRun(segs[i], index, end);
        JoinRun(Cells, i, index, end);
        SliceSplit(J, headindex, Realloc * i + index, Realloc * i + end);
        freed := freed + run;
        index := 0;
        i := i + 1;
      }
    }
  }
}
