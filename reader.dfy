/** The reader: the registry of input sources, the select loop that
    dispatches on what each source's read answers, and the hand-over of
    records to the message queue. */
module Readers {
  import opened Bytes
  import opened Queues
  import Errno

  /** HANDLERS_STEPPING. */
  const HandlersStepping := 8

  /** A registered source: its descriptor and the identity of its input
      handler. */
  datatype Entry = Entry(fd: int, handler: int)

  /** What `select` answers: the ready descriptors, or a failure. */
  datatype Selected = SelectFailed(errno: int) | ReadySet(ready: set<int>)

  /** How `reader_run` ends: every source gone; `select` failed beyond
      recovery; or, in the model only, no more answers of `select` are
      given, with the loop still running. */
  datatype Outcome = Drained | Failed(errno: int) | Waiting

  /** The handlers, in registry order, of the entries whose descriptor is in
      `fds`: the order in which a scan reads them. */
  ghost function ReadyIds(E: seq<Entry>, fds: set<int>): seq<int>
  {
    if E == [] then []
    else (if E[0].fd in fds then [E[0].handler] else []) + ReadyIds(E[1..], fds)
  }

  lemma {:induction false} ReadyIdsSnoc(E: seq<Entry>, i: int, fds: set<int>)
    requires 0 <= i < |E|
    ensures ReadyIds(E[..i + 1], fds) ==
      ReadyIds(E[..i], fds) + (if E[i].fd in fds then [E[i].handler] else [])
  {
    if i > 0 {
      assert E[..i + 1][1..] == E[1..][..i];
      assert E[..i][1..] == E[1..][..i - 1];
      ReadyIdsSnoc(E[1..], i - 1, fds);
    } else {
      assert E[..1][1..] == [];
    }
  }

  /** Where the corrected pass stands: the first `j` entries of the
      registry `E` it started from, with distinct descriptors `F` ready, are
      dealt with, the `i` kept of them lie in front of `R` and the rest of
      `E` follows; the descriptor set still holds exactly the ready
      descriptors of the rest. */
  ghost predicate Scanned(E: seq<Entry>, F: set<int>, j: int, i: int, R: seq<Entry>, fds: set<int>)
  {
    0 <= i <= |R| && 0 <= j <= |E| &&
    (forall a, b :: 0 <= a < b < |E| ==> E[a].fd != E[b].fd) &&
    R[i..] == E[j..] &&
    (forall k :: 0 <= k < i ==> R[k] in E) &&
    (forall k :: j <= k < |E| ==> (E[k].fd in fds <==> E[k].fd in F))
  }

  /** The entry the scan stands at is the next one of `E`. */
  lemma ScanAt(E: seq<Entry>, F: set<int>, j: int, i: int, R: seq<Entry>, fds: set<int>)
    requires Scanned(E, F, j, i, R, fds) && i < |R|
    ensures j < |E| && R[i] == E[j]
  {
    assert R[i..][0] == E[j..][0];
  }

  /** Dealing with entry `j` (at `i` in the registry) keeps the scan's
      position described, whether the entry was removed or kept. */
  lemma ScanStep(E: seq<Entry>, F: set<int>, j: int, i: int, R: seq<Entry>, fds: set<int>,
                 R': seq<Entry>, fds': set<int>, removed: bool)
    requires Scanned(E, F, j, i, R, fds) && i < |R|
    requires removed ==> R' == R[..i] + R[i + 1..] && fds' == fds - {R[i].fd}
    requires !removed ==> R' == R && fds' == fds
    ensures Scanned(E, F, j + 1, if removed then i else i + 1, R', fds')
  {
    assert R[i] == E[j] by {
      assert R[i..][0] == E[j..][0];
    }
    assert R[i + 1..] == E[j + 1..] by {
      assert R[i + 1..] == R[i..][1..];
    }
    if removed {
      assert R'[i..] == R[i + 1..];
      assert forall k :: 0 <= k < i ==> R'[k] == R[k];
    } else {
      assert R'[i] in E;
    }
  }

  /** The entries of `E` that a pass reading once each ready source keeps,
      in order: a source is dropped when its descriptor is in `F` and its
      read, the `k0 + n`-th overall after `n` earlier reads in the pass,
      answers anything but 0. */
  ghost function Kept(E: seq<Entry>, F: set<int>, status: (int, nat) -> int, k0: nat): seq<Entry>
  {
    if E == [] then []
    else
      var P, e := E[..|E| - 1], E[|E| - 1];
      Kept(P, F, status, k0) +
      (if e.fd in F && status(e.handler, k0 + |ReadyIds(P, F)|) != 0 then [] else [e])
  }

  /** The handlers of the entries that pass drops, in order. */
  ghost function Dropped(E: seq<Entry>, F: set<int>, status: (int, nat) -> int, k0: nat): seq<int>
  {
    if E == [] then []
    else
      var P, e := E[..|E| - 1], E[|E| - 1];
      Dropped(P, F, status, k0) +
      (if e.fd in F && status(e.handler, k0 + |ReadyIds(P, F)|) != 0 then [e.handler] else [])
  }

  /** One more entry of the registry is either kept or dropped, what its
      read answers decides. */
  lemma KeptSnoc(E: seq<Entry>, F: set<int>, status: (int, nat) -> int, k0: nat, j: int)
    requires 0 <= j < |E|
    ensures var drop := E[j].fd in F && status(E[j].handler, k0 + |ReadyIds(E[..j], F)|) != 0;
      Kept(E[..j + 1], F, status, k0) == Kept(E[..j], F, status, k0) + (if drop then [] else [E[j]]) &&
      Dropped(E[..j + 1], F, status, k0) == Dropped(E[..j], F, status, k0) + (if drop then [E[j].handler] else [])
  {
    assert E[..j + 1][..j] == E[..j];
  }

  /** Every entry is either kept or dropped. */
  lemma {:induction false} KeptOrDropped(E: seq<Entry>, F: set<int>, status: (int, nat) -> int, k0: nat)
    ensures |Kept(E, F, status, k0)| + |Dropped(E, F, status, k0)| == |E|
  {
    if E != [] {
      KeptOrDropped(E[..|E| - 1], F, status, k0);
    }
  }

  /** When every read answers 0, the pass keeps every entry and drops
      none. */
  lemma {:induction false} QuietKeepsAll(E: seq<Entry>, F: set<int>, status: (int, nat) -> int, k0: nat)
    requires forall h, n :: status(h, n) == 0
    ensures Kept(E, F, status, k0) == E && Dropped(E, F, status, k0) == []
  {
    if E != [] {
      QuietKeepsAll(E[..|E| - 1], F, status, k0);
    }
  }

  /** No descriptor is registered twice, as no two open sources share a
      descriptor. */
  ghost predicate DistinctFds(E: seq<Entry>)
  {
    forall a, b :: 0 <= a < b < |E| ==> E[a].fd != E[b].fd
  }

  /** Removing an entry keeps the descriptors distinct. */
  lemma DistinctRemove(E: seq<Entry>, index: int)
    requires DistinctFds(E) && 0 <= index < |E|
    ensures DistinctFds(E[..index] + E[index + 1..])
  {
    var R := E[..index] + E[index + 1..];
    forall a, b | 0 <= a < b < |R|
      ensures R[a].fd != R[b].fd
    {
      var a' := if a < index then a else a + 1;
      var b' := if b < index then b else b + 1;
      assert R[a] == E[a'] && R[b] == E[b'];
    }
  }

  /** What is left after a removal was there before. */
  lemma RemovedIn(E: seq<Entry>, index: int)
    requires 0 <= index < |E|
    ensures var R := E[..index] + E[index + 1..]; forall k :: 0 <= k < |R| ==> R[k] in E
  {
    var R := E[..index] + E[index + 1..];
    forall k | 0 <= k < |R|
      ensures R[k] in E
    {
      if k < index {
        assert R[k] == E[k];
      } else {
        assert R[k] == E[k + 1];
      }
    }
  }

  /** The handlers of the entries, in order. */
  function Handlers(E: seq<Entry>): (hs: seq<int>)
    ensures |hs| == |E| && forall i :: 0 <= i < |E| ==> hs[i] == E[i].handler
  {
    if E == [] then [] else Handlers(E[..|E| - 1]) + [E[|E| - 1].handler]
  }

  /** The descriptors of the entries. */
  ghost function FdSet(E: seq<Entry>): set<int>
  {
    set i | 0 <= i < |E| :: E[i].fd
  }

  /** The largest descriptor of the entries, and 0 for none: what the
      rebuild of the poll set computes with `MAX`. */
  function MaxFd(E: seq<Entry>): int
  {
    if E == [] then 0
    else
      var m := MaxFd(E[..|E| - 1]);
      if E[|E| - 1].fd > m then E[|E| - 1].fd else m
  }

  /** The maximum bounds every descriptor and is, when positive, one of
      them. */
  lemma {:induction false} MaxFdIsMax(E: seq<Entry>)
    ensures forall i :: 0 <= i < |E| ==> E[i].fd <= MaxFd(E)
    ensures MaxFd(E) >= 0
    ensures MaxFd(E) > 0 ==> exists i :: 0 <= i < |E| && E[i].fd == MaxFd(E)
  {
    if E != [] {
      var F := E[..|E| - 1];
      MaxFdIsMax(F);
      assert forall i :: 0 <= i < |F| ==> E[i] == F[i];
    }
  }

  /** The shift of memmove: the entries after `index` move one place to
      the front. */
  method Close(a: array<Entry>, index: int, count: int)
    requires 0 <= index < count <= a.Length
    modifies a
    ensures a[..count - 1] == old(a[..index]) + old(a[index + 1..count])
  {
    ghost var O := a[..];
    var k := index;
    while k < count - 1
      invariant index <= k <= count - 1
      invariant forall j :: 0 <= j < index ==> a[j] == O[j]
      invariant forall j :: index <= j < k ==> a[j] == O[j + 1]
      invariant forall j :: k <= j < a.Length ==> a[j] == O[j]
    {
      a[k] := a[k + 1];
      k := k + 1;
    }
    ghost var S := O[..index] + O[index + 1..count];
    assert |S| == count - 1;
    assert forall j :: 0 <= j < count - 1 ==> a[j] == S[j];
    assert a[..count - 1] == S;
  }

  /** The copy of realloc: the first `count` entries of `src` into
      `dst`. */
  method CopyEntries(src: array<Entry>, dst: array<Entry>, count: int)
    requires 0 <= count <= src.Length && count <= dst.Length && src != dst
    modifies dst
    ensures dst[..count] == src[..count]
  {
    var k := 0;
    while k < count
      invariant 0 <= k <= count
      invariant dst[..k] == src[..k]
    {
      dst[k] := src[k];
      k := k + 1;
    }
  }

  class Reader {
    var handlers: array<Entry>
    var handlerCount: int
    /** Never advanced, so every add reallocates. */
    var handlersAlloc: int
    /** The descriptor set handed to `select`. */
    var fds: set<int>
    const buffer: Queue<Option<seq<Byte>>>
    /** The handlers whose cleanup has run, in order. */
    var cleaned: seq<int>
    /** The handlers whose read has been called, in order. */
    var readLog: seq<int>

    /** The registry lies in the front of the array and every registered
      descriptor is a real one. */
    ghost predicate Valid()
      reads this, handlers
    {
      0 <= handlerCount <= handlers.Length && handlersAlloc == 0 &&
      forall i :: 0 <= i < handlerCount ==> handlers[i].fd != -1
    }

    /** The registered sources, in order. */
    ghost function Registered(): seq<Entry>
      reads this, handlers
      requires Valid()
    {
      handlers[..handlerCount]
    }

    /** reader_init: no sources, an empty descriptor set. */
    constructor (buffer: Queue<Option<seq<Byte>>>)
      ensures Valid() && Registered() == [] && fds == {} && this.buffer == buffer && fresh(handlers)
      ensures cleaned == [] && readLog == []
    {
      handlers := new Entry[0];
      handlerCount := 0;
      handlersAlloc := 0;
      fds := {};
      this.buffer := buffer;
      cleaned := [];
      readLog := [];
    }

    /** reader_add_source, with the outcome of realloc as `grown` and what
      the handler's getfd answers as `fd`: the source is appended, or, when
      the array cannot grow, cleaned up and left out. */
    method AddSource(h: int, fd: int, grown: bool)
      requires Valid() && (grown ==> fd != -1)
      modifies this
      ensures Valid() && fds == old(fds) && readLog == old(readLog)
      ensures grown ==> Registered() == old(Registered()) + [Entry(fd, h)] && cleaned == old(cleaned)
      ensures grown ==> fresh(handlers)
      ensures !grown ==> Registered() == old(Registered()) && cleaned == old(cleaned) + [h]
    {
      if handlersAlloc % HandlersStepping == 0 {
        if grown {
          var tmp := new Entry[handlerCount + HandlersStepping + 1];
          CopyEntries(handlers, tmp, handlerCount);
          tmp[handlerCount] := Entry(fd, h);
          handlers := tmp;
          handlerCount := handlerCount + 1;
        } else {
          cleaned := cleaned + [h];
        }
      }
    }

    /** remove_handler: the entry at `index` leaves the registry and the
      descriptor set, the others keep their order, and its cleanup runs
      once. */
    method RemoveHandler(index: int)
      requires Valid() && 0 <= index < handlerCount
      modifies this, handlers
      ensures Valid() && handlers == old(handlers) && readLog == old(readLog)
      ensures var E := old(Registered());
        Registered() == E[..index] + E[index + 1..] &&
        fds == old(fds) - {E[index].fd} &&
        cleaned == old(cleaned) + [E[index].handler]
    {
      ghost var E := handlers[..handlerCount];
      fds := fds - {handlers[index].fd};
      var h := handlers[index].handler;
      if index < handlerCount - 1 {
        Close(handlers, index, handlerCount);
      }
      cleaned := cleaned + [h];
      handlerCount := handlerCount - 1;
      assert handlers[..handlerCount] == E[..index] + E[index + 1..];
      assert forall i :: 0 <= i < handlerCount ==> handlers[i] == handlers[..handlerCount][i];
    }

    /** One pass of the dispatch loop of reader_run, `status(h, k)` being
      what the read of handler `h` answers as the `k`-th read overall.
      Every ready source is read in order; the first to answer anything
      but 0 is removed and the pass stops there, returning its index, so
      that the scan starts over.  -1 means every ready source answered
      0. */
    method Pass(status: (int, nat) -> int) returns (stop: int)
      requires Valid()
      modifies this, handlers
      ensures Valid() && handlers == old(handlers)
      ensures -1 <= stop < old(handlerCount)
      ensures forall k :: |old(readLog)| <= k < |readLog| - (if stop == -1 then 0 else 1) ==>
        status(readLog[k], k) == 0
      ensures stop == -1 ==>
        Registered() == old(Registered()) && fds == old(fds) && cleaned == old(cleaned) &&
        readLog == old(readLog) + ReadyIds(old(Registered()), old(fds))
      ensures stop >= 0 ==>
        var E := old(Registered());
        E[stop].fd in old(fds) &&
        readLog == old(readLog) + ReadyIds(E[..stop + 1], old(fds)) &&
        |readLog| > |old(readLog)| && readLog[|readLog| - 1] == E[stop].handler &&
        status(E[stop].handler, |readLog| - 1) != 0 &&
        Registered() == E[..stop] + E[stop + 1..] && fds == old(fds) - {E[stop].fd} &&
        cleaned == old(cleaned) + [E[stop].handler]
    {
      ghost var E := Registered();
      ghost var r0 := readLog;
      var count := handlerCount;
      var i := 0;
      while i < count
        invariant 0 <= i <= count && Valid() && Registered() == E && fds == old(fds)
        invariant handlers == old(handlers) && handlerCount == count && cleaned == old(cleaned)
        invariant readLog == r0 + ReadyIds(E[..i], fds)
        invariant forall k :: |r0| <= k < |readLog| ==> status(readLog[k], k) == 0
      {
        var removed := ReadAt(E, i, status, r0);
        if removed {
          return i;
        }
        i := i + 1;
      }
      assert E[..count] == E;
      return -1;
    }

    /** The pass as evidently intended: after a removal the scan goes on
      with the entry that moved into the freed place instead of starting
      over, so that every source found ready is read exactly once, in
      registry order.  Registered descriptors are distinct, as open
      descriptors are. */
    method PassOnce(status: (int, nat) -> int)
      requires Valid() && DistinctFds(Registered())
      modifies this, handlers
      ensures Valid() && handlers == old(handlers) && DistinctFds(Registered())
      ensures readLog == old(readLog) + ReadyIds(old(Registered()), old(fds))
      ensures |cleaned| - |old(cleaned)| == |old(Registered())| - |Registered()|
      ensures forall i :: 0 <= i < |Registered()| ==> Registered()[i] in old(Registered())
      ensures Registered() == Kept(old(Registered()), old(fds), status, |old(readLog)|)
      ensures cleaned == old(cleaned) + Dropped(old(Registered()), old(fds), status, |old(readLog)|)
    {
      ghost var E := Registered();
      ghost var F := fds;
      ghost var j := 0;
      var i := 0;
      while i < handlerCount
        invariant 0 <= i <= j <= |E| && Valid() && handlers == old(handlers)
        invariant i <= handlerCount && Scanned(E, F, j, i, handlers[..handlerCount], fds)
        invariant readLog == old(readLog) + ReadyIds(E[..j], F)
        invariant handlers[..i] == Kept(E[..j], F, status, |old(readLog)|)
        invariant cleaned == old(cleaned) + Dropped(E[..j], F, status, |old(readLog)|)
        invariant |cleaned| - |old(cleaned)| == |E| - handlerCount
        invariant DistinctFds(handlers[..handlerCount])
        decreases handlerCount - i
      {
        var removed := ScanOne(E, F, j, i, status, old(readLog), old(cleaned));
        if !removed {
          i := i + 1;
        }
        j := j + 1;
      }
      assert E[..j] == E;
      assert handlers[..handlerCount] == handlers[..i];
    }

    /** One entry of the corrected pass, with the scan's position kept
      described. */
    method ScanOne(ghost E: seq<Entry>, ghost F: set<int>, ghost j: int, i: int, status: (int, nat) -> int,
                   ghost log0: seq<int>, ghost cleaned0: seq<int>) returns (removed: bool)
      requires Valid() && 0 <= i < handlerCount && i <= j <= |E|
      requires Scanned(E, F, j, i, handlers[..handlerCount], fds)
      requires readLog == log0 + ReadyIds(E[..j], F)
      requires |cleaned| - |cleaned0| == |E| - handlerCount
      requires DistinctFds(handlers[..handlerCount])
      requires handlers[..i] == Kept(E[..j], F, status, |log0|)
      requires cleaned == cleaned0 + Dropped(E[..j], F, status, |log0|)
      modifies this, handlers
      ensures Valid() && handlers == old(handlers) && j < |E|
      ensures handlers[..if removed then i else i + 1] == Kept(E[..j + 1], F, status, |log0|)
      ensures cleaned == cleaned0 + Dropped(E[..j + 1], F, status, |log0|)
      ensures Scanned(E, F, j + 1, if removed then i else i + 1, handlers[..handlerCount], fds)
      ensures readLog == log0 + ReadyIds(E[..j + 1], F)
      ensures |cleaned| - |cleaned0| == |E| - handlerCount
      ensures DistinctFds(handlers[..handlerCount])
      ensures removed ==> handlerCount == old(handlerCount) - 1
      ensures !removed ==> handlerCount == old(handlerCount)
    {
      ghost var before, fds0 := handlers[..handlerCount], fds;
      ScanAt(E, F, j, i, before, fds);
      ReadyIdsSnoc(E, j, F);
      KeptSnoc(E, F, status, |log0|, j);
      removed := Visit(i, status);
      ScanStep(E, F, j, i, before, fds0, handlers[..handlerCount], fds, removed);
      if removed {
        DistinctRemove(before, i);
      }
    }

    /** One step of the pass as written, on the registry `E` it started
      with and the reads `r0` made before it: the source at `i` is read
      when it is ready; the pass stops when it is removed. */
    method ReadAt(ghost E: seq<Entry>, i: int, status: (int, nat) -> int, ghost r0: seq<int>)
      returns (removed: bool)
      requires Valid() && 0 <= i < handlerCount && Registered() == E
      requires readLog == r0 + ReadyIds(E[..i], fds)
      requires forall k :: |r0| <= k < |readLog| ==> status(readLog[k], k) == 0
      modifies this, handlers
      ensures Valid() && handlers == old(handlers)
      ensures !removed ==>
        Registered() == E && fds == old(fds) && cleaned == old(cleaned) &&
        readLog == r0 + ReadyIds(E[..i + 1], fds) &&
        forall k :: |r0| <= k < |readLog| ==> status(readLog[k], k) == 0
      ensures removed ==>
        E[i].fd in old(fds) &&
        readLog == r0 + ReadyIds(E[..i + 1], old(fds)) &&
        |readLog| > |r0| && readLog[|readLog| - 1] == E[i].handler &&
        status(E[i].handler, |readLog| - 1) != 0 &&
        Registered() == E[..i] + E[i + 1..] && fds == old(fds) - {E[i].fd} &&
        cleaned == old(cleaned) + [E[i].handler] &&
        forall k :: |r0| <= k < |readLog| - 1 ==> status(readLog[k], k) == 0
    {
      ReadyIdsSnoc(E, i, fds);
      ghost var pre := readLog;
      assert handlers[i] == E[i];
      removed := Visit(i, status);
      if removed {
        assert readLog == pre + [E[i].handler] && status(E[i].handler, |pre|) != 0;
      }
    }

    /** One step of the corrected pass: the source at `i` is read when it is
      ready, and removed when the read answers anything but 0. */
    method Visit(i: int, status: (int, nat) -> int) returns (removed: bool)
      requires Valid() && 0 <= i < handlerCount
      modifies this, handlers
      ensures Valid() && handlers == old(handlers)
      ensures var e := old(handlers[i]);
        (removed <==> e.fd in old(fds) && status(e.handler, |old(readLog)|) != 0) &&
        readLog == old(readLog) + (if e.fd in old(fds) then [e.handler] else []) &&
        (removed ==>
          handlers[..handlerCount] == old(handlers[..handlerCount])[..i] + old(handlers[..handlerCount])[i + 1..] &&
          fds == old(fds) - {e.fd} && cleaned == old(cleaned) + [e.handler]) &&
        (!removed ==>
          handlers[..handlerCount] == old(handlers[..handlerCount]) && fds == old(fds) && cleaned == old(cleaned))
    {
      removed := false;
      if handlers[i].fd in fds {
        var h := handlers[i].handler;
        var answer := status(h, |readLog|);
        readLog := readLog + [h];
        if answer != 0 {
          RemoveHandler(i);
          removed := true;
        }
      }
    }

    /** The rebuild of the poll set after a pass: exactly the registered
      descriptors, and the largest of them. */
    method Rebuild() returns (n: int)
      requires Valid()
      modifies this
      ensures Valid() && handlers == old(handlers) && Registered() == old(Registered())
      ensures cleaned == old(cleaned) && readLog == old(readLog)
      ensures fds == FdSet(Registered()) && n == MaxFd(Registered())
    {
      ghost var E := Registered();
      fds := {};
      n := 0;
      var count := handlerCount;
      var i := 0;
      while i < count
        invariant 0 <= i <= count && Valid() && Registered() == E
        invariant handlers == old(handlers) && handlerCount == count
        invariant cleaned == old(cleaned) && readLog == old(readLog)
        invariant fds == FdSet(E[..i]) && n == MaxFd(E[..i])
      {
        var fd := handlers[i].fd;
        assert E[..i + 1][..i] == E[..i];
        assert FdSet(E[..i + 1]) == FdSet(E[..i]) + {fd} by {
          assert forall k :: 0 <= k < i ==> E[..i + 1][k] == E[..i][k];
        }
        fds := fds + {fd};
        n := if fd > n then fd else n;
        i := i + 1;
      }
      assert E[..count] == E;
    }

    /** The recovery after `select` fails with EBADF, with the descriptors
      on which fcntl fails as `bad`: the first such source is removed and
      its index returned, -1 when there is none. */
    method Recover(bad: set<int>) returns (found: int)
      requires Valid()
      modifies this, handlers
      ensures Valid() && handlers == old(handlers) && readLog == old(readLog)
      ensures -1 <= found < old(handlerCount)
      ensures found == -1 ==>
        Registered() == old(Registered()) && fds == old(fds) && cleaned == old(cleaned) &&
        forall i :: 0 <= i < |Registered()| ==> Registered()[i].fd !in bad
      ensures found >= 0 ==>
        var E := old(Registered());
        E[found].fd in bad && (forall i :: 0 <= i < found ==> E[i].fd !in bad) &&
        Registered() == E[..found] + E[found + 1..] && cleaned == old(cleaned) + [E[found].handler]
    {
      var count := handlerCount;
      var i := 0;
      while i < count
        invariant 0 <= i <= count && Valid() && Registered() == old(Registered())
        invariant handlers == old(handlers) && handlerCount == count && fds == old(fds) && cleaned == old(cleaned) && readLog == old(readLog)
        invariant forall j :: 0 <= j < i ==> handlers[j].fd !in bad
      {
        if handlers[i].fd in bad {
          RemoveHandler(i);
          return i;
        }
        i := i + 1;
      }
      return -1;
    }

    /** reader_run, with what the reads answer as `status`, what the
      successive calls of `select` answer as `selects`, and the descriptors
      on which fcntl fails as `bad`.  The pass restarts after every removal;
      the poll set is rebuilt after a pass without one; the loop ends when
      no source is left, or when `select` fails and no bad descriptor is
      found.  Every source that leaves the registry is cleaned up once. */
    method Run(status: (int, nat) -> int, selects: seq<Selected>, bad: set<int>) returns (outcome: Outcome)
      requires Valid()
      modifies this, handlers
      ensures Valid() && handlers == old(handlers)
      ensures outcome == Drained <==> Registered() == []
      ensures outcome != Drained ==> fds == FdSet(Registered())
      ensures outcome.Failed? ==> exists k :: 0 <= k < |selects| && selects[k] == SelectFailed(outcome.errno)
      ensures |cleaned| - |old(cleaned)| == |old(Registered())| - |Registered()|
      ensures forall i :: 0 <= i < |Registered()| ==> Registered()[i] in old(Registered())
    {
      var next := 0;
      while true
        invariant 0 <= next <= |selects| && Valid() && handlers == old(handlers)
        invariant |cleaned| - |old(cleaned)| == |old(Registered())| - |Registered()|
        invariant forall i :: 0 <= i < |Registered()| ==> Registered()[i] in old(Registered())
        decreases |selects| - next, handlerCount
      {
        var restart := Restarts(status);
        if restart {
          continue;
        }
        var n := Rebuild();
        if handlerCount == 0 {
          return Drained;
        }
        if next == |selects| {
          return Waiting;
        }
        var answer := selects[next];
        next := next + 1;
        var rerun := Selecting(answer, bad);
        if !rerun {
          return Failed(answer.errno);
        }
      }
    }

    /** A pass as reader_run sees it: whether it removed a source and so
      has to start over, and what is left and cleaned up. */
    method Restarts(status: (int, nat) -> int) returns (restart: bool)
      requires Valid()
      modifies this, handlers
      ensures Valid() && handlers == old(handlers)
      ensures |cleaned| - |old(cleaned)| == |old(Registered())| - |Registered()|
      ensures forall i :: 0 <= i < |Registered()| ==> Registered()[i] in old(Registered())
      ensures restart ==> |Registered()| < |old(Registered())|
      ensures !restart ==> Registered() == old(Registered())
    {
      ghost var E := Registered();
      var stop := Pass(status);
      if stop >= 0 {
        RemovedIn(E, stop);
        assert |Registered()| == |E| - 1;
      }
      restart := stop >= 0;
    }

    /** reader_run with the corrected pass: each answer of `select` has
      every source it found ready read once, in registry order, before the
      poll set is rebuilt. */
    method RunFixed(status: (int, nat) -> int, selects: seq<Selected>, bad: set<int>) returns (outcome: Outcome)
      requires Valid() && DistinctFds(Registered())
      modifies this, handlers
      ensures Valid() && handlers == old(handlers)
      ensures outcome == Drained <==> Registered() == []
      ensures outcome != Drained ==> fds == FdSet(Registered())
      ensures outcome.Failed? ==> exists k :: 0 <= k < |selects| && selects[k] == SelectFailed(outcome.errno)
      ensures |cleaned| - |old(cleaned)| == |old(Registered())| - |Registered()|
      ensures forall i :: 0 <= i < |Registered()| ==> Registered()[i] in old(Registered())
    {
      var next := 0;
      while true
        invariant 0 <= next <= |selects| && Valid() && handlers == old(handlers)
        invariant |cleaned| - |old(cleaned)| == |old(Registered())| - |Registered()|
        invariant forall i :: 0 <= i < |Registered()| ==> Registered()[i] in old(Registered())
        invariant DistinctFds(Registered())
        decreases |selects| - next
      {
        PassOnce(status);
        var n := Rebuild();
        if handlerCount == 0 {
          return Drained;
        }
        if next == |selects| {
          return Waiting;
        }
        var answer := selects[next];
        next := next + 1;
        var rerun := Selecting(answer, bad);
        if !rerun {
          return Failed(answer.errno);
        }
      }
    }

    /** What follows an answer of `select`: on readiness the descriptor set
      shrinks to the ready ones and the loop goes on; on EBADF a bad
      descriptor's source is removed and the loop goes on; otherwise the
      loop ends. */
    method Selecting(answer: Selected, bad: set<int>) returns (rerun: bool)
      requires Valid()
      modifies this, handlers
      ensures Valid() && handlers == old(handlers)
      ensures |cleaned| - |old(cleaned)| == |old(Registered())| - |Registered()|
      ensures forall i :: 0 <= i < |Registered()| ==> Registered()[i] in old(Registered())
      ensures !rerun ==> answer.SelectFailed? && Registered() == old(Registered()) && fds == old(fds)
      ensures readLog == old(readLog)
      ensures answer.ReadySet? ==> rerun && fds == old(fds) * answer.ready && Registered() == old(Registered())
      ensures answer.SelectFailed? && rerun ==> |Registered()| < |old(Registered())|
      ensures DistinctFds(old(Registered())) ==> DistinctFds(Registered())
    {
      match answer
      case ReadySet(ready) =>
        fds := fds * ready;
        return true;
      case SelectFailed(err) =>
        if err == Errno.EBADF {
          ghost var E := Registered();
          var found := Recover(bad);
          if found >= 0 {
            if DistinctFds(E) {
              DistinctRemove(E, found);
            }
            return true;
          }
        }
        return false;
    }

    /** reader_report_data: a record goes to the back of the queue; NULL is
      refused. */
    method ReportData(data: Option<seq<Byte>>)
      requires buffer.Valid() && data.Some?
      modifies buffer, buffer.segs[|buffer.segs| - 1]
      ensures buffer.Valid() && buffer.Contents == old(buffer.Contents) + [data]
    {
      buffer.Push(data);
    }

    /** reader_cleanup: every registered source is cleaned up, in order,
      and then the end marker NULL is queued. */
    method Cleanup()
      requires Valid() && buffer.Valid()
      modifies this, buffer, buffer.segs[|buffer.segs| - 1]
      ensures buffer.Valid() && buffer.Contents == old(buffer.Contents) + [None]
      ensures cleaned == old(cleaned) + Handlers(old(Registered()))
    {
      CleanupHandlers();
      buffer.Push(None);
    }

    /** The loop of reader_cleanup over the registered sources. */
    method CleanupHandlers()
      requires Valid()
      modifies this
      ensures Valid() && handlers == old(handlers) && Registered() == old(Registered())
      ensures cleaned == old(cleaned) + Handlers(old(Registered()))
    {
      ghost var E := Registered();
      var i := 0;
      while i < handlerCount
        invariant 0 <= i <= handlerCount && Valid() && handlers == old(handlers) && Registered() == E
        invariant cleaned == old(cleaned) + Handlers(E[..i])
      {
        assert E[..i + 1][..i] == E[..i];
        cleaned := cleaned + [handlers[i].handler];
        i := i + 1;
      }
      assert E[..handlerCount] == E;
    }
  }
}
