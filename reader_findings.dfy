/** Runs of the reader's dispatch over two ready sources of which the
    second reports end of file, with the restart as written and with the
    corrected pass. */
module ReaderFindings {
  import opened Bytes
  import opened Queues
  import opened Readers

  /** Sources 1 (descriptor 3) and 2 (descriptor 4), registered in that
      order. */
  method Register() returns (r: Reader)
    ensures fresh(r) && fresh(r.handlers) && r.Valid()
    ensures r.Registered() == [Entry(3, 1), Entry(4, 2)] && r.readLog == []
  {
    var q := new Queue<Option<seq<Byte>>>();
    r := new Reader(q);
    r.AddSource(1, 3, true);
    r.AddSource(2, 4, true);
  }

  /** The same two sources, both found ready by `select`. */
  method Setup() returns (r: Reader)
    ensures fresh(r) && fresh(r.handlers) && r.Valid()
    ensures r.Registered() == [Entry(3, 1), Entry(4, 2)] && r.fds == {3, 4} && r.readLog == []
  {
    r := Register();
    var n := r.Rebuild();
    assert FdSet([Entry(3, 1), Entry(4, 2)]) == {3, 4} by {
      assert [Entry(3, 1), Entry(4, 2)][0].fd == 3;
      assert [Entry(3, 1), Entry(4, 2)][1].fd == 4;
    }
    var rerun := r.Selecting(ReadySet({3, 4}), {});
  }

  /** Source 2 reports end of file; source 1 has nothing special to
      report. */
  function SecondAtEof(h: int, k: nat): int
  {
    if h == 2 then -1 else 0
  }

  /** As written: source 2 is removed and the scan starts over on the same
      ready set, so source 1 is read a second time after one answer of
      `select`. */
  method RereadAfterRemoval() returns (log: seq<int>)
    ensures log == [1, 2, 1]
  {
    var r := Setup();
    assert ReadyIds([Entry(3, 1), Entry(4, 2)], {3, 4}) == [1, 2];
    assert ReadyIds([Entry(3, 1), Entry(4, 2)][..1], {3, 4}) == [1];
    assert ReadyIds([Entry(3, 1), Entry(4, 2)][..2], {3, 4}) == [1, 2];
    var stop := r.Pass(SecondAtEof);
    assert stop != 0;
    assert stop == -1 ==> r.readLog == [1, 2] && SecondAtEof(r.readLog[1], 1) != 0;
    assert stop != -1;
    assert r.Registered() == [Entry(3, 1)] && r.fds == {3};
    assert ReadyIds([Entry(3, 1)], {3}) == [1];
    stop := r.Pass(SecondAtEof);
    log := r.readLog;
  }

  /** Corrected: each ready source is read once. */
  method ReadOnceAfterRemoval() returns (log: seq<int>)
    ensures log == [1, 2]
  {
    var r := Setup();
    assert ReadyIds([Entry(3, 1), Entry(4, 2)], {3, 4}) == [1, 2];
    r.PassOnce(SecondAtEof);
    log := r.readLog;
  }
}
