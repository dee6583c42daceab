/** The circular framing buffer of a stream source.  Offsets stand for the
    C pointers: `0` is `start` and `size` is `end`. */
module InputBuffers {
  import opened Bytes

  function Min(a: int, b: int): int
  {
    if a < b then a else b
  }

  /** The integrity test of the buffer, branch for branch: a write position
      inside the buffer, and one of three layouts of the counters.  With the
      read position inside the buffer, it bounds the counters: the free
      space at the write position fits between it and the end, and the free
      space in all never exceeds the buffer. */
  predicate Validates(size: int, c: int, b: int, av: int, w: int): (intact: bool)
    ensures intact && 0 <= b <= size ==> 0 <= w <= size - c && w <= av <= size
  {
    0 <= c < size && w <= av &&
    ((c < b && w == b - c && av == w) ||
     (c > b && w == size - c && av == b + w) ||
     (c == b && (av == 0 || av == size) && (w == 0 || w == size - c)))
  }

  /** The unread bytes of a ring `d` whose read position is `b` and whose
      write position is `c`: the tail `[b, end)` followed by the head
      `[start, c)` when the write position is not ahead of the read position
      (nothing when the buffer is all free), else `[b, c)`.  These are the
      regions the search for a delimiter looks at. */
  ghost function Ring(d: seq<Byte>, c: int, b: int, av: int): seq<Byte>
    requires 0 <= c <= |d| && 0 <= b <= |d|
  {
    if c <= b then (if av == |d| then [] else d[b..] + d[..c])
    else d[b..c]
  }

  /** The write position after `n` more bytes, wrapped to the start exactly
      at the end. */
  function NextCurrent(size: int, c: int, n: int): int
  {
    if c + n == size then 0 else c + n
  }

  /** The read position after a line of `len` bytes, wrapped past the end. */
  function NextBorder(size: int, b: int, len: int): int
  {
    if b + len >= size then b + len - size else b + len
  }

  /** Unread plus free space is the whole buffer, and the free space at the
      write position lies outside the unread bytes. */
  lemma RingLength(d: seq<Byte>, c: int, b: int, av: int, w: int)
    requires 0 <= b <= |d| && Validates(|d|, c, b, av, w)
    ensures |Ring(d, c, b, av)| == |d| - av
    ensures 0 <= w <= |d| - c
  {
  }

  /** The counters after an update still pass the integrity test, except when
      the read position stands at the very end and the update fills the
      writable space. */
  lemma UpdateCounters(size: int, c: int, b: int, av: int, w: int, n: int)
    requires 0 <= b <= size && Validates(size, c, b, av, w) && 0 < n <= w
    ensures
      var c' := NextCurrent(size, c, n);
      var w' := if c' < b then b - c' else Min(size - c', av - n);
      0 <= c' < size &&
      (Validates(size, c', b, av - n, w') <==> !(b == size && n == w))
  {
  }

  /** An update that keeps the buffer intact appends the bytes written at
      the old write position to the unread bytes. */
  lemma UpdateRing(d: seq<Byte>, c: int, b: int, av: int, w: int, n: int)
    requires 0 <= b <= |d| && Validates(|d|, c, b, av, w) && 0 < n <= w
    requires !(b == |d| && n == w)
    ensures c + n <= |d|
    ensures Ring(d, NextCurrent(|d|, c, n), b, av - n) == Ring(d, c, b, av) + d[c..c + n]
  {
    var c' := NextCurrent(|d|, c, n);
    if c < b {
      assert d[..c] + d[c..c + n] == d[..c + n];
    } else if c > b {
      if c' == 0 {
        assert d[b..] == d[b..c] + d[c..c + n];
      } else {
        assert d[b..c'] == d[b..c] + d[c..c + n];
      }
    } else if c' == 0 {
      assert d[b..] + d[..0] == d[c..c + n];
    }
  }

  /** Bytes written into the free space leave the unread bytes alone. */
  lemma FillRing(d: seq<Byte>, d': seq<Byte>, c: int, b: int, av: int, w: int, n: int)
    requires 0 <= b <= |d| && Validates(|d|, c, b, av, w) && 0 <= n <= w
    requires |d'| == |d| && c + n <= |d|
    requires d'[..c] == d[..c] && d'[c + n..] == d[c + n..]
    ensures Ring(d', c, b, av) == Ring(d, c, b, av)
  {
    if c < b {
      assert d'[b..] == d'[c + n..][b - c - n..];
      assert d[b..] == d[c + n..][b - c - n..];
    } else if c > b {
      assert d'[b..c] == d'[..c][b..];
      assert d[b..c] == d[..c][b..];
    }
  }

  /** Taking a line of `len` unread bytes: the counters that getline computes
      pass the integrity test again, the read position stays before the end,
      and the unread bytes lose exactly their first `len`. */
  lemma TakeRing(d: seq<Byte>, c: int, b: int, av: int, w: int, len: int)
    requires 0 <= b <= |d| && Validates(|d|, c, b, av, w)
    requires 0 < len <= |Ring(d, c, b, av)|
    ensures
      var b' := NextBorder(|d|, b, len);
      var w' := if c < b' then b' - c else |d| - c;
      0 <= b' < |d| && Validates(|d|, c, b', av + len, w') &&
      Ring(d, c, b', av + len) == Ring(d, c, b, av)[len..]
  {
    RingLength(d, c, b, av, w);
    var b' := NextBorder(|d|, b, len);
    if c > b {
      assert d[b'..c] == d[b..c][len..];
    } else if b + len < |d| {
      assert d[b'..] + d[..c] == (d[b..] + d[..c])[len..];
    } else if b + len == |d| {
      assert d[..c] == (d[b..] + d[..c])[len..];
    } else {
      assert d[b'..c] == (d[b..] + d[..c])[len..];
    }
  }

  /** The first `len` unread bytes, as the two copies of getline assemble
      them. */
  lemma LineRing(d: seq<Byte>, c: int, b: int, av: int, w: int, len: int)
    requires 0 <= b <= |d| && Validates(|d|, c, b, av, w)
    requires 0 < len <= |Ring(d, c, b, av)|
    ensures b + len > |d| ==>
      len - (|d| - b) <= c && Ring(d, c, b, av)[..len] == d[b..] + d[..len - (|d| - b)]
    ensures b + len <= |d| ==> Ring(d, c, b, av)[..len] == d[b..b + len]
  {
    RingLength(d, c, b, av, w);
  }

  /** A purge of a line that ends at or before the end of the buffer, as the
      line-purge computes it: the read position may land exactly on the end,
      and the counters still pass the integrity test. */
  lemma PurgeRunRing(d: seq<Byte>, c: int, b: int, av: int, w: int, len: int)
    requires 0 <= b <= |d| && Validates(|d|, c, b, av, w)
    requires 0 < len <= |Ring(d, c, b, av)| && b + len <= |d|
    ensures
      var w' := if c < b + len then b + len - c else |d| - c;
      Validates(|d|, c, b + len, av + len, w') &&
      Ring(d, c, b + len, av + len) == Ring(d, c, b, av)[len..]
  {
    RingLength(d, c, b, av, w);
    if b + len < |d| {
      TakeRing(d, c, b, av, w, len);
    } else {
      assert d[..c] == (d[b..] + d[..c])[len..];
    }
  }

  /** A purge that wraps the read position to before the start, as the
      line-purge computes it, never leaves counters that pass the integrity
      test. */
  lemma PurgeWrapBreaks(size: int, c: int, b: int, av: int, w: int, len: int)
    requires 0 <= b <= size && Validates(size, c, b, av, w)
    requires c <= b && av != size && b + len > size && len - (size - b) <= c
    ensures
      var b' := 0 - (b + len - size);
      var w' := if c < b' then b' - c else size - c;
      !Validates(size, c, b', av + len, w')
  {
  }

  /** The part of `a` that memchr is given: `len` bytes from `from`. */
  method Memchr(a: array<Byte>, from: int, len: int, c: Byte) returns (k: int)
    requires 0 <= from && 0 <= len && from + len <= a.Length
    ensures k == FirstIndex(a[..][from..from + len], c)
  {
    assert a[..][from..from + len] == a[from..from + len];
    k := 0;
    while k < len && a[from + k] != c
      invariant 0 <= k <= len
      invariant FirstIndex(a[from..from + len], c) == k + FirstIndex(a[from + k..from + len], c)
    {
      assert a[from + k..from + len][1..] == a[from + k + 1..from + len];
      k := k + 1;
    }
  }

  /** What read(2) does to `a`: `bytes` land at `at`. */
  method Put(a: array<Byte>, at: int, bytes: seq<Byte>)
    requires 0 <= at && at + |bytes| <= a.Length
    modifies a
    ensures a[..] == old(a[..at]) + bytes + old(a[at + |bytes|..])
  {
    var i := 0;
    while i < |bytes|
      invariant 0 <= i <= |bytes|
      invariant a[..at] == old(a[..at])
      invariant a[at..at + i] == bytes[..i]
      invariant a[at + |bytes|..] == old(a[at + |bytes|..])
    {
      a[at + i] := bytes[i];
      i := i + 1;
    }
    assert a[..] == a[..at] + a[at..at + |bytes|] + a[at + |bytes|..];
  }

  /** memcpy of `len` bytes from `src[from..]` to `dst[at..]`. */
  method Copy(src: array<Byte>, from: int, dst: array<Byte>, at: int, len: int)
    requires src != dst && 0 <= from && 0 <= at && 0 <= len
    requires from + len <= src.Length && at + len <= dst.Length
    modifies dst
    ensures dst[..at] == old(dst[..at])
    ensures dst[at..at + len] == src[from..from + len]
    ensures dst[at + len..] == old(dst[at + len..])
  {
    var i := 0;
    while i < len
      invariant 0 <= i <= len
      invariant dst[..at] == old(dst[..at])
      invariant dst[at..at + i] == src[from..from + i]
      invariant dst[at + len..] == old(dst[at + len..])
    {
      dst[at + i] := src[from + i];
      i := i + 1;
    }
  }

  /** A fresh C string holding `len` bytes of `a` from `from`. */
  method CopyRun(a: array<Byte>, from: int, len: int) returns (line: array<Byte>)
    requires 0 <= from && 0 <= len && from + len <= a.Length
    ensures fresh(line) && line[..] == a[..][from..from + len] + [NUL]
  {
    line := new Byte[len + 1];
    Copy(a, from, line, 0, len);
    line[len] := NUL;
  }

  /** A fresh C string holding the tail of `a` from `from` and then the
      first `len - (a.Length - from)` bytes of `a`. */
  method CopySplit(a: array<Byte>, from: int, len: int) returns (line: array<Byte>)
    requires 0 <= from <= a.Length < from + len && len <= a.Length
    ensures fresh(line) && line[..] == a[..][from..] + a[..][..len - (a.Length - from)] + [NUL]
  {
    line := new Byte[len + 1];
    var taillen := a.Length - from;
    Copy(a, from, line, 0, taillen);
    Copy(a, 0, line, taillen, len - taillen);
    assert line[..len] == line[..taillen] + line[taillen..len];
    line[len] := NUL;
  }

  class InputBuffer {
    const size: int
    const data: array<Byte>
    /** The write position. */
    var current: int
    /** The read position. */
    var border: int
    /** Bytes not holding unread data. */
    var available: int
    /** Bytes that can be written at the write position in one go. */
    var write: int

    /** The positions lie where the pointers of an allocated buffer can. */
    ghost predicate Sane()
      reads this
    {
      data.Length == size && 0 < size && 0 <= current < size && 0 <= border <= size
    }

    /** input_buffer_validate. */
    predicate Validate()
      reads this
    {
      Validates(size, current, border, available, write)
    }

    ghost predicate Valid()
      reads this
    {
      Sane() && Validate()
    }

    /** Intact, with the read position strictly before the end: the states
      from which every update keeps the buffer intact. */
    ghost predicate Normal()
      reads this
    {
      Valid() && border < size
    }

    /** Intact, and not claiming that nothing can be written while bytes
      are free: the states a stream source keeps its buffer in. */
    ghost predicate Steady()
      reads this
    {
      Valid() && (write == 0 ==> available == 0)
    }

    /** The one broken state a stream source reaches: a purge left the read
      position on the end, and a read that filled the buffer wrapped the
      write position onto the start.  The counters fail the integrity test,
      and no unread byte is seen. */
    ghost predicate Lost()
      reads this
    {
      Sane() && border == size && current == 0 && available == 0 && write == size
    }

    /** The unread bytes, in the order they were written. */
    ghost function Pending(): seq<Byte>
      reads this, data
      requires Sane()
    {
      Ring(data[..], current, border, available)
    }

    /** Unread plus free bytes make up the buffer. */
    lemma PendingLength()
      requires Valid()
      ensures |Pending()| == size - available
    {
      RingLength(data[..], current, border, available, write);
    }

    /** In the broken state the search sees no unread byte. */
    lemma LostEmpty()
      requires Lost()
      ensures !Validate() && Pending() == []
    {
    }

    /** input_buffer_create: an empty buffer of `size` bytes. */
    constructor (size: int)
      requires 0 < size
      ensures this.size == size && fresh(data)
      ensures border == 0 && current == 0 && available == size && write == size
      ensures Normal() && Pending() == []
    {
      this.size := size;
      data := new Byte[size];
      available := size;
      write := size;
      border := 0;
      current := 0;
    }

    /** What read(2) does to the buffer: `bytes` land at the write position.
      The counters are left to `Update`. */
    method Fill(bytes: seq<Byte>)
      requires Valid() && |bytes| <= write
      modifies data
      ensures current + |bytes| <= size
      ensures data[..] == old(data[..current]) + bytes + old(data[current + |bytes|..])
      ensures Valid() && Pending() == old(Pending())
    {
      RingLength(data[..], current, border, available, write);
      ghost var d := data[..];
      Put(data, current, bytes);
      FillRing(d, data[..], current, border, available, write, |bytes|);
    }

    /** input_buffer_update: account for `n` bytes written at the write
      position. */
    method Update(n: int)
      requires Valid() && 0 < n <= write
      modifies this
      ensures current == NextCurrent(size, old(current), n)
      ensures border == old(border) && available == old(available) - n
      ensures write == if current < border then border - current else Min(size - current, available)
      ensures Sane()
      ensures Validate() <==> !(old(border) == size && n == old(write))
      ensures !Validate() ==> Lost()
      ensures Validate() ==> Pending() == old(Pending()) + data[old(current)..old(current) + n]
      ensures old(Normal()) ==> Normal()
    {
      ghost var c0, av0, w0 := current, available, write;
      RingLength(data[..], c0, border, av0, w0);
      current := current + n;
      available := available - n;
      if current == size {
        current := 0;
      }
      if current < border {
        write := border - current;
      } else {
        write := Min(size - current, available);
      }
      UpdateCounters(size, c0, border, av0, w0, n);
      if border != size || n != w0 {
        UpdateRing(data[..], c0, border, av0, w0, n);
      }
    }

    /** input_buffer_find: one plus the distance from the read position to the
      first `c` among the unread bytes, or -1 when there is none. */
    method Find(c: Byte) returns (r: int)
      requires Sane()
      ensures r == -1 <==> FirstIndex(Pending(), c) == |Pending()|
      ensures r != -1 ==> r == FirstIndex(Pending(), c) + 1
    {
      ghost var d := data[..];
      if current <= border {
        if available == size {
          return -1;
        }
        r := FindAcross(c);
        return;
      } else {
        var k := Memchr(data, border, current - border, c);
        assert d[border..border + (current - border)] == d[border..current];
        if k < current - border {
          return k + 1;
        }
      }
      return -1;
    }

    /** input_buffer_find when the unread bytes run from `border` to the end
      of the buffer and on from its start up to `current`: the tail is
      searched first, then the head. */
    method FindAcross(c: Byte) returns (r: int)
      requires Sane() && current <= border && available != size
      ensures var p := data[..][border..] + data[..][..current];
        (r == -1 <==> FirstIndex(p, c) == |p|) && (r != -1 ==> r == FirstIndex(p, c) + 1)
    {
      ghost var d := data[..];
      ghost var tail, head := d[border..], d[..current];
      assert |tail| == size - border && |head| == current;
      var t := Memchr(data, border, size - border, c);
      assert d[border..border + (size - border)] == tail;
      assert t == FirstIndex(tail, c);
      FirstIndexConcat(tail, head, c);
      if t < size - border {
        return t + 1;
      }
      var h := Memchr(data, 0, current, c);
      assert d[0..0 + current] == head;
      assert h == FirstIndex(head, c);
      if h < current {
        return (size - border) + h + 1;
      }
      return -1;
    }

    /** The copies getline makes: the first `len` unread bytes, joined across
      the end of the buffer, and a NUL after them, in a fresh array. */
    method CopyOut(len: int) returns (line: array<Byte>)
      requires Valid() && 0 < len <= |Pending()|
      ensures fresh(line) && line[..] == Pending()[..len] + [NUL]
    {
      LineRing(data[..], current, border, available, write, len);
      if border + len > size {
        line := CopySplit(data, border, len);
      } else {
        line := CopyRun(data, border, len);
      }
    }

    /** The bookkeeping getline does once a line of `len` bytes is copied
      out: the read position moves past it, wrapping around the end, and the
      counters follow. */
    method Consume(len: int)
      requires Valid() && 0 < len <= |Pending()|
      modifies this
      ensures current == old(current) && border == NextBorder(size, old(border), len)
      ensures available == old(available) + len
      ensures write == if current < border then border - current else size - current
      ensures Normal() && Pending() == old(Pending())[len..]
    {
      TakeRing(data[..], current, border, available, write, len);
      if border + len > size {
        border := len - (size - border);
      } else {
        border := border + len;
        if border == size {
          border := 0;
        }
      }
      if current < border {
        write := border - current;
      } else {
        write := size - current;
      }
      available := available + len;
    }

    /** input_buffer_getline: hand out the first unread line, newline
      included, followed by a NUL terminator, and consume it. */
    method GetLine() returns (line: array?<Byte>)
      requires Valid() || Lost()
      modifies this
      ensures var p := old(Pending()); line == null <==> FirstIndex(p, NL) == |p|
      ensures line == null ==>
        current == old(current) && border == old(border) &&
        available == old(available) && write == old(write)
      ensures line != null ==>
        var p := old(Pending());
        var len := FirstIndex(p, NL) + 1;
        fresh(line) && line[..] == p[..len] + [NUL] &&
        current == old(current) && border == NextBorder(size, old(border), len) &&
        available == old(available) + len &&
        write == (if current < border then border - current else size - current) &&
        Normal() && Pending() == p[len..]
    {
      if Lost() {
        LostEmpty();
      }
      var len := Find(NL);
      if len == -1 {
        return null;
      }
      line := CopyOut(len);
      Consume(len);
    }
  
    /** The reset both purges make when no line is complete: everything
      unread is discarded. */
    method Clear()
      requires Sane()
      modifies this
      ensures border == 0 && current == 0 && write == size && available == size
      ensures Normal() && Pending() == []
    {
      border := 0;
      current := border;
      write := size - current;
      available := write;
    }

    /** The bookkeeping of the line-purge as written once a line of `len`
      bytes is found: the read position moves past it without wrapping at the
      end, and past the end it is set to the start minus the overflow. */
    method Discard(len: int)
      requires Valid() && 0 < len <= |Pending()|
      modifies this
      ensures
        var b := old(border) + len;
        current == old(current) && available == old(available) + len &&
        border == (if b > size then 0 - (b - size) else b) &&
        write == (if current < border then border - current else size - current)
      ensures old(border) + len <= size ==> Valid() && Pending() == old(Pending())[len..]
      ensures old(border) + len > size ==> !Validate()
    {
      ghost var d, b0, av0, w0 := data[..], border, available, write;
      RingLength(d, current, b0, av0, w0);
      LineRing(d, current, b0, av0, w0, len);
      if b0 + len <= size {
        PurgeRunRing(d, current, b0, av0, w0, len);
      } else {
        PurgeWrapBreaks(size, current, b0, av0, w0, len);
      }
      border := border + len;
      if border > size {
        border := 0 - (border - size);
      }
      if current < border {
        write := border - current;
      } else {
        write := size - current;
      }
      available := available + len;
    }

    /** input_buffer_purgeline, as written: discard the first unread line, or
      everything when no line is complete.  A line that ends exactly at the
      end of the buffer leaves the read position on the end, and one that
      wraps past the end puts the read position before the start. */
    method PurgeLine() returns (r: bool)
      requires Valid() || Lost()
      modifies this
      ensures var p := old(Pending()); r <==> FirstIndex(p, NL) < |p|
      ensures !r ==>
        border == 0 && current == 0 && write == size && available == size &&
        Normal() && Pending() == []
      ensures r ==>
        var p := old(Pending());
        var len := FirstIndex(p, NL) + 1;
        var b := old(border) + len;
        current == old(current) && available == old(available) + len &&
        border == (if b > size then 0 - (b - size) else b) &&
        write == (if current < border then border - current else size - current) &&
        (b <= size ==> Valid() && Pending() == p[len..]) &&
        (b > size ==> !Validate())
    {
      if Lost() {
        LostEmpty();
      }
      var len := Find(NL);
      if len == -1 {
        Clear();
        return false;
      }
      Discard(len);
      return true;
    }

    /** The line-purge with the read position advanced the way getline
      advances it: wrapped to the start at the end and by the overflow past
      it. */
    method PurgeLineFixed() returns (r: bool)
      requires Valid()
      modifies this
      ensures var p := old(Pending()); r <==> FirstIndex(p, NL) < |p|
      ensures !r ==>
        border == 0 && current == 0 && write == size && available == size &&
        Normal() && Pending() == []
      ensures r ==>
        var p := old(Pending());
        var len := FirstIndex(p, NL) + 1;
        current == old(current) && border == NextBorder(size, old(border), len) &&
        available == old(available) + len &&
        write == (if current < border then border - current else size - current) &&
        Normal() && Pending() == p[len..]
    {
      var len := Find(NL);
      if len == -1 {
        Clear();
        return false;
      }
      Consume(len);
      return true;
    }
  }
}
