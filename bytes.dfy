/** Bytes, C strings and the small shared vocabulary of the relay. */
module Bytes {

  /** One unsigned octet, as held in a `char` buffer. */
  type Byte = b: int | 0 <= b < 256

  const NUL: Byte := 0
  const NL: Byte := 10

  datatype Option<T> = None | Some(value: T)

  /** The position of the first `c` in `s`, or `|s|` when `c` does not occur
      (the offset `memchr` and `strlen` compute). */
  function FirstIndex(s: seq<Byte>, c: Byte): (k: nat)
    ensures k <= |s|
    ensures k < |s| ==> s[k] == c
  {
    if |s| == 0 then 0
    else if s[0] == c then 0
    else 1 + FirstIndex(s[1..], c)
  }

  /** `k` is where the first `c` of `s` stands. */
  ghost predicate IsFirst(s: seq<Byte>, c: Byte, k: int)
  {
    0 <= k < |s| && s[k] == c && forall j :: 0 <= j < k ==> s[j] != c
  }

  /** No `c` stands before the first one. */
  lemma {:induction false} FirstIndexIsFirst(s: seq<Byte>, c: Byte)
    ensures forall j :: 0 <= j < FirstIndex(s, c) ==> s[j] != c
  {
    if |s| > 0 && s[0] != c {
      FirstIndexIsFirst(s[1..], c);
      assert forall j :: 1 <= j < FirstIndex(s, c) ==> s[j] == s[1..][j - 1];
    }
  }

  /** `c` occurs exactly when its first position is inside `s`. */
  lemma FirstIndexFound(s: seq<Byte>, c: Byte)
    ensures FirstIndex(s, c) < |s| <==> c in s
  {
    if c in s {
      FirstIndexIsFirst(s, c);
      var i :| 0 <= i < |s| && s[i] == c;
    }
  }

  /** The first position is unique. */
  lemma {:induction false} IsFirstUnique(s: seq<Byte>, c: Byte, k: int)
    requires IsFirst(s, c, k)
    ensures k == FirstIndex(s, c)
  {
    FirstIndexIsFirst(s, c);
  }

  /** Searching a concatenation: the first part first, then the second. */
  lemma {:induction false} FirstIndexConcat(t: seq<Byte>, h: seq<Byte>, c: Byte)
    ensures FirstIndex(t + h, c) ==
      if FirstIndex(t, c) < |t| then FirstIndex(t, c) else |t| + FirstIndex(h, c)
    decreases |t|
  {
    if |t| == 0 {
      assert t + h == h;
    } else {
      assert (t + h)[1..] == t[1..] + h;
      FirstIndexConcat(t[1..], h, c);
    }
  }

  /** `strlen`: the number of bytes before the first NUL. */
  function CStrLen(s: seq<Byte>): (n: nat)
    ensures n <= |s|
    ensures NUL !in s[..n]
    ensures n < |s| ==> s[n] == NUL
  {
    FirstIndexIsFirst(s, NUL);
    FirstIndex(s, NUL)
  }

  /** A record as the relay passes it around: bytes ending in a newline
      followed by the C terminator, with no NUL before it. */
  ghost predicate IsRecord(s: seq<Byte>)
  {
    |s| >= 2 && s[|s| - 1] == NUL && s[|s| - 2] == NL && NUL !in s[..|s| - 1]
  }

  lemma RecordStrLen(s: seq<Byte>)
    requires IsRecord(s)
    ensures CStrLen(s) == |s| - 1 && s[CStrLen(s) - 1] == NL
  {
    assert forall j :: 0 <= j < |s| - 1 ==> s[j] != NUL by {
      forall j | 0 <= j < |s| - 1 ensures s[j] != NUL {
        assert s[..|s| - 1][j] == s[j];
      }
    }
    IsFirstUnique(s, NUL, |s| - 1);
  }

  /** Two adjacent runs of a sequence make the run that spans both. */
  lemma SliceSplit<T>(s: seq<T>, a: int, b: int, c: int)
    requires 0 <= a <= b <= c <= |s|
    ensures s[a..c] == s[a..b] + s[b..c]
  {
  }
}

/** The errno values the core reacts to (Linux numbering). */
module Errno {
  const EINTR := 4
  const EBADF := 9
  const EAGAIN := 11
  const EPIPE := 32
  const EALREADY := 114
  const EINPROGRESS := 115
  const EISCONN := 106
}
