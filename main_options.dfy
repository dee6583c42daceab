/** The two pieces of option handling in main that carry logic: the type
    keyword of `-i`/`-o` and the verbosity raised by `-v`. */
module Options {

  /** The transport types, in the order of `enum io_types`. */
  datatype IoType = Udp | Tcp | Unix | File | Unknown

  /** A C string holds no NUL before its terminator. */
  predicate CString(s: string)
  {
    '\0' !in s
  }

  /** `tolower` in the "C" locale: only ASCII capitals change. */
  function Lower(c: char): (l: char)
    ensures 'A' <= c <= 'Z' ==> l as int == c as int + 32
    ensures !('A' <= c <= 'Z') ==> l == c
  {
    if 'A' <= c <= 'Z' then (c as int + 32) as char else c
  }

  /** Equal up to the case of ASCII letters. */
  ghost predicate SameIgnoringCase(a: string, b: string)
  {
    |a| == |b| && forall i :: 0 <= i < |a| ==> Lower(a[i]) == Lower(b[i])
  }

  /** `strcasecmp`: the difference of the first pair of lowered
      characters that differ, the terminator counting as 0. */
  function StrCaseCmp(a: string, b: string): (r: int)
    requires CString(a) && CString(b)
    ensures r == 0 <==> SameIgnoringCase(a, b)
  {
    if a == [] && b == [] then 0
    else if a == [] then 0 - Lower(b[0]) as int
    else if b == [] then Lower(a[0]) as int - 0
    else if Lower(a[0]) != Lower(b[0]) then Lower(a[0]) as int - Lower(b[0]) as int
    else
      var r := StrCaseCmp(a[1..], b[1..]);
      assert SameIgnoringCase(a, b) <==> SameIgnoringCase(a[1..], b[1..]) by {
        if SameIgnoringCase(a[1..], b[1..]) {
          assert forall i :: 1 <= i < |a| ==> a[i] == a[1..][i - 1] && b[i] == b[1..][i - 1];
        }
      }
      r
  }

  /** The keyword that names each known type. */
  function Keyword(t: IoType): (k: string)
    requires t != Unknown
    ensures CString(k)
  {
    match t
    case Udp => "udp"
    case Tcp => "tcp"
    case Unix => "unix"
    case File => "file"
  }

  /** parse_type: the keywords are tried in the order file, udp, tcp,
      unix, each without regard to case; anything else is unknown. */
  function ParseType(s: string): (t: IoType)
    requires CString(s)
    ensures t != Unknown ==> SameIgnoringCase(s, Keyword(t))
    ensures t == Unknown <==> forall u :: u != Unknown ==> !SameIgnoringCase(s, Keyword(u))
  {
    if StrCaseCmp(s, "file") == 0 then File
    else if StrCaseCmp(s, "udp") == 0 then Udp
    else if StrCaseCmp(s, "tcp") == 0 then Tcp
    else if StrCaseCmp(s, "unix") == 0 then Unix
    else Unknown
  }

  /** Each keyword, in any mix of cases, gives its own type. */
  lemma ParseKeyword(t: IoType, s: string)
    requires t != Unknown && CString(s) && SameIgnoringCase(s, Keyword(t))
    ensures ParseType(s) == t
  {
    var u := ParseType(s);
    if u != t && u != Unknown {
      // Two keywords of different types never match the same string.
      assert SameIgnoringCase(s, Keyword(u));
      assert Lower(Keyword(u)[0]) == Lower(s[0]) == Lower(Keyword(t)[0]);
    }
  }

  /** The type depends only on the letters, not on their case. */
  lemma ParseCaseBlind(s: string, s': string)
    requires CString(s) && CString(s') && SameIgnoringCase(s, s')
    ensures ParseType(s) == ParseType(s')
  {
    var t := ParseType(s);
    if t != Unknown {
      ParseKeyword(t, s');
    }
  }

  /** The log levels of `enum log_levels`, from `impossible` to `debug`. */
  type Level = l: int | 0 <= l <= 5

  const Impossible: Level := 0
  const Debug: Level := 5

  /** One `-v`: the level goes up by one unless it is already `debug`. */
  function Raise(l: Level): (r: Level)
    ensures l < Debug ==> r == l + 1
    ensures l == Debug ==> r == l
  {
    if l < Debug then l + 1 else l
  }

  /** The level after `n` occurrences of `-v`, starting from `impossible`
      as main sets it. */
  function Verbosity(n: nat): Level
  {
    if n == 0 then Impossible else Raise(Verbosity(n - 1))
  }

  /** Each `-v` counts until the level reaches `debug`, and further ones
      change nothing. */
  lemma {:induction false} VerbosityCapped(n: nat)
    ensures Verbosity(n) == if n < Debug then n else Debug
  {
    if n > 0 {
      VerbosityCapped(n - 1);
    }
  }
}
