/** parse_resource_spec and the address net_get_socketaddr builds from it:
    a resource is `<port>` or `<host>:<port>`, split on the last colon, and
    the port text is read with `strtol` in base 10 (ISO C11 section
    7.22.1.4). */
module NetTools {
  import opened Bytes

  /** The range of `long` on the LP64 targets the relay is built for. */
  const LongMax: int := 0x7FFF_FFFF_FFFF_FFFF
  const LongMin: int := -0x8000_0000_0000_0000

  /** White space in the "C" locale (`isspace`). */
  predicate IsSpace(c: char)
  {
    c == ' ' || c == '\t' || c == '\n' || c == '\U{000B}' || c == '\U{000C}' || c == '\r'
  }

  predicate IsDigit(c: char)
  {
    '0' <= c <= '9'
  }

  predicate AllDigits(s: string)
  {
    forall i :: 0 <= i < |s| ==> IsDigit(s[i])
  }

  /** The end of the run of white space that starts at `i`. */
  function SpacesFrom(s: string, i: nat): (j: nat)
    requires i <= |s|
    ensures i <= j <= |s|
    ensures forall m :: i <= m < j ==> IsSpace(s[m])
    ensures j < |s| ==> !IsSpace(s[j])
    decreases |s| - i
  {
    if i < |s| && IsSpace(s[i]) then SpacesFrom(s, i + 1) else i
  }

  /** The end of the run of decimal digits that starts at `i`. */
  function DigitsFrom(s: string, i: nat): (j: nat)
    requires i <= |s|
    ensures i <= j <= |s|
    ensures forall m :: i <= m < j ==> IsDigit(s[m])
    ensures j < |s| ==> !IsDigit(s[j])
    decreases |s| - i
  {
    if i < |s| && IsDigit(s[i]) then DigitsFrom(s, i + 1) else i
  }

  /** The length of the optional sign at position `w`. */
  function SignLen(s: string, w: nat): (n: nat)
    ensures n <= 1
    ensures n == 1 <==> w < |s| && (s[w] == '+' || s[w] == '-')
  {
    if w < |s| && (s[w] == '+' || s[w] == '-') then 1 else 0
  }

  function DigitValue(c: char): (v: nat)
    requires IsDigit(c)
    ensures v < 10
  {
    (c as int) - ('0' as int)
  }

  function Digit(v: nat): (c: char)
    requires v < 10
    ensures IsDigit(c) && DigitValue(c) == v
  {
    (v + '0' as int) as char
  }

  /** The number the decimal digits `s[k..e]` denote, most significant
      first. */
  function Decimal(s: string, k: nat, e: nat): nat
    requires k <= e <= |s| && forall m :: k <= m < e ==> IsDigit(s[m])
    decreases e - k
  {
    if e == k then 0 else 10 * Decimal(s, k, e - 1) + DigitValue(s[e - 1])
  }

  /** The value of a run of digits depends only on those digits. */
  lemma {:induction false} DecimalSame(s: string, t: string, k: nat, e: nat)
    requires k <= e <= |s| && e <= |t|
    requires forall m :: k <= m < e ==> IsDigit(s[m]) && t[m] == s[m]
    ensures Decimal(s, k, e) == Decimal(t, k, e)
    decreases e - k
  {
    if e > k {
      DecimalSame(s, t, k, e - 1);
    }
  }

  /** The decimal digits of `n`, without leading zeros. */
  function Numeral(n: nat): (s: string)
    ensures |s| > 0 && AllDigits(s)
  {
    if n < 10 then [Digit(n)] else Numeral(n / 10) + [Digit(n % 10)]
  }

  /** Reading the digits of `n` gives `n` back. */
  lemma {:induction false} DecimalOfNumeral(n: nat)
    ensures Decimal(Numeral(n), 0, |Numeral(n)|) == n
  {
    if n >= 10 {
      DecimalOfNumeral(n / 10);
      var p := Numeral(n / 10);
      var s := p + [Digit(n % 10)];
      DecimalSame(p, s, 0, |p|);
    }
  }

  /** A value out of the range of `long` becomes the nearest bound (and
      `errno` is set to ERANGE, which the relay does not look at). */
  function Clamp(v: int): (r: int)
    ensures LongMin <= r <= LongMax
    ensures LongMin <= v <= LongMax ==> r == v
    ensures v > LongMax ==> r == LongMax
    ensures v < LongMin ==> r == LongMin
  {
    if v > LongMax then LongMax else if v < LongMin then LongMin else v
  }

  /** What `strtol` gives: the value, and the offset its end pointer is
      left at. */
  datatype Conversion = Conversion(value: int, end: nat)

  /** `strtol(s, &end, 10)`: white space, an optional sign, then as many
      decimal digits as follow.  With no digits there is no conversion: the
      value is 0 and the end pointer is `s` itself, before any white space
      or sign. */
  function Strtol(s: string): (c: Conversion)
    ensures c.end <= |s| && LongMin <= c.value <= LongMax
    ensures c.end == 0 ==> c.value == 0
    ensures c.end > 0 ==> IsDigit(s[c.end - 1]) && (c.end < |s| ==> !IsDigit(s[c.end]))
  {
    var w := SpacesFrom(s, 0);
    var k := w + SignLen(s, w);
    var e := DigitsFrom(s, k);
    if e == k then Conversion(0, 0) else Conversion(Signed(s, w, k, e), e)
  }

  /** The value of the digits `s[k..e]`, negated when a minus sign stands
      between `w` and `k`, clamped to the range of `long`. */
  function Signed(s: string, w: nat, k: nat, e: nat): (v: int)
    requires w <= k <= e <= |s| && forall m :: k <= m < e ==> IsDigit(s[m])
    ensures LongMin <= v <= LongMax
  {
    var mag: int := Decimal(s, k, e);
    Clamp(if k > w && s[w] == '-' then -mag else mag)
  }

  /** `s` holds a subject sequence: white space up to `w`, a sign of at
      most one character up to `k`, and decimal digits up to `e`, with no
      digit right after them. */
  ghost predicate Subject(s: string, w: nat, k: nat, e: nat)
  {
    w <= k <= w + 1 && k < e <= |s| &&
    (forall m :: 0 <= m < w ==> IsSpace(s[m])) &&
    (k == w + 1 ==> s[w] == '+' || s[w] == '-') &&
    (k == w ==> s[w] != '+' && s[w] != '-') &&
    (forall m :: k <= m < e ==> IsDigit(s[m])) && (e < |s| ==> !IsDigit(s[e]))
  }

  lemma {:induction false} SpacesFromAt(s: string, i: nat, w: nat)
    requires i <= w < |s| && !IsSpace(s[w])
    requires forall m :: i <= m < w ==> IsSpace(s[m])
    ensures SpacesFrom(s, i) == w
    decreases w - i
  {
    if i < w {
      SpacesFromAt(s, i + 1, w);
    }
  }

  lemma {:induction false} DigitsFromAt(s: string, i: nat, e: nat)
    requires i <= e <= |s| && (e < |s| ==> !IsDigit(s[e]))
    requires forall m :: i <= m < e ==> IsDigit(s[m])
    ensures DigitsFrom(s, i) == e
    decreases e - i
  {
    if i < e {
      DigitsFromAt(s, i + 1, e);
    }
  }

  /** On a subject sequence `strtol` gives the signed value of the digits,
      clamped to the range of `long`, and stops right after the digits. */
  lemma StrtolSubject(s: string, w: nat, k: nat, e: nat)
    requires Subject(s, w, k, e)
    ensures Strtol(s) ==
      Conversion(Clamp(if k > w && s[w] == '-' then -(Decimal(s, k, e) as int) else Decimal(s, k, e)), e)
  {
    SpacesFromAt(s, 0, w);
    DigitsFromAt(s, k, e);
  }

  /** Without a digit after the white space and the sign, nothing is
      converted and the end pointer stays at the start. */
  lemma StrtolNoDigits(s: string)
    requires var k := SpacesFrom(s, 0) + SignLen(s, SpacesFrom(s, 0)); k == |s| || !IsDigit(s[k])
    ensures Strtol(s) == Conversion(0, 0)
  {
  }

  /** `strtol` reads back the decimal numeral of any value `long` can hold. */
  lemma StrtolNumeral(n: nat)
    requires n <= LongMax
    ensures Strtol(Numeral(n)) == Conversion(n, |Numeral(n)|)
  {
    var s := Numeral(n);
    StrtolSubject(s, 0, 0, |s|);
    DecimalOfNumeral(n);
  }

  /** The conversion of `long` to `int` in `*port = strtol(...)`.  C leaves
      an out-of-range conversion to the implementation; GCC reduces modulo
      2^32. */
  function ToInt(v: int): (r: int)
    ensures -0x8000_0000 <= r < 0x8000_0000
    ensures (r - v) % 0x1_0000_0000 == 0
    ensures -0x8000_0000 <= v < 0x8000_0000 ==> r == v
  {
    (v + 0x8000_0000) % 0x1_0000_0000 - 0x8000_0000
  }

  /** The position of the last `c` in `s` (`rindex`). */
  function LastIndex(s: string, c: char): (k: Option<nat>)
    ensures k.Some? ==> k.value < |s| && s[k.value] == c && c !in s[k.value + 1..]
    ensures k.None? ==> c !in s
  {
    if s == [] then None
    else if s[|s| - 1] == c then Some(|s| - 1)
    else
      var k := LastIndex(s[..|s| - 1], c);
      assert k.Some? ==> s[k.value + 1..] == s[..|s| - 1][k.value + 1..] + [s[|s| - 1]];
      assert s == s[..|s| - 1] + [s[|s| - 1]];
      k
  }

  /** The results of parse_resource_spec: the host part, if a colon was
      found; the port; and whether the port text was read to its end (the
      function then returns 0). */
  datatype Spec = Spec(ip: Option<string>, port: int, ok: bool)

  /** The text `strtol` reads: all after the last colon, or all of `res`. */
  function PortText(res: string): (t: string)
    ensures ':' !in t
    ensures |t| <= |res| && t == res[|res| - |t|..]
  {
    match LastIndex(res, ':')
    case Some(k) => res[k + 1..]
    case None => res
  }

  /** parse_resource_spec(&ipaddr, &port, res).  Without a colon the host
      stays NULL, as the caller initialised it. */
  function ParseResourceSpec(res: string): (r: Spec)
    ensures r.ip.Some? <==> ':' in res
    ensures r.ip.Some? ==>
      |r.ip.value| < |res| && res == r.ip.value + [':'] + PortText(res)
    ensures r.ip.None? ==> PortText(res) == res
    ensures r.port == ToInt(Strtol(PortText(res)).value)
    ensures r.ok <==> Strtol(PortText(res)).end == |PortText(res)|
  {
    var t := PortText(res);
    var c := Strtol(t);
    match LastIndex(res, ':')
    case Some(k) =>
      assert res == res[..k] + [':'] + res[k + 1..];
      Spec(Some(res[..k]), ToInt(c.value), c.end == |t|)
    case None => Spec(None, ToInt(c.value), c.end == |t|)
  }

  /** The whole of `t` is one subject sequence: white space, an optional
      sign and digits to the end. */
  ghost predicate WholeNumber(t: string)
  {
    var k := SpacesFrom(t, 0) + SignLen(t, SpacesFrom(t, 0));
    k < |t| && forall m :: k <= m < |t| ==> IsDigit(t[m])
  }

  /** The port text is accepted exactly when it is empty (no conversion,
      so the end pointer is the start, which is also the end) or one
      subject sequence to its end. */
  lemma SpecAccepted(res: string)
    ensures ParseResourceSpec(res).ok <==> PortText(res) == [] || WholeNumber(PortText(res))
  {
    var t := PortText(res);
    var w := SpacesFrom(t, 0);
    var k := w + SignLen(t, w);
    if WholeNumber(t) {
      DigitsFromAt(t, k, |t|);
    }
  }

  /** A host, a colon and the numeral of a port that fits an `int`: the
      host is everything before the colon (even when it holds colons
      itself) and the port is read back. */
  lemma HostAndPort(host: string, port: nat)
    requires port < 0x8000_0000
    ensures ParseResourceSpec(host + [':'] + Numeral(port)) == Spec(Some(host), port, true)
  {
    var res := host + [':'] + Numeral(port);
    var k := LastIndex(res, ':');
    assert res[|host|] == ':';
    assert k.Some?;
    assert k.value == |host|;
    assert PortText(res) == Numeral(port);
    StrtolNumeral(port);
    var r := ParseResourceSpec(res);
    assert |r.ip.value| == |host|;
    assert r.ip.value == res[..|host|] == host;
  }

  /** A bare numeral is a port with no host. */
  lemma PortOnly(port: nat)
    requires port < 0x8000_0000
    ensures ParseResourceSpec(Numeral(port)) == Spec(None, port, true)
  {
    assert ':' !in Numeral(port);
    StrtolNumeral(port);
  }

  /** An empty port text is accepted and gives port 0. */
  lemma EmptyPortAccepted(host: string)
    ensures ParseResourceSpec(host + [':']) == Spec(Some(host), 0, true)
    ensures ParseResourceSpec([]) == Spec(None, 0, true)
  {
    var res := host + [':'];
    assert LastIndex(res, ':') == Some(|host|);
  }

  /** Anything after the digits makes the resource invalid. */
  lemma TrailingTextRejected(port: nat, c: char)
    requires port <= LongMax && c != ':' && !IsDigit(c)
    ensures !ParseResourceSpec(Numeral(port) + [c]).ok
  {
    var res := Numeral(port) + [c];
    assert ':' !in res;
    StrtolSubject(res, 0, 0, |Numeral(port)|);
  }

  /** The socket family AF_INET and the wildcard address INADDR_ANY. */
  const AF_INET: nat := 2
  const INADDR_ANY: nat := 0

  /** `htons`: the port taken as a 16-bit value and laid out most
      significant byte first. */
  function Htons(p: int): (b: seq<Byte>)
    ensures |b| == 2 && (b[0] as int) * 256 + b[1] as int == p % 0x1_0000
    ensures 0 <= p < 0x1_0000 ==> b == [p / 256, p % 256]
  {
    [(p % 0x1_0000) / 256, (p % 0x1_0000) % 256]
  }

  /** A `struct sockaddr_in`: family, port as stored, address. */
  datatype SockAddr = SockAddr(family: nat, port: seq<Byte>, addr: nat)

  /** What net_get_socketaddr ends with: an invalid resource (FALSE), a
      wildcard address (TRUE), or an address whose host still has to be
      resolved, with the family and port already stored. */
  datatype Address = Invalid | Bound(sa: SockAddr) | Resolve(host: string, sa: SockAddr)

  /** net_get_socketaddr(addr, res) up to the host lookup. */
  function GetSocketAddr(res: string): (a: Address)
    ensures a.Invalid? <==> !ParseResourceSpec(res).ok
    ensures a.Bound? <==> ParseResourceSpec(res).ok && ':' !in res
    ensures a.Bound? ==> a.sa.addr == INADDR_ANY
    ensures a.Resolve? ==> res == a.host + [':'] + PortText(res)
    ensures !a.Invalid? ==> a.sa.family == AF_INET && |a.sa.port| == 2
    ensures !a.Invalid? ==>
      (a.sa.port[0] as int) * 256 + a.sa.port[1] as int == ParseResourceSpec(res).port % 0x1_0000
  {
    var r := ParseResourceSpec(res);
    if !r.ok then Invalid
    else
      match r.ip
      case None => Bound(SockAddr(AF_INET, Htons(r.port), INADDR_ANY))
      case Some(host) => Resolve(host, SockAddr(AF_INET, Htons(r.port), INADDR_ANY))
  }

  /** A bare port that fits 16 bits binds the wildcard address on that
      port. */
  lemma ListenOnPort(port: nat)
    requires port < 0x1_0000
    ensures GetSocketAddr(Numeral(port)) == Bound(SockAddr(AF_INET, [port / 256, port % 256], INADDR_ANY))
  {
    PortOnly(port);
  }

  /** What `gethostbyname2` answers for a host: no entry (a NULL pointer),
      or an entry with its IPv4 addresses, in order, and its address
      length. */
  datatype HostEntry = NoEntry | Entry(addrs: seq<nat>, length: int)

  /** An entry whose first address net_get_socketaddr can copy. */
  predicate Usable(e: HostEntry)
  {
    e.Entry? && |e.addrs| > 0 && e.length == 4
  }

  /** How net_get_socketaddr ends once the host is looked up: FALSE, TRUE
      with the address filled in, or a read of the address list through a
      NULL entry. */
  datatype Lookup = NullRead | Unresolved | Resolved(sa: SockAddr)

  /** net_get_socketaddr(addr, res) as written, with `e` the answer of the
      host lookup: a NULL answer is only logged, and the address list is
      then read through it. */
  function SocketAddr(res: string, e: HostEntry): (r: Lookup)
    ensures r.NullRead? <==> ParseResourceSpec(res).ok && ':' in res && e.NoEntry?
    ensures r.Unresolved? <==>
      !ParseResourceSpec(res).ok || (':' in res && e.Entry? && !Usable(e))
    ensures r.Resolved? ==>
      r.sa.family == AF_INET && |r.sa.port| == 2 &&
      (r.sa.port[0] as int) * 256 + r.sa.port[1] as int == ParseResourceSpec(res).port % 0x1_0000 &&
      r.sa.addr == (if ':' in res then e.addrs[0] else INADDR_ANY)
  {
    match GetSocketAddr(res)
    case Invalid => Unresolved
    case Bound(sa) => Resolved(sa)
    case Resolve(_, sa) =>
      if e.NoEntry? then NullRead
      else if !Usable(e) then Unresolved
      else Resolved(sa.(addr := e.addrs[0]))
  }

  /** net_get_socketaddr corrected: a NULL answer gives FALSE, as an entry
      without a usable address does; every other answer is handled as
      written. */
  function SocketAddrFixed(res: string, e: HostEntry): (r: Lookup)
    ensures !r.NullRead?
    ensures r.Unresolved? <==> !ParseResourceSpec(res).ok || (':' in res && !Usable(e))
    ensures !SocketAddr(res, e).NullRead? ==> r == SocketAddr(res, e)
  {
    var a := SocketAddr(res, e);
    if a.NullRead? then Unresolved else a
  }

  /** A host that does not resolve: as written, net_get_socketaddr reads
      through the NULL entry; corrected, it gives FALSE. */
  lemma UnknownHostReadsNull()
    ensures SocketAddr("example:1", NoEntry) == NullRead
    ensures SocketAddrFixed("example:1", NoEntry) == Unresolved
  {
    assert Numeral(1) == "1";
    HostAndPort("example", 1);
    assert "example" + [':'] + Numeral(1) == "example:1";
    assert "example:1"[7] == ':';
  }
}
