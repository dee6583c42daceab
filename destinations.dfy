/** The destination side of the relay: one output handler, its connection
    state machine and its resumable write. */
module Destinations {
  import opened Bytes
  import Errno
  import NetTools

  datatype State = Disconnected | Connecting | Ready | Sending | Error

  /** Which connect/disconnect/timeout callbacks the handler carries. */
  datatype Kind = Tcp | File

  /** What a system call answers: success, or failure with its errno. */
  datatype Answer = Done | Failed(errno: int)

  /** What `open` answers. */
  datatype Opened = OpenFailed(errno: int) | OpenedFd(fd: nat)

  /** What one `write` answers: the bytes the kernel took, or a failure. */
  datatype Written = Wrote(n: nat) | WriteFailed(errno: int)

  /** What the system answers to one connect attempt of either kind: the
      descriptor a new socket gets, the host lookup and the errno left when
      the address cannot be made, the `connect` call itself, and the `open`
      of a file. */
  datatype Link = Link(socket: nat, lookup: NetTools.HostEntry, errno: int, connect: Answer, open: Opened)

  /** Where a run of writes leaves a message: the bytes still to send and
      the errno left behind when bytes remain. */
  datatype Progress = Progress(left: nat, errno: int)

  function Min(a: int, b: int): int
  {
    if a < b then a else b
  }

  /** The return value of one `write` asking for `todo` bytes: never more
      than was asked for, -1 on failure. */
  function Taken(a: Written, todo: nat): (sent: int)
    ensures sent <= todo
    ensures sent < 0 <==> a.WriteFailed?
  {
    match a
    case Wrote(n) => Min(n, todo)
    case WriteFailed(_) => -1
  }

  /** The errno a write loop leaves once a write takes nothing: a failure's
      errno, or 0 (errno is cleared before the first write). */
  function Residue(a: Written): int
  {
    match a
    case Wrote(_) => 0
    case WriteFailed(e) => e
  }

  /** The writes answered by `answers(k)`, `answers(k + 1)`, ... on a message
      with `todo` bytes to go: each write takes its bytes off, until nothing
      is left or a write takes nothing. */
  function Attempt(todo: nat, answers: nat -> Written, k: nat): (p: Progress)
    ensures p.left <= todo
    ensures p.left == todo ==> todo == 0 || Taken(answers(k), todo) <= 0
    decreases todo
  {
    var sent := Taken(answers(k), todo);
    if sent <= 0 then Progress(todo, Residue(answers(k)))
    else if sent == todo then Progress(0, 0)
    else Attempt(todo - sent, answers, k + 1)
  }

  /** A run of writes stops short only at a write that took nothing. */
  lemma {:induction false} AttemptStops(todo: nat, answers: nat -> Written, k: nat)
    requires Attempt(todo, answers, k).left > 0
    ensures exists j :: k <= j && Taken(answers(j), Attempt(todo, answers, k).left) <= 0
    decreases todo
  {
    var sent := Taken(answers(k), todo);
    if sent > 0 && sent < todo {
      AttemptStops(todo - sent, answers, k + 1);
    } else {
      assert Taken(answers(k), Attempt(todo, answers, k).left) <= 0;
    }
  }

  /** When every write takes at least one byte, a message is sent in full. */
  lemma {:induction false} AttemptCompletes(todo: nat, answers: nat -> Written, k: nat)
    requires forall j :: k <= j ==> answers(j).Wrote? && answers(j).n > 0
    ensures Attempt(todo, answers, k).left == 0
    decreases todo
  {
    if todo > 0 {
      assert answers(k).Wrote? && answers(k).n > 0;
      var sent := Taken(answers(k), todo);
      if sent < todo {
        AttemptCompletes(todo - sent, answers, k + 1);
      }
    }
  }

  /** The address of resource `res` can be made from the lookup's answer
      (with a host that does not resolve giving FALSE, as corrected). */
  predicate Resolves(res: seq<char>, link: Link)
  {
    NetTools.SocketAddrFixed(res, link.lookup).Resolved?
  }

  /** The connect made from the disconnected state leaves the destination
      ready with a descriptor. */
  predicate LinkUp(kind: Kind, res: seq<char>, fd: int, link: Link)
  {
    match kind
    case Tcp =>
      Resolves(res, link) &&
      (link.connect.Done? || link.connect.errno == Errno.EISCONN)
    case File => fd == 1 || link.open.OpenedFd?
  }

  /** The connect made from the disconnected state leaves the destination
      in the error state: a TCP resolution, or a `connect`, that fails for
      good.  A file destination never enters it on connect. */
  predicate LinkFails(kind: Kind, res: seq<char>, link: Link)
  {
    match kind
    case Tcp =>
      !Resolves(res, link) ||
      (link.connect.Failed? && link.connect.errno != Errno.EISCONN &&
       link.connect.errno != Errno.EAGAIN && link.connect.errno != Errno.EINPROGRESS &&
       link.connect.errno != Errno.EALREADY)
    case File => false
  }

  /** The writes answered by `answers` leave bytes of a `todo`-byte message
      behind with an errno other than 0 or EAGAIN, the write error state. */
  predicate WriteFails(todo: nat, answers: nat -> Written)
  {
    var p := Attempt(todo, answers, 0);
    p.left > 0 && p.errno != 0 && p.errno != Errno.EAGAIN
  }

  class Destination {
    var state: State
    var fd: int
    var err: int
    /** The retry budget each delivery starts from. */
    const retry: int
    const kind: Kind
    const res: seq<char>
    /** Every byte the kernel has taken on this destination, over all its
        connections, in order. */
    ghost var Stream: seq<Byte>

    /** A TCP destination holds a socket exactly when it is not
        disconnected; a file destination never waits for a connection. */
    ghost predicate Valid()
      reads this
    {
      (kind == Tcp ==> fd >= -1 && (state == Disconnected <==> fd == -1)) &&
      (kind == File ==> state != Connecting)
    }

    /** output_handler_common_init: disconnected on `fd`, no error, a retry
        budget of 3, nothing sent. */
    constructor Common(kind: Kind, res: seq<char>, fd: int)
      ensures this.kind == kind && this.res == res && this.fd == fd
      ensures state == Disconnected && err == 0 && retry == 3 && Stream == []
    {
      this.kind := kind;
      this.res := res;
      this.fd := fd;
      state := Disconnected;
      err := 0;
      retry := 3;
      Stream := [];
    }

    /** output_handler_tcp_init: a disconnected TCP destination without a
        socket. */
    static method TcpInit(res: seq<char>) returns (d: Destination)
      ensures fresh(d) && d.Valid() && d.kind == Tcp && d.res == res
      ensures d.state == Disconnected && d.fd == -1 && d.err == 0 && d.retry == 3 && d.Stream == []
    {
      d := new Destination.Common(Tcp, res, -1);
    }

    /** output_handler_file_init as written: standard output for "-", no
        descriptor for a path, and ready at once in both cases. */
    static method FileInit(res: seq<char>) returns (d: Destination)
      ensures fresh(d) && d.Valid() && d.kind == File && d.res == res
      ensures d.fd == (if res == "-" then 1 else -1)
      ensures d.state == Ready && d.err == 0 && d.retry == 3 && d.Stream == []
    {
      d := new Destination.Common(File, res, if res == "-" then 1 else -1);
      d.state := Ready;
    }

    /** output_handler_file_init corrected: the destination stays
        disconnected, so the first delivery opens the file (or takes
        standard output). */
    static method FileInitFixed(res: seq<char>) returns (d: Destination)
      ensures fresh(d) && d.Valid() && d.kind == File && d.res == res
      ensures d.fd == (if res == "-" then 1 else -1)
      ensures d.state == Disconnected && d.err == 0 && d.retry == 3 && d.Stream == []
    {
      d := new Destination.Common(File, res, if res == "-" then 1 else -1);
    }

    /** output_handler_common_write on the `todo` last bytes of `msg`, with
        the answers of successive `write` calls as a parameter.  What the
        kernel takes continues the message exactly where the previous write
        stopped. */
    method Write(msg: seq<Byte>, todo: nat, answers: nat -> Written) returns (done: bool, rest: nat)
      requires Valid() && (state == Ready || state == Sending)
      requires |msg| > 0 && msg[|msg| - 1] == NL && 0 < todo <= |msg|
      modifies this
      ensures Valid() && fd == old(fd)
      ensures rest == Attempt(todo, answers, 0).left && rest <= todo
      ensures Stream == old(Stream) + msg[|msg| - todo .. |msg| - rest]
      ensures done <==> rest == 0
      ensures done ==> state == Ready && err == old(err)
      ensures !done ==> err == Attempt(todo, answers, 0).errno
      ensures !done ==> state == (if err == 0 || err == Errno.EAGAIN then Sending else Error)
    {
      rest := todo;
      var k := 0;
      var sent := Taken(answers(k), rest);
      while sent > 0
        invariant 0 < rest <= todo && Valid() && fd == old(fd)
        invariant state == old(state) || state == Sending
        invariant sent == Taken(answers(k), rest)
        invariant Attempt(rest, answers, k) == Attempt(todo, answers, 0)
        invariant Stream == old(Stream) && err == old(err)
        decreases rest
      {
        rest := rest - sent;
        if rest == 0 {
          state := Ready;
          Stream := Stream + msg[|msg| - todo ..];
          return true, 0;
        }
        state := Sending;
        k := k + 1;
        sent := Taken(answers(k), rest);
      }
      Stream := Stream + msg[|msg| - todo .. |msg| - rest];
      err := Residue(answers(k));
      if err == 0 || err == Errno.EAGAIN {
        state := Sending;
      } else {
        state := Error;
      }
      return false, rest;
    }

    /** output_tcp_connect: a fresh socket when starting from disconnected,
        then the address of `res` and the `connect` call decide.  The
        address is made by the corrected net_get_socketaddr, so a host that
        does not resolve gives the error state. */
    method TcpConnect(link: Link) returns (ok: bool)
      requires kind == Tcp
      requires (state == Disconnected && fd == -1) || (state == Connecting && fd >= 0)
      modifies this
      ensures Valid() && Stream == old(Stream)
      ensures fd == (if old(state) == Disconnected then link.socket else old(fd))
      ensures !Resolves(res, link) ==> state == Error && !ok && err == link.errno
      ensures Resolves(res, link) && link.connect.Done? ==> state == Ready && ok && err == old(err)
      ensures Resolves(res, link) && link.connect.Failed? ==>
        err == link.connect.errno &&
        if err == Errno.EISCONN then state == Ready && ok
        else if err == Errno.EAGAIN || err == Errno.EINPROGRESS || err == Errno.EALREADY then
          state == Connecting && ok
        else state == Error && !ok
    {
      if state == Disconnected {
        fd := link.socket;
      }
      ok := Call(Resolves(res, link), link);
    }

    /** The rest of output_tcp_connect once the socket exists: an address
        that cannot be made leaves the lookup's errno and the error state;
        otherwise success or EISCONN is ready, a connection in progress is
        connecting, and any other errno is the error state. */
    method Call(resolved: bool, link: Link) returns (ok: bool)
      requires kind == Tcp && fd >= 0
      modifies this
      ensures Valid() && Stream == old(Stream) && fd == old(fd)
      ensures !resolved ==> state == Error && !ok && err == link.errno
      ensures resolved && link.connect.Done? ==> state == Ready && ok && err == old(err)
      ensures resolved && link.connect.Failed? ==>
        err == link.connect.errno &&
        if err == Errno.EISCONN then state == Ready && ok
        else if err == Errno.EAGAIN || err == Errno.EINPROGRESS || err == Errno.EALREADY then
          state == Connecting && ok
        else state == Error && !ok
    {
      if !resolved {
        err := link.errno;
        state := Error;
        return false;
      }
      match link.connect
      case Done =>
        state := Ready;
        return true;
      case Failed(e) =>
        err := e;
        if e == Errno.EISCONN {
          state := Ready;
          return true;
        } else if e == Errno.EAGAIN || e == Errno.EINPROGRESS || e == Errno.EALREADY {
          state := Connecting;
          return true;
        }
        state := Error;
        return false;
    }

    /** output_tcp_disconnect: always disconnected without a socket
        afterwards; the result says whether `close` succeeded. */
    method TcpDisconnect(close: Answer) returns (ok: bool)
      requires kind == Tcp && (state == Ready || state == Connecting || state == Error)
      modifies this
      ensures Valid() && Stream == old(Stream)
      ensures state == Disconnected && fd == -1
      ensures ok <==> close.Done?
      ensures err == (if close.Failed? then close.errno else old(err))
    {
      state := Disconnected;
      if close.Failed? {
        fd := -1;
        err := close.errno;
        return false;
      }
      fd := -1;
      return true;
    }

    /** output_tcp_timeout: disconnect, and report failure. */
    method TcpTimeout(close: Answer) returns (ok: bool)
      requires kind == Tcp && (state == Ready || state == Connecting || state == Error)
      modifies this
      ensures Valid() && Stream == old(Stream)
      ensures state == Disconnected && fd == -1 && !ok
      ensures err == (if close.Failed? then close.errno else old(err))
    {
      var _ := TcpDisconnect(close);
      return false;
    }

    /** output_file_connect: standard output is ready as it is; otherwise
        the file is opened, and a failed open leaves the destination
        disconnected. */
    method FileConnect(link: Link) returns (ok: bool)
      requires kind == File && state == Disconnected
      modifies this
      ensures Valid() && Stream == old(Stream)
      ensures old(fd) == 1 ==> state == Ready && fd == 1 && ok && err == old(err)
      ensures old(fd) != 1 && link.open.OpenFailed? ==>
        state == Disconnected && fd == -1 && !ok && err == link.open.errno
      ensures old(fd) != 1 && link.open.OpenedFd? ==>
        state == Ready && fd == link.open.fd && ok && err == old(err)
    {
      if fd == 1 {
        state := Ready;
        return true;
      }
      match link.open
      case OpenFailed(e) =>
        fd := -1;
        err := e;
        return false;
      case OpenedFd(f) =>
        fd := f;
        state := Ready;
        return true;
    }

    /** output_file_disconnect: standard output is never closed and the
        destination becomes ready again; a failed `close` drops the
        descriptor but keeps the state, a successful one disconnects. */
    method FileDisconnect(close: Answer) returns (ok: bool)
      requires Valid() && kind == File && (state == Connecting || state == Ready || state == Error)
      modifies this
      ensures Valid() && Stream == old(Stream)
      ensures old(fd) == 1 ==> state == Ready && fd == 1 && ok && err == old(err)
      ensures old(fd) != 1 && close.Failed? ==>
        state == old(state) && fd == -1 && !ok && err == close.errno
      ensures old(fd) != 1 && close.Done? ==>
        state == Disconnected && fd == -1 && ok && err == old(err)
    {
      if fd == 1 {
        state := Ready;
        return true;
      }
      if close.Failed? {
        fd := -1;
        err := close.errno;
        return false;
      }
      fd := -1;
      state := Disconnected;
      return true;
    }

    /** The handler's connect callback. */
    method Connect(link: Link) returns (ok: bool)
      requires Valid() && state == Disconnected
      modifies this
      ensures Valid() && Stream == old(Stream)
      ensures kind == Tcp ==> fd == link.socket && state != Disconnected
      ensures state != Sending && (state == Ready <==> LinkUp(kind, res, old(fd), link))
      ensures state == Error <==> LinkFails(kind, res, link)
      ensures kind == File && old(fd) == 1 ==> state == Ready && fd == 1
      ensures kind == File && old(fd) != 1 ==>
        (state == Ready <==> link.open.OpenedFd?) &&
        if link.open.OpenedFd? then fd == link.open.fd else state == Disconnected && fd == -1
    {
      if kind == Tcp {
        ok := TcpConnect(link);
      } else {
        ok := FileConnect(link);
      }
    }

    /** The handler's disconnect callback. */
    method Disconnect(close: Answer) returns (ok: bool)
      requires Valid() && (state == Connecting || state == Ready || state == Error)
      modifies this
      ensures Valid() && Stream == old(Stream)
      ensures kind == Tcp ==> state == Disconnected && fd == -1
      ensures kind == File && old(fd) == 1 ==> state == Ready && fd == 1
      ensures kind == File && old(fd) != 1 ==>
        fd == -1 && state == (if close.Done? then Disconnected else old(state))
    {
      if kind == Tcp {
        ok := TcpDisconnect(close);
      } else {
        ok := FileDisconnect(close);
      }
    }

    /** The handler's timeout callback: a TCP destination disconnects and
        reports failure, a file destination does nothing and reports
        success (output_handler_common_do_nothing). */
    method Timeout(close: Answer) returns (ok: bool)
      requires Valid() && (kind == Tcp ==> state == Connecting || state == Ready || state == Error)
      modifies this
      ensures Valid() && Stream == old(Stream)
      ensures kind == Tcp ==> state == Disconnected && fd == -1 && !ok
      ensures kind == File ==> ok && state == old(state) && fd == old(fd) && err == old(err)
    {
      if kind == Tcp {
        ok := TcpTimeout(close);
      } else {
        ok := true;
      }
    }

    /** output_handler_common_cleanup: disconnect unless already
        disconnected.  Both disconnect callbacks refuse a destination in the
        middle of a message. */
    method Cleanup(close: Answer) returns (ok: bool)
      requires Valid() && state != Sending
      modifies this
      ensures Valid() && ok && Stream == old(Stream)
      ensures old(state) == Disconnected ==> state == old(state) && fd == old(fd) && err == old(err)
      ensures old(state) != Disconnected && kind == Tcp ==> state == Disconnected && fd == -1
      ensures old(state) != Disconnected && kind == File ==>
        fd == (if old(fd) == 1 then 1 else -1)
    {
      if state != Disconnected {
        var _ := Disconnect(close);
      }
      return true;
    }
  }
}
