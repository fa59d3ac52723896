/** The operating system as the interposed calls see it: a table of open
    socket descriptors, the socket files present in the file system, errno,
    and the log of every call the library makes into the system. What the
    kernel answers to `socket`, `bind`, `connect` and `chmod` depends on
    things outside the model, so those answers are inputs of the calls. */
module Kernel {
  import opened Keys

  const AF_UNIX := 1
  const AF_INET := 2
  const AF_INET6 := 10
  const SOCK_STREAM := 1

  /** `fcntl` file status flags: the access mode every socket has, and
      the non-blocking bit (Linux values). */
  const O_RDWR := 0x2
  const O_NONBLOCK := 0x800

  const ENOENT := 2
  const EBADF := 9
  const EACCES := 13
  const EADDRINUSE := 98
  const EADDRNOTAVAIL := 99
  const EALREADY := 114
  const EINPROGRESS := 115

  /** `sizeof(struct sockaddr_in)`, `sizeof(((struct sockaddr_un *)0)->sun_path)`
      and `sizeof(struct sockaddr_un)`. */
  const SOCKADDR_IN_LEN := 16
  const SUN_PATH_LEN := 108
  const SOCKADDR_UN_LEN := 110

  /** An open socket: its address family, its type and whether it is in
      non-blocking mode. */
  datatype Sock = Sock(family: int, stype: int, nonblock: bool)

  /** A socket address: one the application passes, seen through the
      `sockaddr_in` layout as its family, IPv4 address and port (host
      order), or a Unix address the library builds. */
  datatype Addr = SockAddr(family: int, ip: Ipv4, port: port16) | UnixAddr(path: string)

  /** The kernel's answer to a call whose outcome the model does not decide. */
  datatype Answer = Ok | Err(code: int)

  /** A call into the system, as the log records it. */
  datatype Call =
    | GetFl(fd: int)
    | SetFl(fd: int, flags: int)
    | GetSockType(fd: int)
    | Socket(family: int, stype: int)
    | Dup2(from: int, to: int)
    | Close(fd: int)
    | Unlink(path: string)
    | Chmod(path: string, mode: int)
    | Bind(fd: int, addr: Addr, len: int)
    | Connect(fd: int, addr: Addr, len: int)

  /** `w & O_NONBLOCK != 0`, for a flags word `w`, which is never negative. */
  predicate NonBlockBit(w: nat)
  {
    w / O_NONBLOCK % 2 == 1
  }

  /** The `F_GETFL` word of an open socket. */
  function FlagWord(s: Sock): (w: nat)
    ensures NonBlockBit(w) == s.nonblock
  {
    if s.nonblock then O_RDWR + O_NONBLOCK else O_RDWR
  }

  /** The kernel state the calls read and change. */
  datatype Os = Os(fds: map<int, Sock>, next: int, paths: set<string>, errno: int)
  {
    /** Every open descriptor is below the next one handed out. */
    ghost predicate Valid() {
      next >= 0 && forall fd :: fd in fds ==> 0 <= fd < next
    }
  }

  /** What a call leaves: the new kernel state, its return value and the
      system calls it made, in order. */
  datatype Outcome = Outcome(os: Os, r: int, calls: seq<Call>)

  /** The system's own `bind` on state `o`. */
  function RealBindSpec(o: Os, fd: int, addr: Addr, len: int, a: Answer): (c: Outcome)
    ensures c.calls == [Call.Bind(fd, addr, len)] && c.os.fds == o.fds && c.os.next == o.next
    ensures c.r == 0 <==> a.Ok?
    ensures c.r == 0 ==> c.os.errno == o.errno && (addr.UnixAddr? ==> addr.path in c.os.paths)
    ensures c.r != 0 ==> c.r == -1 && c.os.errno == a.code && c.os.paths == o.paths
  {
    var calls := [Call.Bind(fd, addr, len)];
    if a.Err? then Outcome(o.(errno := a.code), -1, calls)
    else if addr.UnixAddr? then Outcome(o.(paths := o.paths + {addr.path}), 0, calls)
    else Outcome(o, 0, calls)
  }

  /** The system's own `connect` on state `o`. */
  function RealConnectSpec(o: Os, fd: int, addr: Addr, len: int, a: Answer): (c: Outcome)
    ensures c.calls == [Call.Connect(fd, addr, len)]
    ensures c.os.fds == o.fds && c.os.next == o.next && c.os.paths == o.paths
    ensures c.r == 0 <==> a.Ok?
    ensures c.r == 0 ==> c.os.errno == o.errno
    ensures c.r != 0 ==> c.r == -1 && c.os.errno == a.code
  {
    var calls := [Call.Connect(fd, addr, len)];
    if a.Err? then Outcome(o.(errno := a.code), -1, calls) else Outcome(o, 0, calls)
  }

  class Kernel {
    /** The open descriptors. */
    var fds: map<int, Sock>
    /** The descriptor the next successful `socket` returns. */
    var next: int
    /** The socket files in the file system. */
    var paths: set<string>
    var errno: int
    /** Every call made so far, oldest first. */
    var log: seq<Call>

    /** The state as a value. */
    ghost function State(): Os
      reads this
    {
      Os(fds, next, paths, errno)
    }

    ghost predicate Valid()
      reads this
    {
      State().Valid()
    }

    constructor (fds: map<int, Sock>, paths: set<string>, next: int)
      requires next >= 0 && forall fd :: fd in fds ==> 0 <= fd < next
      ensures Valid()
      ensures this.fds == fds && this.paths == paths && this.next == next
      ensures errno == 0 && log == []
    {
      this.fds := fds;
      this.paths := paths;
      this.next := next;
      errno := 0;
      log := [];
    }

    /** `fcntl(fd, F_GETFL)`. */
    method FcntlGetFl(fd: int) returns (r: int)
      requires Valid()
      modifies this
      ensures Valid() && fds == old(fds) && next == old(next) && paths == old(paths)
      ensures log == old(log) + [GetFl(fd)]
      ensures fd in fds ==> r == FlagWord(fds[fd]) && errno == old(errno)
      ensures fd !in fds ==> r == -1 && errno == EBADF
    {
      log := log + [GetFl(fd)];
      if fd in fds {
        r := FlagWord(fds[fd]);
      } else {
        r, errno := -1, EBADF;
      }
    }

    /** `fcntl(fd, F_SETFL, flags)`: of the status flags only the
        non-blocking bit is kept. */
    method FcntlSetFl(fd: int, flags: nat) returns (r: int)
      requires Valid()
      modifies this
      ensures Valid() && next == old(next) && paths == old(paths)
      ensures log == old(log) + [SetFl(fd, flags)]
      ensures fd in old(fds) ==>
        (r == 0 && errno == old(errno)
        && fds == old(fds)[fd := old(fds)[fd].(nonblock := NonBlockBit(flags))])
      ensures fd !in old(fds) ==> r == -1 && errno == EBADF && fds == old(fds)
    {
      log := log + [SetFl(fd, flags)];
      if fd in fds {
        fds := fds[fd := fds[fd].(nonblock := NonBlockBit(flags))];
        r := 0;
      } else {
        r, errno := -1, EBADF;
      }
    }

    /** `getsockopt(fd, SOL_SOCKET, SO_TYPE, &t, ...)`: 0 and the type, or
        -1 and no type. */
    method GetSockOptType(fd: int) returns (r: int, t: int)
      requires Valid()
      modifies this
      ensures Valid() && fds == old(fds) && next == old(next) && paths == old(paths)
      ensures log == old(log) + [GetSockType(fd)]
      ensures fd in fds ==> r == 0 && t == fds[fd].stype && errno == old(errno)
      ensures fd !in fds ==> r == -1 && errno == EBADF
    {
      log := log + [GetSockType(fd)];
      if fd in fds {
        r, t := 0, fds[fd].stype;
      } else {
        r, t, errno := -1, 0, EBADF;
      }
    }

    /** `socket(family, stype, 0)`: a new blocking socket on the next
        descriptor, or -1 with the kernel's errno. */
    method Socket(family: int, stype: int, a: Answer) returns (s: int)
      requires Valid()
      modifies this
      ensures Valid() && paths == old(paths)
      ensures log == old(log) + [Call.Socket(family, stype)]
      ensures a.Ok? ==>
        (s == old(next) && s !in old(fds) && errno == old(errno)
        && fds == old(fds)[s := Sock(family, stype, false)] && next == old(next) + 1)
      ensures a.Err? ==> s == -1 && errno == a.code && fds == old(fds) && next == old(next)
    {
      log := log + [Call.Socket(family, stype)];
      if a.Ok? {
        s := next;
        fds := fds[s := Sock(family, stype, false)];
        next := next + 1;
      } else {
        s, errno := -1, a.code;
      }
    }

    /** `dup2(from, to)`: `to` becomes a second descriptor of the socket
        `from` names, closing what `to` named before. */
    method Dup2(from: int, to: int) returns (r: int)
      requires Valid()
      modifies this
      ensures Valid() && paths == old(paths)
      ensures log == old(log) + [Call.Dup2(from, to)]
      ensures from in old(fds) && to >= 0 ==>
        (r == to && errno == old(errno) && fds == old(fds)[to := old(fds)[from]]
        && next == if to < old(next) then old(next) else to + 1)
      ensures !(from in old(fds) && to >= 0) ==>
        r == -1 && errno == EBADF && fds == old(fds) && next == old(next)
    {
      log := log + [Call.Dup2(from, to)];
      if from in fds && to >= 0 {
        fds := fds[to := fds[from]];
        if to >= next {
          next := to + 1;
        }
        r := to;
      } else {
        r, errno := -1, EBADF;
      }
    }

    /** `close(fd)`. */
    method Close(fd: int) returns (r: int)
      requires Valid()
      modifies this
      ensures Valid() && next == old(next) && paths == old(paths)
      ensures log == old(log) + [Call.Close(fd)]
      ensures fds == old(fds) - {fd}
      ensures fd in old(fds) ==> r == 0 && errno == old(errno)
      ensures fd !in old(fds) ==> r == -1 && errno == EBADF
    {
      log := log + [Call.Close(fd)];
      if fd in fds {
        r := 0;
      } else {
        r, errno := -1, EBADF;
      }
      fds := fds - {fd};
    }

    /** `unlink(path)`, as far as socket files go. */
    method Unlink(path: string) returns (r: int)
      requires Valid()
      modifies this
      ensures Valid() && fds == old(fds) && next == old(next)
      ensures log == old(log) + [Call.Unlink(path)]
      ensures paths == old(paths) - {path}
      ensures path in old(paths) ==> r == 0 && errno == old(errno)
      ensures path !in old(paths) ==> r == -1 && errno == ENOENT
    {
      log := log + [Call.Unlink(path)];
      if path in paths {
        r := 0;
      } else {
        r, errno := -1, ENOENT;
      }
      paths := paths - {path};
    }

    /** `chmod(path, mode)`. */
    method Chmod(path: string, mode: int, a: Answer) returns (r: int)
      requires Valid()
      modifies this
      ensures Valid() && fds == old(fds) && next == old(next) && paths == old(paths)
      ensures log == old(log) + [Call.Chmod(path, mode)]
      ensures a.Ok? ==> r == 0 && errno == old(errno)
      ensures a.Err? ==> r == -1 && errno == a.code
    {
      log := log + [Call.Chmod(path, mode)];
      if a.Ok? {
        r := 0;
      } else {
        r, errno := -1, a.code;
      }
    }

    /** The system's own `bind` (`_bind`): binding a Unix address creates
        its socket file. */
    method RealBind(fd: int, addr: Addr, len: int, a: Answer) returns (r: int)
      requires Valid()
      modifies this
      ensures Valid()
      ensures var c := RealBindSpec(old(State()), fd, addr, len, a);
        State() == c.os && r == c.r && log == old(log) + c.calls
    {
      log := log + [Call.Bind(fd, addr, len)];
      if a.Ok? {
        r := 0;
        if addr.UnixAddr? {
          paths := paths + {addr.path};
        }
      } else {
        r, errno := -1, a.code;
      }
    }

    /** The system's own `connect` (`_connect`). */
    method RealConnect(fd: int, addr: Addr, len: int, a: Answer) returns (r: int)
      requires Valid()
      modifies this
      ensures Valid()
      ensures var c := RealConnectSpec(old(State()), fd, addr, len, a);
        State() == c.os && r == c.r && log == old(log) + c.calls
    {
      log := log + [Call.Connect(fd, addr, len)];
      if a.Ok? {
        r := 0;
      } else {
        r, errno := -1, a.code;
      }
    }
  }
}
