/** The interposed socket calls: the blocking-mode helpers, the conversion
    of a socket to a Unix one, `bind_unix` with its reclaiming of stale
    socket files, and the `bind` and `connect` the library exports. Each
    method works on the kernel step by step, and is specified by a function
    of the kernel state before the call. */
module Intercept {
  import opened Keys
  import opened Kernel
  import opened Target

  /** The kernel's answers during one interposed call, one for each call
      whose outcome it decides; each is consulted at most once. */
  datatype Replies = Replies(
    convert: Answer,    // the `socket` of `_ttusock`
    bind: Answer,       // the first (or only) `_bind`
    probeSock: Answer,  // the `socket` of the liveness probe
    probe: Answer,      // the probe's `connect`
    rebind: Answer,     // the `_bind` after the stale file is removed
    chmod: Answer,
    connect: Answer)    // `_connect`

  /** Appending is associative. */
  lemma Append3<T>(a: seq<T>, b: seq<T>, c: seq<T>)
    ensures a + b + c == a + (b + c)
  {
  }

  /* ---- getblocking and setblocking ---- */

  /** `getblocking`: 0 when the descriptor is open and non-blocking;
      1 when it is blocking or its flags cannot be read. */
  method GetBlocking(k: Kernel, fd: int) returns (b: int)
    requires k.Valid()
    modifies k
    ensures k.Valid() && k.State() == AfterGetFl(old(k.State()), fd)
    ensures k.log == old(k.log) + [GetFl(fd)]
    ensures b == BlockingOf(old(k.State()), fd)
  {
    var fl := k.FcntlGetFl(fd);
    if fl < 0 {
      return 1;
    }
    if NonBlockBit(fl) {
      return 0;
    }
    return 1;
  }

  /** The state after reading the flags of a descriptor: errno is EBADF
      when it is not open. */
  function AfterGetFl(o: Os, fd: int): (o': Os)
    ensures o'.fds == o.fds && o'.next == o.next && o'.paths == o.paths
    ensures o'.errno == if fd in o.fds then o.errno else EBADF
  {
    if fd in o.fds then o else o.(errno := EBADF)
  }

  /** What `getblocking` reports of a descriptor. */
  function BlockingOf(o: Os, fd: int): (b: int)
    ensures b == 0 || b == 1
    ensures b == 0 <==> fd in o.fds && o.fds[fd].nonblock
  {
    if fd in o.fds && o.fds[fd].nonblock then 0 else 1
  }

  /** The flags word `setblocking(fd, v)` writes back: the word read, with
      the non-blocking bit set when `v` is non-zero and cleared otherwise. */
  function WithNonBlock(w: nat, v: int): (r: nat)
    ensures NonBlockBit(r) <==> v != 0
    ensures r % O_NONBLOCK == w % O_NONBLOCK && r / (2 * O_NONBLOCK) == w / (2 * O_NONBLOCK)
  {
    if NonBlockBit(w) == (v != 0) then w
    else if v != 0 then
      FlipBit(w);
      w + O_NONBLOCK
    else
      FlipBit(w - O_NONBLOCK);
      w - O_NONBLOCK
  }

  /** Adding the non-blocking bit to a word without it sets that bit and
      keeps every other bit. */
  lemma FlipBit(w: int)
    requires w >= 0 && !NonBlockBit(w)
    ensures NonBlockBit(w + O_NONBLOCK)
    ensures (w + O_NONBLOCK) % O_NONBLOCK == w % O_NONBLOCK
    ensures (w + O_NONBLOCK) / (2 * O_NONBLOCK) == w / (2 * O_NONBLOCK)
  {
    var q, b := w / 2048, w % 2048;
    assert w == 2048 * q + b && q % 2 == 0;
    assert w + 2048 == 2048 * (q + 1) + b;
    assert (w + 2048) / 2048 == q + 1;
    assert w == 4096 * (q / 2) + b;
    assert w + 2048 == 4096 * (q / 2) + (2048 + b);
  }

  /** `setblocking(fd, v)` on state `o`: despite its name, a non-zero `v`
      makes the descriptor non-blocking. 1 when the flags cannot be read
      or written, 0 otherwise. */
  function SetBlockingSpec(o: Os, fd: int, v: int): (c: Outcome)
    requires o.Valid()
    ensures c.os.Valid() && c.os.next == o.next && c.os.paths == o.paths
    ensures c.r == 0 <==> fd in o.fds
    ensures fd in o.fds ==>
      (c.os.fds.Keys == o.fds.Keys && c.os.errno == o.errno
      && c.os.fds[fd] == o.fds[fd].(nonblock := v != 0)
      && forall d :: d in o.fds && d != fd ==> c.os.fds[d] == o.fds[d])
    ensures fd !in o.fds ==> c.r == 1 && c.os.fds == o.fds && c.os.errno == EBADF
  {
    if fd in o.fds then
      var w := WithNonBlock(FlagWord(o.fds[fd]), v);
      Outcome(o.(fds := o.fds[fd := o.fds[fd].(nonblock := v != 0)]), 0, [GetFl(fd), SetFl(fd, w)])
    else
      Outcome(o.(errno := EBADF), 1, [GetFl(fd)])
  }

  method SetBlocking(k: Kernel, fd: int, v: int) returns (r: int)
    requires k.Valid()
    modifies k
    ensures k.Valid()
    ensures var c := SetBlockingSpec(old(k.State()), fd, v);
      k.State() == c.os && r == c.r && k.log == old(k.log) + c.calls
  {
    var fl := k.FcntlGetFl(fd);
    if fl < 0 {
      return 1;
    }
    var s := k.FcntlSetFl(fd, WithNonBlock(fl, v));
    r := if s == -1 then 1 else 0;
  }

  /* ---- _ttusock ---- */

  /** The type the socket on `fd` has, or 0 when it cannot be read: the
      type `_ttusock` gives the new socket. */
  function TypeOf(fds: map<int, Sock>, fd: int): int
  {
    if fd in fds then fds[fd].stype else 0
  }

  /** The descriptor `socket` returns on state `o`. */
  function NewFd(o: Os, a: Answer): int
  {
    if a.Ok? then o.next else -1
  }

  /** `_ttusock(fd)` on state `o`: a new Unix socket of the same type is
      opened and `dup2` puts it on `fd`; the descriptor `socket` returned
      is never closed. */
  function ConvertSpec(o: Os, fd: int, a: Answer): (c: Outcome)
    requires o.Valid()
    ensures c.os.Valid() && c.os.paths == o.paths
    ensures c.calls == [GetSockType(fd), Call.Socket(AF_UNIX, TypeOf(o.fds, fd)), Call.Dup2(NewFd(o, a), fd)]
  {
    var t := TypeOf(o.fds, fd);
    var calls := [GetSockType(fd), Call.Socket(AF_UNIX, t), Call.Dup2(NewFd(o, a), fd)];
    if a.Err? then Outcome(o.(errno := EBADF), -1, calls)
    else
      var u := Sock(AF_UNIX, t, false);
      var fds := o.fds[o.next := u];
      if fd >= 0 then
        var e := if fd in o.fds then o.errno else EBADF;
        Outcome(Os(fds[fd := u], if fd < o.next + 1 then o.next + 1 else fd + 1, o.paths, e), fd, calls)
      else
        Outcome(o.(fds := fds, next := o.next + 1, errno := EBADF), -1, calls)
  }

  /** The conversion keeps the descriptor's number and its socket type,
      turns it into a blocking Unix socket and leaves a second descriptor
      of that socket open; every other descriptor is untouched. It fails,
      with EBADF, when `socket` fails or the descriptor is negative. */
  lemma ConvertKeepsFd(o: Os, fd: int, a: Answer)
    requires o.Valid()
    ensures var c := ConvertSpec(o, fd, a);
      && c.r == (if a.Ok? && fd >= 0 then fd else -1)
      && (!(a.Ok? && fd >= 0) ==> c.os.errno == EBADF)
      && (a.Ok? && fd >= 0 ==>
        && fd in c.os.fds && c.os.fds[fd] == Sock(AF_UNIX, TypeOf(o.fds, fd), false)
        && o.next in c.os.fds && c.os.fds[o.next] == c.os.fds[fd]
        && (fd in o.fds ==> o.next != fd)
        && c.os.fds.Keys == o.fds.Keys + {fd, o.next})
      && (forall d :: d in o.fds && d != fd ==> d in c.os.fds && c.os.fds[d] == o.fds[d])
      && (a.Err? ==> c.os.fds == o.fds)
  {
  }

  method TtuSock(k: Kernel, fd: int, a: Answer) returns (r: int)
    requires k.Valid()
    modifies k
    ensures k.Valid()
    ensures var c := ConvertSpec(old(k.State()), fd, a);
      k.State() == c.os && r == c.r && k.log == old(k.log) + c.calls
  {
    var socktp := 0;
    var ok, t := k.GetSockOptType(fd);
    if ok == 0 {
      socktp := t;
    }
    var s := k.Socket(AF_UNIX, socktp, a);
    r := k.Dup2(s, fd);
  }

  /* ---- bind_unix ---- */

  /** The liveness probe of `bind_unix` finds a server on the socket file:
      the probe socket cannot be made blocking (it could not be opened),
      its `connect` succeeds, or it fails with EALREADY or EINPROGRESS. */
  predicate Live(out: Replies)
  {
    out.probeSock.Err? || out.probe.Ok? || out.probe.code == EALREADY || out.probe.code == EINPROGRESS
  }

  /** The calls of the probe on descriptor `s`: open it, make it blocking
      and, when it could be opened, connect it to the socket file. None of
      them binds or unlinks. */
  function ProbeCalls(s: int, p: string, isOpen: bool): (cs: seq<Call>)
    ensures forall c :: c in cs ==> !c.Bind? && !c.Unlink?
  {
    [Call.Socket(AF_UNIX, SOCK_STREAM), GetFl(s)]
    + if isOpen
      then [SetFl(s, WithNonBlock(FlagWord(Sock(AF_UNIX, SOCK_STREAM, false)), 0)),
            Call.Connect(s, UnixAddr(p), SOCKADDR_UN_LEN)]
      else []
  }

  /** The probe's verdict is the condition of `bind_unix` on the calls it
      makes: `setblocking(s, 0)` fails exactly when the probe socket could
      not be opened, and otherwise leaves it blocking; then the socket file
      is live when the probe's `connect` succeeds or fails with EALREADY
      or EINPROGRESS. */
  lemma ProbeVerdict(o: Os, p: string, out: Replies)
    requires o.Valid()
    ensures var s := NewFd(o, out.probeSock);
      var o1 := if out.probeSock.Ok?
        then o.(fds := o.fds[s := Sock(AF_UNIX, SOCK_STREAM, false)], next := o.next + 1)
        else o.(errno := out.probeSock.code);
      var sb := SetBlockingSpec(o1, s, 0);
      var cn := RealConnectSpec(sb.os, s, UnixAddr(p), SOCKADDR_UN_LEN, out.probe);
      && (sb.r != 0 <==> out.probeSock.Err?)
      && (out.probeSock.Ok? ==> s in sb.os.fds && !sb.os.fds[s].nonblock)
      && (Live(out) <==> sb.r != 0 || cn.r == 0 || cn.os.errno == EALREADY || cn.os.errno == EINPROGRESS)
  {
  }

  /** The flags word `setblocking(s, 0)` writes on the new probe socket is
      that of a blocking socket, so the probe's `connect` blocks. */
  lemma ProbeBlocking(s: int, p: string, isOpen: bool)
    ensures var cs := ProbeCalls(s, p, isOpen);
      && |cs| == (if isOpen then 4 else 2) && cs[..2] == [Call.Socket(AF_UNIX, SOCK_STREAM), GetFl(s)]
      && (isOpen ==>
        && cs[2] == SetFl(s, O_RDWR) && !NonBlockBit(O_RDWR)
        && cs[3] == Call.Connect(s, UnixAddr(p), SOCKADDR_UN_LEN))
  {
  }

  /** What `bind_unix` does after its first `_bind` failed with EADDRINUSE,
      on state `o`: probe the socket file; a live one fails the call with
      EADDRINUSE, a stale one is unlinked and `_bind` tried once more. */
  function ReclaimSpec(o: Os, fd: int, p: string, out: Replies): (c: Outcome)
    requires o.Valid()
    ensures c.os.Valid() && c.os.fds == o.fds
  {
    var u := UnixAddr(p);
    var s := NewFd(o, out.probeSock);
    var next := if out.probeSock.Ok? then o.next + 1 else o.next;
    var probe := ProbeCalls(s, p, out.probeSock.Ok?);
    if Live(out) then
      Outcome(o.(next := next, errno := EADDRINUSE), -1, probe + [Call.Close(s)])
    else
      var calls := probe + [Call.Close(s), Call.Unlink(p), Call.Bind(fd, u, SOCKADDR_UN_LEN)];
      var e := if p in o.paths then out.probe.code else ENOENT;
      var b := RealBindSpec(Os(o.fds, next, o.paths - {p}, e), fd, u, SOCKADDR_UN_LEN, out.rebind);
      Outcome(b.os, b.r, calls)
  }

  method Reclaim(k: Kernel, fd: int, p: string, out: Replies) returns (r: int)
    requires k.Valid()
    modifies k
    ensures k.Valid()
    ensures var c := ReclaimSpec(old(k.State()), fd, p, out);
      k.State() == c.os && r == c.r && k.log == old(k.log) + c.calls
  {
    ghost var o := k.State();
    var uaddr := UnixAddr(p);
    var s := k.Socket(AF_UNIX, SOCK_STREAM, out.probeSock);
    var b := SetBlocking(k, s, 0);
    var live := b != 0;
    if !live {
      var c := k.RealConnect(s, uaddr, SOCKADDR_UN_LEN, out.probe);
      live := c == 0 || k.errno == EALREADY || k.errno == EINPROGRESS;
    }
    assert live == Live(out);
    if live {
      var _ := k.Close(s);
      k.errno := EADDRINUSE;
      assert k.fds == o.fds;
      return -1;
    }
    var _ := k.Close(s);
    var _ := k.Unlink(p);
    assert k.fds == o.fds;
    r := k.RealBind(fd, uaddr, SOCKADDR_UN_LEN, out.rebind);
  }

  /** `bind_unix(fd, p, ...)` on state `o`. */
  function BindUnixSpec(o: Os, fd: int, p: string, out: Replies): (c: Outcome)
    requires o.Valid()
    ensures c.os.Valid()
  {
    if |p| + 1 > SUN_PATH_LEN then Outcome(o.(errno := EADDRNOTAVAIL), -1, [])
    else
      var c1 := ConvertSpec(o, fd, out.convert);
      var b := RealBindSpec(c1.os, fd, UnixAddr(p), SOCKADDR_UN_LEN, out.bind);
      if b.r == 0 then Outcome(b.os, 0, c1.calls + b.calls)
      else if b.os.errno != EADDRINUSE then Outcome(b.os, -1, c1.calls + b.calls)
      else
        var c2 := ReclaimSpec(b.os, fd, p, out);
        Outcome(c2.os, c2.r, c1.calls + b.calls + c2.calls)
  }

  method BindUnix(k: Kernel, fd: int, p: string, out: Replies) returns (r: int)
    requires k.Valid()
    modifies k
    ensures k.Valid()
    ensures var c := BindUnixSpec(old(k.State()), fd, p, out);
      k.State() == c.os && r == c.r && k.log == old(k.log) + c.calls
  {
    var pl := |p|;
    if pl + 1 > SUN_PATH_LEN {
      k.errno := EADDRNOTAVAIL;
      return -1;
    }
    ghost var o, log0 := k.State(), k.log;
    var uaddr := UnixAddr(p);
    var _ := TtuSock(k, fd, out.convert);
    ghost var c1 := ConvertSpec(o, fd, out.convert);
    ghost var b := RealBindSpec(c1.os, fd, uaddr, SOCKADDR_UN_LEN, out.bind);
    r := k.RealBind(fd, uaddr, SOCKADDR_UN_LEN, out.bind);
    Append3(log0, c1.calls, b.calls);
    if r == 0 {
      return 0;
    }
    if k.errno != EADDRINUSE {
      return -1;
    }
    r := Reclaim(k, fd, p, out);
    Append3(log0, c1.calls + b.calls, ReclaimSpec(b.os, fd, p, out).calls);
  }

  /** A path that does not fit `sun_path` with its terminator fails with
      EADDRNOTAVAIL before anything is called: the socket is not converted. */
  lemma PathTooLong(o: Os, fd: int, p: string, out: Replies)
    requires o.Valid() && |p| + 1 > SUN_PATH_LEN
    ensures BindUnixSpec(o, fd, p, out) == Outcome(o.(errno := EADDRNOTAVAIL), -1, [])
  {
  }

  /** A path that fits: the socket is converted and bound to the path;
      when that bind succeeds, or fails for another reason than
      EADDRINUSE, those are all the calls, and the bind's result and
      errno are the call's. */
  lemma FirstBindDecides(o: Os, fd: int, p: string, out: Replies)
    requires o.Valid() && |p| + 1 <= SUN_PATH_LEN
    requires out.bind.Ok? || out.bind.code != EADDRINUSE
    ensures var c := BindUnixSpec(o, fd, p, out);
      && c.calls == ConvertSpec(o, fd, out.convert).calls + [Call.Bind(fd, UnixAddr(p), SOCKADDR_UN_LEN)]
      && (c.r == 0 <==> out.bind.Ok?)
      && (out.bind.Ok? ==> p in c.os.paths)
      && (out.bind.Err? ==> c.r == -1 && c.os.errno == out.bind.code)
  {
  }

  /** A socket file in use: when the probe finds it live, the call fails
      with EADDRINUSE, the probe socket is closed again, and the file is
      neither removed nor bound a second time. */
  lemma LiveFileKept(o: Os, fd: int, p: string, out: Replies)
    requires o.Valid() && |p| + 1 <= SUN_PATH_LEN
    requires out.bind == Err(EADDRINUSE) && Live(out)
    ensures var c := BindUnixSpec(o, fd, p, out);
      && c.r == -1 && c.os.errno == EADDRINUSE && c.os.paths == o.paths
      && multiset(c.calls)[Call.Unlink(p)] == 0
      && multiset(c.calls)[Call.Bind(fd, UnixAddr(p), SOCKADDR_UN_LEN)] == 1
      && c.calls[|c.calls| - 1] == Call.Close(NewFd(ConvertSpec(o, fd, out.convert).os, out.probeSock))
  {
    var c1 := ConvertSpec(o, fd, out.convert);
    var b := RealBindSpec(c1.os, fd, UnixAddr(p), SOCKADDR_UN_LEN, out.bind);
    var s := NewFd(c1.os, out.probeSock);
    ReclaimLive(b.os, fd, p, out);
    InUseReclaims(o, fd, p, out);
    LiveLog(o, fd, p, out);
    LiveCounts(c1.calls, ProbeCalls(s, p, out.probeSock.Ok?), s, fd, p);
  }

  /** The log of that failed reclaim, in four parts: the conversion, the
      first bind, the probe, and closing the probe socket. */
  lemma LiveLog(o: Os, fd: int, p: string, out: Replies)
    requires o.Valid() && |p| + 1 <= SUN_PATH_LEN
    requires out.bind == Err(EADDRINUSE) && Live(out)
    ensures var c1 := ConvertSpec(o, fd, out.convert);
      var s := NewFd(c1.os, out.probeSock);
      BindUnixSpec(o, fd, p, out).calls
        == (c1.calls + [Call.Bind(fd, UnixAddr(p), SOCKADDR_UN_LEN)] + ProbeCalls(s, p, out.probeSock.Ok?))
           + [Call.Close(s)]
  {
    var c1 := ConvertSpec(o, fd, out.convert);
    var b := RealBindSpec(c1.os, fd, UnixAddr(p), SOCKADDR_UN_LEN, out.bind);
    var s := NewFd(b.os, out.probeSock);
    ReclaimLive(b.os, fd, p, out);
    InUseReclaims(o, fd, p, out);
    Append3(c1.calls + b.calls, ProbeCalls(s, p, out.probeSock.Ok?), [Call.Close(s)]);
  }

  /** Counting in the log of a failed reclaim, knowing only that neither
      the conversion nor the probe binds or unlinks. */
  lemma LiveCounts(conv: seq<Call>, probe: seq<Call>, s: int, fd: int, p: string)
    requires forall c :: c in conv ==> !c.Bind? && !c.Unlink?
    requires forall c :: c in probe ==> !c.Bind? && !c.Unlink?
    ensures var b := Call.Bind(fd, UnixAddr(p), SOCKADDR_UN_LEN);
      var log := (conv + [b] + probe) + [Call.Close(s)];
      multiset(log)[Call.Unlink(p)] == 0 && multiset(log)[b] == 1
  {
    var b := Call.Bind(fd, UnixAddr(p), SOCKADDR_UN_LEN);
    assert b !in conv && b !in probe && Call.Unlink(p) !in conv && Call.Unlink(p) !in probe;
    assert multiset(conv)[b] == 0 && multiset(probe)[b] == 0;
    assert multiset(conv)[Call.Unlink(p)] == 0 && multiset(probe)[Call.Unlink(p)] == 0;
  }


  /** A log made of three parts: a call the middle part does not make is
      counted in the outer parts, and the log ends with the last part. */
  lemma LogTail(pre: seq<Call>, mid: seq<Call>, tail: seq<Call>, x: Call)
    requires x !in mid
    ensures multiset(pre + mid + tail)[x] == multiset(pre)[x] + multiset(tail)[x]
    ensures (pre + mid + tail)[|pre + mid + tail| - |tail|..] == tail
  {
    assert multiset(mid)[x] == 0;
    assert (pre + mid + tail)[|pre + mid|..] == tail;
  }

  /** A live socket file: the probe socket is closed again and the call
      fails with EADDRINUSE; no file is removed. */
  lemma ReclaimLive(o: Os, fd: int, p: string, out: Replies)
    requires o.Valid() && Live(out)
    ensures var c := ReclaimSpec(o, fd, p, out); var s := NewFd(o, out.probeSock);
      && c.calls == ProbeCalls(s, p, out.probeSock.Ok?) + [Call.Close(s)]
      && c.r == -1 && c.os.errno == EADDRINUSE && c.os.paths == o.paths
  {
  }

  /** A first bind that fails with EADDRINUSE hands over to the reclaim. */
  lemma InUseReclaims(o: Os, fd: int, p: string, out: Replies)
    requires o.Valid() && |p| + 1 <= SUN_PATH_LEN && out.bind == Err(EADDRINUSE)
    ensures var c1 := ConvertSpec(o, fd, out.convert);
      var b := RealBindSpec(c1.os, fd, UnixAddr(p), SOCKADDR_UN_LEN, out.bind);
      var c2 := ReclaimSpec(b.os, fd, p, out);
      && b.calls == [Call.Bind(fd, UnixAddr(p), SOCKADDR_UN_LEN)] && b.os.fds == c1.os.fds && b.os.next == c1.os.next
      && BindUnixSpec(o, fd, p, out) == Outcome(c2.os, c2.r, c1.calls + b.calls + c2.calls)
  {
  }

  /** A stale socket file: after the probe its socket is closed, the file
      unlinked and bound once more, and that bind decides the result. */
  lemma ReclaimStale(o: Os, fd: int, p: string, out: Replies)
    requires o.Valid() && !Live(out)
    ensures var c := ReclaimSpec(o, fd, p, out); var s := NewFd(o, out.probeSock);
      && c.calls == ProbeCalls(s, p, out.probeSock.Ok?)
                    + [Call.Close(s), Call.Unlink(p), Call.Bind(fd, UnixAddr(p), SOCKADDR_UN_LEN)]
      && (c.r == 0 <==> out.rebind.Ok?)
      && (out.rebind.Ok? ==> p in c.os.paths)
      && (out.rebind.Err? ==> c.r == -1 && c.os.errno == out.rebind.code && p !in c.os.paths)
  {
  }

  /** A socket file in use that the probe finds stale is bound once more,
      and that bind decides the result. */
  lemma StaleFileReclaimed(o: Os, fd: int, p: string, out: Replies)
    requires o.Valid() && |p| + 1 <= SUN_PATH_LEN
    requires out.bind == Err(EADDRINUSE) && !Live(out)
    ensures var c := BindUnixSpec(o, fd, p, out);
      && (c.r == 0 <==> out.rebind.Ok?)
      && (out.rebind.Ok? ==> p in c.os.paths)
      && (out.rebind.Err? ==> c.r == -1 && c.os.errno == out.rebind.code && p !in c.os.paths)
  {
    var c1 := ConvertSpec(o, fd, out.convert);
    var b := RealBindSpec(c1.os, fd, UnixAddr(p), SOCKADDR_UN_LEN, out.bind);
    ReclaimStale(b.os, fd, p, out);
    InUseReclaims(o, fd, p, out);
  }

  /** The log of that reclaim, in four parts: the conversion, the first
      bind, the probe, and closing the probe socket, unlinking the file
      and binding again. */
  lemma StaleLog(o: Os, fd: int, p: string, out: Replies)
    requires o.Valid() && |p| + 1 <= SUN_PATH_LEN
    requires out.bind == Err(EADDRINUSE) && !Live(out)
    ensures var c1 := ConvertSpec(o, fd, out.convert);
      var s := NewFd(c1.os, out.probeSock);
      BindUnixSpec(o, fd, p, out).calls
        == (c1.calls + [Call.Bind(fd, UnixAddr(p), SOCKADDR_UN_LEN)] + ProbeCalls(s, p, out.probeSock.Ok?))
           + [Call.Close(s), Call.Unlink(p), Call.Bind(fd, UnixAddr(p), SOCKADDR_UN_LEN)]
  {
    var c1 := ConvertSpec(o, fd, out.convert);
    var u := UnixAddr(p);
    var b := RealBindSpec(c1.os, fd, u, SOCKADDR_UN_LEN, out.bind);
    var s := NewFd(b.os, out.probeSock);
    var probe := ProbeCalls(s, p, out.probeSock.Ok?);
    var tail := [Call.Close(s), Call.Unlink(p), Call.Bind(fd, u, SOCKADDR_UN_LEN)];
    ReclaimStale(b.os, fd, p, out);
    InUseReclaims(o, fd, p, out);
    Append3(c1.calls + b.calls, probe, tail);
  }

  /** The calls of that reclaim: the file is unlinked once and bound a
      second time, as the last call, after the probe socket is closed. */
  lemma StaleFileCalls(o: Os, fd: int, p: string, out: Replies)
    requires o.Valid() && |p| + 1 <= SUN_PATH_LEN
    requires out.bind == Err(EADDRINUSE) && !Live(out)
    ensures var c := BindUnixSpec(o, fd, p, out);
      && multiset(c.calls)[Call.Unlink(p)] == 1
      && multiset(c.calls)[Call.Bind(fd, UnixAddr(p), SOCKADDR_UN_LEN)] == 2
      && c.calls[|c.calls| - 3..] == [Call.Close(NewFd(ConvertSpec(o, fd, out.convert).os, out.probeSock)),
                                     Call.Unlink(p), Call.Bind(fd, UnixAddr(p), SOCKADDR_UN_LEN)]
  {
    var c1 := ConvertSpec(o, fd, out.convert);
    var u := UnixAddr(p);
    var s := NewFd(c1.os, out.probeSock);
    var probe := ProbeCalls(s, p, out.probeSock.Ok?);
    var tail := [Call.Close(s), Call.Unlink(p), Call.Bind(fd, u, SOCKADDR_UN_LEN)];
    var pre := c1.calls + [Call.Bind(fd, u, SOCKADDR_UN_LEN)];
    StaleLog(o, fd, p, out);
    StaleCounts(c1.calls, probe, s, fd, p);
    LogTail(pre, probe, tail, Call.Unlink(p));
  }

  /** Counting in the log of a reclaim, knowing only that neither the
      conversion nor the probe binds or unlinks. */
  lemma StaleCounts(conv: seq<Call>, probe: seq<Call>, s: int, fd: int, p: string)
    requires forall c :: c in conv ==> !c.Bind? && !c.Unlink?
    requires forall c :: c in probe ==> !c.Bind? && !c.Unlink?
    ensures var b := Call.Bind(fd, UnixAddr(p), SOCKADDR_UN_LEN);
      var log := (conv + [b] + probe) + [Call.Close(s), Call.Unlink(p), b];
      multiset(log)[Call.Unlink(p)] == 1 && multiset(log)[b] == 2
  {
    var b := Call.Bind(fd, UnixAddr(p), SOCKADDR_UN_LEN);
    assert b !in conv && b !in probe && Call.Unlink(p) !in conv && Call.Unlink(p) !in probe;
    assert multiset(conv)[b] == 0 && multiset(probe)[b] == 0;
    assert multiset(conv)[Call.Unlink(p)] == 0 && multiset(probe)[Call.Unlink(p)] == 0;
  }

  /* ---- bind ---- */

  /** `bind` leaves the call to the system: the address is not an IPv4
      one of full length, or the table has no rule for it. */
  predicate BindBypassed(addr: Addr, addrlen: int, bindmap: map<string, string>)
  {
    !(addr.SockAddr? && addr.family == AF_INET && addrlen >= SOCKADDR_IN_LEN)
    || FindSockmap(bindmap, addr.ip, addr.port).None?
  }

  /** `bind(fd, addr, addrlen)` on state `o`, with the rule table `bindmap`;
      `linux` says whether the library is built for Linux, where a mode
      is applied with `chmod`. */
  function BindSpec(o: Os, fd: int, addr: Addr, addrlen: int, bindmap: map<string, string>,
                    linux: bool, out: Replies): (c: Outcome)
    requires o.Valid()
    ensures c.os.Valid()
  {
    if BindBypassed(addr, addrlen, bindmap) then RealBindSpec(o, fd, addr, addrlen, out.bind)
    else
      match ParseTarget(FindSockmap(bindmap, addr.ip, addr.port).value)
      case Rejected => Outcome(o.(errno := EADDRNOTAVAIL), -1, [])
      case Parsed(t) => BindTargetSpec(o, fd, t, linux, out)
  }

  /** The rest of `bind` once the rule's target is read: note the blocking
      mode, then bind. */
  function BindTargetSpec(o: Os, fd: int, t: Target, linux: bool, out: Replies): (c: Outcome)
    requires o.Valid()
    ensures c.os.Valid()
  {
    var b := BindBlockingSpec(AfterGetFl(o, fd), fd, BlockingOf(o, fd), t, linux, out);
    Outcome(b.os, b.r, [GetFl(fd)] + b.calls)
  }

  /** Bind the socket to the target's path, then finish; a failure of
      `bind_unix` ends the call. */
  function BindBlockingSpec(o: Os, fd: int, blocking: int, t: Target, linux: bool, out: Replies): (c: Outcome)
    requires o.Valid()
    ensures c.os.Valid()
  {
    var u := BindUnixSpec(o, fd, t.path, out);
    if u.r != 0 then Outcome(u.os, -1, u.calls)
    else
      var f := FinishSpec(u.os, fd, blocking, t, linux, out);
      Outcome(f.os, f.r, u.calls + f.calls)
  }

  /** The end of a converted `bind`: "restore" the blocking mode noted
      before, then apply the target's mode, if any, to the socket file. */
  function FinishSpec(o: Os, fd: int, blocking: int, t: Target, linux: bool, out: Replies): (c: Outcome)
    requires o.Valid()
    ensures c.os.Valid()
  {
    var s := SetBlockingSpec(o, fd, blocking);
    if t.mode < 0 then Outcome(s.os, 0, s.calls)
    else if !linux then Outcome(s.os.(errno := EACCES), -1, s.calls)
    else if out.chmod.Ok? then Outcome(s.os, 0, s.calls + [Call.Chmod(t.path, t.mode)])
    else Outcome(s.os.(errno := EACCES), -1, s.calls + [Call.Chmod(t.path, t.mode)])
  }

  method Bind(k: Kernel, fd: int, addr: Addr, addrlen: int, bindmap: map<string, string>,
              linux: bool, out: Replies) returns (r: int)
    requires k.Valid()
    requires forall v :: v in bindmap.Values ==> '\0' !in v
    modifies k
    ensures k.Valid()
    ensures var c := BindSpec(old(k.State()), fd, addr, addrlen, bindmap, linux, out);
      k.State() == c.os && r == c.r && k.log == old(k.log) + c.calls
  {
    if !(addr.SockAddr? && addr.family == AF_INET && addrlen >= SOCKADDR_IN_LEN) {
      r := k.RealBind(fd, addr, addrlen, out.bind);
      return;
    }
    var sockfile := FindSockmap(bindmap, addr.ip, addr.port);
    if sockfile.None? {
      r := k.RealBind(fd, addr, addrlen, out.bind);
      return;
    }
    var parsed := ScanTarget(sockfile.value);
    if parsed.Rejected? {
      k.errno := EADDRNOTAVAIL;
      return -1;
    }
    r := BindTarget(k, fd, parsed.target, linux, out);
  }

  method BindTarget(k: Kernel, fd: int, t: Target, linux: bool, out: Replies) returns (r: int)
    requires k.Valid()
    modifies k
    ensures k.Valid()
    ensures var c := BindTargetSpec(old(k.State()), fd, t, linux, out);
      k.State() == c.os && r == c.r && k.log == old(k.log) + c.calls
  {
    ghost var o, log0 := k.State(), k.log;
    var blocking := GetBlocking(k, fd);
    r := BindBlocking(k, fd, blocking, t, linux, out);
    Append3(log0, [GetFl(fd)], BindBlockingSpec(AfterGetFl(o, fd), fd, blocking, t, linux, out).calls);
  }

  method BindBlocking(k: Kernel, fd: int, blocking: int, t: Target, linux: bool, out: Replies) returns (r: int)
    requires k.Valid()
    modifies k
    ensures k.Valid()
    ensures var c := BindBlockingSpec(old(k.State()), fd, blocking, t, linux, out);
      k.State() == c.os && r == c.r && k.log == old(k.log) + c.calls
  {
    ghost var o, log0 := k.State(), k.log;
    ghost var uc := BindUnixSpec(o, fd, t.path, out);
    var u := BindUnix(k, fd, t.path, out);
    if u != 0 {
      return -1;
    }
    r := Finish(k, fd, blocking, t, linux, out);
    Append3(log0, uc.calls, FinishSpec(uc.os, fd, blocking, t, linux, out).calls);
  }

  method Finish(k: Kernel, fd: int, blocking: int, t: Target, linux: bool, out: Replies) returns (r: int)
    requires k.Valid()
    modifies k
    ensures k.Valid()
    ensures var c := FinishSpec(old(k.State()), fd, blocking, t, linux, out);
      k.State() == c.os && r == c.r && k.log == old(k.log) + c.calls
  {
    var mode, p := t.mode, t.path;
    var _ := SetBlocking(k, fd, blocking);
    if mode >= 0 {
      if !linux {
        k.errno := EACCES;
        return -1;
      }
      var m := k.Chmod(p, mode, out.chmod);
      if m != 0 {
        k.errno := EACCES;
        return -1;
      }
    }
    return 0;
  }

  /** Without a rule for the address, `bind` is the system's `bind` with
      exactly the caller's descriptor, address and length. */
  lemma BindBypass(o: Os, fd: int, addr: Addr, addrlen: int, bindmap: map<string, string>,
                   linux: bool, out: Replies)
    requires o.Valid() && BindBypassed(addr, addrlen, bindmap)
    ensures var c := BindSpec(o, fd, addr, addrlen, bindmap, linux, out);
      && c.calls == [Call.Bind(fd, addr, addrlen)]
      && c == RealBindSpec(o, fd, addr, addrlen, out.bind)
  {
  }

  /** A rule whose text is not a valid target fails with EADDRNOTAVAIL
      and calls nothing. */
  lemma BindRejected(o: Os, fd: int, addr: Addr, addrlen: int, bindmap: map<string, string>,
                     linux: bool, out: Replies)
    requires o.Valid() && !BindBypassed(addr, addrlen, bindmap)
    requires ParseTarget(FindSockmap(bindmap, addr.ip, addr.port).value).Rejected?
    ensures BindSpec(o, fd, addr, addrlen, bindmap, linux, out) == Outcome(o.(errno := EADDRNOTAVAIL), -1, [])
  {
  }

  /** With a rule whose target is valid, `bind` goes on with that target. */
  lemma BindFollowsRule(o: Os, fd: int, addr: Addr, addrlen: int, bindmap: map<string, string>,
                        linux: bool, out: Replies)
    requires o.Valid() && !BindBypassed(addr, addrlen, bindmap)
    requires ParseTarget(FindSockmap(bindmap, addr.ip, addr.port).value).Parsed?
    ensures BindSpec(o, fd, addr, addrlen, bindmap, linux, out)
      == BindTargetSpec(o, fd, ParseTarget(FindSockmap(bindmap, addr.ip, addr.port).value).target, linux, out)
  {
  }

  /** When `bind_unix` fails the call fails too, and the blocking mode is
      not restored: its calls are the `getblocking` read and those of
      `bind_unix`. */
  lemma BindUnixFails(o: Os, fd: int, t: Target, linux: bool, out: Replies)
    requires o.Valid()
    ensures var u := BindUnixSpec(AfterGetFl(o, fd), fd, t.path, out);
      u.r != 0 ==> BindTargetSpec(o, fd, t, linux, out) == Outcome(u.os, -1, [GetFl(fd)] + u.calls)
  {
  }

  /** "Restoring" the blocking mode inverts it: `getblocking` reports 1
      for a blocking socket and `setblocking` with 1 makes it non-blocking,
      and the other way round. */
  lemma RestoreInverts(o: Os, fd: int, t: Target, linux: bool, out: Replies)
    requires o.Valid() && fd in o.fds
    ensures var c := BindTargetSpec(o, fd, t, linux, out);
      c.r == 0 ==> fd in c.os.fds && c.os.fds[fd].nonblock == !o.fds[fd].nonblock
  {
    var u := BindUnixSpec(o, fd, t.path, out);
    FdSurvives(o, fd, t.path, out);
    if u.r == 0 {
      var s := SetBlockingSpec(u.os, fd, BlockingOf(o, fd));
      assert s.os.fds[fd].nonblock == !o.fds[fd].nonblock;
      assert FinishSpec(u.os, fd, BlockingOf(o, fd), t, linux, out).os.fds == s.os.fds;
      assert BindBlockingSpec(o, fd, BlockingOf(o, fd), t, linux, out).os.fds == s.os.fds;
    }
  }

  /** `bind_unix` never closes the descriptor it binds. */
  lemma FdSurvives(o: Os, fd: int, p: string, out: Replies)
    requires o.Valid() && fd in o.fds
    ensures fd in BindUnixSpec(o, fd, p, out).os.fds
  {
    if |p| + 1 <= SUN_PATH_LEN {
      ConvertKeepsFd(o, fd, out.convert);
    }
  }

  /** A mode in the target is applied to the path with `chmod` as the last
      call; a `chmod` that fails, or a build that cannot set modes, fails
      the call with EACCES after the socket is bound. Without a mode the
      bound socket is a success. */
  lemma ModeApplied(o: Os, fd: int, t: Target, linux: bool, out: Replies)
    requires o.Valid()
    ensures var u := BindUnixSpec(AfterGetFl(o, fd), fd, t.path, out);
      var c := BindTargetSpec(o, fd, t, linux, out);
      u.r == 0 ==>
        && (t.mode < 0 ==> c.r == 0)
        && (t.mode >= 0 && linux ==> c.calls[|c.calls| - 1] == Call.Chmod(t.path, t.mode))
        && (t.mode >= 0 && linux ==> (c.r == 0 <==> out.chmod.Ok?))
        && (t.mode >= 0 && !linux ==> c.r == -1 && Call.Chmod(t.path, t.mode) !in c.calls[|c.calls| - 1..])
        && (c.r != 0 ==> c.r == -1 && c.os.errno == EACCES)
  {
  }

  /* ---- connect ---- */

  /** The path `connect` puts in `sun_path`: the first 108 characters of
      the rule's text, the whole text when it is shorter. */
  function SunPath(s: string): (p: string)
    ensures |p| <= SUN_PATH_LEN && p <= s
    ensures |s| <= SUN_PATH_LEN ==> p == s
  {
    if |s| <= SUN_PATH_LEN then s else s[..SUN_PATH_LEN]
  }

  /** The rule `connect` follows for an address, if any: only IPv4 and
      IPv6 addresses are looked up, both through the IPv4 layout. */
  function ConnectRule(addr: Addr, connectmap: map<string, string>): (r: Option<string>)
    ensures r.Some? ==> addr.SockAddr? && (addr.family == AF_INET || addr.family == AF_INET6)
  {
    if addr.SockAddr? && (addr.family == AF_INET || addr.family == AF_INET6)
    then FindSockmap(connectmap, addr.ip, addr.port)
    else None
  }

  /** `connect(fd, addr, addrlen)` on state `o`, with the rule table
      `connectmap`. */
  function ConnectSpec(o: Os, fd: int, addr: Addr, addrlen: int, connectmap: map<string, string>,
                       out: Replies): (c: Outcome)
    requires o.Valid()
    ensures c.os.Valid()
  {
    match ConnectRule(addr, connectmap)
    case None => RealConnectSpec(o, fd, addr, addrlen, out.connect)
    case Some(sockfile) =>
      var c1 := ConvertSpec(o, fd, out.convert);
      var c2 := RealConnectSpec(c1.os, fd, UnixAddr(SunPath(sockfile)), SOCKADDR_UN_LEN, out.connect);
      Outcome(c2.os, c2.r, c1.calls + c2.calls)
  }

  method Connect(k: Kernel, fd: int, addr: Addr, addrlen: int, connectmap: map<string, string>,
                 out: Replies) returns (r: int)
    requires k.Valid()
    modifies k
    ensures k.Valid()
    ensures var c := ConnectSpec(old(k.State()), fd, addr, addrlen, connectmap, out);
      k.State() == c.os && r == c.r && k.log == old(k.log) + c.calls
  {
    var a, len := addr, addrlen;
    if addr.SockAddr? && (addr.family == AF_INET || addr.family == AF_INET6) {
      var sockfile := FindSockmap(connectmap, addr.ip, addr.port);
      if sockfile.Some? {
        ghost var o, log0 := k.State(), k.log;
        a, len := UnixAddr(SunPath(sockfile.value)), SOCKADDR_UN_LEN;
        var _ := TtuSock(k, fd, out.convert);
        r := k.RealConnect(fd, a, len, out.connect);
        Append3(log0, ConvertSpec(o, fd, out.convert).calls, [Call.Connect(fd, a, len)]);
        return;
      }
    }
    r := k.RealConnect(fd, a, len, out.connect);
  }

  /** With a rule, `connect` converts the socket first and then connects it
      to the Unix address built from the rule's raw text; without one it
      is the system's `connect` with exactly the caller's arguments. */
  lemma ConnectRewrites(o: Os, fd: int, addr: Addr, addrlen: int, connectmap: map<string, string>,
                        out: Replies)
    requires o.Valid()
    ensures var c := ConnectSpec(o, fd, addr, addrlen, connectmap, out);
      && (ConnectRule(addr, connectmap).None? ==> c.calls == [Call.Connect(fd, addr, addrlen)])
      && (ConnectRule(addr, connectmap).Some? ==>
        && |c.calls| == 4
        && c.calls[..3] == ConvertSpec(o, fd, out.convert).calls
        && c.calls[3] == Call.Connect(fd, UnixAddr(SunPath(ConnectRule(addr, connectmap).value)), SOCKADDR_UN_LEN))
      && (c.r == 0 <==> out.connect.Ok?)
  {
  }

  /** A redirected `connect` runs on a blocking socket: the conversion
      puts a new socket, which is blocking, on the descriptor, and
      `connect` never saves or restores the caller's mode. */
  lemma ConnectBlocks(o: Os, fd: int, addr: Addr, addrlen: int, connectmap: map<string, string>,
                      out: Replies)
    requires o.Valid()
    requires ConnectRule(addr, connectmap).Some? && out.convert.Ok? && fd >= 0
    ensures var c := ConnectSpec(o, fd, addr, addrlen, connectmap, out);
      fd in c.os.fds && !c.os.fds[fd].nonblock
  {
    ConvertKeepsFd(o, fd, out.convert);
  }

  /** `connect` does not read a mode out of the rule: a rule written for
      `bind`, such as `0660:/tmp/app.sock`, connects to the path
      `0660:/tmp/app.sock`. */
  lemma ConnectKeepsModeText(o: Os, fd: int, ip: Ipv4, port: port16, out: Replies)
    requires o.Valid()
    ensures var m := map[KeyText("*", "*") := "0660:/tmp/app.sock"];
      var c := ConnectSpec(o, fd, SockAddr(AF_INET, ip, port), SOCKADDR_IN_LEN, m, out);
      c.calls[3] == Call.Connect(fd, UnixAddr("0660:/tmp/app.sock"), SOCKADDR_UN_LEN)
  {
    var t, a := "0660:/tmp/app.sock", SockAddr(AF_INET, ip, port);
    CatchAll(t, ip, port);
    assert ConnectRule(a, map[KeyText("*", "*") := t]) == Some(t);
    assert SunPath(t) == t;
    ConnectRewrites(o, fd, a, SOCKADDR_IN_LEN, map[KeyText("*", "*") := t], out);
  }
}
