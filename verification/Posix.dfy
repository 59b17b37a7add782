/**
 The operating system as the library sees it.  Every decision the kernel takes is read from a
 stream of answers (an `Env`), so a statement about all `Env` values is a statement about every
 behaviour of the kernel.  `Sys` is one system call, `TempFailureRetry` is the macro of
 TempFailure.h, and class `Kernel` is the machine the library calls.
 */
module Posix {
  const INT_MAX := 0x7fff_ffff

  type byte = b: int | 0 <= b < 256

  datatype Option<+T> = None | Some(value: T)

  /** What a C++ function does: it returns, or it throws.  `Plain` is a SocketException without a
      system message, `Length` is the std::length_error of std::string, `Undefined` is undefined behaviour. */
  datatype Fault = System(err: Errno) | Plain | Length | Undefined
  datatype Outcome<+T> = Returned(value: T) | Thrown(fault: Fault)

  datatype Errno = EINTR | EBADF | ECONNRESET | ECONNREFUSED | Other(code: int)

  const AF_INET := 2

  /** An IPv4 address, and a sockaddr_in, with port and address in network byte order. */
  datatype Quad = Quad(a: byte, b: byte, c: byte, d: byte)
  datatype SockAddr = SockAddr(family: nat, port: nat, addr: Quad)

  /** What an SCTP receive learns besides the data: the stream and the flags of the message. */
  datatype MessageInfo = MessageInfo(stream: nat, flags: nat)

  /** Where a datagram came from: an Internet address or the bytes and length of a Unix one. */
  datatype Source = Source(inet: SockAddr, sunPath: string, length: nat)
  datatype Datagram = Datagram(payload: seq<byte>, source: Source)

  /** One decision of the kernel.  Each system call reads the parts that concern it. */
  datatype Answer = Answer(
    ok: bool,                                 // success, or failure with `err`
    err: Errno,
    count: nat,                               // bytes moved, or descriptors found ready
    number: nat,                              // number for a new descriptor
    freed: bool,                              // an interrupted close gave the descriptor back
    readable: bool, urgent: bool, hangup: bool, // POLLIN, POLLPRI, POLLRDHUP
    resolved: Quad,                           // what a host name lookup found
    info: MessageInfo)                        // the SCTP message that is received
  {
    predicate Interrupted() { !ok && err == EINTR }

    /** An answer after which a loop of the library may be no further than before. */
    predicate Stalls() { Interrupted() || (ok && !(1 <= count <= INT_MAX)) }
  }

  /** `at` gives the answers in order.  `retries` says whether TEMP_FAILURE_RETRY loops or is the
      fallback that evaluates once.  `patience` bounds how many stalling answers come in a row.
      `outgoing` and `incoming` name the byte channels of each incarnation of a descriptor. */
  datatype Env = Env(at: nat -> Answer, patience: nat -> nat, retries: bool,
                     outgoing: nat -> nat, incoming: nat -> nat,
                     aton: string -> Option<Quad>)
  {
    ghost predicate Fair() {
      forall p: nat :: at(p).Stalls() ==> patience(p + 1) < patience(p)
    }
  }

  const NO_INFO := MessageInfo(0, 0)

  const SUCCESS := Answer(true, EBADF, 1, 0, true, true, false, false, Quad(0, 0, 0, 0), NO_INFO)

  type Platform = e: Env | e.Fair()
    ghost witness Env(_ => SUCCESS, _ => 0, true, i => i, i => i, _ => None)

  /** The descriptor table: each open number with its incarnation.  Incarnations are numbered in
      the order of opening and never reused; `closed` lists them in the order of closing. */
  datatype Files = Files(table: map<int, nat>, next: nat, closed: seq<nat>)
  {
    function Open(fd: nat): Files
    {
      Files(table[fd := next], next + 1, closed)
    }

    function Free(fd: int): Files
      requires fd in table
    {
      Files(table - {fd}, next, closed + [table[fd]])
    }
  }

  datatype AddressCall = AddressCall(fd: int, connecting: bool, list: seq<SockAddr>, count: int)

  /** `pos` is the next answer; `wires` holds the bytes under way on each channel, `inbox` the
      datagrams waiting at each incarnation, `calls` the bind and connect calls made so far, with or without success. */
  datatype KState = KState(pos: nat, errno: Errno, files: Files,
                           wires: map<nat, seq<byte>>, inbox: map<nat, seq<Datagram>>,
                           calls: seq<AddressCall>)
  {
    function Wire(c: nat): seq<byte> { if c in wires then wires[c] else [] }
    function Inbox(i: nat): seq<Datagram> { if i in inbox then inbox[i] else [] }
    predicate IsOpen(fd: int) { fd in files.table }
    function Fails(e: Errno): KState { this.(pos := pos + 1, errno := e) }
    function Succeeds(): KState { this.(pos := pos + 1) }
  }

  datatype Call =
    | Open                                    // socket and accept
    | Close(fd: int)
    | Send(fd: int, data: seq<byte>)
    | Recv(fd: int, len: nat)
    | RecvFrom(fd: int, len: nat)
    | Poll(fd: int)
    | Control(fd: int)                        // setsockopt, ioctl, connect to AF_UNSPEC
    | Address(fd: int, connecting: bool, list: seq<SockAddr>, count: int)

  datatype Revents = Revents(readable: bool, urgent: bool, hangup: bool)
  {
    predicate Input() { readable || urgent }
  }

  datatype Reply = Reply(ret: int, data: seq<byte>, source: Option<Source>, revents: Revents, info: MessageInfo)

  const NO_EVENTS := Revents(false, false, false)

  function Ret(ret: int): Reply { Reply(ret, [], None, NO_EVENTS, NO_INFO) }

  function Min(a: nat, b: nat): nat { if a < b then a else b }

  /** One system call.  `ret` is the result before any conversion to int. */
  function Sys(env: Env, st: KState, c: Call): (r: (KState, Reply))
    ensures r.0.pos == st.pos + 1
    ensures r.1.ret >= -1
    ensures r.1.ret < 0 && r.0.errno == EINTR ==> env.at(st.pos).Interrupted()
    ensures !c.Close? && !c.Open? ==> r.0.files == st.files
  {
    var a := env.at(st.pos);
    if c.Open? then
      if !a.ok then (st.Fails(a.err), Ret(-1))
      else if st.IsOpen(a.number) then (st.Fails(Other(24)), Ret(-1))
      else (st.Succeeds().(files := st.files.Open(a.number)), Ret(a.number))
    else if c.Address? then
      var made := st.(calls := st.calls + [AddressCall(c.fd, c.connecting, c.list, c.count)]);
      if !st.IsOpen(c.fd) then (made.Fails(EBADF), Ret(-1))
      else if !a.ok then (made.Fails(a.err), Ret(-1))
      else (made.Succeeds(), Ret(0))
    else if !st.IsOpen(c.fd) then (st.Fails(EBADF), Ret(-1))
    else if c.Close? then
      if a.Interrupted() && !a.freed then (st.Fails(EINTR), Ret(-1))
      else
        var gone := st.(files := st.files.Free(c.fd));
        if a.ok then (gone.Succeeds(), Ret(0)) else (gone.Fails(a.err), Ret(-1))
    else if !a.ok then (st.Fails(a.err), Ret(-1))
    else
      var inc := st.files.table[c.fd];
      match c
      case Send(_, data) =>
        var n := Min(a.count, |data|);
        var w := env.outgoing(inc);
        (st.Succeeds().(wires := st.wires[w := st.Wire(w) + data[..n]]), Ret(n))
      case Recv(_, len) =>
        var w := env.incoming(inc);
        var n := Min(a.count, Min(len, |st.Wire(w)|));
        (st.Succeeds().(wires := st.wires[w := st.Wire(w)[n..]]),
         Reply(n, st.Wire(w)[..n], None, NO_EVENTS, a.info))
      case RecvFrom(_, len) =>
        var queue := st.Inbox(inc);
        if queue == [] then (st.Fails(Other(11)), Ret(-1)) else
        var n := Min(len, |queue[0].payload|);
        (st.Succeeds().(inbox := st.inbox[inc := queue[1..]]),
         Reply(n, queue[0].payload[..n], Some(queue[0].source), NO_EVENTS, NO_INFO))
      case Poll(_) =>
        (st.Succeeds(), if a.count == 0 then Ret(0)
                        else Reply(1, [], None, Revents(a.readable, a.urgent, a.hangup), NO_INFO))
      case Control(_) => (st.Succeeds(), Ret(0))
  }

  /** The macro TEMP_FAILURE_RETRY around one system call, in both its forms. */
  function TempFailureRetry(env: Platform, st: KState, c: Call): (r: (KState, Reply))
    ensures r.0.pos > st.pos
    ensures r.1.ret >= -1
    decreases env.patience(st.pos)
  {
    var (st1, r) := Sys(env, st, c);
    if env.retries && r.ret < 0 && st1.errno == EINTR then TempFailureRetry(env, st1, c)
    else (st1, r)
  }

  /** The state in which the last attempt of a retried call is made: an interrupted call of this
      kind has no effect beyond errno and the answers used up. */
  function Settled(env: Platform, st: KState, c: Call): (q: KState)
    requires !c.Close? && !c.Address?
    ensures q == st.(pos := q.pos, errno := q.errno)
    ensures st.pos <= q.pos
    ensures env.patience(q.pos) <= env.patience(st.pos)
    ensures TempFailureRetry(env, st, c) == Sys(env, q, c)
    ensures env.retries ==> var (s, r) := Sys(env, q, c); !(r.ret < 0 && s.errno == EINTR)
    ensures !env.retries ==> q == st
    ensures forall p: nat :: st.pos <= p < q.pos ==> env.at(p).Interrupted()
    decreases env.patience(st.pos)
  {
    var (st1, r) := Sys(env, st, c);
    if env.retries && r.ret < 0 && st1.errno == EINTR then Settled(env, st1, c) else st
  }

  /** gethostbyname: what it finds, or nothing. */
  function Lookup(env: Env, st: KState): (KState, Option<Quad>) {
    var a := env.at(st.pos);
    (st.(pos := st.pos + 1), if a.ok then Some(a.resolved) else None)
  }

  /** Conversion of a 64-bit count to a 32-bit int. */
  function Narrow(x: int): (r: int)
    ensures -INT_MAX - 1 <= r <= INT_MAX
    ensures (r - x) % 0x1_0000_0000 == 0
    ensures -INT_MAX - 1 <= x <= INT_MAX ==> r == x
    ensures x > INT_MAX ==> r < x
    ensures INT_MAX < x < 0x1_0000_0000 ==> r < 0
  {
    (x + 0x8000_0000) % 0x1_0000_0000 - 0x8000_0000
  }

  /** What is left open, and what the kernel records, when a retried close is over. */
  lemma {:induction false} CloseSettles(env: Platform, st: KState, fd: int)
    ensures var t := TempFailureRetry(env, st, Close(fd)).0;
      && (env.retries ==> !t.IsOpen(fd))
      && (!env.retries ==>
            (t.IsOpen(fd) <==> st.IsOpen(fd) && env.at(st.pos).Interrupted() && !env.at(st.pos).freed))
      && t == st.(pos := t.pos, errno := t.errno, files := t.files)
      && t.files == (if st.IsOpen(fd) && !t.IsOpen(fd) then st.files.Free(fd) else st.files)
    decreases env.patience(st.pos)
  {
    var (st1, r) := Sys(env, st, Close(fd));
    if env.retries && r.ret < 0 && st1.errno == EINTR {
      CloseSettles(env, st1, fd);
    }
  }

  /** The steps from `p` to the first answer that does not stall. */
  ghost function Wait(at: nat -> Answer, p: nat, q: nat): nat
    requires p <= q && !at(q).Stalls()
    decreases q - p
  {
    if !at(p).Stalls() then 0 else 1 + Wait(at, p + 1, q)
  }

  lemma {:induction false} WaitUnique(at: nat -> Answer, p: nat, q: nat, q': nat)
    requires p <= q && !at(q).Stalls() && p <= q' && !at(q').Stalls()
    ensures Wait(at, p, q) == Wait(at, p, q')
    decreases q - p
  {
    if at(p).Stalls() {
      WaitUnique(at, p + 1, q, q');
    }
  }

  ghost predicate MovesOn(at: nat -> Answer, p: nat) {
    exists q: nat :: p <= q && !at(q).Stalls()
  }

  ghost predicate FairWith(env: Env, patience: nat -> nat) {
    env.(patience := patience).Fair()
  }

  lemma {:induction false} FairMovesOn(env: Env, p: nat)
    requires env.Fair()
    ensures MovesOn(env.at, p)
    decreases env.patience(p)
  {
    if env.at(p).Stalls() {
      FairMovesOn(env, p + 1);
      var q: nat :| p + 1 <= q && !env.at(q).Stalls();
    }
  }

  /** Being fair is no more than this: no stream of answers stalls for ever. */
  lemma FairExactly(env: Env)
    ensures (forall p: nat :: MovesOn(env.at, p)) <==> exists patience :: FairWith(env, patience)
  {
    var at := env.at;
    if exists patience :: FairWith(env, patience) {
      var patience :| FairWith(env, patience);
      forall p: nat ensures MovesOn(at, p) {
        FairMovesOn(env.(patience := patience), p);
      }
    }
    if forall p: nat :: MovesOn(at, p) {
      var ready: nat -> nat := (p: nat) => assert MovesOn(at, p); var q: nat :| p <= q && !at(q).Stalls(); q;
      assert forall p: nat :: MovesOn(at, p) ==> p <= ready(p) && !at(ready(p)).Stalls();
      var patience: nat -> nat := (p: nat) => assert MovesOn(at, p); Wait(at, p, ready(p));
      forall p: nat | at(p).Stalls() ensures patience(p + 1) < patience(p) {
        assert MovesOn(at, p) && MovesOn(at, p + 1);
        WaitUnique(at, p + 1, ready(p), ready(p + 1));
      }
      assert FairWith(env, patience);
    }
  }

  /** The kernel as a machine with mutable state. */
  class Kernel {
    const env: Platform
    var st: KState

    constructor (env: Platform, st: KState)
      ensures this.env == env && this.st == st
    {
      this.env, this.st := env, st;
    }

    method Do(c: Call) returns (r: Reply)
      modifies this
      ensures (st, r) == Sys(env, old(st), c)
    {
      var (st1, r1) := Sys(env, st, c);
      st, r := st1, r1;
    }

    method Resolve() returns (r: Option<Quad>)
      modifies this
      ensures (st, r) == Lookup(env, old(st))
    {
      var (st1, r1) := Lookup(env, st);
      st, r := st1, r1;
    }

    /** The loop the macro expands to. */
    method Retry(c: Call) returns (r: Reply)
      modifies this
      ensures (st, r) == TempFailureRetry(env, old(st), c)
    {
      hide Sys;
      r := Do(c);
      while env.retries && r.ret < 0 && st.errno == EINTR
        invariant TempFailureRetry(env, old(st), c)
               == if env.retries && r.ret < 0 && st.errno == EINTR then TempFailureRetry(env, st, c) else (st, r)
        invariant st.pos > 0 && (r.ret < 0 && st.errno == EINTR ==> env.at(st.pos - 1).Interrupted())
        decreases env.patience(st.pos - 1)
      {
        r := Do(c);
      }
    }
  }
}
