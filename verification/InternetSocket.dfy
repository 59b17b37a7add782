/** InternetSocket.cpp: filling in an address, and connecting to it. */
module InternetSockets {
  import opened Posix
  import opened SimpleSockets
  import opened Text

  /** htons and ntohs on a little-endian machine, for the 16-bit numbers they take. */
  function SwapBytes(port: nat): nat {
    port % 0x100 * 0x100 + port / 0x100 % 0x100
  }

  lemma SwapTwice(port: nat)
    requires port < 0x1_0000
    ensures SwapBytes(port) < 0x1_0000 && SwapBytes(SwapBytes(port)) == port
  {
    var lo, hi := port % 0x100, port / 0x100;
    assert hi < 0x100 && port == hi * 0x100 + lo;
    assert SwapBytes(port) == lo * 0x100 + hi;
    assert (lo * 0x100 + hi) % 0x100 == hi && (lo * 0x100 + hi) / 0x100 == lo;
  }

  /** The two bytes change places. */
  lemma SwapOrder(hi: byte, lo: byte)
    ensures SwapBytes(hi * 0x100 + lo) == lo * 0x100 + hi
  {
    assert (hi * 0x100 + lo) % 0x100 == lo && (hi * 0x100 + lo) / 0x100 == hi;
  }

  /** The address that a name stands for: written as an address, or looked up. */
  function Resolve(env: Env, st: KState, address: string): (KState, Option<Quad>) {
    match env.aton(UpTo(address, '\0'))
    case Some(quad) => (st, Some(quad))
    case None => Lookup(env, st)
  }

  /** fillAddress: family and port are set before the name is resolved. */
  function FillSpec(env: Env, st: KState, address: string, port: nat, addr: SockAddr): (KState, SockAddr, Outcome<()>) {
    var begun := addr.(family := AF_INET, port := SwapBytes(port));
    var (st1, quad) := Resolve(env, st, address);
    match quad
    case Some(q) => (st1, begun.(addr := q), Returned(()))
    case None => (st1, begun, Thrown(Plain))
  }

  method FillAddress(k: Kernel, address: string, port: nat, addr: SockAddr) returns (addr': SockAddr, r: Outcome<()>)
    modifies k
    ensures (k.st, addr', r) == FillSpec(k.env, old(k.st), address, port, addr)
  {
    addr' := addr.(family := AF_INET);
    addr' := addr'.(port := SwapBytes(port));
    var simple := k.env.aton(UpTo(address, '\0'));
    if simple.Some? {
      addr' := addr'.(addr := simple.value);
      return addr', Returned(());
    }
    var host := k.Resolve();
    if host.None? {
      return addr', Thrown(Plain);
    }
    addr' := addr'.(addr := host.value);
    return addr', Returned(());
  }

  /** A name that cannot be resolved leaves the structure unchanged, as the documentation promises, exactly
      when family and port were right already. */
  lemma FillFailsExactly(env: Env, st: KState, address: string, port: nat, addr: SockAddr)
    ensures var (st', addr', r) := FillSpec(env, st, address, port, addr);
      && (r.Thrown? <==> Resolve(env, st, address).1.None?)
      && addr'.family == AF_INET && addr'.port == SwapBytes(port)
      && (r.Thrown? ==> (addr' == addr <==> addr.family == AF_INET && addr.port == SwapBytes(port)))
  {
  }

  /** The address that a name stands for, and whether finding it takes an answer: one that inet_aton can read
      stands for what is written, any other for what the answer at `p` says. */
  function Written(env: Env, address: string): Option<Quad> { env.aton(UpTo(address, '\0')) }

  function Looks(env: Env, address: string): nat { if Written(env, address).Some? then 0 else 1 }

  function StandsFor(env: Env, p: nat, address: string): Option<Quad> {
    if Written(env, address).Some? then Written(env, address)
    else if env.at(p).ok then Some(env.at(p).resolved)
    else None
  }

  lemma ResolveMeans(env: Env, st: KState, address: string)
    ensures var (st', quad) := Resolve(env, st, address);
      && st' == st.(pos := st.pos + Looks(env, address))
      && quad == StandsFor(env, st.pos, address)
  {
  }

  /** What fillAddress fills in: an address that inet_aton can read as it is written, without asking the
      kernel; otherwise what the next answer found, or, when it found nothing, no address and a throw. */
  lemma FillMeans(env: Env, st: KState, address: string, port: nat, addr: SockAddr)
    ensures var (st', addr', r) := FillSpec(env, st, address, port, addr);
      var written := env.aton(UpTo(address, '\0'));
      var a := env.at(st.pos);
      && (written.Some? ==> st' == st && addr'.addr == written.value && r == Returned(()))
      && (written.None? ==> st' == st.(pos := st.pos + 1))
      && (written.None? && a.ok ==> addr'.addr == a.resolved && r == Returned(()))
      && (written.None? && !a.ok ==> addr'.addr == addr.addr && r == Thrown(Plain))
  {
  }

  function ConnectSpec(env: Env, st: KState, fd: int, gone: bool, address: string, port: nat): Done {
    var (st1, quad) := Resolve(env, st, address);
    if quad.None? then Done(st1, gone, Thrown(Plain), []) else
    var (st2, r) := Sys(env, st1, Address(fd, true, [SockAddr(AF_INET, SwapBytes(port), quad.value)], 1));
    if r.ret < 0 then Done(st2, gone, Thrown(System(st2.errno)), [])
    else Done(st2, false, Returned(0), [])
  }

  /** Without an address connect throws and makes no call.  With one it makes one call, with this address, and
      the answer decides: granted, it returns and clears the flag, refused, it throws that errno. */
  lemma ConnectAnswers(env: Env, st: KState, fd: int, gone: bool, address: string, port: nat)
    ensures var d := ConnectSpec(env, st, fd, gone, address, port);
      var p := st.pos + Looks(env, address);
      var quad := StandsFor(env, st.pos, address);
      if quad.None? then d == Done(st.(pos := p), gone, Thrown(Plain), [])
      else
        var a := env.at(p);
        && d.st.calls == st.calls + [AddressCall(fd, true, [SockAddr(AF_INET, SwapBytes(port), quad.value)], 1)]
        && d.st.files == st.files && d.st.wires == st.wires && d.st.pos == p + 1
        && (st.IsOpen(fd) && a.ok ==> d.result == Returned(0) && !d.gone)
        && (st.IsOpen(fd) && !a.ok ==> d.result == Thrown(System(a.err)) && d.gone == gone)
        && (!st.IsOpen(fd) ==> d.result == Thrown(System(EBADF)) && d.gone == gone)
  {
    ResolveMeans(env, st, address);
  }

  method Connect(s: SimpleSocket, k: Kernel, address: string, port: nat) returns (r: Outcome<int>)
    modifies k, s`peerDisconnected
    ensures Done(k.st, s.peerDisconnected, r, [])
         == ConnectSpec(k.env, old(k.st), s.descriptor, old(s.peerDisconnected), address, port)
  {
    var addr := SockAddr(0, 0, Quad(0, 0, 0, 0));
    var filled, done := FillAddress(k, address, port, addr);
    if done.Thrown? {
      return Thrown(done.fault);
    }
    var n := k.Do(Address(s.descriptor, true, [filled], 1));
    if n.ret < 0 {
      return Thrown(System(k.st.errno));
    }
    s.peerDisconnected := false;
    return Returned(0);
  }
}
