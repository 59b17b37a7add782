/** SCTPSocket.cpp: a constructor whose second stage can fail, and bind and connect with many addresses. */
module SctpSockets {
  import opened Posix
  import opened SimpleSockets
  import opened InternetSockets

  /** When setInitValues throws, the base class is already built, so its destructor closes the descriptor. */
  method Create(k: Kernel) returns (r: Outcome<SimpleSocket>)
    modifies k
    ensures var (st1, n) := Sys(k.env, old(k.st), Open);
      if n.ret < 0 then k.st == st1 && r == Thrown(System(st1.errno))
      else
        var (st2, m) := Sys(k.env, st1, Control(n.ret));
        if m.ret < 0 then
          k.st == TempFailureRetry(k.env, st2, Close(n.ret)).0 && r == Thrown(System(st2.errno))
        else
          k.st == st2 && r.Returned? && fresh(r.value) && r.value.descriptor == n.ret && !r.value.peerDisconnected
  {
    r := SimpleSocket.Create(k);
    if r.Returned? {
      var m := k.Do(Control(r.value.descriptor));
      if m.ret < 0 {
        var thrown := System(k.st.errno);
        r.value.Destroy(k);
        return Thrown(thrown);
      }
    }
  }

  /** The loop over the addresses: each is resolved in turn, up to the first that cannot be. */
  function ResolveAll(env: Env, st: KState, addresses: seq<string>, port: nat): (r: (KState, Option<seq<SockAddr>>))
    ensures r.1.Some? ==> |r.1.value| == |addresses|
    decreases |addresses|
  {
    if addresses == [] then (st, Some([])) else
    var (st1, quad) := Resolve(env, st, addresses[0]);
    if quad.None? then (st1, None) else
    var (st2, rest) := ResolveAll(env, st1, addresses[1..], port);
    (st2, if rest.None? then None else Some([SockAddr(AF_INET, SwapBytes(port), quad.value)] + rest.value))
  }

  function BindOrConnectSpec(env: Env, st: KState, fd: int, gone: bool, connecting: bool,
                             addresses: seq<string>, port: nat): Done {
    var (st1, list) := ResolveAll(env, st, addresses, port);
    if list.None? then Done(st1, gone, Thrown(Plain), []) else
    var (st2, r) := Sys(env, st1, Address(fd, connecting, list.value, Narrow(|addresses|)));
    if r.ret < 0 then Done(st2, gone, Thrown(System(st2.errno)), [])
    else Done(st2, gone && !connecting, Returned(r.ret), [])
  }

  lemma ResolveAllUnfolds(env: Env, st: KState, addresses: seq<string>, i: nat, port: nat)
    requires i <= |addresses|
    ensures ResolveAll(env, st, addresses[i..], port) ==
            if i == |addresses| then (st, Some([]))
            else
              var (st1, quad) := Resolve(env, st, addresses[i]);
              if quad.None? then (st1, None)
              else
                var (st2, rest) := ResolveAll(env, st1, addresses[i + 1..], port);
                (st2, if rest.None? then None else Some([SockAddr(AF_INET, SwapBytes(port), quad.value)] + rest.value))
  {
    if i < |addresses| {
      assert addresses[i..][0] == addresses[i] && addresses[i..][1..] == addresses[i + 1..];
    }
  }

  /** The loop with which both bind and connect fill their vector. */
  method FillAll(k: Kernel, addresses: seq<string>, port: nat) returns (dest: seq<SockAddr>, r: Outcome<()>)
    modifies k
    ensures var (st, list) := ResolveAll(k.env, old(k.st), addresses, port);
      && k.st == st
      && (list.Some? ==> r == Returned(()) && dest == list.value)
      && (list.None? ==> r == Thrown(Plain))
  {
    hide ResolveAll;
    dest := seq(|addresses|, _ => SockAddr(0, 0, Quad(0, 0, 0, 0)));
    assert addresses[0..] == addresses;
    ghost var all := ResolveAll(k.env, k.st, addresses, port).1;
    assert all.Some? ==> dest[..0] + all.value == all.value;
    for i := 0 to |addresses|
      invariant |dest| == |addresses|
      invariant var (st, rest) := ResolveAll(k.env, k.st, addresses[i..], port);
        ResolveAll(k.env, old(k.st), addresses, port)
          == (st, if rest.None? then None else Some(dest[..i] + rest.value))
    {
      ResolveAllUnfolds(k.env, k.st, addresses, i, port);
      var filled, done := FillAddress(k, addresses[i], port, dest[i]);
      if done.Thrown? {
        return dest, Thrown(done.fault);
      }
      ghost var before := dest[..i];
      dest := dest[i := filled];
      assert dest[..i + 1] == before + [filled];
      ghost var rest := ResolveAll(k.env, k.st, addresses[i + 1..], port).1;
      if rest.Some? {
        assert before + ([filled] + rest.value) == dest[..i + 1] + rest.value;
      }
    }
    ResolveAllUnfolds(k.env, k.st, addresses, |addresses|, port);
    assert dest[..|addresses|] + [] == dest;
    return dest, Returned(());
  }

  method Bind(s: SimpleSocket, k: Kernel, addresses: seq<string>, port: nat) returns (r: Outcome<int>)
    modifies k
    ensures Done(k.st, s.peerDisconnected, r, [])
         == BindOrConnectSpec(k.env, old(k.st), s.descriptor, s.peerDisconnected, false, addresses, port)
  {
    var dest, done := FillAll(k, addresses, port);
    if done.Thrown? {
      return Thrown(done.fault);
    }
    var n := k.Do(Address(s.descriptor, false, dest, Narrow(|addresses|)));
    if n.ret < 0 {
      return Thrown(System(k.st.errno));
    }
    return Returned(n.ret);
  }

  method Connect(s: SimpleSocket, k: Kernel, addresses: seq<string>, port: nat) returns (r: Outcome<int>)
    modifies k, s`peerDisconnected
    ensures Done(k.st, s.peerDisconnected, r, [])
         == BindOrConnectSpec(k.env, old(k.st), s.descriptor, old(s.peerDisconnected), true, addresses, port)
  {
    var dest, done := FillAll(k, addresses, port);
    if done.Thrown? {
      return Thrown(done.fault);
    }
    var n := k.Do(Address(s.descriptor, true, dest, Narrow(|addresses|)));
    if n.ret < 0 {
      return Thrown(System(k.st.errno));
    }
    s.peerDisconnected := false;
    return Returned(n.ret);
  }

  /** The state in which the `i`-th name is resolved when those before it could be. */
  function Before(env: Env, st: KState, addresses: seq<string>, i: nat): KState
    requires i <= |addresses|
    decreases i
  {
    if i == 0 then st else Before(env, Resolve(env, st, addresses[0]).0, addresses[1..], i - 1)
  }

  function ResolvedAt(env: Env, st: KState, addresses: seq<string>, i: nat): Option<Quad>
    requires i < |addresses|
  {
    Resolve(env, Before(env, st, addresses, i), addresses[i]).1
  }

  lemma {:induction false} ResolveAllEach(env: Env, st: KState, addresses: seq<string>, port: nat)
    ensures var (st', list) := ResolveAll(env, st, addresses, port);
      && st'.calls == st.calls
      && (list.Some? <==> forall i :: 0 <= i < |addresses| ==> ResolvedAt(env, st, addresses, i).Some?)
      && (list.Some? ==> forall i :: 0 <= i < |addresses| ==>
            && ResolvedAt(env, st, addresses, i) == Some(list.value[i].addr)
            && list.value[i].family == AF_INET && list.value[i].port == SwapBytes(port))
    decreases |addresses|
  {
    if addresses != [] {
      var (st1, quad) := Resolve(env, st, addresses[0]);
      var rest := addresses[1..];
      ResolveAllEach(env, st1, rest, port);
      assert ResolvedAt(env, st, addresses, 0) == quad;
      forall i | 0 < i < |addresses|
        ensures ResolvedAt(env, st, addresses, i) == ResolvedAt(env, st1, rest, i - 1)
      {
      }
      if quad.Some? && forall i :: 0 <= i < |addresses| ==> ResolvedAt(env, st, addresses, i).Some? {
        forall i | 0 <= i < |rest| ensures ResolvedAt(env, st1, rest, i).Some? {
          assert ResolvedAt(env, st, addresses, i + 1).Some?;
        }
      }
    }
  }

  /** How many of the first `i` names inet_aton cannot read, so that they take a lookup each. */
  function LooksBefore(env: Env, addresses: seq<string>, i: nat): nat
    requires i <= |addresses|
    decreases i
  {
    if i == 0 then 0 else Looks(env, addresses[0]) + LooksBefore(env, addresses[1..], i - 1)
  }

  /** What the `i`-th name stands for: as written, or as its own lookup answers, the one after those of the names
      before it. */
  function MeaningOf(env: Env, p: nat, addresses: seq<string>, i: nat): Option<Quad>
    requires i < |addresses|
  {
    StandsFor(env, p + LooksBefore(env, addresses, i), addresses[i])
  }

  lemma {:induction false} BeforeLooks(env: Env, st: KState, addresses: seq<string>, i: nat)
    requires i <= |addresses|
    ensures Before(env, st, addresses, i) == st.(pos := st.pos + LooksBefore(env, addresses, i))
    decreases i
  {
    if i > 0 {
      ResolveMeans(env, st, addresses[0]);
      BeforeLooks(env, Resolve(env, st, addresses[0]).0, addresses[1..], i - 1);
    }
  }

  lemma ResolvedMeans(env: Env, st: KState, addresses: seq<string>, i: nat)
    requires i < |addresses|
    ensures ResolvedAt(env, st, addresses, i) == MeaningOf(env, st.pos, addresses, i)
  {
    hide Resolve;
    BeforeLooks(env, st, addresses, i);
    ResolveMeans(env, Before(env, st, addresses, i), addresses[i]);
  }

  lemma {:induction false} ResolveAllLooks(env: Env, st: KState, addresses: seq<string>, port: nat)
    ensures var (st', list) := ResolveAll(env, st, addresses, port);
      list.Some? ==> st' == st.(pos := st.pos + LooksBefore(env, addresses, |addresses|))
    decreases |addresses|
  {
    if addresses != [] {
      ResolveMeans(env, st, addresses[0]);
      ResolveAllLooks(env, Resolve(env, st, addresses[0]).0, addresses[1..], port);
    }
  }

  /** All or nothing: one kernel call with every address in order and the same port, or, when some name stands
      for no address, no call, a throw, and the peer flag as it was.  The answer to the call, which comes after
      the lookups, decides the rest. */
  lemma AllOrNothing(env: Env, st: KState, fd: int, gone: bool, connecting: bool, addresses: seq<string>, port: nat)
    ensures var d := BindOrConnectSpec(env, st, fd, gone, connecting, addresses, port);
      if exists i :: 0 <= i < |addresses| && MeaningOf(env, st.pos, addresses, i).None? then
        d.st.calls == st.calls && d.gone == gone && d.result == Thrown(Plain)
      else
        && |d.st.calls| == |st.calls| + 1 && d.st.calls[..|st.calls|] == st.calls
        && (var call := d.st.calls[|st.calls|];
            && call.fd == fd && call.connecting == connecting && |call.list| == |addresses|
            && (call.count == |addresses| <==> |addresses| <= INT_MAX)
            && forall i :: 0 <= i < |addresses| ==>
                 && call.list[i].family == AF_INET && call.list[i].port == SwapBytes(port)
                 && MeaningOf(env, st.pos, addresses, i) == Some(call.list[i].addr))
        && (var a := env.at(st.pos + LooksBefore(env, addresses, |addresses|));
            d.result == if !st.IsOpen(fd) then Thrown(System(EBADF))
                        else if a.ok then Returned(0)
                        else Thrown(System(a.err)))
        && d.gone == (gone && !(connecting && d.result.Returned?))
  {
    hide Resolve, ResolveAll, ResolvedAt, MeaningOf, LooksBefore, Sys, Narrow;
    ResolveAllEach(env, st, addresses, port);
    forall i | 0 <= i < |addresses|
      ensures ResolvedAt(env, st, addresses, i) == MeaningOf(env, st.pos, addresses, i)
    {
      ResolvedMeans(env, st, addresses, i);
    }
    ResolveAllLooks(env, st, addresses, port);
    var (st1, list) := ResolveAll(env, st, addresses, port);
    if list.Some? {
      AddressCallLogged(env, st1, fd, connecting, list.value, Narrow(|addresses|));
    }
  }

  lemma AddressCallLogged(env: Env, st: KState, fd: int, connecting: bool, list: seq<SockAddr>, count: int)
    ensures var (st1, r) := Sys(env, st, Address(fd, connecting, list, count));
      var a := env.at(st.pos);
      && st1.calls == st.calls + [AddressCall(fd, connecting, list, count)]
      && (st.IsOpen(fd) && a.ok ==> r.ret == 0)
      && (st.IsOpen(fd) && !a.ok ==> r.ret < 0 && st1.errno == a.err)
      && (!st.IsOpen(fd) ==> r.ret < 0 && st1.errno == EBADF)
  {
  }

  /** The connect of one address is the connect of a list of one. */
  lemma OneAddressIsConnect(env: Env, st: KState, fd: int, gone: bool, address: string, port: nat)
    ensures BindOrConnectSpec(env, st, fd, gone, true, [address], port) == ConnectSpec(env, st, fd, gone, address, port)
  {
    var (st1, quad) := Resolve(env, st, address);
    assert [address][1..] == [];
    assert ResolveAll(env, st1, [], port) == (st1, Some([]));
    if quad.Some? {
      var list := [SockAddr(AF_INET, SwapBytes(port), quad.value)];
      assert list + [] == list;
      assert ResolveAll(env, st, [address], port) == (st1, Some(list));
    } else {
      assert ResolveAll(env, st, [address], port) == (st1, None);
    }
  }

  // ---- timed receive

  /** `info` is what the caller's reference parameters for stream and flag hold. */
  function ReceiveOnce(env: Platform, st: KState, fd: int, gone: bool, len: nat, info: MessageInfo): From<MessageInfo> {
    var (st1, r) := Sys(env, st, Recv(fd, len));
    var ret := Narrow(r.ret);
    if ret < 0 then From(st1, gone, Thrown(System(st1.errno)), r.data, info)
    else From(st1, gone, Returned(ret), r.data, r.info)
  }

  function TimedReceiveSpec(env: Platform, st: KState, fd: int, gone: bool, len: nat, info: MessageInfo)
    : From<MessageInfo>
  {
    var (st1, p) := TempFailureRetry(env, st, Poll(fd));
    if p.ret == 0 then From(st1, gone, Returned(0), [], info)
    else if p.ret < 0 then From(st1, gone, Thrown(System(st1.errno)), [], info)
    else
      var gone1 := gone || p.revents.hangup;
      if p.revents.Input() then ReceiveOnce(env, st1, fd, gone1, len, info)
      else From(st1, gone1, Returned(0), [], info)
  }

  /** One attempt, which the answer decides.  Granted, it takes the front of the channel and tells how much
      it took, and the stream and the flags of the message.  Failed, also when it was interrupted, it throws that
      errno and nothing else changes. */
  lemma ReceiveOnceAnswers(env: Platform, st: KState, fd: int, gone: bool, len: nat, info: MessageInfo)
    ensures var d := ReceiveOnce(env, st, fd, gone, len, info);
      var a := env.at(st.pos);
      && d.gone == gone && d.st.pos == st.pos + 1
      && (d.result.Thrown? ==> d.source == info)
      && (!st.IsOpen(fd) ==> d.result == Thrown(System(EBADF)) && d.data == [] && d.st.wires == st.wires)
      && (st.IsOpen(fd) && !a.ok ==> d.result == Thrown(System(a.err)) && d.data == [] && d.st.wires == st.wires)
      && (st.IsOpen(fd) && a.ok ==>
            var w := env.incoming(st.files.table[fd]);
            var n := |d.data|;
            && n == Min(a.count, Min(len, |st.Wire(w)|)) && d.data + d.st.Wire(w) == st.Wire(w)
            && (forall c :: c != w ==> d.st.Wire(c) == st.Wire(c))
            && (n <= INT_MAX ==> d.result == Returned(n))
            && d.result == (if n % 0x1_0000_0000 <= INT_MAX then Returned(n % 0x1_0000_0000)
                            else Thrown(System(st.errno)))
            && (d.result.Returned? ==> d.source.stream == a.info.stream && d.source.flags == a.info.flags))
  {
    hide Sys, Narrow;
    RecvAttempt(env, st, fd, len);
    NarrowWraps(|Sys(env, st, Recv(fd, len)).1.data|);
  }

  method Receive(s: SimpleSocket, k: Kernel, data: array<byte>, info: MessageInfo)
    returns (r: Outcome<int>, info': MessageInfo)
    modifies k, data
    ensures var d := ReceiveOnce(k.env, old(k.st), s.descriptor, s.peerDisconnected, data.Length, info);
      && |d.data| <= data.Length
      && From(k.st, s.peerDisconnected, r, d.data, info') == d
      && data[..] == d.data + old(data[..])[|d.data|..]
  {
    var n := k.Do(Recv(s.descriptor, data.Length));
    CopyOut(n.data, data);
    var ret := Narrow(n.ret);
    if ret < 0 {
      return Thrown(System(k.st.errno)), info;
    }
    return Returned(ret), n.info;
  }

  method TimedReceive(s: SimpleSocket, k: Kernel, data: array<byte>, info: MessageInfo)
    returns (r: Outcome<int>, info': MessageInfo)
    modifies k, data, s`peerDisconnected
    ensures var d := TimedReceiveSpec(k.env, old(k.st), s.descriptor, old(s.peerDisconnected), data.Length, info);
      && |d.data| <= data.Length
      && From(k.st, s.peerDisconnected, r, d.data, info') == d
      && data[..] == d.data + old(data[..])[|d.data|..]
  {
    hide Sys, TempFailureRetry, ReceiveOnce;
    var p := k.Retry(Poll(s.descriptor));
    if p.ret == 0 {
      return Returned(0), info;
    }
    if p.ret < 0 {
      return Thrown(System(k.st.errno)), info;
    }
    if p.revents.hangup {
      s.peerDisconnected := true;
    }
    if p.revents.readable || p.revents.urgent {
      r, info' := Receive(s, k, data, info);
      return;
    }
    return Returned(0), info;
  }
}
