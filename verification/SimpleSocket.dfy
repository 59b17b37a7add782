/** SimpleSocket.cpp: the owner of one descriptor, plain send and receive, and the peer flag. */
module SimpleSockets {
  import opened Posix

  /** The end of a call on a socket: kernel, peer flag, what the caller gets, and the bytes that were
      written to the front of the caller's buffer.  A void function returns 0. */
  datatype Done = Done(st: KState, gone: bool, result: Outcome<int>, data: seq<byte>)

  /** The end of a receive that also tells something through the caller's reference parameters. */
  datatype From<S> = From(st: KState, gone: bool, result: Outcome<int>, data: seq<byte>, source: S)

  function SendSpec(env: Platform, st: KState, fd: int, gone: bool, buffer: seq<byte>): Done {
    var (st1, r) := TempFailureRetry(env, st, Send(fd, buffer));
    var sent := Narrow(r.ret);
    if sent >= 0 then Done(st1, gone, Returned(sent), [])
    else if st1.errno == ECONNRESET || st1.errno == ECONNREFUSED then Done(st1, true, Returned(sent), [])
    else Done(st1, gone, Thrown(System(st1.errno)), [])
  }

  function ReceiveSpec(env: Platform, st: KState, fd: int, gone: bool, len: nat): Done {
    var (st1, r) := TempFailureRetry(env, st, Recv(fd, len));
    var ret := Narrow(r.ret);
    Done(st1, gone, if ret < 0 then Thrown(System(st1.errno)) else Returned(ret), r.data)
  }

  function TimedReceiveSpec(env: Platform, st: KState, fd: int, gone: bool, len: nat): Done {
    var (st1, p) := TempFailureRetry(env, st, Poll(fd));
    if p.ret == 0 then Done(st1, gone, Returned(0), [])
    else if p.ret < 0 then Done(st1, gone, Thrown(System(st1.errno)), [])
    else
      var gone1 := gone || p.revents.hangup;
      if p.revents.Input() then ReceiveSpec(env, st1, fd, gone1, len)
      else Done(st1, gone1, Returned(p.ret), [])
  }

  function DisconnectSpec(env: Platform, st: KState, fd: int, gone: bool): Done {
    var (st1, r) := Sys(env, st, Control(fd));
    if r.ret >= 0 then Done(st1, gone, Returned(0), [])
    else if st1.errno == ECONNRESET then Done(st1, false, Returned(0), [])
    else Done(st1, gone, Thrown(System(st1.errno)), [])
  }

  // ---- what the caller is told, from the kernel's answer to the last attempt

  predicate PeerLost(e: Errno) { e == ECONNRESET || e == ECONNREFUSED }

  /** A send that fails returns -1 exactly when the peer is lost, and throws the errno of the answer
      otherwise; one that succeeds returns the number of bytes the kernel took.  A number that does not fit
      into an int and comes out negative is mistaken for a failure, with the errno of some earlier call. */
  lemma SendAnswers(env: Platform, st: KState, fd: int, gone: bool, data: seq<byte>)
    ensures var d := SendSpec(env, st, fd, gone, data);
      var q := Settled(env, st, Send(fd, data));
      var a := env.at(q.pos);
      var n := Min(a.count, |data|);
      && d.st.pos == q.pos + 1 && d.data == []
      && (!st.IsOpen(fd) ==> d.result == Thrown(System(EBADF)) && d.gone == gone && d.st.wires == st.wires)
      && (st.IsOpen(fd) && !a.ok ==>
            && d.result == (if PeerLost(a.err) then Returned(-1) else Thrown(System(a.err)))
            && d.gone == (gone || PeerLost(a.err)) && d.st.wires == st.wires)
      && (st.IsOpen(fd) && a.ok && n <= INT_MAX ==> d.result == Returned(n) && d.gone == gone)
      && (st.IsOpen(fd) && a.ok && n % 0x1_0000_0000 <= INT_MAX ==>
            d.result == Returned(n % 0x1_0000_0000) && d.gone == gone)
      && (st.IsOpen(fd) && a.ok && n % 0x1_0000_0000 > INT_MAX ==>
            && d.result == (if PeerLost(q.errno) then Returned(n % 0x1_0000_0000 - 0x1_0000_0000)
                            else Thrown(System(q.errno)))
            && d.gone == (gone || PeerLost(q.errno)))
  {
    hide Sys, TempFailureRetry, Narrow;
    var q := Settled(env, st, Send(fd, data));
    SendAttempt(env, q, fd, data);
    NarrowWraps(Min(env.at(q.pos).count, |data|));
  }

  /** One attempt, by its answer. */
  lemma SendAttempt(env: Env, q: KState, fd: int, data: seq<byte>)
    ensures var (st1, r) := Sys(env, q, Send(fd, data));
      var a := env.at(q.pos);
      && st1.pos == q.pos + 1
      && (!q.IsOpen(fd) ==> r.ret == -1 && st1.errno == EBADF && st1.wires == q.wires)
      && (q.IsOpen(fd) && !a.ok ==> r.ret == -1 && st1.errno == a.err && st1.wires == q.wires)
      && (q.IsOpen(fd) && a.ok ==> r.ret == Min(a.count, |data|) && st1.errno == q.errno)
  {
  }

  lemma RecvAttempt(env: Env, q: KState, fd: int, len: nat)
    ensures var (st1, r) := Sys(env, q, Recv(fd, len));
      var a := env.at(q.pos);
      && st1.pos == q.pos + 1
      && (!q.IsOpen(fd) ==> r.ret == -1 && r.data == [] && st1.errno == EBADF && st1.wires == q.wires)
      && (q.IsOpen(fd) && !a.ok ==> r.ret == -1 && r.data == [] && st1.errno == a.err && st1.wires == q.wires)
      && (q.IsOpen(fd) && a.ok ==>
            var w := env.incoming(q.files.table[fd]);
            && r.ret == |r.data| == Min(a.count, Min(len, |q.Wire(w)|)) && st1.errno == q.errno
            && r.data + st1.Wire(w) == q.Wire(w)
            && (forall c :: c != w ==> st1.Wire(c) == q.Wire(c))
            && r.info == a.info)
  {
  }

  lemma PollAttempt(env: Env, q: KState, fd: int)
    ensures var (st1, r) := Sys(env, q, Poll(fd));
      var a := env.at(q.pos);
      && st1 == q.(pos := q.pos + 1, errno := st1.errno)
      && (!q.IsOpen(fd) ==> r.ret == -1 && st1.errno == EBADF)
      && (q.IsOpen(fd) && !a.ok ==> r.ret == -1 && st1.errno == a.err)
      && (q.IsOpen(fd) && a.ok ==>
            && r.ret == (if a.count > 0 then 1 else 0) && st1.errno == q.errno
            && (a.count > 0 ==> r.revents == Revents(a.readable, a.urgent, a.hangup)))
  {
  }

  lemma NarrowWraps(n: nat)
    ensures var m := n % 0x1_0000_0000; Narrow(n) == if m <= INT_MAX then m else m - 0x1_0000_0000
  {
  }

  /** How a receive that starts in state `st` ends, from the answer `a` to its last attempt. */
  ghost predicate ReceiveEnds(env: Platform, st: KState, fd: int, gone: bool, len: nat, d: Done) {
    var q := Settled(env, st, Recv(fd, len));
    var a := env.at(q.pos);
    && d.gone == gone
    && (!st.IsOpen(fd) ==> d.result == Thrown(System(EBADF)) && d.data == [] && d.st.wires == st.wires)
    && (st.IsOpen(fd) && !a.ok ==> d.result == Thrown(System(a.err)) && d.data == [] && d.st.wires == st.wires)
    && (st.IsOpen(fd) && a.ok ==>
          var w := env.incoming(st.files.table[fd]);
          var n := |d.data|;
          && n == Min(a.count, Min(len, |st.Wire(w)|)) && d.data + d.st.Wire(w) == st.Wire(w)
          && (forall c :: c != w ==> d.st.Wire(c) == st.Wire(c))
          && (n <= INT_MAX ==> d.result == Returned(n))
          && d.result == if n % 0x1_0000_0000 <= INT_MAX then Returned(n % 0x1_0000_0000)
                         else Thrown(System(q.errno)))
  }

  /** A receive that fails throws the errno of the answer and reads nothing.  So 0 is returned only for a read
      that the kernel granted and that, up to INT_MAX bytes, was a read of nothing. */
  lemma ReceiveAnswers(env: Platform, st: KState, fd: int, gone: bool, len: nat)
    ensures var d := ReceiveSpec(env, st, fd, gone, len);
      var a := env.at(Settled(env, st, Recv(fd, len)).pos);
      && ReceiveEnds(env, st, fd, gone, len, d)
      && (|d.data| <= INT_MAX ==> (d.result == Returned(0) <==> st.IsOpen(fd) && a.ok && d.data == []))
  {
    hide Sys, TempFailureRetry, Narrow;
    var q := Settled(env, st, Recv(fd, len));
    RecvAttempt(env, q, fd, len);
    NarrowWraps(|Sys(env, q, Recv(fd, len)).1.data|);
  }

  /** A failed poll throws its errno, a timeout returns 0, a poll without input 1, and none of these reads;
      with input the call ends as a receive from the state after the poll. */
  lemma TimedReceiveAnswers(env: Platform, st: KState, fd: int, gone: bool, len: nat)
    ensures var d := TimedReceiveSpec(env, st, fd, gone, len);
      var q := Settled(env, st, Poll(fd));
      var a := env.at(q.pos);
      if st.IsOpen(fd) && a.ok && a.count > 0 && (a.readable || a.urgent) then
        ReceiveEnds(env, q.(pos := q.pos + 1), fd, gone || a.hangup, len, d)
      else
        && d.data == [] && d.st.wires == st.wires && d.st.pos == q.pos + 1
        && d.gone == (gone || (st.IsOpen(fd) && a.ok && a.count > 0 && a.hangup))
        && d.result == if !st.IsOpen(fd) then Thrown(System(EBADF))
                       else if !a.ok then Thrown(System(a.err))
                       else if a.count == 0 then Returned(0)
                       else Returned(1)
  {
    hide Sys, TempFailureRetry, Narrow, ReceiveSpec, ReceiveEnds;
    var q := Settled(env, st, Poll(fd));
    PollAttempt(env, q, fd);
    ReceiveAnswers(env, q.(pos := q.pos + 1), fd, gone || env.at(q.pos).hangup, len);
  }

  /** A disconnect that the kernel grants, or refuses with ECONNRESET, returns; only the latter clears the
      flag.  Any other refusal throws. */
  lemma DisconnectAnswers(env: Platform, st: KState, fd: int, gone: bool)
    ensures var d := DisconnectSpec(env, st, fd, gone);
      var a := env.at(st.pos);
      var reset := st.IsOpen(fd) && !a.ok && a.err == ECONNRESET;
      && d.st == st.(pos := st.pos + 1, errno := d.st.errno)
      && d.gone == (gone && !reset)
      && (d.result == Returned(0) <==> st.IsOpen(fd) && (a.ok || reset))
      && (!st.IsOpen(fd) ==> d.result == Thrown(System(EBADF)))
      && (st.IsOpen(fd) && !a.ok && !reset ==> d.result == Thrown(System(a.err)))
  {
  }

  /** The kernel fills the caller's buffer. */
  method CopyOut(data: seq<byte>, buffer: array<byte>)
    requires |data| <= buffer.Length
    modifies buffer
    ensures buffer[..] == data + old(buffer[..])[|data|..]
  {
    forall i | 0 <= i < |data| { buffer[i] := data[i]; }
  }

  lemma RecvFits(env: Platform, st: KState, c: Call)
    requires c.Recv? || c.RecvFrom?
    ensures |TempFailureRetry(env, st, c).1.data| <= c.len
  {
    var q := Settled(env, st, c);
  }

  class SimpleSocket {
    var descriptor: int
    var peerDisconnected: bool

    constructor (descriptor: int)
      ensures this.descriptor == descriptor && !peerDisconnected
    {
      this.descriptor, peerDisconnected := descriptor, false;
    }

    /** SimpleSocket(domain, type, protocol). */
    static method Create(k: Kernel) returns (r: Outcome<SimpleSocket>)
      modifies k
      ensures var (st, n) := Sys(k.env, old(k.st), Open);
        && k.st == st
        && (if n.ret < 0 then r == Thrown(System(st.errno))
            else r.Returned? && fresh(r.value) && r.value.descriptor == n.ret && !r.value.peerDisconnected)
    {
      var n := k.Do(Open);
      if n.ret < 0 {
        return Thrown(System(k.st.errno));
      }
      var s := new SimpleSocket(n.ret);
      r := Returned(s);
    }

    /** SimpleSocket(sockfd): the caller's descriptor, if it is one. */
    static method FromDescriptor(fd: int) returns (r: Outcome<SimpleSocket>)
      ensures r.Returned? <==> fd >= 0
      ensures r.Returned? ==> fresh(r.value) && r.value.descriptor == fd && !r.value.peerDisconnected
      ensures r.Thrown? ==> r.fault == Plain
    {
      if fd < 0 {
        return Thrown(Plain);
      }
      var s := new SimpleSocket(fd);
      r := Returned(s);
    }

    /** ~SimpleSocket. */
    method Destroy(k: Kernel)
      modifies k
      ensures k.st == TempFailureRetry(k.env, old(k.st), Close(descriptor)).0
    {
      var _ := k.Retry(Close(descriptor));
    }

    method Send(k: Kernel, buffer: seq<byte>) returns (r: Outcome<int>)
      modifies k, this`peerDisconnected
      ensures Done(k.st, peerDisconnected, r, [])
           == SendSpec(k.env, old(k.st), descriptor, old(peerDisconnected), buffer)
    {
      var n := k.Retry(Call.Send(descriptor, buffer));
      var sent := Narrow(n.ret);
      if sent < 0 {
        match k.st.errno
        case ECONNRESET | ECONNREFUSED =>
          peerDisconnected := true;
        case _ =>
          return Thrown(System(k.st.errno));
      }
      return Returned(sent);
    }

    method Receive(k: Kernel, buffer: array<byte>) returns (r: Outcome<int>)
      modifies k, buffer
      ensures var d := ReceiveSpec(k.env, old(k.st), descriptor, peerDisconnected, buffer.Length);
        && |d.data| <= buffer.Length
        && Done(k.st, peerDisconnected, r, d.data) == d
        && buffer[..] == d.data + old(buffer[..])[|d.data|..]
    {
      RecvFits(k.env, k.st, Recv(descriptor, buffer.Length));
      var n := k.Retry(Recv(descriptor, buffer.Length));
      CopyOut(n.data, buffer);
      var ret := Narrow(n.ret);
      if ret < 0 {
        return Thrown(System(k.st.errno));
      }
      return Returned(ret);
    }

    method TimedReceive(k: Kernel, buffer: array<byte>) returns (r: Outcome<int>)
      modifies k, buffer, this`peerDisconnected
      ensures var d := TimedReceiveSpec(k.env, old(k.st), descriptor, old(peerDisconnected), buffer.Length);
        && |d.data| <= buffer.Length
        && Done(k.st, peerDisconnected, r, d.data) == d
        && buffer[..] == d.data + old(buffer[..])[|d.data|..]
    {
      var p := k.Retry(Poll(descriptor));
      if p.ret == 0 {
        return Returned(0);
      }
      if p.ret < 0 {
        return Thrown(System(k.st.errno));
      }
      if p.revents.hangup {
        peerDisconnected := true;
      }
      var ret := p.ret;
      if p.revents.readable || p.revents.urgent {
        RecvFits(k.env, k.st, Recv(descriptor, buffer.Length));
        var n := k.Retry(Recv(descriptor, buffer.Length));
        CopyOut(n.data, buffer);
        ret := Narrow(n.ret);
        if ret < 0 {
          return Thrown(System(k.st.errno));
        }
      }
      return Returned(ret);
    }

    method Disconnect(k: Kernel) returns (r: Outcome<int>)
      modifies k, this`peerDisconnected
      ensures Done(k.st, peerDisconnected, r, [])
           == DisconnectSpec(k.env, old(k.st), descriptor, old(peerDisconnected))
    {
      var n := k.Do(Control(descriptor));
      if n.ret < 0 {
        if k.st.errno != ECONNRESET {
          return Thrown(System(k.st.errno));
        }
        peerDisconnected := false;
      }
      return Returned(0);
    }
  }
}
