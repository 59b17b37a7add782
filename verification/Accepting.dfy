/** What TCPSocket.cpp and SCTPSocket.cpp do with handles: both define accept, timedAccept and the
    constructor from a handle in the same way. */
module Accepting {
  import opened Posix
  import opened SimpleSockets
  import opened SocketHandles

  /** `return Handle(ret)`: the temporary is turned into a reference, which makes the result. */
  method ReturnHandle(k: Kernel, fd: int) returns (h: SocketHandle)
    modifies k
    ensures fresh(h) && h.sockfd == fd && k.st == old(k.st)
  {
    var temporary := new SocketHandle.FromDescriptor(fd);
    var ref := temporary.ToRef();
    h := new SocketHandle.FromRef(ref);
    temporary.Destroy(k);
  }

  method Accept(s: SimpleSocket, k: Kernel) returns (r: Outcome<SocketHandle>)
    modifies k
    ensures var (st, n) := Sys(k.env, old(k.st), Open);
      && k.st == st
      && (if n.ret < 0 then r == Thrown(System(st.errno))
          else r.Returned? && fresh(r.value) && r.value.sockfd == n.ret)
  {
    var n := k.Do(Open);
    if n.ret < 0 {
      return Thrown(System(k.st.errno));
    }
    var h := ReturnHandle(k, n.ret);
    return Returned(h);
  }

  method TimedAccept(s: SimpleSocket, k: Kernel) returns (r: Outcome<SocketHandle>)
    modifies k
    ensures var (st1, p) := TempFailureRetry(k.env, old(k.st), Poll(s.descriptor));
      if p.ret == 0 then k.st == st1 && r.Returned? && fresh(r.value) && r.value.sockfd == -1
      else if p.ret < 0 then k.st == st1 && r == Thrown(System(st1.errno))
      else
        var (st2, n) := Sys(k.env, st1, Open);
        && k.st == st2
        && (if n.ret < 0 then r == Thrown(System(st2.errno))
            else r.Returned? && fresh(r.value) && r.value.sockfd == n.ret)
  {
    var p := k.Retry(Poll(s.descriptor));
    if p.ret == 0 {
      var none := new SocketHandle.Invalid();
      return Returned(none);
    }
    if p.ret < 0 {
      return Thrown(System(k.st.errno));
    }
    r := Accept(s, k);
  }

  /** TCPSocket(Handle handle) and SCTPSocket(Handle handle), called with a named handle: the parameter is
      copied from it, gives its descriptor to the socket, and is destroyed however the constructor ends. */
  method FromHandle(k: Kernel, h: SocketHandle) returns (r: Outcome<SimpleSocket>)
    modifies k, h`sockfd
    ensures k.st == old(k.st) && h.sockfd == -1
    ensures r.Returned? <==> old(h.IsValid())
    ensures if old(h.sockfd) < 0 then r == Thrown(Plain)
            else r.Returned? && fresh(r.value) && r.value.descriptor == old(h.sockfd) && !r.value.peerDisconnected
  {
    var parameter := new SocketHandle.Copy(h);
    var fd := parameter.Release();
    r := SimpleSocket.FromDescriptor(fd);
    parameter.Destroy(k);
  }
}
