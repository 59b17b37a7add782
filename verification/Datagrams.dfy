/**
 UDPSocket.cpp and UnixDatagramSocket.cpp: receiving a datagram and where it came from, blocking and with
 a time limit.
 */
module Datagrams {
  import opened Posix
  import opened SimpleSockets
  import opened InternetSockets
  import opened UnixSockets
  import Printers
  import Text

  datatype Origin = Origin(address: string, port: nat)

  function UdpReceiveSpec(env: Platform, st: KState, fd: int, gone: bool, len: nat, source: Origin): From<Origin> {
    var (st1, r) := TempFailureRetry(env, st, RecvFrom(fd, len));
    var ret := Narrow(r.ret);
    if ret < 0 || r.source.None? then From(st1, gone, Thrown(System(st1.errno)), r.data, source)
    else From(st1, gone, Returned(ret), r.data,
              Origin(Printers.InetNtoa(r.source.value.inet.addr), SwapBytes(r.source.value.inet.port)))
  }

  function UnixReceiveSpec(env: Platform, st: KState, fd: int, gone: bool, len: nat, source: string): From<string> {
    var (st1, r) := TempFailureRetry(env, st, RecvFrom(fd, len));
    var ret := Narrow(r.ret);
    if ret < 0 || r.source.None? then From(st1, gone, Thrown(System(st1.errno)), r.data, source)
    else match ExtractPath(r.source.value.sunPath, r.source.value.length)
      case Path(path) => From(st1, gone, Returned(ret), r.data, path)
      case LengthError => From(st1, gone, Thrown(Length), r.data, source)
      case Overread => From(st1, gone, Thrown(Undefined), r.data, source)
  }

  function UdpTimedSpec(env: Platform, st: KState, fd: int, gone: bool, len: nat, source: Origin): From<Origin> {
    var (st1, p) := TempFailureRetry(env, st, Poll(fd));
    if p.ret == 0 then From(st1, gone, Returned(0), [], source)
    else if p.ret < 0 then From(st1, gone, Thrown(System(st1.errno)), [], source)
    else
      var gone1 := gone || p.revents.hangup;
      if p.revents.Input() then UdpReceiveSpec(env, st1, fd, gone1, len, source)
      else From(st1, gone1, Returned(0), [], source)
  }

  function UnixTimedSpec(env: Platform, st: KState, fd: int, gone: bool, len: nat, source: string): From<string> {
    var (st1, p) := TempFailureRetry(env, st, Poll(fd));
    if p.ret == 0 then From(st1, gone, Returned(0), [], source)
    else if p.ret < 0 then From(st1, gone, Thrown(System(st1.errno)), [], source)
    else
      var gone1 := gone || p.revents.hangup;
      if p.revents.Input() then UnixReceiveSpec(env, st1, fd, gone1, len, source)
      else From(st1, gone1, Returned(0), [], source)
  }

  lemma RecvFromFits(env: Platform, st: KState, fd: int, len: nat)
    ensures var r := TempFailureRetry(env, st, RecvFrom(fd, len)).1;
      |r.data| <= len && (r.ret >= 0 ==> r.source.Some?) && (r.ret < 0 ==> r.data == [])
  {
    var q := Settled(env, st, RecvFrom(fd, len));
  }

  // ---- the methods

  method UdpReceiveFrom(s: SimpleSocket, k: Kernel, buffer: array<byte>, source: Origin)
    returns (r: Outcome<int>, source': Origin)
    modifies k, buffer
    ensures var d := UdpReceiveSpec(k.env, old(k.st), s.descriptor, s.peerDisconnected, buffer.Length, source);
      && |d.data| <= buffer.Length
      && From(k.st, s.peerDisconnected, r, d.data, source') == d
      && buffer[..] == d.data + old(buffer[..])[|d.data|..]
  {
    hide Sys, TempFailureRetry;
    RecvFromFits(k.env, k.st, s.descriptor, buffer.Length);
    var n := k.Retry(RecvFrom(s.descriptor, buffer.Length));
    CopyOut(n.data, buffer);
    var ret := Narrow(n.ret);
    if ret < 0 || n.source.None? {
      return Thrown(System(k.st.errno)), source;
    }
    var address := n.source.value.inet;
    return Returned(ret), Origin(Printers.InetNtoa(address.addr), SwapBytes(address.port));
  }

  method UdpTimedReceiveFrom(s: SimpleSocket, k: Kernel, buffer: array<byte>, source: Origin)
    returns (r: Outcome<int>, source': Origin)
    modifies k, buffer, s`peerDisconnected
    ensures var d := UdpTimedSpec(k.env, old(k.st), s.descriptor, old(s.peerDisconnected), buffer.Length, source);
      && |d.data| <= buffer.Length
      && From(k.st, s.peerDisconnected, r, d.data, source') == d
      && buffer[..] == d.data + old(buffer[..])[|d.data|..]
  {
    hide Sys, TempFailureRetry, UdpReceiveSpec;
    var p := k.Retry(Poll(s.descriptor));
    if p.ret == 0 {
      return Returned(0), source;
    }
    if p.ret < 0 {
      return Thrown(System(k.st.errno)), source;
    }
    if p.revents.hangup {
      s.peerDisconnected := true;
    }
    if p.revents.readable || p.revents.urgent {
      r, source' := UdpReceiveFrom(s, k, buffer, source);
      return;
    }
    return Returned(0), source;
  }

  method UnixReceiveFrom(s: SimpleSocket, k: Kernel, buffer: array<byte>, source: string)
    returns (r: Outcome<int>, source': string)
    modifies k, buffer
    ensures var d := UnixReceiveSpec(k.env, old(k.st), s.descriptor, s.peerDisconnected, buffer.Length, source);
      && |d.data| <= buffer.Length
      && From(k.st, s.peerDisconnected, r, d.data, source') == d
      && buffer[..] == d.data + old(buffer[..])[|d.data|..]
  {
    hide Sys, TempFailureRetry, ExtractPath;
    RecvFromFits(k.env, k.st, s.descriptor, buffer.Length);
    var n := k.Retry(RecvFrom(s.descriptor, buffer.Length));
    CopyOut(n.data, buffer);
    var ret := Narrow(n.ret);
    if ret < 0 || n.source.None? {
      return Thrown(System(k.st.errno)), source;
    }
    match ExtractPath(n.source.value.sunPath, n.source.value.length)
    case Path(path) => return Returned(ret), path;
    case LengthError => return Thrown(Length), source;
    case Overread => return Thrown(Undefined), source;
  }

  method UnixTimedReceiveFrom(s: SimpleSocket, k: Kernel, buffer: array<byte>, source: string)
    returns (r: Outcome<int>, source': string)
    modifies k, buffer, s`peerDisconnected
    ensures var d := UnixTimedSpec(k.env, old(k.st), s.descriptor, old(s.peerDisconnected), buffer.Length, source);
      && |d.data| <= buffer.Length
      && From(k.st, s.peerDisconnected, r, d.data, source') == d
      && buffer[..] == d.data + old(buffer[..])[|d.data|..]
  {
    hide Sys, TempFailureRetry, UnixReceiveSpec;
    var p := k.Retry(Poll(s.descriptor));
    if p.ret == 0 {
      return Returned(0), source;
    }
    if p.ret < 0 {
      return Thrown(System(k.st.errno)), source;
    }
    if p.revents.hangup {
      s.peerDisconnected := true;
    }
    if p.revents.readable || p.revents.urgent {
      r, source' := UnixReceiveFrom(s, k, buffer, source);
      return;
    }
    return Returned(0), source;
  }

  // ---- what a receive delivers

  function Queue(st: KState, fd: int): seq<Datagram> {
    if st.IsOpen(fd) then st.Inbox(st.files.table[fd]) else []
  }

  /** The errno with which the kernel refuses a datagram: that of its answer to the last attempt, or EAGAIN when
      none is waiting, or EBADF without a descriptor. */
  function Refused(env: Platform, st: KState, fd: int, len: nat): Option<Errno> {
    var a := env.at(Settled(env, st, RecvFrom(fd, len)).pos);
    if !st.IsOpen(fd) then Some(EBADF)
    else if !a.ok then Some(a.err)
    else if Queue(st, fd) == [] then Some(Other(11))
    else None
  }

  /** One whole datagram is taken, the oldest, whatever does not fit is dropped, and on failure none is. */
  lemma RecvFromTakes(env: Platform, st: KState, fd: int, len: nat)
    ensures var (st1, r) := TempFailureRetry(env, st, RecvFrom(fd, len));
      && (Refused(env, st, fd, len).Some? <==> r.ret < 0)
      && (r.ret < 0 ==> st1.inbox == st.inbox && r.data == [] && Refused(env, st, fd, len) == Some(st1.errno))
      && (r.ret >= 0 ==>
            && Queue(st, fd) != [] && Queue(st1, fd) == Queue(st, fd)[1..]
            && r.data == Queue(st, fd)[0].payload[..Min(len, |Queue(st, fd)[0].payload|)]
            && r.ret == |r.data| && r.source == Some(Queue(st, fd)[0].source))
  {
    var q := Settled(env, st, RecvFrom(fd, len));
  }

  /** The bytes of the oldest datagram that fit into `len`. */
  function Fitting(st: KState, fd: int, len: nat): seq<byte>
    requires Queue(st, fd) != []
  {
    Queue(st, fd)[0].payload[..Min(len, |Queue(st, fd)[0].payload|)]
  }

  /** Nothing happened to the datagrams, the buffer and the caller's origin. */
  ghost predicate NothingTaken<S>(st: KState, d: From<S>, source: S) {
    d.st.inbox == st.inbox && d.data == [] && d.source == source
  }

  /** The oldest datagram was taken and the buffer written. */
  ghost predicate OldestTaken<S>(st: KState, fd: int, len: nat, d: From<S>) {
    Queue(st, fd) != [] && Queue(d.st, fd) == Queue(st, fd)[1..] && d.data == Fitting(st, fd, len)
  }

  /** The call returns exactly when the kernel delivers a datagram that an int can count; then it tells the
      size and the origin of what is in the buffer. */
  lemma UdpDelivers(env: Platform, st: KState, fd: int, gone: bool, len: nat, source: Origin)
    ensures var d := UdpReceiveSpec(env, st, fd, gone, len, source);
      var r := TempFailureRetry(env, st, RecvFrom(fd, len)).1;
      && (d.result.Returned? <==> r.ret >= 0 && Narrow(r.ret) >= 0)
      && (Refused(env, st, fd, len).Some? <==> r.ret < 0)
      && (r.ret < 0 ==> NothingTaken(st, d, source) && d.result == Thrown(System(Refused(env, st, fd, len).value)))
      && (r.ret >= 0 ==> OldestTaken(st, fd, len, d) && r.ret == |d.data|)
      && (d.result.Thrown? ==> d.source == source)
      && (d.result.Returned? ==>
            var inet := Queue(st, fd)[0].source.inet;
            && d.result.value == Narrow(|d.data|)
            && (|d.data| <= INT_MAX ==> d.result.value == |d.data|)
            && Printers.ReadQuad(d.source.address) == Printers.Octets(inet.addr, false)
            && (inet.port < 0x1_0000 ==> d.source.port < 0x1_0000 && SwapBytes(d.source.port) == inet.port))
  {
    hide Sys, TempFailureRetry, Narrow, Refused;
    RecvFromTakes(env, st, fd, len);
    var r := TempFailureRetry(env, st, RecvFrom(fd, len)).1;
    if r.ret >= 0 {
      Printers.QuadReadsBack(r.source.value.inet.addr, false);
      if r.source.value.inet.port < 0x1_0000 {
        SwapTwice(r.source.value.inet.port);
      }
    }
  }

  /** For every source: the call returns exactly when the kernel delivers a datagram that an int can count and
      the source yields a path; then it tells the size of what is in the buffer, and the path.  When the kernel
      refuses, its errno is thrown and nothing taken. */
  lemma UnixDelivers(env: Platform, st: KState, fd: int, gone: bool, len: nat, source: string)
    ensures var d := UnixReceiveSpec(env, st, fd, gone, len, source);
      && d.gone == gone
      && (d.result.Thrown? ==> d.source == source)
      && match Refused(env, st, fd, len)
         case Some(errno) => NothingTaken(st, d, source) && d.result == Thrown(System(errno))
         case None =>
           && OldestTaken(st, fd, len, d)
           && (var from := Queue(st, fd)[0].source;
               var path := ExtractPath(from.sunPath, from.length);
               && (d.result.Returned? <==> path.Path? && Narrow(|d.data|) >= 0)
               && (d.result.Returned? ==>
                     && d.result.value == Narrow(|d.data|) && d.source == path.path
                     && (|d.data| <= INT_MAX ==> d.result.value == |d.data|))
               && (Narrow(|d.data|) >= 0 && path.LengthError? ==> d.result == Thrown(Length))
               && (Narrow(|d.data|) >= 0 && path.Overread? ==> d.result == Thrown(Undefined)))
  {
    hide Sys, TempFailureRetry, Narrow, Refused, ExtractPath;
    RecvFromTakes(env, st, fd, len);
  }

  /** A datagram from a socket bound to a path arrives with its size and that path, up to its first NUL. */
  lemma UnixPathArrives(env: Platform, st: KState, fd: int, gone: bool, len: nat, source: string,
                        buffer: string, path: string)
    requires Queue(st, fd) != [] && |buffer| == SUN_PATH && |path| < SUN_PATH
    requires Queue(st, fd)[0].source.sunPath == Filled(buffer, path)
    requires Queue(st, fd)[0].source.length == KernelLength(Filled(buffer, path))
    ensures var d := UnixReceiveSpec(env, st, fd, gone, len, source);
      var r := TempFailureRetry(env, st, RecvFrom(fd, len)).1;
      && (d.result.Returned? <==> r.ret >= 0 && Narrow(r.ret) >= 0)
      && (Refused(env, st, fd, len).Some? <==> r.ret < 0)
      && (r.ret < 0 ==> NothingTaken(st, d, source) && d.result == Thrown(System(Refused(env, st, fd, len).value)))
      && (r.ret >= 0 ==> OldestTaken(st, fd, len, d))
      && (d.result.Returned? ==> d.result.value == Narrow(|d.data|))
      && (d.result.Returned? && |d.data| <= INT_MAX ==> d.result.value == |d.data|)
      && d.source == if d.result.Returned? then Text.UpTo(path, '\0') else source
  {
    hide Sys, TempFailureRetry, Filled, KernelLength, Narrow, ExtractPath, Refused;
    PathRoundTrip(buffer, path);
    RecvFromTakes(env, st, fd, len);
  }

  /** The call throws std::length_error exactly when the kernel delivers a datagram whose source length does
      not cover the family and a NUL, as Linux does, with length 0, for a sender without a path: the size
      of the path wraps around.  The datagram is gone then and the buffer written. */
  lemma UnboundSenderThrows(env: Platform, st: KState, fd: int, gone: bool, len: nat, source: string)
    requires Queue(st, fd) != [] && |Queue(st, fd)[0].source.sunPath| == SUN_PATH
    requires Queue(st, fd)[0].source.length < 0x1_0000_0000
    ensures var d := UnixReceiveSpec(env, st, fd, gone, len, source);
      var r := TempFailureRetry(env, st, RecvFrom(fd, len)).1;
      && (d.result == Thrown(Length) <==>
            r.ret >= 0 && Narrow(r.ret) >= 0 && Queue(st, fd)[0].source.length < FAMILY_SIZE + 1)
      && (d.result == Thrown(Length) ==> d.source == source && OldestTaken(st, fd, len, d))
  {
    hide Sys, TempFailureRetry, ExtractPath, Narrow, Refused;
    RecvFromTakes(env, st, fd, len);
    ExtractExactly(Queue(st, fd)[0].source.sunPath, Queue(st, fd)[0].source.length);
  }
}
