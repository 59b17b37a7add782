/**
 The flag behind `peerDisconnected`, over whole traces of calls on one socket: what the kernel answered
 decides it, and nothing else.
 */
module Peers {
  import opened Posix
  import opened SimpleSockets
  import opened InternetSockets
  import opened TcpSockets
  import opened Datagrams
  import SctpSockets

  /** A call of a public member function, of any of the socket classes. */
  datatype Action =
    | SendIt(data: seq<byte>)
    | SendAllOf(data: seq<byte>)
    | ReceiveUpTo(len: nat)
    | TimedReceiveUpTo(len: nat)
    | UdpReceive(len: nat)
    | UdpTimedReceive(len: nat)
    | UnixReceive(len: nat)
    | UnixTimedReceive(len: nat)
    | SctpReceive(len: nat)
    | SctpTimedReceive(len: nat)
    | ConnectTo(address: string, port: nat)
    | BindMany(addresses: seq<string>, port: nat)
    | ConnectMany(addresses: seq<string>, port: nat)
    | Disconnecting

  /** The kernel and the flag after a call. */
  function Perform(env: Platform, st: KState, fd: int, gone: bool, a: Action): (KState, bool) {
    match a
    case SendIt(data) => var d := SendSpec(env, st, fd, gone, data); (d.st, d.gone)
    case SendAllOf(data) => var d := SendAllSpec(env, st, fd, gone, data, 0); (d.st, d.gone)
    case ReceiveUpTo(len) => var d := ReceiveSpec(env, st, fd, gone, len); (d.st, d.gone)
    case TimedReceiveUpTo(len) => var d := TimedReceiveSpec(env, st, fd, gone, len); (d.st, d.gone)
    case UdpReceive(len) => var d := UdpReceiveSpec(env, st, fd, gone, len, Origin("", 0)); (d.st, d.gone)
    case UdpTimedReceive(len) => var d := UdpTimedSpec(env, st, fd, gone, len, Origin("", 0)); (d.st, d.gone)
    case UnixReceive(len) => var d := UnixReceiveSpec(env, st, fd, gone, len, ""); (d.st, d.gone)
    case UnixTimedReceive(len) => var d := UnixTimedSpec(env, st, fd, gone, len, ""); (d.st, d.gone)
    case SctpReceive(len) => var d := SctpSockets.ReceiveOnce(env, st, fd, gone, len, NO_INFO); (d.st, d.gone)
    case SctpTimedReceive(len) => var d := SctpSockets.TimedReceiveSpec(env, st, fd, gone, len, NO_INFO); (d.st, d.gone)
    case ConnectTo(address, port) => var d := ConnectSpec(env, st, fd, gone, address, port); (d.st, d.gone)
    case BindMany(list, port) =>
      var d := SctpSockets.BindOrConnectSpec(env, st, fd, gone, false, list, port); (d.st, d.gone)
    case ConnectMany(list, port) =>
      var d := SctpSockets.BindOrConnectSpec(env, st, fd, gone, true, list, port); (d.st, d.gone)
    case Disconnecting => var d := DisconnectSpec(env, st, fd, gone); (d.st, d.gone)
  }

  /** What the kernel answered to the calls that can matter. */
  datatype Event =
    | SendAnswered(ret: int, err: Errno)
    | PollAnswered(ret: int, hangup: bool)
    | ConnectAnswered(ret: int)
    | DisconnectAnswered(ret: int, err: Errno)
  {
    predicate Sets() {
      || (SendAnswered? && ret < 0 && (err == ECONNRESET || err == ECONNREFUSED))
      || (PollAnswered? && ret > 0 && hangup)
    }

    predicate Clears() {
      || (ConnectAnswered? && ret >= 0)
      || (DisconnectAnswered? && ret < 0 && err == ECONNRESET)
    }

    function After(gone: bool): bool { Sets() || (gone && !Clears()) }
  }

  function SendEvent(env: Platform, st: KState, fd: int, data: seq<byte>): Event {
    var (st1, r) := TempFailureRetry(env, st, Send(fd, data));
    SendAnswered(Narrow(r.ret), st1.errno)
  }

  function PollEvent(env: Platform, st: KState, fd: int): Event {
    var (_, p) := TempFailureRetry(env, st, Poll(fd));
    PollAnswered(p.ret, p.revents.hangup)
  }

  /** One event for each write of sendAll. */
  function SendAllEvents(env: Platform, st: KState, fd: int, data: seq<byte>, sent: nat): seq<Event>
    requires sent <= |data|
    decreases |data| - sent, env.patience(st.pos)
  {
    if sent == |data| then [] else
    var rest := data[sent..];
    var d := SendSpec(env, st, fd, false, rest);
    SendProgress(env, st, fd, false, rest);
    [SendEvent(env, st, fd, rest)] +
    if d.result.Thrown? || d.result.value < 0 then []
    else SendAllEvents(env, d.st, fd, data, sent + d.result.value)
  }

  /** The events of one call.  They do not depend on the flag. */
  function Events(env: Platform, st: KState, fd: int, a: Action): seq<Event> {
    match a
    case SendIt(data) => [SendEvent(env, st, fd, data)]
    case SendAllOf(data) => SendAllEvents(env, st, fd, data, 0)
    case TimedReceiveUpTo(_) => [PollEvent(env, st, fd)]
    case UdpTimedReceive(_) => [PollEvent(env, st, fd)]
    case UnixTimedReceive(_) => [PollEvent(env, st, fd)]
    case SctpTimedReceive(_) => [PollEvent(env, st, fd)]
    case ConnectTo(address, port) =>
      var (st1, quad) := Resolve(env, st, address);
      if quad.None? then []
      else
        var dest := SockAddr(AF_INET, SwapBytes(port), quad.value);
        [ConnectAnswered(Sys(env, st1, Address(fd, true, [dest], 1)).1.ret)]
    case ConnectMany(list, port) =>
      var (st1, dest) := SctpSockets.ResolveAll(env, st, list, port);
      if dest.None? then []
      else [ConnectAnswered(Sys(env, st1, Address(fd, true, dest.value, Narrow(|list|))).1.ret)]
    case Disconnecting =>
      var (st1, r) := Sys(env, st, Control(fd));
      [DisconnectAnswered(r.ret, st1.errno)]
    case _ => []
  }

  function Trace(env: Platform, st: KState, fd: int, gone: bool, actions: seq<Action>): (KState, bool)
    decreases |actions|
  {
    if actions == [] then (st, gone) else
    var (st1, gone1) := Perform(env, st, fd, gone, actions[0]);
    Trace(env, st1, fd, gone1, actions[1..])
  }

  function History(env: Platform, st: KState, fd: int, gone: bool, actions: seq<Action>): seq<Event>
    decreases |actions|
  {
    if actions == [] then [] else
    var (st1, gone1) := Perform(env, st, fd, gone, actions[0]);
    Events(env, st, fd, actions[0]) + History(env, st1, fd, gone1, actions[1..])
  }

  /** Some event sets the flag and none after it clears it. */
  ghost predicate SetLast(h: seq<Event>) {
    exists i :: 0 <= i < |h| && h[i].Sets() && forall j :: i < j < |h| ==> !h[j].Clears()
  }

  function Applied(gone: bool, h: seq<Event>): bool
    decreases |h|
  {
    if h == [] then gone else Applied(h[0].After(gone), h[1..])
  }

  lemma AppliedOne(gone: bool)
    ensures forall e :: Applied(gone, [e]) == e.After(gone)
  {
    forall e ensures Applied(gone, [e]) == e.After(gone) {
      assert [e][1..] == [];
    }
  }

  lemma {:induction false} AppliedConcat(gone: bool, h: seq<Event>, h': seq<Event>)
    ensures Applied(gone, h + h') == Applied(Applied(gone, h), h')
    decreases |h|
  {
    if h == [] {
      assert h + h' == h';
    } else {
      AppliedConcat(h[0].After(gone), h[1..], h');
      assert (h + h')[1..] == h[1..] + h';
    }
  }

  lemma {:induction false} AppliedExactly(gone: bool, h: seq<Event>)
    ensures Applied(gone, h) <==> SetLast(h) || (gone && forall j :: 0 <= j < |h| ==> !h[j].Clears())
    decreases |h|
  {
    if h != [] {
      var e, t := h[0], h[1..];
      AppliedExactly(e.After(gone), t);
      assert forall j :: 0 < j < |h| ==> h[j] == t[j - 1];
      assert forall j :: 0 <= j < |t| ==> t[j] == h[j + 1];
      if SetLast(t) {
        var i :| 0 <= i < |t| && t[i].Sets() && forall j :: i < j < |t| ==> !t[j].Clears();
        assert h[i + 1].Sets();
      }
      if SetLast(h) {
        var i :| 0 <= i < |h| && h[i].Sets() && forall j :: i < j < |h| ==> !h[j].Clears();
        if i > 0 {
          assert t[i - 1].Sets();
        }
      }
    }
  }

  lemma {:induction false} SendAllApplies(env: Platform, st: KState, fd: int, gone: bool, data: seq<byte>, sent: nat)
    requires sent <= |data|
    ensures SendAllSpec(env, st, fd, gone, data, sent).gone == Applied(gone, SendAllEvents(env, st, fd, data, sent))
    decreases |data| - sent, env.patience(st.pos)
  {
    hide Sys, TempFailureRetry, SendEvent, SendSpec, SendAllSpec, SendAllEvents, Applied;
    SpecUnfolds(env, st, fd, gone, data, sent);
    EventsUnfold(env, st, fd, data, sent);
    if sent < |data| {
      SendApplies(env, st, fd, gone, data[sent..]);
      SendProgress(env, st, fd, gone, data[sent..]);
      var e := [SendEvent(env, st, fd, data[sent..])];
      var d := SendSpec(env, st, fd, gone, data[sent..]);
      if d.result.Returned? && d.result.value >= 0 {
        SendAllApplies(env, d.st, fd, d.gone, data, sent + d.result.value);
        AppliedConcat(gone, e, SendAllEvents(env, d.st, fd, data, sent + d.result.value));
      }
    } else {
      AppliedExactly(gone, []);
    }
  }

  lemma SpecUnfolds(env: Platform, st: KState, fd: int, gone: bool, data: seq<byte>, sent: nat)
    requires sent <= |data|
    ensures var all := SendAllSpec(env, st, fd, gone, data, sent);
      var d := SendSpec(env, st, fd, gone, data[sent..]);
      if sent == |data| then all.gone == gone
      else if d.result.Returned? && d.result.value >= 0 then
        && sent + d.result.value <= |data|
        && all == SendAllSpec(env, d.st, fd, d.gone, data, sent + d.result.value)
      else all == d
  {
    hide Sys, TempFailureRetry, SendSpec;
    SendProgress(env, st, fd, gone, data[sent..]);
  }

  lemma EventsUnfold(env: Platform, st: KState, fd: int, data: seq<byte>, sent: nat)
    requires sent <= |data|
    ensures var events := SendAllEvents(env, st, fd, data, sent);
      var d := SendSpec(env, st, fd, false, data[sent..]);
      var e := [SendEvent(env, st, fd, data[sent..])];
      if sent == |data| then events == []
      else if d.result.Returned? && d.result.value >= 0 then
        && sent + d.result.value <= |data|
        && events == e + SendAllEvents(env, d.st, fd, data, sent + d.result.value)
      else events == e
  {
    hide Sys, TempFailureRetry, SendEvent, SendSpec;
    SendProgress(env, st, fd, false, data[sent..]);
  }

  lemma SendApplies(env: Platform, st: KState, fd: int, gone: bool, data: seq<byte>)
    ensures var d := SendSpec(env, st, fd, gone, data);
      var d' := SendSpec(env, st, fd, false, data);
      && d.gone == Applied(gone, [SendEvent(env, st, fd, data)])
      && d'.st == d.st && d'.result == d.result
  {
    hide Sys, TempFailureRetry, Narrow;
    AppliedOne(gone);
  }

  lemma PerformApplies(env: Platform, st: KState, fd: int, gone: bool, a: Action)
    ensures Perform(env, st, fd, gone, a).1 == Applied(gone, Events(env, st, fd, a))
  {
    hide Sys, TempFailureRetry, Narrow, Resolve, SendSpec, SendEvent, SendAllSpec, SendAllEvents;
    match a
    case SendIt(data) => SendApplies(env, st, fd, gone, data);
    case SendAllOf(data) => SendAllApplies(env, st, fd, gone, data, 0);
    case _ => AppliedOne(gone);
  }

  lemma {:induction false} TraceApplies(env: Platform, st: KState, fd: int, gone: bool, actions: seq<Action>)
    ensures Trace(env, st, fd, gone, actions).1 == Applied(gone, History(env, st, fd, gone, actions))
    decreases |actions|
  {
    hide Perform, Events, Applied;
    if actions != [] {
      var (st1, gone1) := Perform(env, st, fd, gone, actions[0]);
      PerformApplies(env, st, fd, gone, actions[0]);
      TraceApplies(env, st1, fd, gone1, actions[1..]);
      AppliedConcat(gone, Events(env, st, fd, actions[0]), History(env, st1, fd, gone1, actions[1..]));
    } else {
      assert Applied(gone, []) == gone by { AppliedExactly(gone, []); }
    }
  }

  /** After any trace of calls on a new socket the flag is set exactly when some event that sets it is later
      than every event that clears it. */
  lemma FlagExactly(env: Platform, st: KState, fd: int, actions: seq<Action>)
    ensures Trace(env, st, fd, false, actions).1 <==> SetLast(History(env, st, fd, false, actions))
  {
    TraceApplies(env, st, fd, false, actions);
    AppliedExactly(false, History(env, st, fd, false, actions));
  }

  lemma {:induction false} TraceConcat(env: Platform, st: KState, fd: int, gone: bool,
                                         actions: seq<Action>, more: seq<Action>)
    ensures var (st1, gone1) := Trace(env, st, fd, gone, actions);
      Trace(env, st, fd, gone, actions + more) == Trace(env, st1, fd, gone1, more)
    decreases |actions|
  {
    hide Perform;
    if actions == [] {
      assert actions + more == more;
    } else {
      var (st1, gone1) := Perform(env, st, fd, gone, actions[0]);
      TraceConcat(env, st1, fd, gone1, actions[1..], more);
      assert (actions + more)[1..] == actions[1..] + more;
    }
  }

  /** After any trace, a receive does not set the flag, not even when it returns 0, which is how the end of a
      stream shows, and a disconnect that the kernel grants does not clear it. */
  lemma FlagSurprises(env: Platform, st: KState, fd: int, actions: seq<Action>, len: nat)
    ensures var (st1, gone) := Trace(env, st, fd, false, actions);
      && Trace(env, st, fd, false, actions + [ReceiveUpTo(len)]).1 == gone
      && (Sys(env, st1, Control(fd)).1.ret >= 0 ==>
            && DisconnectSpec(env, st1, fd, gone).result == Returned(0)
            && Trace(env, st, fd, false, actions + [Disconnecting]).1 == gone)
  {
    hide Sys, TempFailureRetry;
    TraceConcat(env, st, fd, false, actions, [ReceiveUpTo(len)]);
    TraceConcat(env, st, fd, false, actions, [Disconnecting]);
    assert [ReceiveUpTo(len)][1..] == [] && [Disconnecting][1..] == [];
  }

  /** The member functions themselves, on a socket object. */
  method Call(s: SimpleSocket, k: Kernel, a: Action)
    modifies k, s`peerDisconnected
    ensures (k.st, s.peerDisconnected) == Perform(k.env, old(k.st), s.descriptor, old(s.peerDisconnected), a)
  {
    hide Sys, TempFailureRetry, SendSpec, SendAllSpec, ReceiveSpec, TimedReceiveSpec, DisconnectSpec, ConnectSpec;
    hide UdpReceiveSpec, UdpTimedSpec, UnixReceiveSpec, UnixTimedSpec;
    hide SctpSockets.ReceiveOnce, SctpSockets.TimedReceiveSpec, SctpSockets.BindOrConnectSpec;
    match a
    case SendIt(data) => var _ := s.Send(k, data);
    case SendAllOf(data) => var _ := SendAll(s, k, data);
    case ReceiveUpTo(len) => var buffer := new byte[len]; var _ := s.Receive(k, buffer);
    case TimedReceiveUpTo(len) => var buffer := new byte[len]; var _ := s.TimedReceive(k, buffer);
    case UdpReceive(len) => var buffer := new byte[len]; var _, _ := UdpReceiveFrom(s, k, buffer, Origin("", 0));
    case UdpTimedReceive(len) =>
      var buffer := new byte[len]; var _, _ := UdpTimedReceiveFrom(s, k, buffer, Origin("", 0));
    case UnixReceive(len) => var buffer := new byte[len]; var _, _ := UnixReceiveFrom(s, k, buffer, "");
    case UnixTimedReceive(len) => var buffer := new byte[len]; var _, _ := UnixTimedReceiveFrom(s, k, buffer, "");
    case SctpReceive(len) => var buffer := new byte[len]; var _, _ := SctpSockets.Receive(s, k, buffer, NO_INFO);
    case SctpTimedReceive(len) =>
      var buffer := new byte[len]; var _, _ := SctpSockets.TimedReceive(s, k, buffer, NO_INFO);
    case ConnectTo(address, port) => var _ := Connect(s, k, address, port);
    case BindMany(list, port) => var _ := SctpSockets.Bind(s, k, list, port);
    case ConnectMany(list, port) => var _ := SctpSockets.Connect(s, k, list, port);
    case Disconnecting => var _ := s.Disconnect(k);
  }

  /** A socket object after any trace of calls. */
  method CallAll(s: SimpleSocket, k: Kernel, actions: seq<Action>)
    modifies k, s`peerDisconnected
    ensures (k.st, s.peerDisconnected) == Trace(k.env, old(k.st), s.descriptor, old(s.peerDisconnected), actions)
    ensures !old(s.peerDisconnected) ==>
              (s.peerDisconnected <==> SetLast(History(k.env, old(k.st), s.descriptor, false, actions)))
  {
    hide Perform, Events, Sys, TempFailureRetry;
    FlagExactly(k.env, k.st, s.descriptor, actions);
    for i := 0 to |actions|
      invariant Trace(k.env, old(k.st), s.descriptor, old(s.peerDisconnected), actions)
             == Trace(k.env, k.st, s.descriptor, s.peerDisconnected, actions[i..])
    {
      assert actions[i..][0] == actions[i] && actions[i..][1..] == actions[i + 1..];
      Call(s, k, actions[i]);
    }
  }
}
