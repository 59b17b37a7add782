/**
 The timed receives of all socket classes refine the blocking ones: what they do when poll reports input is
 what the blocking call does with the kernel that was not asked to poll.
 */
module TimedReceives {
  import opened Posix
  import opened SimpleSockets
  import opened Datagrams
  import SctpSockets

  function LaterPatience(env: Env, p0: nat, n: nat, p: nat): nat {
    if p < p0 then env.patience(p) + env.patience(p0 + n) else env.patience(p + n)
  }

  /** The same kernel without the `n` answers from `p0` on. */
  function Without(env: Platform, p0: nat, n: nat): Platform {
    var e := env.(at := (p: nat) => env.at(if p < p0 then p else p + n),
                  patience := (p: nat) => LaterPatience(env, p0, n, p));
    assert e.Fair() by {
      forall p: nat | e.at(p).Stalls() ensures e.patience(p + 1) < e.patience(p) {
        var q := if p < p0 then p else p + n;
        assert env.at(q).Stalls();
        assert env.patience(q + 1) < env.patience(q);
      }
    }
    e
  }

  function Later(st: KState, n: nat): KState { st.(pos := st.pos + n) }

  lemma {:induction false} RetryLater(env: Platform, p0: nat, n: nat, st: KState, c: Call)
    requires p0 <= st.pos
    ensures var (st', r) := TempFailureRetry(Without(env, p0, n), st, c);
      TempFailureRetry(env, Later(st, n), c) == (Later(st', n), r)
    decreases env.patience(st.pos + n)
  {
    hide Sys;
    SysLater(env, p0, n, st, c);
    var (st1, r) := Sys(Without(env, p0, n), st, c);
    if env.retries && r.ret < 0 && st1.errno == EINTR {
      RetryLater(env, p0, n, st1, c);
    }
  }

  lemma SysLater(env: Platform, p0: nat, n: nat, st: KState, c: Call)
    requires p0 <= st.pos
    ensures var (st', r) := Sys(Without(env, p0, n), st, c);
      Sys(env, Later(st, n), c) == (Later(st', n), r)
  {
    var e := Without(env, p0, n);
    assert SameAnswer(env, e, st, n);
    hide Without, Sys, SameAnswer;
    match c
    case Send(fd, data) => SendLater(env, e, st, n, fd, data);
    case Recv(fd, len) => RecvLater(env, e, st, n, fd, len);
    case RecvFrom(fd, len) => RecvFromLater(env, e, st, n, fd, len);
    case _ => ControlLater(env, e, st, n, c);
  }

  ghost predicate SameAnswer(env: Env, e: Env, st: KState, n: nat) {
    e.at(st.pos) == env.at(st.pos + n) && e.outgoing == env.outgoing && e.incoming == env.incoming
  }

  lemma SendLater(env: Env, e: Env, st: KState, n: nat, fd: int, data: seq<byte>)
    requires SameAnswer(env, e, st, n)
    ensures var (st', r) := Sys(e, st, Send(fd, data)); Sys(env, Later(st, n), Send(fd, data)) == (Later(st', n), r)
  {
  }

  lemma RecvLater(env: Env, e: Env, st: KState, n: nat, fd: int, len: nat)
    requires SameAnswer(env, e, st, n)
    ensures var (st', r) := Sys(e, st, Recv(fd, len)); Sys(env, Later(st, n), Recv(fd, len)) == (Later(st', n), r)
  {
  }

  lemma RecvFromLater(env: Env, e: Env, st: KState, n: nat, fd: int, len: nat)
    requires SameAnswer(env, e, st, n)
    ensures var (st', r) := Sys(e, st, RecvFrom(fd, len));
      Sys(env, Later(st, n), RecvFrom(fd, len)) == (Later(st', n), r)
  {
  }

  lemma ControlLater(env: Env, e: Env, st: KState, n: nat, c: Call)
    requires !(c.Recv? || c.RecvFrom? || c.Send?) && SameAnswer(env, e, st, n)
    ensures var (st', r) := Sys(e, st, c); Sys(env, Later(st, n), c) == (Later(st', n), r)
  {
  }

  /** How many answers the poll at the start of a timed call uses up, and the state it leaves, with the clock
      set back. */
  function Polled(env: Platform, st: KState, fd: int): (r: (nat, KState))
    ensures TempFailureRetry(env, st, Poll(fd)).0 == Later(r.1, r.0) && r.1 == st.(errno := r.1.errno)
  {
    var q := Settled(env, st, Poll(fd));
    var st1 := TempFailureRetry(env, st, Poll(fd)).0;
    (st1.pos - st.pos, st1.(pos := st.pos))
  }

  /** When poll reports input, a timed receive from a UDP socket is the blocking one, as it would have run with
      the kernel that was not asked to poll.  Otherwise nothing is written and only a hang-up is noted. */
  lemma UdpTimedRefines(env: Platform, st: KState, fd: int, gone: bool, len: nat, source: Origin)
    ensures var (n, quiet) := Polled(env, st, fd);
      var p := TempFailureRetry(env, st, Poll(fd)).1;
      var timed := UdpTimedSpec(env, st, fd, gone, len, source);
      if p.ret > 0 && p.revents.Input() then
        var blocking := UdpReceiveSpec(Without(env, st.pos, n), quiet, fd, gone || p.revents.hangup, len, source);
        timed == blocking.(st := Later(blocking.st, n))
      else
        && timed.data == [] && timed.source == source && timed.st == Later(quiet, n)
        && (timed.result == Returned(0) <==> p.ret >= 0)
        && (p.ret < 0 ==> timed.result == Thrown(System(quiet.errno)))
        && timed.gone == (gone || (p.ret > 0 && p.revents.hangup))
  {
    var (n, quiet) := Polled(env, st, fd);
    RetryLater(env, st.pos, n, quiet, RecvFrom(fd, len));
    hide Sys, TempFailureRetry, Without;
  }

  lemma UnixTimedRefines(env: Platform, st: KState, fd: int, gone: bool, len: nat, source: string)
    ensures var (n, quiet) := Polled(env, st, fd);
      var p := TempFailureRetry(env, st, Poll(fd)).1;
      var timed := UnixTimedSpec(env, st, fd, gone, len, source);
      if p.ret > 0 && p.revents.Input() then
        var blocking := UnixReceiveSpec(Without(env, st.pos, n), quiet, fd, gone || p.revents.hangup, len, source);
        timed == blocking.(st := Later(blocking.st, n))
      else
        && timed.data == [] && timed.source == source && timed.st == Later(quiet, n)
        && (timed.result == Returned(0) <==> p.ret >= 0)
        && (p.ret < 0 ==> timed.result == Thrown(System(quiet.errno)))
        && timed.gone == (gone || (p.ret > 0 && p.revents.hangup))
  {
    var (n, quiet) := Polled(env, st, fd);
    RetryLater(env, st.pos, n, quiet, RecvFrom(fd, len));
    hide Sys, TempFailureRetry, Without;
  }

  /** The timed receive of a stream does so too, but a poll without input makes it return 1. */
  lemma StreamTimedRefines(env: Platform, st: KState, fd: int, gone: bool, len: nat)
    ensures var (n, quiet) := Polled(env, st, fd);
      var p := TempFailureRetry(env, st, Poll(fd)).1;
      var timed := TimedReceiveSpec(env, st, fd, gone, len);
      if p.ret > 0 && p.revents.Input() then
        var blocking := ReceiveSpec(Without(env, st.pos, n), quiet, fd, gone || p.revents.hangup, len);
        timed == blocking.(st := Later(blocking.st, n))
      else
        && timed.data == [] && timed.st == Later(quiet, n)
        && timed.gone == (gone || (p.ret > 0 && p.revents.hangup))
        && timed.result == (if p.ret >= 0 then Returned(p.ret) else Thrown(System(quiet.errno)))
  {
    var (n, quiet) := Polled(env, st, fd);
    RetryLater(env, st.pos, n, quiet, Recv(fd, len));
    hide Sys, TempFailureRetry, Without;
  }

  /** The SCTP receive, which does not repeat an interrupted call, behind the poll, which does. */
  lemma SctpTimedRefines(env: Platform, st: KState, fd: int, gone: bool, len: nat, info: MessageInfo)
    ensures var (n, quiet) := Polled(env, st, fd);
      var p := TempFailureRetry(env, st, Poll(fd)).1;
      var timed := SctpSockets.TimedReceiveSpec(env, st, fd, gone, len, info);
      if p.ret > 0 && p.revents.Input() then
        var blocking :=
          SctpSockets.ReceiveOnce(Without(env, st.pos, n), quiet, fd, gone || p.revents.hangup, len, info);
        timed == blocking.(st := Later(blocking.st, n))
      else
        && timed.data == [] && timed.source == info && timed.st == Later(quiet, n)
        && (timed.result == Returned(0) <==> p.ret >= 0)
        && (p.ret < 0 ==> timed.result == Thrown(System(quiet.errno)))
        && timed.gone == (gone || (p.ret > 0 && p.revents.hangup))
  {
    var (n, quiet) := Polled(env, st, fd);
    SysLater(env, st.pos, n, quiet, Recv(fd, len));
    hide Sys, TempFailureRetry, Without;
  }
}
