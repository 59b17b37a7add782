/**
 One direction of a stream connection: one side sends with `send` and `sendAll`, the other reads with
 `receive` and `timedReceive`, and the steps of both are interleaved in any order.  A `sendAll` is not one
 step: the other side can act between its partial writes.
 */
module Streams {
  import opened Posix
  import opened SimpleSockets
  import opened TcpSockets

  datatype Sender = Idle | Sending(buffer: seq<byte>, sent: nat)

  /** `taken` is what the kernel took from the sender, `accepted` what the return values of send told the
      sender, `received` what the receiver's buffers got and `total` the sum of what its calls returned.
      `wide` counts writes and `wideReads` reads of more than INT_MAX bytes, `silent` polls that woke up
      without input.  `finished` is how the last sendAll ended. */
  datatype Link = Link(st: KState, sender: Sender, senderGone: bool, receiverGone: bool,
                       taken: seq<byte>, accepted: seq<byte>, received: seq<byte>, total: int,
                       wide: nat, wideReads: nat, silent: nat, finished: Option<Outcome<int>>)

  datatype Act =
    | SendOnce(data: seq<byte>)
    | StartSendAll(data: seq<byte>)
    | ContinueSendAll
    | ReceiveSome(len: nat)
    | TimedReceiveSome(len: nat)

  function Credited(d: Done, data: seq<byte>): seq<byte> {
    if d.result.Returned? && 0 <= d.result.value <= |data| then data[..d.result.value] else []
  }

  /** One call of SimpleSocket::send by the sender. */
  function Sent(env: Platform, l: Link, fd: int, data: seq<byte>, next: Sender): Link {
    var d := SendSpec(env, l.st, fd, l.senderGone, data);
    var n := Accepted(env, l.st, fd, data);
    l.(st := d.st, sender := next, senderGone := d.gone,
       taken := l.taken + (if n <= |data| then data[..n] else []),
       accepted := l.accepted + Credited(d, data),
       wide := if n > INT_MAX then l.wide + 1 else l.wide)
  }

  function Got(l: Link, d: Done, silent: bool): Link {
    l.(st := d.st, receiverGone := d.gone, received := l.received + d.data,
       total := l.total + Counted(d),
       wideReads := if |d.data| > INT_MAX then l.wideReads + 1 else l.wideReads,
       silent := if silent then l.silent + 1 else l.silent)
  }

  /** Poll reports the descriptor, but neither POLLIN nor POLLPRI. */
  predicate Silent(env: Platform, st: KState, fd: int) {
    var p := TempFailureRetry(env, st, Poll(fd)).1;
    p.ret > 0 && !p.revents.Input()
  }

  /** The sender uses descriptor `a`, the receiver `b`. */
  function Next(env: Platform, l: Link, a: int, b: int, act: Act): Link {
    match act
    case SendOnce(data) => if l.sender.Idle? then Sent(env, l, a, data, Idle) else l
    case StartSendAll(data) => if l.sender.Idle? then l.(sender := Sending(data, 0)) else l
    case ContinueSendAll =>
      if l.sender.Idle? then l
      else if l.sender.sent >= |l.sender.buffer| then
        l.(sender := Idle, finished := Some(Returned(Narrow(l.sender.sent))))
      else
        var rest := l.sender.buffer[l.sender.sent..];
        var d := SendSpec(env, l.st, a, l.senderGone, rest);
        if d.result.Thrown? || d.result.value < 0 then
          Sent(env, l, a, rest, Idle).(finished := Some(d.result))
        else Sent(env, l, a, rest, Sending(l.sender.buffer, l.sender.sent + d.result.value))
    case ReceiveSome(len) => Got(l, ReceiveSpec(env, l.st, b, l.receiverGone, len), false)
    case TimedReceiveSome(len) =>
      Got(l, TimedReceiveSpec(env, l.st, b, l.receiverGone, len), Silent(env, l.st, b))
  }

  function After(env: Platform, l: Link, a: int, b: int, acts: seq<Act>): Link
    decreases |acts|
  {
    if acts == [] then l else After(env, Next(env, l, a, b, acts[0]), a, b, acts[1..])
  }

  /** The two descriptors are the ends of channel `c`. */
  predicate Connected(env: Env, st: KState, a: int, b: int, c: nat) {
    st.IsOpen(a) && st.IsOpen(b) && env.outgoing(st.files.table[a]) == c && env.incoming(st.files.table[b]) == c
  }

  ghost predicate Conserved(env: Env, l: Link, a: int, b: int, c: nat, start: seq<byte>) {
    && Connected(env, l.st, a, b, c)
    && l.received + l.st.Wire(c) == start + l.taken
    && (if l.wide == 0 then l.accepted == l.taken else |l.accepted| < |l.taken|)
  }

  /** What a call tells the receiver it read. */
  function Counted(d: Done): int { if d.result.Returned? then d.result.value else 0 }

  lemma ReceiveEffect(env: Platform, st: KState, fd: int, gone: bool, len: nat)
    requires st.IsOpen(fd)
    ensures var d := ReceiveSpec(env, st, fd, gone, len);
      var w := env.incoming(st.files.table[fd]);
      && d.st.files == st.files && d.gone == gone && |d.data| <= len
      && d.data + d.st.Wire(w) == st.Wire(w)
      && (forall c :: c != w ==> d.st.Wire(c) == st.Wire(c))
      && Counted(d) <= |d.data|
      && (Counted(d) == |d.data| <==> |d.data| <= INT_MAX)
  {
    var q := Settled(env, st, Recv(fd, len));
  }

  lemma TimedReceiveEffect(env: Platform, st: KState, fd: int, gone: bool, len: nat)
    requires st.IsOpen(fd)
    ensures var d := TimedReceiveSpec(env, st, fd, gone, len);
      var w := env.incoming(st.files.table[fd]);
      && d.st.files == st.files && |d.data| <= len
      && d.data + d.st.Wire(w) == st.Wire(w)
      && (forall c :: c != w ==> d.st.Wire(c) == st.Wire(c))
      && (var read := |d.data| + if Silent(env, st, fd) then 1 else 0;
          Counted(d) <= read && (Counted(d) == read <==> |d.data| <= INT_MAX))
  {
    var q := Settled(env, st, Poll(fd));
    var (st1, p) := TempFailureRetry(env, st, Poll(fd));
    if p.ret > 0 && p.revents.Input() {
      ReceiveEffect(env, st1, fd, gone || p.revents.hangup, len);
    }
  }

  lemma SentConserves(env: Platform, l: Link, a: int, b: int, c: nat, start: seq<byte>, data: seq<byte>, next: Sender)
    requires Conserved(env, l, a, b, c, start)
    ensures Conserved(env, Sent(env, l, a, data, next), a, b, c, start)
    ensures |data| <= INT_MAX ==> Sent(env, l, a, data, next).wide == l.wide
  {
    hide Sys, TempFailureRetry, SendSpec;
    SendSpecEffect(env, l.st, a, l.senderGone, data);
    var d := SendSpec(env, l.st, a, l.senderGone, data);
    var n := Accepted(env, l.st, a, data);
    calc {
      l.received + (l.st.Wire(c) + data[..n]);
      (l.received + l.st.Wire(c)) + data[..n];
      (start + l.taken) + data[..n];
      start + (l.taken + data[..n]);
    }
    assert n == 0 ==> data[..n] == [];
  }

  lemma NextConserves(env: Platform, l: Link, a: int, b: int, c: nat, start: seq<byte>, act: Act)
    requires Conserved(env, l, a, b, c, start)
    ensures Conserved(env, Next(env, l, a, b, act), a, b, c, start)
  {
    hide Sys, TempFailureRetry, SendSpec, ReceiveSpec, TimedReceiveSpec, Sent;
    match act
    case SendOnce(data) => SentConserves(env, l, a, b, c, start, data, Idle);
    case StartSendAll(_) =>
    case ContinueSendAll =>
      if l.sender.Sending? && l.sender.sent < |l.sender.buffer| {
        var rest := l.sender.buffer[l.sender.sent..];
        var d := SendSpec(env, l.st, a, l.senderGone, rest);
        if d.result.Thrown? || d.result.value < 0 {
          SentConserves(env, l, a, b, c, start, rest, Idle);
        } else {
          SentConserves(env, l, a, b, c, start, rest, Sending(l.sender.buffer, l.sender.sent + d.result.value));
        }
      }
    case ReceiveSome(len) =>
      ReceiveEffect(env, l.st, b, l.receiverGone, len);
      var d := ReceiveSpec(env, l.st, b, l.receiverGone, len);
      assert l.received + d.data + d.st.Wire(c) == l.received + (d.data + d.st.Wire(c));
    case TimedReceiveSome(len) =>
      TimedReceiveEffect(env, l.st, b, l.receiverGone, len);
      var d := TimedReceiveSpec(env, l.st, b, l.receiverGone, len);
      assert l.received + d.data + d.st.Wire(c) == l.received + (d.data + d.st.Wire(c));
  }

  lemma {:induction false} AfterConserves(env: Platform, l: Link, a: int, b: int, c: nat, start: seq<byte>,
                                            acts: seq<Act>)
    requires Conserved(env, l, a, b, c, start)
    ensures Conserved(env, After(env, l, a, b, acts), a, b, c, start)
    decreases |acts|
  {
    hide Next, Conserved;
    if acts != [] {
      NextConserves(env, l, a, b, c, start, acts[0]);
      AfterConserves(env, Next(env, l, a, b, acts[0]), a, b, c, start, acts[1..]);
    }
  }

  function Opened(st: KState): Link { Link(st, Idle, false, false, [], [], [], 0, 0, 0, 0, None) }

  /** In every interleaving, what was received and what is under way are together what the sender was told it
      sent, exactly when no single write moved more bytes than an int can count. */
  lemma EndToEnd(env: Platform, st: KState, a: int, b: int, c: nat, acts: seq<Act>)
    requires Connected(env, st, a, b, c)
    ensures var l := After(env, Opened(st), a, b, acts);
      l.received + l.st.Wire(c) == st.Wire(c) + l.accepted <==> l.wide == 0
  {
    hide Next;
    AfterConserves(env, Opened(st), a, b, c, st.Wire(c), acts);
    var l := After(env, Opened(st), a, b, acts);
    if l.received + l.st.Wire(c) == st.Wire(c) + l.accepted {
      assert |st.Wire(c) + l.accepted| == |st.Wire(c) + l.taken|;
    }
  }

  // ---- what the receiver is told

  ghost predicate Tallied(l: Link) {
    && l.total <= |l.received| + l.silent
    && (l.total == |l.received| + l.silent <==> l.wideReads == 0)
  }

  lemma NextTallies(env: Platform, l: Link, a: int, b: int, act: Act)
    requires l.st.IsOpen(b) && Tallied(l)
    ensures Tallied(Next(env, l, a, b, act))
  {
    hide Sys, TempFailureRetry, SendSpec, ReceiveSpec, TimedReceiveSpec, Silent, Counted;
    match act
    case ReceiveSome(len) => ReceiveEffect(env, l.st, b, l.receiverGone, len);
    case TimedReceiveSome(len) => TimedReceiveEffect(env, l.st, b, l.receiverGone, len);
    case _ =>
  }

  lemma {:induction false} AfterTallies(env: Platform, l: Link, a: int, b: int, c: nat, start: seq<byte>,
                                        acts: seq<Act>)
    requires Conserved(env, l, a, b, c, start) && Tallied(l)
    ensures Tallied(After(env, l, a, b, acts))
    decreases |acts|
  {
    if acts != [] {
      assert l.st.IsOpen(b);
      hide Next, Conserved, Tallied;
      NextConserves(env, l, a, b, c, start, acts[0]);
      NextTallies(env, l, a, b, acts[0]);
      AfterTallies(env, Next(env, l, a, b, acts[0]), a, b, c, start, acts[1..]);
    }
  }

  /** In every interleaving, with buffers of any size, the receiver's return values add up to the bytes it got,
      plus one for each timed receive that a hang-up or an error woke without input, exactly when no single
      read moved more bytes than an int can count.  They never add up to more. */
  lemma TallyExactly(env: Platform, st: KState, a: int, b: int, c: nat, acts: seq<Act>)
    requires Connected(env, st, a, b, c)
    ensures var l := After(env, Opened(st), a, b, acts);
      && (l.total == |l.received| + l.silent <==> l.wideReads == 0)
      && l.total <= |l.received| + l.silent
  {
    hide Next;
    AfterTallies(env, Opened(st), a, b, c, st.Wire(c), acts);
  }

  /** A wide read can happen, and then receive throws after the bytes are gone from the channel. */
  lemma WideReadThrows(env: Platform, st: KState, fd: int, gone: bool, len: nat)
    requires st.IsOpen(fd) && len > INT_MAX && |st.Wire(env.incoming(st.files.table[fd]))| > INT_MAX
    requires env.at(st.pos).ok && env.at(st.pos).count == INT_MAX + 1
    ensures var d := ReceiveSpec(env, st, fd, gone, len);
      var w := env.incoming(st.files.table[fd]);
      d.result.Thrown? && d.data == st.Wire(w)[..INT_MAX + 1] && d.st.Wire(w) == st.Wire(w)[INT_MAX + 1..]
  {
    assert Narrow(INT_MAX + 1) < 0;
  }

  predicate SmallSends(acts: seq<Act>) {
    forall i :: 0 <= i < |acts| && (acts[i].SendOnce? || acts[i].StartSendAll?) ==> |acts[i].data| <= INT_MAX
  }

  predicate SmallReads(acts: seq<Act>) {
    forall i :: 0 <= i < |acts| && (acts[i].ReceiveSome? || acts[i].TimedReceiveSome?) ==> acts[i].len <= INT_MAX
  }

  ghost predicate Modest(l: Link, puts: bool, gets: bool) {
    && (puts ==> l.wide == 0 && (l.sender.Sending? ==> |l.sender.buffer| <= INT_MAX))
    && (gets ==> l.wideReads == 0)
  }

  lemma NextModest(env: Platform, l: Link, a: int, b: int, puts: bool, gets: bool, act: Act)
    requires l.st.IsOpen(b) && Modest(l, puts, gets)
    requires (puts ==> SmallSends([act])) && (gets ==> SmallReads([act]))
    ensures Modest(Next(env, l, a, b, act), puts, gets)
  {
    assert [act][0] == act;
    hide Sys, TempFailureRetry, SendSpec, ReceiveSpec, TimedReceiveSpec, Silent, Counted;
    match act
    case SendOnce(data) => SendSpecEffect(env, l.st, a, l.senderGone, data);
    case StartSendAll(_) =>
    case ContinueSendAll =>
      if l.sender.Sending? && l.sender.sent < |l.sender.buffer| {
        SendSpecEffect(env, l.st, a, l.senderGone, l.sender.buffer[l.sender.sent..]);
      }
    case ReceiveSome(len) => ReceiveEffect(env, l.st, b, l.receiverGone, len);
    case TimedReceiveSome(len) => TimedReceiveEffect(env, l.st, b, l.receiverGone, len);
  }

  lemma {:induction false} AfterModest(env: Platform, l: Link, a: int, b: int, c: nat, start: seq<byte>, acts: seq<Act>,
                                       puts: bool, gets: bool)
    requires Conserved(env, l, a, b, c, start) && Modest(l, puts, gets)
    requires (puts ==> SmallSends(acts)) && (gets ==> SmallReads(acts))
    ensures Modest(After(env, l, a, b, acts), puts, gets)
    decreases |acts|
  {
    if acts != [] {
      assert l.st.IsOpen(b);
      assert forall i :: 0 <= i < |acts[1..]| ==> acts[1..][i] == acts[i + 1];
      assert (puts ==> SmallSends([acts[0]])) && (gets ==> SmallReads([acts[0]]));
      assert (puts ==> SmallSends(acts[1..])) && (gets ==> SmallReads(acts[1..]));
      hide Next, Conserved, Modest, SmallSends, SmallReads;
      NextConserves(env, l, a, b, c, start, acts[0]);
      NextModest(env, l, a, b, puts, gets, acts[0]);
      AfterModest(env, Next(env, l, a, b, acts[0]), a, b, c, start, acts[1..], puts, gets);
    }
  }

  /** With small sends the bytes are conserved, and with small reads the receiver's tally is right; neither
      needs the other. */
  lemma SmallRuns(env: Platform, st: KState, a: int, b: int, c: nat, acts: seq<Act>)
    requires Connected(env, st, a, b, c)
    ensures var l := After(env, Opened(st), a, b, acts);
      && (SmallSends(acts) ==> l.received + l.st.Wire(c) == st.Wire(c) + l.accepted)
      && (SmallReads(acts) ==> l.total == |l.received| + l.silent && (l.total == |l.received| <==> l.silent == 0))
  {
    hide Next;
    AfterModest(env, Opened(st), a, b, c, st.Wire(c), acts, SmallSends(acts), SmallReads(acts));
    EndToEnd(env, st, a, b, c, acts);
    TallyExactly(env, st, a, b, c, acts);
  }

  function Repeat(n: nat): seq<Act> { seq(n, _ => ContinueSendAll) }

  /** Left alone, the steps of a sendAll are the call of sendAll. */
  lemma {:induction false} SendAllIsItsSteps(env: Platform, l: Link, a: int, b: int) returns (n: nat)
    requires l.sender.Sending? && l.sender.sent <= |l.sender.buffer|
    ensures var l' := After(env, l, a, b, Repeat(n));
      var d := SendAllSpec(env, l.st, a, l.senderGone, l.sender.buffer, l.sender.sent);
      l'.sender.Idle? && l'.st == d.st && l'.senderGone == d.gone && l'.finished == Some(d.result)
    decreases |l.sender.buffer| - l.sender.sent, env.patience(l.st.pos)
  {
    hide Sys, TempFailureRetry, SendSpec;
    var l1 := Next(env, l, a, b, ContinueSendAll);
    n := 1;
    if l.sender.sent < |l.sender.buffer| {
      SendProgress(env, l.st, a, l.senderGone, l.sender.buffer[l.sender.sent..]);
      if l1.sender.Sending? {
        var m := SendAllIsItsSteps(env, l1, a, b);
        n := m + 1;
        assert Repeat(n)[1..] == Repeat(m);
      }
    }
    if l1.sender.Idle? {
      assert Repeat(1)[1..] == [];
    }
  }
}
