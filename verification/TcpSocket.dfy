/** TCPSocket.cpp: `sendAll`, the loop over partial writes. */
module TcpSockets {
  import opened Posix
  import opened SimpleSockets

  /** The loop of sendAll once `sent` bytes are counted as sent.  It ends for every kernel that does not
      stall for ever: a round sends something, or has used up an answer that stalls. */
  function SendAllSpec(env: Platform, st: KState, fd: int, gone: bool, buffer: seq<byte>, sent: nat): Done
    requires sent <= |buffer|
    decreases |buffer| - sent, env.patience(st.pos)
  {
    if sent == |buffer| then Done(st, gone, Returned(Narrow(sent)), []) else
    var d := SendSpec(env, st, fd, gone, buffer[sent..]);
    SendProgress(env, st, fd, gone, buffer[sent..]);
    if d.result.Thrown? || d.result.value < 0 then d
    else SendAllSpec(env, d.st, fd, d.gone, buffer, sent + d.result.value)
  }

  /** The channel that a descriptor's bytes go to. */
  function OutOf(env: Env, st: KState, fd: int): nat
    requires st.IsOpen(fd)
  {
    env.outgoing(st.files.table[fd])
  }

  /** How many bytes of `data` one retried send gives to the kernel. */
  function Accepted(env: Platform, st: KState, fd: int, data: seq<byte>): nat {
    var r := TempFailureRetry(env, st, Send(fd, data)).1;
    if r.ret < 0 then 0 else r.ret
  }

  /** What one retried send system call does, whatever the kernel answers. */
  lemma RetriedSend(env: Platform, st: KState, fd: int, data: seq<byte>)
    ensures var (st1, r) := TempFailureRetry(env, st, Send(fd, data));
      var n := Accepted(env, st, fd, data);
      && n <= |data| && (r.ret >= 0 ==> r.ret == n)
      && st1 == st.(pos := st1.pos, errno := st1.errno, wires := st1.wires)
      && (st.IsOpen(fd) ==> st1.Wire(OutOf(env, st, fd)) == st.Wire(OutOf(env, st, fd)) + data[..n])
      && (!st.IsOpen(fd) ==> r.ret < 0)
      && (r.ret < 0 ==> st1.wires == st.wires)
      && (forall c :: !st.IsOpen(fd) || c != OutOf(env, st, fd) ==> st1.Wire(c) == st.Wire(c))
      && (r.ret >= 0 && data != [] && !(1 <= n <= INT_MAX) ==> env.patience(st1.pos) < env.patience(st.pos))
  {
    var q := Settled(env, st, Send(fd, data));
    assert env.at(q.pos).Stalls() ==> env.patience(q.pos + 1) < env.patience(q.pos);
  }

  /** What one call of send does, whatever the kernel answers. */
  lemma SendSpecEffect(env: Platform, st: KState, fd: int, gone: bool, data: seq<byte>)
    ensures var d := SendSpec(env, st, fd, gone, data);
      var n := Accepted(env, st, fd, data);
      && n <= |data|
      && d.st == st.(pos := d.st.pos, errno := d.st.errno, wires := d.st.wires)
      && (st.IsOpen(fd) ==> d.st.Wire(OutOf(env, st, fd)) == st.Wire(OutOf(env, st, fd)) + data[..n])
      && (!st.IsOpen(fd) ==> n == 0)
      && (forall c :: !st.IsOpen(fd) || c != OutOf(env, st, fd) ==> d.st.Wire(c) == st.Wire(c))
      && (d.result.Returned? && d.result.value >= 0 ==> d.result.value == Narrow(n) <= n && d.gone == gone)
      && (d.result.Returned? && d.result.value < 0 ==> d.gone)
      && (n < 0x1_0000_0000 && d.result.Returned? && d.result.value >= 0 ==> d.result.value == n)
      && (n <= INT_MAX && !(d.result.Returned? && d.result.value >= 0) ==> n == 0)
      && (n <= INT_MAX && d.result.Returned? && d.result.value < 0 ==> d.result.value == -1)
      && (d.result == Returned(0) && data != [] ==> env.patience(d.st.pos) < env.patience(st.pos))
  {
    RetriedSend(env, st, fd, data);
  }

  /** Why the loop goes on and ends. */
  lemma SendProgress(env: Platform, st: KState, fd: int, gone: bool, data: seq<byte>)
    ensures var d := SendSpec(env, st, fd, gone, data);
      && (d.result.Returned? ==> d.result.value <= |data|)
      && (d.result == Returned(0) && data != [] ==> env.patience(d.st.pos) < env.patience(st.pos))
  {
    SendSpecEffect(env, st, fd, gone, data);
  }

  /** From this length on, the number of bytes that one write takes can be a multiple of 2^32. */
  const WRAP := 0x1_0000_0000

  /** No single write is larger than an int can count.  Linux keeps to this for every length; for lengths
      up to INT_MAX every kernel does. */
  ghost predicate Countable(env: Env, len: nat) {
    len <= INT_MAX || forall p: nat :: env.at(p).count <= INT_MAX
  }

  /** What sendAll does when the answer `a` to its last write is a failure. */
  ghost predicate Fails(a: Answer, gone: bool, d: Done) {
    && !a.ok
    && d.result == (if PeerLost(a.err) then Returned(-1) else Thrown(System(a.err)))
    && d.gone == (gone || PeerLost(a.err))
  }

  /** The loop gives the kernel `buffer[sent..k]`, and how it ends. */
  ghost predicate Gives(env: Platform, st: KState, fd: int, gone: bool, buffer: seq<byte>, sent: nat, k: nat)
    requires sent <= k <= |buffer| && st.IsOpen(fd)
  {
    var d := SendAllSpec(env, st, fd, gone, buffer, sent);
    var w := OutOf(env, st, fd);
    && d.st == st.(pos := d.st.pos, errno := d.st.errno, wires := d.st.wires)
    && d.st.Wire(w) == st.Wire(w) + buffer[sent..k]
    && (forall c :: c != w ==> d.st.Wire(c) == st.Wire(c))
    && (d.result.Returned? && d.result.value >= 0 ==> k == |buffer|)
    && (k < |buffer| ==> d.result.Thrown? || (d.result.value < 0 && d.gone))
    && (Countable(env, |buffer|) && k == |buffer| ==> d.result == Returned(Narrow(|buffer|)) && d.gone == gone)
    && (k < |buffer| ==> d.st.pos > st.pos)
    && (Countable(env, |buffer|) && k < |buffer| ==> Fails(env.at(d.st.pos - 1), gone, d))
  }

  lemma {:induction false} SendAllRounds(env: Platform, st: KState, fd: int, gone: bool, buffer: seq<byte>, sent: nat)
    returns (k: nat)
    requires sent <= |buffer| && st.IsOpen(fd) && (|buffer| < WRAP || Countable(env, |buffer|))
    ensures sent <= k <= |buffer| && Gives(env, st, fd, gone, buffer, sent, k)
    decreases |buffer| - sent, env.patience(st.pos)
  {
    hide Sys, TempFailureRetry, Narrow, SendSpec, Fails;
    k := sent;
    assert buffer[sent..sent] == [];
    if sent < |buffer| {
      var rest := buffer[sent..];
      SendSpecEffect(env, st, fd, gone, rest);
      LastWrite(env, st, fd, gone, rest, |buffer|);
      AcceptedFits(env, st, fd, rest, |buffer|);
      var d := SendSpec(env, st, fd, gone, rest);
      var n := Accepted(env, st, fd, rest);
      if d.result.Returned? && d.result.value >= 0 {
        k := SendAllRounds(env, d.st, fd, d.gone, buffer, sent + n);
        Joined(st.Wire(OutOf(env, st, fd)), buffer[..k], sent, n);
        assert rest[..n] == buffer[..k][sent..][..n];
      } else {
        k := sent + n;
        assert rest[..n] == buffer[sent..k];
      }
    }
  }

  /** The write that ends the loop early. */
  lemma LastWrite(env: Platform, st: KState, fd: int, gone: bool, rest: seq<byte>, len: nat)
    requires |rest| <= len && st.IsOpen(fd)
    ensures var d := SendSpec(env, st, fd, gone, rest);
      && d.st.pos > st.pos
      && (Countable(env, len) && !(d.result.Returned? && d.result.value >= 0) ==> Fails(env.at(d.st.pos - 1), gone, d))
  {
    hide Sys, TempFailureRetry, SendSpec, Narrow;
    var q := Settled(env, st, Send(fd, rest));
    SendAnswers(env, st, fd, gone, rest);
    assert Countable(env, len) ==> Min(env.at(q.pos).count, |rest|) <= INT_MAX;
  }

  lemma AcceptedFits(env: Platform, st: KState, fd: int, data: seq<byte>, len: nat)
    requires |data| <= len
    ensures Countable(env, len) ==> Accepted(env, st, fd, data) <= INT_MAX
  {
    var q := Settled(env, st, Send(fd, data));
    assert Countable(env, len) && len > INT_MAX ==> env.at(q.pos).count <= INT_MAX;
  }

  /** Below 2^32 bytes, whatever the kernel answers, the channel gets exactly `buffer[..k]`: in order, without
      gap or repeat, however the writes are split and however the loop ends.  A result that is not negative
      means all of the buffer; when some of it is left, sendAll throws, or returns a negative number and has
      set the flag. */
  lemma SendAllEffect(env: Platform, st: KState, fd: int, gone: bool, buffer: seq<byte>) returns (k: nat)
    requires st.IsOpen(fd) && |buffer| < WRAP
    ensures var d := SendAllSpec(env, st, fd, gone, buffer, 0);
      var w := OutOf(env, st, fd);
      && k <= |buffer|
      && d.st == st.(pos := d.st.pos, errno := d.st.errno, wires := d.st.wires)
      && d.st.Wire(w) == st.Wire(w) + buffer[..k]
      && (forall c :: c != w ==> d.st.Wire(c) == st.Wire(c))
      && (d.result.Returned? && d.result.value >= 0 ==> k == |buffer|)
      && (k < |buffer| ==> d.result.Thrown? || (d.result.value < 0 && d.gone))
  {
    hide SendAllSpec;
    k := SendAllRounds(env, st, fd, gone, buffer, 0);
    assert buffer[0..k] == buffer[..k];
  }

  /** With a kernel that takes at most INT_MAX bytes at a time the length does not matter, and a full success
      leaves the flag as it was.  When something is left, the last answer is a failure: -1 is returned, and the
      flag set, exactly when it says that the peer is lost; otherwise its errno is thrown and the flag is as it
      was. */
  lemma SendAllCountable(env: Platform, st: KState, fd: int, gone: bool, buffer: seq<byte>) returns (k: nat)
    requires st.IsOpen(fd) && Countable(env, |buffer|)
    ensures var d := SendAllSpec(env, st, fd, gone, buffer, 0);
      var w := OutOf(env, st, fd);
      && k <= |buffer|
      && d.st.Wire(w) == st.Wire(w) + buffer[..k]
      && (k == |buffer| ==> d.result == Returned(Narrow(|buffer|)) && d.gone == gone)
      && (k < |buffer| ==> d.result.Thrown? || (d.result == Returned(-1) && d.gone))
      && (k < |buffer| ==> d.st.pos > st.pos && Fails(env.at(d.st.pos - 1), gone, d))
  {
    hide SendAllSpec;
    k := SendAllRounds(env, st, fd, gone, buffer, 0);
    assert buffer[0..k] == buffer[..k];
  }

  lemma Joined(wire: seq<byte>, buffer: seq<byte>, sent: nat, n: nat)
    requires sent + n <= |buffer|
    ensures wire + buffer[sent..][..n] + buffer[sent + n..] == wire + buffer[sent..]
  {
    assert buffer[sent..] == buffer[sent..][..n] + buffer[sent + n..];
  }

  // ---- kernels that take all they are given

  ghost predicate Generous(env: Env, from: nat) {
    forall p: nat :: from <= p ==> env.at(p).ok && 1 <= env.at(p).count <= INT_MAX
  }

  lemma GenerousSend(env: Platform, st: KState, fd: int, gone: bool, data: seq<byte>)
    requires st.IsOpen(fd) && data != [] && Generous(env, st.pos)
    ensures var d := SendSpec(env, st, fd, gone, data);
      d.result == Returned(Accepted(env, st, fd, data)) && d.st.pos >= st.pos
  {
    var q := Settled(env, st, Send(fd, data));
    assert env.at(q.pos).ok && 1 <= env.at(q.pos).count <= INT_MAX;
  }

  lemma {:induction false} GenerousSendsAll(env: Platform, st: KState, fd: int, gone: bool,
                                            buffer: seq<byte>, sent: nat)
    requires st.IsOpen(fd) && sent <= |buffer| && Generous(env, st.pos)
    ensures var d := SendAllSpec(env, st, fd, gone, buffer, sent);
      var w := OutOf(env, st, fd);
      d.result == Returned(Narrow(|buffer|)) && d.gone == gone && d.st.Wire(w) == st.Wire(w) + buffer[sent..]
    decreases |buffer| - sent, env.patience(st.pos)
  {
    hide Sys, TempFailureRetry, Narrow;
    if sent < |buffer| {
      var rest := buffer[sent..];
      SendSpecEffect(env, st, fd, gone, rest);
      GenerousSend(env, st, fd, gone, rest);
      var d := SendSpec(env, st, fd, gone, rest);
      var n := d.result.value;
      GenerousSendsAll(env, d.st, fd, d.gone, buffer, sent + n);
      Joined(st.Wire(OutOf(env, st, fd)), buffer, sent, n);
    }
  }

  /** From 2^32 bytes on, a kernel that takes 2^32 bytes in the first write and then at most INT_MAX at a time
      is told to take the whole buffer again: the int result of the first write is 0. */
  lemma WideWriteRepeats(env: Platform, st: KState, fd: int, gone: bool, buffer: seq<byte>)
    requires st.IsOpen(fd) && |buffer| >= WRAP
    requires env.at(st.pos).ok && env.at(st.pos).count == WRAP && Generous(env, st.pos + 1)
    ensures var d := SendAllSpec(env, st, fd, gone, buffer, 0);
      var w := OutOf(env, st, fd);
      d.st.Wire(w) == st.Wire(w) + buffer[..WRAP] + buffer
  {
    hide Sys, TempFailureRetry, Narrow, SendSpec;
    FirstWrite(env, st, fd, gone, buffer);
    var d := SendSpec(env, st, fd, gone, buffer);
    assert buffer[0..] == buffer;
    GenerousSendsAll(env, d.st, fd, gone, buffer, 0);
  }

  lemma FirstWrite(env: Platform, st: KState, fd: int, gone: bool, buffer: seq<byte>)
    requires st.IsOpen(fd) && |buffer| >= WRAP && env.at(st.pos).ok && env.at(st.pos).count == WRAP
    ensures var d := SendSpec(env, st, fd, gone, buffer);
      && d.result == Returned(0) && d.gone == gone && d.st.pos == st.pos + 1 && d.st.files == st.files
      && d.st.Wire(OutOf(env, st, fd)) == st.Wire(OutOf(env, st, fd)) + buffer[..WRAP]
  {
    assert Narrow(WRAP) == 0;
  }

  /** A kernel for each of the two. */
  const WIDE: Env := Env((p: nat) => if p == 0 then SUCCESS.(count := WRAP) else SUCCESS,
                         (p: nat) => if p == 0 then 1 else 0, true, i => i, i => i, _ => None)

  const GENEROUS: Env := Env(_ => SUCCESS, _ => 0, true, i => i, i => i, _ => None)

  const CONNECTED := KState(0, EBADF, Files(map[3 := 0], 1, []), map[], map[], [])

  // ---- exactly when sendAll keeps its promises

  /** Whatever happens, the channel gets a prefix of the buffer. */
  ghost predicate SendsPrefix(env: Platform, st: KState, fd: int, gone: bool, buffer: seq<byte>)
    requires st.IsOpen(fd)
  {
    var w := OutOf(env, st, fd);
    exists k: nat :: k <= |buffer| && SendAllSpec(env, st, fd, gone, buffer, 0).st.Wire(w) == st.Wire(w) + buffer[..k]
  }

  /** The length is returned when, and only when, the whole buffer is sent. */
  ghost predicate ReportsSuccess(env: Platform, st: KState, fd: int, gone: bool, buffer: seq<byte>)
    requires st.IsOpen(fd)
  {
    var w := OutOf(env, st, fd);
    var d := SendAllSpec(env, st, fd, gone, buffer, 0);
    d.result == Returned(|buffer|) <==> d.st.Wire(w) == st.Wire(w) + buffer
  }

  /** For every kernel and state the channel gets a prefix of the buffer, exactly below 2^32 bytes. */
  lemma PrefixExactly(buffer: seq<byte>)
    ensures (forall env: Platform, st: KState, fd: int, gone: bool ::
               st.IsOpen(fd) ==> SendsPrefix(env, st, fd, gone, buffer))
            <==> |buffer| < WRAP
  {
    hide SendAllSpec;
    if |buffer| < WRAP {
      forall env: Platform, st: KState, fd: int, gone: bool | st.IsOpen(fd)
        ensures SendsPrefix(env, st, fd, gone, buffer)
      {
        var k := SendAllEffect(env, st, fd, gone, buffer);
      }
    } else {
      assert WIDE.Fair();
      var env: Platform := WIDE;
      assert CONNECTED.IsOpen(3);
      WideWriteRepeats(env, CONNECTED, 3, false, buffer);
      assert !SendsPrefix(env, CONNECTED, 3, false, buffer) by {
        var w := OutOf(env, CONNECTED, 3);
        assert |SendAllSpec(env, CONNECTED, 3, false, buffer, 0).st.Wire(w)| == |CONNECTED.Wire(w)| + WRAP + |buffer|;
      }
    }
  }

  lemma {:induction false} ResultIsInt(env: Platform, st: KState, fd: int, gone: bool, buffer: seq<byte>, sent: nat)
    requires sent <= |buffer|
    ensures var d := SendAllSpec(env, st, fd, gone, buffer, sent); d.result.Returned? ==> d.result.value <= INT_MAX
    decreases |buffer| - sent, env.patience(st.pos)
  {
    hide Sys, TempFailureRetry, Narrow;
    if sent < |buffer| {
      SendProgress(env, st, fd, gone, buffer[sent..]);
      var d := SendSpec(env, st, fd, gone, buffer[sent..]);
      if d.result.Returned? && d.result.value >= 0 {
        ResultIsInt(env, d.st, fd, d.gone, buffer, sent + d.result.value);
      }
    }
  }

  /** Up to INT_MAX bytes, sendAll returns the length exactly when the whole buffer was sent. */
  lemma SendAllReturnsLength(env: Platform, st: KState, fd: int, gone: bool, buffer: seq<byte>)
    requires st.IsOpen(fd) && |buffer| <= INT_MAX
    ensures ReportsSuccess(env, st, fd, gone, buffer)
  {
    hide SendAllSpec;
    var k := SendAllCountable(env, st, fd, gone, buffer);
    var d := SendAllSpec(env, st, fd, gone, buffer, 0);
    if k == |buffer| {
      assert buffer[..k] == buffer;
    } else {
      assert |d.st.Wire(OutOf(env, st, fd))| != |st.Wire(OutOf(env, st, fd)) + buffer|;
    }
  }

  /** Above the bound no kernel makes sendAll return the length.  A full success at 2^32 - 1 bytes, with a
      kernel that takes at most INT_MAX at a time, returns what a failure returns and leaves the flag as it
      was. */
  lemma SendAllBeyondInt(env: Platform, st: KState, fd: int, gone: bool, buffer: seq<byte>)
    requires st.IsOpen(fd) && |buffer| > INT_MAX
    ensures var d := SendAllSpec(env, st, fd, gone, buffer, 0);
      var w := OutOf(env, st, fd);
      && d.result != Returned(|buffer|)
      && (Generous(env, st.pos) ==> d.st.Wire(w) == st.Wire(w) + buffer && d.gone == gone)
      && (Generous(env, st.pos) && |buffer| == WRAP - 1 ==> d.result == Returned(-1))
  {
    hide SendAllSpec;
    ResultIsInt(env, st, fd, gone, buffer, 0);
    if Generous(env, st.pos) {
      GenerousSendsAll(env, st, fd, gone, buffer, 0);
      assert buffer[0..] == buffer;
      assert Narrow(WRAP - 1) == -1;
    }
  }

  /** For every kernel and state the length is returned when and only when all was sent, exactly up to
      INT_MAX bytes. */
  lemma ReportExactly(buffer: seq<byte>)
    ensures (forall env: Platform, st: KState, fd: int, gone: bool ::
               st.IsOpen(fd) ==> ReportsSuccess(env, st, fd, gone, buffer))
            <==> |buffer| <= INT_MAX
  {
    hide SendAllSpec;
    if |buffer| <= INT_MAX {
      forall env: Platform, st: KState, fd: int, gone: bool | st.IsOpen(fd)
        ensures ReportsSuccess(env, st, fd, gone, buffer)
      {
        SendAllReturnsLength(env, st, fd, gone, buffer);
      }
    } else {
      assert GENEROUS.Fair();
      var env: Platform := GENEROUS;
      assert CONNECTED.IsOpen(3);
      SendAllBeyondInt(env, CONNECTED, 3, false, buffer);
      assert !ReportsSuccess(env, CONNECTED, 3, false, buffer);
    }
  }

  /** The fairness of the kernel is needed: `n` rounds of the loop against a kernel that only writes
      nothing do not bring it any further. */
  function Rounds(env: Env, st: KState, fd: int, buffer: seq<byte>, sent: nat, n: nat): (r: (KState, int))
    requires sent <= |buffer|
    decreases n
  {
    if n == 0 || sent == |buffer| then (st, sent) else
    var (st1, r) := Sys(env, st, Send(fd, buffer[sent..]));
    var ret := Narrow(r.ret);
    if ret < 0 || sent + ret > |buffer| then (st1, ret) else Rounds(env, st1, fd, buffer, sent + ret, n - 1)
  }

  lemma {:induction false} ZeroWritesNeverEnd(env: Env, st: KState, fd: int, buffer: seq<byte>, sent: nat, n: nat)
    requires sent < |buffer| && st.IsOpen(fd)
    requires forall p: nat :: st.pos <= p ==> env.at(p).ok && env.at(p).count == 0
    ensures var (st1, sent1) := Rounds(env, st, fd, buffer, sent, n);
      sent1 == sent && st1.pos == st.pos + n && forall c :: st1.Wire(c) == st.Wire(c)
    decreases n
  {
    if n > 0 {
      assert env.at(st.pos).count == 0;
      var (st1, r) := Sys(env, st, Send(fd, buffer[sent..]));
      assert r.ret == 0;
      ZeroWritesNeverEnd(env, st1, fd, buffer, sent, n - 1);
    }
  }

  method SendAll(s: SimpleSocket, k: Kernel, buffer: seq<byte>) returns (r: Outcome<int>)
    modifies k, s`peerDisconnected
    ensures Done(k.st, s.peerDisconnected, r, [])
         == SendAllSpec(k.env, old(k.st), s.descriptor, old(s.peerDisconnected), buffer, 0)
  {
    hide Sys, TempFailureRetry;
    var sent: nat := 0;
    while sent != |buffer|
      invariant sent <= |buffer|
      invariant SendAllSpec(k.env, old(k.st), s.descriptor, old(s.peerDisconnected), buffer, 0)
             == SendAllSpec(k.env, k.st, s.descriptor, s.peerDisconnected, buffer, sent)
      decreases |buffer| - sent, k.env.patience(k.st.pos)
    {
      SendProgress(k.env, k.st, s.descriptor, s.peerDisconnected, buffer[sent..]);
      var ret := s.Send(k, buffer[sent..]);
      if ret.Thrown? || ret.value < 0 {
        return ret;
      }
      sent := sent + ret.value;
    }
    return Returned(Narrow(sent));
  }
}
