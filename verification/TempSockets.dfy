/** The temporary socket that every interface function of SocketUtils.cpp opens for one ioctl. */
module TempSockets {
  import opened Posix
  import opened SimpleSockets

  /** The body of such a function once the interface name is accepted: the destructor of the temporary
      runs on every way out. */
  method Ioctl(k: Kernel) returns (r: Outcome<()>)
    modifies k
    ensures var (st1, n) := Sys(k.env, old(k.st), Open);
      if n.ret < 0 then k.st == st1 && r == Thrown(System(st1.errno))
      else
        var (st2, m) := Sys(k.env, st1, Control(n.ret));
        && k.st == TempFailureRetry(k.env, st2, Close(n.ret)).0
        && r == (if m.ret < 0 then Thrown(System(st2.errno)) else Returned(()))
  {
    var sock := SimpleSocket.Create(k);
    if sock.Thrown? {
      return Thrown(sock.fault);
    }
    var n := k.Do(Control(sock.value.descriptor));
    r := if n.ret < 0 then Thrown(System(k.st.errno)) else Returned(());
    sock.value.Destroy(k);
  }

  /** Opening, one ioctl and the retried close leave the descriptor table as it was. */
  lemma TableRestored(env: Platform, st: KState)
    ensures var (st1, n) := Sys(env, st, Open);
      var (st2, m) := Sys(env, st1, Control(n.ret));
      var st3 := TempFailureRetry(env, st2, Close(n.ret)).0;
      if n.ret < 0 then st1.files == st.files
      else env.retries ==> st3.files == Files(st.files.table, st.files.next + 1, st.files.closed + [st.files.next])
  {
    var (st1, n) := Sys(env, st, Open);
    if n.ret >= 0 {
      var (st2, m) := Sys(env, st1, Control(n.ret));
      CloseSettles(env, st2, n.ret);
      assert st.files.Open(n.ret).table - {n.ret} == st.files.table;
    }
  }
}
