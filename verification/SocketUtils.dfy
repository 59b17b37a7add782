/** SocketUtils.cpp: interface names in and out of `struct ifreq`, and the functions around one ioctl. */
module SocketUtils {
  import opened Posix
  import opened SimpleSockets
  import opened Text
  import Printers
  import TempSockets

  // struct ifreq: the name, then the address family in two bytes, then the rest of the union
  const NAME := 16
  const IFREQ := 40
  const MAX_RECORDS := 32

  function Family(data: seq<byte>, at: nat): nat
    requires at + IFREQ <= |data|
  {
    data[at + NAME] as int + 0x100 * data[at + NAME + 1] as int
  }

  /** std::string(ifr_name): the bytes up to a NUL. */
  function Name(data: seq<byte>, at: nat): seq<byte>
    requires at + IFREQ <= |data|
  {
    UpTo(data[at..], 0)
  }

  predicate Records(data: seq<byte>, at: nat) {
    at % IFREQ == 0 && at <= |data| && |data| % IFREQ == 0
  }

  /** The walk from `at` to the reported length. */
  function Names(data: seq<byte>, at: nat, len: nat): seq<seq<byte>>
    requires Records(data, at) && len <= |data|
    decreases |data| - at
  {
    if at >= len then [] else
    assert at + IFREQ <= |data|;
    (if Family(data, at) == AF_INET then [Name(data, at)] else []) + Names(data, at + IFREQ, len)
  }

  method WalkRecords(data: array<byte>, len: nat) returns (ret: seq<seq<byte>>)
    requires data.Length == MAX_RECORDS * IFREQ && len <= data.Length
    ensures ret == Names(data[..], 0, len)
  {
    hide UpTo;
    ret := [];
    var at := 0;
    while at < len
      invariant Records(data[..], at)
      invariant ret + Names(data[..], at, len) == Names(data[..], 0, len)
      decreases len - at
    {
      ghost var before := ret;
      assert at + IFREQ <= data.Length;
      var family := data[at + NAME] as int + 0x100 * data[at + NAME + 1] as int;
      match family {
      case 2 =>
        ret := ret + [UpTo(data[at..], 0)];
        assert data[..][at..] == data[at..];
        assert before + ([Name(data[..], at)] + Names(data[..], at + IFREQ, len))
            == ret + Names(data[..], at + IFREQ, len);
      case _ =>
      }
      at := at + IFREQ;
    }
  }

  // ---- what the walk finds

  /** One record as the kernel writes it. */
  datatype Record = Record(name: seq<byte>, junk: seq<byte>, family: nat, rest: seq<byte>)
  {
    predicate Valid() {
      0 !in name && |name| + 1 + |junk| == NAME && family < 0x1_0000 && |rest| == IFREQ - NAME - 2
    }

    function Bytes(): (b: seq<byte>)
      requires Valid()
      ensures |b| == IFREQ
    {
      name + [0] + junk + [family % 0x100, family / 0x100] + rest
    }
  }

  predicate AllValid(rs: seq<Record>) { forall i :: 0 <= i < |rs| ==> rs[i].Valid() }

  function Encoded(rs: seq<Record>): (b: seq<byte>)
    requires AllValid(rs)
    ensures |b| == IFREQ * |rs|
  {
    if rs == [] then [] else rs[0].Bytes() + Encoded(rs[1..])
  }

  function InetNames(rs: seq<Record>): seq<seq<byte>> {
    if rs == [] then []
    else (if rs[0].family == AF_INET then [rs[0].name] else []) + InetNames(rs[1..])
  }

  lemma RecordReads(data: seq<byte>, at: nat, r: Record, rest: seq<byte>)
    requires r.Valid() && at <= |data| && data[at..] == r.Bytes() + rest
    ensures Name(data, at) == r.name
    ensures Family(data, at) == r.family
  {
    hide UpTo;
    var b := r.Bytes();
    assert at + IFREQ <= |data|;
    var after: seq<byte> := r.junk + [r.family % 0x100, r.family / 0x100] + r.rest + rest;
    var nul: byte := 0;
    assert data[at..] == r.name + [nul] + after;
    UpToStops(r.name, after, nul);
    assert data[at + NAME] == data[at..][NAME] == b[NAME] == r.family % 0x100;
    assert data[at + NAME + 1] == data[at..][NAME + 1] == b[NAME + 1] == r.family / 0x100;
    assert r.family % 0x100 + 0x100 * (r.family / 0x100) == r.family;
  }

  /** The walk over any list of records, whatever follows it in the buffer, gives the names of the AF_INET
      records, in order. */
  lemma {:induction false} WalkFinds(data: seq<byte>, at: nat, rs: seq<Record>, tail: seq<byte>)
    requires AllValid(rs) && Records(data, at) && data[at..] == Encoded(rs) + tail
    ensures at + IFREQ * |rs| <= |data| && Names(data, at, at + IFREQ * |rs|) == InetNames(rs)
    decreases |rs|
  {
    hide UpTo, Family, Name;
    if rs != [] {
      assert data[at..] == rs[0].Bytes() + (Encoded(rs[1..]) + tail);
      RecordReads(data, at, rs[0], Encoded(rs[1..]) + tail);
      assert data[at + IFREQ..] == data[at..][IFREQ..] == Encoded(rs[1..]) + tail;
      WalkFinds(data, at + IFREQ, rs[1..], tail);
    }
  }

  // ---- what the walk reads

  predicate Terminated(data: seq<byte>, at: nat)
    requires at + IFREQ <= |data|
  {
    0 in data[at..at + NAME]
  }

  /** Every record that begins inside the reported length has a NUL in its name field. */
  ghost predicate AllTerminated(data: seq<byte>, at: nat, len: nat)
    requires Records(data, at)
  {
    forall i: nat :: at <= i < len && i % IFREQ == 0 && i + IFREQ <= |data| ==> Terminated(data, i)
  }

  ghost predicate Agree(data: seq<byte>, data': seq<byte>, len: nat) {
    |data| == |data'| && len <= |data| && forall i :: 0 <= i < len ==> data[i] == data'[i]
  }

  lemma {:induction false} UpToLocal(s: seq<byte>, t: seq<byte>, n: nat)
    requires Agree(s, t, n) && 0 in s[..n]
    ensures UpTo(s, 0) == UpTo(t, 0)
    decreases n
  {
    if s[0] != 0 {
      assert s[..n] == [s[0]] + s[1..][..n - 1];
      UpToLocal(s[1..], t[1..], n - 1);
    }
  }

  /** The last record may stick out of the reported length only beyond its family. */
  predicate WholeEnough(len: nat) { len % IFREQ == 0 || len % IFREQ >= NAME + 2 }

  /** Two multiples of the record size are a record apart. */
  lemma Apart(at: nat, last: nat)
    requires at % IFREQ == 0 && last % IFREQ == 0 && at < last
    ensures at + IFREQ <= last
  {
  }

  lemma HeadReported(at: nat, len: nat)
    requires at % IFREQ == 0 && at < len && WholeEnough(len)
    ensures at + NAME + 2 <= len
  {
    if len % IFREQ == 0 {
      Apart(at, len);
    } else if at < len - len % IFREQ {
      Apart(at, len - len % IFREQ);
    }
  }

  lemma RecordLocal(data: seq<byte>, data': seq<byte>, at: nat, len: nat)
    requires at + IFREQ <= |data| && at + NAME + 2 <= len && Agree(data, data', len) && Terminated(data, at)
    ensures Name(data, at) == Name(data', at) && Family(data, at) == Family(data', at)
  {
    var s, t := data[at..], data'[at..];
    assert s[..NAME] == data[at..at + NAME];
    assert forall i :: 0 <= i < NAME ==> s[i] == data[at + i] && t[i] == data'[at + i];
    UpToLocal(s, t, NAME);
  }

  lemma {:induction false} WalkLocal(data: seq<byte>, data': seq<byte>, at: nat, len: nat)
    requires Agree(data, data', len) && Records(data, at) && WholeEnough(len) && AllTerminated(data, at, len)
    ensures Names(data, at, len) == Names(data', at, len)
    decreases |data| - at
  {
    if at < len {
      Apart(at, |data|);
      HeadReported(at, len);
      assert Terminated(data, at);
      RecordLocal(data, data', at, len);
      hide Name, Family, Agree, WholeEnough, Terminated;
      WalkLocal(data, data', at + IFREQ, len);
    }
  }

  ghost predicate ReadsOnlyReported(size: nat, len: nat)
    requires size % IFREQ == 0 && len <= size
  {
    forall data: seq<byte>, data': seq<byte> ::
      |data| == size && Agree(data, data', len) && AllTerminated(data, 0, len)
      ==> Names(data, 0, len) == Names(data', 0, len)
  }

  lemma {:induction false} SilentRecords(data: seq<byte>, at: nat, last: nat, len: nat)
    requires Records(data, at) && len <= |data| && at <= last < len <= last + IFREQ && last % IFREQ == 0
    requires forall i: nat :: i < last ==> data[i] == 0
    ensures Names(data, at, len) == Names(data, last, len)
    decreases last - at
  {
    if at < last {
      Apart(at, last);
      assert Family(data, at) == 0;
      hide Name, Family;
      SilentRecords(data, at + IFREQ, last, len);
    }
  }

  /** The result depends on the reported bytes alone exactly when the last record's name and family are
      reported; a whole number of records is always enough. */
  lemma ReadsExactly(size: nat, len: nat)
    requires size % IFREQ == 0 && len <= size
    ensures ReadsOnlyReported(size, len) <==> WholeEnough(len)
  {
    if WholeEnough(len) {
      forall data: seq<byte>, data': seq<byte>
        | |data| == size && Agree(data, data', len) && AllTerminated(data, 0, len)
        ensures Names(data, 0, len) == Names(data', 0, len)
      {
        WalkLocal(data, data', 0, len);
      }
    } else {
      ReadsBeyond(size, len);
    }
  }

  lemma LastRecord(data: seq<byte>, last: nat, len: nat)
    requires Records(data, last) && last < len <= |data| && len <= last + IFREQ
    ensures last + IFREQ <= |data|
    ensures |Names(data, last, len)| == if Family(data, last) == AF_INET then 1 else 0
  {
    hide Family, UpTo;
    assert last + IFREQ <= |data|;
    assert Names(data, last + IFREQ, len) == [];
  }

  /** Two buffers that differ only beyond the reported length, in the family of the last record. */
  lemma ReadsBeyond(size: nat, len: nat)
    requires size % IFREQ == 0 && len <= size && !WholeEnough(len)
    ensures !ReadsOnlyReported(size, len)
  {
    var last := len - len % IFREQ;
    var zeros: seq<byte> := seq(size, _ => 0);
    var data := zeros[last + NAME := AF_INET];
    var data' := data[last + NAME + 1 := 1];
    hide UpTo, Names;
    SilentRecords(data, 0, last, len);
    SilentRecords(data', 0, last, len);
    assert Agree(data, data', len);
    forall i: nat | 0 <= i < len && i % IFREQ == 0 && i + IFREQ <= |data| ensures Terminated(data, i) {
      assert data[i..i + NAME][0] == 0;
    }
    assert Family(data, last) == AF_INET && Family(data', last) != AF_INET;
    LastRecord(data, last, len);
    LastRecord(data', last, len);
  }

  // ---- assign_ifreq

  /** The structure after the copy of the name, what follows the NUL staying as it was. */
  function Assigned(ifr: seq<byte>, interface: seq<byte>): seq<byte>
    requires |ifr| == IFREQ && |interface| < NAME
  {
    interface + [0] + Kept(ifr, |interface| + 1)
  }

  function Kept(ifr: seq<byte>, from: nat): (k: seq<byte>)
    requires |ifr| == IFREQ && from <= NAME
    ensures |k| == IFREQ - from
  {
    ifr[from..NAME] + [AF_INET, 0] + ifr[NAME + 2..]
  }

  method AssignIfreq(ifr: array<byte>, interface: seq<byte>) returns (r: Outcome<()>)
    requires ifr.Length == IFREQ
    modifies ifr
    ensures |interface| >= NAME ==> r == Thrown(Plain) && ifr[..] == old(ifr[..])
    ensures |interface| < NAME ==> r == Returned(()) && ifr[..] == Assigned(old(ifr[..]), interface)
  {
    if |interface| >= NAME {
      return Thrown(Plain);
    }
    ifr[NAME], ifr[NAME + 1] := AF_INET, 0;
    forall i | 0 <= i < |interface| { ifr[i] := interface[i]; }
    ifr[|interface|] := 0;
    return Returned(());
  }

  /** The walk finds the name that assign_ifreq wrote, up to its first NUL: all of it exactly when there is no
      NUL in it. */
  lemma AssignedIsFound(ifr: seq<byte>, interface: seq<byte>)
    requires |ifr| == IFREQ && |interface| < NAME
    ensures var names := Names(Assigned(ifr, interface), 0, IFREQ);
      && names == [UpTo(interface, 0)]
      && (names == [interface] <==> 0 !in interface)
  {
    var nul: byte := 0;
    UpToPrefix(interface, nul);
    UpToCut(interface, Kept(ifr, |interface| + 1), nul);
    AssignedFamily(ifr, interface);
    hide UpTo, Names, Kept;
    var data := Assigned(ifr, interface);
    assert data[0..] == data;
    OneRecord(data);
  }

  lemma AssignedFamily(ifr: seq<byte>, interface: seq<byte>)
    requires |ifr| == IFREQ && |interface| < NAME
    ensures Family(Assigned(ifr, interface), 0) == AF_INET
  {
    var k := Kept(ifr, |interface| + 1);
    assert k[NAME - |interface| - 1] == AF_INET && k[NAME - |interface|] == 0;
  }

  lemma OneRecord(data: seq<byte>)
    requires |data| == IFREQ && Family(data, 0) == AF_INET
    ensures Names(data, 0, IFREQ) == [Name(data, 0)]
  {
    hide Family, UpTo;
    assert Names(data, IFREQ, IFREQ) == [];
  }

  // ---- two of the functions, with every way out of them

  /** The socket and the ioctl on it are over: the socket, if there is one, is closed. */
  predicate Closed(env: Platform, st: KState, st': KState) {
    var (st1, n) := Sys(env, st, Open);
    if n.ret < 0 then st' == st1
    else st' == TempFailureRetry(env, Sys(env, st1, Control(n.ret)).0, Close(n.ret)).0
  }

  /** The errno that a throw carries: of the socket call, or as it is after the ioctl and before the close. */
  function IoctlFault(env: Platform, st: KState): Fault {
    var (st1, n) := Sys(env, st, Open);
    System(if n.ret < 0 then st1.errno else Sys(env, st1, Control(n.ret)).0.errno)
  }

  /** `data` and `len` are what the ioctl leaves in the buffer. */
  method GetNetworkInterfaces(k: Kernel, data: array<byte>, len: nat) returns (r: Outcome<seq<seq<byte>>>)
    requires data.Length == MAX_RECORDS * IFREQ && len <= data.Length
    modifies k
    ensures r.Returned? ==> r.value == Names(data[..], 0, len)
    ensures var (st, n) := Sys(k.env, old(k.st), Open);
      r.Returned? <==> n.ret >= 0 && Sys(k.env, st, Control(n.ret)).1.ret >= 0
    ensures Closed(k.env, old(k.st), k.st) && (r.Thrown? ==> r.fault == IoctlFault(k.env, old(k.st)))
    ensures k.env.retries ==> k.st.files.table == old(k.st.files.table)
  {
    hide Sys, TempFailureRetry;
    TempSockets.TableRestored(k.env, k.st);
    var sock := SimpleSocket.Create(k);
    if sock.Thrown? {
      return Thrown(sock.fault);
    }
    var n := k.Do(Control(sock.value.descriptor));
    if n.ret < 0 {
      r := Thrown(System(k.st.errno));
    } else {
      var names := WalkRecords(data, len);
      r := Returned(names);
    }
    sock.value.Destroy(k);
  }

  const ARPHRD_NETROM := 0
  const ARPHRD_ETHER := 1
  const ARPHRD_EETHER := 2
  const ARPHRD_IEEE802 := 6
  const ARPHRD_PPP := 512

  /** The labels of the switch: the default label throws. */
  predicate HardwareKnown(family: nat)
    ensures HardwareKnown(family) <==> family in {0, 1, 2, 6, 0x200}
  {
    match family
    case ARPHRD_NETROM => true
    case ARPHRD_ETHER => true
    case ARPHRD_PPP => true
    case ARPHRD_EETHER => true
    case ARPHRD_IEEE802 => true
    case _ => false
  }

  /** `family` and `data` are what the ioctl writes into ifr_hwaddr. */
  method GetHardwareAddress(k: Kernel, ifr: array<byte>, interface: seq<byte>, separationChar: char,
                            family: nat, data: seq<byte>) returns (r: Outcome<string>)
    requires ifr.Length == IFREQ && |data| == 14
    modifies k, ifr
    ensures |interface| >= NAME ==> r == Thrown(Plain) && k.st == old(k.st) && ifr[..] == old(ifr[..])
    ensures |interface| < NAME ==> ifr[..] == Assigned(old(ifr[..]), interface)
    ensures r.Returned? ==> r.value == Printers.MacText(data[..6], separationChar)
    ensures var (st, n) := Sys(k.env, old(k.st), Open);
      r.Returned? <==>
        |interface| < NAME && n.ret >= 0 && Sys(k.env, st, Control(n.ret)).1.ret >= 0 && HardwareKnown(family)
    ensures |interface| < NAME ==>
              Closed(k.env, old(k.st), k.st) && (r.Thrown? ==> r.fault == IoctlFault(k.env, old(k.st)))
    ensures k.env.retries ==> k.st.files.table == old(k.st.files.table)
  {
    hide Sys, TempFailureRetry;
    TempSockets.TableRestored(k.env, k.st);
    var named := AssignIfreq(ifr, interface);
    if named.Thrown? {
      return Thrown(named.fault);
    }
    var sock := SimpleSocket.Create(k);
    if sock.Thrown? {
      return Thrown(sock.fault);
    }
    var n := k.Do(Control(sock.value.descriptor));
    if n.ret < 0 || !HardwareKnown(family) {
      r := Thrown(System(k.st.errno));
    } else {
      var s := Printers.HardwareAddressText(data, separationChar);
      r := Returned(s);
    }
    sock.value.Destroy(k);
  }
}
