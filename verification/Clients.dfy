/** A client program with real objects.  Whatever operations it performs, what its objects hold is what
    the machine of module Ownership says. */
module Clients {
  import opened Posix
  import opened SimpleSockets
  import opened SocketHandles
  import opened Ownership
  import Accepting
  import SctpSockets
  import TempSockets

  class Program {
    const k: Kernel
    var handles: map<nat, SocketHandle>
    var refs: map<nat, SocketHandleRef>
    var sockets: map<nat, SimpleSocket>
    ghost var world: World            // what the objects hold
    ghost var objects: set<object>    // the live handles and sockets

    constructor (k: Kernel)
      ensures this.k == k && Valid() && fresh(objects)
      ensures world == StartWith(k.st)
    {
      this.k := k;
      handles, refs, sockets := map[], map[], map[];
      world, objects := StartWith(k.st), {};
    }

    ghost predicate LiveHandle(i: nat)
      reads this
    {
      HandleObj(i) in world.held
    }

    ghost predicate LiveSocket(i: nat)
      reads this
    {
      SocketObj(i) in world.held
    }

    /** Different live names stand for different objects, and `world` tells what each object stores.  The
        variables of objects that are gone are left as they were. */
    ghost predicate Valid()
      reads this, k, objects
    {
      world.st == k.st && Mirrors()
    }

    ghost predicate Mirrors()
      reads this, objects
    {
      && (forall i :: LiveHandle(i) ==> i in handles && handles[i] in objects)
      && (forall i :: LiveSocket(i) ==> i in sockets && sockets[i] in objects)
      && (forall i, j :: LiveHandle(i) && LiveHandle(j) && i != j ==> handles[i] != handles[j])
      && (forall i, j :: LiveSocket(i) && LiveSocket(j) && i != j ==> sockets[i] != sockets[j])
      && (forall i :: LiveHandle(i) ==> world.held[HandleObj(i)] == handles[i].sockfd >= -1)
      && (forall i :: LiveSocket(i) ==> world.held[SocketObj(i)] == sockets[i].descriptor)
      && (forall i :: RefObj(i) in world.held ==> i in refs && world.held[RefObj(i)] == refs[i].sockfd >= -1)
    }

    /** A new variable for the new handle, reference or socket `x`. */
    method AddHandle(h: nat, x: SocketHandle, ghost w: World)
      requires Mirrors() && !LiveHandle(h) && x !in objects && x.sockfd >= -1
      requires w == world.(held := world.held[HandleObj(h) := x.sockfd], st := k.st)
      modifies this`handles, this`objects, this`world
      ensures Valid() && world == w && objects == old(objects) + {x}
    {
      handles, objects, world := handles[h := x], objects + {x}, w;
    }

    method AddRef(r: nat, x: SocketHandleRef, ghost w: World)
      requires Mirrors() && RefObj(r) !in world.held && x.sockfd >= -1
      requires w == world.(held := world.held[RefObj(r) := x.sockfd], st := k.st)
      modifies this`refs, this`world
      ensures Valid() && world == w
    {
      refs, world := refs[r := x], w;
    }

    method AddSocket(s: nat, x: SimpleSocket, ghost w: World)
      requires Mirrors() && !LiveSocket(s) && x !in objects
      requires w == world.(held := world.held[SocketObj(s) := x.descriptor], st := k.st)
      modifies this`sockets, this`objects, this`world
      ensures Valid() && world == w && objects == old(objects) + {x}
    {
      sockets, objects, world := sockets[s := x], objects + {x}, w;
    }

    method MakeHandle(h: nat)
      requires Valid() && Enabled(world, Op.MakeHandle(h))
      modifies this, k, objects
      ensures Valid() && fresh(objects - old(objects))
      ensures world == Step(k.env, old(world), Op.MakeHandle(h))
    {
      hide Sys, TempFailureRetry;
      var x := new SocketHandle.Invalid();
      AddHandle(h, x, Step(k.env, world, Op.MakeHandle(h)));
    }

    method CopyHandle(h: nat, src: nat)
      requires Valid() && Enabled(world, Op.CopyHandle(h, src))
      modifies this, k, objects
      ensures Valid() && fresh(objects - old(objects))
      ensures world == Step(k.env, old(world), Op.CopyHandle(h, src))
    {
      hide Sys, TempFailureRetry;
      ghost var w := Step(k.env, world, Op.CopyHandle(h, src));
      assert w == world.(held := world.held[HandleObj(src) := -1][HandleObj(h) := handles[src].sockfd]);
      hide Step;
      var x := new SocketHandle.Copy(handles[src]);
      world := Put(world, HandleObj(src), -1);
      AddHandle(h, x, w);
    }

    method MakeRef(r: nat, src: nat)
      requires Valid() && Enabled(world, Op.MakeRef(r, src))
      modifies this, k, objects
      ensures Valid() && fresh(objects - old(objects))
      ensures world == Step(k.env, old(world), Op.MakeRef(r, src))
    {
      hide Sys, TempFailureRetry;
      ghost var w := Step(k.env, world, Op.MakeRef(r, src));
      assert w == world.(held := world.held[HandleObj(src) := -1][RefObj(r) := handles[src].sockfd]);
      hide Step;
      var x := handles[src].ToRef();
      world := Put(world, HandleObj(src), -1);
      AddRef(r, x, w);
    }

    method TakeRef(h: nat, r: nat)
      requires Valid() && Enabled(world, Op.TakeRef(h, r))
      modifies this, k, objects
      ensures Valid() && fresh(objects - old(objects))
      ensures world == Step(k.env, old(world), Op.TakeRef(h, r))
    {
      hide Sys, TempFailureRetry;
      var x := new SocketHandle.FromRef(refs[r]);
      world := Erase(world, RefObj(r));
      AddHandle(h, x, Put(world, HandleObj(h), x.sockfd));
    }

    /** Here `a` and `b` may name one object. */
    method Assign(a: nat, b: nat)
      requires Valid() && Enabled(world, Op.Assign(a, b))
      modifies this, k, objects
      ensures Valid() && fresh(objects - old(objects))
      ensures world == Step(k.env, old(world), Op.Assign(a, b))
    {
      hide Sys, TempFailureRetry;
      ghost var w := Step(k.env, world, Op.Assign(a, b));
      assert w.held == world.held[HandleObj(b) := -1][HandleObj(a) := handles[b].sockfd];
      handles[a].Assign(k, handles[b]);
      assert w.st == k.st;
      hide Step;
      world := w;
    }

    method AssignRef(a: nat, r: nat)
      requires Valid() && Enabled(world, Op.AssignRef(a, r))
      modifies this, k, objects
      ensures Valid() && fresh(objects - old(objects))
      ensures world == Step(k.env, old(world), Op.AssignRef(a, r))
    {
      hide Sys, TempFailureRetry;
      ghost var w := Step(k.env, world, Op.AssignRef(a, r));
      assert w.held == (world.held - {RefObj(r)})[HandleObj(a) := refs[r].sockfd];
      handles[a].AssignRef(k, refs[r]);
      assert w.st == k.st;
      hide Step;
      world := w;
    }

    method DropHandle(h: nat)
      requires Valid() && Enabled(world, Op.DropHandle(h))
      modifies this, k, objects
      ensures Valid() && fresh(objects - old(objects))
      ensures world == Step(k.env, old(world), Op.DropHandle(h))
    {
      hide Sys, TempFailureRetry;
      handles[h].Destroy(k);
      world := Step(k.env, world, Op.DropHandle(h));
    }

    method MakeSocket(s: nat)
      requires Valid() && Enabled(world, Op.MakeSocket(s))
      modifies this, k, objects
      ensures Valid() && fresh(objects - old(objects))
      ensures world == Step(k.env, old(world), Op.MakeSocket(s))
    {
      hide Sys, TempFailureRetry;
      var x := SimpleSocket.Create(k);
      if x.Returned? {
        AddSocket(s, x.value, Step(k.env, world, Op.MakeSocket(s)));
        return;
      }
      world := Step(k.env, world, Op.MakeSocket(s));
    }

    method MakeSctpSocket(s: nat)
      requires Valid() && Enabled(world, Op.MakeSctpSocket(s))
      modifies this, k, objects
      ensures Valid() && fresh(objects - old(objects))
      ensures world == Step(k.env, old(world), Op.MakeSctpSocket(s))
    {
      hide Sys, TempFailureRetry;
      ghost var w := Step(k.env, world, Op.MakeSctpSocket(s));
      var x := SctpSockets.Create(k);
      assert x.Returned? ==> w == world.(held := world.held[SocketObj(s) := x.value.descriptor], st := k.st);
      assert x.Thrown? ==> w.held == world.held && w.st == k.st;
      hide Step;
      if x.Returned? {
        AddSocket(s, x.value, w);
      } else {
        world := w;
      }
    }

    method SocketFrom(s: nat, h: nat)
      requires Valid() && Enabled(world, Op.SocketFrom(s, h))
      modifies this, k, objects
      ensures Valid() && fresh(objects - old(objects))
      ensures world == Step(k.env, old(world), Op.SocketFrom(s, h))
    {
      hide Sys, TempFailureRetry;
      ghost var w := Step(k.env, world, Op.SocketFrom(s, h));
      ghost var fd := handles[h].sockfd;
      assert fd < 0 ==> w == world;
      assert fd >= 0 ==> w == world.(held := world.held[HandleObj(h) := -1][SocketObj(s) := fd]);
      hide Step;
      var x := Accepting.FromHandle(k, handles[h]);
      if x.Returned? {
        world := Put(world, HandleObj(h), -1);
        AddSocket(s, x.value, w);
      }
    }

    method DropSocket(s: nat)
      requires Valid() && Enabled(world, Op.DropSocket(s))
      modifies this, k, objects
      ensures Valid() && fresh(objects - old(objects))
      ensures world == Step(k.env, old(world), Op.DropSocket(s))
    {
      hide Sys, TempFailureRetry;
      sockets[s].Destroy(k);
      world := Step(k.env, world, Op.DropSocket(s));
    }

    method Accept(h: nat, s: nat)
      requires Valid() && Enabled(world, Op.Accept(h, s))
      modifies this, k, objects
      ensures Valid() && fresh(objects - old(objects))
      ensures world == Step(k.env, old(world), Op.Accept(h, s))
    {
      hide Sys, TempFailureRetry;
      var x := Accepting.Accept(sockets[s], k);
      if x.Returned? {
        AddHandle(h, x.value, Step(k.env, world, Op.Accept(h, s)));
        return;
      }
      world := Step(k.env, world, Op.Accept(h, s));
    }

    method TimedAccept(h: nat, s: nat)
      requires Valid() && Enabled(world, Op.TimedAccept(h, s))
      modifies this, k, objects
      ensures Valid() && fresh(objects - old(objects))
      ensures world == Step(k.env, old(world), Op.TimedAccept(h, s))
    {
      hide Sys, TempFailureRetry;
      var x := Accepting.TimedAccept(sockets[s], k);
      if x.Returned? {
        AddHandle(h, x.value, Step(k.env, world, Op.TimedAccept(h, s)));
        return;
      }
      world := Step(k.env, world, Op.TimedAccept(h, s));
    }

    method UseTempSocket(s: nat)
      requires Valid() && Enabled(world, Op.UseTempSocket(s))
      modifies this, k, objects
      ensures Valid() && fresh(objects - old(objects))
      ensures world == Step(k.env, old(world), Op.UseTempSocket(s))
    {
      hide Sys, TempFailureRetry;
      var _ := TempSockets.Ioctl(k);
      world := Step(k.env, world, Op.UseTempSocket(s));
    }

    /** The rest of the program opens a file. */
    method OpenForeign()
      requires Valid() && Enabled(world, Op.OpenForeign)
      modifies this, k, objects
      ensures Valid() && fresh(objects - old(objects))
      ensures world == Step(k.env, old(world), Op.OpenForeign)
    {
      hide Sys, TempFailureRetry;
      var _ := k.Do(Open);
      world := Step(k.env, world, Op.OpenForeign);
    }

    /** It closes one of its own. */
    method CloseForeign(fd: int)
      requires Valid() && Enabled(world, Op.CloseForeign(fd))
      modifies this, k, objects
      ensures Valid() && fresh(objects - old(objects))
      ensures world == Step(k.env, old(world), Op.CloseForeign(fd))
    {
      hide Sys, TempFailureRetry;
      var _ := k.Retry(Close(fd));
      world := Step(k.env, world, Op.CloseForeign(fd));
    }

    method Perform(op: Op)
      requires Valid() && Enabled(world, op)
      modifies this, k, objects
      ensures Valid() && fresh(objects - old(objects))
      ensures world == Step(k.env, old(world), op)
    {
      hide Step;
      match op
      case MakeHandle(h) => MakeHandle(h);
      case CopyHandle(h, src) => CopyHandle(h, src);
      case MakeRef(r, src) => MakeRef(r, src);
      case TakeRef(h, r) => TakeRef(h, r);
      case Assign(a, b) => Assign(a, b);
      case AssignRef(a, r) => AssignRef(a, r);
      case DropHandle(h) => DropHandle(h);
      case MakeSocket(s) => MakeSocket(s);
      case MakeSctpSocket(s) => MakeSctpSocket(s);
      case SocketFrom(s, h) => SocketFrom(s, h);
      case DropSocket(s) => DropSocket(s);
      case Accept(h, s) => Accept(h, s);
      case TimedAccept(h, s) => TimedAccept(h, s);
      case UseTempSocket(s) => UseTempSocket(s);
      case OpenForeign => OpenForeign();
      case CloseForeign(fd) => CloseForeign(fd);
    }

    /** Any run of a client program, with real objects, is a run of the machine, and keeps its invariant.
        Files that the rest of the program opens and closes may come in between. */
    method Run(ops: seq<Op>)
      requires Valid() && Runnable(k.env, world, ops) && Inv(world)
      modifies this, k, objects
      ensures Valid() && fresh(objects - old(objects))
      ensures world == Ownership.Run(k.env, old(world), ops) && Inv(world)
      decreases |ops|
    {
      hide Step, Inv;
      RunKeeps(k.env, world, ops);
      if ops != [] {
        StepKeeps(k.env, world, ops[0]);
        Perform(ops[0]);
        Run(ops[1..]);
      }
    }
  }
}
