/**
 The descriptor ownership protocol as a machine on values: which live object holds which
 descriptor, and what each operation of SocketHandle, SocketHandle_Ref and the socket classes does
 to it.  Class `Clients.Program` performs the same operations with real objects.
 */
module Ownership {
  import opened Posix

  /** A live C++ object that can hold a descriptor. */
  datatype Obj = HandleObj(id: nat) | RefObj(id: nat) | SocketObj(id: nat)

  /** `held` gives the descriptor number each live object stores, `lost` the descriptors that an
      interrupted and not repeated close has left open without an owner, and `foreign` those that the
      rest of the program has open. */
  datatype World = World(held: map<Obj, int>, lost: set<int>, foreign: set<int>, st: KState)

  datatype Op =
    | MakeHandle(h: nat)
    | CopyHandle(h: nat, src: nat)
    | MakeRef(r: nat, src: nat)
    | TakeRef(h: nat, r: nat)
    | Assign(a: nat, b: nat)
    | AssignRef(a: nat, r: nat)
    | DropHandle(h: nat)
    | MakeSocket(s: nat)
    | MakeSctpSocket(s: nat)
    | SocketFrom(s: nat, h: nat)
    | DropSocket(s: nat)
    | Accept(h: nat, s: nat)
    | TimedAccept(h: nat, s: nat)
    | UseTempSocket(s: nat)       // an interface utility of SocketUtils.cpp
    | OpenForeign                 // the rest of the program opens a file, or closes one of its own
    | CloseForeign(fd: int)

  /** C++ lets a program name only live objects, and gives a new object a new identity.  Each
      SocketHandle_Ref is used up once. */
  predicate Enabled(w: World, op: Op) {
    match op
    case MakeHandle(h) => HandleObj(h) !in w.held
    case CopyHandle(h, src) => HandleObj(h) !in w.held && HandleObj(src) in w.held
    case MakeRef(r, src) => RefObj(r) !in w.held && HandleObj(src) in w.held
    case TakeRef(h, r) => HandleObj(h) !in w.held && RefObj(r) in w.held
    case Assign(a, b) => HandleObj(a) in w.held && HandleObj(b) in w.held
    case AssignRef(a, r) => HandleObj(a) in w.held && RefObj(r) in w.held
    case DropHandle(h) => HandleObj(h) in w.held
    case MakeSocket(s) => SocketObj(s) !in w.held
    case MakeSctpSocket(s) => SocketObj(s) !in w.held
    case SocketFrom(s, h) => SocketObj(s) !in w.held && HandleObj(h) in w.held
    case DropSocket(s) => SocketObj(s) in w.held
    case Accept(h, s) => HandleObj(h) !in w.held && SocketObj(s) in w.held
    case TimedAccept(h, s) => HandleObj(h) !in w.held && SocketObj(s) in w.held
    case UseTempSocket(s) => SocketObj(s) !in w.held
    case OpenForeign => true
    case CloseForeign(fd) => fd in w.foreign
  }

  function Put(w: World, o: Obj, fd: int): World { w.(held := w.held[o := fd]) }
  function Erase(w: World, o: Obj): World { w.(held := w.held - {o}) }

  /** TEMP_FAILURE_RETRY(::close(fd)). */
  function Shut(env: Platform, w: World, fd: int): World {
    var st := TempFailureRetry(env, w.st, Close(fd)).0;
    w.(st := st, lost := if st.IsOpen(fd) then w.lost + {fd} else w.lost)
  }

  /** SocketHandle::reset. */
  function Reset(env: Platform, w: World, o: Obj, fd: int): World
    requires o in w.held
  {
    if fd != w.held[o] then Put(Shut(env, w, w.held[o]), o, fd) else w
  }

  /** Open a descriptor into a new object, or fail and make none. */
  function OpenInto(env: Platform, w: World, o: Obj): World {
    var (st, r) := Sys(env, w.st, Open);
    if r.ret < 0 then w.(st := st) else Put(w.(st := st), o, r.ret)
  }

  function Step(env: Platform, w: World, op: Op): World
    requires Enabled(w, op)
  {
    match op
    case MakeHandle(h) => Put(w, HandleObj(h), -1)
    case CopyHandle(h, src) =>
      Put(Put(w, HandleObj(h), w.held[HandleObj(src)]), HandleObj(src), -1)
    case MakeRef(r, src) =>
      Put(Put(w, RefObj(r), w.held[HandleObj(src)]), HandleObj(src), -1)
    case TakeRef(h, r) => Put(Erase(w, RefObj(r)), HandleObj(h), w.held[RefObj(r)])
    case Assign(a, b) =>
      Reset(env, Put(w, HandleObj(b), -1), HandleObj(a), w.held[HandleObj(b)])
    case AssignRef(a, r) =>
      Reset(env, Erase(w, RefObj(r)), HandleObj(a), w.held[RefObj(r)])
    case DropHandle(h) => Erase(Reset(env, w, HandleObj(h), -1), HandleObj(h))
    case MakeSocket(s) => OpenInto(env, w, SocketObj(s))
    case MakeSctpSocket(s) =>
      var w1 := OpenInto(env, w, SocketObj(s));
      if SocketObj(s) !in w1.held then w1 else
      var fd := w1.held[SocketObj(s)];
      var (st, r) := Sys(env, w1.st, Control(fd));
      if r.ret < 0 then Erase(Shut(env, w1.(st := st), fd), SocketObj(s)) else w1.(st := st)
    case SocketFrom(s, h) =>
      if w.held[HandleObj(h)] < 0 then w
      else Put(Put(w, SocketObj(s), w.held[HandleObj(h)]), HandleObj(h), -1)
    case DropSocket(s) => Erase(Shut(env, w, w.held[SocketObj(s)]), SocketObj(s))
    case Accept(h, _) => OpenInto(env, w, HandleObj(h))
    case TimedAccept(h, s) =>
      var (st, r) := TempFailureRetry(env, w.st, Poll(w.held[SocketObj(s)]));
      if r.ret == 0 then Put(w.(st := st), HandleObj(h), -1)
      else if r.ret < 0 then w.(st := st)
      else OpenInto(env, w.(st := st), HandleObj(h))
    case UseTempSocket(s) =>
      var w1 := OpenInto(env, w, SocketObj(s));
      if SocketObj(s) !in w1.held then w1 else
      var fd := w1.held[SocketObj(s)];
      var (st, _) := Sys(env, w1.st, Control(fd));
      Erase(Shut(env, w1.(st := st), fd), SocketObj(s))
    case OpenForeign =>
      var (st, r) := Sys(env, w.st, Open);
      w.(st := st, foreign := if r.ret < 0 then w.foreign else w.foreign + {r.ret})
    case CloseForeign(fd) =>
      var st := TempFailureRetry(env, w.st, Close(fd)).0;
      w.(st := st, foreign := if st.IsOpen(fd) then w.foreign else w.foreign - {fd})
  }

  // ---- the invariant

  /** Every incarnation ever opened is open now, or was closed exactly once. */
  ghost predicate Booked(f: Files) {
    && (forall fd :: fd in f.table ==> fd >= 0 && f.table[fd] < f.next)
    && (forall fd, fd' :: fd in f.table && fd' in f.table && fd != fd' ==> f.table[fd] != f.table[fd'])
    && (forall i :: 0 <= i < |f.closed| ==> f.closed[i] < f.next)
    && (forall i, j :: 0 <= i < j < |f.closed| ==> f.closed[i] != f.closed[j])
    && (forall i, fd :: 0 <= i < |f.closed| && fd in f.table ==> f.closed[i] != f.table[fd])
    && (forall n: nat :: n < f.next ==> n in f.closed || Current(f, n))
  }

  ghost predicate Current(f: Files, n: nat) { exists fd :: fd in f.table && f.table[fd] == n }

  ghost predicate Owns(held: map<Obj, int>, o: Obj, fd: int) { o in held && held[o] == fd }

  /** The descriptors that the objects hold are exactly `fds`, each held once.  A socket always holds one. */
  ghost predicate Owned(held: map<Obj, int>, fds: set<int>) {
    && (forall o :: o in held ==> held[o] >= -1 && (o.SocketObj? ==> held[o] >= 0))
    && (forall o :: o in held && held[o] >= 0 ==> held[o] in fds)
    && (forall o, o' :: o in held && o' in held && o != o' && held[o] >= 0 ==> held[o] != held[o'])
    && (forall fd :: fd in fds ==> fd >= 0 && exists o :: Owns(held, o, fd))
  }

  /** The descriptors that the library has to answer for. */
  ghost function Mine(w: World): set<int> { w.st.files.table.Keys - w.lost - w.foreign }

  /** The open descriptors are the disjoint union of those that live objects hold, one each, those
      that were lost, and the foreign ones. */
  ghost predicate Inv(w: World) {
    && w.lost !! w.foreign
    && w.lost + w.foreign <= w.st.files.table.Keys
    && Owned(w.held, Mine(w))
    && Booked(w.st.files)
  }

  /** Every descriptor open in `f`, but those in `gone`, is open in `f'` as the same incarnation. */
  ghost predicate Keeps(f: Files, f': Files, gone: set<int>) {
    forall fd :: fd in f.table && fd !in gone ==> fd in f'.table && f'.table[fd] == f.table[fd]
  }

  ghost predicate SameBut(held: map<Obj, int>, held': map<Obj, int>, os: set<Obj>) {
    forall o :: o !in os ==> (o in held' <==> o in held) && (o in held ==> held'[o] == held[o])
  }

  /** The objects an operation names, and the descriptors it closes. */
  function Touched(op: Op): set<Obj> {
    match op
    case MakeHandle(h) => {HandleObj(h)}
    case CopyHandle(h, src) => {HandleObj(h), HandleObj(src)}
    case MakeRef(r, src) => {RefObj(r), HandleObj(src)}
    case TakeRef(h, r) => {HandleObj(h), RefObj(r)}
    case Assign(a, b) => {HandleObj(a), HandleObj(b)}
    case AssignRef(a, r) => {HandleObj(a), RefObj(r)}
    case DropHandle(h) => {HandleObj(h)}
    case MakeSocket(s) => {SocketObj(s)}
    case MakeSctpSocket(s) => {SocketObj(s)}
    case SocketFrom(s, h) => {SocketObj(s), HandleObj(h)}
    case DropSocket(s) => {SocketObj(s)}
    case Accept(h, _) => {HandleObj(h)}
    case TimedAccept(h, _) => {HandleObj(h)}
    case UseTempSocket(_) => {}
    case OpenForeign => {}
    case CloseForeign(_) => {}
  }

  function GivenUp(w: World, op: Op): set<int>
    requires Enabled(w, op)
  {
    match op
    case Assign(a, b) => if a == b then {} else {w.held[HandleObj(a)]}
    case AssignRef(a, _) => {w.held[HandleObj(a)]}
    case DropHandle(h) => {w.held[HandleObj(h)]}
    case DropSocket(s) => {w.held[SocketObj(s)]}
    case CloseForeign(fd) => {fd}
    case _ => {}
  }

  // ---- small facts about the parts of the invariant

  lemma BookedFree(f: Files, fd: int)
    requires Booked(f) && fd in f.table
    ensures Booked(f.Free(fd))
  {
    var f' := f.Free(fd);
    forall n: nat | n < f'.next ensures n in f'.closed || Current(f', n) {
      if n == f.table[fd] {
        assert f'.closed[|f.closed|] == n;
      } else if n in f.closed {
        var i :| 0 <= i < |f.closed| && f.closed[i] == n;
        assert f'.closed[i] == n;
      } else {
        var d :| d in f.table && f.table[d] == n;
        assert d in f'.table;
      }
    }
  }

  lemma BookedOpen(f: Files, fd: nat)
    requires Booked(f) && fd !in f.table
    ensures Booked(f.Open(fd))
  {
    var f' := f.Open(fd);
    forall n: nat | n < f'.next ensures n in f'.closed || Current(f', n) {
      if n == f.next {
        assert f'.table[fd] == n;
      } else if n !in f.closed {
        var d :| d in f.table && f.table[d] == n;
        assert d in f'.table && f'.table[d] == n;
      }
    }
  }

  /** `to` gets what `from` had and `from` is left with nothing. */
  ghost predicate Moves(held: map<Obj, int>, held': map<Obj, int>, from: Obj, to: Obj) {
    && from in held && from != to && (to in held ==> held[to] == -1)
    && !from.SocketObj? && (to.SocketObj? ==> held[from] >= 0)
    && to in held' && held'[to] == held[from]
    && (from in held' ==> held'[from] == -1)
    && SameBut(held, held', {from, to})
  }

  /** What an object holds after a move, some object held before, and different ones for different objects. */
  lemma MovedFrom(held: map<Obj, int>, held': map<Obj, int>, from: Obj, to: Obj, o: Obj) returns (p: Obj)
    requires Moves(held, held', from, to) && o in held' && held'[o] >= 0
    ensures p == (if o == to then from else o) && o != from && p in held && held[p] == held'[o]
  {
    p := if o == to then from else o;
  }

  lemma OwnedMove(held: map<Obj, int>, held': map<Obj, int>, fds: set<int>, from: Obj, to: Obj)
    requires Owned(held, fds) && Moves(held, held', from, to)
    ensures Owned(held', fds)
  {
    forall o | o in held' && held'[o] >= 0 ensures held'[o] in fds {
      var p := MovedFrom(held, held', from, to, o);
    }
    forall o, o' | o in held' && o' in held' && o != o' && held'[o] >= 0 ensures held'[o] != held'[o'] {
      if held'[o'] >= 0 {
        var p := MovedFrom(held, held', from, to, o);
        var p' := MovedFrom(held, held', from, to, o');
      }
    }
    OwnedMoveCovers(held, held', fds, from, to);
  }

  lemma OwnedMoveCovers(held: map<Obj, int>, held': map<Obj, int>, fds: set<int>, from: Obj, to: Obj)
    requires Owned(held, fds) && Moves(held, held', from, to)
    ensures forall fd :: fd in fds ==> exists o :: Owns(held', o, fd)
  {
    forall fd | fd in fds ensures exists o :: Owns(held', o, fd) {
      var o :| Owns(held, o, fd);
      assert Owns(held', if o == from then to else o, fd);
    }
  }

  /** `o` gives up what it held. */
  lemma OwnedDrop(held: map<Obj, int>, held': map<Obj, int>, fds: set<int>, o: Obj)
    requires Owned(held, fds)
    requires o in held && (o in held' ==> held'[o] == -1 && !o.SocketObj?)
    requires SameBut(held, held', {o})
    ensures Owned(held', fds - {held[o]})
  {
    DroppedApart(held, held', fds, o);
    forall fd | fd in fds - {held[o]} ensures fd >= 0 && exists x :: Owns(held', x, fd) {
      var x :| Owns(held, x, fd);
      assert Owns(held', x, fd);
    }
  }

  lemma DroppedApart(held: map<Obj, int>, held': map<Obj, int>, fds: set<int>, o: Obj)
    requires Owned(held, fds)
    requires o in held && (o in held' ==> held'[o] == -1)
    requires SameBut(held, held', {o})
    ensures forall x, y :: x in held' && y in held' && x != y && held'[x] >= 0 ==> held'[x] != held'[y]
    ensures forall x :: x in held' && held'[x] >= 0 ==> held'[x] in fds && held'[x] != held[o]
  {
    forall x, y | x in held' && y in held' && x != y && held'[x] >= 0 ensures held'[x] != held'[y] {
      if y != o {
        assert x in held && y in held && held[x] != held[y];
      }
    }
  }

  lemma OwnedAdd(held: map<Obj, int>, held': map<Obj, int>, fds: set<int>, o: Obj, fd: nat)
    requires Owned(held, fds) && o !in held && fd !in fds && held' == held[o := fd]
    ensures Owned(held', fds + {fd})
  {
    forall d | d in fds + {fd} ensures exists x :: Owns(held', x, d) {
      if d == fd {
        assert Owns(held', o, d);
      } else {
        var x :| Owns(held, x, d);
        assert Owns(held', x, d);
      }
    }
  }

  lemma OwnedIdle(held: map<Obj, int>, held': map<Obj, int>, fds: set<int>, o: Obj)
    requires Owned(held, fds)
    requires o in held ==> held[o] == -1
    requires o in held' ==> held'[o] == -1 && !o.SocketObj?
    requires SameBut(held, held', {o})
    ensures Owned(held', fds)
  {
    forall fd | fd in fds ensures exists x :: Owns(held', x, fd) {
      var x :| Owns(held, x, fd);
      assert Owns(held', x, fd);
    }
  }

  // ---- the operations

  /** `o` gives up its descriptor, which is closed or, if the close is cut short, lost. */
  lemma Closing(env: Platform, w: World, w': World, o: Obj)
    requires Inv(w)
    requires o in w.held && w' == Shut(env, w, w.held[o]).(held := w'.held)
    requires o in w'.held ==> w'.held[o] == -1 && !o.SocketObj?
    requires SameBut(w.held, w'.held, {o})
    ensures Inv(w')
    ensures Keeps(w.st.files, w'.st.files, {w.held[o]})
    ensures env.retries ==> w'.lost == w.lost && !w'.st.IsOpen(w.held[o])
    ensures w.held[o] >= 0 && !w'.st.IsOpen(w.held[o]) ==> w'.st.files == w.st.files.Free(w.held[o])
    ensures w.held[o] < 0 ==> w'.st.files == w.st.files
  {
    var fd := w.held[o];
    var f, f' := w.st.files, w'.st.files;
    CloseSettles(env, w.st, fd);
    assert Owned(w.held, Mine(w));
    OwnedDrop(w.held, w'.held, Mine(w), o);
    if fd in f.table && fd !in f'.table {
      BookedFree(f, fd);
    }
    assert Mine(w') == Mine(w) - {fd};
  }

  /** A new descriptor is opened for the new object `o`, or the call fails. */
  lemma Opening(env: Platform, w: World, o: Obj)
    requires Inv(w) && o !in w.held
    ensures var w' := OpenInto(env, w, o);
      && Inv(w')
      && Keeps(w.st.files, w'.st.files, {})
      && w'.lost == w.lost && SameBut(w.held, w'.held, {o})
      && (if o in w'.held then w'.held[o] >= 0 && !w.st.IsOpen(w'.held[o]) && w'.st.files == w.st.files.Open(w'.held[o])
          else w' == w.(st := w'.st) && w'.st.files == w.st.files)
  {
    var w' := OpenInto(env, w, o);
    var f, f' := w.st.files, w'.st.files;
    if o in w'.held {
      BookedOpen(f, w'.held[o]);
      OwnedAdd(w.held, w'.held, Mine(w), o, w'.held[o]);
      assert Mine(w') == Mine(w) + {w'.held[o]};
    }
  }

  /** Two objects store the same number only if it is -1, and -1 is never open. */
  lemma Apart(w: World, a: Obj, b: Obj)
    requires Inv(w) && a in w.held && b in w.held && a != b
    ensures w.held[a] >= -1 && (w.held[a] == w.held[b] ==> w.held[a] == -1)
    ensures !w.st.IsOpen(-1)
  {
  }

  lemma NoNegative(w: World)
    requires Inv(w)
    ensures !w.st.IsOpen(-1)
    ensures forall o :: o in w.held ==> w.held[o] >= -1 && (o.SocketObj? ==> w.held[o] >= 0)
  {
  }

  /** The guarded assignment: `from` has given up its descriptor in `w1`; `a`'s is closed unless it is
      invalid, and `a` gets what `from` held. */
  lemma ResetKeeps(env: Platform, w: World, w1: World, w': World, a: Obj, from: Obj)
    requires Inv(w)
    requires a.HandleObj? && !from.SocketObj? && a in w.held && from in w.held && a != from
    requires w1 == w.(held := w1.held) && SameBut(w.held, w1.held, {from})
    requires from in w1.held ==> w1.held[from] == -1
    requires w' == Reset(env, w1, a, w.held[from])
    ensures Inv(w')
    ensures Keeps(w.st.files, w'.st.files, {w.held[a]})
    ensures w'.held == w1.held[a := w.held[from]]
    ensures env.retries ==> w'.lost == w.lost && !w'.st.IsOpen(w.held[a])
    ensures w.held[a] >= 0 && !w'.st.IsOpen(w.held[a]) ==> w'.st.files == w.st.files.Free(w.held[a])
    ensures w.held[a] == -1 ==> w'.st.files == w.st.files
  {
    hide Sys, TempFailureRetry, Inv;
    Apart(w, a, from);
    assert w1.held[a] == w.held[a];
    if w.held[from] != w.held[a] {
      ResetCloses(env, w, w1, w', a, from);
    } else {
      assert w' == w1 && w1.held == w1.held[a := w.held[from]];
      Idling(w, w1, from);
    }
  }

  lemma Idling(w: World, w': World, o: Obj)
    requires Inv(w) && w'.lost == w.lost && w'.foreign == w.foreign && w'.st.files == w.st.files
    requires o in w.held ==> w.held[o] == -1
    requires o in w'.held ==> w'.held[o] == -1 && !o.SocketObj?
    requires SameBut(w.held, w'.held, {o})
    ensures Inv(w')
  {
    OwnedIdle(w.held, w'.held, Mine(w), o);
  }

  lemma ResetCloses(env: Platform, w: World, w1: World, w': World, a: Obj, from: Obj)
    requires Inv(w)
    requires a.HandleObj? && !from.SocketObj? && a in w.held && from in w.held && a != from
    requires w1 == w.(held := w1.held) && SameBut(w.held, w1.held, {from})
    requires from in w1.held ==> w1.held[from] == -1
    requires w' == Put(Shut(env, w1, w.held[a]), a, w.held[from])
    ensures Inv(w')
    ensures Keeps(w.st.files, w'.st.files, {w.held[a]})
    ensures env.retries ==> w'.lost == w.lost && !w'.st.IsOpen(w.held[a])
    ensures w.held[a] >= 0 && !w'.st.IsOpen(w.held[a]) ==> w'.st.files == w.st.files.Free(w.held[a])
    ensures w.held[a] < 0 ==> w'.st.files == w.st.files
  {
    hide Sys, TempFailureRetry, Owned, Booked;
    var m := Put(Shut(env, w, w.held[a]), a, -1);
    Closing(env, w, m, a);
    MovingIn(m, w', from, a);
  }

  lemma MovingIn(m: World, w': World, from: Obj, to: Obj)
    requires Inv(m) && Moves(m.held, w'.held, from, to) && w' == m.(held := w'.held)
    ensures Inv(w')
  {
    OwnedMove(m.held, w'.held, Mine(m), from, to);
  }

  /** `a = a` closes nothing and leaves `a` with what it held. */
  lemma SelfAssign(env: Platform, w: World, a: nat)
    requires HandleObj(a) in w.held && Booked(w.st.files)
    ensures var w' := Step(env, w, Assign(a, a));
      && w' == w.(st := w'.st) && w'.st.files == w.st.files
  {
    CloseSettles(env, w.st, -1);
    assert Step(env, w, Assign(a, a)).held == w.held;
    assert -1 !in w.st.files.table;
  }

  /** Assignment is right under all aliasing: `a` ends with what `b` held and `b`, unless it is `a`, with
      nothing; `a`'s own descriptor is closed, unless the close is cut short and not repeated.  The guard in
      reset skips the close only where there is nothing to close. */
  lemma AssignMoves(env: Platform, w: World, a: nat, b: nat)
    requires Inv(w) && Enabled(w, Assign(a, b))
    ensures var w' := Step(env, w, Assign(a, b));
      var mine := w.held[HandleObj(a)];
      && w'.held == w.held[HandleObj(b) := -1][HandleObj(a) := w.held[HandleObj(b)]]
      && (if a == b || mine == -1 then w'.st.files == w.st.files
          else w'.st.files == w.st.files.Free(mine) || (!env.retries && w'.st.IsOpen(mine)))
  {
    hide Sys, TempFailureRetry, Owned, Booked;
    if a != b {
      Apart(w, HandleObj(a), HandleObj(b));
    }
    var w' := Step(env, w, Assign(a, b));
    if a == b {
      SelfAssign(env, w, a);
    } else {
      ResetKeeps(env, w, Put(w, HandleObj(b), -1), w', HandleObj(a), HandleObj(b));
    }
  }

  /** A descriptor that is opened, configured and closed again leaves the table as it was. */
  lemma OpenThenShut(env: Platform, w: World, o: Obj, st: KState)
    requires Inv(w) && o !in w.held && o in OpenInto(env, w, o).held
    requires st.files == OpenInto(env, w, o).st.files
    ensures var w1 := OpenInto(env, w, o);
      var w' := Erase(Shut(env, w1.(st := st), w1.held[o]), o);
      && Inv(w') && Keeps(w.st.files, w'.st.files, {}) && w'.held == w.held
      && (env.retries ==> w'.lost == w.lost && w'.st.files.table == w.st.files.table)
  {
    hide Sys, TempFailureRetry, Owned, Booked;
    var w1 := OpenInto(env, w, o);
    Opening(env, w, o);
    var w' := Erase(Shut(env, w1.(st := st), w1.held[o]), o);
    Closing(env, w1.(st := st), w', o);
  }

  lemma SctpSocketKeeps(env: Platform, w: World, s: nat)
    requires Inv(w) && Enabled(w, MakeSctpSocket(s))
    ensures var w' := Step(env, w, MakeSctpSocket(s));
      && Inv(w') && Keeps(w.st.files, w'.st.files, {}) && SameBut(w.held, w'.held, {SocketObj(s)})
      && (env.retries ==> w'.lost == w.lost)
      && (env.retries && SocketObj(s) !in w'.held ==> w'.held == w.held && w'.st.files.table == w.st.files.table)
  {
    var o := SocketObj(s);
    var w1 := OpenInto(env, w, o);
    Opening(env, w, o);
    if o in w1.held {
      var (st, r) := Sys(env, w1.st, Control(w1.held[o]));
      if r.ret < 0 {
        OpenThenShut(env, w, o, st);
      }
    }
  }

  /** Whatever goes wrong in it, an interface utility leaves the table as it found it. */
  lemma TempSocketKeeps(env: Platform, w: World, s: nat)
    requires Inv(w) && Enabled(w, UseTempSocket(s))
    ensures var w' := Step(env, w, UseTempSocket(s));
      && Inv(w') && Keeps(w.st.files, w'.st.files, {}) && w'.held == w.held
      && (env.retries ==> w'.lost == w.lost && w'.st.files.table == w.st.files.table)
  {
    var o := SocketObj(s);
    var w1 := OpenInto(env, w, o);
    Opening(env, w, o);
    if o in w1.held {
      var (st, r) := Sys(env, w1.st, Control(w1.held[o]));
      OpenThenShut(env, w, o, st);
    }
  }

  lemma TimedAcceptKeeps(env: Platform, w: World, h: nat, s: nat)
    requires Inv(w) && Enabled(w, TimedAccept(h, s))
    ensures var w' := Step(env, w, TimedAccept(h, s));
      && Inv(w') && Keeps(w.st.files, w'.st.files, {}) && SameBut(w.held, w'.held, {HandleObj(h)})
      && w'.lost == w.lost
  {
    var o := HandleObj(h);
    var q := Settled(env, w.st, Poll(w.held[SocketObj(s)]));
    var (st, r) := TempFailureRetry(env, w.st, Poll(w.held[SocketObj(s)]));
    var w1 := w.(st := st);
    if r.ret == 0 {
      OwnedIdle(w.held, w.held[o := -1], Mine(w), o);
    } else if r.ret > 0 {
      Opening(env, w1, o);
    }
  }

  /** Files of the rest of the program come and go without the library noticing. */
  lemma OpenForeignKeeps(env: Platform, w: World)
    requires Inv(w)
    ensures var w' := Step(env, w, OpenForeign);
      && Inv(w') && w'.held == w.held && w'.lost == w.lost
      && Keeps(w.st.files, w'.st.files, {}) && w.foreign <= w'.foreign
  {
    var (st, r) := Sys(env, w.st, Open);
    var w' := Step(env, w, OpenForeign);
    if r.ret >= 0 {
      BookedOpen(w.st.files, r.ret);
      assert w'.st.files == w.st.files.Open(r.ret);
    }
    hide Sys, Owned, Booked;
    assert Mine(w') == Mine(w);
  }

  lemma CloseForeignKeeps(env: Platform, w: World, fd: int)
    requires Inv(w) && fd in w.foreign
    ensures var w' := Step(env, w, CloseForeign(fd));
      && Inv(w') && w'.held == w.held && w'.lost == w.lost
      && Keeps(w.st.files, w'.st.files, {fd}) && w.foreign - {fd} <= w'.foreign
      && (env.retries ==> !w'.st.IsOpen(fd))
  {
    hide Sys, TempFailureRetry, Owned, Booked;
    CloseSettles(env, w.st, fd);
    BookedFree(w.st.files, fd);
    var w' := Step(env, w, CloseForeign(fd));
    assert Mine(w') == Mine(w);
  }

  lemma StepForeign(env: Platform, w: World, op: Op)
    requires Enabled(w, op)
    ensures var w' := Step(env, w, op);
      && (!op.OpenForeign? && !op.CloseForeign? ==> w'.foreign == w.foreign)
      && (forall fd :: fd in w.foreign && op != CloseForeign(fd) ==> fd in w'.foreign)
  {
    hide Sys, TempFailureRetry;
  }

  /** What a step keeps. */
  ghost predicate Kept(env: Platform, w: World, w': World, touched: set<Obj>, givenUp: set<int>) {
    && Inv(w')
    && SameBut(w.held, w'.held, touched)
    && Keeps(w.st.files, w'.st.files, givenUp)
    && (env.retries ==> w'.lost == w.lost)
  }

  predicate OnHandles(op: Op) {
    op.MakeHandle? || op.CopyHandle? || op.MakeRef? || op.TakeRef? || op.Assign? || op.AssignRef? || op.DropHandle?
  }

  lemma HandleStepKeeps(env: Platform, w: World, op: Op)
    requires Inv(w) && Enabled(w, op) && OnHandles(op)
    ensures Kept(env, w, Step(env, w, op), Touched(op), GivenUp(w, op))
  {
    hide Sys, TempFailureRetry, Owned, Booked;
    var w' := Step(env, w, op);
    match op
    case MakeHandle(h) => Idling(w, w', HandleObj(h));
    case CopyHandle(h, src) => MovingIn(w, w', HandleObj(src), HandleObj(h));
    case MakeRef(r, src) => MovingIn(w, w', HandleObj(src), RefObj(r));
    case TakeRef(h, r) => MovingIn(w, w', RefObj(r), HandleObj(h));
    case Assign(a, b) =>
      if a == b { SelfAssign(env, w, a); }
      else { ResetKeeps(env, w, Put(w, HandleObj(b), -1), w', HandleObj(a), HandleObj(b)); }
    case AssignRef(a, r) => ResetKeeps(env, w, Erase(w, RefObj(r)), w', HandleObj(a), RefObj(r));
    case DropHandle(h) =>
      if w.held[HandleObj(h)] != -1 { Closing(env, w, w', HandleObj(h)); }
      else { Idling(w, w', HandleObj(h)); }
  }

  lemma SocketStepKeeps(env: Platform, w: World, op: Op)
    requires Inv(w) && Enabled(w, op) && !OnHandles(op)
    ensures Kept(env, w, Step(env, w, op), Touched(op), GivenUp(w, op))
  {
    hide Sys, TempFailureRetry, Owned, Booked;
    var w' := Step(env, w, op);
    match op
    case MakeSocket(s) => Opening(env, w, SocketObj(s));
    case MakeSctpSocket(s) => SctpSocketKeeps(env, w, s);
    case SocketFrom(s, h) =>
      if w.held[HandleObj(h)] >= 0 { MovingIn(w, w', HandleObj(h), SocketObj(s)); }
    case DropSocket(s) => Closing(env, w, w', SocketObj(s));
    case Accept(h, _) => Opening(env, w, HandleObj(h));
    case TimedAccept(h, s) => TimedAcceptKeeps(env, w, h, s);
    case UseTempSocket(s) => TempSocketKeeps(env, w, s);
    case OpenForeign => OpenForeignKeeps(env, w);
    case CloseForeign(fd) => CloseForeignKeeps(env, w, fd);
  }

  /** Every operation keeps the invariant.  It changes no object but those it names and closes no descriptor
      but those they give up, so it never closes what another object holds. */
  lemma StepKeeps(env: Platform, w: World, op: Op)
    requires Inv(w) && Enabled(w, op)
    ensures var w' := Step(env, w, op);
      && Inv(w')
      && SameBut(w.held, w'.held, Touched(op))
      && Keeps(w.st.files, w'.st.files, GivenUp(w, op))
      && (env.retries ==> w'.lost == w.lost)
      && (!op.OpenForeign? && !op.CloseForeign? ==> w'.foreign == w.foreign)
      && (forall fd :: fd in w.foreign && op != CloseForeign(fd) ==> fd in w'.foreign)
  {
    hide Step, Inv, SameBut, Keeps, Touched, GivenUp;
    StepForeign(env, w, op);
    if OnHandles(op) {
      HandleStepKeeps(env, w, op);
    } else {
      SocketStepKeeps(env, w, op);
    }
  }

  /** The other half: what an operation gives up is really closed. */
  lemma StepCloses(env: Platform, w: World, op: Op, fd: int)
    requires Inv(w) && Enabled(w, op) && env.retries && fd in GivenUp(w, op)
    ensures !Step(env, w, op).st.IsOpen(fd)
  {
    hide Sys, TempFailureRetry, Inv, Keeps;
    NoNegative(w);
    var w' := Step(env, w, op);
    match op
    case Assign(a, b) =>
      if a != b { ResetKeeps(env, w, Put(w, HandleObj(b), -1), w', HandleObj(a), HandleObj(b)); }
    case AssignRef(a, r) => ResetKeeps(env, w, Erase(w, RefObj(r)), w', HandleObj(a), RefObj(r));
    case DropHandle(h) => if fd != -1 { Closing(env, w, w', HandleObj(h)); }
    case DropSocket(s) => Closing(env, w, w', SocketObj(s));
    case CloseForeign(_) => CloseForeignKeeps(env, w, fd);
  }

  /** Which object an operation takes a descriptor from, and which it gives it to. */
  function Hands(op: Op): Option<(Obj, Obj)> {
    match op
    case CopyHandle(h, src) => Some((HandleObj(src), HandleObj(h)))
    case MakeRef(r, src) => Some((HandleObj(src), RefObj(r)))
    case TakeRef(h, r) => Some((RefObj(r), HandleObj(h)))
    case Assign(a, b) => Some((HandleObj(b), HandleObj(a)))
    case AssignRef(a, r) => Some((RefObj(r), HandleObj(a)))
    case SocketFrom(s, h) => Some((HandleObj(h), SocketObj(s)))
    case _ => None
  }

  /** Copying is moving: the descriptor passes, still open and the same incarnation, to exactly one object,
      and the object it came from can no longer be used.  No socket is made from an invalid handle. */
  lemma CopyMeansMove(env: Platform, w: World, op: Op)
    requires Inv(w) && Enabled(w, op) && Hands(op).Some?
    ensures var w' := Step(env, w, op);
      var (from, to) := Hands(op).value;
      var fd := w.held[from];
      && (fd >= 0 ==> w'.st.IsOpen(fd) && w'.st.files.table[fd] == w.st.files.table[fd])
      && (fd >= 0 ==> Owns(w'.held, to, fd) && forall o :: Owns(w'.held, o, fd) ==> o == to)
      && (fd < 0 && op.SocketFrom? ==> w' == w)
      && (from != to && from in w'.held ==> w'.held[from] == -1)
  {
    StepKeeps(env, w, op);
    var w' := Step(env, w, op);
    var (from, to) := Hands(op).value;
    if w.held[from] >= 0 {
      Carried(env, w, op, from, to);
      assert w.held[from] !in GivenUp(w, op) by {
        if to in w.held && to != from {
          Apart(w, from, to);
        }
      }
    }
  }

  lemma Carried(env: Platform, w: World, op: Op, from: Obj, to: Obj)
    requires Enabled(w, op) && Hands(op) == Some((from, to)) && w.held[from] >= 0
    ensures Owns(Step(env, w, op).held, to, w.held[from])
  {
  }

  // ---- whole runs

  predicate Runnable(env: Platform, w: World, ops: seq<Op>)
    decreases |ops|
  {
    ops == [] || (Enabled(w, ops[0]) && Runnable(env, Step(env, w, ops[0]), ops[1..]))
  }

  function Run(env: Platform, w: World, ops: seq<Op>): World
    requires Runnable(env, w, ops)
    decreases |ops|
  {
    if ops == [] then w else Run(env, Step(env, w, ops[0]), ops[1..])
  }

  /** The invariant holds after every run, also when the rest of the program opens and closes files in
      between, and a foreign descriptor that the program does not close itself stays open as it is. */
  lemma {:induction false} RunKeeps(env: Platform, w: World, ops: seq<Op>)
    requires Inv(w) && Runnable(env, w, ops)
    ensures var w' := Run(env, w, ops);
      && Inv(w')
      && (env.retries ==> w'.lost == w.lost)
      && (forall fd :: fd in w.foreign && CloseForeign(fd) !in ops ==>
            fd in w'.foreign && w'.st.IsOpen(fd) && w'.st.files.table[fd] == w.st.files.table[fd])
    decreases |ops|
  {
    if ops != [] {
      var w1 := Step(env, w, ops[0]);
      StepKeeps(env, w, ops[0]);
      RunKeeps(env, w1, ops[1..]);
      forall fd | fd in w.foreign && CloseForeign(fd) !in ops
        ensures fd in w1.foreign && CloseForeign(fd) !in ops[1..]
        ensures fd in w1.st.files.table && w1.st.files.table[fd] == w.st.files.table[fd]
      {
        assert ops[0] in ops;
        NotGivenUp(w, ops[0], fd);
      }
    }
  }

  lemma NotGivenUp(w: World, op: Op, fd: int)
    requires Inv(w) && Enabled(w, op) && fd in w.foreign && op != CloseForeign(fd)
    ensures fd in w.st.files.table && fd !in GivenUp(w, op)
  {
    assert fd in w.st.files.table && fd !in Mine(w);
  }

  function StartWith(st: KState): World { World(map[], {}, st.files.table.Keys, st) }

  lemma StartKeeps(st: KState)
    requires Booked(st.files)
    ensures Inv(StartWith(st))
  {
    assert Mine(StartWith(st)) == {};
  }

  /** A program that starts with the descriptors of `st` open, none of them the library's: at every moment
      each open descriptor that the rest of the program does not hold has exactly one owner. */
  lemma OneOwnerEach(env: Platform, st: KState, ops: seq<Op>, fd: int)
    requires Booked(st.files) && Runnable(env, StartWith(st), ops)
    requires var w := Run(env, StartWith(st), ops);
      w.st.IsOpen(fd) && fd !in w.foreign && (env.retries || fd !in w.lost)
    ensures var w := Run(env, StartWith(st), ops);
      exists o :: Owns(w.held, o, fd) && forall o' :: Owns(w.held, o', fd) ==> o' == o
  {
    StartKeeps(st);
    RunKeeps(env, StartWith(st), ops);
    var w := Run(env, StartWith(st), ops);
    assert fd in Mine(w);
    var o :| Owns(w.held, o, fd);
  }

  /** When all objects are gone, every incarnation that the run opened, for the library or for others, has
      been closed exactly once, but for those the rest of the program still has open and, without retries,
      those that were lost.  Nothing else is open. */
  lemma AllClosedOnce(env: Platform, st: KState, ops: seq<Op>, n: nat)
    requires Booked(st.files) && Runnable(env, StartWith(st), ops)
    requires Run(env, StartWith(st), ops).held == map[]
    ensures var w := Run(env, StartWith(st), ops);
      var f := w.st.files;
      && f.table.Keys == w.foreign + w.lost && w.foreign !! w.lost
      && (env.retries ==> w.lost == {})
      && (st.files.next <= n < f.next ==> multiset(f.closed)[n] == if Current(f, n) then 0 else 1)
  {
    StartKeeps(st);
    RunKeeps(env, StartWith(st), ops);
    var w := Run(env, StartWith(st), ops);
    var f := w.st.files;
    forall fd | fd in f.table ensures fd in w.foreign + w.lost {
      assert fd in Mine(w) ==> exists o :: Owns(w.held, o, fd);
    }
    if st.files.next <= n < f.next {
      OccursOnce(f.closed, n);
    }
  }

  predicate NoForeign(ops: seq<Op>) {
    OpenForeign !in ops && forall i :: 0 <= i < |ops| ==> !ops[i].CloseForeign?
  }

  lemma {:induction false} ForeignSame(env: Platform, w: World, ops: seq<Op>)
    requires Inv(w) && Runnable(env, w, ops) && NoForeign(ops)
    ensures Run(env, w, ops).foreign == w.foreign
    decreases |ops|
  {
    if ops != [] {
      assert ops[0] in ops;
      StepKeeps(env, w, ops[0]);
      assert forall i :: 0 <= i < |ops[1..]| ==> ops[1..][i] == ops[i + 1];
      ForeignSame(env, Step(env, w, ops[0]), ops[1..]);
    }
  }

  /** When only the library runs and all its objects are gone, the table is what it was at the start, but
      for the lost descriptors, of which there are none with retries. */
  lemma TableComesBack(env: Platform, st: KState, ops: seq<Op>)
    requires Booked(st.files) && Runnable(env, StartWith(st), ops) && NoForeign(ops)
    requires Run(env, StartWith(st), ops).held == map[]
    ensures var w := Run(env, StartWith(st), ops);
      && w.st.files.table - w.lost == st.files.table
      && w.lost <= w.st.files.table.Keys && (env.retries ==> w.lost == {})
  {
    StartKeeps(st);
    ForeignSame(env, StartWith(st), ops);
    RunKeeps(env, StartWith(st), ops);
    AllClosedOnce(env, st, ops, 0);
    var w := Run(env, StartWith(st), ops);
    var left := w.st.files.table - w.lost;
    forall fd | fd in st.files.table ensures fd in left && left[fd] == st.files.table[fd] {
      assert fd in StartWith(st).foreign && CloseForeign(fd) !in ops;
    }
    assert left.Keys == st.files.table.Keys;
  }

  lemma {:induction false} OccursOnce(s: seq<nat>, n: nat)
    requires forall i, j :: 0 <= i < j < |s| ==> s[i] != s[j]
    ensures multiset(s)[n] == if n in s then 1 else 0
  {
    if s != [] {
      OccursOnce(s[1..], n);
      assert s == [s[0]] + s[1..];
    }
  }
}
