/** The server: its set of connections, their registration with the event loop, and the idle entry each of them
    leaves in the loop's timing wheel. */
module Server {
  import opened Modes
  import opened Schedule
  import opened Wheel
  import opened WheelTheorems
  import Clock
  import Slots

  const IDLE_SECONDS: nat := 30

  /** `fd` is -1 once closed; `entry` is the weak reference to the idle entry and `idleAt` the tick that entry is aimed
      at, 0 while there is none.  The server names a connection by the id of the entry it gets on accept. */
  datatype Conn = Conn(fd: int, closed: bool, entry: nat, idleAt: nat, maxIdle: nat)

  function NewConn(fd: int): Conn {
    Conn(fd, false, 0, 0, IDLE_SECONDS)
  }

  /** The connection with an idle entry aimed at `due`. */
  function Watched(c: Conn, entry: nat, due: nat, seconds: nat): Conn {
    c.(entry := entry, idleAt := due, maxIdle := seconds)
  }

  /** A connection as the server leaves it after accepting it at tick `tick`. */
  function AcceptedConn(fd: int, id: nat, tick: nat): Conn {
    Watched(NewConn(fd), id, tick + IDLE_SECONDS, IDLE_SECONDS)
  }

  function ClosedConn(c: Conn): Conn {
    c.(fd := -1, closed := true)
  }

  /** What the outside sees: the destroy callback runs, a descriptor is given back to the kernel. */
  datatype Happening = Destroyed(id: nat) | FdClosed(id: nat)

  predicate IsOpen(conns: map<nat, Conn>, id: nat) {
    id in conns && !conns[id].closed
  }

  /** The open connections, the server's set and the loop's table name each other one to one. */
  ghost predicate Registered(conns: map<nat, Conn>, connections: set<nat>, events: map<int, nat>) {
    && (forall id :: id in connections <==> IsOpen(conns, id))
    && (forall id :: IsOpen(conns, id) ==> conns[id].fd > 0 && conns[id].fd in events && events[conns[id].fd] == id)
    && (forall fd :: fd in events ==> IsOpen(conns, events[fd]) && conns[events[fd]].fd == fd)
  }

  /** Each connection is destroyed once and its descriptor closed once, in that order, exactly if it is closed. */
  ghost predicate Traced(conns: map<nat, Conn>, trace: seq<Happening>) {
    && (forall id :: multiset(trace)[Destroyed(id)] == if id in conns && conns[id].closed then 1 else 0)
    && (forall id :: multiset(trace)[FdClosed(id)] == if id in conns && conns[id].closed then 1 else 0)
    && (forall i, j :: 0 <= i < |trace| && 0 <= j < |trace| && trace[i].FdClosed? ==>
          trace[j] == Destroyed(trace[i].id) ==> j < i)
  }

  /** The idle entry of every open connection is aimed at the connection's deadline. */
  ghost predicate Timed(conns: map<nat, Conn>, a: Agenda) {
    && (forall id :: id in conns ==> id < a.next)
    && (forall id :: IsOpen(conns, id) ==> Tracks(a, id, Alive(conns[id].idleAt)))
  }

  lemma TraceOfClose(conns: map<nat, Conn>, trace: seq<Happening>, id: nat)
    requires Traced(conns, trace) && IsOpen(conns, id)
    ensures Traced(conns[id := ClosedConn(conns[id])], trace + [Destroyed(id), FdClosed(id)])
  {
  }

  lemma RegistryAfterClose(conns: map<nat, Conn>, connections: set<nat>, events: map<int, nat>, id: nat)
    requires Registered(conns, connections, events) && IsOpen(conns, id)
    ensures Registered(conns[id := ClosedConn(conns[id])], connections - {id}, events - {conns[id].fd})
  {
  }

  /** The table cannot hold two connections of one descriptor: adding an event registers the connection exactly if
      no other open connection has its descriptor. */
  lemma RegisteredIff(conns: map<nat, Conn>, connections: set<nat>, events: map<int, nat>, id: nat)
    requires IsOpen(conns, id) && id in connections && conns[id].fd > 0
    requires Registered(conns - {id}, connections - {id}, events)
    ensures conns[id].fd !in events <==> forall c :: c != id && IsOpen(conns, c) ==> conns[c].fd != conns[id].fd
    ensures Registered(conns, connections, if conns[id].fd in events then events else events[conns[id].fd := id])
            <==> conns[id].fd !in events
  {
    var others := conns - {id};
    assert forall k :: IsOpen(others, k) <==> k != id && IsOpen(conns, k);
    assert forall k :: IsOpen(others, k) ==> others[k] == conns[k];
    assert forall k :: k in connections - {id} <==> k != id && k in connections;
  }

  lemma UnregisteredBy(conns: map<nat, Conn>, connections: set<nat>, events: map<int, nat>, id: nat)
    requires IsOpen(conns, id) && Registered(conns, connections, events)
    ensures Registered(conns - {id}, connections - {id}, events - {conns[id].fd})
  {
    var others := conns - {id};
    assert forall k :: IsOpen(others, k) <==> k != id && IsOpen(conns, k);
    assert forall k :: IsOpen(others, k) ==> others[k] == conns[k];
  }

  lemma TraceAfterAccept(conns: map<nat, Conn>, trace: seq<Happening>, id: nat, c: Conn)
    requires Traced(conns, trace) && id !in conns && !c.closed
    ensures Traced(conns[id := c], trace)
  {
  }

  lemma TimedAfterAccept(conns: map<nat, Conn>, a: Agenda, id: nat, c: Conn)
    requires Timed(conns, a) && id < a.next && Tracks(a, id, Alive(c.idleAt))
    ensures Timed(conns[id := c], a)
  {
  }

  lemma TimedIds(conns: map<nat, Conn>, a: Agenda)
    requires Timed(conns, a)
    ensures a.next !in conns
  {
  }

  lemma TimedAfterClose(conns: map<nat, Conn>, a: Agenda, id: nat)
    requires Timed(conns, a) && id in conns
    ensures Timed(conns[id := ClosedConn(conns[id])], a)
  {
  }

  lemma TimedAfterClosing(conns: map<nat, Conn>, a: Agenda, after: map<nat, Conn>, b: Agenda)
    requires Timed(conns, a) && after.Keys == conns.Keys && a.next <= b.next
    requires forall id :: IsOpen(after, id) ==>
               IsOpen(conns, id) && after[id] == conns[id] && Tracks(b, id, Alive(conns[id].idleAt))
    ensures Timed(after, b)
  {
  }

  /** What other users of the loop do to its wheel: they tick it only through the loop, and they cannot reach the
      idle entry of a connection.  What they do within a tick comes with the timer call. */
  predicate Foreign(conns: map<nat, Conn>, op: Op) {
    !op.Timer? && !op.Within? && (op.Extend? ==> op.id !in conns)
  }

  lemma OthersTracked(mode: Mode, a: Agenda, conns: map<nat, Conn>, op: Op)
    requires Schedule.Valid(a) && !Apply(mode, a, op).crashed
    requires Timed(conns, a) && (Foreign(conns, op) || op.Within?)
    ensures Timed(conns, Apply(mode, a, op)) && a.next <= Apply(mode, a, op).next
  {
    forall id | IsOpen(conns, id) ensures Tracks(Apply(mode, a, op), id, Alive(conns[id].idleAt)) {
      TracksStep(mode, a, id, Alive(conns[id].idleAt), op);
    }
  }

  lemma AcceptTimed(mode: Mode, a: Agenda, conns: map<nat, Conn>, fd: int)
    requires Schedule.Valid(a) && !a.crashed && Timed(conns, a)
    ensures var b := Apply(mode, a, RunAfter(IDLE_SECONDS));
            !b.crashed && b.tick == a.tick && Timed(conns[a.next := AcceptedConn(fd, a.next, a.tick)], b)
  {
    NewEntryTracked(mode, a, IDLE_SECONDS);
    OthersTracked(mode, a, conns, RunAfter(IDLE_SECONDS));
    hide Tracks;
    hide Schedule.Valid;
    TimedAfterAccept(conns, Apply(mode, a, RunAfter(IDLE_SECONDS)), a.next, AcceptedConn(fd, a.next, a.tick));
  }

  /** Only what the registry looks at matters to it. */
  lemma RegisteredWhenWatched(conns: map<nat, Conn>, connections: set<nat>, events: map<int, nat>, id: nat,
                              entry: nat, due: nat, seconds: nat)
    requires Registered(conns, connections, events) && id in conns
    ensures Registered(conns[id := Watched(conns[id], entry, due, seconds)], connections, events)
  {
    var after := conns[id := Watched(conns[id], entry, due, seconds)];
    assert forall k :: IsOpen(after, k) <==> IsOpen(conns, k);
    assert forall k :: k in conns ==> after[k].fd == conns[k].fd;
  }

  /** The entry of a connection is among the firings from..to of the log. */
  ghost predicate FiredWithin(log: seq<Firing>, from: nat, to: nat, id: nat)
    requires to <= |log|
  {
    exists j :: from <= j < to && log[j].token == Token(id, Plain, 0)
  }

  lemma FiredOneMore(log: seq<Firing>, from: nat, to: nat)
    requires from <= to < |log|
    ensures forall id :: FiredWithin(log, from, to + 1, id)
                         <==> FiredWithin(log, from, to, id) || log[to].token == Token(id, Plain, 0)
  {
  }

  /** Of the connections in `before` exactly the open ones whose entry is among the firings are now closed. */
  ghost predicate Dispatched(before: map<nat, Conn>, after: map<nat, Conn>, log: seq<Firing>, from: nat, to: nat)
    requires to <= |log|
  {
    && after.Keys == before.Keys
    && forall id :: id in before ==>
         after[id] == if IsOpen(before, id) && FiredWithin(log, from, to, id) then ClosedConn(before[id])
                      else before[id]
  }

  lemma NoneDispatched(conns: map<nat, Conn>, log: seq<Firing>, from: nat)
    requires from <= |log|
    ensures Dispatched(conns, conns, log, from, from)
  {
  }

  lemma DispatchedOneMore(before: map<nat, Conn>, now: map<nat, Conn>, after: map<nat, Conn>, log: seq<Firing>,
                          from: nat, to: nat)
    requires from <= to < |log| && Dispatched(before, now, log, from, to)
    requires var tok := log[to].token;
             after == if tok == Token(tok.id, Plain, 0) && IsOpen(now, tok.id)
                      then now[tok.id := ClosedConn(now[tok.id])] else now
    ensures Dispatched(before, after, log, from, to + 1)
  {
    FiredOneMore(log, from, to);
    hide FiredWithin;
  }

  /** What callbacks ask for during a tick leaves the idle entries as they are. */
  lemma {:induction false} RequestsTracked(mode: Mode, a: Agenda, conns: map<nat, Conn>, ops: seq<Op>)
    requires Schedule.Valid(a) && Timed(conns, a) && AllWithin(ops) && !Run(mode, a, ops).crashed
    ensures var c := Run(mode, a, ops); Schedule.Valid(c) && Timed(conns, c)
    decreases |ops|
  {
    hide Schedule.Apply;
    hide Schedule.Valid;
    hide Timed;
    if ops != [] {
      var b := Apply(mode, a, ops[0]);
      if b.crashed { CrashIsFinal(mode, b, ops[1..]); }
      assert ops[0] in ops && forall op :: op in ops[1..] ==> op in ops;
      ValidApply(mode, a, ops[0]);
      OthersTracked(mode, a, conns, ops[0]);
      RequestsTracked(mode, b, conns, ops[1..]);
    }
  }

  /** The agenda just before the tick of a timer call takes effect, with everything asked for during it. */
  lemma TickAfterRequests(mode: Mode, a: Agenda, conns: map<nat, Conn>, rs: Requests)
    requires Schedule.Valid(a) && Timed(conns, a) && !Run(mode, a, TickOps(mode, a.tick + 1, rs)).crashed
    ensures var c := Run(mode, a, AskedFrom(mode, a.tick + 1, 0, rs));
            && Run(mode, a, TickOps(mode, a.tick + 1, rs)) == Advance(mode, c)
            && Schedule.Valid(c) && Timed(conns, c)
            && !c.crashed && c.tick == a.tick && c.fired == a.fired
  {
    hide Schedule.Run;
    hide Schedule.Valid;
    hide Timed;
    hide AskedFrom;
    var ops := AskedFrom(mode, a.tick + 1, 0, rs);
    AskedFromIsWithin(mode, a.tick + 1, 0, rs);
    WithinsAdd(mode, a, ops);
    RunAppend(mode, a, ops, [Timer]);
    RunOne(mode, Run(mode, a, ops), Timer);
    RequestsTracked(mode, a, conns, ops);
  }

  lemma TimeoutIsDue(mode: Mode, a: Agenda, b: Agenda, id: nat, due: nat,
                     before: seq<Firing>, log: seq<Firing>, passes: bool)
    requires Schedule.Valid(a) && Tracks(a, id, Alive(due)) && !b.crashed
    requires b == if passes then Advance(mode, a) else a
    requires before <= log && Slots.Logged(before) == a.fired && Slots.Logged(log) == b.fired
    ensures if passes && b.tick == due then FiredWithin(log, |before|, |log|, id)
            else !FiredWithin(log, |before|, |log|, id) && Tracks(b, id, Alive(due))
  {
    var tok := Token(id, Plain, 0);
    if passes { TracksAdvance(mode, a, id, Alive(due)); }
    if passes && b.tick == due {
      assert Firing(tok, due) in Slots.Logged(log);
      forall k | 0 <= k < |before| ensures log[k].token != tok {
        assert before[k] in Slots.Logged(before);
      }
    } else {
      forall j | |before| <= j < |log| ensures log[j].token != tok {
        assert log[j] in Slots.Logged(log);
      }
    }
  }

  lemma TimeoutsAreDue(mode: Mode, a: Agenda, b: Agenda, conns: map<nat, Conn>,
                       before: seq<Firing>, log: seq<Firing>, passes: bool)
    requires Schedule.Valid(a) && Timed(conns, a) && !b.crashed
    requires b == if passes then Advance(mode, a) else a
    requires before <= log && Slots.Logged(before) == a.fired && Slots.Logged(log) == b.fired
    ensures forall id :: IsOpen(conns, id) ==>
              if passes && b.tick == conns[id].idleAt then FiredWithin(log, |before|, |log|, id)
              else !FiredWithin(log, |before|, |log|, id) && Tracks(b, id, Alive(conns[id].idleAt))
  {
    forall id | IsOpen(conns, id)
      ensures if passes && b.tick == conns[id].idleAt then FiredWithin(log, |before|, |log|, id)
              else !FiredWithin(log, |before|, |log|, id) && Tracks(b, id, Alive(conns[id].idleAt))
    {
      TimeoutIsDue(mode, a, b, id, conns[id].idleAt, before, log, passes);
    }
  }

  /** The idle entries among the firings of a timer call close exactly the connections whose deadline has come. */
  lemma TimerCloses(mode: Mode, a: Agenda, b: Agenda, conns: map<nat, Conn>, after: map<nat, Conn>,
                    before: seq<Firing>, log: seq<Firing>, passes: bool)
    requires Schedule.Valid(a) && Timed(conns, a) && !b.crashed
    requires b == if passes then Advance(mode, a) else a
    requires before <= log && Slots.Logged(before) == a.fired && Slots.Logged(log) == b.fired
    requires Dispatched(conns, after, log, |before|, |log|)
    ensures after.Keys == conns.Keys && Timed(after, b)
    ensures forall id :: id in conns ==>
              after[id] == if IsOpen(conns, id) && passes && b.tick == conns[id].idleAt then ClosedConn(conns[id])
                           else conns[id]
  {
    hide Advance;
    hide Schedule.Valid;
    hide Slots.Logged;
    hide Tracks;
    hide FiredWithin;
    TimeoutsAreDue(mode, a, b, conns, before, log, passes);
    AdvanceTicks(mode, a);
    TimedAfterClosing(conns, a, after, b);
  }

  lemma OpenAreIn(conns: map<nat, Conn>, connections: set<nat>, events: map<int, nat>)
    requires Registered(conns, connections, events)
    ensures forall id :: id in connections <==> IsOpen(conns, id)
  {
  }

  /** When each connection was accepted, and at which tick it was closed for idleness or for another reason. */
  datatype History = History(accepted: map<nat, nat>, idled: map<nat, nat>, closed: map<nat, nat>)

  const NO_HISTORY: History := History(map[], map[], map[])

  /** The server as the steps alone determine it: connections, agenda, last clock reading, what happened so far. */
  datatype World = World(conns: map<nat, Conn>, agenda: Agenda, last: int, history: History)

  const NEW_WORLD: World := World(map[], START, 0, NO_HISTORY)

  class TcpServer {
    const wheel: TimingWheel
    var conns: map<nat, Conn>
    var connections: set<nat>
    var events: map<int, nat>
    var trace: seq<Happening>

    ghost predicate Valid()
      reads this, wheel
    {
      && wheel.Valid() && !wheel.crashed
      && Registered(conns, connections, events)
      && Traced(conns, trace)
      && Timed(conns, wheel.View())
    }

    ghost function State(h: History): World
      reads this, wheel
    {
      World(conns, wheel.View(), wheel.lastTs, h)
    }

    constructor (mode: Mode)
      ensures State(NO_HISTORY) == NEW_WORLD
      ensures Valid() && fresh(wheel) && wheel.mode == mode && trace == []
    {
      wheel := new TimingWheel(mode);
      conns, connections, events, trace := map[], {}, map[], [];
    }

    /** AddEvent: a descriptor already in the table stays as it is, so the new connection is registered exactly if
        no other open connection has its descriptor. */
    method AddEvent(id: nat)
      requires id in conns
      modifies `events
      ensures events == if conns[id].fd in old(events) then old(events) else old(events)[conns[id].fd := id]
      ensures IsOpen(conns, id) && id in connections && conns[id].fd > 0
              && old(Registered(conns - {id}, connections - {id}, events)) ==>
                (Registered(conns, connections, events)
                 <==> forall c :: c != id && IsOpen(conns, c) ==> conns[c].fd != conns[id].fd)
    {
      hide Registered;
      if IsOpen(conns, id) && id in connections && conns[id].fd > 0
         && Registered(conns - {id}, connections - {id}, events) {
        RegisteredIff(conns, connections, events, id);
      }
      if conns[id].fd in events { return; }
      events := events[conns[id].fd := id];
    }

    /** DelEvent: afterwards the table belongs to the other connections. */
    method DelEvent(id: nat)
      requires id in conns
      modifies `events
      ensures events == old(events) - {conns[id].fd}
      ensures IsOpen(conns, id) && old(Registered(conns, connections + {id}, events)) ==>
                Registered(conns - {id}, connections - {id}, events)
    {
      hide Registered;
      if IsOpen(conns, id) && Registered(conns, connections + {id}, events) {
        UnregisteredBy(conns, connections + {id}, events, id);
        assert connections + {id} - {id} == connections - {id};
      }
      if conns[id].fd !in events { assert events == events - {conns[id].fd}; return; }
      events := events - {conns[id].fd};
    }

    /** EnableCheckIdleTimeout: the connection keeps the idle time and a weak reference to a new entry of the wheel,
        which is aimed that many seconds ahead. */
    method EnableCheckIdleTimeout(id: nat, seconds: nat)
      requires wheel.Valid() && !wheel.crashed && id in conns
      modifies wheel, `conns
      ensures wheel.Valid() && wheel.lastTs == old(wheel.lastTs)
      ensures var due := Deadline(old(wheel.tick), seconds);
              conns == old(conns)[id := Watched(old(conns)[id], old(wheel.next), due, seconds)]
      ensures wheel.crashed == Apply(wheel.mode, old(wheel.View()), RunAfter(seconds)).crashed
      ensures !wheel.crashed ==> wheel.View() == Apply(wheel.mode, old(wheel.View()), RunAfter(seconds))
      ensures Reliable(wheel.mode, seconds) ==>
                !wheel.crashed && wheel.tick == old(wheel.tick)
                && Tracks(wheel.View(), conns[id].entry, Alive(conns[id].idleAt))
    {
      hide TimingWheel.Valid;
      hide TimingWheel.View;
      hide Schedule.Apply;
      hide Schedule.Valid;
      hide Tracks;
      wheel.ViewFields();
      if Reliable(wheel.mode, seconds) { NewEntryTracked(wheel.mode, wheel.View(), seconds); }
      conns := conns[id := Watched(conns[id], wheel.next, Deadline(wheel.tick, seconds), seconds)];
      wheel.RunAfter(seconds);
      wheel.ViewFields();
    }

    /** OnAccept with a descriptor the kernel has just made, so none that is open. */
    method OnAccept(fd: int) returns (id: nat)
      requires Valid()
      requires fd > 0 && forall c :: IsOpen(conns, c) ==> conns[c].fd != fd
      modifies this, wheel
      ensures Valid() && trace == old(trace)
      ensures id == old(wheel.next) && id !in old(conns)
      ensures wheel.tick == old(wheel.tick) && wheel.lastTs == old(wheel.lastTs)
      ensures conns == old(conns)[id := AcceptedConn(fd, id, wheel.tick)]
      ensures wheel.View() == Apply(wheel.mode, old(wheel.View()), RunAfter(IDLE_SECONDS))
    {
      hide TimingWheel.Valid;
      hide TimingWheel.View;
      hide Schedule.Apply;
      hide Registered;
      hide Traced;
      hide Timed;
      hide Tracks;
      wheel.ViewFields();
      TimedIds(conns, wheel.View());
      AcceptTimed(wheel.mode, wheel.View(), conns, fd);
      OpenAreIn(conns, connections, events);
      id := wheel.next;
      conns := conns[id := NewConn(fd)];
      connections := connections + {id};
      assert conns - {id} == old(conns) && connections - {id} == old(connections);
      AddEvent(id);
      RegisteredWhenWatched(conns, connections, events, id, id, wheel.tick + IDLE_SECONDS, IDLE_SECONDS);
      TraceAfterAccept(old(conns), trace, id, AcceptedConn(fd, id, wheel.tick));
      EnableCheckIdleTimeout(id, IDLE_SECONDS);
      wheel.ViewFields();
      assert conns == old(conns)[id := AcceptedConn(fd, id, wheel.tick)];
    }

    /** OnClose with the server's close callback inside: erase, deregister, destroy callback, then the flag and the
        descriptor.  A connection already closed is left alone. */
    method OnClose(id: nat)
      requires id in conns && Registered(conns, connections, events) && Traced(conns, trace)
      modifies this
      ensures Registered(conns, connections, events) && Traced(conns, trace)
      ensures conns == if old(IsOpen(conns, id)) then old(conns)[id := ClosedConn(old(conns)[id])]
                       else old(conns)
      ensures trace == old(trace) + if old(IsOpen(conns, id)) then [Destroyed(id), FdClosed(id)] else []
    {
      hide Registered;
      hide Traced;
      if !conns[id].closed {
        TraceOfClose(conns, trace, id);
        RegistryAfterClose(conns, connections, events, id);
        connections := connections - {id};
        DelEvent(id);
        trace := trace + [Destroyed(id)];
        trace := trace + [FdClosed(id)];
        assert trace == old(trace) + [Destroyed(id), FdClosed(id)];
        conns := conns[id := ClosedConn(conns[id])];
      }
    }

    /** The peer closes, an error occurs, or the connection is closed by force. */
    method Close(id: nat)
      requires Valid() && id in conns
      modifies this
      ensures Valid()
      ensures conns == if old(IsOpen(conns, id)) then old(conns)[id := ClosedConn(old(conns)[id])]
                       else old(conns)
    {
      hide TimingWheel.Valid;
      hide TimingWheel.View;
      hide Registered;
      hide Traced;
      hide Timed;
      TimedAfterClose(conns, wheel.View(), id);
      OnClose(id);
    }

    /** Other users of the loop's wheel: callbacks, periodic tasks, sockets that extend entries of their own. */
    method UseWheel(op: Op)
      requires Valid() && Foreign(conns, op)
      modifies wheel
      ensures !wheel.crashed ==> Valid()
      ensures wheel.tick == old(wheel.tick) && wheel.lastTs == old(wheel.lastTs)
      ensures var b := Apply(wheel.mode, old(wheel.View()), op);
              wheel.crashed == b.crashed && (!wheel.crashed ==> wheel.View() == b)
    {
      ghost var a := wheel.View();
      hide TimingWheel.Valid;
      hide TimingWheel.View;
      hide Registered;
      hide Traced;
      hide Timed;
      hide Schedule.Apply;
      wheel.ViewFields();
      match op {
        case RunAfter(delay) => wheel.RunAfter(delay);
        case RunEvery(interval) => wheel.RunEvery(interval);
        case Extend(id, delay) => wheel.Extend(id, delay);
      }
      if !wheel.crashed { OthersTracked(wheel.mode, a, conns, op); }
    }

    /** The idle entries among the firings of a tick close their connections. */
    method Dispatch(n: nat)
      requires n <= |wheel.fired| && Registered(conns, connections, events) && Traced(conns, trace)
      modifies this
      ensures Registered(conns, connections, events) && Traced(conns, trace)
      ensures Dispatched(old(conns), conns, wheel.fired, n, |wheel.fired|)
    {
      hide Registered;
      hide Traced;
      hide Dispatched;
      NoneDispatched(conns, wheel.fired, n);
      var i := n;
      while i < |wheel.fired|
        invariant n <= i <= |wheel.fired|
        invariant Registered(conns, connections, events) && Traced(conns, trace)
        invariant Dispatched(old(conns), conns, wheel.fired, n, i)
      {
        ghost var now := conns;
        var tok := wheel.fired[i].token;
        if tok == Token(tok.id, Plain, 0) && tok.id in conns { OnTimeout(tok.id); }
        DispatchedOneMore(old(conns), now, conns, wheel.fired, n, i);
        i := i + 1;
      }
    }

    method OnTimeout(id: nat)
      requires id in conns && Registered(conns, connections, events) && Traced(conns, trace)
      modifies this
      ensures Registered(conns, connections, events) && Traced(conns, trace)
      ensures conns == if old(IsOpen(conns, id)) then old(conns)[id := ClosedConn(old(conns)[id])] else old(conns)
      ensures trace == old(trace) + if old(IsOpen(conns, id)) then [Destroyed(id), FdClosed(id)] else []
    {
      OnClose(id);
    }

    /** One timer call.  The connections it closes are exactly the open ones accepted 30 ticks ago. */
    method OnTimer(now: int, requests: Requests)
      requires Valid()
      modifies this, wheel
      ensures !wheel.crashed ==> Valid()
      ensures wheel.lastTs == Clock.NextTs(old(wheel.lastTs), now)
      ensures var ops := TickOps(wheel.mode, old(wheel.tick) + 1, requests);
              var b := if Clock.Passes(old(wheel.lastTs), now) then Run(wheel.mode, old(wheel.View()), ops)
                       else old(wheel.View());
              wheel.crashed == b.crashed && (!wheel.crashed ==> wheel.View() == b)
      ensures !wheel.crashed ==>
                && wheel.tick == old(wheel.tick) + (if Clock.Passes(old(wheel.lastTs), now) then 1 else 0)
                && conns.Keys == old(conns).Keys
                && forall id :: id in conns ==>
                     conns[id] == if old(IsOpen(conns, id)) && Clock.Passes(old(wheel.lastTs), now)
                                     && wheel.tick == old(conns)[id].idleAt
                                  then ClosedConn(old(conns)[id]) else old(conns)[id]
    {
      hide TimingWheel.Valid;
      hide TimingWheel.View;
      hide Slots.Logged;
      hide Schedule.Valid;
      hide Registered;
      hide Traced;
      hide Timed;
      hide Dispatched;
      ghost var a, before := wheel.View(), conns;
      ghost var passes := Clock.Passes(wheel.lastTs, now);
      ghost var c := a;
      wheel.ViewFields();
      TickOfTick(wheel.mode, a, requests);
      hide Advance;
      hide Schedule.Run;
      hide TickOps;
      var n := |wheel.fired|;
      wheel.OnTimer(now, requests);
      wheel.ViewFields();
      if wheel.crashed { return; }
      if passes {
        TickAfterRequests(wheel.mode, a, conns, requests);
        c := Run(wheel.mode, a, AskedFrom(wheel.mode, a.tick + 1, 0, requests));
      }
      Dispatch(n);
      TimerCloses(wheel.mode, c, wheel.View(), before, conns, old(wheel.fired), wheel.fired, passes);
    }
  }

  // ---------- Whole runs ----------

  /** What may happen to a server: the kernel hands over a connection, a connection is closed for any reason but
      idleness, other code uses the wheel, the loop calls the timer and callbacks use the wheel meanwhile. */
  datatype Step = Accept(fd: int) | CloseOne(id: nat) | UseWheel(op: Op) | TimerCall(now: int, rs: Requests)

  predicate FreshFd(conns: map<nat, Conn>, fd: int) {
    fd > 0 && forall c | c in conns :: !conns[c].closed ==> conns[c].fd != fd
  }

  function Accepted(w: World, mode: Mode, fd: int): World {
    var id := w.agenda.next;
    w.(conns := w.conns[id := AcceptedConn(fd, id, w.agenda.tick)],
       agenda := Apply(mode, w.agenda, RunAfter(IDLE_SECONDS)),
       history := w.history.(accepted := w.history.accepted[id := w.agenda.tick]))
  }

  function Closed(w: World, id: nat): World
    requires IsOpen(w.conns, id)
  {
    w.(conns := w.conns[id := ClosedConn(w.conns[id])],
       history := w.history.(closed := w.history.closed[id := w.agenda.tick]))
  }

  function IdleClosed(conns: map<nat, Conn>, tick: nat): map<nat, Conn> {
    map id | id in conns :: if !conns[id].closed && conns[id].idleAt == tick then ClosedConn(conns[id]) else conns[id]
  }

  /** The connections open before and closed after, with the tick. */
  function ClosedNow(before: map<nat, Conn>, after: map<nat, Conn>, tick: nat): map<nat, nat> {
    map id | id in after && after[id].closed && IsOpen(before, id) :: tick
  }

  function Ticked(w: World, mode: Mode, last: int, rs: Requests): World {
    var now := w.agenda.tick + 1;
    var after := IdleClosed(w.conns, now);
    World(after, Run(mode, w.agenda, TickOps(mode, now, rs)), last,
          w.history.(idled := w.history.idled + ClosedNow(w.conns, after, now)))
  }

  function Turn(mode: Mode, w: World, step: Step): World {
    if w.agenda.crashed then w
    else
      match step
      case Accept(fd) => if FreshFd(w.conns, fd) then Accepted(w, mode, fd) else w
      case CloseOne(id) => if IsOpen(w.conns, id) then Closed(w, id) else w
      case UseWheel(op) => if Foreign(w.conns, op) then w.(agenda := Apply(mode, w.agenda, op)) else w
      case TimerCall(now, rs) =>
        var last := Clock.NextTs(w.last, now);
        if Clock.Passes(w.last, now) then Ticked(w, mode, last, rs) else w.(last := last)
  }

  function Turns(mode: Mode, steps: seq<Step>): World {
    if steps == [] then NEW_WORLD
    else Turn(mode, Turns(mode, steps[..|steps| - 1]), steps[|steps| - 1])
  }

  lemma {:induction false} CrashedStays(mode: Mode, steps: seq<Step>, i: nat)
    requires i <= |steps| && Turns(mode, steps[..i]).agenda.crashed
    ensures Turns(mode, steps).agenda.crashed
    decreases |steps| - i
  {
    if i < |steps| {
      assert steps[..i + 1][..i] == steps[..i];
      CrashedStays(mode, steps, i + 1);
    } else {
      assert steps[..i] == steps;
    }
  }

  /** Every connection closed is closed once: by idleness at exactly the 30th tick after it was accepted, or
      before that tick for another reason.  An open one has not reached that tick. */
  ghost predicate Recorded(conns: map<nat, Conn>, tick: nat, h: History) {
    && h.accepted.Keys == conns.Keys
    && (forall id :: id in conns ==> conns[id].idleAt == h.accepted[id] + IDLE_SECONDS)
    && (forall id :: IsOpen(conns, id) ==> tick < h.accepted[id] + IDLE_SECONDS)
    && (forall id :: id in conns && conns[id].closed <==> id in h.idled || id in h.closed)
    && (forall id :: id in h.idled ==>
          id in h.accepted && id !in h.closed && h.idled[id] == h.accepted[id] + IDLE_SECONDS)
    && (forall id :: id in h.closed ==> id in h.accepted && h.closed[id] < h.accepted[id] + IDLE_SECONDS)
  }

  ghost predicate Accounted(w: World) {
    Recorded(w.conns, w.agenda.tick, w.history) && forall id :: id in w.conns ==> id < w.agenda.next
  }

  lemma AcceptedIsAccounted(mode: Mode, w: World, fd: int)
    requires Accounted(w) && !w.agenda.crashed
    ensures Accounted(Accepted(w, mode, fd))
  {
  }

  lemma ClosedIsAccounted(w: World, id: nat)
    requires Accounted(w) && IsOpen(w.conns, id)
    ensures Accounted(Closed(w, id))
  {
  }

  /** From `conns` to `after` exactly the open connections due at `now` are closed; `idled` notes them down. */
  ghost predicate TimesOut(conns: map<nat, Conn>, after: map<nat, Conn>, idled: map<nat, nat>, now: nat) {
    && after.Keys == conns.Keys
    && (forall id :: id in conns ==> after[id].idleAt == conns[id].idleAt)
    && (forall id :: IsOpen(after, id) <==> IsOpen(conns, id) && conns[id].idleAt != now)
    && (forall id :: id in idled <==> IsOpen(conns, id) && conns[id].idleAt == now)
    && (forall id :: id in idled ==> idled[id] == now)
  }

  lemma IdleClosedParts(conns: map<nat, Conn>, now: nat)
    ensures var after := IdleClosed(conns, now);
            after.Keys == conns.Keys && TimesOut(conns, after, ClosedNow(conns, after, now), now)
  {
  }

  lemma RecordedBefore(conns: map<nat, Conn>, tick: nat, now: nat, h: History)
    requires Recorded(conns, now, h) && tick <= now
    ensures Recorded(conns, tick, h)
  {
  }

  lemma RecordedIdle(conns: map<nat, Conn>, tick: nat, h: History, after: map<nat, Conn>, idled: map<nat, nat>)
    requires Recorded(conns, tick, h) && TimesOut(conns, after, idled, tick + 1)
    ensures Recorded(after, tick + 1, h.(idled := h.idled + idled))
  {
  }

  lemma TickedIsAccounted(mode: Mode, w: World, last: int, rs: Requests)
    requires Accounted(w) && !w.agenda.crashed
    ensures Accounted(Ticked(w, mode, last, rs))
  {
    hide Schedule.Run;
    hide TickOps;
    hide IdleClosed;
    hide ClosedNow;
    hide Recorded;
    hide TimesOut;
    TickOfTick(mode, w.agenda, rs);
    var now := w.agenda.tick + 1;
    var after := IdleClosed(w.conns, now);
    IdleClosedParts(w.conns, now);
    RecordedIdle(w.conns, w.agenda.tick, w.history, after, ClosedNow(w.conns, after, now));
    RecordedBefore(after, Ticked(w, mode, last, rs).agenda.tick, now, Ticked(w, mode, last, rs).history);
  }

  lemma LastIsNoAccount(w: World, last: int)
    requires Accounted(w)
    ensures Accounted(w.(last := last))
  {
  }

  lemma UseIsAccounted(mode: Mode, w: World, op: Op)
    requires Accounted(w) && Foreign(w.conns, op)
    ensures Accounted(w.(agenda := Apply(mode, w.agenda, op)))
  {
  }

  lemma {:induction false} TurnIsAccounted(mode: Mode, w: World, step: Step)
    requires Accounted(w)
    ensures Accounted(Turn(mode, w, step))
  {
    hide Accounted;
    hide Accepted;
    hide Closed;
    hide Ticked;
    hide Schedule.Apply;
    if !w.agenda.crashed {
      match step
      case Accept(fd) => AcceptedIsAccounted(mode, w, fd);
      case CloseOne(id) => if IsOpen(w.conns, id) { ClosedIsAccounted(w, id); }
      case UseWheel(op) => if Foreign(w.conns, op) { UseIsAccounted(mode, w, op); }
      case TimerCall(now, rs) =>
        TickedIsAccounted(mode, w, Clock.NextTs(w.last, now), rs);
        LastIsNoAccount(w, Clock.NextTs(w.last, now));
    }
  }

  lemma {:induction false} TurnsAreAccounted(mode: Mode, steps: seq<Step>)
    ensures Accounted(Turns(mode, steps))
  {
    if steps != [] {
      TurnsAreAccounted(mode, steps[..|steps| - 1]);
      TurnIsAccounted(mode, Turns(mode, steps[..|steps| - 1]), steps[|steps| - 1]);
    }
  }

  /** Why and when a connection is closed, at any step of any run: by a close of its own, or by the timer call
      that makes the 30th tick after it was accepted; by nothing else, and by these always. */
  lemma ClosedByStepIff(mode: Mode, steps: seq<Step>, i: nat, id: nat)
    requires i < |steps| && IsOpen(Turns(mode, steps[..i]).conns, id)
    requires !Turns(mode, steps[..i]).agenda.crashed
    ensures var w := Turns(mode, steps[..i]);
            id in w.history.accepted
            && (!IsOpen(Turns(mode, steps[..i + 1]).conns, id)
                <==> || steps[i] == CloseOne(id)
                     || (steps[i].TimerCall? && w.last != 0 && steps[i].now - w.last >= 1000
                         && w.agenda.tick + 1 == w.history.accepted[id] + 30))
  {
    assert steps[..i + 1][..i] == steps[..i];
    TurnsAreAccounted(mode, steps[..i]);
  }

  /** Every descriptor the kernel hands over, as long as it is none that is open, becomes one more open connection,
      accepted at the current tick; nothing else changes. */
  lemma AcceptGivesAConnection(mode: Mode, steps: seq<Step>, fd: int)
    requires !Turns(mode, steps).agenda.crashed
    requires fd > 0 && forall c :: IsOpen(Turns(mode, steps).conns, c) ==> Turns(mode, steps).conns[c].fd != fd
    ensures var w, v := Turns(mode, steps), Turns(mode, steps + [Accept(fd)]);
            var id := w.agenda.next;
            && id !in w.conns && v.conns.Keys == w.conns.Keys + {id}
            && IsOpen(v.conns, id) && v.conns[id].fd == fd && v.conns[id].idleAt == w.agenda.tick + 30
            && (forall c :: c in w.conns ==> v.conns[c] == w.conns[c])
            && v.history == w.history.(accepted := w.history.accepted[id := w.agenda.tick])
            && !v.agenda.crashed && v.agenda.tick == w.agenda.tick && v.last == w.last
  {
    assert (steps + [Accept(fd)])[..|steps|] == steps;
    TurnsAreAccounted(mode, steps);
  }

  /** No other step makes or forgets a connection.  A step leaves every connection as it is unless it closes it, and a
      close for another reason than idleness is recorded at its tick. */
  lemma OtherStepsMakeNoConnection(mode: Mode, steps: seq<Step>, step: Step)
    requires !Turns(mode, steps).agenda.crashed
    requires var conns := Turns(mode, steps).conns;
             step.Accept? ==> step.fd <= 0 || exists c :: IsOpen(conns, c) && conns[c].fd == step.fd
    ensures var w, v := Turns(mode, steps), Turns(mode, steps + [step]);
            && v.conns.Keys == w.conns.Keys && v.history.accepted == w.history.accepted
            && (forall id :: id in w.conns ==>
                  v.conns[id] == if IsOpen(v.conns, id) || !IsOpen(w.conns, id) then w.conns[id]
                                 else w.conns[id].(fd := -1, closed := true))
            && v.history.closed == if step.CloseOne? && IsOpen(w.conns, step.id)
                                   then w.history.closed[step.id := w.agenda.tick] else w.history.closed
  {
    assert (steps + [step])[..|steps|] == steps;
    hide Schedule.Apply;
    hide Schedule.Run;
    hide TickOps;
  }

  lemma TickKept(mode: Mode, a: Agenda, op: Op)
    ensures !op.Timer? && !Apply(mode, a, op).crashed ==> Apply(mode, a, op).tick == a.tick
  {
  }

  /** What a step does to time and to the wheel: a timer call a second or more after the time kept makes a tick with
      all that callbacks ask for, other code's operations take effect, a close does not touch the wheel. */
  lemma WheelAfterStep(mode: Mode, steps: seq<Step>, step: Step)
    requires !Turns(mode, steps).agenda.crashed
    ensures var w, v := Turns(mode, steps), Turns(mode, steps + [step]);
            var passes := step.TimerCall? && w.last != 0 && step.now - w.last >= 1000;
            && v.last == (if step.TimerCall? && (w.last == 0 || passes) then step.now else w.last)
            && (!v.agenda.crashed ==> v.agenda.tick == w.agenda.tick + if passes then 1 else 0)
            && (passes ==> v.agenda == Run(mode, w.agenda, TickOps(mode, w.agenda.tick + 1, step.rs)))
            && (step.CloseOne? || (step.TimerCall? && !passes) ==> v.agenda == w.agenda)
            && (step.UseWheel? && (step.op.RunAfter? || step.op.RunEvery?
                                   || (step.op.Extend? && step.op.id !in w.conns)) ==>
                  v.agenda == Apply(mode, w.agenda, step.op))
  {
    hide Schedule.Apply;
    hide Schedule.Run;
    hide TickOps;
    hide IdleClosed;
    hide ClosedNow;
    hide FreshFd;
    assert (steps + [step])[..|steps|] == steps;
    var w := Turns(mode, steps);
    match step
    case Accept(_) => TickKept(mode, w.agenda, RunAfter(IDLE_SECONDS));
    case CloseOne(_) =>
    case UseWheel(op) => TickKept(mode, w.agenda, op);
    case TimerCall(_, rs) => TickOfTick(mode, w.agenda, rs);
  }

  /** Other code does not ask for a periodic entry that the wheel refuses. */
  ghost predicate Reasonable(step: Step) {
    && (step.UseWheel? ==> Sensible(step.op))
    && (step.TimerCall? ==>
          forall level, r :: 0 <= level < 4 && r in step.rs[level] ==> r.periodic ==> 0 < r.delay < DELAY_LIMIT)
  }

  lemma {:induction false} AskedIsSensible(upTo: nat, rs: seq<Request>)
    requires forall r :: r in rs ==> r.periodic ==> 0 < r.delay < DELAY_LIMIT
    ensures forall op :: op in Asked(upTo, rs) ==> Sensible(op)
  {
    if rs != [] {
      assert rs[0] in rs && forall r :: r in rs[1..] ==> r in rs;
      AskedIsSensible(upTo, rs[1..]);
    }
  }

  lemma {:induction false} AskedFromIsSensible(mode: Mode, now: nat, level: nat, rs: Requests)
    requires level <= 4
    requires forall l, r :: 0 <= l < 4 && r in rs[l] ==> r.periodic ==> 0 < r.delay < DELAY_LIMIT
    ensures forall op :: op in AskedFrom(mode, now, level, rs) ==> Sensible(op)
    decreases 4 - level
  {
    if level < 4 {
      AskedIsSensible(level + 1, rs[level]);
      AskedFromIsSensible(mode, now, level + 1, rs);
    }
  }

  lemma IntendedTurn(w: World, step: Step)
    requires NoCrashAhead(w.agenda) && Reasonable(step)
    ensures NoCrashAhead(Turn(Intended, w, step).agenda)
  {
    hide NoCrashAhead;
    hide Schedule.Apply;
    hide Schedule.Run;
    hide AskedFrom;
    hide IdleClosed;
    hide ClosedNow;
    hide AcceptedConn;
    match step
    case Accept(_) => IntendedStep(w.agenda, RunAfter(IDLE_SECONDS));
    case CloseOne(_) =>
    case UseWheel(op) => IntendedStep(w.agenda, op);
    case TimerCall(_, rs) =>
      AskedFromIsSensible(Intended, w.agenda.tick + 1, 0, rs);
      IntendedNeverCrashes(w.agenda, TickOps(Intended, w.agenda.tick + 1, rs));
  }

  lemma {:induction false} IntendedTurnsNeverCrash(steps: seq<Step>)
    requires forall step :: step in steps ==> Reasonable(step)
    ensures NoCrashAhead(Turns(Intended, steps).agenda)
  {
    hide Reasonable;
    hide Turn;
    if steps != [] {
      assert forall s :: s in steps[..|steps| - 1] ==> s in steps;
      assert steps[|steps| - 1] in steps;
      IntendedTurnsNeverCrash(steps[..|steps| - 1]);
      IntendedTurn(Turns(Intended, steps[..|steps| - 1]), steps[|steps| - 1]);
    }
  }

  lemma IdleClosedIs(conns: map<nat, Conn>, tick: nat, after: map<nat, Conn>)
    requires after.Keys == conns.Keys
    requires forall id :: id in conns ==>
               after[id] == if IsOpen(conns, id) && tick == conns[id].idleAt then ClosedConn(conns[id]) else conns[id]
    ensures after == IdleClosed(conns, tick)
  {
  }

  /** One step of the object and of what is noted down about it, against one step of the world. */
  method TakeStep(server: TcpServer, step: Step, h: History) returns (h': History)
    requires server.Valid()
    modifies server, server.wheel
    ensures !server.wheel.crashed ==> server.Valid()
    ensures var w := Turn(server.wheel.mode, old(server.State(h)), step);
            server.wheel.crashed == w.agenda.crashed && (!server.wheel.crashed ==> server.State(h') == w)
  {
    hide TimingWheel.Valid;
    hide TimingWheel.View;
    hide Registered;
    hide Traced;
    hide Timed;
    hide Schedule.Apply;
    hide Schedule.Run;
    hide TickOps;
    hide IdleClosed;
    server.wheel.ViewFields();
    h' := h;
    match step {
      case Accept(fd) =>
        if FreshFd(server.conns, fd) {
          var id := server.OnAccept(fd);
          h' := h.(accepted := h.accepted[id := server.wheel.tick]);
        }
      case CloseOne(id) =>
        if id in server.conns {
          if !server.conns[id].closed { h' := h.(closed := h.closed[id := server.wheel.tick]); }
          server.Close(id);
        }
      case UseWheel(op) =>
        if Foreign(server.conns, op) { server.UseWheel(op); }
      case TimerCall(now, rs) =>
        var conns := server.conns;
        ghost var passes := Clock.Passes(server.wheel.lastTs, now);
        server.OnTimer(now, rs);
        if server.wheel.crashed { return; }
        if passes { IdleClosedIs(conns, server.wheel.tick, server.conns); } else { assert server.conns == conns; }
        h' := h.(idled := h.idled + ClosedNow(conns, server.conns, server.wheel.tick));
    }
    server.wheel.ViewFields();
  }

  /** Whole runs.  The kernel never hands over a descriptor that is open, so such a step does not happen.  The
      connections, the tick and the record of accepts and closes are what the steps make of them.  Unless the
      wheel crashes, the registry is consistent, the destroy callbacks and the closed descriptors are as they
      should be, and every close is recorded with its reason; and the wheel as it is meant to be never crashes. */
  method Serve(mode: Mode, steps: seq<Step>)
    returns (crashed: bool, tick: nat, conns: map<nat, Conn>, connections: set<nat>, events: map<int, nat>,
             trace: seq<Happening>, h: History)
    ensures crashed == Turns(mode, steps).agenda.crashed
    ensures !crashed ==>
              && conns == Turns(mode, steps).conns
              && tick == Turns(mode, steps).agenda.tick
              && h == Turns(mode, steps).history
    ensures !crashed ==> Registered(conns, connections, events) && Traced(conns, trace) && Recorded(conns, tick, h)
    ensures mode.Intended? && (forall step :: step in steps ==> Reasonable(step)) ==> !crashed
  {
    hide Registered;
    hide Traced;
    hide Timed;
    hide TimingWheel.Valid;
    hide TimingWheel.View;
    hide Recorded;
    hide Turn;
    var server := new TcpServer(mode);
    h := NO_HISTORY;
    var i := 0;
    while i < |steps| && !server.wheel.crashed
      invariant 0 <= i <= |steps|
      invariant fresh(server) && fresh(server.wheel) && server.wheel.mode == mode
      invariant server.wheel.crashed == Turns(mode, steps[..i]).agenda.crashed
      invariant !server.wheel.crashed ==> server.Valid() && server.State(h) == Turns(mode, steps[..i])
    {
      assert steps[..i + 1][..i] == steps[..i];
      h := TakeStep(server, steps[i], h);
      i := i + 1;
    }
    assert steps[..|steps|] == steps;
    crashed := server.wheel.crashed;
    if crashed { CrashedStays(mode, steps, i); }
    TurnsAreAccounted(mode, steps);
    if mode.Intended? && forall step :: step in steps ==> Reasonable(step) { IntendedTurnsNeverCrash(steps); }
    server.wheel.ViewFields();
    tick, conns, connections, events := server.wheel.tick, server.conns, server.connections, server.events;
    trace := server.trace;
  }
}
