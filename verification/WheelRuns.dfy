/** Whole runs of the wheel: any sequence of calls, timer readings among them, leaves the object in the state the
    agenda reaches on the same operations. */
module WheelRuns {
  import opened Modes
  import opened Schedule
  import opened Wheel
  import opened WheelTheorems
  import Clock

  datatype Call =
    | CallRunAfter(delay: nat)
    | CallRunEvery(interval: nat)
    | CallExtend(id: nat, delay: nat)
    | CallOnTimer(now: int, requests: Requests)

  /** The operations a call amounts to: a timer call counts when it passes the gate. */
  function OpOf(mode: Mode, tick: nat, last: int, call: Call): seq<Op> {
    match call
    case CallRunAfter(d) => [RunAfter(d)]
    case CallRunEvery(i) => [RunEvery(i)]
    case CallExtend(id, d) => [Extend(id, d)]
    case CallOnTimer(now, requests) =>
      if Clock.Passes(last, now) then TickOps(mode, tick + 1, requests) else []
  }

  function TickAfter(tick: nat, last: int, call: Call): nat {
    if call.CallOnTimer? && Clock.Passes(last, call.now) then tick + 1 else tick
  }

  function LastAfter(last: int, call: Call): int {
    if call.CallOnTimer? then Clock.NextTs(last, call.now) else last
  }

  function Ops(mode: Mode, tick: nat, last: int, calls: seq<Call>): seq<Op>
    decreases |calls|
  {
    if calls == [] then []
    else
      OpOf(mode, tick, last, calls[0])
      + Ops(mode, TickAfter(tick, last, calls[0]), LastAfter(last, calls[0]), calls[1..])
  }

  lemma NothingRun(mode: Mode, a: Agenda)
    ensures Run(mode, a, []) == a
  {
  }

  method Do(wheel: TimingWheel, call: Call)
    requires wheel.Valid() && !wheel.crashed
    modifies wheel
    ensures wheel.Valid()
    ensures wheel.lastTs == LastAfter(old(wheel.lastTs), call)
    ensures var b := Run(wheel.mode, old(wheel.View()), OpOf(wheel.mode, old(wheel.tick), old(wheel.lastTs), call));
            wheel.crashed == b.crashed && (!wheel.crashed ==> wheel.View() == b)
    ensures !wheel.crashed ==> wheel.tick == TickAfter(old(wheel.tick), old(wheel.lastTs), call)
  {
    hide TimingWheel.Valid;
    hide TimingWheel.View;
    hide Schedule.Put;
    hide Schedule.Run;
    hide AskedFrom;
    ghost var a := wheel.View();
    wheel.ViewFields();
    NothingRun(wheel.mode, a);
    RunOne(wheel.mode, a, if call.CallRunAfter? then RunAfter(call.delay)
                          else if call.CallRunEvery? then RunEvery(call.interval)
                          else if call.CallExtend? then Extend(call.id, call.delay)
                          else Timer);
    match call {
      case CallRunAfter(d) => wheel.RunAfter(d);
      case CallRunEvery(i) => wheel.RunEvery(i);
      case CallExtend(id, d) => wheel.Extend(id, d);
      case CallOnTimer(now, requests) =>
        TickOfTick(wheel.mode, a, requests);
        wheel.OnTimer(now, requests);
    }
    wheel.ViewFields();
  }

  method Drive(wheel: TimingWheel, calls: seq<Call>)
    requires wheel.Valid() && !wheel.crashed
    modifies wheel
    ensures wheel.Valid()
    ensures var b := Run(wheel.mode, old(wheel.View()), Ops(wheel.mode, old(wheel.tick), old(wheel.lastTs), calls));
            wheel.crashed == b.crashed && (!wheel.crashed ==> wheel.View() == b)
    decreases |calls|
  {
    if calls == [] { return; }
    ghost var mode, a, last, tick := wheel.mode, wheel.View(), wheel.lastTs, wheel.tick;
    ghost var first := OpOf(mode, tick, last, calls[0]);
    ghost var rest := Ops(mode, TickAfter(tick, last, calls[0]), LastAfter(last, calls[0]), calls[1..]);
    RunAppend(mode, a, first, rest);
    Do(wheel, calls[0]);
    if wheel.crashed {
      CrashIsFinal(mode, Run(mode, a, first), rest);
      return;
    }
    hide Schedule.Run;
    Drive(wheel, calls[1..]);
  }

  // ---------- Real time ----------

  function Readings(calls: seq<Call>): seq<int> {
    if calls == [] then []
    else (if calls[0].CallOnTimer? then [calls[0].now] else []) + Readings(calls[1..])
  }

  lemma {:induction false} TimersOfAppend(first: seq<Op>, second: seq<Op>)
    ensures Timers(first + second) == Timers(first) + Timers(second)
  {
    if first == [] {
      assert first + second == second;
    } else {
      assert (first + second)[1..] == first[1..] + second;
      TimersOfAppend(first[1..], second);
    }
  }

  lemma {:induction false} WithinIsNoTimer(ops: seq<Op>)
    requires AllWithin(ops)
    ensures Timers(ops) == 0
  {
    if ops != [] {
      assert ops[0] in ops && forall op :: op in ops[1..] ==> op in ops;
      WithinIsNoTimer(ops[1..]);
    }
  }

  lemma TimersOfCall(mode: Mode, tick: nat, last: int, call: Call)
    ensures Timers(OpOf(mode, tick, last, call)) == if call.CallOnTimer? && Clock.Passes(last, call.now) then 1 else 0
  {
    assert Timers([Timer]) == 1 by { assert [Timer][1..] == []; }
    if call.CallOnTimer? && Clock.Passes(last, call.now) {
      var ops := AskedFrom(mode, tick + 1, 0, call.requests);
      AskedFromIsWithin(mode, tick + 1, 0, call.requests);
      WithinIsNoTimer(ops);
      TimersOfAppend(ops, [Timer]);
    } else if !call.CallOnTimer? {
      assert OpOf(mode, tick, last, call)[1..] == [];
    }
  }

  lemma {:induction false} TimersAreTicks(mode: Mode, tick: nat, last: int, calls: seq<Call>)
    ensures Timers(Ops(mode, tick, last, calls)) == Clock.TicksOf(last, Readings(calls))
    decreases |calls|
  {
    hide OpOf;
    if calls != [] {
      var next, on := LastAfter(last, calls[0]), TickAfter(tick, last, calls[0]);
      TimersOfAppend(OpOf(mode, tick, last, calls[0]), Ops(mode, on, next, calls[1..]));
      TimersAreTicks(mode, on, next, calls[1..]);
      TimersOfCall(mode, tick, last, calls[0]);
      if calls[0].CallOnTimer? {
        assert Readings(calls)[0] == calls[0].now && Readings(calls)[1..] == Readings(calls[1..]);
      } else {
        assert Readings(calls) == Readings(calls[1..]);
      }
    }
  }

  /** The real time an entry waits.  It is handed over at clock time `inserted`, between two timer calls; whenever
      it has run, at least `delay - unit` seconds have passed on the clock, which below one minute is `delay - 1`;
      one second more if the clock had not been read before. */
  lemma EntryWaitsInRealTime(mode: Mode, a: Agenda, last: int, delay: nat, calls: seq<Call>, inserted: int, at: nat)
    requires Schedule.Valid(a) && !a.crashed && Reliable(mode, delay)
    requires Clock.NeverZero(Readings(calls)) && forall r :: r in Readings(calls) ==> r >= inserted
    requires forall op :: op in Ops(mode, a.tick, last, calls) && op.Extend? ==> op.id != a.next
    requires var b := Run(mode, Apply(mode, a, RunAfter(delay)), Ops(mode, a.tick, last, calls));
             !b.crashed && Firing(Token(a.next, Plain, 0), at) in b.fired
    ensures Clock.LastTs(last, Readings(calls)) >= inserted + 1000 * (delay - Unit(Level(delay)))
    ensures last == 0 ==>
              Clock.LastTs(last, Readings(calls)) >= inserted + 1000 * (delay - Unit(Level(delay)) + 1)
  {
    var ops := Ops(mode, a.tick, last, calls);
    var start := Apply(mode, a, RunAfter(delay));
    RunAfterRunsAtItsDeadline(mode, a, delay, ops);
    TicksAreTimers(mode, start, ops);
    TimersAreTicks(mode, a.tick, last, calls);
    DeadlineBounds(a.tick, delay);
    Clock.WaitsAtLeast(last, Readings(calls), inserted, Deadline(a.tick, delay) - a.tick);
  }

  /** What each call counts for: a timer call for a tick exactly if a second has passed since the time kept. */
  lemma OpsOfFirst(mode: Mode, tick: nat, last: int, first: Call, calls: seq<Call>)
    ensures var ops, rest := Ops(mode, tick, last, [first] + calls), Ops(mode, tick, last, calls);
            match first
            case CallRunAfter(delay) => ops == [RunAfter(delay)] + rest
            case CallRunEvery(interval) => ops == [RunEvery(interval)] + rest
            case CallExtend(id, delay) => ops == [Extend(id, delay)] + rest
            case CallOnTimer(now, rs) =>
              ops == if last != 0 && now - last >= 1000
                     then TickOps(mode, tick + 1, rs) + Ops(mode, tick + 1, now, calls)
                     else Ops(mode, tick, if last == 0 then now else last, calls)
  {
    assert ([first] + calls)[1..] == calls;
  }

  /** And it waits no longer than it has to.  With a timer called at least every g milliseconds, an entry handed over at
      clock time `inserted`, at or after the time kept, has run once (delay - 1) * (999 + g) + 1000 milliseconds have
      passed on the clock since. */
  lemma EntryRunsInRealTime(mode: Mode, a: Agenda, last: int, prev: int, delay: nat, calls: seq<Call>,
                            inserted: int, g: nat)
    requires Schedule.Valid(a) && !a.crashed && Reliable(mode, delay)
    requires last != 0 && last <= inserted && prev - last < 1000
    requires Clock.NeverZero(Readings(calls)) && Clock.Prompt(prev, Readings(calls), g)
    requires Clock.Latest(prev, Readings(calls)) >= inserted + (delay - 1) * (999 + g) + 1000
    requires forall op :: op in Ops(mode, a.tick, last, calls) && op.Extend? ==> op.id != a.next
    requires !Run(mode, a, Ops(mode, a.tick, last, [CallRunAfter(delay)] + calls)).crashed
    ensures var b := Run(mode, a, Ops(mode, a.tick, last, [CallRunAfter(delay)] + calls));
            Firing(Token(a.next, Plain, 0), Deadline(a.tick, delay)) in b.fired
  {
    hide Ops;
    hide Schedule.Apply;
    hide Schedule.Valid;
    hide Readings;
    var ops := Ops(mode, a.tick, last, calls);
    var start := Apply(mode, a, RunAfter(delay));
    OpsOfFirst(mode, a.tick, last, CallRunAfter(delay), calls);
    RunAppend(mode, a, [RunAfter(delay)], ops);
    RunOne(mode, a, RunAfter(delay));
    hide Run;
    if Readings(calls) == [] { Clock.MoreTicks(0, delay - 1, 999 + g); }
    Clock.TicksInTime(last, prev, Readings(calls), g, delay);
    RunAfterRunsAtItsDeadline(mode, a, delay, ops);
    TicksAreTimers(mode, start, ops);
    TimersAreTicks(mode, a.tick, last, calls);
    NewEntryTracked(mode, a, delay);
    DeadlineBounds(a.tick, delay);
  }
}
