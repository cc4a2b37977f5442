/** What the agenda promises over whole runs: when plain, extended and periodic entries run, and exactly
    for which delays the code as it stands keeps that promise. */
module WheelTheorems {
  import opened Modes
  import opened Schedule

  function Max(x: nat, y: nat): nat { if x > y then x else y }

  // ---------- One entry, followed through any other traffic ----------

  datatype Life = Alive(due: nat) | Gone(at: nat)

  function After(life: Life, now: nat, id: nat, op: Op): Life {
    match op
    case Timer => if life == Alive(now + 1) then Gone(now + 1) else life
    case Extend(k, d) =>
      if k == id && life.Alive? && 0 < d < DELAY_LIMIT then Alive(Max(life.due, Deadline(now, d))) else life
    case _ => life
  }

  /** The life of one plain entry, which depends on the ticks and on its own extensions only. */
  function Follow(life: Life, now: nat, id: nat, ops: seq<Op>): Life
    decreases |ops|
  {
    if ops == [] then life
    else Follow(After(life, now, id, ops[0]), if ops[0].Timer? then now + 1 else now, id, ops[1..])
  }

  ghost predicate Tracks(a: Agenda, id: nat, life: Life) {
    var tok := Token(id, Plain, 0);
    match life
    case Alive(due) =>
      && Due(tok, At(due)) in a.pending
      && (forall d :: d in a.pending && d.token == tok ==> d.at.At? && d.at.tick <= due)
      && (forall f :: f in a.fired ==> f.token != tok)
    case Gone(at) =>
      && !Held(a.pending, tok)
      && Firing(tok, at) in a.fired
      && id < a.next
  }

  ghost predicate ExtendedReliably(mode: Mode, id: nat, ops: seq<Op>) {
    forall op :: op in ops && op.Extend? && op.id == id && 0 < op.delay < DELAY_LIMIT ==> Reliable(mode, op.delay)
  }

  lemma TracksAdvance(mode: Mode, a: Agenda, id: nat, life: Life)
    requires Valid(a) && !Advance(mode, a).crashed
    requires Tracks(a, id, life)
    ensures Tracks(Advance(mode, a), id, After(life, a.tick, id, Timer))
  {
  }

  lemma TracksStep(mode: Mode, a: Agenda, id: nat, life: Life, op: Op)
    requires Valid(a) && !Apply(mode, a, op).crashed
    requires Tracks(a, id, life)
    requires op.Extend? && op.id == id && 0 < op.delay < DELAY_LIMIT ==> Reliable(mode, op.delay)
    ensures Tracks(Apply(mode, a, op), id, After(life, a.tick, id, op))
  {
    if op.Timer? { TracksAdvance(mode, a, id, life); }
  }

  lemma TickOfApply(mode: Mode, a: Agenda, op: Op)
    requires !Apply(mode, a, op).crashed
    ensures Apply(mode, a, op).tick == if op.Timer? then a.tick + 1 else a.tick
  {
  }

  /** The refinement of the whole agenda to a single entry: whatever else is scheduled, extended or
      periodic, this entry lives as `Follow` says. */
  lemma {:induction false} EntryFollowsItsOwnOps(mode: Mode, a: Agenda, id: nat, life: Life, ops: seq<Op>)
    requires Valid(a) && Tracks(a, id, life) && ExtendedReliably(mode, id, ops)
    requires !Run(mode, a, ops).crashed
    ensures Tracks(Run(mode, a, ops), id, Follow(life, a.tick, id, ops))
    decreases |ops|
  {
    hide Tracks;
    hide Schedule.Valid;
    hide Apply;
    hide After;
    if ops != [] {
      var b := Apply(mode, a, ops[0]);
      if b.crashed { CrashIsFinal(mode, b, ops[1..]); }
      assert ops[0] in ops;
      TracksStep(mode, a, id, life, ops[0]);
      ValidApply(mode, a, ops[0]);
      TickOfApply(mode, a, ops[0]);
      EntryFollowsItsOwnOps(mode, b, id, After(life, a.tick, id, ops[0]), ops[1..]);
    }
  }

  function Timers(ops: seq<Op>): nat {
    if ops == [] then 0 else (if ops[0].Timer? then 1 else 0) + Timers(ops[1..])
  }

  lemma {:induction false} TicksAreTimers(mode: Mode, a: Agenda, ops: seq<Op>)
    requires !Run(mode, a, ops).crashed
    ensures Run(mode, a, ops).tick == a.tick + Timers(ops)
    decreases |ops|
  {
    if ops != [] {
      var b := Apply(mode, a, ops[0]);
      if b.crashed { CrashIsFinal(mode, b, ops[1..]); }
      TicksAreTimers(mode, b, ops[1..]);
    }
  }

  lemma {:induction false} GoneForGood(at: nat, now: nat, id: nat, ops: seq<Op>)
    ensures Follow(Gone(at), now, id, ops) == Gone(at)
    decreases |ops|
  {
    if ops != [] { GoneForGood(at, if ops[0].Timer? then now + 1 else now, id, ops[1..]); }
  }

  predicate Extends(op: Op, id: nat) {
    op.Extend? && op.id == id && 0 < op.delay < DELAY_LIMIT
  }

  /** The tick an entry runs at when it is aimed at `due` now and `ops` follow, as far as they reach: extensions
      count until the tick aimed at comes. */
  function Aim(due: nat, now: nat, id: nat, ops: seq<Op>): nat
    decreases |ops|
  {
    if ops == [] then due
    else if ops[0].Timer? then if due <= now + 1 then due else Aim(due, now + 1, id, ops[1..])
    else Aim(if Extends(ops[0], id) then Max(due, Deadline(now, ops[0].delay)) else due, now, id, ops[1..])
  }

  lemma {:induction false} FollowAims(due: nat, now: nat, id: nat, ops: seq<Op>)
    requires due > now
    ensures var at := Aim(due, now, id, ops);
            Follow(Alive(due), now, id, ops) == if at <= now + Timers(ops) then Gone(at) else Alive(at)
    decreases |ops|
  {
    if ops != [] {
      if ops[0].Timer? && due == now + 1 {
        GoneForGood(due, now + 1, id, ops[1..]);
      } else if ops[0].Timer? {
        FollowAims(due, now + 1, id, ops[1..]);
      } else {
        FollowAims(if Extends(ops[0], id) then Max(due, Deadline(now, ops[0].delay)) else due, now, id, ops[1..]);
      }
    }
  }

  function TickAt(now: nat, ops: seq<Op>, i: nat): nat
    requires i <= |ops|
  {
    now + Timers(ops[..i])
  }

  /** `at` is the largest of `due` and of the deadlines of all extensions made before tick `at`. */
  ghost predicate LargestDeadline(at: nat, due: nat, now: nat, id: nat, ops: seq<Op>) {
    && due <= at
    && (forall i :: 0 <= i < |ops| && Extends(ops[i], id) && TickAt(now, ops, i) < at ==>
          Deadline(TickAt(now, ops, i), ops[i].delay) <= at)
    && (at == due
        || exists i :: 0 <= i < |ops| && Extends(ops[i], id) && TickAt(now, ops, i) < at
                       && at == Deadline(TickAt(now, ops, i), ops[i].delay))
  }

  lemma TickAtNext(now: nat, ops: seq<Op>, i: nat)
    requires 0 < i <= |ops|
    ensures TickAt(now, ops, i) == TickAt(if ops[0].Timer? then now + 1 else now, ops[1..], i - 1)
  {
    assert ops[..i][1..] == ops[1..][..i - 1];
  }

  lemma LargestFromTail(at: nat, due: nat, aimed: nat, now: nat, next: nat, id: nat, ops: seq<Op>)
    requires ops != [] && now < due && now < at
    requires aimed == if Extends(ops[0], id) then Max(due, Deadline(now, ops[0].delay)) else due
    requires LargestDeadline(at, aimed, next, id, ops[1..])
    requires TickAt(now, ops, 0) == now
    requires forall i :: 0 < i <= |ops| ==> TickAt(now, ops, i) == TickAt(next, ops[1..], i - 1)
    ensures LargestDeadline(at, due, now, id, ops)
  {
    forall i | 0 <= i < |ops| && Extends(ops[i], id) && TickAt(now, ops, i) < at
      ensures Deadline(TickAt(now, ops, i), ops[i].delay) <= at
    {
      if i > 0 { assert ops[1..][i - 1] == ops[i]; }
    }
    if at != due {
      if at == aimed {
        assert Extends(ops[0], id) && at == Deadline(TickAt(now, ops, 0), ops[0].delay);
      } else {
        var k :| 0 <= k < |ops[1..]| && Extends(ops[1..][k], id) && TickAt(next, ops[1..], k) < at
                 && at == Deadline(TickAt(next, ops[1..], k), ops[1..][k].delay);
        assert ops[k + 1] == ops[1..][k] && TickAt(now, ops, k + 1) == TickAt(next, ops[1..], k);
      }
    }
  }

  lemma {:induction false} AimAhead(due: nat, now: nat, id: nat, ops: seq<Op>)
    ensures Aim(due, now, id, ops) >= due
    decreases |ops|
  {
    if ops != [] {
      AimAhead(if Extends(ops[0], id) then Max(due, Deadline(now, ops[0].delay)) else due,
               if ops[0].Timer? then now + 1 else now, id, ops[1..]);
    }
  }

  lemma {:induction false} AimIsLargest(due: nat, now: nat, id: nat, ops: seq<Op>)
    requires due > now
    ensures LargestDeadline(Aim(due, now, id, ops), due, now, id, ops)
    decreases |ops|
  {
    if ops != [] {
      var at := Aim(due, now, id, ops);
      var next := if ops[0].Timer? then now + 1 else now;
      var aimed := if Extends(ops[0], id) then Max(due, Deadline(now, ops[0].delay)) else due;
      forall i | 0 < i <= |ops| ensures TickAt(now, ops, i) == TickAt(next, ops[1..], i - 1) {
        TickAtNext(now, ops, i);
      }
      assert TickAt(now, ops, 0) == now;
      if !(ops[0].Timer? && due == now + 1) {
        AimIsLargest(aimed, next, id, ops[1..]);
        AimAhead(aimed, next, id, ops[1..]);
        LargestFromTail(at, due, aimed, now, next, id, ops);
      }
    }
  }

  /** Shared ownership.  However often an entry is handed to the wheel again, it runs exactly once: at the largest
      of the deadlines it was given before that tick. */
  lemma SharedEntryRunsAtItsLargestDeadline(mode: Mode, a: Agenda, id: nat, due: nat, ops: seq<Op>)
    requires Valid(a) && Tracks(a, id, Alive(due)) && ExtendedReliably(mode, id, ops)
    requires !Run(mode, a, ops).crashed
    ensures var b := Run(mode, a, ops);
            forall at: nat :: Firing(Token(id, Plain, 0), at) in b.fired
                              <==> at == Aim(due, a.tick, id, ops) && at <= b.tick
    ensures LargestDeadline(Aim(due, a.tick, id, ops), due, a.tick, id, ops)
  {
    assert due > a.tick by { assert Due(Token(id, Plain, 0), At(due)) in a.pending; }
    EntryFollowsItsOwnOps(mode, a, id, Alive(due), ops);
    FollowAims(due, a.tick, id, ops);
    TicksAreTimers(mode, a, ops);
    ValidRun(mode, a, ops);
    AimIsLargest(due, a.tick, id, ops);
    hide Follow;
    hide Run;
    hide LargestDeadline;
  }

  lemma {:induction false} AimUnextended(due: nat, now: nat, id: nat, ops: seq<Op>)
    requires forall op :: op in ops && op.Extend? ==> op.id != id
    ensures Aim(due, now, id, ops) == due
    decreases |ops|
  {
    if ops != [] {
      assert ops[0] in ops && forall op :: op in ops[1..] ==> op in ops;
      AimUnextended(due, if ops[0].Timer? then now + 1 else now, id, ops[1..]);
    }
  }

  lemma NewEntryTracked(mode: Mode, a: Agenda, delay: nat)
    requires Valid(a) && Reliable(mode, delay) && !a.crashed
    ensures var b := Apply(mode, a, RunAfter(delay));
            !b.crashed && b.tick == a.tick && Tracks(b, a.next, Alive(Deadline(a.tick, delay)))
  {
    DeadlineBounds(a.tick, delay);
  }

  /** RunAfter(d) runs exactly once, at t - t mod u + d, whatever else the wheel is given. */
  lemma RunAfterRunsAtItsDeadline(mode: Mode, a: Agenda, delay: nat, ops: seq<Op>)
    requires Valid(a) && Reliable(mode, delay) && !a.crashed
    requires forall op :: op in ops && op.Extend? ==> op.id != a.next
    requires !Run(mode, Apply(mode, a, RunAfter(delay)), ops).crashed
    ensures var b := Run(mode, Apply(mode, a, RunAfter(delay)), ops);
            forall at: nat :: Firing(Token(a.next, Plain, 0), at) in b.fired
                              <==> at == Deadline(a.tick, delay) && at <= b.tick
  {
    var due := Deadline(a.tick, delay);
    NewEntryTracked(mode, a, delay);
    ValidApply(mode, a, RunAfter(delay));
    SharedEntryRunsAtItsLargestDeadline(mode, Apply(mode, a, RunAfter(delay)), a.next, due, ops);
    AimUnextended(due, a.tick, a.next, ops);
  }

  /** An entry that a callback asks for in the middle of a tick runs exactly once too, aimed from that tick if its
      wheel has been rotated for it already and from the tick before if not; so it may run in the very same tick. */
  lemma RequestRunsAtItsDeadline(mode: Mode, a: Agenda, upTo: nat, delay: nat, ops: seq<Op>)
    requires Valid(a) && Reliable(mode, delay) && !a.crashed
    requires forall op :: op in ops && op.Extend? ==> op.id != a.next
    requires !Run(mode, Apply(mode, a, Within(upTo, delay, false)), ops).crashed
    ensures var b := Run(mode, Apply(mode, a, Within(upTo, delay, false)), ops);
            forall at: nat :: Firing(Token(a.next, Plain, 0), at) in b.fired
                              <==> at == Deadline(if Level(delay) < upTo then a.tick + 1 else a.tick, delay)
                                   && at <= b.tick
  {
    var op := Within(upTo, delay, false);
    var due := Deadline(if Level(delay) < upTo then a.tick + 1 else a.tick, delay);
    DeadlineBounds(a.tick, delay);
    DeadlineBounds(a.tick + 1, delay);
    assert Tracks(Apply(mode, a, op), a.next, Alive(due));
    ValidApply(mode, a, op);
    SharedEntryRunsAtItsLargestDeadline(mode, Apply(mode, a, op), a.next, due, ops);
    AimUnextended(due, a.tick, a.next, ops);
  }

  lemma RefusedIsDueNow(mode: Mode, a: Agenda, upTo: nat, delay: nat)
    requires Valid(a) && !a.crashed && (delay >= DELAY_LIMIT || (delay == 0 && mode.Intended?))
    ensures Tracks(Apply(mode, a, Within(upTo, delay, false)), a.next, Alive(a.tick + 1))
  {
  }

  lemma GoneHasRun(a: Agenda, id: nat, at: nat)
    requires Tracks(a, id, Gone(at))
    ensures Firing(Token(id, Plain, 0), at) in a.fired
  {
  }

  /** Exactly when a one-shot entry asked for in the middle of a tick runs in that same tick, as meant: when the wheel
      takes it before it is rotated for the unit that is just over and the delay is that one unit, or not at all. */
  lemma RunsInTheSameTickIff(a: Agenda, upTo: nat, delay: nat)
    requires Valid(a) && !a.crashed
    requires !Run(Intended, a, [Within(upTo, delay, false), Timer]).crashed
    ensures var b := Run(Intended, a, [Within(upTo, delay, false), Timer]);
            Firing(Token(a.next, Plain, 0), a.tick + 1) in b.fired
            <==> || delay == 0 || delay >= DELAY_LIMIT
                 || (upTo <= Level(delay) && (a.tick + 1) % Unit(Level(delay)) == 0 && delay == Unit(Level(delay)))
  {
    hide Advance;
    hide Tracks;
    hide Deadline;
    hide Unit;
    hide Level;
    hide Run;
    hide Valid;
    var op := Within(upTo, delay, false);
    var c := Apply(Intended, a, op);
    RunAppend(Intended, a, [op], [Timer]);
    RunOne(Intended, a, op);
    RunOne(Intended, c, Timer);
    assert [op] + [Timer] == [op, Timer];
    ValidApply(Intended, a, op);
    AdvanceTicks(Intended, c);
    if 0 < delay < DELAY_LIMIT {
      RequestRunsAtItsDeadline(Intended, a, upTo, delay, [Timer]);
      DueNextTickIff(a.tick, delay);
      DeadlineBounds(a.tick + 1, delay);
    } else {
      RefusedIsDueNow(Intended, a, upTo, delay);
      TracksAdvance(Intended, c, a.next, Alive(a.tick + 1));
      GoneHasRun(Advance(Intended, c), a.next, a.tick + 1);
    }
  }

  /** An entry the wheel does not store runs at the tick it is handed over and at no other. */
  lemma RefusedRunsAtOnce(mode: Mode, a: Agenda, delay: nat, ops: seq<Op>)
    requires Valid(a) && !a.crashed && (delay >= DELAY_LIMIT || (delay == 0 && mode.Intended?))
    requires !Run(mode, Apply(mode, a, RunAfter(delay)), ops).crashed
    requires forall op :: op in ops && op.Extend? ==> op.id != a.next
    ensures var b := Run(mode, Apply(mode, a, RunAfter(delay)), ops);
            forall at: nat :: Firing(Token(a.next, Plain, 0), at) in b.fired <==> at == a.tick
    ensures delay > 0 ==> a.tick != Deadline(a.tick, delay)
  {
    var start := Apply(mode, a, RunAfter(delay));
    DeadlineBounds(a.tick, delay);
    assert Tracks(start, a.next, Gone(a.tick));
    ValidApply(mode, a, RunAfter(delay));
    EntryFollowsItsOwnOps(mode, start, a.next, Gone(a.tick), ops);
    GoneForGood(a.tick, start.tick, a.next, ops);
    ValidRun(mode, start, ops);
    hide Run;
  }

  /** Exactly when the wheel as it is meant to be keeps its promise: unless it refuses the delay.  A delay of 0 is
      kept at once; a refused entry runs at once instead of at its deadline. */
  lemma IntendedKeepsItsPromiseIff(a: Agenda, delay: nat, ops: seq<Op>)
    requires Valid(a) && !a.crashed
    requires forall op :: op in ops && op.Extend? ==> op.id != a.next
    requires var b := Run(Intended, Apply(Intended, a, RunAfter(delay)), ops);
             !b.crashed && b.tick >= Deadline(a.tick, delay)
    ensures var b := Run(Intended, Apply(Intended, a, RunAfter(delay)), ops);
            Firing(Token(a.next, Plain, 0), Deadline(a.tick, delay)) in b.fired <==> delay < DELAY_LIMIT
  {
    if 0 < delay < DELAY_LIMIT {
      RunAfterRunsAtItsDeadline(Intended, a, delay, ops);
    } else {
      RefusedRunsAtOnce(Intended, a, delay, ops);
    }
  }

  // ---------- Idle timeouts ----------

  ghost predicate ConstantExtensions(id: nat, delay: nat, ops: seq<Op>) {
    forall op :: op in ops && op.Extend? && op.id == id ==> op.delay == delay
  }

  /** With a constant idle time the deadlines never decrease, so each extension replaces the one before:
      an entry still alive is aimed at the deadline of its latest extension. */
  lemma {:induction false} LatestExtensionCounts(due: nat, now: nat, id: nat, delay: nat, ops: seq<Op>)
    requires 0 < delay < DELAY_LIMIT && ConstantExtensions(id, delay, ops)
    requires now < due <= Deadline(now, delay)
    ensures var life := Follow(Alive(due), now, id, ops);
            life.Alive? ==> Follow(life, now + Timers(ops), id, [Extend(id, delay)])
                            == Alive(Deadline(now + Timers(ops), delay))
    decreases |ops|
  {
    if ops == [] {
      assert Follow(Alive(due), now, id, [Extend(id, delay)]) == Alive(Max(due, Deadline(now, delay)));
    } else {
      assert ops[0] in ops && ConstantExtensions(id, delay, ops[1..]);
      DeadlineMonotone(now, now + 1, delay);
      DeadlineBounds(now, delay);
      match ops[0]
      case Timer =>
        if due == now + 1 { GoneForGood(due, now + 1, id, ops[1..]); }
        else { LatestExtensionCounts(due, now + 1, id, delay, ops[1..]); }
      case Extend(k, d) =>
        LatestExtensionCounts(if k == id then Deadline(now, delay) else due, now, id, delay, ops[1..]);
      case _ => LatestExtensionCounts(due, now, id, delay, ops[1..]);
    }
  }

  lemma TrackedIsAhead(a: Agenda, id: nat, life: Life)
    requires Tracks(a, id, life)
    ensures Held(a.pending, Token(id, Plain, 0)) <==> life.Alive?
    ensures Valid(a) && life.Alive? ==> life.due > a.tick
  {
  }

  lemma FollowOne(life: Life, now: nat, id: nat, op: Op)
    ensures Follow(life, now, id, [op]) == After(life, now, id, op)
  {
    assert [op][1..] == [];
  }

  lemma HeldEntryIsExtended(mode: Mode, a: Agenda, id: nat, delay: nat, due: nat, pre: seq<Op>)
    requires Valid(a) && Tracks(a, id, Alive(due)) && due <= Deadline(a.tick, delay)
    requires Reliable(mode, delay) && ConstantExtensions(id, delay, pre)
    requires var mid := Run(mode, a, pre);
             && !mid.crashed && Held(mid.pending, Token(id, Plain, 0))
             && !Apply(mode, mid, Extend(id, delay)).crashed
    ensures var mid := Run(mode, a, pre);
            var start := Apply(mode, mid, Extend(id, delay));
            Valid(start) && start.tick == mid.tick && Tracks(start, id, Alive(Deadline(mid.tick, delay)))
  {
    hide Run;
    hide Apply;
    hide Valid;
    hide Tracks;
    hide Follow;
    hide After;
    hide Deadline;
    var mid := Run(mode, a, pre);
    var life := Follow(Alive(due), a.tick, id, pre);
    TrackedIsAhead(a, id, Alive(due));
    EntryFollowsItsOwnOps(mode, a, id, Alive(due), pre);
    TrackedIsAhead(mid, id, life);
    TicksAreTimers(mode, a, pre);
    ValidRun(mode, a, pre);
    LatestExtensionCounts(due, a.tick, id, delay, pre);
    FollowOne(life, mid.tick, id, Extend(id, delay));
    TracksStep(mode, mid, id, life, Extend(id, delay));
    ValidApply(mode, mid, Extend(id, delay));
    TickOfApply(mode, mid, Extend(id, delay));
  }

  /** The idle timeout.  The entry runs at the deadline of its latest extension, and at no other tick. */
  lemma LatestExtensionRuns(mode: Mode, a: Agenda, id: nat, delay: nat, due: nat, pre: seq<Op>, post: seq<Op>)
    requires Valid(a) && Tracks(a, id, Alive(due)) && due <= Deadline(a.tick, delay)
    requires Reliable(mode, delay) && ConstantExtensions(id, delay, pre)
    requires forall op :: op in post && op.Extend? ==> op.id != id
    requires var mid := Run(mode, a, pre);
             && !mid.crashed && Held(mid.pending, Token(id, Plain, 0))
             && !Run(mode, Apply(mode, mid, Extend(id, delay)), post).crashed
    ensures var mid := Run(mode, a, pre);
            var b := Run(mode, Apply(mode, mid, Extend(id, delay)), post);
            forall at: nat :: Firing(Token(id, Plain, 0), at) in b.fired
                              <==> at == Deadline(mid.tick, delay) && at <= b.tick
  {
    hide Tracks;
    hide Valid;
    hide Run;
    hide Apply;
    hide Held;
    hide Aim;
    var mid := Run(mode, a, pre);
    var start := Apply(mode, mid, Extend(id, delay));
    if start.crashed { CrashIsFinal(mode, start, post); }
    HeldEntryIsExtended(mode, a, id, delay, due, pre);
    SharedEntryRunsAtItsLargestDeadline(mode, start, id, Deadline(mid.tick, delay), post);
    AimUnextended(Deadline(mid.tick, delay), mid.tick, id, post);
  }

  // ---------- Periodic entries ----------

  /** The steady period: the whole units in the interval.  It is the interval itself below one minute. */
  function Period(interval: Interval): (p: nat)
    ensures interval < MINUTE ==> p == interval
    ensures p > 0
  {
    var u := Unit(Level(interval));
    assert interval / u >= 1;
    assert u * (interval / u) >= u;
    u * (interval / u)
  }

  /** The same in seconds. */
  lemma PeriodInSeconds(interval: Interval)
    ensures interval < 60 ==> Period(interval) == interval
    ensures 60 <= interval < 3600 ==> Period(interval) == interval - interval % 60
    ensures 3600 <= interval < 86400 ==> Period(interval) == interval - interval % 3600
    ensures 86400 <= interval ==> Period(interval) == interval - interval % 86400
  {
  }

  /** Aimed from a tick that has the interval's own remainder, an entry is due one period later. */
  lemma DeadlineInUnits(x: nat, interval: Interval)
    ensures var u := Unit(Level(interval));
            Deadline(x * u + interval % u, interval) == (x + interval / u) * u + interval % u
  {
    var level := Level(interval);
    var u := Unit(level);
    ModOfSum(x, level, interval % u);
    Distribute(x, interval / u, u);
    hide Unit;
    hide Level;
    assert interval == interval / u * u + interval % u;
  }

  lemma FirstInUnits(start: nat, interval: Interval)
    ensures var u := Unit(Level(interval));
            && Deadline(start, interval) == (start / u + interval / u) * u + interval % u
            && Period(interval) == interval / u * u
  {
    var u := Unit(Level(interval));
    Distribute(start / u, interval / u, u);
    hide Unit;
    hide Level;
    assert start - start % u == start / u * u && interval == interval / u * u + interval % u;
  }

  lemma {:induction false} NextDeadline(start: nat, interval: Interval, n: nat)
    ensures Deadline(Deadline(start, interval) + n * Period(interval), interval)
            == Deadline(start, interval) + (n + 1) * Period(interval)
  {
    hide Deadline;
    hide Period;
    var u := Unit(Level(interval));
    var q, s, r, p := interval / u, start / u, interval % u, Period(interval);
    FirstInUnits(start, interval);
    Distribute(s + q, n * q, u);
    Associate(n, q, u);
    assert n * p == n * (q * u);
    assert Deadline(start, interval) + n * p == (s + q + n * q) * u + r;
    DeadlineInUnits(s + q + n * q, interval);
    Distribute(s + q + n * q, q, u);
    Distribute(n, 1, p);
  }

  /** Run n of a periodic entry started at tick `start`, counted from 0. */
  function NthRun(start: nat, interval: Interval, n: nat): nat {
    Deadline(start, interval) + n * Period(interval)
  }

  /** The entry of a periodic id after its first n runs. */
  ghost predicate Periodic(a: Agenda, id: nat, interval: Interval, first: nat, n: nat) {
    var p := Period(interval);
    && a.tick < first + n * p
    && (n > 0 ==> first + (n - 1) * p <= a.tick)
    && (forall d :: d in a.pending && d.token.id == id
          <==> d == Due(Token(id, Every(interval), n), At(first + n * p)))
    && (forall k: nat {:trigger Token(id, Every(interval), k)} ::
          forall at: nat :: Firing(Token(id, Every(interval), k), at) in a.fired <==> k < n && at == first + k * p)
    && id < a.next
  }

  lemma PeriodicWaits(mode: Mode, a: Agenda, id: nat, interval: Interval, first: nat, n: nat)
    requires Valid(a) && !Advance(mode, a).crashed
    requires Periodic(a, id, interval, first, n)
    requires a.tick + 1 != first + n * Period(interval)
    ensures Periodic(Advance(mode, a), id, interval, first, n)
  {
  }

  lemma PeriodicRuns(mode: Mode, a: Agenda, id: nat, interval: Interval, first: nat, n: nat)
    requires Valid(a) && Reliable(mode, interval) && !Advance(mode, a).crashed
    requires Periodic(a, id, interval, first, n)
    requires a.tick + 1 == first + n * Period(interval)
    requires Deadline(a.tick + 1, interval) == first + (n + 1) * Period(interval)
    ensures Periodic(Advance(mode, a), id, interval, first, n + 1)
  {
    var p, now := Period(interval), a.tick + 1;
    var tok := Token(id, Every(interval), n);
    var next := Due(Token(id, Every(interval), n + 1), At(first + (n + 1) * p));
    var b := Advance(mode, a);
    assert (n + 1) * p == n * p + p;
    assert Due(tok, At(now)) in a.pending;
    assert !Held(Remaining(a), tok);
    assert tok in Expiring(a);
    assert Rearm(mode, now, tok) == next;
    assert next in b.pending;
    forall d | d in b.pending && d.token.id == id ensures d == next {
      if d !in Remaining(a) {
        var t :| t in Expiring(a) && t.kind.Every? && d == Rearm(mode, now, t);
      }
    }
    assert Firing(tok, now) in b.fired;
    forall k: nat, at: nat
      ensures Firing(Token(id, Every(interval), k), at) in b.fired <==> k < n + 1 && at == first + k * p
    {
      var f := Firing(Token(id, Every(interval), k), at);
      if f in b.fired && f !in a.fired {
        assert f.token in Expiring(a);
        assert k == n;
      }
    }
  }

  lemma PeriodicStep(mode: Mode, a: Agenda, id: nat, start: nat, interval: Interval, n: nat, op: Op) returns (m: nat)
    requires Valid(a) && Reliable(mode, interval) && !Apply(mode, a, op).crashed
    requires Periodic(a, id, interval, Deadline(start, interval), n)
    ensures Periodic(Apply(mode, a, op), id, interval, Deadline(start, interval), m)
  {
    hide Schedule.Valid;
    hide Remaining;
    hide Expiring;
    hide Rearms;
    hide Firings;
    var first, p := Deadline(start, interval), Period(interval);
    m := n;
    assert Due(Token(id, Every(interval), n), At(first + n * p)) in a.pending;
    if op.Timer? {
      if a.tick + 1 == first + n * p {
        NextDeadline(start, interval, n);
        PeriodicRuns(mode, a, id, interval, first, n);
        m := n + 1;
      } else {
        PeriodicWaits(mode, a, id, interval, first, n);
      }
    }
  }

  lemma Multiples(k: nat, n: nat, p: nat)
    ensures k <= n ==> k * p <= n * p
  {
  }

  lemma PeriodicStart(mode: Mode, a: Agenda, interval: Interval)
    requires Schedule.Valid(a) && Reliable(mode, interval) && !a.crashed
    ensures var b := Apply(mode, a, RunEvery(interval));
            !b.crashed && Periodic(b, a.next, interval, Deadline(a.tick, interval), 0)
  {
    DeadlineBounds(a.tick, interval);
    assert Due(Token(a.next, Every(interval), 0), At(Deadline(a.tick, interval)))
           in Apply(mode, a, RunEvery(interval)).pending;
  }

  lemma {:induction false} PeriodicMeans(a: Agenda, id: nat, start: nat, interval: Interval, m: nat)
    requires Periodic(a, id, interval, Deadline(start, interval), m)
    ensures forall n: nat, at: nat {:trigger Firing(Token(id, Every(interval), n), at)} ::
              Firing(Token(id, Every(interval), n), at) in a.fired <==> at == NthRun(start, interval, n) && at <= a.tick
  {
    var first, p := Deadline(start, interval), Period(interval);
    forall n: nat, at: nat
      ensures Firing(Token(id, Every(interval), n), at) in a.fired <==> at == NthRun(start, interval, n) && at <= a.tick
    {
      assert Token(id, Every(interval), n) == Token(id, Every(interval), n);
      if n < m { Multiples(n, m - 1, p); } else { Multiples(m, n, p); }
    }
  }

  lemma {:induction false} PeriodicRun(
    mode: Mode, a: Agenda, id: nat, start: nat, interval: Interval, n: nat, ops: seq<Op>)
    returns (m: nat)
    requires Valid(a) && Reliable(mode, interval) && !Run(mode, a, ops).crashed
    requires Periodic(a, id, interval, Deadline(start, interval), n)
    ensures Periodic(Run(mode, a, ops), id, interval, Deadline(start, interval), m)
    decreases |ops|
  {
    m := n;
    if ops != [] {
      var b := Apply(mode, a, ops[0]);
      if b.crashed { CrashIsFinal(mode, b, ops[1..]); }
      m := PeriodicStep(mode, a, id, start, interval, n, ops[0]);
      ValidApply(mode, a, ops[0]);
      m := PeriodicRun(mode, b, id, start, interval, m, ops[1..]);
    }
  }

  /** RunEvery(i) started at t runs for the n-th time (n counted from 0) at t - t mod u + i + n * u * (i / u),
      for every n, whatever else the wheel is given. */
  lemma {:induction false} RunEveryRunsPeriodically(mode: Mode, a: Agenda, interval: Interval, ops: seq<Op>)
    requires Valid(a) && Reliable(mode, interval) && !a.crashed
    requires !Run(mode, Apply(mode, a, RunEvery(interval)), ops).crashed
    ensures var b := Run(mode, Apply(mode, a, RunEvery(interval)), ops);
            forall n: nat, at: nat {:trigger Firing(Token(a.next, Every(interval), n), at)} ::
              Firing(Token(a.next, Every(interval), n), at) in b.fired
              <==> at == NthRun(a.tick, interval, n) && at <= b.tick
  {
    hide Periodic;
    hide Schedule.Valid;
    hide Run;
    hide Advance;
    var b := Apply(mode, a, RunEvery(interval));
    ValidApply(mode, a, RunEvery(interval));
    PeriodicStart(mode, a, interval);
    var m := PeriodicRun(mode, b, a.next, a.tick, interval, 0, ops);
    PeriodicMeans(Run(mode, b, ops), a.next, a.tick, interval, m);
  }

  lemma PeriodicRequestStart(mode: Mode, a: Agenda, upTo: nat, interval: Interval)
    requires Schedule.Valid(a) && Reliable(mode, interval) && !a.crashed
    ensures var b := Apply(mode, a, Within(upTo, interval, true));
            var start := if Level(interval) < upTo then a.tick + 1 else a.tick;
            !b.crashed && Periodic(b, a.next, interval, Deadline(start, interval), 0)
  {
    var start := if Level(interval) < upTo then a.tick + 1 else a.tick;
    DeadlineBounds(a.tick, interval);
    DeadlineBounds(a.tick + 1, interval);
    assert Due(Token(a.next, Every(interval), 0), At(Deadline(start, interval)))
           in Apply(mode, a, Within(upTo, interval, true)).pending;
  }

  /** A RunEvery that a callback calls in the middle of a tick: the same, counted from that tick or from the one
      before. */
  lemma {:induction false} PeriodicRequestRunsPeriodically(mode: Mode, a: Agenda, upTo: nat, interval: Interval,
                                                           ops: seq<Op>)
    requires Valid(a) && Reliable(mode, interval) && !a.crashed
    requires !Run(mode, Apply(mode, a, Within(upTo, interval, true)), ops).crashed
    ensures var b := Run(mode, Apply(mode, a, Within(upTo, interval, true)), ops);
            var start := if Level(interval) < upTo then a.tick + 1 else a.tick;
            forall n: nat, at: nat {:trigger Firing(Token(a.next, Every(interval), n), at)} ::
              Firing(Token(a.next, Every(interval), n), at) in b.fired
              <==> at == NthRun(start, interval, n) && at <= b.tick
  {
    hide Periodic;
    hide Schedule.Valid;
    hide Run;
    hide Apply;
    hide Level;
    var b := Apply(mode, a, Within(upTo, interval, true));
    var start := if Level(interval) < upTo then a.tick + 1 else a.tick;
    ValidApply(mode, a, Within(upTo, interval, true));
    PeriodicRequestStart(mode, a, upTo, interval);
    var m := PeriodicRun(mode, b, a.next, start, interval, 0, ops);
    PeriodicMeans(Run(mode, b, ops), a.next, start, interval, m);
  }

  // ---------- Conservation ----------

  ghost predicate Pending(a: Agenda, id: nat) {
    exists d :: d in a.pending && d.token.id == id
  }

  ghost predicate HasRun(a: Agenda, id: nat) {
    exists f :: f in a.fired && f.token.id == id
  }

  lemma NewcomerAccounted(mode: Mode, a: Agenda, op: Op)
    requires !a.crashed && !Apply(mode, a, op).crashed && (op.RunAfter? || op.RunEvery? || op.Within?)
    ensures Pending(Apply(mode, a, op), a.next) || HasRun(Apply(mode, a, op), a.next)
  {
  }

  lemma AccountedStep(mode: Mode, a: Agenda, op: Op, id: nat)
    requires Valid(a) && !Apply(mode, a, op).crashed
    requires id < a.next ==> Pending(a, id) || HasRun(a, id)
    requires id < Apply(mode, a, op).next
    ensures Pending(Apply(mode, a, op), id) || HasRun(Apply(mode, a, op), id)
  {
    hide Fate;
    hide FateWithin;
    hide Schedule.Valid;
    var b := Apply(mode, a, op);
    if op.Timer? && Pending(a, id) {
      var d :| d in a.pending && d.token.id == id;
      if d.token in Expiring(a) {
        assert Firing(d.token, b.tick) in b.fired;
      } else if d in Remaining(a) {
        assert d in b.pending;
      } else {
        var e :| e in Remaining(a) && e.token == d.token;
        assert e in b.pending;
      }
    } else if id < a.next {
      if Pending(a, id) {
        var d :| d in a.pending && d.token.id == id;
        assert d in b.pending;
      } else {
        var f :| f in a.fired && f.token.id == id;
        assert f in b.fired;
      }
    } else {
      NewcomerAccounted(mode, a, op);
    }
  }

  lemma {:induction false} AccountedRun(mode: Mode, a: Agenda, ops: seq<Op>, id: nat)
    requires Valid(a) && !Run(mode, a, ops).crashed
    requires id < a.next ==> Pending(a, id) || HasRun(a, id)
    requires id < Run(mode, a, ops).next
    ensures Pending(Run(mode, a, ops), id) || HasRun(Run(mode, a, ops), id)
    decreases |ops|
  {
    if ops != [] {
      var b := Apply(mode, a, ops[0]);
      if b.crashed { CrashIsFinal(mode, b, ops[1..]); }
      if id < b.next { AccountedStep(mode, a, ops[0], id); }
      ValidApply(mode, a, ops[0]);
      AccountedRun(mode, b, ops[1..], id);
    }
  }

  /** In every run that does not crash, every entry ever handed in is accounted for: it waits or it ran;
      a plain entry never both; no entry runs twice; nothing that waits is overdue. */
  lemma EntriesAreConserved(mode: Mode, ops: seq<Op>)
    requires !Run(mode, START, ops).crashed
    ensures var a := Run(mode, START, ops);
            && (forall id: nat :: id < a.next ==> Pending(a, id) || HasRun(a, id))
            && (forall d, f :: d in a.pending && f in a.fired ==> d.token != f.token)
            && (forall d, f :: d in a.pending && f in a.fired && d.token.kind.Plain? ==> d.token.id != f.token.id)
            && (forall f, g :: f in a.fired && g in a.fired && f.token == g.token ==> f.tick == g.tick)
            && (forall d :: d in a.pending && d.at.At? ==> d.at.tick > a.tick)
  {
    var a := Run(mode, START, ops);
    ValidRun(mode, START, ops);
    forall id: nat | id < a.next ensures Pending(a, id) || HasRun(a, id) {
      AccountedRun(mode, START, ops, id);
    }
  }

  // ---------- The code as it stands ----------

  function Ticks(n: nat): (ops: seq<Op>)
    ensures Timers(ops) == n && (forall op :: op in ops ==> op == Timer)
  {
    if n == 0 then [] else [Timer] + Ticks(n - 1)
  }

  lemma {:induction false} KeptForEver(mode: Mode, a: Agenda, n: nat)
    requires !a.crashed && (forall d :: d in a.pending ==> d.at.Never?)
    ensures Run(mode, a, Ticks(n)) == a.(tick := a.tick + n)
    decreases n
  {
    if n > 0 {
      assert Ticks(n)[1..] == Ticks(n - 1);
      assert Remaining(a) == a.pending && Expiring(a) == {};
      assert Advance(mode, a) == a.(tick := a.tick + 1);
      KeptForEver(mode, a.(tick := a.tick + 1), n - 1);
    }
  }

  lemma {:induction false} CrashComes(mode: Mode, a: Agenda, due: Due, n: nat)
    requires a.pending == {due} && due.at.Crash? && a.tick < due.at.tick <= a.tick + n
    ensures Run(mode, a, Ticks(n)).crashed
    decreases n
  {
    assert Ticks(n)[1..] == Ticks(n - 1);
    var b := Advance(mode, a);
    if a.crashed || b.crashed {
      CrashIsFinal(mode, b, Ticks(n - 1));
    } else {
      assert due in a.pending && due in Remaining(a);
      assert Remaining(a) == {due} && Expiring(a) == {};
      assert b.pending == {due};
      CrashComes(mode, b, due, n - 1);
    }
  }

  /** A reference that is not due at any tick stays in the wheel, whatever else it is given. */
  lemma {:induction false} StuckForGood(mode: Mode, a: Agenda, due: Due, ops: seq<Op>)
    requires due in a.pending && !due.at.At? && !Run(mode, a, ops).crashed
    ensures due in Run(mode, a, ops).pending
    decreases |ops|
  {
    if ops != [] {
      var b := Apply(mode, a, ops[0]);
      if b.crashed { CrashIsFinal(mode, b, ops[1..]); }
      StuckForGood(mode, b, due, ops[1..]);
    }
  }

  /** As written, an entry with a delay of an hour or more never runs, on any wheel and in any run, even if it is
      extended with shorter delays; and a delay of whole minutes under an hour crashes every run that reaches the
      deadline. */
  lemma StuckAsWritten(a: Agenda, delay: Interval, ops: seq<Op>)
    requires Valid(a) && !a.crashed && delay >= MINUTE && (delay >= HOUR || delay % MINUTE == 0)
    requires !Run(AsWritten, Apply(AsWritten, a, RunAfter(delay)), ops).crashed
    ensures var b := Run(AsWritten, Apply(AsWritten, a, RunAfter(delay)), ops);
            && (forall at: nat :: Firing(Token(a.next, Plain, 0), at) !in b.fired)
            && (delay < HOUR ==> b.tick < Deadline(a.tick, delay))
  {
    var start := Apply(AsWritten, a, RunAfter(delay));
    var due := Due(Token(a.next, Plain, 0), Fate(AsWritten, a.tick, delay));
    StuckForGood(AsWritten, start, due, ops);
    ValidApply(AsWritten, a, RunAfter(delay));
    ValidRun(AsWritten, start, ops);
    hide Run;
  }

  /** Exactly when the code as it stands keeps its promise, on any wheel and whatever else it is given: the delay is
      under an hour and not a multiple of a minute. */
  lemma AsWrittenKeepsItsPromiseIff(a: Agenda, delay: nat, ops: seq<Op>)
    requires Valid(a) && !a.crashed
    requires forall op :: op in ops && op.Extend? ==> op.id != a.next
    requires var b := Run(AsWritten, Apply(AsWritten, a, RunAfter(delay)), ops);
             !b.crashed && b.tick >= Deadline(a.tick, delay)
    ensures var b := Run(AsWritten, Apply(AsWritten, a, RunAfter(delay)), ops);
            Firing(Token(a.next, Plain, 0), Deadline(a.tick, delay)) in b.fired
            <==> delay < HOUR && delay % MINUTE != 0
  {
    if delay == 0 {
      CrashIsFinal(AsWritten, Apply(AsWritten, a, RunAfter(delay)), ops);
    } else if Reliable(AsWritten, delay) {
      RunAfterRunsAtItsDeadline(AsWritten, a, delay, ops);
    } else if delay < DELAY_LIMIT {
      StuckAsWritten(a, delay, ops);
    } else {
      RefusedRunsAtOnce(AsWritten, a, delay, ops);
    }
  }

  lemma OneEntryTick(mode: Mode, a: Agenda, due: Due)
    requires !a.crashed && a.pending <= {due} && due.at.At? && due.token.kind.Plain?
    ensures !Advance(mode, a).crashed && Advance(mode, a).pending <= {due}
  {
  }

  lemma {:induction false} DoesNotCrash(mode: Mode, a: Agenda, due: Due, n: nat)
    requires !a.crashed && a.pending <= {due} && due.at.At? && due.token.kind.Plain?
    ensures !Run(mode, a, Ticks(n)).crashed
    decreases n
  {
    hide Advance;
    if n > 0 {
      assert Ticks(n)[1..] == Ticks(n - 1);
      OneEntryTick(mode, a, due);
      DoesNotCrash(mode, Advance(mode, a), due, n - 1);
    }
  }

  /** The same on a wheel with nothing else in it, where nothing else can crash the program either. */
  lemma AsWrittenAloneKeepsItsPromiseIff(a: Agenda, delay: nat, n: nat)
    requires Valid(a) && !a.crashed && a.pending == {} && n >= delay
    ensures var b := Run(AsWritten, Apply(AsWritten, a, RunAfter(delay)), Ticks(n));
            (!b.crashed && Firing(Token(a.next, Plain, 0), Deadline(a.tick, delay)) in b.fired)
            <==> (delay < HOUR && delay % MINUTE != 0)
  {
    var a1 := Apply(AsWritten, a, RunAfter(delay));
    var b := Run(AsWritten, a1, Ticks(n));
    var tok := Token(a.next, Plain, 0);
    DeadlineBounds(a.tick, delay);
    if delay == 0 {
      CrashIsFinal(AsWritten, a1, Ticks(n));
    } else if delay >= DELAY_LIMIT {
      KeptForEver(AsWritten, a1, n);
    } else {
      var due := Due(tok, Fate(AsWritten, a.tick, delay));
      assert a1.pending == {due};
      match due.at
      case Never => KeptForEver(AsWritten, a1, n);
      case Crash(_) => CrashComes(AsWritten, a1, due, n);
      case At(_) =>
        DoesNotCrash(AsWritten, a1, due, n);
        RunAfterRunsAtItsDeadline(AsWritten, a, delay, Ticks(n));
        TicksAreTimers(AsWritten, a1, Ticks(n));
    }
  }

  /** An entry inserted with a delay of one hour never runs: the hour wheel is never rotated. */
  lemma HourlyEntryNeverRuns(n: nat)
    ensures var b := Run(AsWritten, START, [RunAfter(HOUR)] + Ticks(n));
            !b.crashed && b.tick == n && b.fired == {} && Pending(b, 0)
  {
    var ops := [RunAfter(HOUR)] + Ticks(n);
    assert ops[1..] == Ticks(n);
    var a := Apply(AsWritten, START, RunAfter(HOUR));
    assert Due(Token(0, Plain, 0), Never) in a.pending;
    KeptForEver(AsWritten, a, n);
    assert Due(Token(0, Plain, 0), Never) in Run(AsWritten, START, ops).pending;
  }

  /** A delay of one minute crashes the program when its minute is over. */
  lemma MinuteEntryCrashes()
    ensures Run(AsWritten, START, [RunAfter(MINUTE)] + Ticks(MINUTE)).crashed
  {
    var ops := [RunAfter(MINUTE)] + Ticks(MINUTE);
    assert ops[1..] == Ticks(MINUTE);
    CrashComes(AsWritten, Apply(AsWritten, START, RunAfter(MINUTE)), Due(Token(0, Plain, 0), Crash(MINUTE)), MINUTE);
  }

  ghost predicate OnlyReliable(ops: seq<Op>) {
    forall op :: op in ops ==>
      match op
      case RunAfter(d) => Reliable(AsWritten, d)
      case RunEvery(i) => Reliable(AsWritten, i)
      case Within(_, d, _) => Reliable(AsWritten, d)
      case Extend(_, d) => Reliable(AsWritten, d)
      case Timer => true
  }

  ghost predicate ReliablyPending(a: Agenda) {
    && !a.crashed
    && forall d :: d in a.pending ==> d.at.At? && (d.token.kind.Every? ==> Reliable(AsWritten, d.token.kind.interval))
  }

  lemma AgreesOnTick(a: Agenda)
    requires ReliablyPending(a)
    ensures Advance(AsWritten, a) == Advance(Intended, a) && ReliablyPending(Advance(Intended, a))
  {
  }

  /** On runs that use reliable delays only, the code as it stands does what it is meant to do. */
  lemma {:induction false} AgreesOnReliableRuns(a: Agenda, ops: seq<Op>)
    requires ReliablyPending(a) && OnlyReliable(ops)
    ensures Run(AsWritten, a, ops) == Run(Intended, a, ops) && !Run(AsWritten, a, ops).crashed
    decreases |ops|
  {
    if ops != [] {
      assert ops[0] in ops;
      assert forall op :: op in ops[1..] ==> op in ops;
      if ops[0].Timer? { AgreesOnTick(a); }
      AgreesOnReliableRuns(Apply(Intended, a, ops[0]), ops[1..]);
    }
  }

  ghost predicate NoCrashAhead(a: Agenda) {
    !a.crashed && forall d :: d in a.pending ==> d.at.At?
  }

  predicate Sensible(op: Op) {
    && (op.RunEvery? ==> 0 < op.interval < DELAY_LIMIT)
    && (op.Within? && op.periodic ==> 0 < op.delay < DELAY_LIMIT)
  }

  lemma IntendedStep(a: Agenda, op: Op)
    requires NoCrashAhead(a) && Sensible(op)
    ensures NoCrashAhead(Apply(Intended, a, op))
  {
  }

  /** The wheel as it is meant to be never crashes, whatever the delays: only a periodic entry with an interval it
      refuses exhausts the stack. */
  lemma {:induction false} IntendedNeverCrashes(a: Agenda, ops: seq<Op>)
    requires NoCrashAhead(a) && forall op :: op in ops ==> Sensible(op)
    ensures NoCrashAhead(Run(Intended, a, ops))
    decreases |ops|
  {
    if ops != [] {
      assert ops[0] in ops && forall op :: op in ops[1..] ==> op in ops;
      IntendedStep(a, ops[0]);
      IntendedNeverCrashes(Apply(Intended, a, ops[0]), ops[1..]);
    }
  }
}
