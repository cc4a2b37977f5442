/** The timing wheel seen from outside: an agenda that maps each reference to an entry to the tick at which
    that reference is dropped.  An entry runs when its last reference goes.  The wheel of four rotating
    deques (module Wheel) is proved to behave exactly like this agenda. */
module Schedule {
  import opened Modes

  const MINUTE: nat := 60
  const HOUR: nat := 60 * 60
  const DAY: nat := 60 * 60 * 24
  const DELAY_LIMIT: nat := 31 * DAY

  type Interval = d: nat | 0 < d < DELAY_LIMIT witness 1

  function Level(delay: nat): (level: nat)
    ensures level < 4
  {
    if delay < MINUTE then 0 else if delay < HOUR then 1 else if delay < DAY then 2 else 3
  }

  function Unit(level: nat): (unit: nat)
    ensures unit > 0
  {
    if level == 0 then 1 else if level == 1 then MINUTE else if level == 2 then HOUR else DAY
  }

  /** The tick an entry is aimed at: the start of the current unit of its level, plus the delay. */
  function Deadline(now: nat, delay: nat): (at: nat)
  {
    now - now % Unit(Level(delay)) + delay
  }

  /** What becomes of a reference: dropped at a tick, the program crashes at a tick, or kept for ever. */
  datatype When = At(tick: nat) | Crash(tick: nat) | Never

  /** As written, the `else if` chain of the timer never rotates the hour and the day wheel, and a remainder of 0
      indexes slot `0 - 1` when its minute is over. */
  function Fate(mode: Mode, now: nat, delay: Interval): (when: When)
  {
    var level := Level(delay);
    if mode.Intended? || level == 0 then At(Deadline(now, delay))
    else if level > 1 then Never
    else if delay % MINUTE == 0 then Crash(Deadline(now, delay))
    else At(Deadline(now, delay))
  }

  /** The delays with which the code as it stands keeps its promise. */
  predicate Reliable(mode: Mode, delay: nat) {
    0 < delay < DELAY_LIMIT && (mode.Intended? || (delay < HOUR && delay % MINUTE != 0))
  }

  /** `Every` entries re-arm themselves when they run; each re-arming makes a new entry, so a new `gen`. */
  datatype Kind = Plain | Every(interval: Interval)
  datatype Token = Token(id: nat, kind: Kind, gen: nat)
  datatype Due = Due(token: Token, at: When)
  datatype Firing = Firing(token: Token, tick: nat)

  datatype Agenda = Agenda(tick: nat, next: nat, pending: set<Due>, fired: set<Firing>, crashed: bool)

  const START: Agenda := Agenda(0, 0, {}, {}, false)

  predicate Held(dues: set<Due>, tok: Token) {
    exists d :: d in dues && d.token == tok
  }

  predicate CrashesAt(a: Agenda, t: nat) {
    exists d :: d in a.pending && d.at == Crash(t)
  }

  /** The references that survive the next tick. */
  function Remaining(a: Agenda): set<Due> {
    set d | d in a.pending && d.at != At(a.tick + 1)
  }

  /** The entries whose last reference goes at the next tick. */
  function Expiring(a: Agenda): set<Token> {
    set d | d in a.pending && d.at == At(a.tick + 1) && !Held(Remaining(a), d.token) :: d.token
  }

  function Rearm(mode: Mode, now: nat, tok: Token): Due
    requires tok.kind.Every?
  {
    Due(tok.(gen := tok.gen + 1), Fate(mode, now, tok.kind.interval))
  }

  function Rearms(mode: Mode, now: nat, toks: set<Token>): set<Due> {
    set tok | tok in toks && tok.kind.Every? :: Rearm(mode, now, tok)
  }

  function Firings(toks: set<Token>, now: nat): set<Firing> {
    set tok | tok in toks :: Firing(tok, now)
  }

  function Advance(mode: Mode, a: Agenda): Agenda {
    var now := a.tick + 1;
    if a.crashed then a
    else if CrashesAt(a, now) then a.(tick := now, crashed := true)
    else Agenda(now, a.next, Remaining(a) + Rearms(mode, now, Expiring(a)),
                a.fired + Firings(Expiring(a), now), false)
  }

  /** Hand the wheel a reference to `tok`; the caller then lets go of its own. */
  function Put(mode: Mode, a: Agenda, tok: Token, delay: nat): Agenda {
    if a.crashed then a
    else if delay == 0 && mode.AsWritten? then a.(crashed := true)
    else if 0 < delay < DELAY_LIMIT then a.(pending := a.pending + {Due(tok, Fate(mode, a.tick, delay))})
    else if Held(a.pending, tok) then a
    else a.(fired := a.fired + {Firing(tok, a.tick)})
  }

  /** `Extend` re-inserts a plain entry through a weak reference, so it does nothing once the entry ran.
      Re-arming with interval 0 or 31 days and more recurses without end, which exhausts the stack.
      `Within` is a RunAfter or RunEvery that a callback calls in the middle of the tick to come, when the finest
      `upTo` wheels have been rotated for it and the others have not. */
  datatype Op =
    | RunAfter(delay: nat)
    | RunEvery(interval: nat)
    | Extend(id: nat, delay: nat)
    | Timer
    | Within(upTo: nat, delay: nat, periodic: bool)

  /** A wheel not yet rotated takes an entry as it would have a tick ago. */
  function FateWithin(mode: Mode, now: nat, upTo: nat, delay: Interval): When
    requires now > 0
  {
    Fate(mode, if Level(delay) < upTo then now else now - 1, delay)
  }

  /** An entry asked for in the middle of the next tick, seen from before that tick.  One the wheel refuses is let go
      of at once, so within that tick. */
  function Ask(mode: Mode, a: Agenda, upTo: nat, delay: nat, periodic: bool): Agenda {
    var now := a.tick + 1;
    if 0 < delay < DELAY_LIMIT then
      var tok := Token(a.next, if periodic then Every(delay) else Plain, 0);
      a.(next := a.next + 1, pending := a.pending + {Due(tok, FateWithin(mode, now, upTo, delay))})
    else if periodic || (delay == 0 && mode.AsWritten?) then a.(crashed := true)
    else a.(next := a.next + 1, pending := a.pending + {Due(Token(a.next, Plain, 0), At(now))})
  }

  function Apply(mode: Mode, a: Agenda, op: Op): Agenda {
    if a.crashed then a else
      match op
      case RunAfter(d) => Put(mode, a.(next := a.next + 1), Token(a.next, Plain, 0), d)
      case RunEvery(i) =>
        if 0 < i < DELAY_LIMIT then Put(mode, a.(next := a.next + 1), Token(a.next, Every(i), 0), i)
        else a.(crashed := true)
      case Extend(id, d) =>
        if Held(a.pending, Token(id, Plain, 0)) then Put(mode, a, Token(id, Plain, 0), d) else a
      case Timer => Advance(mode, a)
      case Within(upTo, d, periodic) => Ask(mode, a, upTo, d, periodic)
  }

  function Run(mode: Mode, a: Agenda, ops: seq<Op>): Agenda
    decreases |ops|
  {
    if ops == [] then a else Run(mode, Apply(mode, a, ops[0]), ops[1..])
  }

  lemma AdvanceTicks(mode: Mode, a: Agenda)
    ensures Advance(mode, a).next == a.next && Advance(mode, a).tick <= a.tick + 1
    ensures !a.crashed ==> Advance(mode, a).tick == a.tick + 1
  {
  }

  lemma {:induction false} RunAppend(mode: Mode, a: Agenda, first: seq<Op>, second: seq<Op>)
    ensures Run(mode, a, first + second) == Run(mode, Run(mode, a, first), second)
    decreases |first|
  {
    if first == [] {
      assert first + second == second;
    } else {
      assert (first + second)[1..] == first[1..] + second;
      RunAppend(mode, Apply(mode, a, first[0]), first[1..], second);
    }
  }

  lemma RunOne(mode: Mode, a: Agenda, op: Op)
    ensures Run(mode, a, [op]) == Apply(mode, a, op)
  {
  }

  lemma {:induction false} CrashIsFinal(mode: Mode, a: Agenda, ops: seq<Op>)
    requires a.crashed
    ensures Run(mode, a, ops) == a
    decreases |ops|
  {
    if ops != [] { CrashIsFinal(mode, a, ops[1..]); }
  }

  lemma ModOfSum(k: nat, level: nat, r: nat)
    requires level < 4 && r < Unit(level)
    ensures (k * Unit(level) + r) % Unit(level) == r
  {
  }

  lemma Associate(q: nat, c: nat, u: nat)
    ensures q * (c * u) == (q * c) * u
  {
  }

  lemma Distribute(x: nat, y: nat, u: nat)
    ensures (x + y) * u == x * u + y * u
  {
  }

  /** Whatever the level, an entry runs at most `delay` ticks and at least `delay - unit + 1` ticks after
      it was inserted, and inserting later with the same delay never aims earlier. */
  lemma DeadlineBounds(now: nat, delay: nat)
    ensures now + delay - Unit(Level(delay)) + 1 <= Deadline(now, delay) <= now + delay
    ensures delay > 0 ==> Deadline(now, delay) > now
  {
  }

  lemma LastOfUnit(now: nat, level: nat)
    requires level < 4
    ensures now % Unit(level) == Unit(level) - 1 <==> (now + 1) % Unit(level) == 0
  {
  }

  /** The same in seconds: below a minute the delay counts from now, below an hour from the start of the minute, below
      a day from the start of the hour, and from a day on from the start of the day. */
  lemma DeadlineInSeconds(now: nat, delay: nat)
    ensures delay < 60 ==> Level(delay) == 0 && Deadline(now, delay) == now + delay
    ensures 60 <= delay < 3600 ==> Level(delay) == 1 && Deadline(now, delay) == now - now % 60 + delay
    ensures 3600 <= delay < 86400 ==> Level(delay) == 2 && Deadline(now, delay) == now - now % 3600 + delay
    ensures 86400 <= delay ==> Level(delay) == 3 && Deadline(now, delay) == now - now % 86400 + delay
  {
  }

  /** Which delays are stored, in seconds: 31 days and more are not, and as written an hour and more are useless. */
  lemma ReliableInSeconds(delay: nat)
    ensures Reliable(Intended, delay) <==> 0 < delay < 2678400
    ensures Reliable(AsWritten, delay) <==> delay < 3600 && delay % 60 != 0
  {
  }

  /** What crashes the program, call by call: a periodic interval of 0 or of 31 days and more always, a delay of 0 as
      written, a tick exactly if a reference is to be dropped by indexing slot -1. */
  lemma CrashesIff(mode: Mode, a: Agenda, op: Op)
    requires !a.crashed
    ensures Apply(mode, a, op).crashed
            <==> match op
                 case RunAfter(d) => d == 0 && mode.AsWritten?
                 case RunEvery(i) => i == 0 || i >= 2678400
                 case Extend(id, d) => d == 0 && mode.AsWritten? && Held(a.pending, Token(id, Plain, 0))
                 case Timer => exists d :: d in a.pending && d.at == Crash(a.tick + 1)
                 case Within(_, d, periodic) =>
                   (d == 0 && (mode.AsWritten? || periodic)) || (d >= 2678400 && periodic)
  {
  }

  /** A one-shot entry handed over between ticks is aimed at the second it should be. */
  lemma AimInSeconds(mode: Mode, a: Agenda, delay: nat)
    ensures mode.Intended? && !a.crashed && 0 < delay < 2678400 ==>
              var unit := if delay < 60 then 1 else if delay < 3600 then 60 else if delay < 86400 then 3600 else 86400;
              var b := Apply(mode, a, RunAfter(delay));
              !b.crashed && Due(Token(a.next, Plain, 0), At(a.tick - a.tick % unit + delay)) in b.pending
  {
    DeadlineInSeconds(a.tick, delay);
  }

  /** Only a delay of exactly one unit, asked for in the last tick of a unit, is due in the tick after. */
  lemma DueNextTickIff(now: nat, delay: nat)
    requires delay > 0
    ensures var u := Unit(Level(delay)); Deadline(now, delay) == now + 1 <==> (now + 1) % u == 0 && delay == u
  {
    assert delay >= Unit(Level(delay));
    LastOfUnit(now, Level(delay));
    hide Unit;
    hide Level;
  }

  lemma DeadlineMonotone(early: nat, late: nat, delay: nat)
    requires early <= late
    ensures Deadline(early, delay) <= Deadline(late, delay)
  {
  }

  // ---------- What callbacks ask for while a tick is under way ----------

  /** A RunAfter or RunEvery that a callback calls. */
  datatype Request = Request(delay: nat, periodic: bool)

  /** The requests of the callbacks that run while each of the four wheels is emptied. */
  type Requests = rs: seq<seq<Request>> | |rs| == 4 witness [[], [], [], []]

  function Asked(upTo: nat, rs: seq<Request>): seq<Op> {
    if rs == [] then [] else [Within(upTo, rs[0].delay, rs[0].periodic)] + Asked(upTo, rs[1..])
  }

  /** Whether a tick rotates a wheel; as written the coarse ones never are. */
  predicate Rotates(mode: Mode, now: nat, level: nat)
    requires level < 4
  {
    now % Unit(level) == 0 && (mode.Intended? || level <= 1)
  }

  /** The requests of tick `now` from wheel `level` on, in the order they are made. */
  function AskedFrom(mode: Mode, now: nat, level: nat, rs: Requests): seq<Op>
    requires level <= 4
    decreases 4 - level
  {
    if level == 4 then []
    else (if Rotates(mode, now, level) then Asked(level + 1, rs[level]) else []) + AskedFrom(mode, now, level + 1, rs)
  }

  /** A tick with the requests made during it. */
  function TickOps(mode: Mode, now: nat, rs: Requests): seq<Op> {
    AskedFrom(mode, now, 0, rs) + [Timer]
  }

  /** The coming tick crashes, if it is not too late for that already. */
  predicate Doomed(a: Agenda) {
    a.crashed || CrashesAt(a, a.tick + 1)
  }

  ghost predicate AllWithin(ops: seq<Op>) {
    forall op :: op in ops ==> op.Within?
  }

  lemma {:induction false} AskedIsWithin(upTo: nat, rs: seq<Request>)
    ensures AllWithin(Asked(upTo, rs))
  {
    if rs != [] { AskedIsWithin(upTo, rs[1..]); }
  }

  lemma {:induction false} AskedFromIsWithin(mode: Mode, now: nat, level: nat, rs: Requests)
    requires level <= 4
    ensures AllWithin(AskedFrom(mode, now, level, rs))
    decreases 4 - level
  {
    if level < 4 {
      AskedIsWithin(level + 1, rs[level]);
      AskedFromIsWithin(mode, now, level + 1, rs);
    }
  }

  lemma AskOutcome(mode: Mode, a: Agenda, upTo: nat, delay: nat, periodic: bool)
    requires !a.crashed
    ensures var b := Apply(mode, a, Within(upTo, delay, periodic));
            var tok := Token(a.next, if periodic && 0 < delay < DELAY_LIMIT then Every(delay) else Plain, 0);
            var at := if 0 < delay < DELAY_LIMIT then FateWithin(mode, a.tick + 1, upTo, delay) else At(a.tick + 1);
            && (b.crashed <==> (periodic || (delay == 0 && mode.AsWritten?)) && !(0 < delay < DELAY_LIMIT))
            && (!b.crashed ==> b == a.(next := a.next + 1, pending := a.pending + {Due(tok, at)}))
  {
  }

  lemma DoomedIs(a: Agenda)
    ensures Doomed(a) <==> a.crashed || CrashesAt(a, a.tick + 1)
  {
  }

  lemma {:induction false} AskedInOrder(upTo: nat, rs: seq<Request>)
    ensures |Asked(upTo, rs)| == |rs|
    ensures forall i :: 0 <= i < |rs| ==> Asked(upTo, rs)[i] == Within(upTo, rs[i].delay, rs[i].periodic)
  {
    if rs != [] { AskedInOrder(upTo, rs[1..]); }
  }

  lemma RotatesInSeconds(mode: Mode, now: nat)
    ensures Rotates(mode, now, 0) && (Rotates(mode, now, 1) <==> now % 60 == 0)
    ensures Rotates(mode, now, 2) <==> mode.Intended? && now % 3600 == 0
    ensures Rotates(mode, now, 3) <==> mode.Intended? && now % 86400 == 0
  {
  }

  lemma AskedFromNext(mode: Mode, now: nat, level: nat, rs: Requests)
    requires level < 4
    ensures AskedFrom(mode, now, level, rs)
            == (if Rotates(mode, now, level) then Asked(level + 1, rs[level]) else [])
               + AskedFrom(mode, now, level + 1, rs)
    ensures AskedFrom(mode, now, 4, rs) == []
  {
  }

  /** When the requests of each wheel's callbacks are made: those of the seconds wheel in every tick, those of the
      minute wheel every 60 ticks, and, as meant, those of the hour wheel every 3600 and of the day wheel every
      86400. */
  lemma TickInSeconds(mode: Mode, now: nat, rs: Requests)
    ensures var minute := if now % 60 == 0 then Asked(2, rs[1]) else [];
            var hour := if mode.Intended? && now % 3600 == 0 then Asked(3, rs[2]) else [];
            var day := if mode.Intended? && now % 86400 == 0 then Asked(4, rs[3]) else [];
            TickOps(mode, now, rs) == Asked(1, rs[0]) + minute + hour + day + [Timer]
  {
    hide Asked;
    hide AskedFrom;
    hide Rotates;
    RotatesInSeconds(mode, now);
    AskedFromNext(mode, now, 0, rs);
    AskedFromNext(mode, now, 1, rs);
    AskedFromNext(mode, now, 2, rs);
    AskedFromNext(mode, now, 3, rs);
    var second, minute := Asked(1, rs[0]), if now % 60 == 0 then Asked(2, rs[1]) else [];
    var hour := if mode.Intended? && now % 3600 == 0 then Asked(3, rs[2]) else [];
    var day := if mode.Intended? && now % 86400 == 0 then Asked(4, rs[3]) else [];
    assert AskedFrom(mode, now, 0, rs) == second + (minute + (hour + (day + [])));
    assert second + (minute + (hour + (day + []))) == second + minute + hour + day;
  }

  /** Requests add to what is pending and change nothing else. */
  lemma WithinAdds(mode: Mode, a: Agenda, op: Op)
    requires op.Within?
    ensures var b := Apply(mode, a, op);
            && b.tick == a.tick && b.fired == a.fired && a.pending <= b.pending && a.next <= b.next
            && (Doomed(a) ==> Doomed(b))
  {
    var b := Apply(mode, a, op);
    if !a.crashed && CrashesAt(a, a.tick + 1) {
      var d :| d in a.pending && d.at == Crash(a.tick + 1);
      assert d in b.pending;
    }
  }

  lemma {:induction false} WithinsAdd(mode: Mode, a: Agenda, ops: seq<Op>)
    requires AllWithin(ops)
    ensures var b := Run(mode, a, ops);
            && b.tick == a.tick && b.fired == a.fired && a.pending <= b.pending && a.next <= b.next
            && (Doomed(a) ==> Doomed(b))
    decreases |ops|
  {
    hide Apply;
    hide Doomed;
    if ops != [] {
      assert ops[0] in ops && forall op :: op in ops[1..] ==> op in ops;
      WithinAdds(mode, a, ops[0]);
      WithinsAdd(mode, Apply(mode, a, ops[0]), ops[1..]);
    }
  }

  /** One request, and those that follow it. */
  lemma AskedNext(mode: Mode, a: Agenda, upTo: nat, rs: seq<Request>)
    requires rs != []
    ensures var b := Apply(mode, a, Within(upTo, rs[0].delay, rs[0].periodic));
            && Run(mode, a, Asked(upTo, rs)) == Run(mode, b, Asked(upTo, rs[1..]))
            && (Doomed(b) ==> Doomed(Run(mode, a, Asked(upTo, rs))))
            && b.tick == a.tick
  {
    hide Apply;
    hide Doomed;
    var op := Within(upTo, rs[0].delay, rs[0].periodic);
    assert Asked(upTo, rs)[0] == op && Asked(upTo, rs)[1..] == Asked(upTo, rs[1..]);
    AskedIsWithin(upTo, rs[1..]);
    WithinAdds(mode, a, op);
    WithinsAdd(mode, Apply(mode, a, op), Asked(upTo, rs[1..]));
  }

  lemma DoomedCrashes(mode: Mode, a: Agenda)
    ensures Doomed(a) ==> Advance(mode, a).crashed
  {
  }

  lemma DoomStays(mode: Mode, a: Agenda, upTo: nat, rs: seq<Request>)
    ensures CrashesAt(a, a.tick + 1) ==> Doomed(Run(mode, a, Asked(upTo, rs)))
  {
    DoomedIs(a);
    AskedIsWithin(upTo, rs);
    WithinsAdd(mode, a, Asked(upTo, rs));
    hide Doomed;
  }

  lemma TickOfTick(mode: Mode, a: Agenda, rs: Requests)
    ensures var b := Run(mode, a, TickOps(mode, a.tick + 1, rs));
            a.next <= b.next && b.tick <= a.tick + 1 && (!b.crashed ==> b.tick == a.tick + 1)
  {
    hide AskedFrom;
    hide Run;
    hide Advance;
    var ops := AskedFrom(mode, a.tick + 1, 0, rs);
    AskedFromIsWithin(mode, a.tick + 1, 0, rs);
    WithinsAdd(mode, a, ops);
    RunAppend(mode, a, ops, [Timer]);
    RunOne(mode, Run(mode, a, ops), Timer);
    AdvanceTicks(mode, Run(mode, a, ops));
  }

  lemma NothingAsked(mode: Mode, a: Agenda, upTo: nat)
    ensures Run(mode, a, Asked(upTo, [])) == a
  {
  }

  lemma NothingAskedAfter(mode: Mode, a: Agenda, now: nat, rs: Requests)
    ensures Run(mode, a, AskedFrom(mode, now, 4, rs)) == a
  {
  }

  /** The requests made while wheel `level` is emptied, and those of the wheels after it. */
  lemma AskedOfWheel(mode: Mode, a: Agenda, b: Agenda, now: nat, level: nat, rs: Requests)
    requires level < 4
    requires b == if Rotates(mode, now, level) then Run(mode, a, Asked(level + 1, rs[level])) else a
    ensures var all := Run(mode, a, AskedFrom(mode, now, level, rs));
            all == Run(mode, b, AskedFrom(mode, now, level + 1, rs)) && (Doomed(b) ==> Doomed(all))
  {
    hide Doomed;
    var rest := AskedFrom(mode, now, level + 1, rs);
    AskedFromIsWithin(mode, now, level + 1, rs);
    WithinsAdd(mode, b, rest);
    RunAppend(mode, a, if Rotates(mode, now, level) then Asked(level + 1, rs[level]) else [], rest);
  }

  // ---------- What every run keeps ----------

  /** Nothing is overdue; one entry per id is alive at a time; an entry that ran is not held again,
      and nobody runs twice. */
  ghost predicate Valid(a: Agenda) {
    && (forall d :: d in a.pending ==> d.token.id < a.next && (d.at.Never? || d.at.tick > a.tick))
    && (forall f :: f in a.fired ==> f.token.id < a.next && f.tick <= a.tick)
    && (forall d, e :: d in a.pending && e in a.pending && d.token.id == e.token.id ==> d.token == e.token)
    && (forall d, f :: d in a.pending && f in a.fired && d.token.id == f.token.id ==>
          d.token.kind == f.token.kind && f.token.gen < d.token.gen)
    && (forall f, g :: f in a.fired && g in a.fired && f.token == g.token ==> f == g)
    && (forall d :: d in a.pending && d.token.kind.Plain? ==> d.token.gen == 0)
  }

  lemma RearmedIsAhead(mode: Mode, a: Agenda)
    ensures var now := a.tick + 1;
            forall d :: d in Rearms(mode, now, Expiring(a)) ==> d.at.Never? || d.at.tick > now
  {
    var now := a.tick + 1;
    forall tok | tok in Expiring(a) && tok.kind.Every? ensures Deadline(now, tok.kind.interval) > now {
      DeadlineBounds(now, tok.kind.interval);
    }
  }

  lemma PendingAfterTick(mode: Mode, a: Agenda)
    requires Valid(a) && !a.crashed && !Advance(mode, a).crashed
    ensures var b := Advance(mode, a);
            && (forall d :: d in b.pending ==> d.token.id < b.next && (d.at.Never? || d.at.tick > b.tick))
            && (forall d, e :: d in b.pending && e in b.pending && d.token.id == e.token.id ==> d.token == e.token)
            && (forall d :: d in b.pending && d.token.kind.Plain? ==> d.token.gen == 0)
  {
    RearmedIsAhead(mode, a);
    hide Fate;
  }

  lemma FiredAfterTick(mode: Mode, a: Agenda)
    requires Valid(a) && !a.crashed && !Advance(mode, a).crashed
    ensures var b := Advance(mode, a);
            && (forall f :: f in b.fired ==> f.token.id < b.next && f.tick <= b.tick)
            && (forall f, g :: f in b.fired && g in b.fired && f.token == g.token ==> f == g)
            && (forall d, f :: d in b.pending && f in b.fired && d.token.id == f.token.id ==>
                  d.token.kind == f.token.kind && f.token.gen < d.token.gen)
  {
    hide Fate;
  }

  lemma {:induction false} ValidAdvance(mode: Mode, a: Agenda)
    requires Valid(a)
    ensures Advance(mode, a).crashed || Valid(Advance(mode, a))
  {
    if !Advance(mode, a).crashed && !a.crashed {
      PendingAfterTick(mode, a);
      FiredAfterTick(mode, a);
      hide Advance;
    }
  }

  /** `tok` may be handed in when it is new, or when it is the plain entry its id already names. */
  lemma ValidPut(mode: Mode, a: Agenda, tok: Token, delay: nat)
    requires Valid(a) && tok.id < a.next && tok.gen == 0
    requires forall d :: d in a.pending && d.token.id == tok.id ==> d.token == tok
    requires forall f :: f in a.fired ==> f.token.id != tok.id
    ensures Put(mode, a, tok, delay).crashed || Valid(Put(mode, a, tok, delay))
  {
    DeadlineBounds(a.tick, delay);
  }

  lemma ValidAsk(mode: Mode, a: Agenda, upTo: nat, delay: nat, periodic: bool)
    requires Valid(a) && !a.crashed
    ensures Ask(mode, a, upTo, delay, periodic).crashed || Valid(Ask(mode, a, upTo, delay, periodic))
  {
    DeadlineBounds(a.tick, delay);
    DeadlineBounds(a.tick + 1, delay);
    hide Level;
    hide Deadline;
  }

  lemma {:induction false} ValidApply(mode: Mode, a: Agenda, op: Op)
    requires Valid(a)
    ensures Apply(mode, a, op).crashed || Valid(Apply(mode, a, op))
  {
    if a.crashed { return; }
    match op
    case RunAfter(d) => ValidPut(mode, a.(next := a.next + 1), Token(a.next, Plain, 0), d);
    case RunEvery(i) =>
      if 0 < i < DELAY_LIMIT { ValidPut(mode, a.(next := a.next + 1), Token(a.next, Every(i), 0), i); }
    case Extend(id, d) =>
      if Held(a.pending, Token(id, Plain, 0)) { ValidPut(mode, a, Token(id, Plain, 0), d); }
    case Timer => ValidAdvance(mode, a);
    case Within(upTo, d, periodic) => ValidAsk(mode, a, upTo, d, periodic);
  }

  lemma {:induction false} ValidRun(mode: Mode, a: Agenda, ops: seq<Op>)
    requires Valid(a)
    ensures Run(mode, a, ops).crashed || Valid(Run(mode, a, ops))
    decreases |ops|
  {
    if ops != [] {
      ValidApply(mode, a, ops[0]);
      var b := Apply(mode, a, ops[0]);
      if b.crashed { CrashIsFinal(mode, b, ops[1..]); } else { ValidRun(mode, b, ops[1..]); }
    }
  }
}
