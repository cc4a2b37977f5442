/** The timing wheel: four deques of slots rotated in place.  Every public operation does to the view of the
    wheel exactly what the agenda of module Schedule does, whatever order the destructors run in. */
module Wheel {
  import opened Modes
  import opened Schedule
  import Clock
  import opened Slots

  class TimingWheel {
    const mode: Mode
    var rings: seq<Ring>
    var tick: nat
    var lastTs: int
    var next: nat
    var fired: seq<Firing>
    var crashed: bool
    ghost var turns: seq<nat>

    ghost predicate Sized()
      reads this
    {
      |rings| == 4 && |turns| == 4
    }

    ghost function Dues(): set<Due>
      requires Sized()
      reads this
    {
      AllDues(mode, rings, turns)
    }

    ghost function View(): Agenda
      reads this
    {
      Agenda(tick, next, if Sized() then Dues() else {}, Logged(fired), crashed)
    }

    lemma ViewFields()
      ensures View().tick == tick && View().next == next && View().crashed == crashed && View().fired == Logged(fired)
      ensures Valid() && !crashed ==> Schedule.Valid(View())
    {
    }

    ghost predicate Valid()
      reads this
    {
      && Sized()
      && (!crashed ==>
            && Shape(rings, turns)
            && AllInStep(mode, turns, tick)
            && Schedule.Valid(View())
            && multiset(fired) == multiset(View().fired))
    }

    constructor (mode: Mode)
      ensures Valid() && View() == START && this.mode == mode && lastTs == 0
      ensures |rings| == 4 && |rings[0]| == 60 && |rings[1]| == 60 && |rings[2]| == 24 && |rings[3]| == 30
    {
      hide Shape;
      hide AllDues;
      hide AllInStep;
      hide Schedule.Valid;
      hide Logged;
      this.mode := mode;
      var empty: Slot := multiset{};
      var start: seq<Ring> := [seq(60, _ => empty), seq(60, _ => empty), seq(24, _ => empty), seq(30, _ => empty)];
      EmptyWheel(mode, start);
      rings := start;
      turns := [0, 0, 0, 0];
      tick, lastTs, next, fired, crashed := 0, 0, 0, [], false;
    }

    /** InsertSecondEntry and its siblings, which differ in the unit: the second wheel takes the entry itself,
        a coarser wheel takes a new wrapper. */
    method InsertLevelEntry(level: nat, delay: nat, tok: Token)
      requires Shape(rings, turns) && CanInsert(turns, delay, tok)
      requires 0 < delay < DELAY_LIMIT && level == Level(delay)
      modifies `rings
      ensures Shape(rings, turns)
      ensures Dues() == old(Dues()) + InsertedDues(mode, turns, delay, tok)
    {
      hide RingDues;
      var h := Holder(tok, delay % Unit(level));
      IndexInRange(delay);
      var k := delay / Unit(level) - 1;
      var slot := rings[level][k];
      var filled := if level == 0 && h in slot then slot else slot + multiset{h};
      RingInsert(mode, level, turns[level], rings[level], k, h, filled);
      RingReplaced(mode, rings, turns, level, rings[level][k := filled], InsertedDues(mode, turns, delay, tok));
      rings := rings[level := rings[level][k := filled]];
    }

    /** InsertEntry.  A delay of 0 drops the reference; the code as it stands goes on to index slot 0 - 1. */
    method InsertEntry(delay: nat, tok: Token)
      requires Shape(rings, turns) && CanInsert(turns, delay, tok) && !crashed
      modifies `rings, `crashed
      ensures Shape(rings, turns)
      ensures crashed == (delay == 0 && mode.AsWritten?)
      ensures Dues() == old(Dues()) + InsertedDues(mode, turns, delay, tok)
    {
      if delay == 0 {
        crashed := mode.AsWritten?;
      } else if delay < MINUTE {
        InsertLevelEntry(0, delay, tok);
      } else if delay < HOUR {
        InsertLevelEntry(1, delay, tok);
      } else if delay < DAY {
        InsertLevelEntry(2, delay, tok);
      } else {
        var day := delay / DAY;
        if day > 30 { return; }
        InsertLevelEntry(3, delay, tok);
      }
    }

    /** The destructor of an entry: run it, and for a periodic entry arm the next round. */
    method RunEntry(tok: Token)
      requires Shape(rings, turns) && !crashed
      requires tok.kind.Every? ==> InStep(mode, turns, tick, Level(tok.kind.interval))
      modifies `rings, `crashed, `fired
      ensures Shape(rings, turns) && !crashed
      ensures fired == old(fired) + [Firing(tok, tick)]
      ensures Dues() == old(Dues()) + Rearms(mode, tick, {tok})
    {
      hide RingOk;
      hide AllDues;
      hide InsertedDues;
      hide Rearms;
      fired := fired + [Firing(tok, tick)];
      NoRearm(mode, tick, tok);
      if tok.kind.Every? {
        var interval := tok.kind.interval;
        RearmedDues(mode, turns, tick, tok);
        InsertEntry(interval, tok.(gen := tok.gen + 1));
      }
    }

    /** A reference to `tok` is gone.  If neither a slot nor `others`, the rest of the popped slot, holds one,
        it was the last, and the entry runs. */
    method LetGo(tok: Token, level: nat, others: Slot,
      ghost a: Agenda, ghost already: set<Token>, ghost base: multiset<Firing>) returns (ghost ran: set<Token>)
      requires level < 4 && Shape(rings, turns) && !crashed
      requires Schedule.Valid(a) && a.tick + 1 == tick && multiset(fired) == base + multiset(Firings(already, tick))
      requires var left := Dues() + SlotDues(mode, level, turns[level], others);
               || (Held(left, tok) && MidTick(mode, tick, a.pending, left, already))
               || (&& Due(tok, At(tick)) in a.pending
                   && MidTick(mode, tick, a.pending, left + {Due(tok, At(tick))}, already)
                   && (tok.kind.Every? ==> InStep(mode, turns, tick, Level(tok.kind.interval))))
      modifies `rings, `crashed, `fired
      ensures !crashed && Shape(rings, turns) && old(fired) <= fired
      ensures MidTick(mode, tick, a.pending, Dues() + SlotDues(mode, level, turns[level], others), ran)
      ensures multiset(fired) == base + multiset(Firings(ran, tick))
    {
      hide RingDues;
      hide SlotDues;
      hide MidTick;
      hide AllDues;
      hide Schedule.Valid;
      ran := already;
      ghost var rest := SlotDues(mode, level, turns[level], others);
      ghost var left := Dues() + rest;
      HeldInUnion(Dues(), rest, tok);
      HeldIffDue(mode, rings, turns, tok);
      SlotHeldIffDue(mode, level, turns[level], others, tok);
      if !HeldIn(rings, tok) && !HasToken(others, tok) {
        LastDropKeepsMidTick(mode, a, left + {Due(tok, At(tick))}, left, already, tok);
        ran := already + {tok};
        assert Firings(ran, tick) == Firings(already, tick) + {Firing(tok, tick)};
        ghost var before := Dues();
        RunEntry(tok);
        assert Dues() + rest == left + Rearms(mode, tick, {tok});
      } else if !MidTick(mode, tick, a.pending, left, already) {
        DropKeepsMidTick(mode, a, left + {Due(tok, At(tick))}, left, already, tok);
      }
    }

    /** A tick is under way: the wheels below `upTo` have been seen to, `a` is the agenda before the tick with all that
        was asked for since, `ran` are the entries that ran, `base` is the log at the start of the tick. */
    ghost predicate Ticking(upTo: nat, a: Agenda, ran: set<Token>, base: multiset<Firing>)
      reads this
    {
      && Shape(rings, turns)
      && Schedule.Valid(a) && !a.crashed && a.tick + 1 == tick && a.next == next
      && Phase(mode, turns, tick, upTo)
      && MidTick(mode, tick, a.pending, Dues(), ran)
      && multiset(fired) == base + multiset(Firings(ran, tick))
    }

    /** The same while wheel `level`, just rotated, still has to let go of the references in `slot`. */
    ghost predicate Emptying(level: nat, slot: Slot, a: Agenda, ran: set<Token>, base: multiset<Firing>)
      reads this
    {
      && level < 4 && (mode.AsWritten? ==> level <= 1)
      && Shape(rings, turns)
      && Schedule.Valid(a) && !a.crashed && a.tick + 1 == tick && a.next == next
      && tick % Unit(level) == 0 && Phase(mode, turns, tick, level + 1)
      && (forall h :: h in slot ==> InPhase(level, turns[level], h))
      && MidTick(mode, tick, a.pending, Dues() + SlotDues(mode, level, turns[level], slot), ran)
      && multiset(fired) == base + multiset(Firings(ran, tick))
    }

    /** The destructor of one element of a popped slot: a wrapper inserts its entry again, and then, as for the
        entry itself, a reference to the entry is gone. */
    method Destroy(h: Holder, level: nat, others: Slot,
      ghost a: Agenda, ghost already: set<Token>, ghost base: multiset<Firing>) returns (ghost ran: set<Token>)
      requires Sized() && Emptying(level, others + multiset{h}, a, already, base) && !crashed
      modifies `rings, `crashed, `fired
      ensures Sized() && old(fired) <= fired
      ensures crashed ==> CrashesAt(a, tick)
      ensures !crashed ==> Emptying(level, others, a, ran, base)
    {
      hide RingDues;
      hide SlotDues;
      hide MidTick;
      hide AllDues;
      hide Schedule.Valid;
      hide InPhase;
      hide Phase;
      assert h in others + multiset{h};
      ghost var due := DueAt(mode, level, turns[level], h);
      ghost var live := Dues() + SlotDues(mode, level, turns[level], others + multiset{h});
      ghost var rest := SlotDues(mode, level, turns[level], others);
      PoppedReference(mode, turns, level, h, others, a, live, already);
      ran := already;
      if level > 0 {
        InsertEntry(h.rest, h.token);
        if crashed { return; }
      }
      assert h.rest > 0 ==> Held(Dues() + rest, h.token) by {
        assert h.rest > 0 ==> due in Dues() + rest;
      }
      assert h.rest > 0 ==> Dues() + rest == live;
      assert h.rest == 0 ==> Dues() + rest + {due} == live;
      ran := LetGo(h.token, level, others, a, already, base);
    }

    /** RunAfter or RunEvery called by a callback while the popped slot is being emptied.  As between ticks the caller
        lets go of its own reference afterwards, so an entry that was not stored runs here. */
    method RunRequest(r: Request, level: nat, others: Slot,
      ghost a: Agenda, ghost already: set<Token>, ghost base: multiset<Firing>) returns (ghost ran: set<Token>)
      requires Sized() && Emptying(level, others, a, already, base) && !crashed
      modifies `rings, `crashed, `fired, `next
      ensures Sized() && old(fired) <= fired
      ensures var b := Apply(mode, a, Within(level + 1, r.delay, r.periodic));
              crashed == b.crashed && (!crashed ==> Emptying(level, others, b, ran, base))
    {
      hide RingDues;
      hide SlotDues;
      hide MidTick;
      hide AllDues;
      hide RingOk;
      hide InPhase;
      hide Schedule.Valid;
      hide Phase;
      hide CanInsert;
      hide InsertedDues;
      hide FateWithin;
      hide Apply;
      ghost var b := Apply(mode, a, Within(level + 1, r.delay, r.periodic));
      AskOutcome(mode, a, level + 1, r.delay, r.periodic);
      ran := already;
      if r.periodic && (r.delay == 0 || r.delay >= DELAY_LIMIT) {
        crashed := true;
        return;
      }
      var tok := Token(next, if r.periodic then Every(r.delay) else Plain, 0);
      next := next + 1;
      ghost var rest := SlotDues(mode, level, turns[level], others);
      ghost var live := Dues() + rest;
      InsertWithin(mode, turns, tick, level + 1, r.delay, tok);
      ValidApply(mode, a, Within(level + 1, r.delay, r.periodic));
      InsertEntry(r.delay, tok);
      if crashed { return; }
      ghost var due := if 0 < r.delay < DELAY_LIMIT then Due(tok, FateWithin(mode, tick, level + 1, r.delay))
                       else Due(tok, At(tick));
      assert b.pending == a.pending + {due};
      NewcomerKeepsMidTick(mode, a, live, already, due);
      if 0 < r.delay < DELAY_LIMIT {
        assert Dues() + rest == live + {due};
        HeldByDue(Dues() + rest, due);
      } else {
        assert Dues() + rest == live;
      }
      ran := LetGo(tok, level, others, b, already, base);
    }

    /** The popped slot goes out of scope: its references go in any order, and the callbacks that run meanwhile call
        RunAfter and RunEvery as they like, in between. */
    method DropAll(popped: Slot, level: nat, requests: seq<Request>, ghost a: Agenda, ghost already: set<Token>,
      ghost base: multiset<Firing>) returns (ghost ran: set<Token>, ghost b: Agenda)
      requires Sized() && Emptying(level, popped, a, already, base) && !crashed
      modifies `rings, `crashed, `fired, `next
      ensures Sized() && old(fired) <= fired
      ensures b == Run(mode, a, Asked(level + 1, requests))
      ensures crashed ==> Doomed(b)
      ensures !crashed ==> Emptying(level, multiset{}, b, ran, base)
    {
      hide Emptying;
      hide Schedule.Valid;
      hide MidTick;
      hide Apply;
      hide Run;
      hide Asked;
      hide CrashesAt;
      hide Doomed;
      AgendaIsAt(level, popped, a, already, base);
      ran, b := already, Run(mode, a, Asked(level + 1, requests));
      ghost var c := a;
      var slot, left := popped, requests;
      while slot != multiset{} || left != []
        invariant !crashed && Sized() && Emptying(level, slot, c, ran, base) && old(fired) <= fired
        invariant b == Run(mode, c, Asked(level + 1, left)) && c.tick + 1 == tick
        decreases |slot| + |left|
      {
        var askFirst: bool := *;
        if slot == multiset{} || (askFirst && left != []) {
          AskedNext(mode, c, level + 1, left);
          ghost var d := Apply(mode, c, Within(level + 1, left[0].delay, left[0].periodic));
          DoomedIs(d);
          ran := RunRequest(left[0], level, slot, c, ran, base);
          if crashed { return; }
          c, left := d, left[1..];
        } else {
          DoomStays(mode, c, level + 1, left);
          var h :| h in slot;
          TakenOut(slot, h);
          slot := slot - multiset{h};
          ran := Destroy(h, level, slot, c, ran, base);
          if crashed { return; }
        }
      }
      NothingAsked(mode, c, level + 1);
    }

    lemma AgendaIsAt(level: nat, slot: Slot, a: Agenda, ran: set<Token>, base: multiset<Firing>)
      requires Emptying(level, slot, a, ran, base)
      ensures a.tick + 1 == tick
    {
    }

    /** Take the front slot off, append an empty one, then let the references of the slot go. */
    method PopUp(level: nat, requests: seq<Request>, ghost a: Agenda, ghost already: set<Token>,
      ghost base: multiset<Firing>) returns (ghost ran: set<Token>, ghost b: Agenda)
      requires Sized() && Ticking(level, a, already, base) && !crashed
      requires level < 4 && tick % Unit(level) == 0 && (mode.AsWritten? ==> level <= 1)
      modifies `rings, `crashed, `fired, `turns, `next
      ensures Sized() && old(fired) <= fired
      ensures b == Run(mode, a, Asked(level + 1, requests))
      ensures crashed ==> Doomed(b)
      ensures !crashed ==> Ticking(level + 1, b, ran, base)
    {
      hide RingDues;
      hide RingOk;
      hide SlotDues;
      hide MidTick;
      hide AllDues;
      hide Schedule.Valid;
      hide InPhase;
      hide Phase;
      hide Run;
      hide Asked;
      hide Firings;
      hide Doomed;
      hide Shape;
      RingRotated(mode, rings, turns, level);
      var slot := rings[level][0];
      NextPhase(mode, turns, turns[level := turns[level] + 1], tick, level);
      rings := rings[level := rings[level][1..] + [multiset{}]];
      turns := turns[level := turns[level] + 1];
      assert Dues() + SlotDues(mode, level, turns[level], slot) == old(Dues());
      ran, b := DropAll(slot, level, requests, a, already, base);
      EmptySlot(mode, level, turns[level]);
      assert Dues() + {} == Dues();
    }

    /** A wheel whose unit is not over needs nothing done. */
    lemma Skip(level: nat, a: Agenda, ran: set<Token>, base: multiset<Firing>)
      requires Sized() && level < 4 && Ticking(level, a, ran, base) && tick % Unit(level) != 0
      ensures Ticking(level + 1, a, ran, base)
    {
      NextPhase(mode, turns, turns, tick, level);
    }

    /** The caller lets go of its own reference between ticks: the entry runs if no slot holds it. */
    method LetGoOutside(tok: Token)
      requires Shape(rings, turns) && !crashed
      requires multiset(fired) == multiset(Logged(fired)) && Firing(tok, tick) !in Logged(fired)
      requires !Held(Dues(), tok) ==> tok.kind.Plain?
      modifies `rings, `crashed, `fired
      ensures Shape(rings, turns) && !crashed
      ensures multiset(fired) == multiset(Logged(fired))
      ensures Dues() == old(Dues())
      ensures Logged(fired) == old(Logged(fired)) + if Held(old(Dues()), tok) then {} else {Firing(tok, tick)}
    {
      hide RingDues;
      hide RingOk;
      hide AllDues;
      hide HeldIn;
      hide Rearms;
      hide Logged;
      hide InStep;
      HeldIffDue(mode, rings, turns, tok);
      ghost var log := fired;
      if !HeldIn(rings, tok) {
        PlainDoesNotRearm(mode, tick, tok);
        RunEntry(tok);
        LogGrows(log, fired, {Firing(tok, tick)});
      }
    }

    /** The caller hands an entry to the wheel and then lets go of its own reference. */
    method PutAndLetGo(delay: nat, tok: Token)
      requires Valid() && !crashed && tok.id < next && tok.gen == 0
      requires tok.kind.Every? ==> 0 < delay < DELAY_LIMIT && tok.kind.interval == delay
      requires forall d :: d in Dues() && d.token.id == tok.id ==> d.token == tok
      requires forall f :: f in Logged(fired) ==> f.token.id != tok.id
      modifies `rings, `crashed, `fired
      ensures Valid()
      ensures crashed == Put(mode, old(View()), tok, delay).crashed
      ensures !crashed ==> View() == Put(mode, old(View()), tok, delay)
    {
      hide RingDues;
      hide RingOk;
      hide AllDues;
      hide AllInStep;
      hide CanInsert;
      hide InsertedDues;
      hide Fate;
      hide Rearms;
      hide Held;
      hide Logged;
      hide Put;
      hide Schedule.Valid;
      ghost var a := View();
      InsertBetweenTicks(mode, turns, tick, delay, tok);
      ValidPut(mode, a, tok, delay);
      PutCrash(mode, a, tok, delay);
      InsertEntry(delay, tok);
      if crashed { return; }
      if 0 < delay < DELAY_LIMIT { HeldByDue(Dues(), Due(tok, Fate(mode, tick, delay))); }
      LetGoOutside(tok);
      PutOutcome(mode, a, View(), tok, delay);
    }

    method RunAfter(delay: nat)
      requires Valid() && !crashed
      modifies this`rings, `crashed, `fired, `next
      ensures Valid()
      ensures crashed == Apply(mode, old(View()), Op.RunAfter(delay)).crashed
      ensures !crashed ==> View() == Apply(mode, old(View()), Op.RunAfter(delay))
      ensures mode.Intended? && 0 < delay < 2678400 ==>
                var unit := if delay < 60 then 1 else if delay < 3600 then 60
                            else if delay < 86400 then 3600 else 86400;
                !crashed && Due(Token(old(next), Plain, 0), At(tick - tick % unit + delay)) in View().pending
    {
      AimInSeconds(mode, View(), delay);
      hide Shape;
      hide AllDues;
      hide Put;
      hide Schedule.Valid;
      hide Logged;
      NextIsFresh(View());
      var tok := Token(next, Plain, 0);
      next := next + 1;
      PutAndLetGo(delay, tok);
    }

    /** RunEvery.  With interval 0, or one the wheel refuses, the new entry runs at once and calls RunEvery
        again, without end. */
    method RunEvery(interval: nat)
      requires Valid() && !crashed
      modifies this`rings, `crashed, `fired, `next
      ensures Valid()
      ensures crashed == Apply(mode, old(View()), Op.RunEvery(interval)).crashed
      ensures !crashed ==> View() == Apply(mode, old(View()), Op.RunEvery(interval))
    {
      hide Shape;
      hide AllDues;
      hide Put;
      hide Schedule.Valid;
      hide Logged;
      if interval == 0 || interval >= DELAY_LIMIT {
        crashed := true;
        return;
      }
      NextIsFresh(View());
      var tok := Token(next, Every(interval), 0);
      next := next + 1;
      PutAndLetGo(interval, tok);
    }

    /** ExtendLife: insert the entry again if a reference to it can still be had. */
    method Extend(id: nat, delay: nat)
      requires Valid() && !crashed
      modifies this`rings, `crashed, `fired
      ensures Valid()
      ensures crashed == Apply(mode, old(View()), Op.Extend(id, delay)).crashed
      ensures !crashed ==> View() == Apply(mode, old(View()), Op.Extend(id, delay))
    {
      var tok := Token(id, Plain, 0);
      HeldIffDue(mode, rings, turns, tok);
      ExtendAllowed(View(), tok);
      hide RingDues;
      hide RingOk;
      hide AllDues;
      hide Shape;
      hide AllInStep;
      hide Held;
      hide Put;
      hide HeldIn;
      hide Logged;
      hide Schedule.Valid;
      if HeldIn(rings, tok) {
        PutAndLetGo(delay, tok);
      }
    }

    /** The rotations of one tick.  In the code as it stands the hour and the day wheel hang on `else` branches
        that no tick reaches, since a multiple of an hour or a day is a multiple of a minute. */
    method Rotate(requests: Requests, ghost a: Agenda, ghost base: multiset<Firing>)
      returns (ghost ran: set<Token>, ghost b: Agenda)
      requires Sized() && Ticking(0, a, {}, base) && !crashed
      modifies `rings, `crashed, `fired, `turns, `next
      ensures Sized() && old(fired) <= fired
      ensures crashed ==> Doomed(Run(mode, a, AskedFrom(mode, tick, 0, requests)))
      ensures !crashed ==> b == Run(mode, a, AskedFrom(mode, tick, 0, requests)) && Ticking(4, b, ran, base)
    {
      hide Ticking;
      hide Schedule.Valid;
      hide MidTick;
      hide Shape;
      hide Phase;
      hide Firings;
      hide Doomed;
      hide Run;
      hide Asked;
      hide AskedFrom;
      CoarseIsFine(tick);
      ghost var c;
      ran, b := PopUp(0, requests[0], a, {}, base);
      AskedOfWheel(mode, a, b, tick, 0, requests);
      if crashed { return; }
      c := b;
      if mode.AsWritten? {
        if tick % MINUTE == 0 {
          ran, b := PopUp(1, requests[1], b, ran, base);
        } else if tick % HOUR == 0 {
          assert false;
        } else if tick % DAY == 0 {
          assert false;
        } else {
          Skip(1, b, ran, base);
        }
        AskedOfWheel(mode, c, b, tick, 1, requests);
        if crashed { return; }
        AskedOfWheel(mode, b, b, tick, 2, requests);
        AskedOfWheel(mode, b, b, tick, 3, requests);
        CoarseWheelsStandStill(b, ran, base);
      } else {
        if tick % MINUTE == 0 { ran, b := PopUp(1, requests[1], b, ran, base); } else { Skip(1, b, ran, base); }
        AskedOfWheel(mode, c, b, tick, 1, requests);
        if crashed { return; }
        c := b;
        if tick % HOUR == 0 { ran, b := PopUp(2, requests[2], b, ran, base); } else { Skip(2, b, ran, base); }
        AskedOfWheel(mode, c, b, tick, 2, requests);
        if crashed { return; }
        c := b;
        if tick % DAY == 0 { ran, b := PopUp(3, requests[3], b, ran, base); } else { Skip(3, b, ran, base); }
        AskedOfWheel(mode, c, b, tick, 3, requests);
        if crashed { return; }
      }
      NothingAskedAfter(mode, b, tick, requests);
    }

    lemma CoarseWheelsStandStill(a: Agenda, ran: set<Token>, base: multiset<Firing>)
      requires Sized() && mode.AsWritten? && Ticking(2, a, ran, base)
      ensures Ticking(4, a, ran, base)
    {
      CoarseWheelsDoNotMatter(mode, turns, tick);
    }

    /** OnTimer.  `requests` are the RunAfter and RunEvery that callbacks call while the wheels are emptied; those of
        a wheel that this tick does not rotate are not made. */
    method OnTimer(now: int, requests: Requests)
      requires Valid() && !crashed
      modifies this
      ensures Valid() && old(fired) <= fired
      ensures lastTs == Clock.NextTs(old(lastTs), now)
      ensures lastTs == if old(lastTs) == 0 || now - old(lastTs) >= 1000 then now else old(lastTs)
      ensures !crashed ==> tick == old(tick) + if old(lastTs) != 0 && now - old(lastTs) >= 1000 then 1 else 0
      ensures !Clock.Passes(old(lastTs), now) ==> View() == old(View())
      ensures Clock.Passes(old(lastTs), now) ==>
                var b := Run(mode, old(View()), TickOps(mode, old(tick) + 1, requests));
                crashed == b.crashed && (!crashed ==> View() == b)
    {
      hide RingDues;
      hide RingOk;
      hide AllDues;
      hide InStep;
      hide MidTick;
      hide Schedule.Valid;
      hide Remaining;
      hide Expiring;
      hide Rearms;
      hide Run;
      hide AskedFrom;
      hide Advance;
      hide Doomed;
      if lastTs == 0 { lastTs := now; }
      if now - lastTs < 1000 { return; }
      lastTs := now;
      ghost var a, log := View(), fired;
      tick := tick + 1;
      ghost var ops := AskedFrom(mode, tick, 0, requests);
      RunAppend(mode, a, ops, [Timer]);
      RunOne(mode, Run(mode, a, ops), Timer);
      AskedFromIsWithin(mode, tick, 0, requests);
      WithinsAdd(mode, a, ops);
      StartOfTick(mode, a);
      FirstAndLastPhase(mode, turns, tick);
      ghost var ran, b := Rotate(requests, a, multiset(fired));
      DoomedCrashes(mode, Run(mode, a, ops));
      if crashed { return; }
      FirstAndLastPhase(mode, turns, tick);
      NothingOverdue(mode, rings, turns, tick);
      TickIsDone(mode, b, Dues(), ran);
      ValidAdvance(mode, b);
      LogGrows(log, fired, Firings(ran, tick));
    }
  }
}
