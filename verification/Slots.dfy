/** Slots of the rotating deques as references with a drop tick: what an insertion and a rotation do to the
    set of references held, and what the middle of a tick looks like. */
module Slots {
  import opened Modes
  import opened Schedule

  /** A reference held by a slot.  In the second wheel the slot holds the entry itself (`rest` is 0); in a
      coarser wheel it holds a wrapper whose destructor inserts the entry again with `rest` seconds to go. */
  datatype Holder = Holder(token: Token, rest: nat)

  /** A slot of the second wheel is a set of entries; wrappers are distinct objects, so equal ones pile up. */
  type Slot = multiset<Holder>
  type Ring = seq<Slot>

  function Size(level: nat): nat {
    if level < 2 then 60 else if level == 2 then 24 else 30
  }

  /** What becomes of a reference in the slot that is dropped at the `index`-th rotation of its wheel. */
  function FateAt(mode: Mode, level: nat, index: nat, rest: nat): When {
    if mode.Intended? || level == 0 then At(index * Unit(level) + rest)
    else if level > 1 then Never
    else if rest == 0 then Crash(index * MINUTE)
    else At(index * MINUTE + rest)
  }

  function DueAt(mode: Mode, level: nat, index: nat, h: Holder): Due {
    Due(h.token, FateAt(mode, level, index, h.rest))
  }

  function SlotDues(mode: Mode, level: nat, index: nat, s: Slot): set<Due> {
    set h | h in s :: DueAt(mode, level, index, h)
  }

  /** Slot k of a wheel that has been rotated `turns` times is dropped at rotation turns + k + 1. */
  function RingDues(mode: Mode, level: nat, turns: nat, r: Ring): set<Due> {
    set k, h | 0 <= k < |r| && h in r[k] :: DueAt(mode, level, turns + k + 1, h)
  }

  /** A periodic entry that runs at the start of a unit of its level does so from that level's own wheel. */
  ghost predicate InPhase(level: nat, index: nat, h: Holder) {
    && h.rest < Unit(level)
    && (h.token.kind.Every? ==>
          var own := Level(h.token.kind.interval);
          level <= own && (level == own || (index * Unit(level) + h.rest) % Unit(own) != 0))
  }

  ghost predicate RingOk(level: nat, turns: nat, r: Ring) {
    && |r| == Size(level)
    && forall k, h :: 0 <= k < |r| && h in r[k] ==> InPhase(level, turns + k + 1, h)
  }

  lemma RingInsert(mode: Mode, level: nat, turns: nat, r: Ring, k: nat, h: Holder, s: Slot)
    requires k < |r| && RingOk(level, turns, r) && InPhase(level, turns + k + 1, h)
    requires s == r[k] + multiset{h} || (h in r[k] && s == r[k])
    ensures RingOk(level, turns, r[k := s])
    ensures RingDues(mode, level, turns, r[k := s])
            == RingDues(mode, level, turns, r) + {DueAt(mode, level, turns + k + 1, h)}
  {
    hide InPhase;
    hide DueAt;
    var q := r[k := s];
    assert h in q[k];
    forall d | d in RingDues(mode, level, turns, r) ensures d in RingDues(mode, level, turns, q) {
      var j, g :| 0 <= j < |r| && g in r[j] && d == DueAt(mode, level, turns + j + 1, g);
      assert g in q[j];
    }
    forall d | d in RingDues(mode, level, turns, q)
      ensures d in RingDues(mode, level, turns, r) + {DueAt(mode, level, turns + k + 1, h)}
    {
      var j, g :| 0 <= j < |q| && g in q[j] && d == DueAt(mode, level, turns + j + 1, g);
      assert g in r[j] || (j == k && g == h);
    }
  }

  lemma RingNonempty(level: nat, turns: nat, r: Ring)
    requires RingOk(level, turns, r)
    ensures r != []
  {
  }

  lemma RingRotate(mode: Mode, level: nat, turns: nat, r: Ring)
    requires r != [] && RingOk(level, turns, r)
    ensures RingOk(level, turns + 1, r[1..] + [multiset{}])
    ensures forall h :: h in r[0] ==> InPhase(level, turns + 1, h)
    ensures RingDues(mode, level, turns, r)
            == SlotDues(mode, level, turns + 1, r[0]) + RingDues(mode, level, turns + 1, r[1..] + [multiset{}])
  {
    hide InPhase;
    hide DueAt;
    var q: Ring := r[1..] + [multiset{}];
    forall k, h | 0 <= k < |q| && h in q[k] ensures InPhase(level, turns + 1 + k + 1, h) {
      assert h in r[k + 1];
    }
    forall d | d in RingDues(mode, level, turns, r)
      ensures d in SlotDues(mode, level, turns + 1, r[0]) + RingDues(mode, level, turns + 1, q)
    {
      var j, g :| 0 <= j < |r| && g in r[j] && d == DueAt(mode, level, turns + j + 1, g);
      if j > 0 { assert g in q[j - 1]; }
    }
    forall d | d in RingDues(mode, level, turns + 1, q) ensures d in RingDues(mode, level, turns, r) {
      var j, g :| 0 <= j < |q| && g in q[j] && d == DueAt(mode, level, turns + 1 + j + 1, g);
      assert g in r[j + 1];
    }
    forall d | d in SlotDues(mode, level, turns + 1, r[0]) ensures d in RingDues(mode, level, turns, r) {
      var g :| g in r[0] && d == DueAt(mode, level, turns + 1, g);
      assert g in r[0];
    }
  }

  ghost predicate Shape(rings: seq<Ring>, turns: seq<nat>) {
    |rings| == 4 && |turns| == 4 && forall level | 0 <= level < 4 :: RingOk(level, turns[level], rings[level])
  }

  function AllDues(mode: Mode, rings: seq<Ring>, turns: seq<nat>): set<Due>
    requires |rings| == 4 && |turns| == 4
  {
    RingDues(mode, 0, turns[0], rings[0]) + RingDues(mode, 1, turns[1], rings[1])
    + RingDues(mode, 2, turns[2], rings[2]) + RingDues(mode, 3, turns[3], rings[3])
  }

  ghost predicate CanInsert(turns: seq<nat>, delay: nat, tok: Token)
    requires |turns| == 4
  {
    0 < delay < DELAY_LIMIT ==>
      var level := Level(delay);
      InPhase(level, turns[level] + delay / Unit(level), Holder(tok, delay % Unit(level)))
  }

  ghost function InsertedDues(mode: Mode, turns: seq<nat>, delay: nat, tok: Token): set<Due>
    requires |turns| == 4
  {
    if 0 < delay < DELAY_LIMIT then
      var level := Level(delay);
      {DueAt(mode, level, turns[level] + delay / Unit(level), Holder(tok, delay % Unit(level)))}
    else {}
  }

  lemma {:induction false} RingReplaced(mode: Mode, rings: seq<Ring>, turns: seq<nat>, level: nat, r: Ring,
                                        added: set<Due>)
    requires level < 4 && Shape(rings, turns) && RingOk(level, turns[level], r)
    requires RingDues(mode, level, turns[level], r) == RingDues(mode, level, turns[level], rings[level]) + added
    ensures Shape(rings[level := r], turns)
    ensures AllDues(mode, rings[level := r], turns) == AllDues(mode, rings, turns) + added
  {
    hide RingOk;
    hide RingDues;
    match level
    case 0 =>
    case 1 =>
    case 2 =>
    case _ =>
  }

  lemma RingRotated(mode: Mode, rings: seq<Ring>, turns: seq<nat>, level: nat)
    requires level < 4 && Shape(rings, turns)
    ensures rings[level] != []
    ensures var rings' := rings[level := rings[level][1..] + [multiset{}]];
            var turns' := turns[level := turns[level] + 1];
            && Shape(rings', turns')
            && AllDues(mode, rings, turns)
               == AllDues(mode, rings', turns') + SlotDues(mode, level, turns[level] + 1, rings[level][0])
    ensures forall h :: h in rings[level][0] ==> InPhase(level, turns[level] + 1, h)
  {
    hide RingOk;
    hide RingDues;
    hide SlotDues;
    hide InPhase;
    RingNonempty(level, turns[level], rings[level]);
    RingRotate(mode, level, turns[level], rings[level]);
    match level
    case 0 =>
    case 1 =>
    case 2 =>
    case _ =>
  }

  predicate HasToken(s: Slot, tok: Token) {
    exists h :: h in s && h.token == tok
  }

  predicate RingHolds(r: Ring, tok: Token) {
    exists k :: 0 <= k < |r| && HasToken(r[k], tok)
  }

  predicate HeldIn(rings: seq<Ring>, tok: Token) {
    exists level :: 0 <= level < |rings| && RingHolds(rings[level], tok)
  }

  lemma SlotHeldIffDue(mode: Mode, level: nat, index: nat, s: Slot, tok: Token)
    ensures Held(SlotDues(mode, level, index, s), tok) <==> HasToken(s, tok)
  {
    if h :| h in s && h.token == tok {
      assert DueAt(mode, level, index, h) in SlotDues(mode, level, index, s);
    }
  }

  lemma RingHeldIffDue(mode: Mode, level: nat, turns: nat, r: Ring, tok: Token)
    ensures Held(RingDues(mode, level, turns, r), tok) <==> RingHolds(r, tok)
  {
    if k :| 0 <= k < |r| && HasToken(r[k], tok) {
      var h :| h in r[k] && h.token == tok;
      assert DueAt(mode, level, turns + k + 1, h) in RingDues(mode, level, turns, r);
    }
    if d :| d in RingDues(mode, level, turns, r) && d.token == tok {
      var k, h :| 0 <= k < |r| && h in r[k] && d == DueAt(mode, level, turns + k + 1, h);
      assert HasToken(r[k], tok);
    }
  }

  lemma HeldByDue(dues: set<Due>, d: Due)
    ensures d in dues ==> Held(dues, d.token)
  {
  }

  lemma HeldInUnion(a: set<Due>, b: set<Due>, tok: Token)
    ensures Held(a + b, tok) <==> Held(a, tok) || Held(b, tok)
  {
  }

  /** The agenda knows of a reference to an entry exactly when some slot holds one. */
  lemma HeldIffDue(mode: Mode, rings: seq<Ring>, turns: seq<nat>, tok: Token)
    requires |rings| == 4 && |turns| == 4
    ensures Held(AllDues(mode, rings, turns), tok) <==> HeldIn(rings, tok)
  {
    hide RingDues;
    hide RingHolds;
    hide Held;
    var r0, r1 := RingDues(mode, 0, turns[0], rings[0]), RingDues(mode, 1, turns[1], rings[1]);
    var r2, r3 := RingDues(mode, 2, turns[2], rings[2]), RingDues(mode, 3, turns[3], rings[3]);
    HeldInUnion(r0 + r1 + r2, r3, tok);
    HeldInUnion(r0 + r1, r2, tok);
    HeldInUnion(r0, r1, tok);
    forall level | 0 <= level < 4
      ensures Held(RingDues(mode, level, turns[level], rings[level]), tok) <==> RingHolds(rings[level], tok)
    {
      RingHeldIffDue(mode, level, turns[level], rings[level], tok);
    }
    assert RingHolds(rings[0], tok) || RingHolds(rings[1], tok) || RingHolds(rings[2], tok) || RingHolds(rings[3], tok)
           <==> HeldIn(rings, tok);
  }

  // ---------- Rotations in step with the ticks ----------

  /** Wheel `level` has been rotated once for each of its units that is over. */
  ghost predicate InStep(mode: Mode, turns: seq<nat>, now: nat, level: nat)
    requires |turns| == 4 && level < 4
  {
    (mode.AsWritten? && level > 1) || turns[level] == now / Unit(level)
  }

  ghost predicate AllInStep(mode: Mode, turns: seq<nat>, now: nat)
    requires |turns| == 4
  {
    forall level | 0 <= level < 4 :: InStep(mode, turns, now, level)
  }

  ghost predicate SeenTo(mode: Mode, turns: seq<nat>, now: nat, upTo: nat, level: nat)
    requires |turns| == 4 && now > 0 && level < 4
  {
    if level < upTo then InStep(mode, turns, now, level) else InStep(mode, turns, now - 1, level)
  }

  /** During tick `now`, the wheels below `upTo` have been seen to and the others not yet. */
  ghost predicate Phase(mode: Mode, turns: seq<nat>, now: nat, upTo: nat)
    requires |turns| == 4 && now > 0
  {
    forall level | 0 <= level < 4 :: SeenTo(mode, turns, now, upTo, level)
  }

  lemma FirstAndLastPhase(mode: Mode, turns: seq<nat>, now: nat)
    requires |turns| == 4 && now > 0
    ensures AllInStep(mode, turns, now - 1) ==> Phase(mode, turns, now, 0)
    ensures Phase(mode, turns, now, 4) ==> AllInStep(mode, turns, now)
  {
    if Phase(mode, turns, now, 4) {
      forall level | 0 <= level < 4 ensures InStep(mode, turns, now, level) {
        assert SeenTo(mode, turns, now, 4, level);
      }
    }
  }

  /** Every multiple of an hour or a day is a multiple of a minute. */
  lemma CoarseIsFine(now: nat)
    ensures now % HOUR == 0 ==> now % MINUTE == 0
    ensures now % DAY == 0 ==> now % MINUTE == 0
  {
  }

  lemma CoarseWheelsDoNotMatter(mode: Mode, turns: seq<nat>, now: nat)
    requires mode.AsWritten? && |turns| == 4 && now > 0 && Phase(mode, turns, now, 2)
    ensures Phase(mode, turns, now, 4)
  {
    var upTo := 4;
    forall l | 0 <= l < 4 ensures SeenTo(mode, turns, now, upTo, l) {
      assert SeenTo(mode, turns, now, 2, l);
    }
  }

  lemma WholeUnits(x: nat, u: nat)
    requires u > 0
    ensures x - x % u == x / u * u
  {
  }

  lemma UnitStep(now: nat, level: nat)
    requires now > 0 && level < 4
    ensures now / Unit(level) == (now - 1) / Unit(level) + if now % Unit(level) == 0 then 1 else 0
    ensures now % Unit(level) == 0 ==> now / Unit(level) * Unit(level) == now
  {
  }

  lemma FinerUnits(now: nat, level: nat, finer: nat)
    requires finer <= level < 4 && now % Unit(level) == 0
    ensures now % Unit(finer) == 0
  {
    var q, c := now / Unit(level), Unit(level) / Unit(finer);
    WholeUnits(now, Unit(level));
    assert Unit(level) == c * Unit(finer);
    hide Unit;
    assert now == (q * c) * Unit(finer) by {
      Associate(q, c, Unit(finer));
    }
    ModOfSum(q * c, finer, 0);
  }

  /** Slot and remainder of an insertion name the same tick as the deadline. */
  lemma SlotOfDelay(mode: Mode, turns: seq<nat>, now: nat, delay: Interval)
    requires |turns| == 4 && InStep(mode, turns, now, Level(delay))
    ensures var level := Level(delay);
            FateAt(mode, level, turns[level] + delay / Unit(level), delay % Unit(level)) == Fate(mode, now, delay)
  {
    var level := Level(delay);
    var u, t := Unit(level), turns[level];
    WholeUnits(now, u);
    WholeUnits(delay, u);
    assert (t + delay / u) * u == t * u + delay / u * u;
  }

  lemma NoRearm(mode: Mode, now: nat, tok: Token)
    ensures !tok.kind.Every? ==> Rearms(mode, now, {tok}) == {}
  {
  }

  lemma RearmedDues(mode: Mode, turns: seq<nat>, now: nat, tok: Token)
    requires |turns| == 4 && tok.kind.Every? && InStep(mode, turns, now, Level(tok.kind.interval))
    ensures InsertedDues(mode, turns, tok.kind.interval, tok.(gen := tok.gen + 1)) == Rearms(mode, now, {tok})
  {
    SlotOfDelay(mode, turns, now, tok.kind.interval);
    hide Fate;
    hide FateAt;
    hide Level;
    hide Unit;
    assert Rearms(mode, now, {tok}) == {Rearm(mode, now, tok)};
  }

  lemma IndexInRange(delay: Interval)
    ensures var level := Level(delay); 1 <= delay / Unit(level) <= Size(level)
  {
  }

  /** A wheel whose unit is not over needs no rotation; one whose unit is over has just had it. */
  lemma NextPhase(mode: Mode, before: seq<nat>, turns: seq<nat>, now: nat, level: nat)
    requires |before| == 4 && level < 4 && now > 0
    requires turns == if now % Unit(level) == 0 then before[level := before[level] + 1] else before
    requires Phase(mode, before, now, level)
    ensures Phase(mode, turns, now, level + 1)
  {
    UnitStep(now, level);
    var upTo := level + 1;
    forall l | 0 <= l < 4 ensures SeenTo(mode, turns, now, upTo, l) {
      assert SeenTo(mode, before, now, level, l);
    }
  }

  lemma FateOfPopped(mode: Mode, turns: seq<nat>, now: nat, level: nat, rest: nat)
    requires |turns| == 4 && level < 4 && (mode.AsWritten? ==> level <= 1)
    requires now > 0 && now % Unit(level) == 0 && InStep(mode, turns, now, level)
    ensures FateAt(mode, level, turns[level], rest)
            == if mode.AsWritten? && level == 1 && rest == 0 then Crash(now) else At(now + rest)
  {
  }

  lemma RestIsFiner(level: nat, index: nat, h: Holder)
    requires level < 4 && InPhase(level, index, h) && h.rest > 0
    ensures Level(h.rest) < level && h.rest < DELAY_LIMIT && h.rest < Unit(level)
  {
  }

  lemma TurnsInStep(mode: Mode, turns: seq<nat>, now: nat, upTo: nat, level: nat)
    requires |turns| == 4 && now > 0 && level < upTo && level < 4 && (mode.AsWritten? ==> level <= 1)
    requires Phase(mode, turns, now, upTo)
    ensures InStep(mode, turns, now, level) && turns[level] == now / Unit(level)
  {
    assert SeenTo(mode, turns, now, upTo, level);
  }

  lemma FinerFate(mode: Mode, now: nat, finer: nat, index: nat, rest: nat)
    requires mode.AsWritten? ==> finer == 0
    requires index * Unit(finer) + rest % Unit(finer) == now + rest
    ensures FateAt(mode, finer, index, rest % Unit(finer)) == At(now + rest)
  {
  }

  lemma CascadeInPhase(level: nat, now: nat, finer: nat, index: nat, h: Holder)
    requires finer < level < 4 && now % Unit(level) == 0
    requires InPhase(level, now / Unit(level), h) && finer == Level(h.rest) && h.rest > 0
    requires index * Unit(finer) + h.rest % Unit(finer) == now + h.rest
    requires (now + h.rest) % Unit(level) == h.rest
    ensures InPhase(finer, index, Holder(h.token, h.rest % Unit(finer)))
  {
  }

  lemma RegroupUnits(a: nat, b: nat, u: nat)
    requires u > 0
    ensures (a / u + b / u) * u + b % u == a / u * u + b
  {
  }

  lemma RemainderOfSum(now: nat, level: nat, rest: nat)
    requires level < 4 && now % Unit(level) == 0 && rest < Unit(level)
    ensures (now + rest) % Unit(level) == rest
  {
  }

  /** A wrapper dropped at `now` hands its entry to a finer wheel, aimed at the same tick as before. */
  lemma Cascade(mode: Mode, turns: seq<nat>, now: nat, level: nat, h: Holder)
    requires |turns| == 4 && level < 4 && (mode.AsWritten? ==> level <= 1)
    requires now > 0 && now % Unit(level) == 0 && Phase(mode, turns, now, level + 1)
    requires InPhase(level, turns[level], h) && h.rest > 0
    ensures CanInsert(turns, h.rest, h.token)
    ensures InsertedDues(mode, turns, h.rest, h.token) == {DueAt(mode, level, turns[level], h)}
  {
    var finer := Level(h.rest);
    RestIsFiner(level, turns[level], h);
    TurnsInStep(mode, turns, now, level + 1, level);
    TurnsInStep(mode, turns, now, level + 1, finer);
    FinerUnits(now, level, finer);
    UnitStep(now, finer);
    FateOfPopped(mode, turns, now, level, h.rest);
    RegroupUnits(now, h.rest, Unit(finer));
    RemainderOfSum(now, level, h.rest);
    var index := turns[finer] + h.rest / Unit(finer);
    CascadeInPhase(level, now, finer, index, h);
    FinerFate(mode, now, finer, index, h.rest);
    hide FateAt;
    hide InPhase;
    hide Unit;
    hide Level;
    assert DueAt(mode, finer, index, Holder(h.token, h.rest % Unit(finer))) == DueAt(mode, level, turns[level], h);
  }

  /** A periodic entry that runs now finds the wheel of its own level already in step with the new tick. */
  lemma RearmInStep(mode: Mode, turns: seq<nat>, now: nat, level: nat, tok: Token)
    requires |turns| == 4 && now > 0 && level < 4 && tok.kind.Every?
    requires now % Unit(level) == 0 && Phase(mode, turns, now, level + 1)
    requires InPhase(level, now / Unit(level), Holder(tok, 0))
    ensures InStep(mode, turns, now, Level(tok.kind.interval))
  {
    UnitStep(now, level);
    UnitStep(now, Level(tok.kind.interval));
    assert SeenTo(mode, turns, now, level + 1, Level(tok.kind.interval));
  }

  lemma TakenOut(s: Slot, h: Holder)
    requires h in s
    ensures s - multiset{h} + multiset{h} == s && |s - multiset{h}| + 1 == |s|
  {
  }

  lemma EmptySlot(mode: Mode, level: nat, index: nat)
    ensures SlotDues(mode, level, index, multiset{}) == {}
  {
  }

  lemma SlotRemove(mode: Mode, level: nat, index: nat, s: Slot, h: Holder)
    requires h in s
    ensures SlotDues(mode, level, index, s)
            == SlotDues(mode, level, index, s - multiset{h}) + {DueAt(mode, level, index, h)}
  {
  }

  lemma RingNotOverdue(mode: Mode, level: nat, turns: seq<nat>, r: Ring, now: nat, d: Due)
    requires level < 4 && |turns| == 4 && InStep(mode, turns, now, level)
    requires d in RingDues(mode, level, turns[level], r)
    ensures d.at.Never? || d.at.tick > now
  {
  }

  /** After the rotations of a tick, nothing in the wheels is due any more. */
  lemma NothingOverdue(mode: Mode, rings: seq<Ring>, turns: seq<nat>, now: nat)
    requires |rings| == 4 && |turns| == 4 && AllInStep(mode, turns, now)
    ensures forall d :: d in AllDues(mode, rings, turns) ==> d.at.Never? || d.at.tick > now
  {
    hide RingDues;
    hide InStep;
    forall d | d in AllDues(mode, rings, turns) ensures d.at.Never? || d.at.tick > now {
      if d in RingDues(mode, 0, turns[0], rings[0]) {
        RingNotOverdue(mode, 0, turns, rings[0], now, d);
      } else if d in RingDues(mode, 1, turns[1], rings[1]) {
        RingNotOverdue(mode, 1, turns, rings[1], now, d);
      } else if d in RingDues(mode, 2, turns[2], rings[2]) {
        RingNotOverdue(mode, 2, turns, rings[2], now, d);
      } else {
        RingNotOverdue(mode, 3, turns, rings[3], now, d);
      }
    }
  }

  // ---------- The middle of a tick ----------

  /** Part of the references due at `now` are dropped already; `ran` are the entries that lost their last one.
      `live` are the references still held. */
  ghost predicate MidTick(mode: Mode, now: nat, before: set<Due>, live: set<Due>, ran: set<Token>) {
    && (forall d :: d in before && d.at != At(now) ==> d in live)
    && (forall d :: d in live ==> d in before || d in Rearms(mode, now, ran))
    && Rearms(mode, now, ran) <= live
    && (forall tok :: tok in ran <==> Due(tok, At(now)) in before && !Held(live, tok))
  }

  lemma RearmsAreNew(mode: Mode, a: Agenda, toks: set<Token>)
    requires Schedule.Valid(a) && forall tok :: tok in toks ==> Due(tok, At(a.tick + 1)) in a.pending
    ensures forall d :: d in Rearms(mode, a.tick + 1, toks) ==>
                          (d.at.Never? || d.at.tick > a.tick + 1) && !Held(a.pending, d.token)
  {
  }

  /** A reference still held whose tick has come was there before the tick. */
  lemma DueNowIsOld(mode: Mode, a: Agenda, live: set<Due>, ran: set<Token>, d: Due)
    requires Schedule.Valid(a) && MidTick(mode, a.tick + 1, a.pending, live, ran)
    requires d in live && (d.at == At(a.tick + 1) || d.at == Crash(a.tick + 1))
    ensures d in a.pending
  {
  }

  lemma OthersStayHeld(live: set<Due>, left: set<Due>, tok: Token, at: When, t: Token)
    requires live == left + {Due(tok, at)} && t != tok
    ensures Held(left, t) <==> Held(live, t)
  {
  }

  /** Dropping one reference due now while another remains: nothing runs. */
  lemma DropKeepsMidTick(mode: Mode, a: Agenda, live: set<Due>, left: set<Due>, ran: set<Token>, tok: Token)
    requires Schedule.Valid(a)
    requires MidTick(mode, a.tick + 1, a.pending, live, ran)
    requires Due(tok, At(a.tick + 1)) in a.pending && live == left + {Due(tok, At(a.tick + 1))}
    requires Held(left, tok)
    ensures MidTick(mode, a.tick + 1, a.pending, left, ran)
  {
  }

  /** Dropping the last reference: the entry runs, and a periodic one arms its next round. */
  lemma LastDropKeepsMidTick(mode: Mode, a: Agenda, live: set<Due>, left: set<Due>, ran: set<Token>, tok: Token)
    requires Schedule.Valid(a)
    requires MidTick(mode, a.tick + 1, a.pending, live, ran)
    requires Due(tok, At(a.tick + 1)) in a.pending && live == left + {Due(tok, At(a.tick + 1))}
    requires !Held(left, tok)
    ensures tok !in ran
    ensures MidTick(mode, a.tick + 1, a.pending, left + Rearms(mode, a.tick + 1, {tok}), ran + {tok})
  {
    var now := a.tick + 1;
    var again := Rearms(mode, now, {tok});
    RearmsAreNew(mode, a, ran + {tok});
    assert Held(live, tok) by { assert Due(tok, At(now)) in live; }
    assert Rearms(mode, now, ran + {tok}) == Rearms(mode, now, ran) + again;
    assert Due(tok, At(now)) !in Rearms(mode, now, ran);
    forall t | Due(t, At(now)) in a.pending ensures Held(left + again, t) <==> Held(live, t) && t != tok {
      assert !Held(again, t);
      HeldInUnion(left, again, t);
      if t != tok { OthersStayHeld(live, left, tok, At(now), t); }
    }
  }

  /** Once no reference due now is left, the tick is what the agenda says. */
  lemma TickIsDone(mode: Mode, a: Agenda, live: set<Due>, ran: set<Token>)
    requires Schedule.Valid(a) && !a.crashed
    requires MidTick(mode, a.tick + 1, a.pending, live, ran)
    requires forall d :: d in live ==> d.at.Never? || d.at.tick > a.tick + 1
    ensures !CrashesAt(a, a.tick + 1)
    ensures ran == Expiring(a)
    ensures live == Remaining(a) + Rearms(mode, a.tick + 1, Expiring(a))
    ensures Advance(mode, a) == Agenda(a.tick + 1, a.next, live, a.fired + Firings(ran, a.tick + 1), false)
    ensures forall f :: f in Firings(ran, a.tick + 1) ==> f !in a.fired
  {
  }

  /** What is known of a reference in a popped slot before its destructor runs. */
  lemma {:induction false} PoppedReference(mode: Mode, turns: seq<nat>, level: nat, h: Holder, others: Slot,
                        a: Agenda, live: set<Due>, ran: set<Token>)
    requires |turns| == 4 && level < 4 && (mode.AsWritten? ==> level <= 1)
    requires Schedule.Valid(a) && MidTick(mode, a.tick + 1, a.pending, live, ran)
    requires (a.tick + 1) % Unit(level) == 0 && Phase(mode, turns, a.tick + 1, level + 1)
    requires InPhase(level, turns[level], h)
    requires SlotDues(mode, level, turns[level], others + multiset{h}) <= live
    ensures SlotDues(mode, level, turns[level], others + multiset{h})
            == SlotDues(mode, level, turns[level], others) + {DueAt(mode, level, turns[level], h)}
    ensures CanInsert(turns, h.rest, h.token) && (level == 0 ==> h.rest == 0)
    ensures h.rest > 0 ==> InsertedDues(mode, turns, h.rest, h.token) == {DueAt(mode, level, turns[level], h)}
    ensures h.rest == 0 && mode.AsWritten? && level > 0 ==> CrashesAt(a, a.tick + 1)
    ensures h.rest == 0 && !(mode.AsWritten? && level > 0) ==>
              && DueAt(mode, level, turns[level], h) == Due(h.token, At(a.tick + 1))
              && Due(h.token, At(a.tick + 1)) in a.pending
              && (h.token.kind.Every? ==> InStep(mode, turns, a.tick + 1, Level(h.token.kind.interval)))
  {
    hide SlotDues;
    hide MidTick;
    hide Schedule.Valid;
    hide Phase;
    hide InsertedDues;
    hide RingDues;
    var now := a.tick + 1;
    var due := DueAt(mode, level, turns[level], h);
    SlotRemove(mode, level, turns[level], others + multiset{h}, h);
    assert others + multiset{h} - multiset{h} == others;
    assert due in live;
    TurnsInStep(mode, turns, now, level + 1, level);
    FateOfPopped(mode, turns, now, level, h.rest);
    if h.rest > 0 {
      Cascade(mode, turns, now, level, h);
    } else {
      DueNowIsOld(mode, a, live, ran, due);
      if h.token.kind.Every? { RearmInStep(mode, turns, now, level, h.token); }
    }
  }

  lemma DeadlineBeforeTick(now: nat, delay: Interval)
    requires now > 0
    ensures var u := Unit(Level(delay));
            Deadline(now - 1, delay) == Deadline(now, delay) - if now % u == 0 then u else 0
  {
    var u := Unit(Level(delay));
    UnitStep(now, Level(delay));
    WholeUnits(now, u);
    WholeUnits(now - 1, u);
    hide Unit;
    assert ((now - 1) / u + 1) * u == (now - 1) / u * u + u;
  }

  /** Insertions made by a callback in the middle of a tick.  A wheel that is still to be rotated in this tick
      takes the entry one rotation early: the entry is aimed as if it had been inserted a tick ago, which is a
      whole unit early exactly when the unit of its level is just over. */
  lemma InsertionInMidTick(mode: Mode, turns: seq<nat>, now: nat, upTo: nat, delay: Interval, tok: Token)
    requires |turns| == 4 && now > 0 && Phase(mode, turns, now, upTo)
    ensures var level := Level(delay);
            && InsertedDues(mode, turns, delay, tok)
               == {Due(tok, Fate(mode, if level < upTo then now else now - 1, delay))}
            && Deadline(now - 1, delay) == Deadline(now, delay) - if now % Unit(level) == 0 then Unit(level) else 0
  {
    var level := Level(delay);
    assert SeenTo(mode, turns, now, upTo, level);
    UnitStep(now, level);
    SlotOfDelay(mode, turns, if level < upTo then now else now - 1, delay);
    DeadlineBeforeTick(now, delay);
  }

  /** A callback that runs from the seconds wheel at tick 60 and asks for a minute gets a due tick of 60: as
      intended it runs within the same tick, as written the program crashes within it. */
  lemma MinuteInMidTickIsDueAtOnce(mode: Mode, turns: seq<nat>, tok: Token)
    requires |turns| == 4 && Phase(mode, turns, MINUTE, 1)
    ensures InsertedDues(mode, turns, MINUTE, tok)
            == {Due(tok, if mode.Intended? then At(MINUTE) else Crash(MINUTE))}
  {
    InsertionInMidTick(mode, turns, MINUTE, 1, MINUTE, tok);
  }

  /** A new entry may be inserted at any time, whether or not its wheel has been rotated. */
  lemma InsertWithin(mode: Mode, turns: seq<nat>, now: nat, upTo: nat, delay: nat, tok: Token)
    requires |turns| == 4 && now > 0 && Phase(mode, turns, now, upTo)
    requires tok.kind.Every? ==> tok.kind.interval == delay
    ensures CanInsert(turns, delay, tok)
    ensures InsertedDues(mode, turns, delay, tok)
            == if 0 < delay < DELAY_LIMIT then {Due(tok, FateWithin(mode, now, upTo, delay))} else {}
  {
    if 0 < delay < DELAY_LIMIT { InsertionInMidTick(mode, turns, now, upTo, delay, tok); }
  }

  /** To the tick under way it makes no difference whether a new entry was there before it. */
  lemma NewcomerKeepsMidTick(mode: Mode, a: Agenda, live: set<Due>, ran: set<Token>, d: Due)
    requires Schedule.Valid(a) && MidTick(mode, a.tick + 1, a.pending, live, ran)
    requires d.token.id >= a.next
    ensures MidTick(mode, a.tick + 1, a.pending + {d}, live + {d}, ran)
    ensures !Held(live, d.token)
  {
  }

  lemma StartOfTick(mode: Mode, a: Agenda)
    ensures MidTick(mode, a.tick + 1, a.pending, a.pending, {})
    ensures Firings({}, a.tick + 1) == {}
  {
  }

  /** An insertion between ticks adds the reference the agenda adds. */
  lemma InsertBetweenTicks(mode: Mode, turns: seq<nat>, now: nat, delay: nat, tok: Token)
    requires |turns| == 4 && AllInStep(mode, turns, now)
    requires tok.kind.Every? ==> tok.kind.interval == delay
    ensures CanInsert(turns, delay, tok)
    ensures InsertedDues(mode, turns, delay, tok)
            == if 0 < delay < DELAY_LIMIT then {Due(tok, Fate(mode, now, delay))} else {}
  {
    if 0 < delay < DELAY_LIMIT {
      assert InStep(mode, turns, now, Level(delay));
      SlotOfDelay(mode, turns, now, delay);
    }
  }

  function Logged(log: seq<Firing>): set<Firing> {
    set f | f in log
  }

  /** The log of runs stays a log without repetitions. */
  lemma LogGrows(before: seq<Firing>, after: seq<Firing>, added: set<Firing>)
    requires multiset(before) == multiset(Logged(before))
    requires multiset(after) == multiset(before) + multiset(added)
    requires forall f :: f in added ==> f !in Logged(before)
    ensures Logged(after) == Logged(before) + added
    ensures multiset(after) == multiset(Logged(after))
  {
    forall f ensures f in after <==> f in before || f in added {
      assert f in after <==> f in multiset(after);
      assert f in before <==> f in multiset(before);
    }
  }

  lemma PlainDoesNotRearm(mode: Mode, now: nat, tok: Token)
    ensures tok.kind.Plain? ==> Rearms(mode, now, {tok}) == {}
  {
  }

  lemma NextIsFresh(a: Agenda)
    requires Schedule.Valid(a)
    ensures forall d :: d in a.pending ==> d.token.id != a.next
    ensures forall f :: f in a.fired ==> f.token.id != a.next
    ensures Schedule.Valid(a.(next := a.next + 1))
  {
  }

  lemma ExtendAllowed(a: Agenda, tok: Token)
    requires Schedule.Valid(a) && tok.kind.Plain? && tok.gen == 0
    ensures Held(a.pending, tok) ==>
              && tok.id < a.next
              && (forall d :: d in a.pending && d.token.id == tok.id ==> d.token == tok)
              && (forall f :: f in a.fired ==> f.token.id != tok.id)
  {
  }

  lemma PutCrash(mode: Mode, a: Agenda, tok: Token, delay: nat)
    requires !a.crashed
    ensures Put(mode, a, tok, delay).crashed <==> delay == 0 && mode.AsWritten?
  {
  }

  lemma PutOutcome(mode: Mode, a: Agenda, b: Agenda, tok: Token, delay: nat)
    requires !a.crashed && !b.crashed && !(delay == 0 && mode.AsWritten?) && a.tick == b.tick && a.next == b.next
    requires b.pending == a.pending + if 0 < delay < DELAY_LIMIT then {Due(tok, Fate(mode, a.tick, delay))} else {}
    requires b.fired == a.fired + if Held(b.pending, tok) then {} else {Firing(tok, a.tick)}
    ensures b == Put(mode, a, tok, delay)
  {
  }

  lemma EmptyWheel(mode: Mode, rings: seq<Ring>)
    requires |rings| == 4 && forall level | 0 <= level < 4 :: |rings[level]| == Size(level)
    requires forall level, k :: 0 <= level < 4 && 0 <= k < |rings[level]| ==> rings[level][k] == multiset{}
    ensures Shape(rings, [0, 0, 0, 0]) && AllDues(mode, rings, [0, 0, 0, 0]) == {}
    ensures AllInStep(mode, [0, 0, 0, 0], 0) && Schedule.Valid(START) && Logged([]) == {}
  {
  }
}
