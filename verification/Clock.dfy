/** The gate in front of the wheel: a timer call turns into a tick when a second has passed since the last. */
module Clock {

  /** The reading the gate compares with: the first call only takes the time. */
  function Since(last: int, now: int): int {
    if last == 0 then now else last
  }

  predicate Passes(last: int, now: int) {
    now - Since(last, now) >= 1000
  }

  function NextTs(last: int, now: int): int {
    if Passes(last, now) then now else Since(last, now)
  }

  function LastTs(last: int, readings: seq<int>): int
    decreases |readings|
  {
    if readings == [] then last else LastTs(NextTs(last, readings[0]), readings[1..])
  }

  function TicksOf(last: int, readings: seq<int>): nat
    decreases |readings|
  {
    if readings == [] then 0
    else (if Passes(last, readings[0]) then 1 else 0) + TicksOf(NextTs(last, readings[0]), readings[1..])
  }

  predicate NeverZero(readings: seq<int>) {
    forall r :: r in readings ==> r != 0
  }

  lemma TailNeverZero(readings: seq<int>)
    requires readings != [] && NeverZero(readings)
    ensures NeverZero(readings[1..])
  {
    assert forall r :: r in readings[1..] ==> r in readings;
  }

  /** Ticks are a second apart, for any clock that never reads 0, even one that runs backwards. */
  lemma {:induction false} TicksAreSpaced(last: int, readings: seq<int>)
    requires last != 0 && NeverZero(readings)
    ensures 1000 * TicksOf(last, readings) <= LastTs(last, readings) - last
    ensures LastTs(last, readings) == last || LastTs(last, readings) in readings
    decreases |readings|
  {
    if readings != [] {
      TailNeverZero(readings);
      assert readings[0] in readings;
      TicksAreSpaced(NextTs(last, readings[0]), readings[1..]);
    }
  }

  /** The first reading starts the clock; from there on a tick costs a second of clock time. */
  lemma TicksFromStart(readings: seq<int>)
    requires readings != [] && NeverZero(readings)
    ensures 1000 * TicksOf(0, readings) <= LastTs(0, readings) - readings[0]
    ensures LastTs(0, readings) in readings
  {
    assert readings[0] in readings;
    TailNeverZero(readings);
    TicksAreSpaced(readings[0], readings[1..]);
  }

  lemma {:induction false} TicksSince(last: int, readings: seq<int>, inserted: int)
    requires last != 0 && NeverZero(readings)
    requires forall r :: r in readings ==> r >= inserted
    ensures TicksOf(last, readings) > 0 ==>
              LastTs(last, readings) - inserted >= 1000 * (TicksOf(last, readings) - 1)
    decreases |readings|
  {
    if readings != [] {
      TailNeverZero(readings);
      assert readings[0] in readings;
      if Passes(last, readings[0]) {
        TicksAreSpaced(readings[0], readings[1..]);
      } else {
        assert forall r :: r in readings[1..] ==> r in readings;
        TicksSince(NextTs(last, readings[0]), readings[1..], inserted);
      }
    }
  }

  /** A reading takes effect when a second has passed since the one kept, and the first one is kept as it is. */
  lemma GateInMilliseconds(last: int, now: int)
    ensures Passes(last, now) <==> last != 0 && now - last >= 1000
    ensures NextTs(last, now) == if last == 0 || now - last >= 1000 then now else last
  {
  }

  /** No tick is late: after every call less than a second is left over. */
  lemma {:induction false} LessThanASecondIsLeft(last: int, readings: seq<int>)
    requires readings != []
    ensures readings[|readings| - 1] - LastTs(last, readings) < 1000
    decreases |readings|
  {
    if |readings| > 1 {
      LessThanASecondIsLeft(NextTs(last, readings[0]), readings[1..]);
    } else {
      assert readings[1..] == [];
    }
  }

  /** The timer is called at least every g milliseconds of clock time, the last time before these at `prev`. */
  ghost predicate Prompt(prev: int, readings: seq<int>, g: nat) {
    && (readings != [] ==> readings[0] - prev <= g)
    && forall i :: 0 < i < |readings| ==> readings[i] - readings[i - 1] <= g
  }

  function Latest(prev: int, readings: seq<int>): int {
    if readings == [] then prev else readings[|readings| - 1]
  }

  lemma PromptTail(prev: int, readings: seq<int>, g: nat)
    requires readings != [] && Prompt(prev, readings, g)
    ensures Prompt(readings[0], readings[1..], g) && Latest(prev, readings) == Latest(readings[0], readings[1..])
  {
    var rest := readings[1..];
    forall i | 0 < i < |rest| ensures rest[i] - rest[i - 1] <= g {
      assert readings[i + 1] - readings[i] <= g;
    }
    if rest != [] { assert readings[1] - readings[0] <= g; }
  }

  lemma OneMoreTick(n: nat, step: nat)
    ensures (1 + n) * step == step + n * step
  {
  }

  /** A timer called at least every g milliseconds makes a tick at least every 999 + g. */
  lemma {:induction false} TicksKeepUp(last: int, prev: int, readings: seq<int>, g: nat)
    requires last != 0 && NeverZero(readings) && prev - last < 1000 && Prompt(prev, readings, g)
    ensures Latest(prev, readings) - last <= TicksOf(last, readings) * (999 + g) + 999
    decreases |readings|
  {
    if readings != [] {
      var r, rest := readings[0], readings[1..];
      TailNeverZero(readings);
      assert r in readings;
      PromptTail(prev, readings, g);
      TicksKeepUp(NextTs(last, r), r, rest, g);
      OneMoreTick(TicksOf(NextTs(last, r), rest), 999 + g);
    }
  }

  lemma MoreTicks(n: nat, m: nat, step: nat)
    requires n <= m
    ensures n * step <= m * step
  {
  }

  /** So (d - 1) * (999 + g) + 1000 milliseconds of clock time are enough for d ticks, counted from the time kept or,
      before the first call, from the first reading. */
  lemma TicksInTime(last: int, prev: int, readings: seq<int>, g: nat, d: nat)
    requires NeverZero(readings) && readings != [] && d > 0
    requires Prompt(prev, readings, g) && (last != 0 ==> prev - last < 1000)
    requires Latest(prev, readings) - Since(last, readings[0]) >= (d - 1) * (999 + g) + 1000
    ensures TicksOf(last, readings) >= d
  {
    if last == 0 {
      assert readings[0] in readings;
      TailNeverZero(readings);
      PromptTail(prev, readings, g);
      TicksKeepUp(readings[0], readings[0], readings[1..], g);
    } else {
      TicksKeepUp(last, prev, readings, g);
    }
    if TicksOf(last, readings) < d { MoreTicks(TicksOf(last, readings), d - 1, 999 + g); }
  }

  /** The real time an entry waits: when the d-th tick after an insertion happens, at least d - 1 seconds have
      passed since, whatever the phase of the insertion between two ticks; d seconds if the clock had not been
      read before. */
  lemma WaitsAtLeast(last: int, readings: seq<int>, inserted: int, d: nat)
    requires NeverZero(readings) && d > 0
    requires forall r :: r in readings ==> r >= inserted
    requires TicksOf(last, readings) >= d
    ensures LastTs(last, readings) >= inserted + 1000 * (d - 1)
    ensures last == 0 ==> LastTs(last, readings) >= inserted + 1000 * d
  {
    if last == 0 {
      assert readings[0] in readings;
      TicksFromStart(readings);
    } else {
      TicksSince(last, readings, inserted);
    }
  }

  /** What TTime::NowMs returns for a time in milliseconds: its low 16 bits, signed. */
  function NowMs(ms: int): (r: int)
    ensures -0x8000 <= r < 0x8000
    ensures (ms - r) % 0x1_0000 == 0
  {
    (ms + 0x8000) % 0x1_0000 - 0x8000
  }

  function Zeros(readings: seq<int>): nat {
    if readings == [] then 0 else (if readings[0] == 0 then 1 else 0) + Zeros(readings[1..])
  }

  /** Only a reading of 0 lets the time kept go back, so between two of them the ticks share one range. */
  lemma {:induction false} TicksInRange(last: int, readings: seq<int>)
    requires -0x8000 <= last < 0x8000 && forall r :: r in readings ==> -0x8000 <= r < 0x8000
    ensures 1000 * TicksOf(last, readings) <= 0xFFFF * Zeros(readings) + if last == 0 then 0xFFFF else 0x7FFF - last
    decreases |readings|
  {
    if readings != [] {
      assert readings[0] in readings && forall r :: r in readings[1..] ==> r in readings;
      TicksInRange(NextTs(last, readings[0]), readings[1..]);
    }
  }

  function Truncated(times: seq<int>): seq<int> {
    seq(|times|, i requires 0 <= i < |times| => NowMs(times[i]))
  }

  lemma {:induction false} NoZeros(readings: seq<int>)
    ensures Zeros(readings) == 0 <==> NeverZero(readings)
    decreases |readings|
  {
    if readings != [] {
      NoZeros(readings[1..]);
      assert forall r :: r in readings <==> r == readings[0] || r in readings[1..];
    }
  }

  /** Read through that clock the wheel all but stops, however long the program runs: between two readings of exactly
      0 there is clock time for 65 ticks only. */
  lemma TruncatedClockStarvesTheWheel(times: seq<int>)
    ensures var readings := Truncated(times);
            && 1000 * TicksOf(0, readings) <= 0xFFFF * (Zeros(readings) + 1)
            && (Zeros(readings) == 0 <==> NeverZero(readings))
            && (NeverZero(readings) ==> TicksOf(0, readings) <= 65)
  {
    var readings := Truncated(times);
    assert forall r :: r in readings ==> -0x8000 <= r < 0x8000;
    TicksInRange(0, readings);
    NoZeros(readings);
  }
}
