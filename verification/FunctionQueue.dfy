/** Functions handed to the event loop: run at once on the loop's own thread, queued by any other thread and run
    by the loop in one go. */
module FunctionQueue {

  /** A function and the functions it hands to the same loop while it runs. */
  datatype Fn = Fn(id: nat, calls: seq<Fn>)

  /** The ids in the order the functions run: calls made inside a function run inside it. */
  function Trail(f: Fn): seq<nat> {
    [f.id] + Trails(f.calls)
  }

  function Trails(fs: seq<Fn>): seq<nat> {
    if fs == [] then [] else Trail(fs[0]) + Trails(fs[1..])
  }

  lemma {:induction false} TrailsAppend(fs: seq<Fn>, gs: seq<Fn>)
    ensures Trails(fs + gs) == Trails(fs) + Trails(gs)
    decreases |fs|
  {
    if fs == [] {
      assert fs + gs == gs;
    } else {
      assert (fs + gs)[1..] == fs[1..] + gs;
      TrailsAppend(fs[1..], gs);
    }
  }

  lemma TrailsOne(f: Fn)
    ensures Trails([f]) == Trail(f) && |Trail(f)| > 0 && Trail(f)[0] == f.id
  {
    assert [f][1..] == [];
  }

  /** Where a function's calls are in the run: right after its own id, each with all it calls in turn, in order. */
  lemma CallsRunInside(f: Fn, i: nat)
    requires i < |f.calls|
    ensures Trail(f) == [f.id] + Trails(f.calls[..i]) + Trail(f.calls[i]) + Trails(f.calls[i + 1..])
  {
    hide Trails;
    var before, after := f.calls[..i], f.calls[i + 1..];
    assert f.calls == before + ([f.calls[i]] + after);
    TrailsAppend(before, [f.calls[i]] + after);
    TrailsAppend([f.calls[i]], after);
    TrailsOne(f.calls[i]);
    assert [f.id] + (Trails(before) + (Trail(f.calls[i]) + Trails(after)))
           == [f.id] + Trails(before) + Trail(f.calls[i]) + Trails(after);
  }

  /** `g` is called by f, or by a function f calls, and so on, n calls deep. */
  ghost predicate Calls(f: Fn, g: Fn, n: nat) {
    if n == 0 then f == g else exists i :: 0 <= i < |f.calls| && Calls(f.calls[i], g, n - 1)
  }

  lemma Piece(front: seq<nat>, middle: seq<nat>, back: seq<nat>, at: nat, n: nat)
    requires at + n <= |middle|
    ensures (front + middle + back)[|front| + at..|front| + at + n] == middle[at..at + n]
  {
  }

  /** Every function called, however deep, runs after the function that leads to it, with all it calls in one piece. */
  lemma {:induction false} CalledFunctionsRun(f: Fn, g: Fn, n: nat) returns (k: nat)
    requires Calls(f, g, n)
    ensures k + |Trail(g)| <= |Trail(f)| && Trail(f)[k..k + |Trail(g)|] == Trail(g)
    ensures Trail(f)[k] == g.id && (n > 0 ==> k > 0)
    decreases n
  {
    hide Trail;
    hide Trails;
    if n == 0 {
      k := 0;
      TrailsOne(f);
    } else {
      var i :| 0 <= i < |f.calls| && Calls(f.calls[i], g, n - 1);
      var inner := CalledFunctionsRun(f.calls[i], g, n - 1);
      CallsRunInside(f, i);
      var front := [f.id] + Trails(f.calls[..i]);
      k := |front| + inner;
      Piece(front, Trail(f.calls[i]), Trails(f.calls[i + 1..]), inner, |Trail(g)|);
      TrailsOne(g);
      assert Trail(f)[k..k + |Trail(g)|][0] == Trail(f)[k];
    }
  }

  class LoopQueue {
    var functions: seq<Fn>
    /** The ids of the functions run so far, in the order they ran. */
    var ran: seq<nat>

    constructor ()
      ensures functions == [] && ran == []
    {
      functions, ran := [], [];
    }

    /** RunInLoop. */
    method RunInLoop(f: Fn, inLoopThread: bool)
      modifies this
      ensures inLoopThread ==> functions == old(functions) && ran == old(ran) + Trail(f)
      ensures !inLoopThread ==> functions == old(functions) + [f] && ran == old(ran)
      decreases f, 1
    {
      if inLoopThread {
        Execute(f);
      } else {
        functions := functions + [f];
      }
    }

    /** The body of a function: its own effect, then the calls it makes, which find themselves on the loop's
        thread. */
    method Execute(f: Fn)
      modifies this
      ensures functions == old(functions) && ran == old(ran) + Trail(f)
      decreases f, 0
    {
      ran := ran + [f.id];
      var i := 0;
      while i < |f.calls|
        invariant 0 <= i <= |f.calls|
        invariant functions == old(functions) && ran == old(ran) + [f.id] + Trails(f.calls[..i])
      {
        assert f.calls[..i + 1] == f.calls[..i] + [f.calls[i]];
        TrailsAppend(f.calls[..i], [f.calls[i]]);
        assert [f.calls[i]][1..] == [];
        RunInLoop(f.calls[i], true);
        i := i + 1;
      }
      assert f.calls[..|f.calls|] == f.calls;
    }

    /** RunFunctions: the lock is held throughout, so no other thread queues anything meanwhile; a function is
        taken off the queue after it ran. */
    method RunFunctions()
      modifies this
      ensures functions == [] && ran == old(ran) + Trails(old(functions))
    {
      ghost var done: seq<Fn> := [];
      while functions != []
        invariant done + functions == old(functions)
        invariant ran == old(ran) + Trails(done)
        decreases |functions|
      {
        TrailsAppend(done, [functions[0]]);
        assert [functions[0]][1..] == [];
        done := done + [functions[0]];
        Execute(functions[0]);
        functions := functions[1..];
      }
      assert done == old(functions);
    }
  }

  /** What the threads do: another thread hands over a function, the loop's own thread does, the loop drains. */
  datatype Step = Foreign(f: Fn) | Own(f: Fn) | Drain

  function Pushed(steps: seq<Step>): seq<Fn> {
    if steps == [] then []
    else Pushed(steps[..|steps| - 1]) + if steps[|steps| - 1].Foreign? then [steps[|steps| - 1].f] else []
  }

  /** The run as the threads see it: at each drain, the functions pushed since the last one, in push order. */
  function Expected(steps: seq<Step>): (seq<nat>, nat)
    ensures Expected(steps).1 <= |Pushed(steps)|
  {
    if steps == [] then ([], 0)
    else
      var front, last := steps[..|steps| - 1], steps[|steps| - 1];
      var (ran, drained) := Expected(front);
      match last
      case Foreign(_) => (ran, drained)
      case Own(f) => (ran + Trail(f), drained)
      case Drain => (ran + Trails(Pushed(front)[drained..]), |Pushed(front)|)
  }

  lemma TrailsSplit(fs: seq<Fn>, n: nat)
    requires n <= |fs|
    ensures Trails(fs[..n]) + Trails(fs[n..]) == Trails(fs)
  {
    hide Trails;
    TrailsAppend(fs[..n], fs[n..]);
    assert fs[..n] + fs[n..] == fs;
  }

  lemma {:induction false} RanWhatWasDrained(steps: seq<Step>)
    requires forall step :: step in steps ==> !step.Own?
    ensures var (ran, drained) := Expected(steps); ran == Trails(Pushed(steps)[..drained])
    decreases |steps|
  {
    hide Trails;
    hide Trail;
    if steps == [] {
      TrailsSplit([], 0);
    } else {
      var front, last := steps[..|steps| - 1], steps[|steps| - 1];
      assert last in steps && forall step :: step in front ==> step in steps;
      RanWhatWasDrained(front);
      var drained := Expected(front).1;
      if last.Foreign? {
        assert Pushed(steps)[..drained] == Pushed(front)[..drained];
      } else {
        TrailsSplit(Pushed(front), drained);
        assert Pushed(front)[..|Pushed(front)|] == Pushed(front);
      }
    }
  }

  /** When only other threads hand over functions, each runs exactly once and in push order: what has run, followed
      by what still waits, is what was pushed. */
  lemma ExactlyOnceInPushOrder(steps: seq<Step>)
    requires forall step :: step in steps ==> !step.Own?
    ensures var (ran, drained) := Expected(steps); ran + Trails(Pushed(steps)[drained..]) == Trails(Pushed(steps))
  {
    hide Trails;
    RanWhatWasDrained(steps);
    TrailsSplit(Pushed(steps), Expected(steps).1);
  }

  /** The functions the loop's own thread hands over. */
  function Owns(steps: seq<Step>): seq<Fn> {
    if steps == [] then []
    else Owns(steps[..|steps| - 1]) + if steps[|steps| - 1].Own? then [steps[|steps| - 1].f] else []
  }

  lemma TrailsOneMore(fs: seq<Fn>, f: Fn)
    ensures Trails(fs + [f]) == Trails(fs) + Trail(f)
  {
    TrailsAppend(fs, [f]);
    assert [f][1..] == [];
  }

  /** Whoever hands functions over: those of the loop's own thread and those pushed up to the last drain have run,
      each exactly once, and nothing else has. */
  lemma {:induction false} EachRunsOnce(steps: seq<Step>)
    ensures var (ran, drained) := Expected(steps);
            multiset(ran) == multiset(Trails(Pushed(steps)[..drained])) + multiset(Trails(Owns(steps)))
    decreases |steps|
  {
    hide Trails;
    hide Trail;
    if steps == [] {
      TrailsSplit([], 0);
    } else {
      var front, last := steps[..|steps| - 1], steps[|steps| - 1];
      EachRunsOnce(front);
      var drained, pushed := Expected(front).1, Pushed(front);
      match last
      case Foreign(f) =>
        assert Owns(steps) == Owns(front) && Pushed(steps)[..drained] == pushed[..drained];
      case Own(f) =>
        TrailsOneMore(Owns(front), f);
        assert Pushed(steps) == pushed;
      case Drain =>
        TrailsSplit(pushed, drained);
        assert Owns(steps) == Owns(front) && Pushed(steps) == pushed;
        assert pushed[..|pushed|] == pushed;
    }
  }

  /** For every interleaving: the functions pushed by other threads run once each and in push order, all of them
      by the next drain; the ones still queued are exactly those pushed since the last drain. */
  method Interleave(steps: seq<Step>) returns (ran: seq<nat>, left: seq<Fn>)
    ensures ran == Expected(steps).0
    ensures left == Pushed(steps)[Expected(steps).1..]
    ensures multiset(ran) + multiset(Trails(left)) == multiset(Trails(Pushed(steps))) + multiset(Trails(Owns(steps)))
    ensures (forall step :: step in steps ==> !step.Own?) ==> ran + Trails(left) == Trails(Pushed(steps))
    ensures steps != [] && steps[|steps| - 1].Drain? ==> left == []
  {
    hide Trails;
    hide Trail;
    hide Owns;
    var queue := new LoopQueue();
    var i := 0;
    while i < |steps|
      invariant 0 <= i <= |steps| && fresh(queue)
      invariant queue.ran == Expected(steps[..i]).0
      invariant queue.functions == Pushed(steps[..i])[Expected(steps[..i]).1..]
    {
      assert steps[..i + 1][..i] == steps[..i];
      match steps[i] {
        case Foreign(f) => queue.RunInLoop(f, false);
        case Own(f) => queue.RunInLoop(f, true);
        case Drain => queue.RunFunctions();
      }
      i := i + 1;
    }
    assert steps[..|steps|] == steps;
    ran, left := queue.ran, queue.functions;
    EachRunsOnce(steps);
    TrailsSplit(Pushed(steps), Expected(steps).1);
    if forall step :: step in steps ==> !step.Own? { ExactlyOnceInPushOrder(steps); }
  }
}
