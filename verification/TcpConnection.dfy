/** A TCP connection: the parser fed by the read loop, the send queue served by the write loop, and the event
    bits that ask for write readiness. */
module Tcp {
  import opened Bytes
  import opened Buffers
  import opened Framing
  import opened Modes
  import opened SendQueue

  datatype EventBit = In | Pri | Out | EdgeTriggered
  const READ_BITS: set<EventBit> := {In, Pri, EdgeTriggered}
  const WRITE_BITS: set<EventBit> := {Out, EdgeTriggered}

  class TestContext {
    const hasCallback: bool
    var state: State
    var length: int
    var body: seq<byte>
    var delivered: seq<seq<byte>>

    constructor (hasCallback: bool)
      ensures Fields() == IDLE.(hasCallback := hasCallback) && delivered == []
    {
      this.hasCallback := hasCallback;
      state, length, body, delivered := Header, 0, [], [];
    }

    function Fields(): Context
      reads this
    {
      Context(state, length, body, hasCallback)
    }

    /** ParseMessage, returning 1 on an incomplete body as it does on a short header. */
    method ParseMessage(buf: MsgBuffer) returns (code: int)
      requires buf.Valid()
      modifies this, buf`reader, buf`writer
      ensures buf.Valid()
      ensures var p := Parse(old(Fields()), old(buf.Window()));
              && Fields() == p.ctx && buf.Window() == p.rest && delivered == old(delivered) + p.out
              && code == (if p.rest == [] then 0 else 1)
    {
      hide MsgBuffer.Window;
      hide Outcome;
      hide Parse;
      hide DecodeInt;
      ghost var start := Parsed(Fields(), buf.Window(), delivered);
      OutcomeIsParse(start);
      while buf.Readable() > 0
        invariant buf.Valid() && buf.buffer == old(buf.buffer)
        invariant Outcome(Parsed(Fields(), buf.Window(), delivered)) == Outcome(start)
        decreases buf.Readable(), if state.Body? then 1 else 0
      {
        ghost var here := Parsed(Fields(), buf.Window(), delivered);
        if state.Header? {
          if buf.Readable() >= HEADER {
            HeaderStep(here);
            length := buf.ReadInt(HEADER);
            state := Body;
            assert Parsed(Fields(), buf.Window(), delivered)
                   == here.(ctx := TakeHeader(here.ctx, here.rest), rest := here.rest[HEADER..]);
          } else {
            StopsHere(here);
            return 1;
          }
        } else {
          if 0 <= length <= buf.Readable() {
            var tmp := buf.Peek(length);
            body := body + tmp;
            buf.Retrieve(length);
            length := 0;
            if hasCallback {
              delivered := delivered + [body];
              body := [];
            }
            state := Header;
            BodyStep(here, tmp, buf.Window());
          } else {
            StopsHere(here);
            return 1;
          }
        }
      }
      StopsHere(Parsed(Fields(), buf.Window(), delivered));
      return 0;
    }
  }

  /** How a read ends: the kernel has no more bytes, the peer closed, or the read failed. */
  datatype ReadEnd = NoMoreBytes | PeerClosed | ReadFailed

  function Total(sizes: seq<nat>): nat {
    if sizes == [] then 0 else Total(sizes[..|sizes| - 1]) + sizes[|sizes| - 1]
  }

  lemma {:induction false} TotalGrows(sizes: seq<nat>, i: nat)
    requires i <= |sizes|
    ensures Total(sizes[..i]) <= Total(sizes)
  {
    if i == |sizes| {
      assert sizes[..i] == sizes;
    } else {
      assert sizes[..|sizes| - 1][..i] == sizes[..i];
      TotalGrows(sizes[..|sizes| - 1], i);
    }
  }

  lemma NothingRead(sizes: seq<nat>)
    ensures Total(sizes[..0]) == 0 && sizes[..|sizes|] == sizes
  {
  }

  /** One more read of at most the room there is, while the kernel holds `held` bytes in all. */
  lemma ReadSoFar(sizes: seq<nat>, i: nat, taken: nat, held: nat, room: nat)
    requires i < |sizes| && taken == Min(Total(sizes[..i]), held) && 0 < sizes[i] <= room
    ensures var n := Min(sizes[i], Min(held - taken, room));
            taken + n == Min(Total(sizes[..i + 1]), held) && (n == 0 ==> taken == Min(Total(sizes), held))
  {
    assert sizes[..i + 1][..i] == sizes[..i];
    TotalGrows(sizes, i);
  }

  class TcpConnection {
    const mode: Mode
    const buffer: MsgBuffer
    const context: TestContext
    const registered: bool
    var closed: bool
    var queue: seq<seq<byte>>
    var interest: set<EventBit>
    /** The bytes the kernel took from this end. */
    var wire: seq<byte>
    /** The bytes handed to Send while the connection was open. */
    ghost var submitted: seq<byte>

    /** The receiving side: fields of the parser, unread bytes, messages delivered. */
    ghost function Received(): Parsed
      requires buffer.Valid()
      reads context, buffer, buffer.buffer
    {
      Parsed(context.Fields(), buffer.Window(), context.delivered)
    }

    ghost predicate Valid()
      reads this, context, buffer, buffer.buffer
    {
      && buffer.Valid()
      && Settled(Received())
      && Conserved()
      && Interested()
    }

    /** Taken by the kernel or still queued: every byte submitted, in order. */
    ghost predicate Conserved()
      reads this
    {
      !closed ==> wire + Flatten(queue) == submitted
    }

    /** Something waits, so write readiness is asked for. */
    ghost predicate Interested()
      reads this
    {
      !closed && registered && queue != [] ==> Out in interest
    }

    constructor (mode: Mode, hasCallback: bool, registered: bool)
      ensures Valid() && fresh(buffer) && fresh(buffer.buffer) && fresh(context)
      ensures this.mode == mode && this.registered == registered && !closed
      ensures queue == [] && wire == [] && submitted == []
      ensures interest == if registered then {In, Pri, EdgeTriggered} else {}
      ensures Received() == Parsed(IDLE.(hasCallback := hasCallback), [], [])
    {
      this.mode, this.registered := mode, registered;
      buffer := new MsgBuffer(1024);
      context := new TestContext(hasCallback);
      closed, queue, wire, submitted := false, [], [], [];
      interest := if registered then READ_BITS else {};
    }

    /** EnableEventWriting: without a registration nothing changes. */
    method EnableWriting(enable: bool)
      modifies `interest
      ensures registered ==> (Out in interest <==> enable)
      ensures interest == if !registered then old(interest)
                          else if enable then old(interest) + WRITE_BITS else old(interest) - WRITE_BITS
    {
      if registered {
        interest := if enable then interest + WRITE_BITS else interest - WRITE_BITS;
      }
    }

    method OnClose()
      modifies `closed
      ensures closed
    {
      closed := true;
    }

    /** OnWrite against the kernel's answers.  `completed` tells whether the write-complete callback ran.  Taking
        write interest back takes edge triggering away as well: a connection that has drained its queue once is
        level triggered until it asks for write readiness again. */
    method OnWrite(answers: seq<Answer>) returns (completed: bool)
      requires Conserved() && Interested()
      modifies `queue, `wire, `interest, `closed
      ensures Conserved() && Interested()
      ensures old(closed) ==> closed && !completed && queue == old(queue) && wire == old(wire)
      ensures !old(closed) ==>
                var s := Serve(old(queue), answers);
                && queue == s.queue
                && wire == old(wire) + Flatten(old(queue))[..s.sent]
                && closed == s.failed
                && completed == (s.queue == [])
      ensures completed ==> wire == submitted
      ensures interest == if completed && registered then old(interest) - WRITE_BITS else old(interest)
      ensures completed && registered ==> Out !in interest && EdgeTriggered !in interest
    {
      if closed { return false; }
      ServeConserves(queue, answers);
      if queue == [] {
        EnableWriting(false);
        return true;
      }
      ghost var start, sent := Flatten(queue), Serve(queue, answers).sent;
      TakeMore(wire, start, sent, 0);
      completed := WriteLoop(answers);
    }

    method WriteLoop(answers: seq<Answer>) returns (completed: bool)
      requires !closed && queue != [] && Interested()
      modifies `queue, `wire, `interest, `closed
      ensures Interested()
      ensures var s := Serve(old(queue), answers);
              && queue == s.queue
              && wire == old(wire) + Flatten(old(queue))[..s.sent]
              && closed == s.failed
              && completed == (s.queue == [])
      ensures interest == if completed && registered then old(interest) - WRITE_BITS else old(interest)
    {
      hide Along;
      hide Flatten;
      hide Trim;
      hide Serve;
      AlongStart(queue, wire, answers);
      ghost var sent := 0;
      var i := 0;
      while true
        invariant 0 <= i <= |answers| && !closed && queue != [] && Interested() && interest == old(interest)
        invariant Along(old(queue), old(wire), answers, i, queue, wire, sent)
        decreases |answers| - i
      {
        if i == |answers| || !answers[i].Wrote? {
          AlongEnd(old(queue), old(wire), answers, i, queue, wire, sent);
          if i < |answers| && answers[i].Failed? { OnClose(); }
          return false;
        }
        var n := Min(answers[i].n, |Flatten(queue)|);
        AlongStep(old(queue), old(wire), answers, i, queue, wire, sent);
        wire := wire + Flatten(queue)[..n];
        TrimQueue(n);
        sent := sent + n;
        i := i + 1;
        if queue == [] {
          AlongEnd(old(queue), old(wire), answers, i, queue, wire, sent);
          EnableWriting(false);
          return true;
        }
      }
    }

    /** The trimming loop. */
    method TrimQueue(n: nat)
      requires n <= |Flatten(queue)|
      modifies `queue
      ensures queue == Trim(old(queue), n)
    {
      var ret: nat := n;
      while ret > 0
        invariant ret <= |Flatten(queue)|
        invariant Trim(queue, ret) == Trim(old(queue), n)
        decreases |queue|
      {
        if |queue[0]| > ret {
          queue := [queue[0][ret..]] + queue[1..];
          return;
        } else {
          ret := ret - |queue[0]|;
          queue := queue[1..];
        }
      }
    }

    /** SendInLoop for a list of buffers: they are queued, never written at once. */
    method SendList(nodes: seq<seq<byte>>)
      requires Valid()
      modifies `queue, `interest, `submitted
      ensures Valid()
      ensures old(closed) ==> queue == old(queue) && submitted == old(submitted)
      ensures !old(closed) ==> queue == old(queue) + nodes && submitted == old(submitted) + Flatten(nodes)
    {
      hide MsgBuffer.Window;
      hide Settled;
      hide Flatten;
      if closed { return; }
      FlattenAppend(queue, nodes);
      assert wire + (Flatten(queue) + Flatten(nodes)) == (wire + Flatten(queue)) + Flatten(nodes);
      queue := queue + nodes;
      submitted := submitted + Flatten(nodes);
      if queue != [] { EnableWriting(true); }
    }

    /** SendInLoop for one buffer.  `completed` tells whether the write-complete callback ran; it runs for an
        empty buffer even while others wait. */
    method SendBuffer(before: byte, buf: seq<byte>, answer: Answer) returns (completed: bool)
      requires Conserved() && Interested()
      modifies `queue, `wire, `interest, `closed, `submitted
      ensures Interested()
      ensures old(closed) ==>
                closed && !completed && queue == old(queue) && wire == old(wire) && submitted == old(submitted)
      ensures !old(closed) ==>
                var s := Submit(mode, old(queue), before, buf, answer);
                && submitted == old(submitted) + buf
                && queue == s.queue && wire == old(wire) + buf[..s.sent] && closed == s.failed
      ensures !closed ==> (Conserved() <==> mode.Intended? || old(queue) != [] || answer.Wrote?)
      ensures !old(closed) && old(queue) == [] && answer.Wrote? && answer.n <= |buf| ==>
                !closed && wire == old(wire) + buf[..answer.n] && Flatten(queue) == buf[answer.n..]
      ensures !old(closed) && old(queue) == [] && !answer.Wrote? ==>
                && wire == old(wire) && closed == (mode.Intended? && answer.Failed?)
                && (!closed ==> Flatten(queue) == if mode.Intended? then buf else [before] + buf)
      ensures !old(closed) && old(queue) != [] ==>
                !closed && wire == old(wire) && Flatten(queue) == Flatten(old(queue)) + buf
      ensures completed <==> !closed && (if old(queue) == [] then queue == [] else buf == [])
      ensures completed && (buf != [] || old(queue) == []) ==> wire == submitted
    {
      if closed { return false; }
      SubmitByAnswer(mode, queue, before, buf, answer);
      SubmitConservesIff(mode, queue, before, buf, answer);
      BalanceAfterSubmit(wire, queue, submitted, Submit(mode, queue, before, buf, answer), buf);
      submitted := submitted + buf;
      var node := buf;
      if queue == [] {
        if answer.Wrote? {
          var n := Min(answer.n, |buf|);
          wire := wire + buf[..n];
          node := buf[n..];
        } else if mode.AsWritten? {
          node := [before] + buf;
        } else if answer.Failed? {
          OnClose();
          return false;
        }
      }
      if node == [] { return true; }
      queue := queue + [node];
      EnableWriting(true);
      return false;
    }

    /** One successful read and the call of the parser that follows it. */
    method ReadOnce(data: seq<byte>)
      requires buffer.Valid() && Settled(Received()) && |data| <= buffer.Room()
      modifies context, buffer, buffer.buffer
      ensures buffer.Valid() && (buffer.buffer == old(buffer.buffer) || fresh(buffer.buffer))
      ensures Received() == Resume(old(Received()), data) && Settled(Received())
    {
      ParseIsFinal(context.Fields(), buffer.Window() + data);
      hide Parse;
      buffer.ReadFd(data);
      var code := context.ParseMessage(buffer);
    }

    /** OnRead.  `inbox` is what the kernel holds, `sizes` how many bytes it gives per call, at most the room it
        is offered.  After each read the parser runs. */
    method OnRead(inbox: seq<byte>, sizes: seq<nat>, end: ReadEnd) returns (taken: nat)
      requires buffer.Valid() && Settled(Received())
      modifies context, buffer, buffer.buffer, `closed
      ensures buffer.Valid() && (buffer.buffer == old(buffer.buffer) || fresh(buffer.buffer))
      ensures taken <= |inbox| && Settled(Received())
      ensures Received() == Resume(old(Received()), inbox[..taken])
      ensures closed == (old(closed) || !end.NoMoreBytes?)
      ensures old(closed) ==> taken == 0
      ensures !old(closed) && 0 !in sizes ==> taken >= Min(|sizes|, |inbox|)
      ensures !old(closed) && (forall n :: n in sizes ==> 0 < n <= 65536) ==> taken == Min(Total(sizes), |inbox|)
    {
      hide Parse;
      hide Resume;
      hide Settled;
      hide TestContext.Fields;
      hide Total;
      hide MsgBuffer.Window;
      ghost var modest := forall n :: n in sizes ==> 0 < n <= 65536;
      NothingRead(sizes);
      ghost var start := Received();
      ResumeNothing(start);
      taken := 0;
      if closed { return; }
      var i := 0;
      while i < |sizes|
        invariant buffer.Valid() && (buffer.buffer == old(buffer.buffer) || fresh(buffer.buffer))
        invariant taken <= |inbox| && Settled(Received()) && !closed
        invariant Received() == Resume(start, inbox[..taken])
        invariant i <= |sizes| && (0 !in sizes ==> taken >= Min(i, |inbox|))
        invariant modest ==> taken == Min(Total(sizes[..i]), |inbox|)
      {
        if modest {
          assert sizes[i] in sizes;
          ReadSoFar(sizes, i, taken, |inbox|, buffer.Room());
        }
        var n := Min(sizes[i], Min(|inbox| - taken, buffer.Room()));
        if n == 0 { break; }
        var data := inbox[taken..taken + n];
        assert inbox[..taken] + data == inbox[..taken + n];
        ResumeTwice(start, inbox[..taken], data);
        ReadOnce(data);
        taken := taken + n;
        i := i + 1;
      }
      if !end.NoMoreBytes? { OnClose(); }
    }
  }
}
