/** Messages from one connection to another: framed, queued, written in parts, read in parts, parsed. */
module EndToEnd {
  import opened Buffers
  import opened Bytes
  import opened Framing
  import opened Modes
  import opened SendQueue
  import opened Tcp

  /** What may happen next: a message is sent with two calls, as the client test does; the loop finds the sender
      writable; the sender closes for any other reason than a failing write: its peer's end, an error, by force, for
      idleness; the loop finds the receiver readable. */
  datatype Step =
    | Send(message: seq<byte>, header: Answer, body: Answer)
    | Writable(answers: seq<Answer>)
    | CloseSender
    | Readable(sizes: seq<nat>, end: ReadEnd)

  /** The code as it stands spoils the stream when `write` fails; with that exception it is covered too. */
  predicate Allowed(mode: Mode, step: Step) {
    step.Send? ==> Sendable(step.message) && (mode.Intended? || (step.header.Wrote? && step.body.Wrote?))
  }

  /** The receiver stays open. */
  predicate KeepsReceiver(step: Step) {
    step.Readable? ==> step.end.NoMoreBytes?
  }

  predicate AllKeepReceiver(steps: seq<Step>) {
    forall step :: step in steps ==> KeepsReceiver(step)
  }

  /** The receiver reads often enough to take n bytes, even if the kernel gives one at a time. */
  predicate Empties(step: Step, n: nat) {
    step.Readable? && 0 !in step.sizes && |step.sizes| >= n
  }

  function Sends(steps: seq<Step>): seq<seq<byte>> {
    if steps == [] then [] else (if steps[0].Send? then [steps[0].message] else []) + Sends(steps[1..])
  }

  /** The sending side, as far as the steps determine it. */
  datatype Sending = Sending(queue: seq<seq<byte>>, wire: seq<byte>, closed: bool, accepted: seq<seq<byte>>)

  function WithBuffer(mode: Mode, s: Sending, buf: seq<byte>, answer: Answer): Sending {
    if s.closed then s
    else
      var r := Submit(mode, s.queue, 0, buf, answer);
      s.(queue := r.queue, wire := s.wire + buf[..r.sent], closed := r.failed)
  }

  function Sent(mode: Mode, s: Sending, step: Step): Sending
    requires Allowed(mode, step)
  {
    if s.closed then s
    else
      match step
      case Send(m, h, b) =>
        WithBuffer(mode, WithBuffer(mode, s.(accepted := s.accepted + [m]), EncodeInt(|m|, HEADER), h), m, b)
      case Writable(answers) =>
        var r := Serve(s.queue, answers);
        s.(queue := r.queue, wire := s.wire + Flatten(s.queue)[..r.sent], closed := r.failed)
      case CloseSender => s.(closed := true)
      case Readable(_, _) => s
  }

  function SentAll(mode: Mode, steps: seq<Step>): Sending
    requires forall step :: step in steps ==> Allowed(mode, step)
  {
    if steps == [] then Sending([], [], false, [])
    else Sent(mode, SentAll(mode, steps[..|steps| - 1]), steps[|steps| - 1])
  }

  lemma NothingSent(mode: Mode)
    ensures SentAll(mode, []) == Sending([], [], false, [])
  {
  }

  lemma SentOneMore(mode: Mode, steps: seq<Step>, i: nat)
    requires i < |steps| && forall step :: step in steps ==> Allowed(mode, step)
    ensures SentAll(mode, steps[..i + 1]) == Sent(mode, SentAll(mode, steps[..i]), steps[i])
  {
    assert steps[..i + 1][..i] == steps[..i];
  }

  lemma {:induction false} SendsAppend(steps: seq<Step>, i: nat)
    requires i < |steps|
    ensures Sends(steps[..i + 1]) == Sends(steps[..i]) + if steps[i].Send? then [steps[i].message] else []
    ensures Sends(steps[..i + 1]) <= Sends(steps)
  {
    if i == 0 {
      assert steps[..1] == [steps[0]] && steps[..0] == [];
      assert Sends(steps[..1][1..]) == [];
    } else {
      assert steps[..i + 1][1..] == steps[1..][..i] && steps[..i][1..] == steps[1..][..i - 1];
      SendsAppend(steps[1..], i - 1);
    }
  }

  lemma MoreArrived(wire: seq<byte>, given: nat, inbox: seq<byte>, taken: nat)
    requires given <= |wire| && inbox == wire[given..] && taken <= |inbox|
    ensures Parse(IDLE, wire[..given + taken]) == Resume(Parse(IDLE, wire[..given]), inbox[..taken])
  {
    hide Parse;
    hide Resume;
    assert wire[given..][..taken] == wire[given..given + taken];
    assert wire[..given] + wire[given..given + taken] == wire[..given + taken];
    SplitInvariant(IDLE, wire[..given], wire[given..][..taken]);
  }

  class Session {
    const sender: TcpConnection
    const receiver: TcpConnection
    /** How many of the bytes taken from the sender the kernel has given to the receiver. */
    var given: nat
    var messages: seq<seq<byte>>

    ghost predicate Valid()
      reads this, sender, receiver, receiver.context, receiver.buffer, receiver.buffer.buffer
    {
      && sender != receiver
      && sender.Interested()
      && (forall m :: m in messages ==> Sendable(m))
      && sender.wire <= Frames(messages)
      && (!sender.closed ==> sender.wire + Flatten(sender.queue) == sender.submitted == Frames(messages))
      && given <= |sender.wire|
      && receiver.buffer.Valid()
      && receiver.Received() == Parse(IDLE, sender.wire[..given])
    }

    ghost function Sender(): Sending
      reads this, sender
    {
      Sending(sender.queue, sender.wire, sender.closed, messages)
    }

    ghost predicate Drained()
      reads this, sender
    {
      !sender.closed && sender.queue == [] && given == |sender.wire|
    }

    constructor (mode: Mode)
      ensures Valid() && fresh(sender) && fresh(receiver) && sender.mode == mode && given == 0
      ensures !receiver.closed
      ensures Sender() == Sending([], [], false, [])
      ensures fresh(receiver.context) && fresh(receiver.buffer) && fresh(receiver.buffer.buffer)
    {
      sender := new TcpConnection(mode, true, true);
      receiver := new TcpConnection(mode, true, true);
      given, messages := 0, [];
    }

    /** In every state that can be reached, the messages delivered are a prefix of the messages sent, in order.
        They are all of them once all their bytes arrived, even from a sender that closed since, and the last message
        is not empty; an empty one at the end waits for the next byte. */
    lemma DeliveredInOrder()
      requires Valid()
      ensures given <= |sender.wire| && receiver.context.delivered == Parse(IDLE, sender.wire[..given]).out
      ensures receiver.context.delivered <= messages && forall m :: m in messages ==> Sendable(m)
      ensures Drained() ==> given == |Frames(messages)|
      ensures given == |Frames(messages)| ==>
                receiver.context.delivered
                == if messages == [] || messages[|messages| - 1] != [] then messages else messages[..|messages| - 1]
    {
      var stream := Frames(messages);
      var arrived := sender.wire[..given];
      assert stream == arrived + stream[given..];
      DeliveredIsPrefix(messages, arrived, stream[given..]);
      if Drained() { assert Flatten(sender.queue) == [] && sender.wire + [] == sender.wire; }
      if given == |stream| {
        assert arrived == stream;
        FramesRoundTrip(messages);
      }
    }

    method SendMessage(message: seq<byte>, header: Answer, body: Answer)
      requires Valid() && Sendable(message)
      requires sender.mode.Intended? || (header.Wrote? && body.Wrote?)
      modifies this, sender
      ensures Valid() && given == old(given)
      ensures Sender() == Sent(sender.mode, old(Sender()), Send(message, header, body))
    {
      hide Frames;
      hide Parse;
      hide Submit;
      hide Flatten;
      hide EncodeInt;
      hide TestContext.Fields;
      hide MsgBuffer.Window;
      ghost var stream := Frames(messages);
      FramesAppend(messages, message);
      if !sender.closed { messages := messages + [message]; }
      ghost var wire := sender.wire;
      var done := sender.SendBuffer(0, EncodeInt(|message|, HEADER), header);
      done := sender.SendBuffer(0, message, body);
      assert stream + EncodeInt(|message|, HEADER) + message == stream + Frame(message);
      assert sender.wire[..given] == wire[..given];
    }

    method SenderWritable(answers: seq<Answer>)
      requires Valid()
      modifies sender
      ensures Valid() && given == old(given)
      ensures Sender() == Sent(sender.mode, old(Sender()), Writable(answers))
    {
      hide Frames;
      hide Parse;
      hide Flatten;
      hide Serve;
      ghost var wire := sender.wire;
      var done := sender.OnWrite(answers);
      assert sender.wire[..given] == wire[..given];
    }

    /** The sender's OnClose outside its write loop.  What the kernel has taken still arrives. */
    method SenderCloses()
      requires Valid()
      modifies sender
      ensures Valid() && given == old(given)
      ensures Sender() == Sent(sender.mode, old(Sender()), CloseSender)
    {
      sender.OnClose();
    }

    method ReceiverReadable(sizes: seq<nat>, end: ReadEnd)
      requires Valid()
      modifies this, receiver, receiver.context, receiver.buffer, receiver.buffer.buffer
      ensures Valid() && Sender() == old(Sender())
      ensures old(given) <= given
      ensures receiver.closed == (old(receiver.closed) || !end.NoMoreBytes?)
      ensures !old(receiver.closed) && 0 !in sizes ==> given >= Min(old(given) + |sizes|, |sender.wire|)
      ensures !old(receiver.closed) && (forall n :: n in sizes ==> 0 < n <= 65536) ==>
                given == Min(old(given) + Total(sizes), |sender.wire|)
      ensures receiver.buffer.buffer == old(receiver.buffer.buffer) || fresh(receiver.buffer.buffer)
    {
      hide Frames;
      hide Parse;
      hide Flatten;
      hide Resume;
      hide Settled;
      hide TestContext.Fields;
      hide MsgBuffer.Window;
      ParseSettles(IDLE, sender.wire[..given]);
      var inbox := sender.wire[given..];
      var taken := receiver.OnRead(inbox, sizes, end);
      MoreArrived(sender.wire, given, inbox, taken);
      given := given + taken;
    }

    method Take(step: Step)
      requires Valid()
      requires Allowed(sender.mode, step)
      modifies this, sender, receiver, receiver.context, receiver.buffer, receiver.buffer.buffer
      ensures Valid()
      ensures receiver.buffer.buffer == old(receiver.buffer.buffer) || fresh(receiver.buffer.buffer)
      ensures Sender() == Sent(sender.mode, old(Sender()), step)
      ensures receiver.closed == (old(receiver.closed) || !KeepsReceiver(step))
      ensures Empties(step, |sender.wire|) && !old(receiver.closed) ==> given == |sender.wire|
    {
      match step
      case Send(m, h, b) => SendMessage(m, h, b);
      case Writable(answers) => SenderWritable(answers);
      case CloseSender => SenderCloses();
      case Readable(sizes, end) => ReceiverReadable(sizes, end);
    }
  }

  /** The messages accepted are the first of those sent, and all of them while the sender is open. */
  lemma {:induction false} AcceptedAreFirst(mode: Mode, steps: seq<Step>, i: nat)
    requires forall step :: step in steps ==> Allowed(mode, step)
    requires i <= |steps|
    ensures var s := SentAll(mode, steps[..i]);
            s.accepted <= Sends(steps) && (!s.closed ==> s.accepted == Sends(steps[..i]))
    decreases i
  {
    if i > 0 {
      AcceptedAreFirst(mode, steps, i - 1);
      SendsAppend(steps, i - 1);
      assert steps[..i][..i - 1] == steps[..i - 1];
      assert steps[..i][|steps[..i]| - 1] == steps[i - 1];
    }
  }

  lemma AcceptedInAll(mode: Mode, steps: seq<Step>)
    requires forall step :: step in steps ==> Allowed(mode, step)
    ensures steps[..|steps|] == steps
    ensures var s := SentAll(mode, steps); s.accepted <= Sends(steps) && (!s.closed ==> s.accepted == Sends(steps))
  {
    assert steps[..|steps|] == steps;
    AcceptedAreFirst(mode, steps, |steps|);
  }

  lemma BufferIsAdded(mode: Mode, s: Sending, buf: seq<byte>, answer: Answer, total: seq<byte>)
    requires mode.Intended? || answer.Wrote?
    requires !s.closed ==> s.wire + Flatten(s.queue) == total
    ensures var r := WithBuffer(mode, s, buf, answer);
            r.accepted == s.accepted && (!r.closed ==> !s.closed && r.wire + Flatten(r.queue) == total + buf)
  {
    hide Flatten;
    hide Submit;
    if !s.closed {
      var r := Submit(mode, s.queue, 0, buf, answer);
      SubmitConservesIff(mode, s.queue, 0, buf, answer);
      BalanceAfterSubmit(s.wire, s.queue, total, r, buf);
    }
  }

  lemma SentStepIsFramed(mode: Mode, s: Sending, step: Step)
    requires Allowed(mode, step) && forall m :: m in s.accepted ==> Sendable(m)
    requires !s.closed ==> s.wire + Flatten(s.queue) == Frames(s.accepted)
    ensures var r := Sent(mode, s, step);
            && (forall m :: m in r.accepted ==> Sendable(m))
            && (!r.closed ==> r.wire + Flatten(r.queue) == Frames(r.accepted))
  {
    hide Flatten;
    hide WithBuffer;
    hide Frames;
    hide Serve;
    if !s.closed {
      match step
      case Send(m, h, b) =>
        var stream, header := Frames(s.accepted), EncodeInt(|m|, HEADER);
        var begun := s.(accepted := s.accepted + [m]);
        BufferIsAdded(mode, begun, header, h, stream);
        BufferIsAdded(mode, WithBuffer(mode, begun, header, h), m, b, stream + header);
        FramesAppend(s.accepted, m);
        assert stream + header + m == stream + Frame(m);
      case Writable(answers) =>
        var sent, all := Serve(s.queue, answers).sent, Flatten(s.queue);
        ServeConserves(s.queue, answers);
        assert s.wire + all[..sent] + all[sent..] == s.wire + all;
      case _ =>
    }
  }

  /** Taken by the kernel or still queued: while the sender is open its bytes are the frames of the messages. */
  lemma {:induction false} SentIsFramed(mode: Mode, steps: seq<Step>)
    requires forall step :: step in steps ==> Allowed(mode, step)
    ensures var s := SentAll(mode, steps);
            && (forall m :: m in s.accepted ==> Sendable(m))
            && (!s.closed ==> s.wire + Flatten(s.queue) == Frames(s.accepted))
  {
    if steps != [] {
      var step := steps[|steps| - 1];
      SentIsFramed(mode, steps[..|steps| - 1]);
      SentStepIsFramed(mode, SentAll(mode, steps[..|steps| - 1]), step);
    }
  }

  /** A connection only queues what is not empty, so its queue can always be finished. */
  lemma {:induction false} QueueHasNoEmptyNode(mode: Mode, steps: seq<Step>)
    requires forall step :: step in steps ==> Allowed(mode, step)
    ensures NoEmptyNode(SentAll(mode, steps).queue)
  {
    if steps != [] {
      var s, step := SentAll(mode, steps[..|steps| - 1]), steps[|steps| - 1];
      QueueHasNoEmptyNode(mode, steps[..|steps| - 1]);
      if step.Writable? { ServeKeepsNodes(s.queue, step.answers); }
    }
  }

  /** When the loop finds an open sender writable, the kernel gets as many of the waiting bytes as it takes, in order;
      if it takes them all, every byte of every message is with the kernel and the queue is empty. */
  lemma WritableMakesProgress(mode: Mode, steps: seq<Step>, answers: seq<Answer>)
    requires forall step :: step in steps ==> Allowed(mode, step)
    requires !SentAll(mode, steps).closed && AllWrote(answers)
    ensures forall m :: m in Sends(steps) ==> Sendable(m)
    ensures var w, v := SentAll(mode, steps), SentAll(mode, steps + [Writable(answers)]);
            var n := Min(Offered(answers), |Flatten(w.queue)|);
            && !v.closed && v.wire == w.wire + Flatten(w.queue)[..n] && Flatten(v.queue) == Flatten(w.queue)[n..]
            && (Offered(answers) >= |Flatten(w.queue)| ==> v.queue == [] && v.wire == Frames(Sends(steps)))
  {
    hide Frames;
    hide Sends;
    hide Serve;
    hide Flatten;
    hide Allowed;
    hide Offered;
    var w := SentAll(mode, steps);
    SentIsFramed(mode, steps);
    AcceptedInAll(mode, steps);
    QueueHasNoEmptyNode(mode, steps);
    if w.queue != [] { assert w.queue[|w.queue| - 1] in w.queue; }
    ServeTakesAllOffered(w.queue, answers);
    assert (steps + [Writable(answers)])[..|steps|] == steps;
    assert Flatten(w.queue)[..|Flatten(w.queue)|] == Flatten(w.queue);
  }

  /** What the other steps do to the sender: closing closes it, reading leaves it alone, and once it is closed nothing
      changes any more. */
  lemma SenderAfterStep(mode: Mode, steps: seq<Step>, step: Step)
    requires (forall s :: s in steps ==> Allowed(mode, s)) && Allowed(mode, step)
    ensures var w, v := SentAll(mode, steps), SentAll(mode, steps + [step]);
            && (step.CloseSender? ==> v == w.(closed := true))
            && (step.Readable? || w.closed ==> v == w)
            && (step.Send? && !w.closed ==> v.accepted == w.accepted + [step.message])
  {
    assert (steps + [step])[..|steps|] == steps;
  }

  /** A sender that closes while nothing is queued has given the kernel every byte of every message. */
  lemma ClosingIdleLosesNothing(mode: Mode, steps: seq<Step>)
    requires forall step :: step in steps ==> Allowed(mode, step)
    requires !SentAll(mode, steps).closed && SentAll(mode, steps).queue == []
    ensures (forall m :: m in Sends(steps) ==> Sendable(m))
    ensures var s := SentAll(mode, steps + [CloseSender]); s.closed && s.wire == Frames(Sends(steps))
  {
    var s := SentAll(mode, steps);
    SentIsFramed(mode, steps);
    AcceptedInAll(mode, steps);
    assert (steps + [CloseSender])[..|steps|] == steps;
    assert Flatten(s.queue) == [] && s.wire + [] == s.wire;
  }

  /** Whole runs.  Whatever is sent, however the kernel cuts the writes and the reads, and whenever an end closes:
      the sending side is what the steps make of it; the messages accepted are the first of those sent, all of
      them while the sender is open; those delivered are what the parser makes of the bytes that arrived, the
      first of those accepted; a receiver that reads enough at the end gets all there is; when everything is drained,
      all bytes of the accepted messages arrived; and once they did, whether or not the sender closed since, only an
      empty message at the very end waits. */
  method Exchange(mode: Mode, steps: seq<Step>)
    returns (accepted: seq<seq<byte>>, delivered: seq<seq<byte>>, open: bool, arrived: nat, drained: bool)
    requires forall step :: step in steps ==> Allowed(mode, step)
    ensures var s := SentAll(mode, steps);
            && accepted == s.accepted && open == !s.closed
            && arrived <= |s.wire| && delivered == Parse(IDLE, s.wire[..arrived]).out
            && drained == (open && s.queue == [] && arrived == |s.wire|)
    ensures steps != [] && Empties(steps[|steps| - 1], |SentAll(mode, steps).wire|) && AllKeepReceiver(steps) ==>
              arrived == |SentAll(mode, steps).wire|
    ensures delivered <= accepted <= Sends(steps) && forall m :: m in accepted ==> Sendable(m)
    ensures open ==> accepted == Sends(steps)
    ensures drained ==> arrived == |Frames(accepted)|
    ensures arrived == |Frames(accepted)| ==>
              delivered == if accepted == [] || accepted[|accepted| - 1] != [] then accepted
                           else accepted[..|accepted| - 1]
  {
    hide Session.Valid;
    hide Frames;
    hide Parse;
    hide Flatten;
    hide Sent;
    hide SentAll;
    hide Sends;
    hide Allowed;
    hide Submit;
    NothingSent(mode);
    var session := new Session(mode);
    var i := 0;
    while i < |steps|
      invariant 0 <= i <= |steps|
      invariant fresh(session) && fresh(session.sender) && fresh(session.receiver) && fresh(session.receiver.context)
      invariant fresh(session.receiver.buffer) && fresh(session.receiver.buffer.buffer)
      invariant session.Valid() && session.sender.mode == mode
      invariant session.Sender() == SentAll(mode, steps[..i])
      invariant AllKeepReceiver(steps) ==> !session.receiver.closed
      invariant i > 0 && Empties(steps[i - 1], |session.sender.wire|) && AllKeepReceiver(steps) ==>
                  session.given == |session.sender.wire|
    {
      assert steps[i] in steps;
      SentOneMore(mode, steps, i);
      session.Take(steps[i]);
      i := i + 1;
    }
    AcceptedInAll(mode, steps);
    session.DeliveredInOrder();
    accepted, delivered := session.messages, session.receiver.context.delivered;
    open, arrived := !session.sender.closed, session.given;
    drained := open && session.sender.queue == [] && session.given == |session.sender.wire|;
  }
}
