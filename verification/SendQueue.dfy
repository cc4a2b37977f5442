/** The queue of buffers waiting to be written: what a partial write leaves of it, and what any run of kernel
    answers does to it. */
module SendQueue {
  import opened Bytes
  import opened Modes

  function Flatten(q: seq<seq<byte>>): seq<byte> {
    if q == [] then [] else q[0] + Flatten(q[1..])
  }

  /** The queue after the kernel took n bytes: whole nodes go, and the node the write stopped in is shortened.
      A node of length 0 at the front stays when no byte is left to account for. */
  function Trim(q: seq<seq<byte>>, n: nat): (r: seq<seq<byte>>)
    requires n <= |Flatten(q)|
    decreases |q|
  {
    if n == 0 then q
    else if |q[0]| > n then [q[0][n..]] + q[1..]
    else Trim(q[1..], n - |q[0]|)
  }

  lemma {:induction false} TrimRemoves(q: seq<seq<byte>>, n: nat)
    requires n <= |Flatten(q)|
    ensures Flatten(Trim(q, n)) == Flatten(q)[n..]
    decreases |q|
  {
    if n > 0 {
      if |q[0]| > n {
        assert ([q[0][n..]] + q[1..])[1..] == q[1..];
      } else {
        TrimRemoves(q[1..], n - |q[0]|);
      }
    }
  }

  lemma {:induction false} FlattenAppend(p: seq<seq<byte>>, q: seq<seq<byte>>)
    ensures Flatten(p + q) == Flatten(p) + Flatten(q)
    decreases |p|
  {
    if p == [] {
      assert p + q == q;
    } else {
      assert (p + q)[1..] == p[1..] + q;
      FlattenAppend(p[1..], q);
    }
  }

  /** What write or writev may answer: a number of bytes taken, at most those offered, or an error. */
  datatype Answer = Wrote(n: nat) | WouldBlock | Failed

  datatype Served = Served(queue: seq<seq<byte>>, sent: nat, failed: bool)

  function Min(x: nat, y: nat): (m: nat)
    ensures m <= x && m <= y && (m == x || m == y)
  {
    if x < y then x else y
  }

  /** The write loop against a list of answers; when they run out the kernel would block. */
  function Serve(q: seq<seq<byte>>, answers: seq<Answer>): (s: Served)
    ensures s.sent <= |Flatten(q)|
    decreases |answers|
  {
    if q == [] || answers == [] then Served(q, 0, false)
    else
      match answers[0]
      case WouldBlock => Served(q, 0, false)
      case Failed => Served(q, 0, true)
      case Wrote(k) =>
        var n := Min(k, |Flatten(q)|);
        TrimRemoves(q, n);
        var s := Serve(Trim(q, n), answers[1..]);
        s.(sent := n + s.sent)
  }

  /** Whatever the kernel answers, bytes leave the queue from the front and none is lost or repeated. */
  lemma {:induction false} ServeConserves(q: seq<seq<byte>>, answers: seq<Answer>)
    ensures var s := Serve(q, answers);
            Flatten(s.queue) == Flatten(q)[s.sent..]
    decreases |answers|
  {
    if q != [] && answers != [] && answers[0].Wrote? {
      var n := Min(answers[0].n, |Flatten(q)|);
      TrimRemoves(q, n);
      ServeConserves(Trim(q, n), answers[1..]);
    }
  }

  lemma ServeStep(q: seq<seq<byte>>, answers: seq<Answer>, i: nat)
    requires i <= |answers|
    ensures q == [] || i == |answers| || answers[i].WouldBlock? ==> Serve(q, answers[i..]) == Served(q, 0, false)
    ensures q != [] && i < |answers| && answers[i].Failed? ==> Serve(q, answers[i..]) == Served(q, 0, true)
    ensures q != [] && i < |answers| && answers[i].Wrote? ==>
              var n := Min(answers[i].n, |Flatten(q)|);
              var s := Serve(Trim(q, n), answers[i + 1..]);
              Serve(q, answers[i..]) == s.(sent := n + s.sent) && Flatten(Trim(q, n)) == Flatten(q)[n..]
  {
    if i < |answers| {
      assert answers[i..][0] == answers[i] && answers[i..][1..] == answers[i + 1..];
      TrimRemoves(q, Min(if answers[i].Wrote? then answers[i].n else 0, |Flatten(q)|));
    }
  }

  /** Splitting off some more bytes at the front of what is left keeps the whole. */
  lemma TakeMore(taken: seq<byte>, s: seq<byte>, n: nat, more: nat)
    requires n + more <= |s|
    ensures taken + s[..n] + s[n..][..more] == taken + s[..n + more]
    ensures s[n..][more..] == s[n + more..]
    ensures taken + s[..n + more] + s[n + more..] == taken + s
  {
  }

  /** The write loop has used i answers: q is left, and w is what the kernel had (w0) and the `sent` bytes of
      the stream it took since. */
  ghost predicate Along(q0: seq<seq<byte>>, w0: seq<byte>, answers: seq<Answer>, i: nat,
                        q: seq<seq<byte>>, w: seq<byte>, sent: nat)
  {
    && i <= |answers|
    && sent <= |Flatten(q0)|
    && Flatten(q) == Flatten(q0)[sent..]
    && w == w0 + Flatten(q0)[..sent]
    && Serve(q0, answers).queue == Serve(q, answers[i..]).queue
    && Serve(q0, answers).failed == Serve(q, answers[i..]).failed
    && Serve(q0, answers).sent == sent + Serve(q, answers[i..]).sent
  }

  lemma AlongStart(q: seq<seq<byte>>, w: seq<byte>, answers: seq<Answer>)
    ensures Along(q, w, answers, 0, q, w, 0)
  {
  }

  lemma AlongStep(q0: seq<seq<byte>>, w0: seq<byte>, answers: seq<Answer>, i: nat,
                  q: seq<seq<byte>>, w: seq<byte>, sent: nat)
    requires Along(q0, w0, answers, i, q, w, sent) && q != [] && i < |answers| && answers[i].Wrote?
    ensures var n := Min(answers[i].n, |Flatten(q)|);
            Along(q0, w0, answers, i + 1, Trim(q, n), w + Flatten(q)[..n], sent + n)
  {
    hide Flatten;
    hide Trim;
    hide Serve;
    var stream, n := Flatten(q0), Min(answers[i].n, |Flatten(q)|);
    ServeStep(q, answers, i);
    TakeMore(w0, stream, sent, n);
  }

  lemma AlongEnd(q0: seq<seq<byte>>, w0: seq<byte>, answers: seq<Answer>, i: nat,
                 q: seq<seq<byte>>, w: seq<byte>, sent: nat)
    requires Along(q0, w0, answers, i, q, w, sent)
    requires q == [] || i == |answers| || !answers[i].Wrote?
    ensures var s := Serve(q0, answers);
            && s.queue == q && w == w0 + Flatten(q0)[..s.sent]
            && s.failed == (q != [] && i < |answers| && answers[i].Failed?)
  {
  }

  predicate EndsInEmptyNode(q: seq<seq<byte>>) {
    q != [] && q[|q| - 1] == []
  }

  lemma {:induction false} TrimKeepsEmptyEnd(q: seq<seq<byte>>, n: nat)
    requires n <= |Flatten(q)| && EndsInEmptyNode(q)
    ensures EndsInEmptyNode(Trim(q, n))
    decreases |q|
  {
    assert Flatten(q) == q[0] + Flatten(q[1..]);
    if n > 0 {
      assert |q| > 1;
      if |q[0]| <= n {
        TrimKeepsEmptyEnd(q[1..], n - |q[0]|);
      }
    }
  }

  lemma {:induction false} EmptyEndIsNeverServed(q: seq<seq<byte>>, answers: seq<Answer>)
    requires EndsInEmptyNode(q)
    ensures EndsInEmptyNode(Serve(q, answers).queue)
    decreases |answers|
  {
    if answers != [] && answers[0].Wrote? {
      var n := Min(answers[0].n, |Flatten(q)|);
      TrimKeepsEmptyEnd(q, n);
      EmptyEndIsNeverServed(Trim(q, n), answers[1..]);
    }
  }

  lemma {:induction false} LastByteCounts(q: seq<seq<byte>>)
    requires q != [] && q[|q| - 1] != []
    ensures Flatten(q) != []
    decreases |q|
  {
    if |q| > 1 { LastByteCounts(q[1..]); }
  }

  lemma {:induction false} TrimAll(q: seq<seq<byte>>)
    requires q == [] || q[|q| - 1] != []
    ensures Trim(q, |Flatten(q)|) == []
    decreases |q|
  {
    if q != [] {
      if |q| == 1 {
        assert Flatten(q) == q[0] + Flatten(q[1..]) && q[1..] == [];
      } else {
        TrimAll(q[1..]);
        if Flatten(q) == [] { LastByteCounts(q); }
      }
    }
  }

  ghost predicate NoEmptyNode(q: seq<seq<byte>>) {
    forall node :: node in q ==> node != []
  }

  lemma {:induction false} TrimKeepsNodes(q: seq<seq<byte>>, n: nat)
    requires n <= |Flatten(q)| && NoEmptyNode(q)
    ensures NoEmptyNode(Trim(q, n))
    decreases |q|
  {
    if n > 0 {
      assert q[0] in q && forall node :: node in q[1..] ==> node in q;
      if |q[0]| <= n { TrimKeepsNodes(q[1..], n - |q[0]|); }
    }
  }

  lemma {:induction false} ServeKeepsNodes(q: seq<seq<byte>>, answers: seq<Answer>)
    requires NoEmptyNode(q)
    ensures NoEmptyNode(Serve(q, answers).queue)
    decreases |answers|
  {
    if q != [] && answers != [] && answers[0].Wrote? {
      var n := Min(answers[0].n, |Flatten(q)|);
      TrimKeepsNodes(q, n);
      ServeKeepsNodes(Trim(q, n), answers[1..]);
    }
  }

  predicate AllWrote(answers: seq<Answer>) {
    forall answer :: answer in answers ==> answer.Wrote?
  }

  /** What the kernel is ready to take in all. */
  function Offered(answers: seq<Answer>): nat
    requires AllWrote(answers)
  {
    if answers == [] then 0
    else
      assert answers[0] in answers && forall answer :: answer in answers[1..] ==> answer in answers;
      answers[0].n + Offered(answers[1..])
  }

  lemma {:induction false} TrimKeepsEnd(q: seq<seq<byte>>, n: nat)
    requires q != [] && q[|q| - 1] != [] && n < |Flatten(q)|
    ensures var r := Trim(q, n); r != [] && r[|r| - 1] != []
    decreases |q|
  {
    assert Flatten(q) == q[0] + Flatten(q[1..]);
    if n > 0 && |q[0]| <= n {
      TrimKeepsEnd(q[1..], n - |q[0]|);
    }
  }

  /** The loop writes as much as the kernel takes, up to all there is; and it finishes a queue that does not end in an
      empty node as soon as all of it is taken. */
  lemma {:induction false} ServeTakesAllOffered(q: seq<seq<byte>>, answers: seq<Answer>)
    requires AllWrote(answers)
    ensures var s := Serve(q, answers);
            && !s.failed && s.sent == Min(Offered(answers), |Flatten(q)|)
            && Flatten(s.queue) == Flatten(q)[s.sent..]
            && (!EndsInEmptyNode(q) && Offered(answers) >= |Flatten(q)| ==> s.queue == [])
    decreases |answers|
  {
    ServeConserves(q, answers);
    if q != [] && answers != [] {
      assert answers[0] in answers && forall answer :: answer in answers[1..] ==> answer in answers;
      var n := Min(answers[0].n, |Flatten(q)|);
      TrimRemoves(q, n);
      ServeTakesAllOffered(Trim(q, n), answers[1..]);
      if q[|q| - 1] != [] {
        if n < |Flatten(q)| { TrimKeepsEnd(q, n); } else { TrimAll(q); }
      }
    } else if q != [] && q[|q| - 1] != [] {
      LastByteCounts(q);
    }
  }

  /** The loop stops at the first answer that is not a number of bytes, if there is still something to write, and it
      fails exactly if that answer is an error. */
  lemma {:induction false} ServeStopsAt(q: seq<seq<byte>>, first: seq<Answer>, answer: Answer, later: seq<Answer>)
    requires AllWrote(first) && Offered(first) < |Flatten(q)| && !answer.Wrote?
    ensures var s := Serve(q, first + [answer] + later);
            && s.sent == Offered(first) && s.failed == answer.Failed?
            && Flatten(s.queue) == Flatten(q)[Offered(first)..]
    decreases |first|
  {
    var answers := first + [answer] + later;
    ServeConserves(q, answers);
    if first == [] {
      assert answers[0] == answer;
    } else {
      assert first[0] in first && forall a :: a in first[1..] ==> a in first;
      assert answers[0] == first[0] && answers[1..] == first[1..] + [answer] + later;
      TrimRemoves(q, first[0].n);
      ServeStopsAt(Trim(q, first[0].n), first[1..], answer, later);
    }
  }

  /** The write loop can finish a queue if and only if its last node is not empty. */
  lemma DrainsIff(q: seq<seq<byte>>)
    ensures (exists answers :: Serve(q, answers).queue == []) <==> !EndsInEmptyNode(q)
  {
    if EndsInEmptyNode(q) {
      forall answers ensures Serve(q, answers).queue != [] {
        EmptyEndIsNeverServed(q, answers);
      }
    } else {
      TrimAll(q);
      var answers := [Wrote(|Flatten(q)|)];
      assert Serve(Trim(q, |Flatten(q)|), answers[1..]) == Served([], 0, false);
      assert Serve(q, answers).queue == [];
    }
  }

  // ---------- One buffer handed in ----------

  /** SendInLoop for one buffer: written at once if nothing waits; what is left over is queued.  `before` is the
      byte that lies in memory just before the buffer: in the code as it stands an error of `write` becomes the
      largest size_t, so the node queued starts one byte early and the connection stays open. */
  function Submit(mode: Mode, q: seq<seq<byte>>, before: byte, buf: seq<byte>, answer: Answer): (s: Served)
    ensures s.sent <= |buf| && (q != [] || s.failed ==> s.sent == 0)
  {
    if q != [] then Served(if buf == [] then q else q + [buf], 0, false)
    else
      match answer
      case Wrote(k) =>
        var n := Min(k, |buf|);
        Served(if n == |buf| then [] else [buf[n..]], n, false)
      case _ =>
        if mode.AsWritten? then Served([[before] + buf], 0, false)
        else if answer.Failed? then Served([], 0, true)
        else Served(if buf == [] then [] else [buf], 0, false)
  }

  lemma FlattenOne(node: seq<byte>)
    ensures Flatten([node]) == node
  {
  }

  /** What becomes of a buffer, answer by answer.  Into an empty queue: of k bytes the kernel takes the first k, and the
      rest is queued; as meant an error closes and a full socket queues everything; as written either queues the buffer
      with the byte before it.  Behind waiting bytes nothing is written. */
  lemma SubmitByAnswer(mode: Mode, q: seq<seq<byte>>, before: byte, buf: seq<byte>, answer: Answer)
    ensures var s := Submit(mode, q, before, buf, answer);
            if q != [] then s.sent == 0 && !s.failed && Flatten(s.queue) == Flatten(q) + buf
            else if answer.Wrote? then
              !s.failed && (answer.n <= |buf| ==> s.sent == answer.n && Flatten(s.queue) == buf[answer.n..])
            else if mode.AsWritten? then s.sent == 0 && !s.failed && Flatten(s.queue) == [before] + buf
            else s.sent == 0 && (if answer.Failed? then s.failed else !s.failed && Flatten(s.queue) == buf)
  {
    FlattenAppend(q, [buf]);
    FlattenOne(buf);
    FlattenOne([before] + buf);
    if answer.Wrote? && answer.n <= |buf| { FlattenOne(buf[answer.n..]); }
    assert Flatten(q) + [] == Flatten(q);
  }

  /** The bytes written at once and those queued make up what was queued and the buffer, unless `write` failed
      in the code as it stands: then a byte that nobody submitted gets into the stream. */
  lemma SubmitConservesIff(mode: Mode, q: seq<seq<byte>>, before: byte, buf: seq<byte>, answer: Answer)
    ensures var s := Submit(mode, q, before, buf, answer);
            !s.failed ==>
              (buf[..s.sent] + Flatten(s.queue) == Flatten(q) + buf
               <==> mode.Intended? || q != [] || answer.Wrote?)
  {
    var s := Submit(mode, q, before, buf, answer);
    if q != [] {
      FlattenAppend(q, [buf]);
      FlattenOne(buf);
      assert Flatten(q) + [] == Flatten(q);
    } else {
      match answer
      case Wrote(k) =>
        FlattenOne(buf[s.sent..]);
      case _ =>
        FlattenOne(buf);
        FlattenOne([before] + buf);
        assert |[before] + buf| == |buf| + 1;
    }
  }

  lemma SamePrefix(p: seq<byte>, a: seq<byte>, b: seq<byte>)
    ensures p + a == p + b <==> a == b
  {
    assert (p + a)[|p|..] == a && (p + b)[|p|..] == b;
  }

  /** With what the kernel had taken already, the account stays balanced. */
  lemma BalanceAfterSubmit(wire: seq<byte>, q: seq<seq<byte>>, submitted: seq<byte>, s: Served, buf: seq<byte>)
    requires s.sent <= |buf| && (q != [] ==> s.sent == 0) && wire + Flatten(q) == submitted
    ensures wire + buf[..s.sent] + Flatten(s.queue) == submitted + buf
            <==> buf[..s.sent] + Flatten(s.queue) == Flatten(q) + buf
  {
    assert wire + buf[..s.sent] + Flatten(s.queue) == wire + (buf[..s.sent] + Flatten(s.queue));
    assert submitted + buf == wire + (Flatten(q) + buf);
    SamePrefix(wire, buf[..s.sent] + Flatten(s.queue), Flatten(q) + buf);
  }
}
