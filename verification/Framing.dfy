/** Length-prefixed framing as a function on byte sequences: what the parser of TestContext delivers, what it
    leaves unread and in which state, for every input and every way of cutting it up. */
module Framing {
  import opened Bytes

  const HEADER: nat := 4

  datatype State = Header | Body

  /** The fields of the parser.  Without a callback nothing is delivered and bodies pile up in `body`. */
  datatype Context = Context(state: State, length: int, body: seq<byte>, hasCallback: bool)

  const IDLE: Context := Context(Header, 0, [], true)

  /** Final fields, unread bytes, messages handed to the callback. */
  datatype Parsed = Parsed(ctx: Context, rest: seq<byte>, out: seq<seq<byte>>)

  /** A negative length compares as a huge unsigned number: such a body never arrives. */
  predicate BodyArrived(ctx: Context, readable: nat) {
    0 <= ctx.length <= readable
  }

  predicate Incomplete(ctx: Context, bytes: seq<byte>) {
    ctx.state.Body? && bytes != [] && !BodyArrived(ctx, |bytes|)
  }

  function TakeHeader(ctx: Context, bytes: seq<byte>): Context
    requires |bytes| >= HEADER
  {
    ctx.(state := Body, length := DecodeInt(bytes[..HEADER]))
  }

  function TakeBody(ctx: Context, bytes: seq<byte>): Context
    requires BodyArrived(ctx, |bytes|)
  {
    Context(Header, 0, if ctx.hasCallback then [] else ctx.body + bytes[..ctx.length], ctx.hasCallback)
  }

  function Delivery(ctx: Context, bytes: seq<byte>): seq<seq<byte>>
    requires BodyArrived(ctx, |bytes|)
  {
    if ctx.hasCallback then [ctx.body + bytes[..ctx.length]] else []
  }

  function Prefixed(out: seq<seq<byte>>, p: Parsed): Parsed {
    p.(out := out + p.out)
  }

  function Parse(ctx: Context, bytes: seq<byte>): Parsed
    decreases |bytes|, if ctx.state.Body? then 1 else 0
  {
    if bytes == [] then Parsed(ctx, [], [])
    else if ctx.state.Header? then
      if |bytes| >= HEADER then Parse(TakeHeader(ctx, bytes), bytes[HEADER..]) else Parsed(ctx, bytes, [])
    else if BodyArrived(ctx, |bytes|) then
      Prefixed(Delivery(ctx, bytes), Parse(TakeBody(ctx, bytes), bytes[ctx.length..]))
    else Parsed(ctx, bytes, [])
  }

  /** The parser goes on with more input: the unread bytes come first. */
  function Resume(p: Parsed, more: seq<byte>): Parsed {
    Prefixed(p.out, Parse(p.ctx, p.rest + more))
  }

  lemma ResumePrefixed(out: seq<seq<byte>>, p: Parsed, more: seq<byte>)
    ensures Resume(Prefixed(out, p), more) == Prefixed(out, Resume(p, more))
  {
  }

  lemma SameHeader(ctx: Context, a: seq<byte>, b: seq<byte>)
    requires |a| >= HEADER
    ensures TakeHeader(ctx, a + b) == TakeHeader(ctx, a) && (a + b)[HEADER..] == a[HEADER..] + b
    ensures TakeHeader(ctx, a).state.Body?
  {
    hide DecodeInt;
    assert (a + b)[..HEADER] == a[..HEADER];
  }

  lemma SameBody(ctx: Context, a: seq<byte>, b: seq<byte>)
    requires BodyArrived(ctx, |a|)
    ensures TakeBody(ctx, a + b) == TakeBody(ctx, a) && Delivery(ctx, a + b) == Delivery(ctx, a)
    ensures (a + b)[ctx.length..] == a[ctx.length..] + b && TakeBody(ctx, a).state.Header?
  {
    assert (a + b)[..ctx.length] == a[..ctx.length];
  }

  /** Feeding a and then b is feeding a + b, in every state and for all bytes. */
  lemma {:induction false} SplitInvariant(ctx: Context, a: seq<byte>, b: seq<byte>)
    ensures Parse(ctx, a + b) == Resume(Parse(ctx, a), b)
    decreases |a|, if ctx.state.Body? then 1 else 0
  {
    hide TakeHeader;
    hide TakeBody;
    hide Delivery;
    if a == [] {
      assert a + b == b && [] + b == b;
    } else if ctx.state.Header? {
      if |a| >= HEADER {
        SameHeader(ctx, a, b);
        SplitInvariant(TakeHeader(ctx, a), a[HEADER..], b);
      }
    } else if BodyArrived(ctx, |a|) {
      SameBody(ctx, a, b);
      SplitInvariant(TakeBody(ctx, a), a[ctx.length..], b);
      ResumePrefixed(Delivery(ctx, a), Parse(TakeBody(ctx, a), a[ctx.length..]), b);
    }
  }

  /** Unread bytes are what the parser still cannot use: parsing them again changes nothing. */
  lemma {:induction false} ParseIsFinal(ctx: Context, bytes: seq<byte>)
    ensures var p := Parse(ctx, bytes); Parse(p.ctx, p.rest) == Parsed(p.ctx, p.rest, [])
    decreases |bytes|, if ctx.state.Body? then 1 else 0
  {
    if bytes != [] {
      if ctx.state.Header? {
        if |bytes| >= HEADER { ParseIsFinal(TakeHeader(ctx, bytes), bytes[HEADER..]); }
      } else if BodyArrived(ctx, |bytes|) {
        ParseIsFinal(TakeBody(ctx, bytes), bytes[ctx.length..]);
      }
    }
  }

  /** Nothing more can be done with the unread bytes. */
  predicate Settled(p: Parsed) {
    Parse(p.ctx, p.rest) == Parsed(p.ctx, p.rest, [])
  }

  lemma ParseSettles(ctx: Context, bytes: seq<byte>)
    ensures Settled(Parse(ctx, bytes))
  {
    ParseIsFinal(ctx, bytes);
  }

  lemma ResumeNothing(p: Parsed)
    requires Settled(p)
    ensures Resume(p, []) == p
  {
    assert p.rest + [] == p.rest && p.out + [] == p.out;
  }

  function Concat(chunks: seq<seq<byte>>): seq<byte> {
    if chunks == [] then [] else chunks[0] + Concat(chunks[1..])
  }

  function Feed(p: Parsed, chunks: seq<seq<byte>>): Parsed
    decreases |chunks|
  {
    if chunks == [] then p else Feed(Resume(p, chunks[0]), chunks[1..])
  }

  lemma ResumeTwice(p: Parsed, a: seq<byte>, b: seq<byte>)
    ensures Resume(Resume(p, a), b) == Resume(p, a + b)
  {
    hide Parse;
    SplitInvariant(p.ctx, p.rest + a, b);
    assert p.rest + a + b == p.rest + (a + b);
    var q := Parse(p.ctx, p.rest + a);
    var r := Parse(q.ctx, q.rest + b);
    assert (p.out + q.out) + r.out == p.out + (q.out + r.out);
  }

  /** However the stream is cut into reads, the parser ends as if it had come in one piece. */
  lemma {:induction false} ChunksDoNotMatter(p: Parsed, chunks: seq<seq<byte>>)
    requires Settled(p)
    ensures Feed(p, chunks) == Resume(p, Concat(chunks))
    decreases |chunks|
  {
    if chunks == [] {
      ResumeNothing(p);
    } else {
      ParseIsFinal(p.ctx, p.rest + chunks[0]);
      ChunksDoNotMatter(Resume(p, chunks[0]), chunks[1..]);
      ResumeTwice(p, chunks[0], Concat(chunks[1..]));
    }
  }

  // ---------- Frames ----------

  /** A message as the client sends it: its length as a 32-bit integer in network order, then its bytes. */
  predicate Sendable(m: seq<byte>) {
    Fits(|m|, HEADER)
  }

  function Frame(m: seq<byte>): (f: seq<byte>)
    requires Sendable(m)
    ensures |f| == HEADER + |m|
  {
    EncodeInt(|m|, HEADER) + m
  }

  function Frames(ms: seq<seq<byte>>): (s: seq<byte>)
    requires forall m :: m in ms ==> Sendable(m)
  {
    if ms == [] then [] else Frame(ms[0]) + Frames(ms[1..])
  }

  /** A frame by number: four bytes of length, most significant first, and the message. */
  lemma FrameInBytes(m: seq<byte>)
    ensures Sendable(m) <==> |m| < 2147483648
    ensures Sendable(m) ==>
              var f, n := Frame(m), |m|;
              && |f| == 4 + n && f[4..] == m
              && f[0] == n / 16777216 && f[1] == n / 65536 % 256 && f[2] == n / 256 % 256 && f[3] == n % 256
  {
    FourBytesWritten(|m|);
    hide EncodeInt;
  }

  /** A length that reads as negative stops the parser for good: whatever follows, nothing is delivered. */
  lemma NegativeLengthStopsTheParser(header: seq<byte>, more: seq<byte>)
    requires |header| == 4 && header[0] >= 128
    ensures Parse(IDLE, header + more).out == [] && Parse(IDLE, header + more).rest == more
  {
    var bytes := header + more;
    FourBytesRead(header);
    NetworkInjective(header);
    assert bytes[..HEADER] == header && bytes[HEADER..] == more;
    assert Pow256(4) == 4294967296;
    hide DecodeInt;
  }

  lemma ParseNothing(ctx: Context)
    ensures Parse(ctx, []) == Parsed(ctx, [], [])
  {
  }

  lemma ParseFrame(m: seq<byte>, more: seq<byte>)
    requires Sendable(m)
    ensures Parse(IDLE, Frame(m) + more)
            == if m == [] && more == [] then Parsed(Context(Body, 0, [], true), [], [])
               else Prefixed([m], Parse(IDLE, more))
  {
    var bytes := Frame(m) + more;
    assert bytes[..HEADER] == EncodeInt(|m|, HEADER) && bytes[HEADER..] == m + more;
    IntRoundTrip(|m|, HEADER);
    if m + more != [] {
      var ctx := Context(Body, |m|, [], true);
      assert (m + more)[..|m|] == m && (m + more)[|m|..] == more;
      assert [] + m == m;
      assert Delivery(ctx, m + more) == [m];
    }
  }

  lemma ParseStep(ctx: Context, bytes: seq<byte>)
    requires bytes != []
    ensures ctx.state.Header? && |bytes| >= HEADER ==>
              Parse(ctx, bytes) == Parse(TakeHeader(ctx, bytes), bytes[HEADER..])
    ensures ctx.state.Body? && BodyArrived(ctx, |bytes|) ==>
              Parse(ctx, bytes) == Prefixed(Delivery(ctx, bytes), Parse(TakeBody(ctx, bytes), bytes[ctx.length..]))
  {
  }

  lemma SwallowFrame(m: seq<byte>, more: seq<byte>, body: seq<byte>)
    requires Sendable(m)
    ensures Parse(Context(Header, 0, body, false), Frame(m) + more)
            == if m == [] && more == [] then Parsed(Context(Body, 0, body, false), [], [])
               else Parse(Context(Header, 0, body + m, false), more)
  {
    hide Parse;
    hide DecodeInt;
    hide EncodeInt;
    var bytes, ctx := Frame(m) + more, Context(Body, |m|, body, false);
    assert bytes[..HEADER] == EncodeInt(|m|, HEADER) && bytes[HEADER..] == m + more;
    IntRoundTrip(|m|, HEADER);
    ParseStep(Context(Header, 0, body, false), bytes);
    if m + more != [] {
      assert (m + more)[..|m|] == m && (m + more)[|m|..] == more;
      ParseStep(ctx, m + more);
    } else {
      ParseNothing(ctx);
    }
  }

  /** Without a callback nothing is delivered and the bodies pile up, one after another. */
  lemma {:induction false} WithoutCallback(ms: seq<seq<byte>>, body: seq<byte>)
    requires forall m :: m in ms ==> Sendable(m)
    ensures var p := Parse(Context(Header, 0, body, false), Frames(ms));
            p.out == [] && p.rest == [] && p.ctx.body == body + Concat(ms)
    decreases |ms|
  {
    hide Parse;
    hide Frame;
    if ms == [] {
      ParseNothing(Context(Header, 0, body, false));
      assert body + [] == body;
    } else {
      SwallowFrame(ms[0], Frames(ms[1..]), body);
      WithoutCallback(ms[1..], body + ms[0]);
      assert body + ms[0] + Concat(ms[1..]) == body + Concat(ms);
      if ms[0] == [] && Frames(ms[1..]) == [] {
        ParseNothing(Context(Header, 0, body + ms[0], false));
        assert Concat(ms[1..]) == [] && body + ms[0] == body;
      }
    }
  }

  /** Round trip.  The messages come out as they went in and the parser is idle again; only an empty message at
      the very end waits for the next byte. */
  lemma {:induction false} FramesRoundTrip(ms: seq<seq<byte>>)
    requires forall m :: m in ms ==> Sendable(m)
    ensures Parse(IDLE, Frames(ms))
            == if ms == [] || ms[|ms| - 1] != [] then Parsed(IDLE, [], ms)
               else Parsed(Context(Body, 0, [], true), [], ms[..|ms| - 1])
    decreases |ms|
  {
    hide Parse;
    hide Frame;
    if ms == [] {
      ParseNothing(IDLE);
    } else {
      var rest := Frames(ms[1..]);
      ParseFrame(ms[0], rest);
      FramesRoundTrip(ms[1..]);
      ParseNothing(IDLE);
      assert Frames(ms) == Frame(ms[0]) + rest;
      if |ms| == 1 {
        assert ms == [ms[0]] && ms[..0] == [];
      } else {
        assert rest == Frame(ms[1]) + Frames(ms[1..][1..]);
        assert ms == [ms[0]] + ms[1..];
        assert ms[..|ms| - 1] == [ms[0]] + ms[1..][..|ms[1..]| - 1];
      }
    }
  }

  lemma {:induction false} FramesAppend(ms: seq<seq<byte>>, m: seq<byte>)
    requires (forall x :: x in ms ==> Sendable(x)) && Sendable(m)
    ensures Frames(ms + [m]) == Frames(ms) + Frame(m)
    decreases |ms|
  {
    if ms == [] {
      assert [m][1..] == [];
      assert Frames([m]) == Frame(m) + Frames([]);
    } else {
      assert (ms + [m])[1..] == ms[1..] + [m];
      FramesAppend(ms[1..], m);
      assert Frame(ms[0]) + (Frames(ms[1..]) + Frame(m)) == Frames(ms) + Frame(m);
    }
  }

  /** What the parser makes of a proper, nonempty piece of a frame. */
  function Waiting(m: seq<byte>, n: nat): Parsed
    requires Sendable(m) && 0 < n < |Frame(m)|
  {
    if n < HEADER then Parsed(IDLE, Frame(m)[..n], []) else Parsed(Context(Body, |m|, [], true), m[..n - HEADER], [])
  }

  lemma PartAlone(m: seq<byte>, n: nat)
    requires Sendable(m) && 0 < n < |Frame(m)|
    ensures Parse(IDLE, Frame(m)[..n]) == Waiting(m, n)
  {
    if n >= HEADER {
      var part := Frame(m)[..n];
      assert part[..HEADER] == EncodeInt(|m|, HEADER) && part[HEADER..] == m[..n - HEADER];
      IntRoundTrip(|m|, HEADER);
    }
  }

  /** A proper, nonempty piece of a further frame delivers nothing more, and is kept for later. */
  lemma {:induction false} PartOfAFrameWaits(ms: seq<seq<byte>>, m: seq<byte>, n: nat)
    requires (forall x :: x in ms ==> Sendable(x)) && Sendable(m)
    requires 0 < n < |Frame(m)|
    ensures Parse(IDLE, Frames(ms) + Frame(m)[..n]) == Prefixed(ms, Waiting(m, n))
    decreases |ms|
  {
    hide Parse;
    hide Frame;
    var part := Frame(m)[..n];
    if ms == [] {
      assert Frames(ms) + part == part;
      PartAlone(m, n);
    } else {
      assert Frames(ms) + part == Frame(ms[0]) + (Frames(ms[1..]) + part);
      ParseFrame(ms[0], Frames(ms[1..]) + part);
      PartOfAFrameWaits(ms[1..], m, n);
      assert ms == [ms[0]] + ms[1..];
    }
  }

  /** Whatever part of the stream has arrived, the messages delivered are a prefix of those sent. */
  lemma DeliveredIsPrefix(ms: seq<seq<byte>>, arrived: seq<byte>, pending: seq<byte>)
    requires forall m :: m in ms ==> Sendable(m)
    requires Frames(ms) == arrived + pending
    ensures Parse(IDLE, arrived).out <= ms
  {
    hide Parse;
    hide Frames;
    SplitInvariant(IDLE, arrived, pending);
    FramesRoundTrip(ms);
  }

  // ---------- The loop as it stands ----------

  /** One iteration of the loop as written: an incomplete body leaves everything as it is. */
  function Iterate(p: Parsed): Parsed {
    if p.rest == [] then p
    else if p.ctx.state.Header? then
      if |p.rest| >= HEADER then p.(ctx := TakeHeader(p.ctx, p.rest), rest := p.rest[HEADER..]) else p
    else if BodyArrived(p.ctx, |p.rest|) then
      Parsed(TakeBody(p.ctx, p.rest), p.rest[p.ctx.length..], p.out + Delivery(p.ctx, p.rest))
    else p
  }

  /** The loop is left at its head when nothing is readable, and by the return on a short header. */
  predicate Leaves(p: Parsed) {
    p.rest == [] || (p.ctx.state.Header? && |p.rest| < HEADER)
  }

  function After(p: Parsed, n: nat): Parsed
    decreases n
  {
    if n == 0 || Leaves(p) then p else After(Iterate(p), n - 1)
  }

  /** The result still to come, from a point where `p` is reached. */
  function Outcome(p: Parsed): Parsed {
    Prefixed(p.out, Parse(p.ctx, p.rest))
  }

  lemma StopsHere(p: Parsed)
    requires Leaves(p) || Incomplete(p.ctx, p.rest)
    ensures Outcome(p) == p
  {
  }

  predicate ReturnsAfter(p: Parsed, n: nat) {
    Leaves(After(p, n))
  }

  lemma IterateKeepsResult(p: Parsed)
    ensures Outcome(Iterate(p)) == Outcome(p)
  {
  }

  lemma OutcomeIsParse(p: Parsed)
    ensures Outcome(p) == Parsed(Parse(p.ctx, p.rest).ctx, Parse(p.ctx, p.rest).rest, p.out + Parse(p.ctx, p.rest).out)
  {
  }

  lemma HeaderStep(p: Parsed)
    requires p.ctx.state.Header? && |p.rest| >= HEADER
    ensures Outcome(p.(ctx := TakeHeader(p.ctx, p.rest), rest := p.rest[HEADER..])) == Outcome(p)
  {
  }

  lemma BodyStep(p: Parsed, data: seq<byte>, left: seq<byte>)
    requires p.ctx.state.Body? && p.rest != [] && BodyArrived(p.ctx, |p.rest|)
    requires data == p.rest[..p.ctx.length] && left == p.rest[p.ctx.length..]
    ensures var body, told := p.ctx.body + data, p.ctx.hasCallback;
            Outcome(Parsed(Context(Header, 0, if told then [] else body, told), left,
                           if told then p.out + [body] else p.out))
            == Outcome(p)
  {
  }

  lemma {:induction false} AfterKeepsResult(p: Parsed, n: nat)
    ensures Outcome(After(p, n)) == Outcome(p)
    decreases n
  {
    if n > 0 && !Leaves(p) {
      IterateKeepsResult(p);
      AfterKeepsResult(Iterate(p), n - 1);
    }
  }

  lemma {:induction false} LeavesEventually(p: Parsed) returns (n: nat)
    requires var q := Parse(p.ctx, p.rest); !Incomplete(q.ctx, q.rest)
    ensures Leaves(After(p, n))
    decreases |p.rest|, if p.ctx.state.Body? then 1 else 0
  {
    n := 0;
    if !Leaves(p) {
      IterateKeepsResult(p);
      n := LeavesEventually(Iterate(p));
      n := n + 1;
    }
  }

  /** The loop as written returns exactly when the bytes do not stop in the middle of a body; otherwise it spins
      for ever.  When it returns, it has done what it is meant to do. */
  lemma AsWrittenReturnsIff(ctx: Context, bytes: seq<byte>)
    ensures var q := Parse(ctx, bytes);
            (exists n: nat :: ReturnsAfter(Parsed(ctx, bytes, []), n)) <==> !Incomplete(q.ctx, q.rest)
    ensures forall n: nat :: ReturnsAfter(Parsed(ctx, bytes, []), n) ==>
              After(Parsed(ctx, bytes, []), n) == Parse(ctx, bytes)
  {
    var p := Parsed(ctx, bytes, []);
    var q := Parse(ctx, bytes);
    assert Prefixed([], q) == q;
    forall n: nat | ReturnsAfter(p, n) ensures After(p, n) == q && !Incomplete(q.ctx, q.rest) {
      AfterKeepsResult(p, n);
      var r := After(p, n);
      assert Parse(r.ctx, r.rest) == Parsed(r.ctx, r.rest, []);
      assert r.out + [] == r.out;
    }
    if !Incomplete(q.ctx, q.rest) {
      var n := LeavesEventually(p);
      assert ReturnsAfter(p, n);
    }
  }

  /** The same for a stream of frames of which the last has arrived in part: the loop as written returns if and only
      if no byte of the last frame's body has arrived. */
  lemma AsWrittenReturnsOnStreamIff(ms: seq<seq<byte>>, m: seq<byte>, n: nat)
    requires (forall x :: x in ms ==> Sendable(x)) && Sendable(m) && n < |Frame(m)|
    ensures (exists k: nat :: ReturnsAfter(Parsed(IDLE, Frames(ms) + Frame(m)[..n], []), k)) <==> n <= HEADER
  {
    AsWrittenReturnsIff(IDLE, Frames(ms) + Frame(m)[..n]);
    if n == 0 {
      assert Frames(ms) + Frame(m)[..0] == Frames(ms);
      FramesRoundTrip(ms);
    } else {
      PartOfAFrameWaits(ms, m, n);
    }
  }

  /** A header and one byte of a body of two make the loop as written spin. */
  lemma HalfABodySpins(a: byte, n: nat)
    ensures !ReturnsAfter(Parsed(IDLE, EncodeInt(2, HEADER) + [a], []), n)
  {
    var bytes := EncodeInt(2, HEADER) + [a];
    assert Frames([]) + Frame([a, a])[..HEADER + 1] == bytes;
    PartOfAFrameWaits([], [a, a], HEADER + 1);
    AsWrittenReturnsIff(IDLE, bytes);
  }
}
