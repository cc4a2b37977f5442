/** The receive buffer: a growable array of which the bytes between two indices are the content.  Every method
    is proved against the sequence of bytes in that window. */
module Buffers {
  import opened Bytes

  const CHEAP_PREPEND: nat := 8
  const EXTRA: nat := 65536

  /** What a caller can tell of the buffer: its content, how much room is in front of it, and its size. */
  datatype Layout = Layout(window: seq<byte>, reader: nat, size: nat) {
    predicate Ok() {
      CHEAP_PREPEND <= size && reader + |window| <= size
    }

    function Writable(): nat
      requires Ok()
    {
      size - reader - |window|
    }

    /** Too little room altogether: grow.  Enough room, but part of it in front: move. */
    function Append(data: seq<byte>): (l: Layout)
      requires Ok()
      ensures l.Ok() && l.window == window + data
    {
      if |data| <= Writable() then this.(window := window + data)
      else if Writable() + reader < |data| + CHEAP_PREPEND then
        Layout(window + data, reader, reader + |window| + |data|)
      else Layout(window + data, CHEAP_PREPEND, size)
    }

    function ReadFd(data: seq<byte>): (l: Layout)
      requires Ok()
      ensures l.Ok() && l.window == window + data
    {
      if |data| <= Writable() then this.(window := window + data)
      else
        var n := Writable();
        assert window + data[..n] + data[n..] == window + data;
        this.(window := window + data[..n]).Append(data[n..])
    }

    function Room(): nat
      requires Ok()
    {
      if Writable() < EXTRA then Writable() + EXTRA else Writable()
    }
  }

  class MsgBuffer {
    var buffer: array<byte>
    var reader: nat
    var writer: nat

    ghost predicate Valid()
      reads this
    {
      reader <= writer <= buffer.Length && CHEAP_PREPEND <= buffer.Length
    }

    ghost function Window(): seq<byte>
      requires Valid()
      reads this, buffer
    {
      buffer[reader..writer]
    }

    ghost function State(): (l: Layout)
      requires Valid()
      reads this, buffer
      ensures l.Ok()
    {
      Layout(Window(), reader, buffer.Length)
    }

    constructor (initialSize: nat)
      ensures Valid() && fresh(buffer) && Window() == [] && Writable() == initialSize && reader == CHEAP_PREPEND
      ensures reader == 8 && buffer.Length == 8 + initialSize
    {
      buffer := new byte[CHEAP_PREPEND + initialSize](_ => 0);
      reader, writer := CHEAP_PREPEND, CHEAP_PREPEND;
    }

    function Readable(): (n: nat)
      requires Valid()
      reads this, buffer
      ensures n == |Window()|
    {
      writer - reader
    }

    function Writable(): nat
      requires Valid()
      reads this
    {
      buffer.Length - writer
    }

    function Peek(n: nat): (s: seq<byte>)
      requires Valid() && n <= Readable()
      reads this, buffer
      ensures s == Window()[..n]
    {
      buffer[reader..reader + n]
    }

    method Retrieve(n: nat)
      requires Valid() && n <= Readable()
      modifies `reader, `writer
      ensures Valid() && Window() == old(Window())[n..]
      ensures reader == if n < |old(Window())| then old(reader) + n else CHEAP_PREPEND
    {
      if n < writer - reader {
        reader := reader + n;
      } else {
        RetrieveAll();
      }
    }

    method RetrieveAll()
      requires Valid()
      modifies `reader, `writer
      ensures Valid() && Window() == [] && reader == writer == CHEAP_PREPEND
    {
      reader, writer := CHEAP_PREPEND, CHEAP_PREPEND;
    }

    method RetrieveAsString(n: nat) returns (s: seq<byte>)
      requires Valid() && n <= Readable()
      modifies `reader, `writer
      ensures Valid() && s + Window() == old(Window()) && |s| == n
    {
      s := Peek(n);
      Retrieve(n);
    }

    method Unwrite(n: nat)
      requires Valid() && n <= Readable()
      modifies `writer
      ensures Valid() && Window() == old(Window())[..|old(Window())| - n]
    {
      writer := writer - n;
    }

    method HasWritten(n: nat)
      requires Valid() && n <= Writable()
      modifies `writer
      ensures Valid() && Window() == old(Window()) + old(buffer[writer..writer + n])
    {
      writer := writer + n;
    }

    /** What a system call does that is given the address of the tail. */
    method FillTail(data: seq<byte>)
      requires Valid() && |data| <= Writable()
      modifies buffer
      ensures buffer[..] == old(buffer[..writer]) + data + old(buffer[writer + |data|..])
    {
      forall i | 0 <= i < |data| { buffer[writer + i] := data[i]; }
    }

    /** Bytes that fit into the tail are put there and counted as content. */
    method WriteTail(data: seq<byte>)
      requires Valid() && |data| <= Writable()
      modifies `writer, buffer
      ensures Valid() && writer == old(writer) + |data| && Window() == old(Window()) + data
    {
      FillTail(data);
      assert buffer[writer..writer + |data|] == data;
      assert buffer[reader..writer] == old(buffer[reader..writer]);
      HasWritten(|data|);
    }

    method Prepend(data: seq<byte>)
      requires Valid() && |data| <= reader
      modifies `reader, buffer
      ensures Valid() && reader == old(reader) - |data|
      ensures Window() == data + old(Window())
    {
      reader := reader - |data|;
      forall i | 0 <= i < |data| { buffer[reader + i] := data[i]; }
      assert buffer[reader..reader + |data|] == data;
      assert buffer[reader + |data|..writer] == old(buffer[reader..writer]);
    }

    method PrependInt(x: int, n: nat)
      requires Valid() && Fits(x, n) && n <= reader
      modifies `reader, buffer
      ensures Valid() && reader == old(reader) - n && Window() == EncodeInt(x, n) + old(Window())
      ensures FromNetwork(Window()[..n]) == if x >= 0 then x else x + Pow256(n)
    {
      EncodedInNetworkOrder(x, n);
      Prepend(EncodeInt(x, n));
    }

    function PeekInt(n: nat): (x: int)
      requires Valid() && n <= Readable()
      reads this, buffer
      ensures x == DecodeInt(Window()[..n])
      ensures var u := FromNetwork(Window()[..n]); x == if 2 * u < Pow256(n) then u else u - Pow256(n)
    {
      DecodeInt(Peek(n))
    }

    method ReadInt(n: nat) returns (x: int)
      requires Valid() && n <= Readable()
      modifies `reader, `writer
      ensures Valid() && x == DecodeInt(old(Window())[..n]) && Window() == old(Window())[n..]
      ensures var u := FromNetwork(old(Window())[..n]); x == if 2 * u < Pow256(n) then u else u - Pow256(n)
    {
      x := PeekInt(n);
      Retrieve(n);
    }

    /** Make room for n bytes by growing or by moving the window to the front.  Called only when the tail is too
        short; in the branch that moves, the reader is then past the reserved front, so the copy goes down. */
    method MakeSpace(n: nat)
      requires Valid() && Writable() < n
      modifies this, buffer
      ensures Valid() && (buffer == old(buffer) || fresh(buffer))
      ensures Window() == old(Window()) && Writable() >= n
      ensures buffer.Length > old(buffer.Length) ==> buffer.Length <= 2 * n + |Window()| + 7
      ensures reader == if old(Writable() + reader) < n + CHEAP_PREPEND then old(reader) else CHEAP_PREPEND
      ensures buffer.Length == if old(Writable() + reader) < n + CHEAP_PREPEND then old(writer) + n
                               else old(buffer.Length)
    {
      if Writable() + reader < n + CHEAP_PREPEND {
        var bigger := new byte[writer + n](_ => 0);
        forall i | 0 <= i < buffer.Length { bigger[i] := buffer[i]; }
        buffer := bigger;
      } else {
        assert CHEAP_PREPEND < reader;
        var readable := writer - reader;
        MoveToFront(readable);
        reader := CHEAP_PREPEND;
        writer := reader + readable;
      }
    }

    /** The overlapping copy, byte by byte from the first. */
    method MoveToFront(readable: nat)
      requires Valid() && CHEAP_PREPEND < reader && readable == writer - reader
      modifies buffer
      ensures buffer[CHEAP_PREPEND..CHEAP_PREPEND + readable] == old(buffer[reader..writer])
    {
      ghost var window := buffer[reader..writer];
      var i := 0;
      while i < readable
        invariant 0 <= i <= readable
        invariant forall k :: 0 <= k < i ==> buffer[CHEAP_PREPEND + k] == window[k]
        invariant forall k :: i <= k < readable ==> buffer[reader + k] == window[k]
      {
        buffer[CHEAP_PREPEND + i] := buffer[reader + i];
        i := i + 1;
      }
      assert forall k :: 0 <= k < readable ==> buffer[CHEAP_PREPEND..CHEAP_PREPEND + readable][k] == window[k];
    }

    method EnsureWritableBytes(n: nat)
      requires Valid()
      modifies this, buffer
      ensures Valid() && (buffer == old(buffer) || fresh(buffer))
      ensures Window() == old(Window()) && Writable() >= n
      ensures buffer.Length > old(buffer.Length) ==> buffer.Length <= 2 * n + |Window()| + 7
      ensures buffer.Length >= old(buffer.Length)
      ensures reader == if n <= old(Writable()) || old(Writable() + reader) < n + CHEAP_PREPEND then old(reader)
                        else CHEAP_PREPEND
      ensures buffer.Length == if n > old(Writable()) && old(Writable() + reader) < n + CHEAP_PREPEND
                               then old(writer) + n else old(buffer.Length)
    {
      if Writable() < n { MakeSpace(n); }
    }

    method Append(data: seq<byte>)
      requires Valid()
      modifies this, buffer
      ensures Valid() && (buffer == old(buffer) || fresh(buffer))
      ensures Window() == old(Window()) + data
      ensures buffer.Length > old(buffer.Length) ==> buffer.Length <= 2 * |data| + |old(Window())| + 7
      ensures State() == old(State()).Append(data)
    {
      EnsureWritableBytes(|data|);
      WriteTail(data);
    }

    /** The room readv is offered: the tail, and the extra block if the tail is shorter than that. */
    function Room(): nat
      requires Valid()
      reads this
    {
      if Writable() < EXTRA then Writable() + EXTRA else Writable()
    }

    /** readFd when the kernel delivers `data`: what does not fit into the tail arrives in the extra block and
        is appended. */
    method ReadFd(data: seq<byte>)
      requires Valid() && |data| <= Room()
      modifies this, buffer
      ensures Valid() && (buffer == old(buffer) || fresh(buffer))
      ensures Window() == old(Window()) + data
      ensures State() == old(State()).ReadFd(data)
    {
      var writable := Writable();
      if |data| <= writable {
        WriteTail(data);
      } else {
        WriteTail(data[..writable]);
        assert writer == buffer.Length;
        ghost var window := old(Window());
        assert window + data[..writable] + data[writable..] == window + data;
        Append(data[writable..]);
      }
    }

    /** Write an integer in front of the content and read it back: the integer, and the content as before. */
    method PrependThenRead(x: int, n: nat) returns (y: int)
      requires Valid() && Fits(x, n) && n <= reader
      modifies `reader, `writer, buffer
      ensures Valid() && y == x && Window() == old(Window())
    {
      PrependInt(x, n);
      IntRoundTrip(x, n);
      assert Window()[..n] == EncodeInt(x, n);
      y := ReadInt(n);
    }
  }

  datatype BufferOp =
    | AppendOp(data: seq<byte>)
    | ReadFdOp(data: seq<byte>)
    | PrependOp(data: seq<byte>)
    | RetrieveOp(n: nat)
    | UnwriteOp(n: nat)
    | RetrieveAllOp

  /** The operation's assertion holds, or for a read the kernel may deliver that much. */
  predicate Enabled(l: Layout, op: BufferOp)
    requires l.Ok()
  {
    match op
    case AppendOp(_) => true
    case ReadFdOp(data) => |data| <= l.Room()
    case PrependOp(data) => |data| <= l.reader
    case RetrieveOp(n) => n <= |l.window|
    case UnwriteOp(n) => n <= |l.window|
    case RetrieveAllOp => true
  }

  function Perform(l: Layout, op: BufferOp): (r: Layout)
    requires l.Ok() && Enabled(l, op)
    ensures r.Ok()
  {
    match op
    case AppendOp(data) => l.Append(data)
    case ReadFdOp(data) => l.ReadFd(data)
    case PrependOp(data) => l.(window := data + l.window, reader := l.reader - |data|)
    case RetrieveOp(n) =>
      l.(window := l.window[n..], reader := if n < |l.window| then l.reader + n else CHEAP_PREPEND)
    case UnwriteOp(n) => l.(window := l.window[..|l.window| - n])
    case RetrieveAllOp => l.(window := [], reader := CHEAP_PREPEND)
  }

  /** The buffer after a run in which operations that are not enabled are not carried out. */
  function LayoutAfter(initialSize: nat, ops: seq<BufferOp>): (l: Layout)
    ensures l.Ok()
  {
    if ops == [] then Layout([], CHEAP_PREPEND, CHEAP_PREPEND + initialSize)
    else
      var l := LayoutAfter(initialSize, ops[..|ops| - 1]);
      if Enabled(l, ops[|ops| - 1]) then Perform(l, ops[|ops| - 1]) else l
  }

  /** The same operation on a plain byte sequence. */
  function Plain(window: seq<byte>, op: BufferOp): seq<byte> {
    match op
    case AppendOp(data) => window + data
    case ReadFdOp(data) => window + data
    case PrependOp(data) => data + window
    case RetrieveOp(n) => if n <= |window| then window[n..] else window
    case UnwriteOp(n) => if n <= |window| then window[..|window| - n] else window
    case RetrieveAllOp => []
  }

  /** The operations carried out, one after another, on a byte sequence that knows no indices and no size. */
  function Replay(ops: seq<BufferOp>, carried: seq<bool>): seq<byte>
    requires |ops| == |carried|
  {
    if ops == [] then []
    else
      var before := Replay(ops[..|ops| - 1], carried[..|ops| - 1]);
      if carried[|ops| - 1] then Plain(before, ops[|ops| - 1]) else before
  }

  /** `carried` says of each operation whether its assertion holds when its turn comes. */
  ghost predicate CarriedOut(initialSize: nat, ops: seq<BufferOp>, carried: seq<bool>) {
    && |ops| == |carried|
    && forall i :: 0 <= i < |ops| ==> (carried[i] <==> Enabled(LayoutAfter(initialSize, ops[..i]), ops[i]))
  }

  lemma PlainIsPerform(l: Layout, op: BufferOp)
    requires l.Ok() && Enabled(l, op)
    ensures Perform(l, op).window == Plain(l.window, op)
  {
  }

  /** Growing and moving do not show: at every point of a run the content is what the operations carried out so
      far make of a plain byte sequence. */
  lemma {:induction false} LayoutRefinesBytes(initialSize: nat, ops: seq<BufferOp>, carried: seq<bool>, i: nat)
    requires CarriedOut(initialSize, ops, carried) && i <= |ops|
    ensures LayoutAfter(initialSize, ops[..i]).window == Replay(ops[..i], carried[..i])
    decreases i
  {
    if i > 0 {
      LayoutRefinesBytes(initialSize, ops, carried, i - 1);
      assert ops[..i][..i - 1] == ops[..i - 1] && carried[..i][..i - 1] == carried[..i - 1];
      var l := LayoutAfter(initialSize, ops[..i - 1]);
      if carried[i - 1] { PlainIsPerform(l, ops[i - 1]); }
    }
  }

  lemma OneMore(initialSize: nat, ops: seq<BufferOp>, i: nat)
    requires i < |ops|
    ensures var l := LayoutAfter(initialSize, ops[..i]);
            LayoutAfter(initialSize, ops[..i + 1]) == if Enabled(l, ops[i]) then Perform(l, ops[i]) else l
  {
    assert ops[..i + 1][..i] == ops[..i];
  }

  method Carry(b: MsgBuffer, op: BufferOp) returns (carried: bool)
    requires b.Valid()
    modifies b, b.buffer
    ensures b.Valid() && (b.buffer == old(b.buffer) || fresh(b.buffer))
    ensures carried <==> Enabled(old(b.State()), op)
    ensures op.AppendOp? || op.RetrieveAllOp? ==> carried
    ensures op.PrependOp? ==> (carried <==> |op.data| <= old(b.reader))
    ensures op.ReadFdOp? ==>
              (carried <==> |op.data| <= old(b.Writable()) + if old(b.Writable()) < 65536 then 65536 else 0)
    ensures op.RetrieveOp? || op.UnwriteOp? ==> (carried <==> op.n <= |old(b.Window())|)
    ensures b.State() == if carried then Perform(old(b.State()), op) else old(b.State())
  {
    carried := true;
    match op
    case AppendOp(data) => b.Append(data);
    case ReadFdOp(data) => if |data| <= b.Room() { b.ReadFd(data); } else { carried := false; }
    case PrependOp(data) => if |data| <= b.reader { b.Prepend(data); } else { carried := false; }
    case RetrieveOp(n) => if n <= b.Readable() { b.Retrieve(n); } else { carried := false; }
    case UnwriteOp(n) => if n <= b.Readable() { b.Unwrite(n); } else { carried := false; }
    case RetrieveAllOp => b.RetrieveAll();
  }

  lemma NothingDone(initialSize: nat)
    ensures LayoutAfter(initialSize, []) == Layout([], CHEAP_PREPEND, CHEAP_PREPEND + initialSize)
  {
  }

  /** Whole runs: whatever is appended, read, prepended, retrieved and taken back, moved and grown in between, the
      content is what the same operations make of a plain byte sequence.  `carried` are the operations whose
      assertion holds when their turn comes; for retrieve and unwrite the byte sequence alone decides that. */
  method Run(initialSize: nat, ops: seq<BufferOp>) returns (window: seq<byte>, carried: seq<bool>)
    ensures CarriedOut(initialSize, ops, carried)
    ensures forall i :: 0 <= i < |ops| && (ops[i].RetrieveOp? || ops[i].UnwriteOp?) ==>
              (carried[i] <==> ops[i].n <= |Replay(ops[..i], carried[..i])|)
    ensures forall i :: 0 <= i < |ops| && (ops[i].AppendOp? || ops[i].RetrieveAllOp?) ==> carried[i]
    ensures forall i :: 0 <= i < |ops| && ops[i].ReadFdOp? && |ops[i].data| <= 65536 ==> carried[i]
    ensures forall i :: 0 <= i < |ops| && ops[i].PrependOp? ==>
              (carried[i] <==> |ops[i].data| <= LayoutAfter(initialSize, ops[..i]).reader)
    ensures window == Replay(ops, carried)
  {
    hide Perform;
    hide Replay;
    hide Plain;
    hide LayoutAfter;
    var b := new MsgBuffer(initialSize);
    carried := [];
    NothingDone(initialSize);
    var i := 0;
    while i < |ops|
      invariant 0 <= i <= |ops| && |carried| == i && fresh(b) && fresh(b.buffer) && b.Valid()
      invariant b.State() == LayoutAfter(initialSize, ops[..i])
      invariant forall k :: 0 <= k < i ==> (carried[k] <==> Enabled(LayoutAfter(initialSize, ops[..k]), ops[k]))
    {
      OneMore(initialSize, ops, i);
      var c := Carry(b, ops[i]);
      carried := carried + [c];
      i := i + 1;
    }
    window := b.Peek(b.Readable());
    forall k | 0 <= k <= |ops|
      ensures LayoutAfter(initialSize, ops[..k]).window == Replay(ops[..k], carried[..k])
    {
      LayoutRefinesBytes(initialSize, ops, carried, k);
    }
    assert ops[..|ops|] == ops && carried[..|ops|] == carried;
  }

  /** The bytes in front that a caller may count on: 8 at the start, and again once everything was retrieved. */
  lemma RoomInFront(initialSize: nat, ops: seq<BufferOp>)
    ensures LayoutAfter(initialSize, []).reader == 8
    ensures LayoutAfter(initialSize, ops + [RetrieveAllOp]).reader == 8
  {
    assert (ops + [RetrieveAllOp])[..|ops|] == ops;
  }
}
