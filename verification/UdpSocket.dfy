/** The receive side of a UDP socket: one buffer, filled and emptied once per datagram. */
module Udp {
  import opened Bytes
  import opened Buffers

  const DATAGRAM: nat := 65535

  /** The kernel cuts what does not fit. */
  function Cut(d: seq<byte>): seq<byte> {
    if |d| > DATAGRAM then d[..DATAGRAM] else d
  }

  /** What the message callback is given: empty datagrams are passed over. */
  function Delivered(datagrams: seq<seq<byte>>): seq<seq<byte>> {
    if datagrams == [] then []
    else Delivered(datagrams[..|datagrams| - 1])
         + var d := datagrams[|datagrams| - 1]; if d == [] then [] else [Cut(d)]
  }

  /** What is delivered, by number: an empty datagram is passed over, one of up to 65535 bytes comes as it is, and of a
      longer one the first 65535 bytes come. */
  lemma DeliveredOne(d: seq<byte>)
    ensures Delivered([]) == []
    ensures Delivered([d]) == if |d| == 0 then [] else if |d| <= 65535 then [d] else [d[..65535]]
  {
    assert [d][..0] == [] && Delivered([]) == [];
  }

  lemma {:induction false} DeliveredInOrder(first: seq<seq<byte>>, second: seq<seq<byte>>)
    ensures Delivered(first + second) == Delivered(first) + Delivered(second)
    decreases |second|
  {
    if second == [] {
      assert first + second == first;
    } else {
      var front := second[..|second| - 1];
      assert (first + second)[..|first + second| - 1] == first + front;
      DeliveredInOrder(first, front);
    }
  }

  /** Nothing is lost or changed of datagrams that are neither empty nor too long. */
  lemma {:induction false} DeliveredUnchanged(datagrams: seq<seq<byte>>)
    requires forall d :: d in datagrams ==> 1 <= |d| <= 65535
    ensures Delivered(datagrams) == datagrams
    decreases |datagrams|
  {
    hide Delivered;
    if datagrams == [] {
      DeliveredOne([]);
    } else {
      var front, last := datagrams[..|datagrams| - 1], datagrams[|datagrams| - 1];
      assert last in datagrams && forall d :: d in front ==> d in datagrams;
      DeliveredUnchanged(front);
      DeliveredInOrder(front, [last]);
      DeliveredOne(last);
      assert datagrams == front + [last];
    }
  }

  class UdpSocket {
    const buffer: MsgBuffer
    var closed: bool
    var delivered: seq<seq<byte>>

    /** Before every read the window is empty and a whole datagram fits behind it. */
    ghost predicate Valid()
      reads this, buffer
    {
      buffer.Valid() && buffer.reader == buffer.writer == CHEAP_PREPEND && buffer.Writable() >= DATAGRAM
    }

    constructor ()
      ensures Valid() && !closed && delivered == [] && fresh(buffer) && fresh(buffer.buffer)
    {
      buffer := new MsgBuffer(DATAGRAM);
      closed, delivered := false, [];
    }

    /** One datagram: the kernel writes behind the window, the callback sees the window, the buffer is emptied. */
    method ReadOne(data: seq<byte>)
      requires Valid() && 0 < |data| <= DATAGRAM
      modifies `delivered, buffer, buffer.buffer
      ensures Valid() && buffer.buffer == old(buffer.buffer) && delivered == old(delivered) + [data]
    {
      buffer.FillTail(data);
      buffer.HasWritten(|data|);
      assert buffer.Window() == data;
      delivered := delivered + [buffer.Peek(buffer.Readable())];
      buffer.RetrieveAll();
    }

    /** OnRead, until the kernel has no more datagrams. */
    method OnRead(datagrams: seq<seq<byte>>)
      requires Valid()
      modifies `delivered, buffer, buffer.buffer
      ensures Valid() && buffer.buffer == old(buffer.buffer)
      ensures delivered == old(delivered) + if closed then [] else Delivered(datagrams)
    {
      if closed { return; }
      var i := 0;
      while i < |datagrams|
        invariant 0 <= i <= |datagrams| && Valid() && buffer.buffer == old(buffer.buffer)
        invariant delivered == old(delivered) + Delivered(datagrams[..i])
      {
        assert datagrams[..i + 1][..i] == datagrams[..i];
        var data := Cut(datagrams[i]);
        if |data| > 0 { ReadOne(data); }
        i := i + 1;
      }
      assert datagrams[..|datagrams|] == datagrams;
    }
  }
}
