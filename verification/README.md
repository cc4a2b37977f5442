# Timing wheel and byte-stream path of the tmms network layer

The project models two parts of the network layer and what ties them together.

**The timing wheel** (`TimingWheel.dfy`, class `TimingWheel`) has four rotating deques of slots. A slot holds
references to entries; an entry runs when its last reference is dropped, because the original does the work in a
destructor. A reference in a coarse wheel is a wrapper that inserts its entry again, with the remaining seconds, into
a finer wheel. `Schedule.dfy` says the same thing flatly: an agenda of (entry, tick) pairs. Every public operation of
the class is proved to do to the view of the wheel exactly what the agenda does, for every order in which the
elements of a popped slot are destroyed, through every cascade, with entries shared between slots, with periodic
entries that insert themselves again and with callbacks that insert others while a slot is being emptied. `Slots.dfy` holds the lemmas in between, and
`WheelTheorems.dfy` what follows for whole runs. `Clock.dfy` is the one-second gate in front of the wheel.

**The byte-stream path** is the receive buffer (`MsgBuffer.dfy`, an array with two indices), the send queue with
partial writes (`SendQueue.dfy`, `TcpConnection.dfy`) and the length-prefixed parser (`Framing.dfy` for the function
on byte sequences, `TcpConnection.dfy` for the class). `EndToEnd.dfy` composes the objects: messages are framed,
queued, written in parts, read in parts and parsed.

**What ties them together**: the server's registry of connections with its idle timeouts (`TcpServer.dfy`), the queue
of functions handed over by other threads (`FunctionQueue.dfy`), and the receive loop of a UDP socket
(`UdpSocket.dfy`).

## Where the code does not do what it is meant to do

The model keeps the code as it stands beside the step that is evidently meant, and says exactly when both agree.

- `Modes.Mode`, in the wheel: as written, a delay of 0 goes on to index slot `0 - 1` (src/network/net/TimingWheel.cc:45-51), and
  the `else if` chain never rotates the hour and day wheels (src/network/net/TimingWheel.cc:86-97). The class covers
  both modes. As written, an entry runs at its deadline if and only if its delay is under an hour and no multiple of
  a minute, whatever else the wheel holds and is given; on runs with such delays both modes agree. As written, a delay
  of whole minutes under an hour crashes every run that reaches its deadline, and an entry with a delay of an hour or
  more never runs (`WheelTheorems.StuckAsWritten`).
- A callback that calls `RunAfter` while the seconds wheel is being emptied at the end of a minute, an hour or a day
  finds the coarser wheels not yet rotated: its entry is aimed a whole unit early (`Slots.InsertionInMidTick`). The
  class makes such calls in the middle of `OnTimer`, and `WheelTheorems.RunsInTheSameTickIff` says exactly when the
  entry runs in the very tick it was asked for, as a minute asked for at tick 60 does. The re-arming of a periodic
  entry is never in that position.
- A delay of 31 days or more is refused, and the entry runs at once when the caller lets go of it. With the step
  that is meant, an entry runs at its deadline if and only if its delay is under 31 days
  (`WheelTheorems.IntendedKeepsItsPromiseIff`). `RunEvery` with such an interval, or with 0, calls itself without end.
- `TTime::NowMs` returns 16 bits (src/base/TTime.cc:8-13). Read through that clock the wheel makes at most 65 ticks
  unless a reading is exactly 0, and each such reading is good for 65.5 more at most.
- The parser's loop has no exit for an incomplete body (src/network/TestContext.cc:28-43). The class returns 1 there.
  The loop as written returns if and only if the bytes do not stop in the middle of a body; on a stream of frames,
  if and only if at most the header of the last one has arrived without its body.
- `Modes.Mode`, in the send path: as written, `write`'s result is unsigned, so after an error the node queued starts one
  byte before the buffer and is one byte longer (src/network/net/TcpConnection.cc:196-226). The account of bytes
  stays balanced if and only if no write fails on an empty queue.
- The write loop can finish a queue if and only if its last node is not empty; otherwise it calls `writev` for ever.
- The write-complete callback also runs for an empty buffer while other bytes wait.
- Taking write interest back also takes edge triggering away (src/network/net/Event.h:11-12), so a registered
  connection that has drained its queue is level triggered from then on (`Tcp.TcpConnection.OnWrite`).
- `TcpConnection::ExtendLife` is private and nothing calls it (src/network/net/TcpConnection.cc:257-264): a connection is
  closed at the 30th tick after it was accepted, however busy it is (`Server.ClosedByStepIff`).

## Model

| member | source | states |
|---|---|---|
| Schedule.DeadlineBounds | src/network/net/TimingWheel.cc:43-71 | at every level an entry is aimed at most `delay` and at least `delay - unit + 1` ticks ahead |
| Schedule.DeadlineMonotone | src/network/net/TimingWheel.cc:43-71 | a later insertion with the same delay is never aimed earlier |
| Schedule.DeadlineInSeconds | src/network/net/TimingWheel.cc:43-71 | below 60 seconds a delay counts from now, below 3600 from the start of the minute, below 86400 from the start of the hour, from 86400 on from the start of the day |
| Schedule.ReliableInSeconds | src/network/net/TimingWheel.cc:43-71 | 31 days, 2678400 seconds, are the first delay that is not stored; as written only delays under 3600 that are no multiple of 60 are of use |
| Schedule.CrashesIff | src/network/net/TimingWheel.cc:43-134 | for each call and for a tick, exactly when the program crashes |
| Schedule.AskedInOrder | src/network/net/TimingWheel.cc:106-134 | every request of a callback becomes one operation, in order, with its delay and kind |
| Schedule.TickInSeconds | src/network/net/TimingWheel.cc:84-97 | the requests of the seconds wheel's callbacks come in every tick, those of the minute wheel every 60, as meant those of the hour wheel every 3600 and of the day wheel every 86400 |
| Schedule.ValidAdvance | src/network/net/TimingWheel.cc:72-105 | a tick leaves nothing overdue, lets nobody run twice and holds no entry that ran |
| Schedule.ValidRun | src/network/net/TimingWheel.cc:43-134 | the same over every sequence of operations |
| Schedule.CrashIsFinal | src/network/net/TimingWheel.cc:43-52 | after a crash nothing happens any more |
| Wheel.TimingWheel.constructor | src/network/net/TimingWheel.cc:5-11 | a new wheel shows the empty agenda at tick 0 and has deques of 60, 60, 24 and 30 slots |
| Wheel.TimingWheel.InsertLevelEntry | src/network/net/TimingWheel.cc:14-41 | one insertion adds exactly one due reference and keeps the lengths 60, 60, 24 and 30; the slot index is in range |
| Wheel.TimingWheel.InsertEntry | src/network/net/TimingWheel.cc:43-71 | which delays are stored, which are dropped, which crash as written |
| Wheel.TimingWheel.RunEntry | src/network/net/TimingWheel.h:36-42 | the entry is logged with the tick, and a periodic one gets its next reference |
| Wheel.TimingWheel.LetGo | src/network/net/TimingWheel.h:32-46 | dropping a reference runs the entry exactly when no slot and no element still to be destroyed holds another |
| Wheel.TimingWheel.Destroy | src/network/net/TimingWheel.cc:18-41 | a destroyed wrapper moves its entry to a finer wheel, aimed at the same tick |
| Wheel.TimingWheel.RunRequest | src/network/net/TimingWheel.cc:106-134 | RunAfter or RunEvery called by a callback in the middle of a tick does what the agenda's operation `Within` does, crash included |
| Wheel.TimingWheel.DropAll | src/network/net/TimingWheel.cc:99-105 | letting go of a popped slot in any order, with any calls of callbacks in between, drops all its references and only those, and terminates |
| Wheel.TimingWheel.PopUp | src/network/net/TimingWheel.cc:99-105 | a wheel is emptied of its front slot, rotated, and the account of the tick is that of the agenda with everything asked for meanwhile |
| Wheel.TimingWheel.Rotate | src/network/net/TimingWheel.cc:84-97 | after the rotations of a tick the wheels are in step with it, in both modes, or the agenda says it crashes |
| Wheel.TimingWheel.OnTimer | src/network/net/TimingWheel.cc:72-98 | a call ticks exactly if 1000 milliseconds have passed since the time kept; with callbacks that insert entries while the wheels are emptied, a tick does exactly what the agenda does with these requests; a call that does not tick changes nothing but the time kept |
| Wheel.TimingWheel.RunAfter | src/network/net/TimingWheel.cc:106-117 | refines the agenda's operation, crash included; as meant a delay under 2678400 seconds leaves the entry due at the second it should be, by number |
| Wheel.TimingWheel.RunEvery | src/network/net/TimingWheel.cc:118-134 | refines the agenda's operation, crash included |
| Wheel.TimingWheel.Extend | src/network/net/UdpSocket.cc:235-242 | re-inserting through a weak reference refines the agenda's operation and does nothing once the entry ran |
| WheelRuns.Drive | src/network/net/TimingWheel.cc:43-134 | for every sequence of calls and clock readings, and whatever callbacks ask for in the middle of ticks, the object ends where the agenda ends |
| WheelRuns.EntryWaitsInRealTime | src/network/net/TimingWheel.cc:72-98 | whenever an entry has run, at least `delay - unit` seconds of clock time have passed since it was handed over, which is `delay - 1` below one minute; one second more for an entry handed over before the first timer call |
| WheelRuns.EntryRunsInRealTime | src/network/net/TimingWheel.cc:72-98 | with a timer called at least every g milliseconds an entry has run once (delay - 1) * (999 + g) + 1000 milliseconds have passed since it was handed over |
| WheelRuns.OpsOfFirst | src/network/net/TimingWheel.cc:72-134 | each call counts for its operation, a timer call for a tick exactly if a second has passed since the time kept |
| Slots.RingInsert | src/network/net/TimingWheel.cc:14-41 | putting a reference into slot k adds exactly its due tick |
| Slots.RingRotate | src/network/net/TimingWheel.cc:99-105 | a rotation keeps all due ticks: those of the front slot become due now, the others move up |
| Slots.Cascade | src/network/net/TimingWheel.cc:18-41 | a popped wrapper's remainder lands in a finer wheel that was already rotated, with the same due tick |
| Slots.RearmInStep | src/network/net/TimingWheel.cc:118-134 | a periodic entry that runs finds the wheel of its own level already rotated for this tick |
| Slots.InsertionInMidTick | src/network/net/TimingWheel.cc:84-105 | in both modes an insertion in the middle of a tick into a wheel still to be rotated is aimed as one a tick earlier, which is a whole unit early exactly when the unit is just over; RunRequest makes such insertions |
| Slots.MinuteInMidTickIsDueAtOnce | src/network/net/TimingWheel.cc:84-105 | a minute asked for by a callback from the seconds wheel at tick 60 is due at tick 60, or crashes there as written |
| Slots.NothingOverdue | src/network/net/TimingWheel.cc:84-97 | after the rotations of a tick every reference left is due later |
| Slots.LastDropKeepsMidTick | src/network/net/TimingWheel.h:32-46 | the last reference due now makes the entry run once and arms its next round |
| Slots.TickIsDone | src/network/net/TimingWheel.cc:72-105 | when no reference due now is left, those that ran are exactly the entries whose last reference was due now |
| WheelTheorems.EntryFollowsItsOwnOps | src/network/net/UdpSocket.cc:182-242 | whatever else is scheduled, a shared entry depends on the ticks and its own extensions only: pending and where it is aimed, or run and when |
| WheelTheorems.SharedEntryRunsAtItsLargestDeadline | src/network/net/UdpSocket.cc:182-242 | an entry handed to the wheel any number of times is in the log exactly once, at the largest of the deadlines it was given before that tick |
| WheelTheorems.LatestExtensionRuns | src/network/net/UdpSocket.cc:235-242 | with a constant idle time d an entry extended last at tick t is in the log at t - t mod u + d, once that tick is reached, and at no other tick |
| WheelTheorems.RunAfterRunsAtItsDeadline | src/network/net/TimingWheel.cc:106-117 | an entry runs exactly at t - t mod u + d and at no other tick |
| WheelTheorems.RunEveryRunsPeriodically | src/network/net/TimingWheel.cc:118-134 | run n of a periodic entry is at t - t mod u + i + n * u * (i / u), for every n, and at no other tick |
| WheelTheorems.RequestRunsAtItsDeadline | src/network/net/TimingWheel.cc:84-117 | an entry a callback asks for in the middle of a tick runs exactly once, aimed from that tick if its wheel was rotated for it already and from the tick before if not |
| WheelTheorems.PeriodicRequestRunsPeriodically | src/network/net/TimingWheel.cc:84-134 | a RunEvery that a callback calls in the middle of a tick runs at the closed form for every n and at no other tick, counted from that tick or the one before |
| WheelTheorems.RunsInTheSameTickIff | src/network/net/TimingWheel.cc:84-117 | such an entry runs in the very tick it is asked for iff the wheel refuses it, or its delay is exactly the unit that is just over and its wheel is still to be rotated |
| WheelTheorems.Period | src/network/net/TimingWheel.cc:118-134 | the steady period is positive and is the interval itself below one minute |
| WheelTheorems.PeriodInSeconds | src/network/net/TimingWheel.cc:118-134 | the period is the interval below a minute, and its whole minutes, hours or days from 60, 3600 and 86400 seconds on |
| WheelTheorems.EntriesAreConserved | src/network/net/TimingWheel.cc:43-134 | in every run each entry waits or has run, a plain one never both, none runs twice, none is overdue |
| WheelTheorems.IntendedKeepsItsPromiseIff | src/network/net/TimingWheel.cc:43-71 | as meant, on any wheel and among any other traffic, an entry whose deadline has passed ran at it iff its delay is under 31 days |
| WheelTheorems.AsWrittenKeepsItsPromiseIff | src/network/net/TimingWheel.cc:43-98 | as written, on any wheel and among any other traffic, an entry whose deadline has passed ran at it iff its delay is under an hour and not a multiple of a minute |
| WheelTheorems.AsWrittenAloneKeepsItsPromiseIff | src/network/net/TimingWheel.cc:43-98 | the same on a wheel that holds nothing else, where a crash can only come from the entry itself |
| WheelTheorems.StuckAsWritten | src/network/net/TimingWheel.cc:84-97 | as written a delay of an hour or more never runs in any run, even if extended; a delay of whole minutes under an hour crashes every run that reaches its deadline |
| WheelTheorems.AgreesOnReliableRuns | src/network/net/TimingWheel.cc:43-98 | on runs with such delays the code as written does what is meant and never crashes |
| WheelTheorems.IntendedNeverCrashes | src/network/net/TimingWheel.cc:43-134 | as meant the wheel never crashes in any run; only a periodic entry with an interval it refuses could do that |
| WheelTheorems.HourlyEntryNeverRuns | src/network/net/TimingWheel.cc:86-97 | as written an entry with a delay of one hour never runs |
| WheelTheorems.MinuteEntryCrashes | src/network/net/TimingWheel.cc:45-52 | as written an entry with a delay of one minute crashes the program a minute later |
| Clock.TicksAreSpaced | src/network/net/TimingWheel.cc:72-84 | a thousand times the ticks is at most the clock time passed, for any clock that never reads 0 |
| Clock.TicksFromStart | src/network/net/TimingWheel.cc:72-84 | the same counted from the first reading |
| Clock.GateInMilliseconds | src/network/net/TimingWheel.cc:72-84 | a reading passes iff one was kept before and 1000 milliseconds have passed since |
| Clock.LessThanASecondIsLeft | src/network/net/TimingWheel.cc:72-84 | after any calls less than a second has passed since the time kept |
| Clock.TicksKeepUp | src/network/net/TimingWheel.cc:72-84 | a timer called at least every g milliseconds makes a tick at least every 999 + g |
| Clock.WaitsAtLeast | src/network/net/TimingWheel.cc:72-84 | the d-th tick after an insertion comes no sooner than d - 1 seconds after it, and no sooner than d seconds if the timer had not been called before |
| Clock.TruncatedClockStarvesTheWheel | src/base/TTime.cc:8-13 | through the 16-bit clock a thousand times the ticks is at most 65535 times one more than the readings of exactly 0, so at most 65 ticks without such a reading |
| Clock.NowMs | src/base/TTime.cc:8-13 | the reading is congruent to the time modulo 65536 and fits 16 signed bits |
| Bytes.NetworkOrder | src/network/base/MsgBuffer.h:14-42 | byte k of n is the byte of weight n - 1 - k |
| Bytes.NetworkRoundTrip | src/network/base/MsgBuffer.h:14-42 | decoding inverts encoding for every width |
| Bytes.NetworkInjective | src/network/base/MsgBuffer.h:14-42 | encoding inverts decoding for every byte string |
| Bytes.IntRoundTrip | src/network/base/MsgBuffer.h:234-329 | every signed integer of every width survives writing and reading |
| Bytes.EncodedInNetworkOrder | src/network/base/MsgBuffer.h:14-42 | the bytes written are those of the integer in two's complement, most significant first, at every width |
| Bytes.FourBytesWritten | src/network/base/MsgBuffer.h:305-329 | the four bytes written for an integer, by number |
| Bytes.FourBytesRead | src/network/base/MsgBuffer.h:270-303 | the integer any four bytes read as, by number |
| Buffers.MsgBuffer.constructor | src/network/base/MsgBuffer.h:50-58 | the new buffer is empty with the room asked for and 8 bytes in front |
| Buffers.MsgBuffer.Retrieve | src/network/base/MsgBuffer.h:123-134 | the first n bytes go, the rest stays |
| Buffers.MsgBuffer.RetrieveAll | src/network/base/MsgBuffer.h:163-167 | the window is empty and both indices are back behind the reserved front |
| Buffers.MsgBuffer.RetrieveAsString | src/network/base/MsgBuffer.h:174-180 | result and remaining window make up the old window |
| Buffers.MsgBuffer.Append | src/network/base/MsgBuffer.h:182-187 | the window grows by the data; a growing array stays within 2 * len + readable + 7 |
| Buffers.MsgBuffer.EnsureWritableBytes | src/network/base/MsgBuffer.h:194-201 | afterwards the room is there and the window is as before |
| Buffers.MsgBuffer.HasWritten | src/network/base/MsgBuffer.h:213-217 | the bytes written behind the window join it |
| Buffers.MsgBuffer.Unwrite | src/network/base/MsgBuffer.h:219-223 | the last n bytes go |
| Buffers.MsgBuffer.ReadInt | src/network/base/MsgBuffer.h:234-264 | the two's complement integer of the first n bytes in network order is returned and they are gone |
| Buffers.MsgBuffer.PeekInt | src/network/base/MsgBuffer.h:270-303 | the two's complement integer of the first n bytes in network order |
| Buffers.MsgBuffer.PrependInt | src/network/base/MsgBuffer.h:305-329 | the integer's bytes in network order stand in front of the old window |
| Buffers.MsgBuffer.Prepend | src/network/base/MsgBuffer.h:331-337 | the data stands in front of the old window |
| Buffers.MsgBuffer.MakeSpace | src/network/base/MsgBuffer.h:361-380 | by growing or by moving the window is kept and the room gained; the assertion of the moving branch holds; growth bound |
| Buffers.MsgBuffer.MoveToFront | src/network/base/MsgBuffer.h:373-375 | the overlapping copy keeps the window |
| Buffers.MsgBuffer.ReadFd | src/network/base/MsgBuffer.cpp:23-55 | exactly the bytes read are appended, whether or not they overflow into the extra block |
| Buffers.MsgBuffer.PrependThenRead | src/network/base/MsgBuffer.h:245-337 | prepending an integer and reading it gives it back and restores the window |
| Buffers.LayoutRefinesBytes | src/network/base/MsgBuffer.h:123-380 | at every point of every run the content of the indexed, growing buffer is what the operations carried out so far make of a plain byte sequence |
| Buffers.Carry | src/network/base/MsgBuffer.h:123-380 | which operations the buffer carries out: every append, a read up to the room and 65536 bytes more, a prepend up to the bytes in front, a retrieve or unwrite up to the content |
| Buffers.RoomInFront | src/network/base/MsgBuffer.h:50-58 | 8 bytes are free in front at the start, and again once everything was retrieved |
| Buffers.Run | src/network/base/MsgBuffer.h:123-380 | every run of the object: every append is carried out, of the others exactly those whose assertion holds in turn, and the content is their replay on a plain byte sequence |
| Framing.SplitInvariant | src/network/TestContext.cc:10-47 | feeding a then b leaves the state, the unread bytes and the deliveries that feeding a + b leaves |
| Framing.ChunksDoNotMatter | src/network/TestContext.cc:10-47 | the same for any cutting into reads |
| Framing.ParseIsFinal | src/network/TestContext.cc:10-47 | unread bytes are of no use until more arrive |
| Framing.ParseFrame | src/network/TestContext.cc:14-42 | one frame delivers its body, except that an empty one waits for the next byte |
| Framing.FrameInBytes | src/network/net/test/TcpClientTest.cc:43-45 | a frame is four bytes of length, by number, and the message, which must be shorter than 2147483648 |
| Framing.NegativeLengthStopsTheParser | src/network/TestContext.cc:14-42 | after a header whose first byte is 128 or more nothing is ever delivered |
| Framing.WithoutCallback | src/network/TestContext.cc:28-42 | without a callback nothing is delivered and the bodies pile up in order |
| Framing.FramesRoundTrip | src/network/TestContext.cc:10-47 | the frames of a list of messages deliver that list and leave the parser idle; only an empty message at the end waits |
| Framing.PartOfAFrameWaits | src/network/TestContext.cc:10-47 | with a proper piece of a further frame appended the same list comes out and the piece is kept |
| Framing.DeliveredIsPrefix | src/network/TestContext.cc:10-47 | for every part of the stream the deliveries are a prefix of the messages |
| Framing.AsWrittenReturnsIff | src/network/TestContext.cc:12-46 | the loop as written returns iff the bytes do not stop inside a body, and then with the intended result |
| Framing.AsWrittenReturnsOnStreamIff | src/network/TestContext.cc:12-46 | on a stream of frames with n bytes of a further one the loop as written returns iff n is at most the header's 4 |
| Framing.HalfABodySpins | src/network/TestContext.cc:28-44 | a header and half of its body make the loop as written spin |
| Tcp.TestContext.ParseMessage | src/network/TestContext.cc:10-47 | the method computes the parse of the window: fields, unread bytes, deliveries and return code |
| SendQueue.TrimRemoves | src/network/net/TcpConnection.cc:106-119 | trimming by n removes exactly the first n bytes of the queue |
| SendQueue.ServeConserves | src/network/net/TcpConnection.cc:101-141 | for every list of kernel answers bytes leave from the front, none lost or repeated |
| SendQueue.ServeTakesAllOffered | src/network/net/TcpConnection.cc:101-128 | the write loop writes the sum of what the kernel takes, up to all there is, and then finishes a queue that does not end in an empty node |
| SendQueue.ServeStopsAt | src/network/net/TcpConnection.cc:101-141 | the write loop stops at the first answer that is no number of bytes and fails iff it is an error |
| SendQueue.DrainsIff | src/network/net/TcpConnection.cc:101-128 | the write loop can finish a queue iff its last node is not empty |
| SendQueue.EmptyEndIsNeverServed | src/network/net/TcpConnection.cc:101-128 | with an empty node at the end no answers ever finish the queue |
| SendQueue.SubmitConservesIff | src/network/net/TcpConnection.cc:189-228 | bytes written at once and bytes queued make up the buffer, unless write fails on an empty queue as written |
| SendQueue.SubmitByAnswer | src/network/net/TcpConnection.cc:189-228 | of k bytes taken the first k are written and the rest is queued; what an error and a full socket do in each mode; nothing is written behind waiting bytes |
| Tcp.TcpConnection.EnableWriting | src/network/net/EventLoop.cc:124-148 | the interest bits change as asked, and only for a registered connection |
| Tcp.TcpConnection.OnWrite | src/network/net/TcpConnection.cc:91-151 | the queue, the bytes given to the kernel and the closing are those of the answers; the complete callback runs only when all submitted bytes are written; waiting bytes keep write interest on; a drained registered connection has lost write interest and edge triggering |
| Tcp.TcpConnection.WriteLoop | src/network/net/TcpConnection.cc:101-141 | the loop against any list of answers gives what the function on queues gives |
| Tcp.TcpConnection.TrimQueue | src/network/net/TcpConnection.cc:106-119 | the trimming loop terminates with the trimmed queue |
| Tcp.TcpConnection.SendList | src/network/net/TcpConnection.cc:170-188 | the buffers join the end of the queue, nothing is written past waiting bytes, write interest is on |
| Tcp.TcpConnection.SendBuffer | src/network/net/TcpConnection.cc:189-228 | a direct write happens only on an empty queue, gives the kernel the first k bytes of an answer of k and queues the rest; what each other answer does; conservation iff no write fails as written; exactly when the complete callback runs |
| Tcp.TcpConnection.ReadOnce | src/network/net/TcpConnection.cc:58-66 | a read and the parser's call resume the parse with the bytes read |
| Tcp.TcpConnection.OnRead | src/network/net/TcpConnection.cc:49-83 | for any sizes of the reads the receiving side is that of one parse of all bytes taken, which are the sum of sizes of up to 65536 bytes; how it closes |
| EndToEnd.Session.SendMessage | src/network/net/test/TcpClientTest.cc:43-45 | header and body sent with two calls extend the stream by one frame |
| EndToEnd.Session.SenderWritable | src/network/net/TcpConnection.cc:91-151 | the sending side is what the answers make of it, and the link to the receiver is kept |
| EndToEnd.Session.SenderCloses | src/network/net/TcpConnection.cc:11-29 | a sender that closes outside its write loop keeps the link; what the kernel has taken still arrives |
| EndToEnd.Session.ReceiverReadable | src/network/net/TcpConnection.cc:49-83 | the bytes read move to the parser in order; each successful read takes at least one byte |
| EndToEnd.Session.DeliveredInOrder | src/network/TestContext.cc:10-47 | in every reachable state the deliveries are a prefix of the messages, and all but an empty last one once all bytes arrived, even from a sender that closed since |
| EndToEnd.Session.Take | src/network/net/TcpConnection.cc:11-228 | every step, closing for whatever reason included, keeps the link between what was sent, what is on the way and what was parsed |
| EndToEnd.AcceptedAreFirst | src/network/net/TcpConnection.cc:189-195 | the messages accepted are the first of those sent, all of them while the sender is open |
| EndToEnd.SentIsFramed | src/network/net/TcpConnection.cc:91-228 | over whole runs the bytes taken and the bytes queued of an open sender are the frames of the messages accepted |
| EndToEnd.WritableMakesProgress | src/network/net/TcpConnection.cc:91-151 | in any run a writable open sender gives the kernel as many waiting bytes as it takes; if it takes all, every byte of every message is with the kernel and the queue is empty |
| EndToEnd.SenderAfterStep | src/network/net/TcpConnection.cc:11-228 | closing closes the sender, reading leaves it alone, a send to an open sender is accepted, and nothing changes a closed one |
| EndToEnd.ClosingIdleLosesNothing | src/network/net/TcpConnection.cc:11-29 | a sender that closes while nothing is queued has given the kernel every byte of every message |
| EndToEnd.Exchange | src/network/net/TcpConnection.cc:11-228 | over whole runs with any partial writes, any cut reads and any closing of either end: the sending side is what the steps make of it, delivered is a prefix of accepted, accepted of sent; a receiver that reads enough gets everything; equality once all bytes of the accepted messages arrived |
| FunctionQueue.LoopQueue.RunInLoop | src/network/net/EventLoop.cc:187-214 | on the loop's thread a function runs at once with all it calls; from another it only joins the queue |
| FunctionQueue.LoopQueue.Execute | src/network/net/EventLoop.cc:187-193 | calls made inside a function run inside it, never enqueue, and end |
| FunctionQueue.LoopQueue.RunFunctions | src/network/net/EventLoop.cc:217-226 | a drain runs the queued functions once each in order, empties the queue and terminates |
| FunctionQueue.CallsRunInside | src/network/net/EventLoop.cc:187-193 | the calls a function makes run right after it, in order, each with all it calls in turn |
| FunctionQueue.CalledFunctionsRun | src/network/net/EventLoop.cc:187-193 | every function called, however deep, runs after the one that leads to it, with all it calls in one piece |
| FunctionQueue.ExactlyOnceInPushOrder | src/network/net/EventLoop.cc:187-226 | when only other threads push, what ran followed by what waits is what was pushed |
| FunctionQueue.EachRunsOnce | src/network/net/EventLoop.cc:187-226 | whoever hands functions over, those of the loop's own thread and those pushed up to the last drain have run exactly once each, and nothing else has |
| FunctionQueue.Interleave | src/network/net/EventLoop.cc:187-226 | for every interleaving of threads and loop the functions run are those pushed up to the last drain, in push order, and the loop's own at once; nothing is lost or run twice |
| Server.TcpServer.AddEvent | src/network/net/EventLoop.cc:93-108 | connections, set and table name each other one to one afterwards iff no other open connection has the new descriptor |
| Server.TcpServer.DelEvent | src/network/net/EventLoop.cc:109-123 | afterwards the table names the other open connections, and only them, one to one |
| Server.TcpServer.EnableCheckIdleTimeout | src/network/net/TcpConnection.cc:250-256 | the connection keeps the idle time and refers to a new entry, which the wheel holds aimed at its deadline if it accepts the delay |
| Server.TcpServer.OnAccept | src/network/TcpServer.cc:30-51 | registry, trace and idle entries stay consistent and the connection is due for closing 30 ticks later |
| Server.TcpServer.OnClose | src/network/net/TcpConnection.cc:11-24 | an open connection leaves the set and the table, its destroy callback runs before its descriptor closes; a closed one is left alone |
| Server.TcpServer.OnTimeout | src/network/net/TcpConnection.cc:242-248 | an open connection is destroyed and its descriptor closed; a timeout of one closed earlier changes neither connections nor trace |
| Server.TcpServer.Dispatch | src/network/net/TcpConnection.h:75-88 | exactly the connections whose idle entry ran are closed |
| Server.TcpServer.OnTimer | src/network/net/EventLoop.cc:77-79 | a timer call closes exactly the open connections accepted 30 ticks ago, whatever else the wheel holds and whatever callbacks ask of it meanwhile |
| Server.TcpServer.Close | src/network/net/TcpConnection.cc:25-29 | closing keeps registry, trace and the idle entries of the others; a closed connection is left alone |
| Server.TcpServer.UseWheel | src/network/net/EventLoop.cc:239-298 | callbacks, periodic tasks and sockets that extend entries of their own touch neither the connections nor their idle entries |
| Server.TakeStep | src/network/TcpServer.cc:30-63 | every step takes the server, and the record of accepts and closes, to the state the step determines |
| Server.RegistryAfterClose | src/network/TcpServer.cc:53-63 | after a close the open connections, the set and the table still name each other one to one |
| Server.TraceOfClose | src/network/net/TcpConnection.cc:15-23 | after a close each closed connection was destroyed once and its descriptor closed once, in that order |
| Server.TimeoutIsDue | src/network/net/TcpConnection.h:79-86 | the entry of a connection is among the firings of a tick iff that tick is its deadline |
| Server.ClosedByStepIff | src/network/net/TcpConnection.cc:242-248 | at any step of any run an open connection is closed iff the step closes it or is the timer call that makes the 30th tick after it was accepted |
| Server.AcceptGivesAConnection | src/network/TcpServer.cc:30-51 | any descriptor that is not open becomes one more open connection, accepted at the current tick; nothing else changes |
| Server.OtherStepsMakeNoConnection | src/network/TcpServer.cc:53-63 | no other step makes or forgets a connection, or changes one it does not close |
| Server.WheelAfterStep | src/network/net/EventLoop.cc:77-79 | a timer call a second or more after the time kept makes one tick with all that callbacks ask for, other code's operations take effect, a close does not touch the wheel |
| Server.TurnsAreAccounted | src/network/TcpServer.cc:30-63 | over whole runs the record is right: a closed connection was closed by idleness at exactly the 30th tick or before it for another reason, and an open one has not reached that tick |
| Server.IntendedTurnsNeverCrash | src/network/net/TimingWheel.cc:43-134 | as meant no run of the server crashes, unless other code asks for a periodic entry the wheel refuses |
| Server.Serve | src/network/TcpServer.cc:30-63 | over whole runs connections, tick and record are those the steps determine; registry and trace are consistent; every close is recorded with its tick and reason; no crash in the intended mode |
| Udp.UdpSocket.constructor | src/network/net/UdpSocket.cc:5-8 | the buffer starts empty with room for a whole datagram |
| Udp.UdpSocket.ReadOne | src/network/net/UdpSocket.cc:65-70 | the callback sees exactly the datagram and the room is there again afterwards |
| Udp.UdpSocket.OnRead | src/network/net/UdpSocket.cc:25-83 | every iteration starts with an empty window and 65535 writable bytes; the nonempty datagrams are delivered in order |
| Udp.DeliveredOne | src/network/net/UdpSocket.cc:25-83 | an empty datagram is passed over, one of up to 65535 bytes comes as it is, of a longer one its first 65535 bytes come |
| Udp.DeliveredInOrder | src/network/net/UdpSocket.cc:25-83 | deliveries of two batches follow each other |
| Udp.DeliveredUnchanged | src/network/net/UdpSocket.cc:25-83 | datagrams of 1 to 65535 bytes are all delivered unchanged, in order |

## Left out

- Sockets, epoll, pipes and descriptors: the kernel's answers are parameters, within their documented ranges; when a list of answers ends the kernel would block.
- Memory: buffers in the send queue are byte sequences, so nothing is said about how long the caller must keep them; of the memory around a buffer only the byte before it is modelled.
- Floating-point delays: a delay is the natural number it is converted to.
- Destruction of the wheel itself with the loop, which drops every entry.
- A wheel's callbacks are a log entry, the next round of periodic entries, and the RunAfter and RunEvery they call; which callback asks for what is left open, and extensions made by a callback in the middle of a tick are not modelled.
- ParseMessage: the class returns on an incomplete body where the code as written spins; the loop as written is modelled by functions (AsWrittenReturnsIff), since a method here must terminate.
- A second EnableCheckIdleTimeout on the same connection is covered by the method's contract but is no step of the server's runs; the server never makes one.
- A destroy callback that closes its own connection again, which recurses without end.
- Bytes still queued when a connection closes: they stay unsent, as in the code, and nothing is claimed about them.
- UDP sending and closing: names are shadowed in the base class and the close guard is inverted, so no meaning is settled there.
- Wrap-around of the 64-bit `tick_` and of 64-bit buffer sizes: both are natural numbers.
- findCRLF, findEOL, appendInt8, swap and the addresses handed to callbacks of UDP reads: they would only add easy members.
- Acceptor, client connection set-up, DNS, thread pools, logging, configuration and the JSON library.
