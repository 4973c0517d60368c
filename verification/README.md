# A verified model of libcage's transport, routing table and value store

This project models the core of an overlay network library and of the small byte algorithms shipped with it, and
proves what they are for. It is written in Dafny 4.11; `dafny verify dfyconfig.toml` checks all of it.

**The reliable datagram transport** (`libcage/rdp.cpp`). `RdpSpec` describes every operation of a connection as a
function on a connection value. `RdpConnection.RdpCon` is the connection as the code keeps it: fields and two ring
arrays updated in place, every method proved to do what `RdpSpec` says, seen through `View()`. `RdpSystem` puts two
endpoints and a network together that delivers any segment ever sent at any time, any number of times, or never.
Where the code's behaviour is undefined (reading past a packet, a window of size 0, a ring whose count is off),
`Moves` lets anything happen, and `RdpTheorems.NothingUndefined` shows that no run between two honest endpoints gets
there. `RdpTheorems` states what holds of every run: delivery is a prefix of what was sent, buffers are released
only when the receiver has the data, both sides agree on the first numbers, and the windows are in order.
`RdpProgress` shows the converse possibility, for runs in which each host has one retry limit and a clock that does not
go back: while both sides are open, deliveries of segments on the wire bring the receiver exactly the bytes its peer
accepted, and after a total loss one tick of the sender is enough to start with, unless a segment has been waiting
beyond the retry limit. `RdpHandshake` does the same for opening and closing: every handshake under way can complete,
also after a total loss, and whatever is then sent arrives. `RdpExact` says what acknowledging, releasing, sending,
reading and refusing amount to, in terms of the windows and the wire. `RdpTables` holds the descriptor, listening-port and connection tables around the connections,
with callbacks and deferred closes, and runs of them.

**The XOR-metric routing table** (`libcage/rttable.cpp`). `RoutingTable.RtTable.Lookup` visits only some buckets, yet
returns exactly what sorting all contacts would give. Buckets change by additions, ping answers and ping timeouts.
`Merging.MergeNodes` merges two lists by distance.

**The DHT** (`libcage/dht.cpp`). `FindNodeQuery` describes the iterative find-node query as a value that replies and
timeouts change, with theorems over every run of them; `FindNodeQuery.Query` is the record updated in place, proved to
do the same. `DataStore` is the value store with its rule for unique values.

**Numbers** (`libcage/bn.hpp`). `Bn`, `BnShift`, `BnIds` and `BnHex` prove the limb arithmetic, shifts, comparison,
bytes and hexadecimal text against integers, for any number of 32-bit limbs, and tie them to the 160-bit identifiers;
`BnBits` does so for the masks and complements with which the routing table looks at single bits.

**Byte algorithms** (`icm-ios-agent/Crytpo`). Streaming SHA-1 with a rolling schedule and renamed registers against
FIPS 180-1 (with the digest of "abc" worked out), HMAC against section 2 of RFC 2104, and the Base64 coder with line
breaks.

Properties that do not hold of the code are stated with the exact condition under which they do and an input at which
they fail:

- The send ring survives an extended ack exactly when the oldest segment is left alone:
  `RdpConnection.RdpCon.RecvEack`, `RdpTheorems.HeadEackBreaksRing`.
- A SYN sets up a connection that can send, and a ring whose length can be a modulus, exactly when it allows at least
  one segment: `RdpTheorems.UsableExact`, `RdpTheorems.ZeroWindowTaken`.
- A handshake under way can complete, unless each side has received the other's SYN before the answer to its own; two
  such sides repeat their SYNs for ever: `RdpHandshake.HandshakeCompletes`, `RdpHandshake.CrossedForever`,
  `RdpHandshake.SynsCross`.
- The window test tells new numbers from old ones until all but a window's worth have gone by:
  `RdpProofReceive.AcceptanceExact`, `RdpProofReceive.OldNumberPasses`.
- The routing table stays in order exactly until a contact is removed from a row on which a ping is pending:
  `RoutingTable.TableInOrder`, `RoutingTable.RemovalBreaks`.
- A query counts its open questions exactly until an answer of the wrong length is accepted, and then never ends:
  `FindNodeQuery.CounterExact`, `FindNodeQuery.DamagedAnswer`.
- The candidates of a query are the ten nearest of all it has heard of as long as no known node falls silent and no
  reply repeats a node; after that an eleventh node stays forgotten: `FindNodeQuery.NearestHeard`,
  `FindNodeQuery.ForgottenNode`. What holds in every run is `FindNodeQuery.LostForCause`.
- Subtraction loses a carry exactly at certain limbs: `Bn.MinusExact`, `Bn.MinusFails`.
- Base64 text comes back unless the length is a positive multiple of 54: `Base64.RoundTripExact`,
  `Base64.FullLineLost`.

Where the code departs from its own comments, the model follows the code: the answer to a repeated SYN carries
acknowledgement number 0 (`libcage/rdp.cpp:1183-1193`), the EACK branch in SYN-RCVD cuts the acknowledgement number
to 8 bits (`libcage/rdp.cpp:1303-1305`), a SYN in OPEN is echoed with a reset header appended
(`libcage/rdp.cpp:1519`), the ping answer over IPv6 never matches (`libcage/rttable.cpp:254-255`), and a
non-hexadecimal character ends a number only after the digits before it have been shifted (`libcage/bn.hpp:976-999`).

## Model

| member | source | states |
|---|---|---|
| `RdpTheorems.DeliveryIsPrefix` | libcage/rdp.cpp:1822-1869 | In every state of every run with fewer than 2^32 - 2048 segments a side, whatever the network loses, repeats or reorders, the bytes a side has handed out plus those queued for reading are a prefix of the bytes its peer accepted for sending. |
| `RdpTheorems.ReleaseSafety` | libcage/rdp.cpp:1748-1820 | In every run a chunk's buffer is gone only if the receiver has the chunk, and the oldest unacknowledged segment is never marked as acknowledged out of order. |
| `RdpTheorems.NextChunkRecoverable` | libcage/rdp.cpp:1748-1785 | In every run the chunk a receiver waits for is still buffered, unchanged, by its sender. |
| `RdpTheorems.HandshakeAgreement` | libcage/rdp.cpp:1010-1152 | Once either side is open, each side has the other's first sequence number right, under loss, duplication and reordering. |
| `RdpTheorems.OpensOnlyOnOwnAck` | libcage/rdp.cpp:1318-1354 | A connection gets past the handshake only on a segment that acknowledges its own first number. |
| `RdpTheorems.WindowsInOrder` | libcage/rdp.cpp:1677-1785 | In every run sent slots hold the consecutive numbers after the last acknowledged one, at most the peer's limit is outstanding, nothing waits unless the limit is reached, held receive slots carry the number of their place, the head is free, and acknowledged <= received <= sent. |
| `RdpTheorems.NothingUndefined` | libcage/rdp.cpp:1543-1559 | No run between honest endpoints reaches a state where an enabled step reads outside a packet, divides by zero or moves the send ring without counting. |
| `RdpTheorems.ReachableGood` | libcage/rdp.cpp:627-742 | The two-party invariant holds in every state of every run. |
| `RdpTheorems.RetransmitCovers` | libcage/rdp.cpp:1629-1675 | A buffered sent segment whose timer ran out is on the wire again after a pass, unless the pass breaks the connection. |
| `RdpTheorems.InSequenceAdvances` | libcage/rdp.cpp:1822-1869 | A segment carrying the chunk waited for always advances the receiver. |
| `RdpTheorems.EackReport` | libcage/rdp.cpp:1871-1932 | A delayed ack lists at most 64 numbers, all recovered by the parser, each held beyond the next expected one and not reported before; with room to spare everything held has been reported. |
| `RdpProgress.EverythingCanArrive` | libcage/rdp.cpp:1701-1869 | In every run with both sides open, fixed retry limits and clocks that do not go back, deliveries alone of segments on the wire lead on to a run after which the receiver has handed out or queued exactly the bytes its peer accepted. |
| `RdpProgress.LossIsRepaired` | libcage/rdp.cpp:1629-1675 | The same if the network has lost everything it carried: one tick of the sender and deliveries of what is sent from then on, provided no unacknowledged segment has been waiting beyond the sender's retry limit. |
| `RdpProgress.ImpatienceEnds` | libcage/rdp.cpp:1650-1656 | A tick closes an open connection if and only if an unacknowledged sent segment has been waiting beyond the limit, whatever the time. |
| `RdpProgress.PatienceRunsOut` | libcage/rdp.cpp:1629-1675 | With the initial limit of 32, six retransmissions of one segment lead to a state in which every further tick closes the connection. |
| `RdpProgress.ReachableOnWire` | libcage/rdp.cpp:1701-1746 | In every run each sent segment that is not acknowledged out of order has been put on the wire with its number and contents. |
| `RdpProgress.ProgressPossible` | libcage/rdp.cpp:1701-1869 | Whenever accepted data is missing at the receiver, at most three deliveries bring the receiver further and leave both sides open. |
| `RdpProgress.SentIsReceived` | libcage/rdp.cpp:1822-1869 | If a sent chunk is missing, one delivery of a segment on the wire suffices. |
| `RdpProgress.WindowOpens` | libcage/rdp.cpp:1748-1785 | If all that was sent has arrived and the window is full, a segment the receiver already has draws an ack, and the ack lets the sender send more. |
| `RdpHandshake.HandshakeCompletes` | libcage/rdp.cpp:1010-1354 | In every timed run in which one side is in SYN-SENT and the other listens, is in SYN-SENT too or has answered, or only the last ack is missing, at most three deliveries of segments on the wire open both sides. |
| `RdpHandshake.HandshakeSurvivesLoss` | libcage/rdp.cpp:82-133 | The same after everything in the network has been lost: one tick of a side that has not given up and at most three deliveries. |
| `RdpHandshake.ConnectedAndDelivered` | libcage/rdp.cpp:367-403 | From the first SYN to the last byte: deliveries open both sides, and any buffer of up to 4096 full segments that either side then sends arrives exactly. |
| `RdpHandshake.ConfirmedExact` | libcage/rdp.cpp:1318-1354 | A connection in SYN-RCVD opens if and only if an acceptable segment acknowledges its first number and it is active or still listened for; without its listener it is closed at once. |
| `RdpHandshake.GreetedExact` | libcage/rdp.cpp:1010-1157 | A connection in SYN-SENT opens exactly on a SYN that acknowledges its first number and acknowledges it, goes to SYN-RCVD exactly on a bare SYN, ends exactly on a reset with an ack, and rejects any other ack number. |
| `RdpHandshake.SynRcvdEndsExactly` | libcage/rdp.cpp:1160-1410 | When a connection in SYN-RCVD ends, and what it answers to a repeated SYN, an unacceptable number, a wrong ack and an extended ack. |
| `RdpHandshake.ListenerExact` | libcage/rdp.cpp:888-1007 | Which segments call a listener, which it rejects and which it ignores. |
| `RdpHandshake.ReachableSyn` | libcage/rdp.cpp:583-622 | In every run a side that is opening has put its SYN or its answer on the wire and has taken nothing from its user. |
| `RdpHandshake.CrossedForever` | libcage/rdp.cpp:1175-1203 | Two sides in SYN-RCVD with nothing but SYNs on the wire never open, whatever is delivered and however often they tick, until one closes or gives up. |
| `RdpHandshake.SynsCross` | libcage/rdp.cpp:1119-1152 | Two active opens and the delivery of both SYNs lead there, in four steps from any fresh start. |
| `RdpHandshake.CloseCompletes` | libcage/rdp.cpp:421-506 | In every timed run with both sides open, a close by either and two deliveries leave one side in each closing state with the last word said. |
| `RdpHandshake.ClosingRepeats` | libcage/rdp.cpp:744-828 | Resets are repeated to a peer that still sends acks and at ticks, and answered every time. |
| `RdpHandshake.AbortUnderstood` | libcage/rdp.cpp:472-500 | Closing while opening ends the attempt and puts a reset on the wire that ends a peer in SYN-RCVD. |
| `RdpExact.AckExact` | libcage/rdp.cpp:1871-1932 | A delayed ack sends nothing if and only if all received is acknowledged and all held is reported; otherwise it is one segment that acknowledges all received, and this is noted. |
| `RdpExact.ReceivedIsAcked` | libcage/rdp.cpp:1860-1932 | In every run all but a quarter of the window of what a side has received in sequence is acknowledged by a segment on the wire. |
| `RdpExact.DueAckIsSent` | libcage/rdp.cpp:201-215 | In every run, after a tick at which an ack was due, everything received in sequence is acknowledged on the wire. |
| `RdpExact.NulAnswered` | libcage/rdp.cpp:1470-1497 | A NUL segment in sequence is received and acknowledged at once. |
| `RdpExact.PopExact` | libcage/rdp.cpp:1748-1782 | A cumulative ack in the window releases exactly the slots numbered up to it, any other nothing. |
| `RdpExact.EacksHeeded` | libcage/rdp.cpp:1536-1559 | An acceptable extended ack releases, after the cumulative one, exactly the sent slots whose numbers it lists. |
| `RdpExact.MarkAllExact` | libcage/rdp.cpp:1787-1810 | A list of numbers releases exactly the sent slots that carry them. |
| `RdpExact.SendExact` | libcage/rdp.cpp:367-403 | What `send` takes is the front of the buffer, in segments of full size but for the last, and it stops only at a full ring. |
| `RdpExact.FittingExact` | libcage/rdp.cpp:305-335 | What `receive` hands out fits, and the next packet would not. |
| `RdpExact.OpenEndsExactly` | libcage/rdp.cpp:1420-1534 | An open connection stops being open exactly on an acceptable reset or SYN, and answers what it cannot accept with an ack. |
| `RdpExact.RefusedUnlessReset` | libcage/rdp.cpp:831-885 | For no connection every segment but a reset is answered with one reset, whose numbers fit the segment. |
| `RdpTheorems.HeadEackBreaksRing` | libcage/rdp.cpp:1787-1820 | A state with one sent segment in which an extended ack for it breaks the ring. |
| `RdpTheorems.UsableExact` | libcage/rdp.cpp:950-963 | What a SYN sets up can send, has a ring of positive length and has its windows in order if and only if the SYN allows at least one segment. |
| `RdpTheorems.ZeroWindowTaken` | libcage/rdp.cpp:1618-1627 | Any listener takes a SYN that allows none, and is left with a ring of length 0, the modulus of the next index computation. |
| `RdpProofReceive.AcceptanceExact` | libcage/rdp.cpp:1420-1447 | A number passes the window test exactly when it lies ahead within the window or a full cycle less the window behind. |
| `RdpProofReceive.OldNumberPasses` | libcage/rdp.cpp:1420-1447 | The first number at which a segment 2^32 - 2048 numbers old passes the test of a window of 2048, while one number earlier it did not. |
| `RdpProofReceive.AcceptanceTestsAgree` | libcage/rdp.cpp:1420-1447 | The test on arrival in OPEN and the test of the receive window accept the same numbers. |
| `RdpProofReceive.DeliveredInOrder` | libcage/rdp.cpp:1847-1862 | What the receive window hands over is the next stretch of what the peer sent, each number once and in order. |
| `RdpProofReceive.ScanComplete` | libcage/rdp.cpp:1880-1897 | A scan that lists fewer numbers than it may leaves nothing unreported. |
| `RdpProofReceive.DelayedAckKeeps` | libcage/rdp.cpp:1871-1932 | Acknowledging keeps the two-party invariant: every number reported is held by the receiver and no earlier ack named its predecessor. |
| `RdpProofReceive.RecvDataKeeps` | libcage/rdp.cpp:1822-1869 | Receiving any data segment the peer ever sent keeps the two-party invariant. |
| `RdpProofReceive.ReceiveKeeps` | libcage/rdp.cpp:305-335 | Reading moves bytes from the queue to the user without losing or repeating any. |
| `RdpProof.SendChunksKeeps` | libcage/rdp.cpp:367-403 | Sending a buffer in chunks keeps the two-party invariant; the bytes accepted are the chunks in order. |
| `RdpProof.PopKeeps` | libcage/rdp.cpp:1748-1782 | A cumulative ack the peer ever sent, however old, releases only what the peer has received. |
| `RdpProof.MarkAllKeeps` | libcage/rdp.cpp:1543-1559 | An extended-ack list the peer ever sent releases only what the peer holds. |
| `RdpProof.RetransmitKeeps` | libcage/rdp.cpp:1629-1675 | Retransmission puts the same chunk under the same number on the wire. |
| `RdpProofStep.DeliverKeeps` | libcage/rdp.cpp:706-742 | Every handler keeps the two-party invariant on every segment the peer ever sent. |
| `RdpProofStep.ApplyKeeps` | libcage/rdp.cpp:63-222 | So does every other action: connect, send, receive, close and the timer. |
| `RdpProofStep.HeadNeverEacked` | libcage/rdp.cpp:1812-1819 | Against an honest peer the head-advance loop of `recv_eack` never moves. |
| `RdpProofStep.SynRejectedWhenOpen` | libcage/rdp.cpp:1499-1534 | No SYN of an honest peer passes the window test of an open connection. |
| `Segments.ParseOfSerialize` | libcage/rdp.hpp:80-94 | Every header and body is read back exactly as written. |
| `Segments.EackRoundTrip` | libcage/rdp.cpp:1543-1559 | The parser recovers exactly the list of up to 64 numbers the acknowledging side wrote, with a header length that fits 8 bits. |
| `SeqNum.WrapIsMod` | libcage/rdp.cpp:1708-1734 | The addition and subtraction used for sequence numbers are those of `uint32_t`. |
| `Ring.WrapIsMod` | libcage/rdp.cpp:1684-1705 | The ring index used is the remainder the code takes. |
| `RdpSpec.SendOstand` | libcage/rdp.cpp:1701-1746 | Sending waiting slots keeps the send window in order and leaves nothing waiting below the peer's limit. |
| `RdpSpec.PopAcked` | libcage/rdp.cpp:1748-1782 | A cumulative ack keeps the send window in order. |
| `RdpSpec.MarkEacked` | libcage/rdp.cpp:1787-1810 | An extended ack changes one slot at most and keeps the send window in order. |
| `RdpSpec.Absorb` | libcage/rdp.cpp:1822-1862 | Keeping a segment and draining the window leaves the receive window in order with its head free. |
| `RdpSpec.Input` | libcage/rdp.cpp:627-742 | Every handler leaves both windows in order. |
| `RdpConnection.RdpCon.SendOstandSwnd` | libcage/rdp.cpp:1701-1746 | The loop over ring indices sends what the specification says, although a full ring and an empty one share an index. |
| `RdpConnection.RdpCon.EnqueueSwnd` | libcage/rdp.cpp:1677-1699 | Refused exactly when the ring is full or the connection not open; otherwise the chunk joins at the end and what may be sent is sent. |
| `RdpConnection.RdpCon.Send` | libcage/rdp.cpp:367-403 | Cuts the buffer into segments until the window is full; -1 unless open; a peer that leaves no room for data gets empty segments. |
| `RdpConnection.RdpCon.Receive` | libcage/rdp.cpp:305-335 | Copies whole packets while they fit, in order. |
| `RdpConnection.RdpCon.FlushAcked` | libcage/rdp.cpp:1758-1780 | Walking the ring from its head drops exactly the slots the ack covers. |
| `RdpConnection.RdpCon.RecvAck` | libcage/rdp.cpp:1748-1785 | Follows the specification of a cumulative ack, in place. |
| `RdpConnection.RdpCon.RecvEack` | libcage/rdp.cpp:1787-1820 | The ring is in order afterwards if and only if the ack leaves the oldest sent slot alone, and then exactly the named slot is released. |
| `RdpConnection.RdpCon.RecvEacks` | libcage/rdp.cpp:1543-1559 | A list that leaves the oldest slot alone releases the slots it names. |
| `RdpConnection.RdpCon.Retransmit` | libcage/rdp.cpp:1629-1675 | The walk over the ring follows the specification; false exactly when the connection breaks. |
| `RdpConnection.RdpCon.Drain` | libcage/rdp.cpp:1847-1862 | Hands over the leading run of held slots, advances the number by its length and frees as many slots. |
| `RdpConnection.RdpCon.RwndRecvData` | libcage/rdp.cpp:1822-1869 | Follows the specification of receiving data, in place. |
| `RdpConnection.RdpCon.ListEacks` | libcage/rdp.cpp:1880-1897 | The scan bounded by a count of used slots ends, and finds and marks what the specification lists. |
| `RdpConnection.RdpCon.DelayedAck` | libcage/rdp.cpp:1871-1932 | Follows the specification of a delayed ack, in place. |
| `RdpConnection.RdpCon.InitRwnd` | libcage/rdp.cpp:1608-1616 | A new receive ring of twice the limit, all free. |
| `RdpConnection.RdpCon.InitSwnd` | libcage/rdp.cpp:1618-1627 | A new, empty send ring of four times the peer's limit. |
| `RdpConnection.RdpCon.Connect` | libcage/rdp.cpp:583-622 | The record a SYN leaves behind, and the SYN. |
| `RdpConnection.RdpCon.Close` | libcage/rdp.cpp:421-506 | What closing does in each state, and what it sends. |
| `RdpTheorems.RefusalUnderstood` | libcage/rdp.cpp:831-885 | The answer for no connection is at most one segment, a reset without data, never given to a reset, and itself never answered in CLOSED; it ends the attempt whose SYN it refuses and makes an open peer whose ack it refuses start to close. |
| `RdpConnection.RdpCon.InStateListen` | libcage/rdp.cpp:888-1007 | A SYN sets up numbers, limits and both rings, the send ring four times as long as it allows segments; other segments are dropped or reset; the windows are in order afterwards if and only if the SYN taken allows at least one segment. |
| `RdpConnection.RdpCon.InStateSynSent` | libcage/rdp.cpp:1010-1157 | Opens on a SYN that acknowledges the own first number, all other branches as written; the windows are in order afterwards if and only if the SYN taken allows at least one segment. |
| `RdpConnection.RdpCon.InStateSynRcvd` | libcage/rdp.cpp:1160-1410 | All branches as written, the two that depart from their comments included. |
| `RdpConnection.RdpCon.InStateOpen` | libcage/rdp.cpp:1413-1591 | All branches as written: window test, reset, NUL, SYN echo, acks, extended acks, data. |
| `RdpTheorems.ClosingExchangeEnds` | libcage/rdp.cpp:744-828 | The passive side of a close asks with one reset, the active side has the last word with one FIN, which is never answered; two active sides fall silent after one answer; no connection changes. |
| `RdpConnection.RdpCon.InputDgram` | libcage/rdp.cpp:627-742 | Short datagrams are dropped, the others go to the handler of the current state; the rings stay in order whatever a SYN announces, and the windows too if it allows at least one segment. |
| `RdpConnection.RdpCon.TimerTick` | libcage/rdp.cpp:63-222 | What one tick does to a connection in each state, with its deadlines passed or not. |
| `RdpTables.HandlersMove` | libcage/rdp.cpp:706-742 | The state changes the tables provide for are all that the segment handlers make. |
| `RdpTables.Rdp.Close` | libcage/rdp.cpp:405-507 | What closing does to the connections, now or deferred; the other connections keep their records. |
| `RdpTables.Rdp.Listen` | libcage/rdp.cpp:523-537 | One listener a port, under a new descriptor. |
| `RdpTables.Rdp.Connect` | libcage/rdp.cpp:539-625 | A new descriptor and a free address, entered under both keys; refused exactly when the given address is taken. |
| `RdpTables.Rdp.Callback` | libcage/rdp.cpp:353-356 | Whatever user code does in a callback, connections it does not close are untouched and connections that opened stay. |
| `RdpTables.Rdp.InvokeEvent` | libcage/rdp.cpp:337-365 | After an event the connections it closed for good are gone from all tables, the others it closed are closing, the rest are untouched. |
| `RdpTables.Rdp.Arrive` | libcage/rdp.cpp:706-742 | A segment leaves its own connection in the state the handler chose, or removes it if it was never accepted; only user code affects others. |
| `RdpTables.Rdp.ArriveNew` | libcage/rdp.cpp:982-1001 | A SYN to a listening port creates one passive connection under a new descriptor; nothing else does. |
| `RdpTables.Rdp.Tick` | libcage/rdp.cpp:77-222 | Which expired connections the timer removes and which it only closes. |
| `RdpTables.Rdp.HandleAll` | libcage/rdp.cpp:63-222 | Any sequence of user calls, segments for known and unknown addresses, and timer visits: at every point no two descriptors share an address, and each event changes the connections as its own contract says. |
| `RdpTables.NoCrossTalk` | libcage/rdp.cpp:627-742 | Over any such run a connection is unchanged unless a segment or timer of its own came or user code closed it by name. |
| `RdpTables.KeptUntilClosed` | libcage/rdp.cpp:77-222 | Over any such run a connection the user has keeps its descriptor and address until the user closes it, whatever the peer and the timers do. |
| `RdpTables.ClosedIsGone` | libcage/rdp.cpp:144-160 | A connection closed by its user is gone at once if it never opened, and otherwise when the timer next finds its time up. |
| `RdpTables.Rdp.OneToOne` | libcage/rdp.cpp:606-618 | The two connection tables describe the same connections one-to-one. |
| `RdpTables.Rdp.DescriptorsCounted` | libcage/rdp.cpp:405-415 | Descriptors in use are those of connections, of listeners, and of closed listeners, which are never given back. |
| `RoutingTable.RtTable.Lookup` | libcage/rttable.cpp:177-216 | Exactly the first `num` of all contacts and the owner in distance order. |
| `RoutingTable.RtTable.Id2i` | libcage/rttable.cpp:275-297 | The highest bit in which an identifier differs from the owner's, or -1. |
| `RoutingTable.RtTable.Id2i4Lookup` | libcage/rttable.cpp:299-328 | The buckets chosen leave out only farther ones; if they fall short, all set-bit buckets and the owner were chosen. |
| `RoutingTable.RtTable.Id2i4LookupR` | libcage/rttable.cpp:330-353 | Continues over the clear bits; if it falls short, every bucket was chosen. |
| `RoutingTable.GroupsInOrder` | libcage/rttable.cpp:299-353 | Every contact of an earlier bucket is nearer to the target than every contact of a later one. |
| `RoutingTable.FirstGroupsSuffice` | libcage/rttable.cpp:177-216 | Sorting the chosen buckets alone gives the nearest contacts of the whole table. |
| `RoutingTable.TableInOrder` | libcage/rttable.cpp:83-175 | In every run of additions, removals, ping answers and ping timeouts the table has been in order throughout if and only if no removal hit a row with a ping pending; in order means each entry is in the bucket of its highest differing bit, at most 20 a bucket and without repeats, `m_nodes` is exactly the set of stored identifiers, and pings are about the front entry of full rows, one a row. |
| `RoutingTable.EvictedOnlyByName` | libcage/rttable.cpp:42-60 | In every run an identifier once stored is gone later only if in between it was removed, or a ping sent to it timed out that it had not answered since it was sent. |
| `RoutingTable.AnswerSaves` | libcage/rttable.cpp:218-267 | In every run in order, a pinged entry that answers from its own IPv4 address is last in its row, with the others as before, and the ping is over. |
| `RoutingTable.AnswerExact` | libcage/rttable.cpp:218-267 | Exactly such answers do anything, and what they do to the row and the pings. |
| `RoutingTable.TimeoutExact` | libcage/rttable.cpp:42-60 | A timeout takes the silent front entry out of its row, lets the candidate in at the back and ends the ping. |
| `RoutingTable.PingUnanswered` | libcage/rttable.cpp:125-150 | In every run a ping in flight was sent by an addition to a full row and has not been answered since. |
| `RoutingTable.RtTable.Add` | libcage/rttable.cpp:83-152 | Stores, ignores or pings as the bucket allows, keeps the table in order and never drops an entry. |
| `RoutingTable.RtTable.RecvPingReply` | libcage/rttable.cpp:218-267 | The oldest entry moves to the back exactly when it answers from its own IPv4 address. |
| `RoutingTable.RtTable.PingTimeout` | libcage/rttable.cpp:42-60 | The entry that did not answer loses its place to the candidate that caused the ping. |
| `RoutingTable.RtTable.Remove` | libcage/rttable.cpp:154-175 | Takes the contact out in place, as `RemoveExact` judges it. |
| `RoutingTable.RemoveExact` | libcage/rttable.cpp:154-175 | From a table in order, removal leaves it in order if and only if the contact is not stored or no ping is pending on its row. |
| `RoutingTable.RemovalBreaks` | libcage/rttable.cpp:83-175 | A run of 21 newcomers to one row and the removal of the contact being pinged, in order until then and broken after it. |
| `Merging.MergeNodes` | libcage/rttable.cpp:417-469 | The loop computes that merge and keeps its promises. |
| `Merging.MergeGood` | libcage/rttable.cpp:417-469 | Merging any lists takes contacts from them without repeating an identifier; sorted lists give a sorted one, strictly sorted lists the first `max` of their union. |
| `Merging.ShortListStaysNearest` | libcage/rttable.cpp:417-469 | Merging new contacts into the nearest `num` of all known ones gives the nearest `num` of all known then: nothing forgotten is missed. |
| `Ids.CloserBit` | libcage/rttable.cpp:299-353 | Which of two identifiers is nearer is decided by the one highest bit in which they differ. |
| `Ids.LessIsNumeric` | libcage/bn.hpp:756-768 | The order by highest differing bit is the order of the 160-bit numbers. |
| `FindNodeQuery.FindNode` | libcage/dht.cpp:945-1004 | A query starts from exactly the ten nearest of all contacts in the routing table and the owner, as a start of the runs below. |
| `FindNodeQuery.TableStarts` | libcage/dht.cpp:945-1004 | What the look-up yields from any table in order is a sorted list of at most ten from which a run can start. |
| `FindNodeQuery.Query.FromTable` | libcage/dht.cpp:945-1004 | Given the list, up to six of its contacts are asked at once; an empty list is answered at once. |
| `FindNodeQuery.Query.Bootstrap` | libcage/dht.cpp:1377-1450 | A query through a bare address is live with exactly one question out, under identifier zero, and no candidates. |
| `FindNodeQuery.Query.SendFind` | libcage/dht.cpp:1020-1096 | The loop asks candidates not yet asked, nearest first, until six are out; with none out the user is called back and the query forgotten. |
| `FindNodeQuery.Query.Timeout` | libcage/dht.cpp:1147-1176 | The timer is gone, the counter lowered, the silent node no candidate any more, and asking goes on. |
| `FindNodeQuery.Query.RecvReply` | libcage/dht.cpp:1247-1358 | An expected answer stops one timer, lowers the counter and is merged before asking goes on; one of the wrong length, or of an unknown address family, only stops the timer; any other is ignored. |
| `FindNodeQuery.Query.HandleAll` | libcage/dht.cpp:1147-1358 | Any sequence of replies and timer calls to the record in place is a run, so that every statement about runs holds of it. |
| `FindNodeQuery.CounterExact` | libcage/dht.cpp:1283-1331 | In every run the counter equals the questions out if and only if no event so far was an accepted answer of the wrong length; after one the query stays live and never answers. |
| `FindNodeQuery.DamagedAnswer` | libcage/dht.cpp:1283-1331 | A run of two events, a damaged answer and the whole one, after which a query waits for ever with nothing out. |
| `FindNodeQuery.Stuck` | libcage/dht.cpp:1247-1331 | A live query with nothing out changes no more, whatever comes. |
| `FindNodeQuery.OneAnswer` | libcage/dht.cpp:1065-1096 | In every run the user is called back at most once, exactly when the counter is zero, with contacts that were all asked or have answered; without damaged answers, exactly when nothing is out. |
| `FindNodeQuery.OverForGood` | libcage/dht.cpp:1076-1096 | A query that has answered changes no more. |
| `FindNodeQuery.QuestionsConserved` | libcage/dht.cpp:1020-1058 | In every run questions settled plus questions out are the questions sent; at most six are out, nobody is asked twice and the owner never. |
| `FindNodeQuery.NearestHeard` | libcage/dht.cpp:1300-1358 | In every run without timeouts of known nodes and without replies that name a node twice, the candidates are the ten nearest of every contact ever heard of and of those the first list was chosen from. |
| `FindNodeQuery.NearestKnown` | libcage/dht.cpp:945-1358 | Such a run that starts from a routing table has as its candidates the ten nearest of the whole table, the owner and everything heard. |
| `FindNodeQuery.SilenceExact` | libcage/dht.cpp:1147-1176 | A timeout of a known node leaves exactly the other candidates, in order. |
| `FindNodeQuery.SilentNodeGone` | libcage/dht.cpp:1160-1168 | In every run a known node that fell silent is a candidate later only if an accepted reply has named it since. |
| `FindNodeQuery.LostForCause` | libcage/dht.cpp:1160-1350 | In every run, timeouts included, a candidate is lost only by falling silent, or to ten nearer ones, or to a reply that repeats a node. |
| `FindNodeQuery.ForgottenNode` | libcage/dht.cpp:1340-1350 | An eleventh node named by a reply is not among the candidates even after one of the ten has fallen silent. |
| `FindNodeQuery.DealtWithMeansAsked` | libcage/dht.cpp:1020-1058 | In every run a node is no longer to be asked only if it is the owner, was asked, has answered or fell silent. |
| `FindNodeQuery.RunOk` | libcage/dht.cpp:945-1358 | The invariant of a query holds in every state of every run: candidates sorted and at most ten, every question accounted for, no candidate waiting unless six questions are out. |
| `FindNodeQuery.QuestionsBounded` | libcage/dht.cpp:1020-1058 | In every run a query asks no more nodes than it has heard of. |
| `DataStore.UniqueAlone` | libcage/dht.cpp:141-267 | In every run a key that holds a unique value holds nothing else. |
| `DataStore.OwnershipHolds` | libcage/dht.cpp:170-211 | In every run only its source can replace or erase a unique value before it expires. |
| `DataStore.OwnerReplaces` | libcage/dht.cpp:181-194 | The source itself replaces its value, and may erase it. |
| `DataStore.AddExact` | libcage/dht.cpp:141-227 | A value offered is taken if and only if the key is absent, or a unique value of the same source makes way for a unique one, or no unique value holds the key and no other source the value; then it is there with the times given and nothing else has changed but the value replaced. |
| `DataStore.EraseExact` | libcage/dht.cpp:229-267 | An erasure takes away exactly the value it names, if it comes from its source. |
| `DataStore.SweepExact` | libcage/dht.cpp:2221-2255 | A value is there after a sweep if and only if it was there before and its time is not up. |
| `DataStore.TakenIsThere` | libcage/dht.cpp:141-227 | In every run a value taken is there with the times given until its source offers or erases it again, a unique one of its source replaces it, or a sweep finds its time up. |
| `DataStore.ValueStays` | libcage/dht.cpp:141-267 | In every run a stored value keeps its entry until then. |
| `DataStore.GoneWhenDue` | libcage/dht.cpp:229-267 | In every run a value is gone after its source erased it or a sweep found its time up. |
| `DataStore.Store.Add` | libcage/dht.cpp:141-227 | Keeps the rule and follows the specification, in place. |
| `DataStore.Store.Merge` | libcage/dht.cpp:170-227 | What becomes of the values under a key that is present. |
| `DataStore.Store.Erase` | libcage/dht.cpp:229-267 | Erases only for the source; a key without values is dropped. |
| `DataStore.Store.Refresh` | libcage/dht.cpp:2221-2255 | The sweep removes exactly the expired values and the keys left empty. |
| `Bn.Plus` | libcage/bn.hpp:203-244 | Addition modulo 2^(32N), also when the result overwrites an operand. |
| `Bn.PlusLimb` | libcage/bn.hpp:246-289 | Addition of one limb modulo 2^(32N). |
| `Bn.Times` | libcage/bn.hpp:398-428 | The product modulo 2^(32N). |
| `Bn.AddRow` | libcage/bn.hpp:412-425 | One row of the product, every 64-bit accumulation in range. |
| `Bn.Minus` | libcage/bn.hpp:300-341 | What the subtraction loop computes, limb by limb. |
| `Bn.MinusExact` | libcage/bn.hpp:300-341 | Subtraction modulo 2^(32N) if and only if no limb but the most significant holds 2^32-1 with 0 subtracted and no borrow due. |
| `Bn.MinusFails` | libcage/bn.hpp:311-315 | 2^33 - 1 minus 0 comes out as 2^32 - 1. |
| `BnShift.ShiftLeft` | libcage/bn.hpp:821-856 | Multiplication by a power of two modulo 2^(32N), for every count that stays inside the array; negative counts shift right. |
| `BnShift.ShiftRight` | libcage/bn.hpp:782-819 | Division by a power of two, likewise. |
| `BnIds.LessThan` | libcage/bn.hpp:756-768 | The first differing limb decides as the numbers do. |
| `BnIds.Same` | libcage/bn.hpp:724-733 | Equal limbs are equal numbers. |
| `BnIds.LimbsCompare` | libcage/bn.hpp:756-768 | Five limbs and 160 bits stand for the same number and compare the same way. |
| `BnIds.XorOf` | libcage/bn.hpp:486-498 | The limbs of the XOR distance of two identifiers. |
| `BnBits.Id2i` | libcage/rttable.cpp:275-297 | A one-bit mask shifted down over the limbs of the XOR finds the highest bit in which two identifiers differ, or -1. |
| `BnBits.FlipBit` | libcage/rttable.cpp:299-328 | The limbs XORed with `1 << i` are the identifier with bit `i` turned over. |
| `BnBits.BitIsClear` | libcage/rttable.cpp:330-353 | `1 << i` and the complement of the XOR have a common bit exactly when the identifiers agree in bit `i`. |
| `BnHex.ToBinary` | libcage/bn.hpp:873-893 | Whole limbs in network byte order; the rest of the buffer untouched. |
| `BnHex.FromBinary` | libcage/bn.hpp:895-919 | As many limbs as the bytes fill, zeros for the rest. |
| `BnHex.ToString` | libcage/bn.hpp:939-967 | Two digits a byte that spell the number. |
| `BnHex.FromString` | libcage/bn.hpp:976-999 | The value of the leading digits modulo 2^(32N), moved one digit up if another character follows them. |
| `BnHex.HexRoundTrip` | libcage/bn.hpp:939-999 | All-digit text stands for its value, and the text of a number for that number. |
| `BnHex.RoundTrip` | libcage/bn.hpp:939-999 | Text written reads back as the same limbs. |
| `Sha1Stream.FastRoundIsRound` | icm-ios-agent/Crytpo/sha1.c:42-48 | A macro that changes two of five variables is a round of section 7 of FIPS 180-1 with the names rotated. |
| `Sha1Stream.FastWordIsW` | icm-ios-agent/Crytpo/sha1.c:28-40 | The sixteen words kept yield the 80-word schedule. |
| `Sha1Stream.Transform` | icm-ios-agent/Crytpo/sha1.c:51-103 | The compression of one block; words 64 to 79 of its schedule are left in its place and bytes outside it are untouched. |
| `Sha1Known.AbcDigest` | icm-ios-agent/Crytpo/sha1.c:51-174 | The digest of "abc" is the one printed in appendix A of FIPS 180-1, so that the initial values, constants and functions are the standard's. |
| `Sha1Context.CountAdvances` | icm-ios-agent/Crytpo/sha1.c:127-129 | The carry between two 32-bit words counts bits modulo 2^64. |
| `Sha1Context.Ctx.Update` | icm-ios-agent/Crytpo/sha1.c:122-141 | The state is that of everything fed in so far; data is altered only where whole blocks were hashed in place. |
| `Sha1Context.Ctx.Final` | icm-ios-agent/Crytpo/sha1.c:144-174 | The FIPS 180-1 digest of everything fed in. |
| `Sha1Context.PadLength` | icm-ios-agent/Crytpo/sha1.c:154-158 | The padded message is a whole number of blocks. |
| `Sha1Context.DigestOfPieces` | icm-ios-agent/Crytpo/sha1.c:108-174 | Every way of cutting a message into updates gives its digest. |
| `Hmac.HmacSha1` | icm-ios-agent/Crytpo/hmac.c:37-88 | HMAC of section 2 of RFC 2104 over SHA-1; long keys are hashed first. |
| `Base64.EncodeData` | icm-ios-agent/Crytpo/Base64Transcoder.c:118-164 | Overflows exactly when the size does not fit an `int`, is refused exactly when the output is too small, and otherwise writes the encoding, line breaks included. |
| `Base64.SizeExact` | icm-ios-agent/Crytpo/Base64Transcoder.c:104-109 | The size estimate is the exact length of the encoding. |
| `Base64.LetterIsAlphabet` | icm-ios-agent/Crytpo/Base64Transcoder.c:33-50 | The letters are those of section 4 of RFC 4648 in their order. |
| `Base64.GroupSpells` | icm-ios-agent/Crytpo/Base64Transcoder.c:126-140 | Four letters spell in base 64 the number their three bytes make. |
| `Base64.BreaksExact` | icm-ios-agent/Crytpo/Base64Transcoder.c:126-160 | CR and LF stand exactly after every 72 characters. |
| `Base64.LargestInputs` | icm-ios-agent/Crytpo/Base64Transcoder.c:104-116 | The longest inputs whose size computation stays within an `int`. |
| `Base64.DecodeData` | icm-ios-agent/Crytpo/Base64Transcoder.c:166-230 | Overflows exactly when the size does not fit an `int`, is refused exactly when the output is smaller than the estimate; otherwise the bytes the six-phase machine yields, or the finding that it would read outside the input or its table. |
| `Base64.RoundTripExact` | icm-ios-agent/Crytpo/Base64Transcoder.c:118-230 | Decoding an encoding gives the input back if and only if its length is not a positive multiple of 54; then the decoder runs off the end. |
| `Base64.FullLineLost` | icm-ios-agent/Crytpo/Base64Transcoder.c:118-230 | The shortest input that does not come back. |

## Left out

- More than one incarnation of a connection per side in the two-party runs: a delayed segment of an earlier incarnation could carry any number.
- Clocks: deadlines of the SYN, reset and ack timers are arbitrary choices of the environment; the flag that stops repeating a reset only removes segments and is not modelled.
- RdpTables.Rdp.Tick: visits one connection, and whether its time is up is an argument. The code walks the table with an iterator, which dangles if a callback closes for good the very connection it already points to.
- RdpTables.Rdp.Connect: returns -1 if no local port is free, where the code would draw numbers for ever; like the code it does not turn down ports below 1024.
- Descriptors are unbounded integers; the code draws 32-bit ones until one is unused.
- The sequence number of a slot not yet sent keeps a stale value in the code; the model writes 0. Only `recv_eack` can read it, at the head of the ring when nothing has been sent from it, and there it changes nothing.
- User callbacks of the two-party runs: events are not shown; what user code does in one is a later step of the run. The tables model callbacks as such.
- packetbuf: its 1024-byte buffer, moving head and shared ownership; a packet is a sequence of bytes.
- RdpConnection.RdpCon.RecvEacks: lists that touch the oldest sent slot are left out, since the ring is lost with the first such number (RdpConnection.RdpCon.RecvEack); the same goes for RdpConnection.RdpCon.InStateOpen and RdpConnection.RdpCon.InputDgram, and for lists longer than the packet, which the code reads past its end. No run between honest endpoints meets either.
- RdpConnection.RdpCon.InStateOpen: see RdpConnection.RdpCon.RecvEacks.
- RdpConnection.RdpCon.InputDgram: see RdpConnection.RdpCon.RecvEacks.
- What a connection does once a SYN has announced a window of 0: its next index computation divides by zero.
- RdpConnection.RdpCon.Send: a peer that announces segments smaller than the 20-byte header makes the code copy a negative number of bytes; that is left out.
- RdpConnection.RdpCon.TimerTick: which deadlines of the SYN, reset and ack timers have passed is an argument; those of the retransmissions are computed.
- RdpProgress.EverythingCanArrive: says that delivery stays possible, not that a fair network brings it about; `set_max_retrans` in mid-connection is not a step of these runs.
- RdpTables.Rdp.Arrive: the state a handler leaves behind is an argument, tied to the handlers by RdpTables.HandlersMove.
- RoutingTable.RtTable.Add: the second search of the row, which can find nothing because `m_nodes` is exact, is not written out.
- BnShift.ShiftLeft: counts of 32(N+1) bits and more would write outside the array and are excluded.
- Sha1Context.Ctx.Update: a length whose sum with the bytes waiting reaches 2^32 is left out, where a 32-bit sum in the code wraps and takes the data for less than a block; `unsigned long` is 32 bits. Sha1Context.DigestOfPieces leaves out the same pieces.
- Sha1Context.DigestOfPieces: see Sha1Context.Ctx.Update.
- Sha1Stream.Transform: the eighty macro lines are one loop over the same macros.
- Hmac.HmacSha1: a key of more than 64 bytes that is the very array of the text is left out, since the code overwrites it before hashing the text.
- `bn` times a single limb or a double, the scalar XOR and AND forms, and hashing of identifiers.
- DataStore.Store.Erase: erasing a value that is not stored under a present key is left out, where the code reads through the end iterator.
- FindNodeQuery.Query.RecvReply: contacts of one reply that share an identifier keep their order under sorting, one of the orders `std::sort` may leave; the runs allow every sorted order.
- IPv6 addresses beyond the comparison above, the peers table, NAT detection, the dtun and proxy layers, advertising, value look-up and transfer over RDP, and replication (`dec_origin_sdata` inserts without the unique check).
- Sockets, event loop, random number quality, dispatch of packet types, and the Objective-C application around the byte algorithms.
