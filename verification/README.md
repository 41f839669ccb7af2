# IRTT: a model of the protocol and proofs about it

IRTT measures round trips, loss and delay by sending numbered UDP packets to a server that answers each
one. This project models the protocol logic of the Go implementation in Dafny and proves what that logic
is for: what a reply tells the client, what the loss statuses mean, what the rate limiter lets through,
when the results buffer is right, and what a negotiation ends with.

Code that updates state in place is modelled by classes and loops (`Fbuf`, `Packet`, `Sconn`, `ConnMgr`,
`Recorder`, `DurationStats`, `PatternFiller`, `ParamSet`, and the loops of the matcher, the codec, the send
loop and the loss classification). Each is proved equal to a function of its old state, and what the
protocol promises is proved about those functions.

How the modules build on each other:

- `Octets`, `Arith`, `BitOps`, `Times`: bytes, little-endian integers, single bits, clock values.
- `Layout`: a packet as optional fields in index order followed by a payload; `Fbuf`: the byte buffer with
  its field table that represents it; `BufferRun`: any sequence of operations on it.
- `Packet`: the packet format, validation and the HMAC seal; `Echo`: what an exchange puts on the wire and
  reads from it; `EchoServer` and `EchoClient`: the two sides, in their packets' own memory; `Exchange`: the
  laws of a whole exchange; `Session`: an exchange carried out by the code of both sides.
  `Wire`: what either side makes of a packet, by the bytes received and where they stand.
- `Window`, `RateLimit`: the received window and the token bucket over any run; `Sconn`: one connection;
  `ConnRun`: what it answers over a run, by times, lengths and verdicts; `ConnTable`: the server's table of
  connections over any interleaving of clients; `ConnLife`: how long each lives, and every answer.
- `Stats`, `Recorder`: running statistics and the ring of round trips; `RecorderRun`: what is recorded, by the
  sends and receives alone; `Schedule`: the send loop;
  `Loss`: the loss statuses; `EndToEnd`: client, server and a network that drops, duplicates and reorders.
- `Varint`, `Params`, `Glob`, `Filler`, `Negotiate`: the parameter codec, wildcard matching, payload
  patterns and the negotiation.

How things are represented:

- A sequence number is a natural number below 2^32 and all arithmetic on it wraps. The received window is
  the set of its bits that are 1; `Window.BitsOfValue` ties that to the integer on the wire. Go's shift by 64
  or more gives 0.
- A Go slice with spare capacity is an array and a length. The bytes of a field that has just been inserted
  are whatever was there, until they are written.
- `float64` is `real`. Durations are integers, with the `int64` range where the code depends on it.
- Clocks, random numbers, the iteration order of a Go map and the network are inputs, unconstrained unless a
  statement says otherwise.
- HMAC-MD5 under a key (RFC 2104, section 2) is a function from bytes to 16 bytes of which nothing else is
  known. Varints are those of Go's `encoding/binary`, zigzag for signed values.

Where the code and its documentation part ways, the model follows the code:

- The manual describes the window as the receipt status of the last 64 packets (doc/irtt.md:167-181). A packet
  that arrives late clears that history: the difference of two unsigned sequence numbers is never negative, so
  the branch for late packets (sconn.go:169-172) is never taken (`Window.LateForgets`). `Window.RightExactly`
  says exactly when a bit tells the receipt status of its seqno: if that was never accepted, or has an accept
  with no smaller seqno following a larger one after it, but for a wrap between the two.
  `Window.AcceptedButDenied` is a sequence in which it does not. Nothing arriving late is one case in which
  every bit is right (`Window.BitsAreExact`), not the only one.
- The manual grants that true_up can be wrong when a packet arrives late and slides out of the window
  (doc/irtt.md:174-181). In the code it does not have to slide out: one descent in between is enough.
  `EndToEnd.StatusExactly` says what each status means. By `EndToEnd.OnlyReply` no more can be concluded from
  it: for any sequence of accepts and any one of their replies there is a run in which that reply alone decides
  the status of p, and it is true_up unless p was accepted before with no descent in between.
- The checks on time stamps in `validate` (packet.go:234-249) and in `receive` (client.go:436-448) look only at
  fields the program has just framed itself, and never fail: `Packet.PassesExactly`,
  `Echo.StampChecksNeverFail`.
- A midpoint stamp always carries both clocks, whatever was asked for (sconn.go:219-222). With a single clock
  the client then reads the server's wall clock as the clock it asked for: `Exchange.MidpointOneClock`.
- A connection opened with stamps but without a clock is accepted, and stamping its first reply panics
  (time.go:110-121, timesrc.go:23-35): `EchoServer.AcceptedOpenPanicsExactly` says when, and
  `EchoServer.ClocklessOpen` gives a request that does it.
- The comment on `RTT` says that the server's time is taken off if it does not exceed the round trip
  (recorder.go:253-256). The code always takes it off, and the result can be negative: `Recorder.NegativeExactly`
  says when, and `Recorder.NegativeRTT` is a reply that does it.
- The slot handed to `OnSent` is not the newest record's when the ring has just wrapped to its first slot
  (recorder.go:122-127): `Recorder.Recorder.RecordPostSend` says exactly when it is.
- The prior record handed to `OnReceived` is the preceding seqno's only while that is retained
  (recorder.go:167-177): `Recorder.PriorSlotIsRight`.

## Model

| member | source | states |
|---|---|---|
| Layout.CutFlat | fbuf.go:156-182 | Cutting the bytes of a packet by the lengths of its fields gives back exactly those fields and the payload: decoding inverts encoding |
| Layout.FlatCut | fbuf.go:58-106 | Concatenating what was cut gives the memory back |
| Layout.SetFieldLaw | fbuf.go:110-138 | Setting a field changes that field and no other; the payload keeps its bytes, or loses its end exactly when the length is reset to the target |
| Layout.SetLenLaw | fbuf.go:192-204 | A new target length leaves fields and payload bytes alone; the length becomes the target, but at least the fields and at most the capacity |
| Layout.ReframeLaw | fbuf.go:58-106 | Choosing other fields moves the border between fields and payload and changes no byte |
| Layout.WireIsFieldsThenPayload | fbuf.go:173-182 | The bytes sent are the set fields in index order, then the payload |
| Layout.InsertedCut | fbuf.go:220-246 | Inserting bytes at the place of an absent field sets that field and keeps all others |
| Layout.OverwrittenCut | fbuf.go:110-119 | Overwriting the bytes of a set field changes that field only, and not the payload |
| Layout.PickedAll | fbuf.go:58-81 | A strictly increasing list of indexes in range picks all its members |
| Fbuf.Fbuf.constructor | fbuf.go:32-41 | A new buffer is zero, valid, and has the lengths and capacity asked for or needed |
| Fbuf.Fbuf.Validate | fbuf.go:43-54 | No error exactly if the fields fit the buffer |
| Fbuf.Fbuf.SetFields | fbuf.go:58-81 | For any list of indexes: the fields it picks become full, all others empty, positions are prefix sums of lengths, bytes stay, and there is no error exactly if the fields fit |
| Fbuf.Fbuf.AddFields | fbuf.go:83-106 | The same, with the other fields keeping their lengths |
| Fbuf.Fbuf.Rewrite | fbuf.go:60-77 | The nested loops over list and table, sharing one index, carry out the plan for the table |
| Fbuf.Fbuf.SetTargetLen | fbuf.go:192-204 | The buffer follows the layout's law for a new target length |
| Fbuf.Fbuf.Set | fbuf.go:110-138 | Setting a field in the bytes is setting it in the layout, whether it was there or has to be inserted |
| Fbuf.Fbuf.Grow | fbuf.go:220-246 | Growing an absent field shifts the bytes behind it, renumbers the table and resets to the target length |
| Fbuf.Fbuf.Renumber | fbuf.go:231-239 | After one length changed, the loop restores all positions |
| Fbuf.Fbuf.Get | fbuf.go:156-159 | Reads the field of the layout |
| Fbuf.Fbuf.Payload | fbuf.go:177-182 | Reads the payload of the layout |
| Fbuf.Fbuf.SetPayload | fbuf.go:140-144 | Replaces the payload and no field |
| Fbuf.Fbuf.FillPayload | packet.go:517-523 | Overwrites the payload in place and no field |
| BufferRun.RunIsMap | fbuf.go:110-204 | After any sequence of sets and length changes within capacity, the wire holds the fields in index order, each as it was set last, then the payload; the capacity stays |
| BufferRun.PutsKeepPayload | fbuf.go:220-246 | While the target length does not exceed the fields, no sequence of sets costs a byte of payload |
| BufferRun.RunAll | fbuf.go:110-204 | The byte buffer follows the layout through any such sequence |
| BitOps.WithBitSets | packet.go:60-72 | Setting one flag sets it and keeps the others |
| Packet.PassesExactly | packet.go:204-269 | After a read, a packet is accepted exactly if magic and flags are right and it has an HMAC just when there is a key, the one of its own bytes with the field zeroed; the stamp checks never fire |
| Packet.SealedPasses | packet.go:223-269 | A packet sealed under a key, or sent without one, passes validation under the same key, and validation leaves the bytes that were sealed |
| Packet.SealedBlank | packet.go:499-513 | The HMAC of a sealed packet is that of its own bytes with the field zeroed |
| Packet.Int64RoundTrip | packet.go:158-172 | A clock value written and read is the same |
| Packet.BareSet | packet.go:315-335 | In a packet without payload any field can be set, and stays apart from the others |
| Packet.Packet.constructor | packet.go:188-202 | A new packet has magic, flags and, with a key, an HMAC field, and nothing else |
| Packet.Packet.ReadReset | packet.go:204-216 | Frames and validates what was read: the error, or the packet, that the bytes determine |
| Packet.Packet.Validate | packet.go:223-269 | The first check that fails, in the order magic, flags, midpoint, clocks, HMAC; the HMAC field is left zeroed |
| Packet.Packet.ValidateStamps | packet.go:234-249 | Midpoint stamps exclude others, and both stamps have the same clocks |
| Packet.Packet.UpdateHMAC | packet.go:499-513 | Seals the packet |
| Packet.Packet.SetFlagBit | packet.go:277-279 | Changes one flag and nothing else |
| Packet.Packet.SetTimestamp | packet.go:391-411 | Puts the stamps asked for, leaving out clocks that are 0 |
| Echo.ShownIsExpected | sconn.go:201-234 | The reply has exactly the fields the client looks for if and only if its stamps have exactly the clocks asked for |
| Echo.StampReads | packet.go:382-411 | The stamps read from the fields are those put, the midpoint twice, whatever clocks are 0 |
| Echo.StatsRead | packet.go:321-335 | Count and window read from the fields are those put |
| Echo.StampChecksNeverFail | client.go:436-448 | The client's checks that the server stamped as asked cannot fail |
| Echo.ReadsBack | packet.go:204-269 | Framed by the fields it was sent with, a received packet gives those very fields |
| Echo.RequestedIsRequest | server.go:202-222 | What is handed to a connection is well formed and carries the token and seqno it was looked up by |
| Echo.EchoRoundTrip | sconn.go:154-262 | For any accepted request and server buffer, the client decodes the request's token and seqno, the reply flag, and exactly the server's count, window and stamps; or reports that the server closed, or a short reply |
| EchoServer.AddFields | fbuf.go:83-106 | Framing by a list adds exactly its fields, and fails exactly if they do not fit |
| EchoServer.ReadRequest | server.go:202-222 | A packet is turned down, taken as an open request, or taken as data with token, close flag and seqno, as its bytes determine |
| EchoServer.FillReply | sconn.go:154-234 | The request, in place, becomes the reply: flags, statistics and stamps set, token and seqno kept |
| EchoServer.Reply | sconn.go:198-262 | The reply has the fields the server means to send, length min(capacity, max(Length, header)), the filler's next bytes as payload, and is sealed |
| EchoServer.Admit | sconn.go:118-186 | The connection takes in the seqno and the length the packet really has |
| EchoServer.PanicsExactly | sconn.go:213-231 | Computing the stamps panics exactly if there are stamps to make and no clock to make them with, and otherwise gives the stamps the other theorems are about |
| EchoServer.AcceptedOpenPanicsExactly | time.go:110-121 | For any open request that parses and any policy: serving the connection panics exactly if stamps were granted and no clock was asked for |
| EchoServer.ClocklessOpen | timesrc.go:23-35 | An open request, of one parameter, after which serving panics under every policy that allows stamps |
| EchoServer.ServeRequest | sconn.go:118-262 | The verdict and the new connection state are those of the connection's law, and the reply tells the state after this very request |
| EchoServer.MidpointLies | time.go:54-106 | The midpoint of two readings is half way between them on the monotonic clock if both have it, and else on the wall clock; the other clock moves by as much |
| EchoServer.StampsAsAsked | sconn.go:210-231 | The receive stamp has the clocks asked for of the time of receipt, the send stamp those of the time of sending, the midpoint lies between the two, and what was not asked for is 0 |
| EchoClient.Request | client.go:291-317 | The first request of a test has the fields the reply will have, the token and seqno given, length max(Length, header), a payload of the filler's next bytes or zeroes, and is sealed |
| EchoClient.ZeroStamps | packet.go:450-468 | Zeroes are put in exactly the stamp fields that will be looked for in the reply |
| EchoClient.CheckStamps | client.go:436-448 | Finds the first check on stamps that fails |
| EchoClient.ReadValues | packet.go:301-389 | Reads token, seqno, count, window and stamps as the layout has them |
| EchoClient.Receive | client.go:407-453 | Decodes any bytes received exactly as the law of decoding says, with the same error in the same order |
| Exchange.RequestArrives | client.go:291-317 | A client's request arrives as an echo request with the client's token and seqno |
| Exchange.EchoExchange | sconn.go:154-262 | A whole exchange: from the client's token and seqno to the client learning token, seqno and exactly the server's count, window and stamps |
| Session.TakeIn | server.go:202-222 | The server's packet, having read the client's bytes, holds a request with the client's token, seqno and length |
| Session.Serve | sconn.go:118-262 | The server's turn in code: verdict, new connection state, and the reply's bytes, which tell the state after this request |
| Session.Collect | client.go:407-453 | The client's turn in code: it decodes the reply, in a packet of the length it insists on, as the decoding law says |
| Session.Run | sconn.go:118-262 | A client's and a server's code put together: whenever the server answers without closing, the client learns its token and seqno, of count and window right after this request those it asked for, and of the times of receipt and sending the stamps and clocks it asked for; or with a midpoint on a single clock, the wall clock's midpoint under that clock's name |
| Wire.ErrorExactly | packet.go:204-269 | From its bytes, which error a packet is turned down with: too short, magic, flags, and HMAC missing, wrong or not wanted |
| Wire.ArrivesExactly | server.go:202-222 | From its bytes, how the server sorts a packet: turned down, a reply flag, an open, or data, with the token and seqno there is room for |
| Wire.DecodesExactly | client.go:407-453 | From its bytes, what a client makes of a packet: the first error that applies, or the token, seqno, count, window and stamps read from where they stand |
| Wire.LittleEndian | packet.go:158-172 | Each byte of a number is its digit to the base 256, least significant first |
| Exchange.TakenIfRoomForLength | client.go:424-428 | The client takes the reply exactly if the server's buffer can hold the length asked for; otherwise it reports a short reply |
| Exchange.ServerStampComplete | sconn.go:213-231 | The server's stamps have exactly the clocks asked for, if and only if it is not a midpoint with a single clock |
| Exchange.MidpointOneClock | sconn.go:219-222 | With a midpoint and a single clock the client learns the server's wall clock as the clock it asked for, right exactly if it asked for the wall clock or the clocks agree |
| Window.ClosedForm | sconn.go:160-176 | For every sequence of accepted seqnos, bit i is set exactly when some accepted one lies i forward steps behind the end |
| Window.BitsAreAccepted | sconn.go:160-176 | A set bit always names an accepted seqno modulo 2^32, and bit 0 is the one just accepted |
| Window.BitExactly | sconn.go:160-176 | For every sequence of accepts, bit i is set exactly if the seqno i behind the last has an accept followed by no descent, or by just that of a wrap between the two |
| Window.RightExactly | doc/irtt.md:167-181 | A bit tells the receipt status of its seqno exactly if that was never accepted or has such an accept |
| Window.AcceptedButDenied | doc/irtt.md:167-181 | After accepts of 5, 3 and 6 the window denies 5 |
| Window.BitsAreExact | doc/irtt.md:167-181 | On a nondecreasing sequence every bit tells the receipt status of its seqno |
| Window.LateForgets | sconn.go:162-172 | A late packet clears the window down to its own bit |
| Window.CountIsLength | sconn.go:173-174 | The count is the number of accepts modulo 2^32 |
| Window.BitsOfValue | packet.go:329-335 | The integer sent for a window determines the window |
| Window.ValueBits | packet.go:329-335 | Bit i of the integer sent is bit i of the window |
| Window.ValueBound | packet.go:333-335 | That integer fits 64 bits |
| RateLimit.Conformance | sconn.go:137-158 | A request is dropped exactly when accepting it would let some span that ends with it exceed burst + T / MinInterval |
| RateLimit.RateBound | sconn.go:137-158 | In any span of requests, at most burst + T / MinInterval are accepted |
| RateLimit.LevelInRange | sconn.go:137-158 | The bucket stays between 0 and the burst |
| RateLimit.SpacedNeverDropped | sconn.go:137-158 | With a burst of at least 1, a client spaced MinInterval apart is never dropped |
| RateLimit.DeletingADrop | sconn.go:137-158 | Deleting a dropped request from a trace changes no other decision |
| Sconn.RunWindow | sconn.go:118-176 | A connection's window is that of the seqnos it answered |
| Sconn.RunBucket | sconn.go:118-152 | A connection's bucket is that of the requests that were not too large |
| Sconn.Sconn.constructor | sconn.go:27-36 | A new connection |
| Sconn.Sconn.AdmitEcho | sconn.go:123-186 | The verdict on a request and the whole new state, error branches included |
| Sconn.Sconn.Spend | sconn.go:137-158 | The bucket's decision and its new level |
| Sconn.Sconn.SlideWindow | sconn.go:160-176 | The shift, the bit, the count and the last seqno |
| Sconn.Sconn.Expired | sconn.go:265-271 | Whether the connection has been idle beyond timeout and grace |
| ConnRun.RefusedExactly | sconn.go:124-129 | Over any run: a request is refused as too large exactly if there is a limit and it is longer, and dropped for its interval only if there is one to keep |
| ConnRun.AnsweredExactly | sconn.go:137-158 | Over any run: a request that is not too large is answered exactly if, from whichever such request on, the answers given plus this one stay within the burst and one per minimum interval |
| ConnRun.AnswersAreBounded | sconn.go:137-158 | Over any run: in any span of requests at most burst + T / MinInterval are answered |
| ConnRun.ClosesExactly | sconn.go:131-186 | Over any run: an answer closes exactly if the first request that was not too large came more than the maximum duration and 2 s before |
| ConnRun.ExpiredExactly | sconn.go:265-271 | Over any run: a connection has expired exactly if its last request that was not too large came more than the timeout and 5 s before; one never used does not expire |
| ConnRun.AnswersTell | sconn.go:160-176 | Over any run: bit i of the integer sent for the window is set exactly if that seqno was answered and shows, and the count is the number of answers |
| ConnRun.Serve | sconn.go:118-186 | The connection's code, run on any requests, gives these verdicts and ends in this state |
| ConnTable.Projection | server.go:202-226 | Over any interleaving of clients, each entry was put by an open from its address under a token not in use, and its window, count and bucket are those of just the echo requests with its token and address since then |
| ConnTable.ReplyProjection | sconn.go:91-176 | The same of the state told in each reply, including the one on which the connection is deleted |
| ConnTable.OpenKeepsLive | server.go:337-391 | An open never touches an entry that has not expired, and never gives out its token |
| ConnTable.WrongAddressKeepsLive | sconn.go:91-96 | A packet from another address leaves a live entry as it is |
| ConnTable.FreshToken | server.go:380-391 | The token found is not in use |
| ConnLife.PresentExactly | server.go:337-391 | Over any run of the server: a token is in the table exactly if an open was answered with it and no event since was a close from its opener, a reply that closed, a packet with it that found it idle, or an open that found it so among the first five entries looked at |
| ConnLife.EndedIsGone | sconn.go:91-116 | After any of these the token is out of the table, unless an open gave it out again |
| ConnLife.AnswerToLive | sconn.go:91-186 | A packet for a live connection is dropped if it comes from elsewhere or has no seqno, acknowledged if it closes, and otherwise answered as the run of its requests says, with the state after this one |
| ConnLife.AnswerToOther | server.go:213-222 | A packet with any other token, or none, is dropped and changes nothing |
| ConnLife.LeftUntilOpened | server.go:344-391 | A token that has left stays out, and gets no answer, until an open is answered with it |
| ConnLife.AnswerToOpen | sconn.go:38-89 | An open is dropped exactly if its parameters do not parse; one that does not close gets the first token drawn that is not in use |
| ConnTable.ConnMgr.constructor | server.go:330-335 | An empty table |
| ConnTable.ConnMgr.RemoveSomeExpired | server.go:368-378 | Removes exactly the expired ones among the first five entries iterated |
| ConnTable.ConnMgr.NewCtoken | server.go:380-391 | The loop ends with the first random token not in use |
| ConnTable.ConnMgr.Put | server.go:337-342 | Cleans up, and adds the connection under a fresh token that it also carries |
| ConnTable.ConnMgr.Get | server.go:344-352 | Hands out the connection, and deletes it if expired |
| ConnTable.ConnMgr.Remove | server.go:354-360 | Deletes one entry and no other |
| ConnTable.ConnMgr.HandleOpen | sconn.go:38-89 | An open request: the response and the new table |
| ConnTable.ConnMgr.HandleData | server.go:213-226 | A data packet: the response and the new table, for a missing token, wrong address, close, expiry and echo |
| Stats.Welford | recorder.go:417-437 | One push keeps the mean the sum over N and s the sum of squared deviations from it |
| Stats.MoveCentre | recorder.go:429-437 | How the sum of squared deviations depends on its centre |
| Stats.VarianceBySums | recorder.go:449-454 | The sample variance by sums alone: n (n - 1) times it is n times the sum of squares less the square of the sum; 0 below two values |
| Stats.DurationStats.Push | recorder.go:417-437 | After any pushes, number, total, minimum, maximum, mean and s are those of the sequence pushed |
| Stats.DurationStats.Variance | recorder.go:449-454 | The sample variance of the sequence pushed |
| Recorder.Recorder.constructor | recorder.go:55-64 | An empty recorder of any capacity |
| Recorder.Recorder.RecordPreSend | recorder.go:66-99 | The ring holds the records of the last sends, as many as fit |
| Recorder.Recorder.RecordPostSend | recorder.go:107-130 | The slot handed out, and exactly when it is the newest record's |
| Recorder.Recorder.RecordReceive | recorder.go:138-237 | Each receive is an error, aged out, a duplicate or a first reply; only a first reply changes the record, of just the named seqno, and the RTT statistics |
| Recorder.Recorder.RecordFirst | recorder.go:188-230 | A first reply fills its record and the totals |
| Recorder.Recorder.Locate | recorder.go:143-166 | Whether a seqno was sent and is retained, and then its slot |
| Recorder.NewestSlotIsMod | recorder.go:66-99 | The newest record's index is the last seqno modulo the capacity |
| Recorder.PriorSlotIsRight | recorder.go:167-177 | The prior record is seqno - 1's exactly as long as that is retained, and otherwise the newest |
| Recorder.FateByFields | recorder.go:143-189 | The tests on the fields decide among error, aged out, duplicate and first reply as the history has it |
| Recorder.FirstRepresents | recorder.go:188-230 | After a first reply late packets are the descents, and bytes received the sum, over first replies |
| Recorder.RTTsObserved | recorder.go:197-203 | Each first reply adds its round-trip time to the statistics, and nothing else does |
| Recorder.FirstMeasures | recorder.go:253-266 | What a first reply adds to the statistics: the way up plus the way down by the monotonic stamps; or the time waited less the server's by its wall stamps; or the time waited |
| Recorder.ServerClocksCancel | recorder.go:253-266 | Moving both of the server's stamps by any amount does not change it |
| Recorder.ServerTimeCancels | recorder.go:253-266 | A server that takes longer by any amount does not change it |
| Recorder.NegativeExactly | recorder.go:253-266 | It is negative exactly if the server says it took longer than the client waited |
| Recorder.NegativeRTT | recorder.go:253-266 | A reply for which it is -1 ns |
| RecorderRun.FateExactly | recorder.go:138-189 | Over any test: a reply counts exactly if its packet was sent, is among the last that fit the buffer, and got no reply before; and exactly when one is a duplicate, aged out or an error |
| RecorderRun.RecordExactly | recorder.go:188-230 | Over any test: a reply that counts leaves for good its packet's send time, its own time, the server's stamps and window, and whether the one that counted before it was to a later packet |
| RecorderRun.UnansweredRecord | recorder.go:66-99 | Over any test: a packet no reply to which counted has a record with its send time only |
| RecorderRun.TotalsExactly | recorder.go:188-230 | Over any test: bytes received, late packets and the server's count are those of the replies that counted |
| Recorder.Accounting | recorder.go:138-237 | Over any interleaving: no seqno has two first replies, and receives are partitioned into errors, aged out, duplicates and first replies |
| Schedule.TargetsAdvance | client.go:362-373 | After a send no earlier than half an interval before its target, the next target is a later slot |
| Schedule.HalfIntervalIsExact | client.go:362-373 | Within one slot, the next target is later exactly if the send came no earlier than that |
| Schedule.NextTargetExactly | client.go:362-373 | The next target is the next slot after now, or the one after that if the send was in the second half of its slot |
| Schedule.TargetsExactly | client.go:362-378 | The targets waited for are those of the turns in order, up to the first at or after the end |
| Schedule.TargetsAreDistinctSlots | client.go:362-378 | Successive targets are multiples of the interval, at least one interval apart |
| Schedule.SendsAreBounded | recorder.go:533-537 | Sends number at most ceil(Duration / Interval), which is at most the capacity given to the recorder |
| Schedule.NextSlot | client.go:362-373 | Computes the next target |
| Schedule.Send | client.go:327-393 | The loop waits for just those targets, and records one send per turn with its stamp and seqno |
| Schedule.StandardTest | client.go:103-115 | In standard mode the ring never wraps, and a record's index is its seqno |
| Loss.Classify | result.go:41-70 | The nested loops end with: false if a reply was recorded, else true_down if a reply within the next 63 has a valid window with this packet's bit, else true_up if such a window covers it, else true |
| Loss.TakeInWindow | result.go:51-69 | Shifting one window out bit by bit updates exactly the 63 statuses before it |
| Loss.StatusOnlyRises | result.go:58-66 | A status only moves from true to true_up to true_down, and never between lost and not lost |
| EndToEnd.ReportedBit | sconn.go:160-176 | The bit for p in the window of a reply is set exactly if p was accepted before that reply's accept with no descent from then up to it |
| EndToEnd.StatusExactly | result.go:41-70 | For every run over a network that drops, duplicates and reorders, the status of a round trip is exactly: false if a reply was recorded, true_down if some recorded reply within the next 63 is to an accept before which p was seen, true_up if there are such replies but p was seen before none of them, else true |
| EndToEnd.LostUpMeans | doc/irtt.md:174-181 | If p is true_up, every accept of p that comes before that of a recorded reply covering p is followed by a descent before it |
| EndToEnd.OnlyReply | doc/irtt.md:174-181 | Conversely, for any sequence of accepts and any one of its replies within the 63 after p, there is a run with just these accepts in which only that reply arrives, and p is true_down if it was seen before that accept and otherwise true_up, accepted or not |
| EndToEnd.LossSoundness | doc/irtt.md:174-181 | For every run over a network that drops, duplicates and reorders: not lost means answered and recorded, true_down means accepted and no reply recorded, and true_up means never accepted if requests came in order |
| EndToEnd.InvariantHolds | sconn.go:160-176 | Every reply on its way or recorded carries the server's window as it was at some point of the run |
| EndToEnd.LateRequestMisjudged | doc/irtt.md:174-181 | In particular, a run in which a request that arrives late is marked true_up although the server accepted it |
| EndToEnd.UnwrappedBuffer | result.go:41-46 | Until the ring wraps, it holds the round trips in seqno order |
| EndToEnd.Report | result.go:41-70 | The statuses computed from a recorder are those the soundness theorem is about |
| Varint.UvarintRoundTrip | params.go:145-156 | A varint read back is the number written, and takes just its own bytes |
| Varint.UvarintExactly | params.go:145-156 | Of any bytes: a number of up to ten bytes that fits 64 bits is read with its value and length, a longer or larger one overflows |
| Varint.UnendedExactly | params.go:145-156 | Bytes that do not end a number are too short, unless there are more than ten |
| Varint.PutIsShortest | params.go:49-89 | What is written has the value, ends where it should, and could not be shorter |
| Varint.ZigZagRoundTrip | params.go:158-169 | Zigzag is lossless on all of int64 |
| Params.RoundTrip | params.go:37-143 | Decoding the encoding of parameters the protocol allows gives them back |
| Params.RoundTripExactly | params.go:37-143 | That holds exactly for non-negative duration and interval, enum values in range and a fill of at most 32 bytes |
| Params.AcceptedIsStable | params.go:37-143 | Whatever was accepted survives another trip |
| Params.NumberExactly | params.go:105-136 | One more numeric parameter sets its field and no other, or is refused exactly if it is a duration or interval not above 0, or an enumeration out of range |
| Params.FillExactly | params.go:100-104 | A fill is stored if it has at most 32 bytes and all are there; otherwise the error says which |
| Params.UnendedRefused | params.go:145-169 | A tag or value that does not end is refused: the buffer is too short, or it overflows after more than ten bytes |
| Params.TooLargeRefused | params.go:145-169 | A tag or value of more than ten bytes or 64 bits is refused as an overflow |
| Params.UnknownIgnored | params.go:91-143 | An unknown numeric parameter anywhere changes nothing |
| Params.ParseConcat | params.go:37-47 | Parsing a concatenation is parsing its parts in turn |
| Params.EncodeParams | params.go:49-89 | The encoder writes the encoding and never more than 122 of its 128 bytes |
| Params.ParamSet.Read | params.go:91-143 | One parameter: the field it changes and the bytes it takes, or the error |
| Params.ReadNext | params.go:37-47 | One turn of the decoding loop: what is left parses to the same from where it ends, or its error is the result of the whole |
| Params.ParseParams | params.go:37-47 | The decoding loop ends, with the parameters or the first error |
| Negotiate.RestrictParams | sconn.go:273-297 | Restricts the parameters as the server's policy says |
| Negotiate.RestrictIdempotent | sconn.go:273-297 | Restricting twice is restricting once |
| Negotiate.RestrictMeetsLimits | sconn.go:273-297 | The result meets every limit of the server, the minimum interval exactly if it is at most a quarter of the timeout or there is none |
| Negotiate.RestrictExactly | sconn.go:273-297 | For each parameter, exactly when it is changed and to what: duration and length over a limit to the limit, stamps a policy does not allow to none or a midpoint, DSCP not allowed to 0, a fill not allowed to the default |
| Negotiate.IntervalExactly | sconn.go:280-285 | The interval is raised exactly to a set minimum and lowered exactly to a quarter of a set timeout, which comes last |
| Negotiate.GrantedFill | sconn.go:52-63 | Besides, a fill the server cannot make becomes the default |
| Negotiate.GrantedAsIsExactly | sconn.go:273-297 | Exactly the requests within the policy are granted as they stand |
| Negotiate.CheckParameters | client.go:189-279 | Whatever the server sends: a loose client goes on exactly if neither duration nor length grew and the interval did not fall below a second; a strict one exactly if the eight fields are the same; and exactly when either calls a restriction invalid |
| Negotiate.NegotiatedIsGranted | params.go:37-143 | Both codec trips are lossless: the client checks exactly what the server granted |
| Negotiate.InvalidExactlyWhen | client.go:189-279 | What comes back is invalid exactly when a quarter of the timeout is below both a second and the interval asked for; never with no timeout or one of at least 4s |
| Negotiate.InvalidFirstExactlyWhen | client.go:189-279 | A strict client reports the invalid interval exactly if the duration is as asked for; otherwise it reports the shorter duration first |
| Negotiate.StrictAcceptsUnchanged | client.go:189-279 | A strict client accepts exactly the requests granted as they stand |
| Negotiate.AcceptOpen | sconn.go:38-89 | The payload of the reply is the encoding of what was granted, or the request is refused |
| Negotiate.Open | conn.go:215-233 | A whole negotiation, loose and strict, from the parameters asked for to the client's verdict; an invalid restriction is reported only for a server timeout below 4s |
| Glob.Glob | glob.go:18-55 | True exactly if some replacement of every * by a possibly empty string turns the pattern into the subject |
| Glob.LeftmostIsEnough | glob.go:36-52 | When another part follows, the leftmost occurrence of a part is never worse than any other |
| Glob.Search | glob.go:32-55 | The loop over the parts |
| Glob.GlobAny | glob.go:9-16 | True exactly if some pattern matches |
| Filler.PatternFiller.constructor | filler.go:27-40 | The buffer starts with the pattern repeated, even if its length is not a multiple of the pattern's |
| Filler.PatternFiller.Read | filler.go:46-54 | Every read, of any size, ends and gives the next bytes of the pattern repeated forever |
| Filler.ReadAll | filler.go:46-54 | Any sequence of reads gives one unbroken stretch of that stream |

## Left out

- Sockets, dialing, listening, address resolution, DSCP, TTL, DF and MTU detection: input and output. A read is bytes in the packet's buffer, truncated to it as a UDP read is.
- Command line, printing, JSON, string forms, syslog and event handlers: formatting.
- HMAC-MD5 itself, random numbers, the random filler and the clocks: inputs or unknown functions.
- Timers, wait policies, averagers, bit rates, percentages, medians, first and last times, send and receive delay and delay variation: they would only add easy members or depend on real time.
- `remove` on a field that is set, which copies towards the front in the wrong order; the program reaches it only on absent fields, where it does nothing, so neither it nor the calls of it are modelled.
- Clearing a flag, which the program does only where the flag is clear already.
- `removeLastRoundTrip`: the send loop and the recorder stop at the first failed send.
- Runs that send more than 2^32 packets, which the manual calls undefined (doc/irtt.md:158-163).
- The recorder's byte counts as 64-bit integers, and its round-trip times as floating point.
- Simulated drops and duplicates, whose rates are constants of 0.
- The payload of a reply without a filler: leftovers of the buffer.
- The set of servers an address resolves to, and addresses that are equal in different notations: an address is its canonical form.
- The version check when a connection is accepted (sconn.go:65-69): the restriction just before it sets the version, so the check cannot fail.
- Open requests and open replies as packets: the negotiation is modelled on their payloads, the packets as echo requests and replies.
- EndToEnd.LossSoundness: the client goes on after a reply it cannot use, where the program ends its receive loop; every run of the program is among those covered. Its network delivers requests and replies as values; that their bytes carry these values is Exchange.EchoExchange and, in code, Session.Run.
- EchoServer.ReadRequest: looking up the token happens between its steps in the program; the table's part is ConnTable.ConnMgr.HandleData.
- Session.Run: the server's buffer holds the request; how long a reply fits a smaller one is Exchange.TakenIfRoomForLength, but a request cut short by it is not modelled. What the client makes of a reply to a closed connection is Echo.EchoRoundTrip.
- EchoServer.StampsAsAsked: of a midpoint it speaks only where int64 holds the difference of the two readings and the clocks moved by it; beyond that the model wraps around as the code does, and nothing more is said.
- Packet.Packet.UpdateHMAC: a packet without a key has no HMAC field, as the constructor leaves it; with one set, the source would call `remove`.
- Recorder.Recorder.RecordPreSend: the time of the first send is left out. With a capacity of 0 the source panics in its first call, hence the precondition.
- Recorder.Recorder.RecordPostSend: the statistics of send calls, the bytes sent and the time of the last send are left out, as they are plain sums and copies.
- Recorder.Recorder.RecordReceive: the statistics of send and receive delay and of delay variation, and the times of the first and last receive, are left out.
- Recorder.Recorder.RecordFirst: the same statistics and times are left out.
- ConnTable.ConnMgr.HandleOpen: parsing the parameters and the payload of the reply are Negotiate.AcceptOpen; here a flag says whether they parse.
- Filler.PatternFiller.constructor: an empty pattern, with which the program divides by zero, is excluded.
- Schedule.Send: the clock never runs backwards, and a wait that is cancelled is the end of the list of turns. Failed sends, the refill of the payload and the statistics of timer errors are left out.
