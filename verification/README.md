# KCP over forward error correction, verified

A Dafny model of a reliable-UDP stack and proofs about it. The stack has three
layers:

- an erasure codec: a systematic Reed-Solomon code over GF(2^8) with
  evaluation points 0, 1, α, α², … (`fec.c`, `rs.c`);
- a FEC group layer that batches packets, pads, encodes and frames them, and on
  the other side collects, decodes and hands them out (`fec_encode.cpp`,
  `fec_decode.cpp`, `timeout_map.cpp`);
- the KCP ARQ protocol (`ikcp.c`), joined to the group layer by `fec_kcp.cpp`.

`dafny verify dfyconfig.toml` checks everything.

## What is proved

- **Any k of n** packets of a group restore the data, for every k ≤ n ≤ 256,
  every packet length and every set of survivors (`ErasureCode`). On the way: the
  table generation, the field laws, two matrix inversions (one with a shortcut
  that is right only because of the first evaluation point), the in-place shuffle
  and the compaction of surviving packets.
- **Whole-run safety of KCP.** Two 32-bit control blocks exchange bytes over a
  network that loses, duplicates, reorders and zero-pads datagrams; the messages
  returned on one side are always a prefix of those accepted on the other
  (`KcpConversation`). The proof runs on exact sequence numbers (`KcpSafety`), and
  a simulation shows that the 32-bit, byte-level program follows the exact one
  (`KcpWrap`).
- **What each call of KCP does**, said without the functions it is built from:
  what a datagram acknowledges, removes and grows (`KcpInput`), what a flush sends,
  announces and does after a loss (`KcpFlush`), when update flushes and what send
  and recv do with a message (`KcpCalls`). Together: a data segment that has been
  read is acknowledged, and the acknowledgement clears it from its sender.
- **One endpoint under arbitrary bytes**: the invariants of the control block in
  every reachable state (`KcpEndpoint`), confluence of reassembly
  (`KcpReceiver`), congestion-window arithmetic (`KcpCongestion`), scheduling
  (`KcpTiming`) and packetisation (`KcpPackets`).
- **The group layer**: the decoder over whole runs in which frames of many groups are
  mixed, repeated and lost (`FecArrivals`).
- **End to end**: two endpoints of KCP over FEC, each with its control block, encoder
  and decoder, and a network that loses, repeats and reorders frames. What one
  application receives is a prefix of what the other sent (`FecRun`, `FecTimely`). Reconstructed
  packets have lost their length, the first packet of a group always has the wrong
  one, and KCP does not mind (`KcpPadding`).

## How it is laid out

| files | contents |
|---|---|
| Bytes, Sequences | integers of the two headers, wrap-around, list facts |
| Field, GfTables | GF(2^8) and the tables of `fec.c` |
| Linear, Polynomial | vectors, matrices, polynomials over the field |
| GaussJordan, Vandermonde | the two inversions |
| CodeTheory, Codec, ReedSolomon, ErasureCode | the code, `fec.c`, `rs.c`, any k of n |
| KcpModel | every function of `ikcp.c` as a function on values |
| Kcp | the control block as a class, method by method, proved to follow KcpModel |
| KcpWire, KcpPackets, KcpPadding | bytes, datagrams, zero padding |
| KcpSender, KcpReceiver, KcpCongestion, KcpEndpoint, KcpTiming | one endpoint |
| KcpInput, KcpFlush, KcpCalls | the calls of one endpoint, each as a whole |
| KcpHistory, KcpTransfer, KcpNetwork, KcpSafety | two endpoints, exact numbers |
| KcpWrap, KcpConversation | the same with 32-bit numbers and bytes |
| TimeOutMap | the recency list of the decoder |
| FecFrame, FecEncoder, FecDecoder | the group layer: frames and the two classes |
| FecModel, FecGroups, FecDrain, FecArrivals | the decoder on values: one packet, the drain loop, whole runs |
| FecSealed, FecRun, FecTimely | what an encoder has sent; two endpoints and a network of frames; runs judged by arrival times |
| FecCalls | return codes of the decoder, and what it gives up |
| FecKcp | the endpoint as a class, each method proved to be a step of FecRun |

KcpModel's functions take a `Mode`: `Wrap` is the program, `Exact` has unbounded
sequence numbers. The class refines `Wrap`; most lemmas hold for both.

## Assumptions

- A conversation is in message mode with a nonzero number; mtu and windows stay
  as set up, and `rcv_wnd` is 128 to 65535.
- For the congestion window only: the segment size fits 16 bits and the fast-resend
  count is below 32768, so that no window in bytes passes 2^32.
- A run is live if no delivered sequence number is 2^31 − 2^18 or more behind the
  counter it is compared with. That none is too far ahead is proved.
- The encoder is set up for at most 127 packets a group, because the decoder reads its
  header bytes as signed characters, as `char` is on the usual compilers.
- A frame comes in its turn if what the decoder stores under its number is finished or
  comes from the same batch, and, when it completes the batch, the output cursor does
  not stand behind an earlier batch of the same number. `FecRun.FewBatches` says when
  that is: for the first 65520 batches of a sender only the second part can fail, and
  `FecRun.StaleInRuns` shows that it has to be excluded. In `FecTimely.TimelyDelivers`
  and `FecArrivals.GroupRoundTrip` it is proved from the arrival times instead.
- Time passes forward for the timeout map. KCP's theorems assume nothing about
  time.
- Callers drain the decoder after each input, as `FecKcp::DataInput` does.

## What the proofs found

- `invert_vdm` leaves out one coefficient per stage. The result is the inverse if
  and only if there are at most two points or 0 is among the first two
  (`Vandermonde.ShortcutCorrectness`); `fec_new` makes the first point 0.
- The decoder never resets its output cursor. When the last group handed out has been
  cleared after the time limit and its frames arrive once more, the group is restored
  and `Output` reads behind its last packet (`FecArrivals.StaleCursorHappens`). A
  group restored in a run can be handed out if and only if its number is not the one
  under the cursor (`FecRun.StaleInRuns`).
- `ikcp_check` after a flush returns the current time, so that a caller that sleeps
  until then does not sleep, if and only if some segment could not be scheduled ahead
  (`KcpTiming.CheckAfterFlush`). Either its timeout is 0 or at least 2^31 ms when it is
  sent, which takes more than 35791 transmissions (`KcpTiming.FewTransmissions`), or it
  is kept because it is exactly 2^31 ms away. `KcpTiming.CheckStalls` reaches the
  second case from a new block with any settings.
- In stream mode a send that is refused because it would need more than 127 further
  segments has already queued the part that fits the last segment, and the caller
  cannot tell (`KcpCalls.SendStreams`; ikcp.c:485-511).
- The header of `FecDecode` describes the positive return of `Input` once as 1 and
  once as a length. The code returns the length of the longest packet; 1 only
  while a decoded group waits.
- The buffer that `FecKcp::DataInput` gives to KCP for the first packet of a group
  always has the length of the longest packet, also when the packet itself
  arrived (`FecArrivals.Handed`).

## Model

| member | source | states |
|---|---|---|
| GfTables.Modnn | lib/libfec/lib/source/fec.c:191-198 | the folding loop ends and yields the remainder modulo 255 |
| Field.TimesAlphaLinear | lib/libfec/lib/source/fec.c:313-319 | multiplying by the generator, shift and conditional xor, distributes over xor |
| Field.OrderOfAlpha | lib/libfec/lib/source/fec.c:140-158 | the generator of 1+x^2+x^3+x^4+x^8 has order exactly 255: a power is 1 if and only if its exponent is a multiple of 255 |
| Field.EveryNonzeroIsAPower | lib/libfec/lib/source/fec.c:284-320 | the powers of the generator reach every nonzero byte, so the logarithm table has no hole |
| Field.MulAssoc | lib/libfec/lib/source/fec.c:221-230 | the product defined by logarithms and exponents is associative, zero included |
| Field.MulDistrib | lib/libfec/lib/source/fec.c:221-230 | that product distributes over xor |
| Field.MulInverse | lib/libfec/lib/source/fec.c:330-338 | every nonzero byte times its inverse is 1 |
| GfTables.Tables.GenerateGf | lib/libfec/lib/source/fec.c:278-338 | the generated tables are the iterated exponential, its logarithm and the inverse, the doubled range included |
| GfTables.Tables.InitMulTable | lib/libfec/lib/source/fec.c:221-230 | the 256 by 256 table holds the field product, row and column 0 included |
| GaussJordan.FindPivot | lib/libfec/lib/source/fec.c:468-496 | finds a nonzero entry among unused rows and columns, or none exists |
| GaussJordan.SwapKeeps | lib/libfec/lib/source/fec.c:502-506 | a row swap keeps the tableau a relabelling of the original equations |
| GaussJordan.PivotMaps | lib/libfec/lib/source/fec.c:509-543 | one elimination step exchanges a variable with an equation and loses no solution |
| GaussJordan.Eliminate | lib/libfec/lib/source/fec.c:533-543 | the in-place elimination equals the full step even where it is skipped because the pivot row is a unit row |
| GaussJordan.NoPivotMeansUnreachable | lib/libfec/lib/source/fec.c:491-494 | when no pivot is left some right-hand side is reached by no vector |
| GaussJordan.UndoSwap | lib/libfec/lib/source/fec.c:545-555 | swapping two columns undoes one recorded row swap of the inverse |
| GaussJordan.InvertMat | lib/libfec/lib/source/fec.c:441-564 | returns 0 exactly when the matrix is nonsingular and then holds its two-sided inverse |
| Vandermonde.LagrangeBasis | lib/libfec/lib/source/fec.c:613-626 | the quotient of the vanishing polynomial by one factor, scaled by its value, is 1 at its own point and 0 at the others |
| Vandermonde.InterpolationExists | lib/libfec/lib/source/fec.c:698-716 | through distinct points there is a polynomial of degree below k with any values |
| Polynomial.InterpolationUnique | lib/libfec/lib/source/fec.c:698-716 | and only one |
| Polynomial.TooManyRoots | lib/libfec/lib/source/fec.c:566-576 | a polynomial of degree below k with k distinct roots is zero |
| Vandermonde.Coefficients | lib/libfec/lib/source/fec.c:599-611 | the shortened inner loop computes the product of the factors with the constant term of each stage left out |
| Vandermonde.OmittedCoefficient | lib/libfec/lib/source/fec.c:599-611 | what a stage leaves out is exactly the product of the points so far |
| Vandermonde.ShortcutCorrectness | lib/libfec/lib/source/fec.c:578-631 | for distinct points the result inverts the Vandermonde matrix if and only if there are at most two points or 0 is one of the first two |
| Vandermonde.InvertVdm | lib/libfec/lib/source/fec.c:578-631 | in place, the result of the shortened recursion for any points; the exact inverse when the shortcut is correct |
| CodeTheory.InterpolantUnique | lib/libfec/lib/source/fec.c:698-716 | a codeword is the set of values of one polynomial, determined by the data |
| CodeTheory.EncoderRow | lib/libfec/lib/source/fec.c:710-723 | row i of the encoding matrix applied to the data is the value of that polynomial at point i |
| CodeTheory.DecodeMatrixRank | lib/libfec/lib/source/fec.c:806-834 | k rows of the encoding matrix are independent if and only if their numbers differ |
| CodeTheory.InverseDecodes | lib/libfec/lib/source/fec.c:863-878 | the inverse of the decode matrix applied to received symbols gives the data |
| CodeTheory.EncodePacket | lib/libfec/lib/source/fec.c:739-762 | the meaning of an encoded packet: bytewise, symbol i of the codeword of the data; the data itself for i below k |
| CodeTheory.DataUnique | lib/libfec/lib/source/fec.c:848-892 | k packets under different indexes determine the data: two batches with the same k packets are equal |
| CodeTheory.DataExists | lib/libfec/lib/source/fec.c:848-892 | any k packets of one size under different indexes are packets of some data |
| Codec.AddMul | lib/libfec/lib/source/fec.c:357-392 | adds c times the source bytewise, unrolled by 16 with a tail |
| Codec.MatMul | lib/libfec/lib/source/fec.c:397-411 | the matrix product, entry by entry |
| Codec.FecNew | lib/libfec/lib/source/fec.c:677-731 | null exactly for k > n or more than 256 packets; otherwise the systematic matrix, with two rows or more for the points 0, 1 and the powers of the generator: terms of that sequence as data are continued by it, and the third of two packets has the row [3, 2] |
| Field.FieldPolynomial | lib/libfec/lib/source/fec.c:140-158 | the field is that of 1+x^2+x^3+x^4+x^8: the eighth power of 2 is 29 |
| CodeTheory.LineGoesOn | lib/libfec/lib/source/fec.c:698-716 | data whose symbols are 0, 1 and then each the double of the one before is continued by every further symbol of its codeword, whatever k is: the points are these |
| CodeTheory.PacketsOnLine | lib/libfec/lib/source/fec.c:739-762 | the same for the bytes of packets |
| CodeTheory.ThirdPacket | lib/libfec/lib/source/fec.c:739-762 | the first parity packet of two packets a and b is 3a xor 2b, byte by byte |
| Codec.FecEncode | lib/libfec/lib/source/fec.c:739-762 | packet index gets its symbols of the codeword; an index past n writes nothing; sources unchanged |
| Codec.Shuffle | lib/libfec/lib/source/fec.c:767-799 | terminates on every index array, keeps packets with their indices, returns 1 exactly when an index below k occurs twice, else every index below k is at its own place |
| Codec.BuildDecodeMatrix | lib/libfec/lib/source/fec.c:806-835 | the inverse of the matrix of received rows, or null when it has none or an index is out of range |
| Codec.FecDecode | lib/libfec/lib/source/fec.c:848-892 | returns 0 exactly for different valid indices, and then k encoded packets become the data in order |
| ReedSolomon.RsEncode | lib/libfec/lib/source/rs.c:11-21 | the group becomes the codeword of its own data packets |
| ReedSolomon.Compact | lib/libfec/lib/source/rs.c:29-44 | the packets that arrived move to the front in order, nulls behind; too few change nothing |
| ReedSolomon.CompactedKeepsBuffers | lib/libfec/lib/source/rs.c:38-44 | compaction loses and duplicates no buffer |
| ReedSolomon.RsDecode | lib/libfec/lib/source/rs.c:23-46 | -1 and nothing changed with fewer than k packets; otherwise 0, the same buffers each once, and any packets of a codeword give back its data |
| ErasureCode.CodeTable.GetCode | lib/libfec/lib/source/rs.c:48-65 | a cached code for the pair, created once; null only for k > n |
| ErasureCode.CodeTable.Encode2 | lib/libfec/lib/source/rs.c:66-70 | the codeword of a batch, through the cache |
| ErasureCode.CodeTable.Decode2 | lib/libfec/lib/source/rs.c:72-76 | the data of a batch from any k of its packets, through the cache |
| ErasureCode.EncodeLoseDecode | lib/libfec/lib/source/rs.c:11-46 | any k of n: encode, lose any packets but k or more, decode: 0 and the original data in order |
| Kcp.ControlBlock.UpdateAck | lib/kcp/source/ikcp.c:543-558 | smoothed round-trip time and RTO with truncating division and 32-bit wrap-around |
| Kcp.ControlBlock.ParseAck | lib/kcp/source/ikcp.c:571-591 | the scan with early exit removes what the model removes; the counter follows |
| Kcp.ControlBlock.ParseUna | lib/kcp/source/ikcp.c:593-607 | drops acknowledged segments from the front; the counter follows |
| Kcp.ControlBlock.ParseFastack | lib/kcp/source/ikcp.c:609-631 | counts a skip on each segment before the acknowledged one |
| Kcp.ControlBlock.InsertInOrder | lib/kcp/source/ikcp.c:695-713 | the backward search: duplicates dropped, others put behind the last smaller one |
| Kcp.ControlBlock.ParseData | lib/kcp/source/ikcp.c:683-743 | window test, ordered insertion, and moving the contiguous run |
| Kcp.ControlBlock.Input | lib/kcp/source/ikcp.c:749-896 | the whole input loop on arbitrary bytes: new state and return code on every path |
| Kcp.ControlBlock.GrowCwnd | lib/kcp/source/ikcp.c:875-893 | window growth with its guards |
| Kcp.ControlBlock.PeekSize | lib/kcp/source/ikcp.c:441-463 | size of the first message, or -1 when it is not complete |
| Kcp.ControlBlock.Recv | lib/kcp/source/ikcp.c:358-434 | merging, removing unless peeking, refilling the queue, asking to announce the window |
| Kcp.ControlBlock.Send | lib/kcp/source/ikcp.c:469-537 | stream extension, fragment count and limit, fragments numbered down to 0 |
| Kcp.ControlBlock.AppendSegment | lib/kcp/source/ikcp.c:1085-1097 | a segment that would pass the mtu first sends the buffer, an empty buffer is not sent |
| Kcp.ControlBlock.FillSendBuffer | lib/kcp/source/ikcp.c:1016-1038 | numbers queued segments while the window allows |
| Kcp.ControlBlock.UnusedWindow | lib/kcp/source/ikcp.c:915-921 | what is left of the receive window |
| Kcp.ControlBlock.SendLimit | lib/kcp/source/ikcp.c:1013-1014 | the smallest of send window, remote window and, when it is on, congestion window |
| Kcp.ControlBlock.TouchSegment | lib/kcp/source/ikcp.c:1046-1084 | whether and why one segment is sent now, its new timeout and resend time, and the counters |
| Kcp.ControlBlock.SendSegment | lib/kcp/source/ikcp.c:1081-1101 | a segment to be sent joins the datagram, too many transmissions mark the connection dead |
| Kcp.ControlBlock.SweepBuffer | lib/kcp/source/ikcp.c:1044-1102 | first transmission, timeout and fast resend, in order, with the losses counted |
| Kcp.ControlBlock.AdjustWindow | lib/kcp/source/ikcp.c:1110-1131 | threshold and window after fast resends and timeouts |
| Kcp.ControlBlock.Flush | lib/kcp/source/ikcp.c:927-1132 | new state and datagrams byte for byte: acks, probes, due segments; nothing before the first update |
| Kcp.ControlBlock.Update | lib/kcp/source/ikcp.c:1140-1165 | clock, flush schedule with resynchronisation, and the flush |
| Kcp.ControlBlock.Check | lib/kcp/source/ikcp.c:1177-1213 | the time of the next call to update |
| KcpWire.DecodeEncode | lib/kcp/source/ikcp.c:902-913 | a segment encoded and read by the input loop is itself, fields cut to width, and the rest of the buffer is left |
| KcpWire.GroupRoundTrip | lib/kcp/source/ikcp.c:761-869 | a datagram parses to exactly its segments in order |
| KcpWire.LoopReads | lib/kcp/source/ikcp.c:761-869 | for any state, the byte loop on a well-formed datagram and a tail is the segments read one by one and then the loop on the tail |
| KcpWire.PaddingTransparent | lib/kcp/source/ikcp.c:749-896 | for any well-formed datagram and any z zero bytes behind it: identical outcome if z < 24, otherwise only fast-ack, window growth and the code differ |
| KcpWire.PacketsKeep | lib/kcp/source/ikcp.c:1085-1108 | cutting into datagrams loses and reorders nothing and respects the mtu |
| KcpPackets.FlushRoundTrip | lib/kcp/source/ikcp.c:927-1108 | the datagrams of one flush hold whole segments, 1 to mtu bytes each, and parse to the pending acks, then the probes, then the due segments |
| KcpSender.DiffIsOrder | lib/kcp/source/ikcp.c:136-139 | within 2^31 the signed 32-bit difference is the difference of distances from any common base |
| KcpSender.UnaRemovesExactly | lib/kcp/source/ikcp.c:593-607 | for una inside the window the early exit removes exactly the segments below una |
| KcpSender.AckRemovesExactly | lib/kcp/source/ikcp.c:571-591 | for any number at all, exactly the segment with that number is removed |
| KcpSender.FastackCountsSkipped | lib/kcp/source/ikcp.c:609-631 | exactly the segments before the acknowledged number are counted as skipped |
| KcpSender.DropUnaKeeps | lib/kcp/source/ikcp.c:593-607 | for any una whatever snd_buf stays strictly ascending in [snd_una, snd_nxt) with snd_una at its head, and snd_una never moves back |
| KcpSender.DropAckKeeps | lib/kcp/source/ikcp.c:560-591 | the same for any acknowledged number |
| KcpSender.FillBufKeeps | lib/kcp/source/ikcp.c:1012-1038 | numbering new segments keeps the order and at most snd_wnd (and 65535) in flight |
| KcpReceiver.BackwardSearch | lib/kcp/source/ikcp.c:695-713 | the search from the tail inserts in order of distance from rcv_nxt, dropping duplicates |
| KcpReceiver.MoveReadyMoves | lib/kcp/source/ikcp.c:720-732 | the loop moves exactly a contiguous run and stops only at a gap or a full queue |
| KcpReceiver.AcceptKeeps | lib/kcp/source/ikcp.c:683-743 | for any segment rcv_buf stays strictly ascending inside the window and the queue within rcv_wnd |
| KcpReceiver.ReachesCanonical | lib/kcp/source/ikcp.c:683-732 | what a set of segments leaves behind: the contiguous run delivered in order, the rest waiting in ascending order |
| KcpReceiver.Confluence | lib/kcp/source/ikcp.c:683-732 | from an empty rcv_buf, any order and any duplication of the same segments inside the window end in the same state |
| KcpCongestion.GuardsNeverFire | lib/kcp/source/ikcp.c:875-893 | with cwnd = incr / mss and ssthresh >= 2 both guards are dead, nothing wraps, growth adds at most one and never passes rmt_wnd |
| KcpCongestion.AfterLossKeeps | lib/kcp/source/ikcp.c:1110-1131 | cwnd = incr / mss, ssthresh >= 2 and cwnd >= 1 after any loss recovery |
| KcpEndpoint.ProcessSegKeeps | lib/kcp/source/ikcp.c:788-865 | any segment keeps the block in order and snd_una moving forward only |
| KcpEndpoint.InputKeeps | lib/kcp/source/ikcp.c:749-896 | arbitrary bytes, on every path including the errors, do too |
| KcpEndpoint.FlushKeeps | lib/kcp/source/ikcp.c:927-1132 | a flush keeps the invariant and snd_una |
| KcpEndpoint.ApplyKeeps | lib/kcp/source/ikcp.c:358-1175 | every call keeps the invariant and never moves snd_una back or past snd_nxt |
| KcpEndpoint.AlwaysOk | lib/kcp/source/ikcp.c:358-1175 | the invariant in every state any calls with any bytes can reach: both buffers ascending in their windows, in-flight and queue bounds, RTO and timeouts bounded |
| KcpEndpoint.CongestionAlwaysOk | lib/kcp/source/ikcp.c:875-1131 | in every reachable state cwnd = incr / mss and ssthresh >= 2 |
| KcpTiming.FlushLater | lib/kcp/source/ikcp.c:1045-1075 | after a flush a segment in snd_buf is due strictly later if and only if it could be scheduled: the delay it was sent with is positive and below 2^31, or it was kept and is not exactly 2^31 ms away |
| KcpTiming.FewTransmissions | lib/kcp/source/ikcp.c:1045-1075 | in a block in order every segment sent for at most the 35791st time is due strictly later |
| KcpTiming.CheckEarliest | lib/kcp/source/ikcp.c:1177-1213 | before the next flush: now if a segment is due, else exactly the nearest of next flush, next resend and one interval |
| KcpTiming.CheckAfterFlush | lib/kcp/source/ikcp.c:1140-1213 | after any update that flushes at t, check(t) is t if and only if some segment could not be scheduled ahead; otherwise it lies in (t, t+interval], no later than the next flush or any resend |
| KcpTiming.CheckStalls | lib/kcp/source/ikcp.c:1140-1213 | for every setup an input on which it is t: one byte sent by a new block, and an update exactly 2^31 ms after it is due again |
| KcpTiming.ProbeBackoff | lib/kcp/source/ikcp.c:966-986 | while the remote window is 0 the timer runs, 7 s at first, half as long again each time it expires and never above 120 s, counted from the flush; it asks exactly when it expires and is then set ahead; a window above 0 stops it |
| KcpTiming.ProbeAlwaysOk | lib/kcp/source/ikcp.c:966-1009 | in every state any calls and bytes can reach no question is pending and the timer is stopped or set to 7 to 120 s |
| KcpTiming.AsksWhenDue | lib/kcp/source/ikcp.c:966-996 | a flush sends a window question if and only if the remote window is 0 and the timer has expired |
| KcpHistory.PiecesMerge | lib/kcp/source/ikcp.c:507-534 | the fragments of a message joined are the message, numbered down to 0 |
| KcpHistory.BeginsPeek | lib/kcp/source/ikcp.c:441-463 | in front of a whole message peeksize is the length of what recv returns |
| KcpHistory.PeekIsMerged | lib/kcp/source/ikcp.c:411-411 | the assertion of recv holds for every queue: what is merged is as long as peeksize said |
| KcpTransfer.DropUnaHolds | lib/kcp/source/ikcp.c:593-607 | a cumulative acknowledgement the receiver can have sent drops only what it has |
| KcpTransfer.DropAckHolds | lib/kcp/source/ikcp.c:571-591 | so does a selective one |
| KcpTransfer.FillHolds | lib/kcp/source/ikcp.c:1016-1038 | numbering moves the next fragments of the history from queue to flight |
| KcpTransfer.AcceptHolds | lib/kcp/source/ikcp.c:683-743 | a genuine segment is received if inside the window, queue and buffer stay pieces of the history, nothing received is lost |
| KcpSafety.StepAsSender | lib/kcp/source/ikcp.c:358-1175 | every event at a host keeps everything known about its outgoing direction |
| KcpSafety.StepAsReceiver | lib/kcp/source/ikcp.c:358-1175 | and about its incoming direction |
| KcpSafety.PlayOk | lib/kcp/source/ikcp.c:358-1175 | in every state any actions of two endpoints and the network can reach, everything known of both directions holds |
| KcpSafety.DeliversPrefix | lib/kcp/source/ikcp.c:358-1132 | in every run with exact numbers, messages returned on one side are a prefix of those accepted on the other |
| KcpSafety.NothingLost | lib/kcp/source/ikcp.c:571-846 | in every reachable state each numbered segment is in the sender's snd_buf or held by the receiver, and datagrams in flight acknowledge only received ones |
| KcpSafety.NoWedge | lib/kcp/source/ikcp.c:384-463 | in every reachable state a full receive queue starts with a complete message, peeksize is its exact length, and a large enough recv returns it and frees room or moves rcv_nxt |
| KcpWrap.DiffAgrees | lib/kcp/source/ikcp.c:136-139 | for numbers less than 2^31 apart the 32-bit comparison agrees with the exact one |
| KcpWrap.CutReadGroup | lib/kcp/source/ikcp.c:749-896 | reading a datagram commutes with cutting all numbers to 32 bits |
| KcpWrap.CutRecv | lib/kcp/source/ikcp.c:358-434 | so does recv |
| KcpWrap.CutFlush | lib/kcp/source/ikcp.c:927-1132 | so does a flush, datagrams included |
| KcpConversation.RecentIsLive | lib/kcp/source/ikcp.c:136-139 | a delivered segment not too old is close enough for every comparison: numbers are never too far ahead |
| KcpConversation.CutStep | lib/kcp/source/ikcp.c:358-1175 | one event of the byte-level 32-bit program is the exact event, cut and encoded |
| KcpConversation.RunsAgree | lib/kcp/source/ikcp.c:358-1175 | a whole byte-level 32-bit run is the exact run, cut and encoded |
| KcpConversation.WireDeliversPrefix | lib/kcp/source/ikcp.c:358-1132 | in every live run of two 32-bit control blocks over a network that loses, duplicates, reorders and zero-pads datagrams, messages come out as a prefix of those sent, bytes and boundaries identical |
| KcpConversation.WireNoWedge | lib/kcp/source/ikcp.c:384-463 | no wedge in the 32-bit program: a full receive queue starts with a whole message of the length peeksize says, and a large enough recv returns it and frees room or moves rcv_nxt on |
| KcpConversation.WireNothingLost | lib/kcp/source/ikcp.c:571-846 | nothing lost in the 32-bit program: every number the 32-bit comparison puts before snd_nxt is in the sender's snd_buf, or before the receiver's rcv_nxt or in its rcv_buf |
| KcpConversation.WireHonest | lib/kcp/source/ikcp.c:571-846 | the segments read from any datagram of the receiver that may still be delivered acknowledge only what it has, by the same comparison |
| KcpPadding.InputSame | lib/kcp/source/ikcp.c:749-896 | input cannot tell apart states that differ in congestion window and skip counts only |
| KcpPadding.PaddingNeverMatters | lib/kcp/source/ikcp.c:749-896 | any number of datagrams each padded by any zeros leave the same state but for congestion window and skip counts |
| KcpInput.InputAcks | lib/kcp/source/ikcp.c:822-846 | reading a datagram adds to the pending acknowledgements exactly number and time stamp of each data segment below rcv_nxt + rcv_wnd at its turn, in order and with repetitions; the receiver gets every data segment |
| KcpInput.InputReceives | lib/kcp/source/ikcp.c:822-846 | a data segment inside the receive window, in whatever company, is acknowledged and is in the queue or waits in rcv_buf |
| KcpInput.InputDrops | lib/kcp/source/ikcp.c:789-797 | a datagram removes from snd_buf exactly the segments it acknowledges, one by one or by una, and moves snd_una to the first one left; queue and snd_nxt stay |
| KcpInput.AckClears | lib/kcp/source/ikcp.c:792-797 | an acknowledged number is not in snd_buf afterwards, whatever else the datagram holds |
| KcpInput.InputNotes | lib/kcp/source/ikcp.c:788-862 | the remote window is that of the last segment; an answer is owed exactly if a question came; each acknowledgement whose time stamp is not ahead of the clock is a round-trip sample |
| KcpInput.InputGrows | lib/kcp/source/ikcp.c:875-893 | the congestion window grows exactly if snd_una moved and it is below the remote window: by one segment below ssthresh, by about mss*mss/incr + mss/16 bytes above |
| KcpInput.InputSkips | lib/kcp/source/ikcp.c:609-631 | a segment left in snd_buf has one skip more exactly if some acknowledgement in the datagram is for a later number; nothing else of it changes |
| KcpInput.InputRefuses | lib/kcp/source/ikcp.c:759-786 | return codes of whole segments followed by anything: too short, of another conversation or cut off, of an unknown kind; what stands before has been read |
| KcpFlush.FlushSenderIs | lib/kcp/source/ikcp.c:1012-1084 | as many queued segments are numbered as fit what the send, remote and congestion windows allow, so none of them lies rmt_wnd or more past snd_una; all new, late and overtaken segments are sent, each with its new timeout, resend time and counters, and no others |
| KcpFlush.FlushLoss | lib/kcp/source/ikcp.c:1110-1131 | if some segment is late, cwnd is 1, incr is mss and ssthresh is half the window allowed, at least 2; if one is only overtaken, ssthresh is half of what is in flight, at least 2, and cwnd is that and the skip limit; otherwise nothing but a cwnd below 1 changes |
| KcpFlush.FlushTotals | lib/kcp/source/ikcp.c:1057-1131 | timeouts are counted one by one, the link is dead exactly if a segment reaches the transmission limit, and nothing pending is left |
| KcpFlush.FlushCarries | lib/kcp/source/ikcp.c:940-1108 | read back, the datagrams of a flush hold one acknowledgement for each one pending, a question if one is due, an answer if one is owed, and the segments that go |
| KcpFlush.FlushAnnounces | lib/kcp/source/ikcp.c:915-938 | every segment of every datagram, read back, announces what is left of the receive window and the first number missing |
| KcpFlush.PeerKnowsWindow | lib/kcp/source/ikcp.c:788-788 | a peer that reads any datagram of a flush has as remote window what is left of the receive window |
| KcpFlush.DataIsAcknowledged | lib/kcp/source/ikcp.c:571-1108 | two endpoints: once a data segment of the window has been read and its receiver has flushed, some datagram of that flush removes it from the snd_buf of whichever sender reads it |
| KcpCalls.UpdateFlushes | lib/kcp/source/ikcp.c:1140-1165 | update flushes exactly if the block is new, its flush time is not in the future or it is more than 10000 ms ahead; the next flush time is one interval after the old one if that is still to come, otherwise one interval after the call |
| KcpCalls.SampleMoves | lib/kcp/source/ikcp.c:543-558 | a sample moves the estimate an eighth of the way and the deviation a quarter, the first one sets both; the timeout is the estimate and four deviations within its bounds |
| KcpCalls.SendCuts | lib/kcp/source/ikcp.c:507-534 | a message is refused exactly if it is longer than 127 full segments; otherwise all its pieces but the last are full, the last is not empty unless the message is, and they are numbered down to 0 |
| KcpCalls.SendStreams | lib/kcp/source/ikcp.c:477-534 | in stream mode the bytes follow those queued and the segments stay packed; a refused call has still queued what fits the last segment |
| KcpCalls.RecvRefuses | lib/kcp/source/ikcp.c:366-378 | the three refusals of recv change nothing |
| KcpCalls.RecvReturns | lib/kcp/source/ikcp.c:380-434 | recv returns the whole message and removes it unless peeking, refills the queue with the run that is ready, and asks to tell the window exactly if the queue was full and no longer is |
| KcpWire.EncodeLayout | lib/kcp/source/ikcp.c:902-913 | every field of a segment byte by byte: its place, and the low byte first |
| Timeouts.TimeOutMap.Update | lib/libfec/source/timeout_map.cpp:10-20 | the map with the key's time replaced, or -1 and no change for an unknown key |
| Timeouts.TimeOutMap.Add | lib/libfec/source/timeout_map.cpp:22-31 | the map with the key added or its time replaced |
| Timeouts.TimeOutMap.Remove | lib/libfec/source/timeout_map.cpp:33-42 | the map without the key, -1 if it was unknown |
| Timeouts.TimeOutMap.GetTimeOutElements | lib/libfec/source/timeout_map.cpp:44-60 | exactly the expired keys, each once, oldest first, although the scan stops early |
| Timeouts.ScanComplete | lib/libfec/source/timeout_map.cpp:51-57 | behind the stopping point nothing has expired |
| FecFrame.HeaderRoundTrip | lib/libfec/source/common.cpp:8-51 | the 11-byte header read back gives sequence number, length, k, r, index and the payload |
| FecFrame.MarkedRoundTrip | lib/libfec/source/common.cpp:15-39 | unencoded data is recognised by the reversed mark, bytes 78 56 34 12, and never taken for a packet of a group |
| FecFrame.HeaderLayout | lib/libfec/source/common.cpp:8-51 | the header byte by byte: mark, number and length with the high byte first, counts and index |
| FecFrame.FrameFields | lib/libfec/source/fec_encode.cpp:59-90 | a frame says where its payload belongs and how long it was |
| FecEncoder.FecEncode.constructor | lib/libfec/source/fec_encode.cpp:11-33 | a number drawn by the generator, which draws again while it is 0, is kept below 65521 and becomes 1 otherwise; an invariant of the class is that the number is 1 to 65520 |
| FecEncoder.FecEncode.Input | lib/libfec/source/fec_encode.cpp:40-108 | -1 when full, -2 for a bad length, 0 while collecting; the k-th packet yields 1 and the frames of the zero-padded, encoded batch, and the next number |
| FecEncoder.FecEncode.Output | lib/libfec/source/fec_encode.cpp:110-119 | hands out the frames once ready and starts a new batch |
| FecEncoder.FecEncode.FlushUnEncodedData | lib/libfec/source/fec_encode.cpp:135-149 | an unfinished batch comes out packet by packet behind the reversed mark |
| FecDecoder.FecDecode.ClearTimeoutDatas | lib/libfec/source/fec_decode.cpp:191-197 | drops exactly the expired groups that are not ready |
| FecDecoder.FecDecode.SearchForNextReadySeq | lib/libfec/source/fec_decode.cpp:179-189 | the smallest ready number whose group fits, 0 if none; clears when nothing is ready |
| FecDecoder.FecDecode.DealUnEncodeData | lib/libfec/source/fec_decode.cpp:116-127 | unencoded data becomes the waiting output |
| FecDecoder.FecDecode.Input | lib/libfec/source/fec_decode.cpp:38-114 | new state and return value for every packet of any sender whose header fits what is stored: errors, closed groups, duplicates, collected packets, and the completing one, after which the group holds the only data its packets can come from |
| FecDecoder.FecDecode.Emit | lib/libfec/source/fec_decode.cpp:153-169 | the packet under the cursor, zeros behind it, and the announcement of the next |
| FecDecoder.FecDecode.Output | lib/libfec/source/fec_decode.cpp:129-177 | new state, return value and buffer of one output call |
| FecModel.RestorationUnique | lib/libfec/source/fec_decode.cpp:84-106 | once k packets of a group are there, only one batch of data agrees with them |
| FecModel.RestorationExists | lib/libfec/source/fec_decode.cpp:84-106 | and one does, whoever sent them |
| FecGroups.InputKeeps | lib/libfec/source/fec_decode.cpp:38-114 | whatever packet fits what is stored arrives, the maps stay in order: counts agree with the slots filled, sizes with the announced lengths, decoded groups are whole |
| FecGroups.ReceiveStep | lib/libfec/source/fec_decode.cpp:57-113 | a duplicate changes nothing, an early packet is collected, the k-th different one restores the batch and returns its longest length; other groups are left alone unless expired |
| FecDrain.OutputStep | lib/libfec/source/fec_decode.cpp:129-177 | each output call yields the next packet of the ready group followed by zeros only and announces the one after it; after the last the group is closed |
| FecDrain.PendingStep | source/fec_kcp.cpp:29-48 | each turn of the drain loop gets exactly the next pending packet |
| FecDrain.PendingDrains | source/fec_kcp.cpp:29-48 | so the loop gets all that is pending and ends with a drained decoder |
| FecDrain.IntakeSettles | source/fec_kcp.cpp:25-48 | from a drained decoder, input and loop hand out nothing, one unencoded packet, or the whole group that the packet completed, and leave the decoder drained |
| FecArrivals.ArrivalStep | lib/libfec/source/fec_decode.cpp:38-177 | a frame of a group in progress, drained after: nothing before the k-th different frame, the whole group in order with it; every other group unchanged unless expired; the state the next frame needs |
| FecArrivals.GroupRoundTrip | lib/libfec/source/fec_decode.cpp:38-177 | the round trip over a whole run of a new decoder: frames of any groups mixed, repeated and lost; a frame hands on nothing unless it is the k-th different one of its group, and then the k packets in order, each followed only by zeros, of exact length where the packet itself arrived and is not the first |
| FecArrivals.StaleCursor | lib/libfec/source/fec_decode.cpp:153-157 | a restored group can be handed out if and only if its number is not the one under the output cursor or the cursor is not behind its packets |
| FecArrivals.StaleCursorHappens | lib/libfec/source/fec_decode.cpp:153-157 | an input on which it is: a one-packet group, its removal after the time limit, and the same frame again; output would read behind the last packet |
| FecCalls.InputCodes | lib/libfec/source/fec_decode.cpp:38-61 | return codes by the first bytes of a packet: unencoded data waits to be handed out, anything short, unmarked or numbered outside its group is refused, a closed group takes nothing |
| FecCalls.MarkedPasses | lib/libfec/source/fec_decode.cpp:116-127 | unencoded data comes out of a drained decoder as it went in |
| FecCalls.DrainClears | lib/libfec/source/fec_decode.cpp:179-197 | once something has been handed out, exactly the groups whose last packet came longer ago than the limit are gone, and every other one is as it was |
| FecCalls.CrowdClears | lib/libfec/source/fec_decode.cpp:69-113 | the same after a packet is collected while more than 50 groups are stored; the group of the packet has its time |
| FecCalls.SearchFindsLeast | lib/libfec/source/fec_decode.cpp:179-189 | the search finds the smallest ready number whose group fits, and 0 if there is none or if 0 is one |
| FecKcp.FecKcp.constructor | source/fec_kcp.cpp:9-19 | a fresh endpoint of the run system, with conversation number 0x11112222 and settings to which every theorem about runs applies |
| FecKcp.FecKcp.UserDataSend | source/fec_kcp.cpp:21-23 | one step of the run system: the message joins those accepted exactly when ikcp_send takes it |
| FecKcp.FecKcp.DataOutput | source/fec_kcp.cpp:52-54 | one step of the run system: what ikcp_recv returns joins the messages returned |
| FecKcp.FecKcp.KcpSendFunc | source/fec_kcp.cpp:68-91 | a datagram joins the batch; a full batch is sent as frames; -1 for one the encoder does not take |
| FecKcp.FecKcp.FecKcpUpdate | source/fec_kcp.cpp:56-58 | one step of the run system: every datagram of the update goes through the encoder, and the frames of all batches it fills are sent in order |
| FecKcp.FecKcp.DataInput | source/fec_kcp.cpp:25-50 | one step of the run system, so the whole new state: the decoder is what input and drain make of it and KCP has been given everything handed out, in order; the return value is the error of the last packet handed out or 0, an earlier error being overwritten by the next output call; what the next call needs of the clock and the drain holds again |
| FecSealed.OfferAllBoxed | source/fec_kcp.cpp:68-91 | every batch the encoder of an endpoint seals consists of k datagrams of its own output, in order, and every frame sent is a frame of one of them |
| FecSealed.NumbersRepeat | lib/libfec/source/fec_encode.cpp:101-104 | two batches share a sequence number if and only if they are a multiple of 65520 apart |
| FecRun.StepFollows | source/fec_kcp.cpp:21-91 | one call at an endpoint of KCP over FEC is a series of calls of its control block: a frame in its turn delivers datagrams of the other side with zeros behind them, or nothing |
| FecRun.FecFollows | source/fec_kcp.cpp:21-91 | a whole run of two endpoints and a network that loses, repeats and reorders frames is a run of the two control blocks |
| FecRun.FecDeliversPrefix | source/fec_kcp.cpp:21-91 | end to end: in every live run of two endpoints of KCP over FEC, what one application receives is a prefix of what the other sent, bytes and boundaries identical |
| FecRun.FewBatches | lib/libfec/source/fec_decode.cpp:57-61 | while a sender has made at most 65520 batches, each of its frames comes in its turn if and only if it is not stale |
| FecRun.FewBatchesDeliver | source/fec_kcp.cpp:21-91 | end-to-end delivery for runs in which only stale frames and old segments are excluded |
| FecRun.StaleInRuns | lib/libfec/source/fec_decode.cpp:153-157 | in every live run: after a frame of a batch in progress the decoder can be drained if and only if the frame is not stale, so stale frames are exactly what has to be excluded |
| FecTimely.TimelyDelivers | source/fec_kcp.cpp:21-91 | end to end from arrival times: if at both endpoints the clock does not go back and the frames of a batch that arrive do so within 10 s, and neither side sends more than 65520 batches, no frame is stale and messages come out as they went in |
| FecRun.RepairIsTransparent | source/fec_kcp.cpp:25-50 | the frame that completes a group leaves KCP as if the datagrams of the batch had arrived themselves, whichever were lost, up to congestion window and skip counts |

## Left out

- Sockets, timers, `main`, logging and the random source: the initial sequence
  number of the encoder (from 1 to 65535, as `random_generator.cpp` draws it) and every
  clock reading are parameters. One clock value is
  used for a whole call of `DataInput`.
- Allocation failure, `free` and raw pointer arithmetic; buffers are arrays in the
  codec and sequences above it. The payload of a frame in the group layer is a value
  copied into buffers of its own for the codec, so aliasing between frames is not
  captured there.
- The intrusive lists of `ikcp.h` are sequences, and the growth of the ack block is
  a sequence that grows. List iterators stored in the timeout map are modelled by the
  key they point at.
- The eight maps of the decoder are one map from sequence number to a record; entries
  that `operator[]` creates with default values do not appear.
- FecDecoder.FecDecode.Input: packets of a group that is still collecting whose header
  contradicts what is stored under the number (counts, size), has a data count or an
  index that is not positive, or announces more bytes than the packet has, are outside its
  precondition; no encoder makes them, and on many of them the program leaves its
  buffers.
- FecKcp.FecKcp.DataInput: the same, and it is not stated for a four-byte packet that is
  only the reversed mark or a frame without payload, after which the decoder is not
  drained, for a frame numbered 0, which no encoder makes, or for a stale frame.
- FecRun.FecDeliversPrefix: endpoints do not flush unfinished batches, as FecKcp does not;
  frames still waiting in an unfinished batch are not sent.
- KcpConversation.WireDeliversPrefix: stream mode, which has no message boundaries, is not
  covered (a stream-mode send is modelled by `Kcp.ControlBlock.Send`); and it says nothing
  about progress, which needs assumptions about the network that the code does not state.
- Mutexes and atomics of the FEC classes: calls are sequential.
- `gf_mul` reads its table; the codec uses the product that
  `GfTables.Tables.InitMulTable` is proved to store in it.
- Signed overflow in `ikcp_update_ack` is two's-complement wrap-around.
- `fec_free`, field sizes other than 8 bits, debug branches, `IKCP_FASTACK_CONSERVE`,
  `ikcp_setmtu` and `ikcp_wndsize` in the middle of a run.
- The idle timer of the encoder (`FecEncodeUpdateTime`) decides only when to flush.
