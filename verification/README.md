# Radio link for federated learning: verified model

A Dafny model of the parts of the radio link that have to be right: the erasure codec, the block
sender and the reassembly ring (joined end to end), the KCP retransmission protocol, the airtime
grants, and the TUN batching machine. Each part has a specification over values, objects with the
source's fields whose methods are proved against it, and the properties proved about it for all
inputs, all runs and all reachable states.

| files | source | subject |
|---|---|---|
| `Bytes`, `GaloisField`, `GaloisPowers`, `GaloisTables`, `MultiplyAdd` | `src/zfex.c` | the field of 256 elements, its tables, the multiply-add loops |
| `LinearAlgebra`, `MatrixBuffer`, `GaussJordan`, `Polynomials`, `Vandermonde`, `FecMatrix`, `FecCodec` | `src/zfex.c` | in-place inversion, the generator matrix, encoding and decoding |
| `WireFormat`, `BlockSender` | `src/wifibroadcast.hpp`, `src/tx.cpp` | nonces, blocks of k payloads and n - k parity fragments |
| `Reassembly`, `ReassemblyInvariants`, `ReassemblyHandover`, `SlotDecoding`, `ReassemblyRing` | `src/rx.cpp` | the ring of forty blocks per source |
| `Delivery`, `InOrderDelivery`, `EndToEnd` | `src/tx.cpp`, `src/rx.cpp` | sender, lossy channel and receiver together |
| `KcpEndpoint`, `KcpBuffers`, `KcpNoLoss`, `KcpRuns`, `KcpMessages`, `KcpMessageMode`, `KcpProgress`, `KcpWire`, `KcpWrapping`, `KcpControl`, `KcpPair`, `KcpClock` | `src/ikcp.c`, `src/kcp_small_sender.cpp`, `src/kcp_small_receiver.cpp` | the protocol on unbounded numbers, its bytes, the 32-bit control block, two of them joined, the clock |
| `TokenScheduling`, `TokenFairness`, `TokenSilence`, `GrantFilters`, `AirtimeSlots`, `TunQueue` | `src/token_scheduler.cpp`, `src/control_envelope.cpp`, `src/token_authorization.cpp`, `src/v6_uplink.cpp`, `src/v6_uplink_queue.hpp` | who may send when, and back-pressure |
| `TunBatcher` | `src/wfb_tun.c` | batching and unpacking of TUN packets |
| `Sequences` | | regrouping, repetition and ring positions |

How to read it:

- Bytes are integers from 0 to 255 and `gf` values are bytes; `^` is `Xor` on them. Matrices are flat
  row-major buffers, as in the source, seen as rows by `Rows`.
- `Receive`, `Step`, `Input`, `Flushed` and the like are functions over immutable states; the classes
  (`RxSource`, `Transmitter`, `Kcp`, `TokenScheduler`, …) are the source's objects, and each method says
  which of these functions it carries out on the state it changes.
- The KCP class keeps a ghost endpoint with unbounded numbers next to its 32-bit fields. Its methods take
  the number that a 32-bit value stands for as a ghost argument and require it to be less than 2^31 away
  from the windows; that is the only assumption about wrap-around. `KcpPair` proves it for two objects
  that exchange datagrams, as long as fewer than 2^31 numbers, less a window, have been assigned.
- Channels are sets or sequences of packets that were really sent: they may arrive any number of times,
  in any order, or never, but not changed.

Where the source does something else than it says:

- `_invert_vdm` is documented for every Vandermonde matrix. Its coefficient loop starts at
  `k - 1 - (i - 1)` and so never updates the constant coefficient; the result is the inverse only for
  two points or when one of the first two points is 0 (`CodeInverseExact`, `CodeInverseFails`). `fec_new`
  uses 0 as its first point and is not affected.
- `open_feedback_window` does not look at the normal slot that may be running, so two clients can be
  authorised at once (`TwoAtOnce`). They cannot if and only if no feedback grant is sent while a normal
  slot of another client is not over (`ExclusiveExactly`).
- `ikcp_check` can return a time at which `ikcp_update` does not flush (`CheckMayBeEarly`); it does flush
  if and only if it would at once, or nothing is due and neither a resend nor the interval comes before
  the flush time (`CheckIsExact`).
- A block that comes to the front with its first fragment already there does not hand it over until its next
  fragment arrives (`FrontMayWait`); the next unsent fragment of the front block waits in exactly these
  cases (`FrontWaitsExactly`).
- The two grant filters read the clock separately, so a grant can pass the first and expire before the
  second; their states then differ (`FiltersAgree`, `ClockBetween`).

## Model

| member | source | states |
|---|---|---|
| `GaloisTables.Modnn` | src/zfex.c:54-61 | The byte reduction loop returns x mod 255 for every x, and terminates. |
| `GaloisTables.Tables.GenerateGf` | src/zfex.c:130-190 | After the generator loops exp[i] is the i-th power of the generator element, log its inverse, inverse the true multiplicative inverse (0 for 0). |
| `GaloisTables.Tables.InitMulTable` | src/zfex.c:110-122 | The product table, built from logarithms with row and column 0 cleared afterwards, holds the product in GF(2)[x]/(x^8+x^4+x^3+x^2+1) for all 65536 pairs. |
| `GaloisTables.Tables.InitNibbleTable` | src/zfex.c:119-121 | The nibble table holds the product with h shifted into the high nibble. |
| `GaloisTables.InitFec` | src/zfex.c:701-707 | Both generators together leave every table equal to field arithmetic. |
| `GaloisField.MulComm` | src/zfex.c:27-36 | Multiplication by shift and add modulo the polynomial is commutative. |
| `GaloisField.MulAssoc` | src/zfex.c:27-36 | … and associative. |
| `GaloisField.MulAddRight` | src/zfex.c:27-36 | … and distributes over exclusive or. |
| `GaloisPowers.AlphaOrder` | src/zfex.c:33-47 | The element x has period 255, and none of 15, 51, 85 is a period. |
| `GaloisPowers.NoShorterPeriod` | src/zfex.c:33-47 | No positive exponent below 255 gives 1: the polynomial is primitive. |
| `GaloisPowers.AlphaSurjective` | src/zfex.c:33-47 | Every nonzero byte is a power of x, so the log table is total. |
| `GaloisPowers.InvCorrect` | src/zfex.c:186-190 | A nonzero element times its table inverse is 1. |
| `GaloisPowers.MulLogs` | src/zfex.c:110-118 | The product is the power at the sum of the logarithms modulo 255. |
| `MultiplyAdd.NibbleProduct` | src/zfex.c:228-246 | The low-nibble and the high-nibble table entry add up to the whole product: what one 16-lane kernel relies on. |
| `MultiplyAdd.Addmul1` | src/zfex.c:282-350 | The 16-fold unrolled scalar loop with its tail is dst[i] + c*src[i] at every position below sz and leaves the rest alone. |
| `MultiplyAdd.Addmul1Simd` | src/zfex.c:364-506 | The tiled kernel loop with its masked tail is the same pointwise function, for every length and content. |
| `LinearAlgebra.ExchangeCorrect` | src/zfex.c:590-622 | One in-place pivot step solves the equations for the pivot variable: the exchanged matrix maps the swapped vectors if and only if the old one maps the originals. |
| `LinearAlgebra.PivotExists` | src/zfex.c:555-594 | As long as a nonsingular matrix has unused rows and columns, a nonzero pivot can be found: the pivot assertions never fail. |
| `LinearAlgebra.UnscrambledFully` | src/zfex.c:625-628 | Undoing the recorded swaps in reverse order turns the exchanged matrix into the inverse. |
| `GaussJordan.FindPivot` | src/zfex.c:561-579 | The diagonal-first search returns a nonzero entry in an unused row and column, and cannot come back empty-handed on a nonsingular matrix. |
| `GaussJordan.EliminateRows` | src/zfex.c:614-621 | Every row but the pivot row loses its multiple of it, and its entry in the pivot column is cleared first. |
| `GaussJordan.PivotRound` | src/zfex.c:555-624 | One round (search, row swap, normalisation, elimination or the shortcut for a unit pivot row) keeps the matrix in exchanged form and uses one more column. |
| `GaussJordan.Unscramble` | src/zfex.c:625-628 | The final column swaps, last to first, give the inverse. |
| `GaussJordan.InvertMat` | src/zfex.c:533-634 | For every nonsingular k x k matrix the buffer afterwards holds its inverse: it maps y to x exactly when the old matrix maps x to y. |
| `Vandermonde.CodeInverseExact` | src/zfex.c:647-699 | What the coefficient loop and the synthetic division compute is the inverse of the Vandermonde matrix of distinct points if and only if there are two points, or one of the first two points is 0 (the loop bound drops the constant coefficient otherwise). |
| `Vandermonde.CodeInverseFails` | src/zfex.c:647-699 | The three distinct points 1, 2, 3 are a concrete case where it is not the inverse. |
| `Polynomials.TooManyRoots` | src/zfex.c:640-646 | A polynomial with as many distinct roots as coefficients is zero, which makes Vandermonde matrices nonsingular. |
| `FecMatrix.InvertVdm` | src/zfex.c:647-699 | The array loops compute exactly the coefficients and quotients that `CodeInverse` describes. |
| `FecMatrix.Matmul` | src/zfex.c:511-526 | The three nested loops compute the matrix product. |
| `FecMatrix.PointsDistinct` | src/zfex.c:756-762 | The points are 0, 1, and from there on each is x times the one before; up to 256 of them are pairwise distinct. |
| `FecMatrix.TopInverseCorrect` | src/zfex.c:756-770 | With these points, the first of which is 0, the fast inversion is the inverse of the top k x k block. |
| `FecMatrix.GeneratorEvaluates` | src/zfex.c:764-778 | Row s of the generator, applied to the data, is the value at point s of the polynomial that takes the data at the first k points. |
| `FecMatrix.OneInterpolant` | src/zfex.c:736-778 | For up to 255 data bytes there is exactly one polynomial with as many coefficients that takes them at 0 and at the first entries of the power table. |
| `FecMatrix.RowInterpolates` | src/zfex.c:756-778 | Row s of the generator, applied to the data, is the value of that polynomial at 0 for s = 0 and at table entry s - 1 otherwise. |
| `FecMatrix.AnyRowsNonsingular` | src/zfex.c:726-784 | For all 1 <= k <= n <= 255, any k distinct rows of the generator form a nonsingular matrix. |
| `FecMatrix.BuildGenerator` | src/zfex.c:752-778 | The loops of `fec_new` produce the generator, and each of its rows evaluates the polynomial through the data at its own entry of the power table. |
| `FecMatrix.FecCode.constructor` | src/zfex.c:726-784 | `fec_new` for every 1 <= k <= n < 256, with rows that evaluate the polynomial through the data. |
| `FecCodec.FecEncode` | src/zfex.c:786-830 | At every byte below sz, through the 8192-byte strides, parity buffer i holds the value at table entry k+i-1 of the polynomial that takes the data bytes at 0 and the first entries: row k+i of the generator. |
| `FecCodec.Shuffle` | src/zfex.c:832-866 | The in-place shuffle terminates (each swap adds a fixed point), permutes buffers and numbers alike, leaves every primary block in the slot of its number, and fails exactly when a primary number occurs twice. |
| `FecCodec.BuildDecodeMatrix` | src/zfex.c:868-883 | The decoding matrix is the inverse of the selected generator rows. |
| `FecCodec.DecodeColumn` | src/zfex.c:885-934 | Solving the selected equations gives back the data byte. |
| `FecCodec.CodewordReordered` | src/zfex.c:832-866 | Reordering blocks together with their numbers keeps a codeword a codeword. |
| `FecCodec.FecDecode` | src/zfex.c:885-934 | For any k received blocks in any slot order the outputs are exactly the missing primary blocks in increasing order, with their original bytes; nothing else is written; it fails exactly on a duplicated primary number. |
| `WireFormat.NonceRoundTrip` | src/wifibroadcast.hpp:189-212 | Node and fragment always come back out of the data nonce, the block number exactly when it fits 48 bits. |
| `WireFormat.NonceInjective` | src/wifibroadcast.hpp:189-212 | Different (node, block, fragment) triples get different nonces. |
| `BlockSender.Transmitter.constructor` | src/tx.cpp:123-156 | A sender starts at block 0 with an empty block and n buffers. |
| `BlockSender.Transmitter.SendBlockFragment` | src/tx.cpp:640-672 | One fragment goes on the air with the nonce of its block and number and the first packetSize bytes of its buffer. |
| `BlockSender.Transmitter.FillBuffer` | src/tx.cpp:695-706 | Header, payload and zero padding fill the buffer to the maximal payload. |
| `BlockSender.Transmitter.Encode` | src/tx.cpp:720-721 | Over the rounded-up longest size the parity buffers become the generator rows times the framed payloads. |
| `BlockSender.Transmitter.SendPacket` | src/tx.cpp:685-759 | The new block state and everything put on the air, for all three outcomes: filler refused on an empty block, payload added, block closed with its n-k parity fragments. |
| `Reassembly.ChosenOk` | src/rx.cpp:1245-1275 | The index selection of `apply_fec` never runs out of parity fragments, picks k different ones and leaves primary ones in place. |
| `Reassembly.SolvedUnique` | src/rx.cpp:1256-1283 | There is only one data column that fits k received bytes. |
| `Reassembly.PushUpToYoungest` | src/rx.cpp:652-679 | However far the jump, opening blocks keeps the youngest forty slots. |
| `Reassembly.OpenOk` | src/rx.cpp:652-679 | After `get_block_ring_idx` opens a block, the slots hold consecutive numbers ending at the last known block, and the new slot is empty. |
| `SlotDecoding.ChooseInputs` | src/rx.cpp:1245-1275 | The selection loop with its inner search gives that choice, the matching input buffers, the buffers of the missing primaries as outputs, and the longest parity length. |
| `SlotDecoding.ApplyFec` | src/rx.cpp:1245-1283 | Every missing primary fragment of a complete block is reconstructed; the length assertions and the result check never fail. |
| `ReassemblyRing.ModNWraps` | src/rx.cpp:600-680 | `modN` over C remainders wraps once in either direction. |
| `ReassemblyRing.RxSource.constructor` | src/rx.cpp:437-466 | A fresh source has an empty ring and no session. |
| `ReassemblyRing.RxSource.ResetReassembly` | src/rx.cpp:484-498 | A reset empties the ring and forgets the last block. |
| `ReassemblyRing.RxSource.AcceptDataSession` | src/rx.cpp:500-518 | Which sessions are accepted, and that a change of session retires the old one and resets the ring. |
| `ReassemblyRing.RxSource.RxRingPush` | src/rx.cpp:608-647 | A slot at the end of the ring; when the ring is full the front block is flushed (`FlushHas`: all it holds unsent) and gives up its place. |
| `ReassemblyRing.RxSource.GetBlockPosition` | src/rx.cpp:649-679 | Find, too old, or open with the skipped blocks: position and new ring. |
| `ReassemblyRing.RxSource.SendContiguous` | src/rx.cpp:1120-1125 | The front block is handed over as far as its fragments reach without a gap. |
| `ReassemblyRing.RxSource.FlushOlder` | src/rx.cpp:1137-1153 | Older blocks are flushed front first and dropped; `FlushAllHas` says what that hands over. |
| `ReassemblyRing.RxSource.FinishBlock` | src/rx.cpp:1155-1192 | The rest of a complete block is handed over, recovered where missing, and the block dropped. |
| `ReassemblyRing.RxSource.ProcessData` | src/rx.cpp:1085-1193 | The whole data path of one packet refines `Receive`, keeps the ring invariant, and its assertions hold. |
| `ReassemblyInvariants.ReceiveStep` | src/rx.cpp:1085-1193 | One arrival keeps the ring valid and hands over only entries beyond everything handed over before in the session. |
| `ReassemblyInvariants.KthFragment` | src/rx.cpp:1106-1192 | The k-th distinct fragment takes its block and all older ones out of the ring; before that the block stays, with exactly the marked fragments.  What is handed over then is `ReassemblyHandover.ReceiveHands`. |
| `ReassemblyHandover.FlushAllHas` | src/rx.cpp:1137-1153 | A flush of blocks hands over exactly the fragments below k that were received and not sent, with their buffers, gaps or not. |
| `ReassemblyHandover.PushUpToHands` | src/rx.cpp:608-647 | Opening blocks hands over exactly what the evicted blocks hold unsent. |
| `ReassemblyHandover.ReceiveHands` | src/rx.cpp:1085-1193 | For every arrival and every block of the ring: it stays untouched with nothing handed over, or leaves with exactly its unsent received fragments handed over; the block that takes the fragment either stays with it, or is completed with every remaining primary fragment handed over, received or reconstructed. |
| `ReassemblyHandover.NothingReceivedIsLost` | src/rx.cpp:1085-1193 | Over any history every primary fragment that was accepted has been handed over or waits in the ring unsent, unless its session has been superseded. |
| `ReassemblyHandover.FrontWaitsExactly` | src/rx.cpp:1118-1132 | Between arrivals the front block's next unsent fragment waits if and only if nothing of the block has been sent and its fragment 0 is there. |
| `ReassemblyHandover.FrontCatchesUp` | src/rx.cpp:1118-1132 | A fragment that is marked in the block at the front leaves no next fragment waiting. |
| `ReassemblyHandover.FrontMayWait` | src/rx.cpp:1126-1132 | A concrete history in which a block comes to the front with fragment 0 and it waits. |
| `ReassemblyHandover.AcceptableExactly` | src/rx.cpp:500-518 | Whatever has arrived, a session is accepted if and only if it is not 0 and is the current one or has never been accepted. |
| `ReassemblyInvariants.RunOrdered` | src/rx.cpp:1101-1193 | Over any history each (session, block, fragment) is handed over at most once, strictly increasing by block then fragment inside a session. |
| `ReassemblyInvariants.SupersededSilent` | src/rx.cpp:500-518 | A superseded session never hands anything over again. |
| `ReassemblyInvariants.ReceiveKeepsLog` | src/rx.cpp:1085-1193 | The invariant behind both, for every arrival. |
| `Delivery.FragmentByte` | src/tx.cpp:695-721 | Every byte of every fragment, padding included, is its generator row applied to the padded frames. |
| `Delivery.DecodedShows` | src/rx.cpp:1245-1283 | Any k genuine fragments of a block reconstruct every missing frame, header and payload. |
| `Delivery.ReceiveTrue` | src/rx.cpp:1085-1193 | If what arrives is genuine, everything held and everything handed over is the sender's frame of that number. |
| `InOrderDelivery.RunProgress` | src/rx.cpp:1085-1193 | With blocks in order and k distinct fragments of each, the i-th entry handed over is the i-th frame, with no gaps. |
| `EndToEnd.AirIsTrue` | src/tx.cpp:640-759 | Every packet ever put on the air carries the fragment its nonce names. |
| `EndToEnd.AirIsComplete` | src/tx.cpp:640-759 | The air carries all n fragments of every closed block and those of the open one so far, each once and in order. |
| `EndToEnd.FillersOnlyClose` | src/tx.cpp:685-694 | A filler is ignored when the block is empty; every other payload or filler becomes a frame. |
| `EndToEnd.SentFrames` | src/tx.cpp:685-759 | The open block holds exactly the frames after the closed ones. |
| `EndToEnd.ShownOutput` | src/rx.cpp:1197-1243 | What is delivered depends only on the frame at the start of the buffer. |
| `EndToEnd.DeliveredIsSubsequence` | src/rx.cpp:1085-1283 | Whatever a non-corrupting channel drops, duplicates or reorders, the delivered payloads are a subsequence of the submitted ones, bytes intact, and fillers are never delivered. |
| `EndToEnd.ClosedBlocksDelivered` | src/rx.cpp:1085-1283 | If blocks stay in order and none loses more than n-k fragments, the payloads of all closed blocks are delivered completely and in order; once the last block is closed that is everything submitted. |
| `KcpBuffers.DropBelowExact` | src/ikcp.c:600-614 | Exactly the numbers below una leave an ascending send buffer. |
| `KcpBuffers.WithoutExact` | src/ikcp.c:578-598 | Exactly the acknowledged number leaves, although the search stops early. |
| `KcpBuffers.InsertExact` | src/ikcp.c:702-724 | The backward search inserts in order and drops repeated numbers. |
| `KcpBuffers.InsertIsMapInsert` | src/ikcp.c:702-724 | Insertion into the list is insertion into a map keyed by unbounded sequence number. |
| `KcpBuffers.ReadyRun` | src/ikcp.c:731-743 | What moves to the queue is the run from rcv_nxt, and it is as long as the window allows. |
| `KcpNoLoss.SenderInput` | src/ikcp.c:793-830 | una and acknowledgements of a genuine segment remove only what the peer holds. |
| `KcpNoLoss.ReceiverInput` | src/ikcp.c:847-875 | Whatever is acknowledged is held. |
| `KcpNoLoss.FlushAtSender` | src/ikcp.c:1026-1049 | Newly numbered segments extend the log, and everything on the wire is of the log. |
| `KcpRuns.NoSegmentLost` | src/ikcp.c:358-1130 | In every state of every run of two endpoints and a dropping, duplicating, reordering channel: each numbered segment is in the sender's buffer or held by the receiver, and data read plus receive queue is the log up to rcv_nxt. Both directions. |
| `KcpMessages.SendBytes` | src/ikcp.c:469-543 | `ikcp_send` queues exactly the bytes it says it took, in stream and in message mode. |
| `KcpMessages.BytesInOrder` | src/ikcp.c:358-543 | In every run the bytes read are a prefix of the bytes accepted, in both modes. |
| `KcpMessageMode.HeadMessage` | src/ikcp.c:441-463 | A queue that starts with a message can be read exactly when all its segments are there, and then peek size, end and bytes are those of the message. |
| `KcpMessageMode.MessagesInOrder` | src/ikcp.c:358-543 | In message mode the reads have returned exactly the first accepted messages, each whole. |
| `KcpMessageMode.PeekIsNextMessage` | src/ikcp.c:441-463 | In either direction `ikcp_peeksize` is the length of the next message, and a queue of 128 or more segments always has a whole message at its head. |
| `KcpProgress.InputAcks` | src/ikcp.c:828-851 | Exactly the data in or before the window, repeated data included, is acknowledged, with its number and time. |
| `KcpProgress.InputSender` | src/ikcp.c:795-803 | What leaves the send buffer is exactly what is below una and the acknowledged number; the peer's window and a probe are noted. |
| `KcpProgress.InputReceiver` | src/ikcp.c:694-748 | New data in the window is kept once, nothing else comes in, and what is in order moves to the queue. |
| `KcpProgress.FlushFills` | src/ikcp.c:1024-1049 | A flush numbers as many queued segments as the window allows, in their order, and forgets what it has answered. |
| `KcpProgress.FlushAcks` | src/ikcp.c:953-1020 | A flush sends one acknowledgement for each pending one, in order, and a probe or a window notice exactly when one is asked for or due. |
| `KcpProgress.FlushSendsData` | src/ikcp.c:1052-1121 | A flush sends every newly numbered segment for the first time and an earlier one exactly when it is due, each once and in the order of their numbers. |
| `KcpProgress.FlushAnswers` | src/ikcp.c:756-1011 | Whatever has happened, the acknowledgements of a flush are exactly those of the data that arrived in or before the window since the flush before. |
| `KcpProgress.DataIsAnswered` | src/ikcp.c:756-1011 | Data that arrives in or before the window is acknowledged by the next flush, whatever happens before it. |
| `KcpProgress.WindowReopens` | src/ikcp.c:427-432 | A receive queue that was full and has room again is announced by the next flush. |
| `KcpProgress.InOrderIsPassedOn` | src/ikcp.c:413-425 | In every state of every run the next segment in order waits in the buffer only while the queue fills the window. |
| `KcpProgress.MessageRefused` | src/ikcp.c:511-521 | A message is refused exactly when it is longer than 127 segments, and then nothing changes. |
| `KcpProgress.StreamRefused` | src/ikcp.c:478-521 | In stream mode the last queued segment is filled first, and the rest is refused exactly when it is longer than 127 segments. |
| `KcpWire.LeRoundTrip` | src/ikcp.c:54-121 | Little-endian encoding and decoding of every width. |
| `KcpWire.LeByte` | src/ikcp.c:54-121 | Byte i of an encoded number is its digit i in base 256. |
| `KcpWire.HeaderFields` | src/ikcp.c:913-924 | Each header field is read back from its place. |
| `KcpWire.ParseDatagram` | src/ikcp.c:756-793 | The input loop terminates on a datagram of encoded segments and decodes exactly that list. |
| `KcpWire.ParseExactly` | src/ikcp.c:764-876 | Whatever bytes arrive, they are the encodings of the segments found, followed by a rest in which none begins, and the code says why. |
| `KcpWire.BatchedRoundTrip` | src/ikcp.c:963-1121 | Batching keeps every datagram within mtu, loses no segment and keeps their order, and each datagram parses back. |
| `KcpWire.BatchesFilled` | src/ikcp.c:966-975 | No datagram of a flush could have taken the first segment of the next one. |
| `KcpWrapping.DiffTrue` | src/ikcp.c:136-139 | The wrapping difference is the true one for numbers less than 2^31 apart. |
| `KcpWrapping.WrapEqual` | src/ikcp.c:136-139 | Equal bits mean equal numbers within that distance. |
| `KcpControl.Kcp.constructor` | src/ikcp.c:234-296 | A fresh control block is a fresh endpoint. |
| `KcpControl.Kcp.ShrinkBuf` | src/ikcp.c:567-576 | snd_una becomes the first unacknowledged number. |
| `KcpControl.Kcp.ParseUna` | src/ikcp.c:600-614 | With 32-bit numbers the loop does what the unbounded step does. |
| `KcpControl.Kcp.ParseAck` | src/ikcp.c:578-598 | Likewise for a single acknowledgement, window check included. |
| `KcpControl.Kcp.ParseData` | src/ikcp.c:690-748 | Likewise for data: window check, insertion and the move to the queue refine the unbounded map insertion. |
| `KcpControl.Kcp.MoveReady` | src/ikcp.c:731-743 | The move loop with its wrapping counter. |
| `KcpControl.Kcp.ReadSegment` | src/ikcp.c:776-793 | One header with its three error returns. |
| `KcpControl.Kcp.Input` | src/ikcp.c:756-880 | A whole datagram, with everything before a broken segment processed, and the return code; what a segment does is `KcpProgress.InputAcks`, `InputSender` and `InputReceiver`. |
| `KcpControl.Kcp.Send` | src/ikcp.c:469-543 | Both modes, with the refusal of 128 or more segments. |
| `KcpControl.Kcp.PeekSize` | src/ikcp.c:441-463 | Its result on the 32-bit queue is that of the unbounded one. |
| `KcpControl.Kcp.Recv` | src/ikcp.c:358-435 | All return codes, the merged message, the follow-up move and the window notification. |
| `KcpControl.Kcp.PutLe` | src/ikcp.c:54-121 | Writing the bytes of a number into the buffer. |
| `KcpControl.Kcp.EncodeSeg` | src/ikcp.c:913-924 | Header and data go into the buffer and never past its end. |
| `KcpControl.Kcp.MoveToBuffer` | src/ikcp.c:1024-1049 | Numbering and moving queued segments under the congestion window, with wrapping comparisons. |
| `KcpControl.Kcp.Flush` | src/ikcp.c:938-1125 | The new state, and the datagrams output: the batched bytes of a flush, whose segments are `KcpProgress.FlushAcks` and `FlushSendsData`. |
| `KcpControl.FlushDatagrams` | src/ikcp.c:963-1121 | Each of these datagrams is at most mtu bytes and parses to its segments; together they are the segments of the flush in order (windows below 2^16). |
| `KcpPair.WireNear` | src/ikcp.c:798-870 | While fewer than 2^31 numbers, less a window, have been assigned, every segment on the way is near the endpoint it reaches, however old it is. |
| `KcpPair.ArrivalsNear` | src/ikcp.c:756-880 | A datagram is a batch of arrivals of a run, and each of its segments is near when its turn comes. |
| `KcpPair.SendAt` | src/kcp_small_sender.cpp:190-200 | `ikcp_send` on one of two joined control blocks is a step of the run. |
| `KcpPair.ReadAt` | src/kcp_small_receiver.cpp:193-197 | So is `ikcp_recv`. |
| `KcpPair.FlushAt` | src/ikcp.c:938-1125 | So is a flush, whose datagrams are then on the way to the other side. |
| `KcpPair.DeliverAt` | src/kcp_small_receiver.cpp:183-188 | A datagram that arrives, for the first time or again, is accepted with code 0, and the pair goes on as a run of arrivals. |
| `KcpPair.PairLosesNothing` | src/ikcp.c:358-1125 | Two 32-bit control blocks that exchange datagrams over a channel that drops, duplicates and reorders: every numbered segment is in the sender's buffer or held by the receiver, what has been read and the receive queue are the segments below rcv_nxt, and the bytes read are a prefix of those handed in; `JoinedSwap` gives the other direction. |
| `KcpClock.Timer.Update` | src/ikcp.c:1153-1180 | Whether an update flushes and when the next flush is. |
| `KcpClock.Timer.Check` | src/ikcp.c:1190-1226 | The time that the check returns. |
| `KcpClock.NoFlushBefore` | src/ikcp.c:1153-1226 | An update before the time returned by the check never flushes. |
| `KcpClock.FlushAgainSoon` | src/ikcp.c:1172-1179 | After a flush the next one lies ahead by at most the interval. |
| `KcpClock.NoDrift` | src/ikcp.c:1153-1180 | As long as no update comes an interval late, flush times are exactly an interval apart, whenever the updates come. |
| `KcpClock.CheckIsExact` | src/ikcp.c:1190-1226 | An update at the time that the check returns flushes if and only if it has never been updated, its clock is off, it is due at once, or no segment is due and the flush time comes before every resend and within an interval. |
| `KcpClock.CheckMayBeEarly` | src/ikcp.c:1206-1213 | A segment that is due makes the check return the current time although an update then does not flush. |
| `TokenScheduling.GrantTurn` | src/token_scheduler.cpp:343-373 | A grant moves the front of the turn order to its end. |
| `TokenScheduling.DeclareTurn` | src/token_scheduler.cpp:302-321 | A joining node comes after all that are still to be granted in this pass; nothing else moves. |
| `TokenScheduling.RemoveTurn` | src/token_scheduler.cpp:442-466 | Cursor repair: removal takes one node out of the turn order and moves nothing else, wherever the cursor is. |
| `TokenScheduling.TokenScheduler.DeclareReady` | src/token_scheduler.cpp:302-321 | The three results and the new state. |
| `TokenScheduling.TokenScheduler.NextGrant` | src/token_scheduler.cpp:343-379 | The granted node is the front of the turn order, with the next sequence number; the silence it counts is `TokenSilence.RecordIs`. |
| `TokenScheduling.TokenScheduler.RemoveActiveNodeAt` | src/token_scheduler.cpp:442-466 | The list and cursor afterwards. |
| `TokenScheduling.TokenScheduler.CollectSilentNodeRemovals` | src/token_scheduler.cpp:381-421 | The scan that removes while it walks: the nodes that stay and the reports on the others, each with its silence and count, both in list order, and the turn order without the evicted nodes. |
| `TokenScheduling.CollectTurn` | src/token_scheduler.cpp:381-421 | A sweep takes exactly the silent, unprotected nodes out of the turn order and moves nothing else. |
| `TokenScheduling.SweptExactly` | src/token_scheduler.cpp:381-421 | A node stays exactly when it is not evicted, and there is a report on it exactly when it is; the reports and the rest add up to the list. |
| `TokenSilence.RecordIs` | src/token_scheduler.cpp:343-363 | Over any run the silence count of a node is at most the number of grants it has got since it was last heard, each later than that, and equal to it if and only if no grant at or before that time has come behind a late one; with a clock that does not go back it is always equal. |
| `TokenSilence.ClockBack` | src/token_scheduler.cpp:355-363 | A concrete run in which the clock goes back and the count falls short. |
| `TokenSilence.EvictedExactly` | src/token_scheduler.cpp:381-421 | A sweep evicts an active node if and only if it is not spared, has let two such grants pass, and has been silent for the threshold. |
| `TokenSilence.HeardStays` | src/token_scheduler.cpp:381-421 | However the clock runs, a node with fewer such grants is never evicted. |
| `TokenFairness.ExactlyOneGrant` | src/token_scheduler.cpp:302-466 | Between two consecutive grants to a node that stays active, every other node active throughout gets exactly one. |
| `TokenFairness.AtMostTwoGrants` | src/token_scheduler.cpp:302-466 | No node gets more than two in between, however often it is removed and rejoins. |
| `TokenFairness.JoinedIsGrantedSoon` | src/token_scheduler.cpp:302-466 | A newly enqueued node is granted within as many grants as there are active nodes at its join, unless removed first. |
| `GrantFilters.ExpiryAhead` | src/control_envelope.cpp:10-17 | The saturating expiry lies in the future exactly for a positive duration away from the end of the clock. |
| `GrantFilters.GrantFilter.FilterGrant` | src/control_envelope.cpp:99-169 | All eight decisions with the state after each. |
| `GrantFilters.AuthorizationState.Apply` | src/token_authorization.cpp:12-55 | Acceptance and the state after it. |
| `GrantFilters.FiltersAgree` | src/v6_uplink.cpp:1090-1106 | From equal session states the second filter takes what the first accepted if and only if the grant has not expired by its own, later clock reading. |
| `GrantFilters.ClockBetween` | src/v6_uplink.cpp:1097-1106 | With a clock that moves on in between the two states can part. |
| `GrantFilters.RunAgrees` | src/control_envelope.cpp:99-169 | Driven with the same clock the two filters stay in the same session state over any history, with the accepted grants in order. |
| `GrantFilters.AcceptedOnce` | src/control_envelope.cpp:99-169 | Each (session, sequence) is accepted at most once, increasing inside a session, and a superseded session never returns. |
| `GrantFilters.AcceptedExactly` | src/control_envelope.cpp:99-169 | Whatever came before, a grant is accepted if and only if it is live, its session has not been superseded, and its number is above all accepted ones of that session. |
| `GrantFilters.InOrderAccepted` | src/control_envelope.cpp:99-169 | Live grants of one session that arrive in the order of their numbers are all accepted. |
| `GrantFilters.AuthorizedExactly` | src/token_authorization.cpp:12-60 | Over any history a client is authorised exactly until the expiry of the last grant it has accepted. |
| `AirtimeSlots.AirtimeServer.TurnOnce` | src/v6_uplink.cpp:1879-1947 | One turn of the server loop keeps the slots of different clients apart exactly unless it sends a feedback grant while a normal slot of another client is not over. |
| `AirtimeSlots.SlotsApartExactly` | src/v6_uplink.cpp:1473-1511 | Over any run the slots, of whatever clients, with their guard intervals are disjoint if and only if no feedback window opened while a normal slot was not over. |
| `AirtimeSlots.ExclusiveExactly` | src/v6_uplink.cpp:1473-1511 | Over any run with positive durations, no two clients can ever be authorised at once, whatever timely grants they hear, if and only if no turn sent a feedback grant while a normal slot of another client was not over. |
| `AirtimeSlots.PatientWindowsExclusive` | src/v6_uplink.cpp:1473-1511 | A run in which every window waited for the normal slots never has two clients authorised at once, whatever timely grants they have heard. |
| `AirtimeSlots.TwoAtOnce` | src/v6_uplink.cpp:1882-1897 | A concrete run in which a window opens 60 ms into a slot of 100 ms and two different clients can be authorised at once. |
| `AirtimeSlots.ApartExclusive` | src/token_authorization.cpp:12-60 | Slots of different clients that do not overlap, with grants that arrive within the guard interval, never authorise two clients at once. |
| `AirtimeSlots.RunNumbered` | src/token_scheduler.cpp:374-379 | Over any run normal and feedback grants share one sequence: the i-th grant of the run has number i. |
| `AirtimeSlots.OrderedGrantsAccepted` | src/control_envelope.cpp:99-169 | A client never rejects a live grant of one session of the server that arrives in the order in which it was sent. |
| `AirtimeSlots.TooClose` | src/token_authorization.cpp:12-60 | Keeping them apart is also necessary: two closer grants to different clients can both arrive in time and authorise both. |
| `AirtimeSlots.WindowsApart` | src/v6_uplink.cpp:1380-1415 | Over any run a turn opens a window exactly when none is open and the period has passed since the last one closed. |
| `AirtimeSlots.WindowServesAll` | src/v6_uplink.cpp:1473-1511 | A window that closes has granted every known client once, in the order of the list, with no normal grant in between. |
| `AirtimeSlots.GrantedPromptly` | src/v6_uplink.cpp:1920-1947 | Outside windows a picked node is granted as soon as the normal slots and an idle wait are over. |
| `AirtimeSlots.WindowGoesOn` | src/v6_uplink.cpp:1473-1511 | In a window the next client is granted, or the window closes, as soon as the feedback slots are over. |
| `TunQueue.FixedCapacityTunReadQueue.Push` | src/v6_uplink_queue.hpp:107-122 | The ring takes the packet at the end of its contents, or refuses it exactly when it is full or the packet too long. |
| `TunQueue.FixedCapacityTunReadQueue.PopFront` | src/v6_uplink_queue.hpp:134-148 | The front packet leaves, the byte count stays exact. |
| `TunQueue.FixedCapacityTunReadQueue.UpdatePauseState` | src/v6_uplink_queue.hpp:214-264 | Latch, pause flag, reason and counters after a change. |
| `TunQueue.RunKeeps` | src/v6_uplink_queue.hpp:214-264 | Over any operations: paused exactly when full or latched, the reason says which, and pauses less resumes is the paused flag. |
| `TunQueue.PausedHoldsPackets` | src/v6_uplink_queue.hpp:214-264 | With a positive pause threshold a paused queue holds packets, so draining it always resumes reading. |
| `TunQueue.LatchedExactly` | src/v6_uplink_queue.hpp:214-224 | Over any run of nonempty packets the latch is set if and only if the bytes reached the pause threshold and have stayed above the resume threshold since. |
| `TunQueue.PauseCounted` | src/v6_uplink_queue.hpp:226-264 | Each pause is counted once, under what caused it, each resumption once, and nothing else. |
| `TunQueue.FixedCapacityTunReadQueue.ClientTurn` | src/v6_uplink.cpp:1589-1693 | A turn of the client loop never hits a failed push or pop; a packet is taken in unless reading is paused, and exactly one leaves, in order, when the client is authorised and has any. |
| `TunQueue.FixedCapacityTunReadQueue.ServerTurn` | src/v6_uplink.cpp:1857-1917 | A turn of the server loop with the downlink queue: the same, and nothing leaves while a feedback window is open. |
| `TunQueue.LoopLosesNothing` | src/v6_uplink.cpp:1589-1693 | Over any turns of either loop, all packets that were read are sent or queued, in their order. |
| `TunBatcher.UnpackEncoded` | src/wfb_tun.c:227-258 | The unpacker gives back exactly the packets of a batch. |
| `TunBatcher.ReadKeeps` | src/wfb_tun.c:115-164 | A TUN read keeps the invariant: the buffer is whole packets, the batch ends on a packet boundary within MTU, a pending read has room. |
| `TunBatcher.WriteKeeps` | src/wfb_tun.c:166-224 | So do write-ready and timeout, in whatever combination they are pending. |
| `TunBatcher.PacketsArriveInOrder` | src/wfb_tun.c:115-293 | In every reachable state, under any order of events, batches are whole packets within MTU, some event is pending, and the unpacker gets the packets read, in order, less those in the buffer. |
| `TunBatcher.HeldIsDue` | src/wfb_tun.c:115-224 | In every reachable state packets that are held have the write event or the timeout pending, and whichever comes sends the whole batch. |
| `TunBatcher.SentWhenFull` | src/wfb_tun.c:115-224 | With aggregation and before any timeout, a write is pending only once the buffer is full. |
| `TunBatcher.PacketBuffer.TunRead` | src/wfb_tun.c:115-164 | The callback over the byte buffer refines that step; its assertions hold. |
| `TunBatcher.PacketBuffer.SocketWrite` | src/wfb_tun.c:166-224 | Likewise for the write callback, for write-ready and for the timeout. |
| `TunBatcher.UnpackBuffer.TunWrite` | src/wfb_tun.c:227-258 | The assertions on a whole datagram hold and one packet is written. |
| `TunBatcher.UnpackBuffer.Deliver` | src/wfb_tun.c:227-293 | All packets of a datagram come out in order. |

## Left out

- Sockets, packet capture, poll loops, TUN devices, clocks, logging and statistics: events, times and payloads are arguments, and what is sent is recorded.
- Encryption and session-key packets: the trusted plaintext mode is modelled, with fixed k and n and one data session per sender run.
- Block numbers from 2^48 on, which the nonce cannot carry: the end-to-end theorems require fewer blocks.
- Packet loss counters and the sequence number kept for them (`src/rx.cpp:1203-1226`): statistics only.
- Routing of packets to sources: known-client lists and the array of sources are not modelled; `Routed` is one source, with node 0 rejected.
- Machine instructions: one 16-lane kernel is a loop over 16 bytes with the nibble tables; alignment and status codes are not modelled.
- Allocation and freeing, and null pointer arguments.
- Reassembly.Slot: holds the fragments that are marked, as received; stale bytes in the buffers of unmarked fragments are not represented, and nothing depends on them.
- EndToEnd.Output: a header whose size runs past the reconstructed bytes would make the source read stale bytes; here nothing is delivered then. A genuine frame never does that.
- ReassemblyRing.RxSource.ProcessData: fragments shorter than a packet header or longer than the maximal payload are excluded, as the source's assertions exclude them.
- KCP timers: round-trip estimation, resend times, fast-acknowledgement counts and the congestion window are inputs of `Flush` (which segments are due, how large the window is, whether a probe is due); all values are covered.
- KCP allocation limits, log hooks, and changes of mtu, mode or window after creation.
- KcpControl.Kcp.Input: says nothing about numbers 2^31 or more away from the windows, which are ambiguous in 32 bits.
- KcpPair.PairLosesNothing: about fewer than 2^31 numbers, less a window, on either side; beyond that a datagram that has been on the way for long enough can be taken for a later one, which 32 bits cannot rule out.
- KCP linked lists: sequences that the methods reassign; the relinking of nodes is not modelled.
- TokenScheduling.Scheduler: the sequence number and the silence counts are unbounded.
- AirtimeSlots: whom the scheduler picks is an argument of the loop turn; slot hit counters and log lines are not modelled, and expiry times are assumed not to saturate.
- Transmissions without authorisation (FEC flush and READY): slot exclusivity is about authorisation only.
- Grant filter and authorisation counters, and the READY filter: no state that decides anything.
- Option parsing, radiotap, interprocess senders, MAVLink and proxies, and the Python layer.
