# distributed-integration-qt, modelled in Dafny

This project models the core of distributed-integration-qt. That system is a
coordinator plus workers. The coordinator splits the definite integral of
`1/ln(x)` over `[a, b]` among the workers that connect to it over TCP, and
adds up their partial results. Each worker splits its piece again among its
own threads. The model covers the following parts.

- **Framing** (`framed_socket.dfy`, module `Framing`). Every payload travels
  as a big-endian u32 length followed by the payload bytes. The receiver
  reassembles payloads from arbitrary byte chunks. It is a pure receiver
  state machine (`TryConsume`, `Drain`, `Feed`). The `FramedSocket` class
  runs the source's consume loop over it.
- **Wire codec** (`datastream.dfy`, `protocol.dfy`, `message_io.dfy`). It
  covers:
  - the QDataStream big-endian encodings of u8, u16, u32, double and QString;
  - the envelope (magic `0x4E50524A`, version 1, type byte) and the four
    message bodies;
  - `parseMessage`, with its four failure messages in their check order.
- **Integrator** (`integrator.dfy`, module `Integrator`). It covers the
  argument checks of `Integrator::integrate` in their order, and the
  midpoint, trapezoid and Simpson rules. Each rule is a loop method proved
  equal to a recursive specification.
- **Coordinator** (`server.dfy`, class `Server.ServerApp`):
  - per-client state and the once-only dispatch of tasks;
  - the proportional split, with a running cursor whose last piece is
    pinned to `b`;
  - the once-only reduction of the results.
- **Worker** (`client.dfy`, class `Client.ClientApp`):
  - host and port validation, and the Hello with `max(1, threads)` cores;
  - the equal chunk split, and the first-failure fold over chunk results;
  - the single Result or Error sent per task, followed by closing the
    connection. When a chunk fails, the text of the Error is what `e.what()`
    gives for the exception `QFuture::result` rethrows. QtConcurrent wraps
    the integrator's `std::invalid_argument` in a `QUnhandledException`, so
    that text is the C++ runtime's (`"std::exception"` with libstdc++), not
    the integrator's message. It is the parameter `unhandledWhat`.

All arithmetic that the source does in `double` is exact `real` in the
model.
- The integrand is a parameter `f: real -> real`.
- A double on the wire is its 64-bit pattern (`Double = u64`). The record
  `Ieee754(toReal, fromReal)` reads a pattern as a number and rounds a real
  to a double. It is a parameter of the coordinator and the worker, which
  are the places where the source converts between the wire and
  arithmetic.
- Sockets become an outbox of messages. The framing layer becomes a log
  of frames written and payloads received.

**Where the documented design and the code differ.** The documented design
says that integrating with `b < a` gives `result(a, b) = -result(b, a)`. The
code does not meet this when `h` does not divide `|b - a|`:
- In each direction it drops the partial step at the far end, so the two
  directions sample different points.
- `Integrator.ReversalNotAntisymmetric` shows it for `f(x) = x` on
  `[2, 2.5]` with `h = 0.3`. The midpoint rule gives `0.645` forwards and
  `-0.705` backwards.
- The model follows the code.

## Model

| member | source | states |
|---|---|---|
| DataStream.DecodeEncode | src/common/protocol.h:83-86 | decoding the big-endian encoding of a value below 256^k gives the value back |
| DataStream.EncodeDecode | src/common/protocol.h:91-96 | encoding the decoded value of any k bytes gives the same k bytes |
| DataStream.Read | src/common/protocol.h:91-96 | reading k bytes fails exactly when fewer than k remain; otherwise it returns a value below 256^k and exactly the rest of the input |
| DataStream.ReadAfterEncode | src/common/protocol.h:83-96 | reading k bytes after writing a value returns that value and any trailing bytes untouched |
| DataStream.EncodeAfterRead | src/common/protocol.h:91-96 | a successful read consumed exactly the encoding of the value it returned |
| DataStream.ReadWriteU32 | src/common/protocol.h:101-112 | a u32 written and read back is unchanged, and the rest of the stream is untouched |
| DataStream.ReadWriteDouble | src/common/protocol.h:135-146 | a double's 8-byte pattern written and read back is unchanged |
| DataStream.WriteReadU32 | src/common/protocol.h:109-112 | a successful u32 read consumed exactly the 4 bytes that encode it |
| Framing.Frame | src/common/framed_socket.cpp:15-26 | a frame is 4 prefix bytes plus the payload; the prefix decodes to the payload size as a u32 (mod 2^32), and the payload follows unchanged |
| Framing.TryConsume | src/common/framed_socket.cpp:38-61 | a consumed frame leaves the receiver expecting a new prefix with a strictly shorter buffer; a refusal leaves it waiting for more bytes and delivers nothing |
| Framing.ConsumedFrame | src/common/framed_socket.cpp:39-57 | from an idle receiver, a consumed frame was exactly a length prefix plus the payload, and the rest of the buffer is what follows |
| Framing.ConsumedPayload | src/common/framed_socket.cpp:51-57 | with a pending size, the payload delivered has exactly that size and is the front of the buffer |
| Framing.StoppedStep | src/common/framed_socket.cpp:39-53 | when no frame is ready, only the 4-byte prefix may have been taken off; otherwise nothing changes |
| Framing.Drain | src/common/framed_socket.cpp:28-32 | consuming frames until none is ready always ends in a state that cannot consume |
| Framing.Feed | src/common/framed_socket.cpp:28-32 | defines onReadyRead on the receiver: append, then drain; `ChunkingIndependence` and `FramesSurviveAnyChunking` are proved about it |
| Framing.QuiescentIsStuck | src/common/framed_socket.cpp:28-32 | in that state a further attempt consumes nothing and changes nothing |
| Framing.TryConsumeAppend | src/common/framed_socket.cpp:38-61 | appending bytes does not change a step that already succeeded, and a refused step can be retried after the append |
| Framing.DrainAppend | src/common/framed_socket.cpp:28-32 | draining after an append delivers what was ready before the append, then what the appended bytes complete |
| Framing.ChunkingIndependence | src/common/framed_socket.cpp:28-32 | feeding chunks one by one gives the same payloads and state as feeding their concatenation at once |
| Framing.AnyTwoChunkings | src/common/framed_socket.cpp:28-61 | two ways of chunking the same bytes deliver the same payloads |
| Framing.FrameConsumed | src/common/framed_socket.cpp:15-26 | an idle receiver consumes a sent frame as exactly its payload and keeps the rest |
| Framing.DrainFrames | src/common/framed_socket.cpp:15-61 | the concatenation of sent frames is drained into exactly the sent payloads, in order, ending idle |
| Framing.FramesSurviveAnyChunking | src/common/framed_socket.cpp:15-61 | however the sent frames' bytes are split on arrival, the receiver delivers exactly the sent payloads in order |
| Framing.FramedSocket.constructor | src/common/framed_socket.cpp:7-13 | a new socket is idle, with nothing written or received |
| Framing.FramedSocket.SendFrame | src/common/framed_socket.cpp:15-26 | one frame of the payload is written, and nothing else changes |
| Framing.FramedSocket.TryConsumeOneFrame | src/common/framed_socket.cpp:38-61 | the new buffer and expected size are the receiver step of the old ones; a consumed payload is appended to the received payloads |
| Framing.FramedSocket.OnReadyRead | src/common/framed_socket.cpp:28-32 | after appending the data, the loop delivers exactly the payloads that feeding the data to the receiver gives, and stops in a state that cannot consume |
| Protocol.WriteUnits | src/common/protocol.h:151-154 | a QString body is two bytes per UTF-16 unit |
| Protocol.ReadUnits | src/common/protocol.h:159-162 | reading n units yields exactly n units |
| Protocol.EnvelopeLayout | src/common/protocol.h:83-86 | an envelope is 7 bytes: the magic in 4 big-endian bytes, the version in 2, then the type byte |
| Protocol.WriteEnvelope | src/common/protocol.h:83-86 | defines the envelope's bytes: magic, version, type byte; its layout and round trip are `EnvelopeLayout` and `EnvelopeRoundTrip` |
| Protocol.ReadEnvelope | src/common/protocol.h:91-96 | defines the envelope read, with any type byte accepted; proved inverse of `WriteEnvelope` by `EnvelopeRoundTrip` and `EnvelopeReadExact` |
| Protocol.WriteHello | src/common/protocol.h:101-104 | defines the Hello body, the core count as a u32; round trip in `HelloRoundTrip` |
| Protocol.ReadHello | src/common/protocol.h:109-112 | defines the Hello body read; inverse of `WriteHello` by `HelloRoundTrip` and `HelloReadExact` |
| Protocol.WriteTask | src/common/protocol.h:117-120 | defines the Task body: a, b, h as doubles, the method byte, client index and count as u32s; round trip in `TaskRoundTrip` |
| Protocol.ReadTask | src/common/protocol.h:125-130 | defines the Task body read in the same field order; inverse of `WriteTask` by `TaskRoundTrip` and `TaskReadExact` |
| Protocol.WriteResult | src/common/protocol.h:135-138 | defines the Result body, one double; round trip in `ResultRoundTrip` |
| Protocol.ReadResult | src/common/protocol.h:143-146 | defines the Result body read; inverse of `WriteResult` by `ResultRoundTrip` and `ResultReadExact` |
| Protocol.WriteError | src/common/protocol.h:151-154 | defines the Error body, a QString: its byte count, then its UTF-16 units; round trip in `ErrorRoundTrip` |
| Protocol.ReadError | src/common/protocol.h:159-162 | defines the QString read, rejecting an odd or too long byte count; inverse of `WriteError` by `ErrorRoundTrip` and `ErrorReadExact` |
| Protocol.EnvelopeRoundTrip | src/common/protocol.h:83-96 | an envelope with any type byte reads back unchanged, and the bytes after it are untouched |
| Protocol.HelloRoundTrip | src/common/protocol.h:101-112 | a Hello reads back unchanged |
| Protocol.TaskRoundTrip | src/common/protocol.h:117-130 | a Task reads back unchanged: a, b and h, the raw method byte, the index and the count, in order |
| Protocol.ResultRoundTrip | src/common/protocol.h:135-146 | a Result reads back unchanged |
| Protocol.UnitsRoundTrip | src/common/protocol.h:151-162 | UTF-16 units written and read back are unchanged |
| Protocol.ErrorRoundTrip | src/common/protocol.h:151-162 | an Error text under 2^31 units reads back unchanged through its byte count and units |
| Protocol.EnvelopeReadExact | src/common/protocol.h:91-96 | a successful envelope read consumed exactly the encoding of what it returned |
| Protocol.HelloReadExact | src/common/protocol.h:109-112 | likewise for a Hello body |
| Protocol.TaskReadExact | src/common/protocol.h:125-130 | likewise for a Task body |
| Protocol.ResultReadExact | src/common/protocol.h:143-146 | likewise for a Result body |
| Protocol.UnitsReadExact | src/common/protocol.h:159-162 | likewise for n UTF-16 units |
| Protocol.ErrorReadExact | src/common/protocol.h:159-162 | a successful Error read has an even byte count under 2^32 and consumed exactly its encoding |
| MessageIO.ParseMessage | src/common/message_io.h:81-123 | a parse succeeds only with the right magic and version, a known type and no error text; a failure carries one of the four messages |
| MessageIO.HeaderBytes | src/common/message_io.h:13-60 | every payload starts with the bytes 4E 50 52 4A 00 01 and then the type byte |
| MessageIO.SerializedLayout | src/common/message_io.h:13-60 | Hello, Task, Result and Error payloads are 11, 40, 15 and 11 + 2n bytes long, each headed by its type's header |
| MessageIO.SerializeHello | src/common/message_io.h:13-21 | defines the Hello payload, envelope then body; parsed back by `ParseHello` |
| MessageIO.SerializeTask | src/common/message_io.h:26-34 | defines the Task payload; parsed back by `ParseTask` |
| MessageIO.SerializeResult | src/common/message_io.h:39-47 | defines the Result payload; parsed back by `ParseResult` |
| MessageIO.SerializeError | src/common/message_io.h:52-60 | defines the Error payload; parsed back by `ParseError` |
| MessageIO.ParseHello | src/common/message_io.h:13-21 | parsing a serialised Hello, with anything after it, succeeds with type Hello and that Hello; every other slot keeps its default |
| MessageIO.ParseTask | src/common/message_io.h:26-34 | likewise for a Task |
| MessageIO.ParseResult | src/common/message_io.h:39-47 | likewise for a Result |
| MessageIO.ParseError | src/common/message_io.h:52-60 | likewise for an Error |
| MessageIO.RoundTrips | src/common/message_io.h:13-123 | each of the four messages parses back to itself |
| MessageIO.ShortPayloadRejected | src/common/message_io.h:87-91 | fewer than 7 bytes fail with the envelope-status message |
| MessageIO.EnvelopeFields | src/common/message_io.h:87 | 7 or more bytes always give an envelope, decoded from bytes 0-3, 4-5 and 6 |
| MessageIO.MismatchRejected | src/common/message_io.h:93-96 | a wrong magic or version fails with the mismatch message, and the type byte read is kept |
| MessageIO.GoodHeaderEnvelope | src/common/message_io.h:87-96 | a correct header gives the envelope with the byte at offset 6 as its type, and the body after it |
| MessageIO.UnknownTypeRejected | src/common/message_io.h:111-114 | a type byte other than 1 to 4 fails with the unknown-type message |
| MessageIO.ShortBodyRejected | src/common/message_io.h:98-119 | a body shorter than its fixed size fails with the body-status message |
| MessageIO.TruncatedTextRejected | src/common/message_io.h:108-119 | an Error whose byte count exceeds the bytes left fails with the body-status message |
| MessageIO.UnitsNeedBytes | src/common/protocol.h:159-162 | n units cannot be read from fewer than 2n bytes |
| MessageIO.ParsedIsPrefix | src/common/message_io.h:81-123 | a successful parse read a prefix of the payload that is exactly the serialisation of what was parsed |
| Integrator.StepsCount | src/common/integrator.cpp:46-49 | n whole steps fit into \|b - a\| and n + 1 do not |
| Integrator.SimpsonCount | src/common/integrator.cpp:89-95 | Simpson uses an even number of steps, at least 2, dropping at most one |
| Integrator.IntegrateMidpoint | src/common/integrator.cpp:51-64 | the loop's value is the midpoint rule: the samples at the step midpoints times the signed step |
| Integrator.IntegrateTrapezoids | src/common/integrator.cpp:66-83 | the loop's value is the trapezoid rule, 0 when no whole step fits |
| Integrator.IntegrateSimpson | src/common/integrator.cpp:85-116 | the loop's value is Simpson's rule with weights 1, 4, 2, ..., 4, 1, falling back to trapezoids below 2 steps |
| Integrator.Integrate | src/common/integrator.cpp:20-41 | the result is the checked integral: step error, zero for an empty interval, singularity error, the chosen rule, or the unknown-method error |
| Integrator.MidpointRule | src/common/integrator.cpp:51-64 | defines the midpoint rule the loop computes; `IntegrateMidpoint` is proved equal to it and `MidpointRuleConstant` exact on constants |
| Integrator.TrapezoidRule | src/common/integrator.cpp:66-83 | defines the trapezoid rule; `IntegrateTrapezoids` is proved equal to it and `TrapezoidRuleConstant` exact on constants |
| Integrator.SimpsonRule | src/common/integrator.cpp:85-116 | defines Simpson's rule with the trapezoid fallback; `IntegrateSimpson` is proved equal to it and `SimpsonRuleConstant` exact on constants |
| Integrator.Integral | src/common/integrator.cpp:20-41 | defines the checked integral; `Integrate` computes it and `IntegralChecks` states its check order in both directions |
| Integrator.WeightedPrefix | src/common/integrator.cpp:99-110 | Simpson's weighted sum is f(a) plus 4 times the odd samples plus 2 times the even interior ones |
| Integrator.SimpsonSums | src/common/integrator.cpp:99-110 | the loop leaves in s1 the sum of f over the odd interior grid points and in s2 the sum over the even ones |
| Integrator.SimpsonFrom | src/common/integrator.cpp:97-115 | the returned value is step/3 times f(a) + 4 times the odd sum + 2 times the even sum + f at the last grid point |
| Integrator.SimpsonValue | src/common/integrator.cpp:85-116 | the three accumulators of the Simpson loop give Simpson's rule |
| Integrator.IntegralChecks | src/common/integrator.cpp:20-41 | the checks run in the order step, empty interval, singularity, method; a value comes back exactly when h > 0 and either a = b or the interval avoids 1 with a known method |
| Integrator.ContainsSingularity | src/common/integrator.cpp:14-18 | defines the check that the closed interval between a and b, in either order, holds 1; `IntegralChecks` and `SamplesAvoidSingularity` are proved about it |
| Integrator.TestedCases | tests/integrator_tests.cpp:5-11 | the two calls the unit tests expect to throw fail: [0.5, 2] with trapezoids, and h = 0 with Simpson |
| Integrator.TestedCasesMessages | src/common/integrator.cpp:20-41 | not checked by the tests: those two failures carry the singularity and the step messages, and an empty interval gives 0 |
| Integrator.GridPointInInterval | src/common/integrator.cpp:51-116 | every grid point a rule samples lies between a and b |
| Integrator.MidpointInInterval | src/common/integrator.cpp:58-62 | every midpoint sample lies between a and b |
| Integrator.SamplesAvoidSingularity | src/common/integrator.cpp:14-18 | on an interval that avoids 1, no sample is at x = 1 |
| Integrator.MidpointConstant | src/common/integrator.cpp:58-62 | k midpoint samples of a constant add up to k times it |
| Integrator.TrapezoidConstant | src/common/integrator.cpp:77-81 | k trapezoid terms of a constant add up to k times it |
| Integrator.InteriorConstant | src/common/integrator.cpp:103-110 | Simpson's odd and even accumulators of a constant hold k/2 and (k-1)/2 copies |
| Integrator.MidpointRuleConstant | src/common/integrator.cpp:51-64 | the midpoint rule integrates a constant exactly over the covered steps |
| Integrator.TrapezoidRuleConstant | src/common/integrator.cpp:66-83 | the trapezoid rule integrates a constant exactly over the covered steps |
| Integrator.SimpsonRuleConstant | src/common/integrator.cpp:85-116 | Simpson's rule integrates a constant exactly over its even number of steps |
| Integrator.ConstantExact | src/common/integrator.cpp:20-116 | every rule gives c times the signed length it covers; Simpson covers its even step count |
| Integrator.ReversalNotAntisymmetric | src/common/integrator.cpp:46-64 | reversing the interval does not negate the result: 0.645 forwards, -0.705 backwards |
| Server.ParseMethod | src/server/server_main.cpp:33-44 | 1, 2 and 3 name their rules; every other value means Simpson |
| Server.Weight | src/server/server_main.cpp:202 | a client's weight is its core count but at least 1 |
| Server.TotalCores | src/server/server_main.cpp:200-203 | the total weight is at least the number of clients, so never 0 |
| Server.TotalCoresFits | src/server/server_main.cpp:200-203 | the quint64 sum of quint32 weights is at most the client count times 2^32 - 1, so below 2^64 for fewer than 2^31 clients |
| Server.Dispatch | src/server/server_main.cpp:211-229 | the dispatch sends one task per client, the i-th to client i |
| Server.Cut | src/server/server_main.cpp:208-216 | defines the closed-form cut points a + (b - a) * prefix/total, with the last pinned to b; `CutEnds`, `PieceLength` and `CutWithin` are proved about it |
| Server.CursorAt | src/server/server_main.cpp:208-217 | defines the running cursor of the dispatch loop; `CursorIsCut` proves it equal to `Cut` |
| Server.TaskFor | src/server/server_main.cpp:219-225 | defines task i: the cursor's bounds, h, the method, index i and the client count; `TaskContents` states its fields |
| Server.ServerApp.constructor | src/server/server_main.cpp:268-280 | a new coordinator has no clients, expects 0, and has the default task [2, 10], h = 1e-4, Simpson |
| Server.ServerApp.Start | src/server/server_main.cpp:85-93 | the expected count is recorded whether or not listening succeeds |
| Server.ServerApp.SetTask | src/server/server_main.cpp:98-103 | the four task parameters are replaced, nothing else changes, and the coordinator's invariant is kept |
| Server.ServerApp.OnNewConnection | src/server/server_main.cpp:109-132 | each pending connection appends a fresh client state; existing entries and their indices do not change |
| Server.ServerApp.EveryoneSaidHello | src/server/server_main.cpp:194-198 | true exactly when every client has sent a Hello |
| Server.ReadyToDispatch | src/server/server_main.cpp:185-198 | defines the dispatch guards after the once-only flag: expected > 0, the client count equals it, every client said Hello; `MaybeDispatchTasks` sends exactly when it holds |
| Server.ServerApp.SumCoreWeights | src/server/server_main.cpp:200-203 | the loop computes the total weight |
| Server.ServerApp.PartitionTasks | src/server/server_main.cpp:208-229 | the cursor loop produces exactly the dispatch of the partition |
| Server.ServerApp.MaybeDispatchTasks | src/server/server_main.cpp:184-233 | tasks go out once, and only when nothing was dispatched, expected > 0, the client count equals it and every client said Hello; otherwise nothing changes |
| Server.ServerApp.MaybeFinalize | src/server/server_main.cpp:238-266 | the reduction happens once, only after dispatch and once every client has reported; its value is the sum of all results |
| Server.AllReported | src/server/server_main.cpp:243-247 | defines maybeFinalize's check that every client has reported; `MaybeFinalize` reduces exactly when it holds after dispatch |
| Server.SumResults | src/server/server_main.cpp:249-252 | defines the sum of the clients' results in client order; `MaybeFinalize` records it as the final value |
| Server.ServerApp.OnFrame | src/server/server_main.cpp:145-179 | an unparsable frame or another type changes nothing; a Hello sets the flag and overwrites cores, then may dispatch; a Result records its value and an Error records 0, then either may reduce |
| Server.CutStep | src/server/server_main.cpp:212-217 | advancing from cut i by (b - a) times client i's fraction reaches cut i + 1 |
| Server.CursorNext | src/server/server_main.cpp:212-217 | one step of the cursor loop, including the pinned last piece, is the next cursor position |
| Server.CursorStep | src/server/server_main.cpp:212-217 | an interior cursor that agrees with the previous cut point agrees with the next one |
| Server.CursorIsCut | src/server/server_main.cpp:208-217 | the running cursor equals the closed-form cut a + (b - a) times the share of the clients before it |
| Server.CutEnds | src/server/server_main.cpp:209-216 | the partition starts at a and ends exactly at b |
| Server.PieceLength | src/server/server_main.cpp:212-216 | piece i is (b - a) times max(1, cores_i) over the total weight long, the last one included |
| Server.PiecesSumToInterval | src/server/server_main.cpp:208-217 | the piece lengths add up to exactly b - a |
| Server.PrefixCoresBounded | src/server/server_main.cpp:200-203 | the weight of any prefix of the clients is between 0 and the total |
| Server.CutWithin | src/server/server_main.cpp:208-217 | every cut point lies between a and b |
| Server.DispatchElement | src/server/server_main.cpp:211-227 | element i of the dispatch is the task for piece i, sent to client i |
| Server.TaskContents | src/server/server_main.cpp:219-225 | task i carries the cut points i and i + 1, the global h and method, index i, and the client count |
| Server.TaskOnTheWire | src/server/server_main.cpp:227 | the payload sent for task i parses as a Task equal to it |
| Server.TasksContiguous | src/server/server_main.cpp:215-221 | each task starts where the previous one ended; the first starts at a and the last ends at b |
| Client.Workers | src/client/client_main.cpp:61 | the worker count is max(1, idealThreadCount): at least 1, and the thread count when that is positive |
| Client.TrimStart | src/client/client_main.cpp:41 | leading whitespace is removed, and the result is a suffix that starts with a non-space |
| Client.TrimEnd | src/client/client_main.cpp:41 | trailing whitespace is removed, and the result is a prefix that ends with a non-space |
| Client.Trimmed | src/client/client_main.cpp:41 | defines `QString::trimmed`; `BlankIsAllSpace` proves it empty exactly for all-whitespace text |
| Client.BlankIsAllSpace | src/client/client_main.cpp:41 | a trimmed host is empty exactly when every character is whitespace |
| Client.ChunkLayout | src/client/client_main.cpp:115-129 | chunk 0 starts at a, each chunk starts where the previous ended, the last ends at b, and every chunk is (b - a)/P long |
| Client.Part | src/client/client_main.cpp:117-118 | defines the chunk length (b - a)/P; `PartTimesCount` proves P of them make b - a |
| Client.ChunkStart | src/client/client_main.cpp:127 | defines chunk i's start a + i * part; `ChunkLayout` proves the chunks contiguous from a |
| Client.ChunkEnd | src/client/client_main.cpp:128 | defines chunk i's end, b for the last chunk; `ChunkLayout` and `ChunksCover` prove the last ends at b and the lengths sum to b - a |
| Client.ChunksCover | src/client/client_main.cpp:126-130 | the chunk lengths add up to exactly b - a |
| Client.ChunkMonotone | src/client/client_main.cpp:126-130 | chunk i starts between a and its own end |
| Client.ChunkWithin | src/client/client_main.cpp:126-130 | every chunk bound lies between a and b |
| Client.SomeChunkHoldsOne | src/client/client_main.cpp:126-130 | if x = 1 lies between a and the end of chunk k, some chunk up to k contains it |
| Client.FirstFailureWins | src/client/client_main.cpp:132-136 | the fold fails exactly when some chunk fails, and then with the result of the first failing chunk |
| Client.ChunkIntegral | src/client/client_main.cpp:126-129 | defines chunk i's integral over its layout bounds; `ChunkOutcome` states its outcomes |
| Client.LocalResult | src/client/client_main.cpp:132-136 | defines the in-order fold that stops at the first failing chunk; `FirstFailureWins` and `FailureSticks` are proved about it |
| Client.FailureSticks | src/client/client_main.cpp:132-136 | once a chunk has failed, later chunks do not change the outcome |
| Client.StepErrorReported | src/client/client_main.cpp:126-136 | with h <= 0 the in-order fold over the chunks ends in the step error |
| Client.CleanTaskSucceeds | src/client/client_main.cpp:126-136 | with h > 0, a known method and an interval clear of 1, every prefix of chunks gives a value |
| Client.ChunkOutcome | src/client/client_main.cpp:126-129 | under those conditions with a != b, a chunk either gives a value or fails with the singularity error, and it fails when it holds 1 |
| Client.SingularityReported | src/client/client_main.cpp:126-136 | with h > 0, a known method and a != b, the in-order fold over a task interval holding 1 ends in the singularity error |
| Client.Utf16 | src/client/client_main.cpp:148 | the error text's UTF-16 form is 1 to 2 units per character, and exactly the code points for basic-plane text |
| Client.IntegralErrors | src/common/integrator.cpp:20-41 | the integrator fails only with its three messages |
| Client.Reply | src/client/client_main.cpp:113-155 | the one message a task is answered with: the rounded sum as a Result, or an Error carrying the rethrown exception's `what()` text; its properties are the three lemmas below |
| Client.ReplySucceeds | src/client/client_main.cpp:126-143 | the reply is a Result exactly when every chunk's integral succeeded, and then it carries the rounded sum of the chunk values |
| Client.ReplyReportsFailure | src/client/client_main.cpp:126-149 | the reply is an Error exactly when some chunk failed, and its text is the UTF-16 form of the rethrown exception's `what()`, whichever chunk failed |
| Client.SingularityAnswered | src/client/client_main.cpp:113-149 | with h > 0, a known method and a != b, a task interval holding 1 is answered with an Error carrying the `what()` text |
| Client.ReplySendable | src/client/client_main.cpp:145-149 | every reply fits the wire when the `what()` text is shorter than 2^30 characters |
| Client.OnTheWire | src/client/client_main.cpp:65 | every message the worker sends parses back to itself, with its own type |
| Client.ClientApp.constructor | src/client/client_main.cpp:30-34 | a new worker has sent nothing, is not connecting and has not quit |
| Client.ClientApp.ConnectTo | src/client/client_main.cpp:39-47 | a host of whitespace only, or port 0, requests quit and does not connect; otherwise a connection to that host and port is started |
| Client.ClientApp.OnConnected | src/client/client_main.cpp:53-67 | exactly one Hello is sent, with max(1, idealThreadCount) cores, which is at least 1 |
| Client.ClientApp.OnFrame | src/client/client_main.cpp:72-92 | a Task gets exactly one reply followed by a disconnect; a server Error requests quit; an unparsable or unexpected frame changes nothing |
| Client.ClientApp.ComputeAndSend | src/client/client_main.cpp:113-158 | exactly one message, the reply, is sent, and the connection is then closed |
| Client.ClientApp.FoldChunks | src/client/client_main.cpp:113-155 | the two loops and the send decision produce the reply |
| Client.ClientApp.LayOutChunks | src/client/client_main.cpp:115-130 | the first loop lays out exactly P chunks, chunk i from a + i(b - a)/P to its end |
| Client.ClientApp.WaitOnChunks | src/client/client_main.cpp:132-136 | the second loop yields the first-failure fold of the chunk integrals in index order |

## Left out

- Qt networking and event plumbing are I/O, not logic, so they are not modelled. This covers `QTcpServer`/`QTcpSocket`, signal and slot wiring, `readAll`, `flush`, `setSocketOption`, the disconnect and socket-error handlers (which only log or quit), logging, and the timers.
- The framing model stands for the socket's output and input as a log of frames written and a log of payloads received. Incoming bytes are a parameter of `OnReadyRead`.
- Sends are recorded as messages rather than bytes: `Outgoing` (a task and its client) in the coordinator's outbox, `Outbound` in the worker's log. The bytes on the wire are their serialisation (`SerializeTask`, `Client.Payload`). `Server.TaskOnTheWire` and `Client.OnTheWire` connect the two.
- Floating point is not modelled. Arithmetic is exact over reals, so the model does not capture rounding drift in the cursor and chunk sums, or NaN and infinities. The `Ieee754` parameter only converts between wire patterns and reals.
- The integrand `1/ln(x)` and the reference value 5.120435 in the tests are numeric facts about doubles. The integrand is the parameter `f`.
- The `quint64` step count and `quint64` total of core weights are unbounded in the model. The step count would wrap only beyond 2^64 steps. The total adds `quint32` weights, so it could wrap only with about 2^32 clients at the largest core count. Dispatch requires the client count to equal the `int` expected count, below 2^31, so the total stays below 2^64 (`Server.TotalCoresFits`).
- Integrator.StepsCount: does not model the truncating cast of a floor beyond 2^64 steps.
- The QString null marker (byte count 0xFFFFFFFF) is not modelled: the model reads that count as an odd count and rejects it.
- Protocol.WriteError: requires a text under 2^31 units, because a longer text's byte count does not fit the u32 prefix.
- MessageIO.SerializeError: has the same bound as `WriteError`, for the same reason.
- Framing.FramedSocket.TryConsumeOneFrame: compares the buffer with the expected size as exact integers. It does not model the source's `static_cast<int>` of sizes at or above 2^31.
- Field contents after a failed parse are not modelled. When the envelope read itself fails, `ParseMessage` holds the default envelope. When a later check fails, it keeps the envelope read. The bodies keep their defaults in both cases, whereas QDataStream may leave partially read fields behind. No caller looks at them.
- The worker's threads, `QtConcurrent::run` and the futures are a sequential fold in chunk index order, which is the order the source waits on them.
- The worker's `catch (...)` branch, which sends "unknown exception", is not modelled. A failing chunk reaches the worker as a `QUnhandledException`, which derives from `std::exception`, so the first catch clause takes it. An allocation failure in `futures.reserve` is also not modelled.
- `QString::fromUtf8(e.what())` is modelled as the UTF-16 encoding of the characters of `unhandledWhat` (`Client.Utf16`). The text itself belongs to the C++ runtime, so it is a parameter of `ClientApp` and not a constant.
- Client.ReplySendable: requires the `what()` text to be under 2^30 characters, so that its UTF-16 form fits the u32 byte count. The runtime's text is a short constant.
- `QCoreApplication::quit` and `disconnectFromHost` are recorded as flags (`quitRequested`, `disconnecting`) and not followed further.
- `main` in both programs is not modelled. That covers command-line and stdin parsing, the pause on finish, and `methodName`, which only feeds logging.
- `ServerApp::start`'s listen result depends on the network, so it is a parameter.
- Server.ServerApp.Start: requires that no tasks were dispatched yet. That is the only moment `main` calls it.
- A client that connects beyond the expected count is kept, as in the source. Before dispatch it makes the count differ from the expected one, so dispatch never happens. After dispatch it never receives a task and never reports, so the final reduction never happens. Either way the run stalls, and the model keeps this behaviour.
