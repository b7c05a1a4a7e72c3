# nsq-swoole: the frame decoder, the publish coordinator and the producer read buffer

This project models, in Dafny, the parts of the PHP NSQ client nsq-swoole that
carry checkable logic:

- **The frame decoder** (`Response`, response.dfy). An NSQ frame is a 4-byte
  big-endian size, a 4-byte big-endian type (0 response, 1 error, 2 message)
  and `size - 4` bytes of data. A message's data is an 8-byte timestamp, a
  2-byte attempt count, a 16-byte id and the body. `readFrame` and its helpers
  `readInt`, `readShort`, `readLong` and `readString` are pure functions over a
  byte sequence and a cursor position (`IntAt`, `ShortAt`, `LongAt`,
  `StringAt`, `FrameAt`). The class `FrameReader` consumes the same bytes
  step by step, and each of its methods is proved equal to the function it
  implements. An encoder (`Encode`) is the decoder's partner: decoding an
  encoded frame gives it back, with the text quirk of `readString` stated
  exactly.
- **The producer connection** (`Monitor`, monitor.dfy). `AbstractMonitor`
  holds the state every connection keeps: host, port, timeout, swoole
  setting, read buffer. `Producer` adds the swoole client's connection state
  and the commands sent to it. The socket's answers (connect, send, recv) are
  parameters. `Producer.Read` slices the read buffer in place.
- **The publish coordinator** (`Client`, client.dfy). The class `Client` has
  the producer pool and the required-acknowledgement count. `PublishTo` grows
  the pool and resolves the consistency level. `Publish` makes a publish
  attempt against each producer of the shuffled pool:
  - it retries up to `tries + 1` times, reconnecting after a failure;
  - it answers heartbeats with NOP;
  - it counts OKs and collects errors;
  - it stops as soon as enough producers acknowledge;
  - it fails with the counts and the errors when too few do.

  What each producer's socket does on each attempt comes from an oracle
  parameter. The methods are proved equal to reference functions:
  `Conversation` for one attempt, `Retry` for one producer, `Sweep` for the
  pool. Lemmas about those functions state the retry and counting
  properties.

The commands (`Commands`, commands.dfy) are abstract values. Their byte
encoding lives in src/Protocol/Command.php, which is not part of this model.

Two behaviours of the code are worth knowing before reading the model:

- **Quorum.** A bare majority of a pool of n is floor(n / 2) + 1. PUB_QUORUM
  asks for ceil(n / 2) + 1 instead (src/Client.php:132). The two differ for
  every odd pool: a pool of 1 can never meet PUB_QUORUM, and a pool of 3
  needs all three. `Client.QuorumReach` states this.
- **Text fields.** readString keeps only the bytes 0x01..0x7F
  (src/Protocol/Response.php:150-157). This applies to response and error
  texts and to the message id and body, so binary ids and bodies lose
  bytes. `Response.BinaryPayloadIsLost` shows a one-byte body vanishing.

## Model

| member | source | states |
|---|---|---|
| Response.IntAt | src/Protocol/Response.php:116-123 | succeeds exactly when 4 bytes are there; consumes exactly 4; the value is their big-endian unsigned reading and lies in [0, 2^32) |
| Response.ShortAt | src/Protocol/Response.php:104-108 | succeeds exactly when 2 bytes are there; consumes exactly 2; the value is their big-endian reading and is below 2^16 |
| Response.LongAt | src/Protocol/Response.php:131-140 | hi * 2^32 + lo from two unsigned 32-bit reads is the 8-byte big-endian value, below 2^64; consumes exactly 8 bytes |
| Response.LongOfWords | src/Protocol/Response.php:131-140 | reading the high and low 32-bit words of any 64-bit value gives that value back |
| Response.BeUintAppend | src/Protocol/Response.php:139 | reading a longer big-endian number is reading its high part shifted past the low part, plus the low part |
| Response.Signed | src/Protocol/Response.php:150 | the signed-char reading of a byte is positive exactly for 0x01..0x7F |
| Response.Positive | src/Protocol/Response.php:150-157 | the output is no longer than the input, contains only 0x01..0x7F, and holds each such byte exactly as often as the input does; no other byte survives |
| Response.PositiveAppend | src/Protocol/Response.php:153-157 | filtering is byte by byte: filtering a concatenation is concatenating the filtered parts |
| Response.PositiveKeepsOnlyText | src/Protocol/Response.php:150-157 | the filter leaves a byte string unchanged exactly when all its bytes are 0x01..0x7F |
| Response.StringAt | src/Protocol/Response.php:149-160 | succeeds exactly when `size` is non-negative and that many bytes are there; consumes exactly `size` bytes; the result is the filtered bytes, at most `size` long, all in 0x01..0x7F |
| Response.IsHeartbeat | src/Protocol/Response.php:82-85 | a heartbeat is a type-0 frame (its text is exactly "_heartbeat_") |
| Response.IsOk | src/Protocol/Response.php:93-96 | an OK frame has type 0 and is never a heartbeat |
| Response.IsMessage | src/Protocol/Response.php:71-73 | a frame is a message exactly when its type is 2; a message is never OK nor a heartbeat |
| Response.FrameAt | src/Protocol/Response.php:35-63 | a decoded frame's size and type are the two header words; it consumes exactly size + 4 bytes; an unknown type is above 2 |
| Response.BodyAt | src/Protocol/Response.php:41-60 | after the header, a successful branch consumes size - 4 bytes and gives a frame of the type read; only types above 2 raise the unknown-type error |
| Response.MessageAt | src/Protocol/Response.php:50-55 | a message body needs size >= 30 and consumes size - 4 bytes |
| Response.FrameDispatch | src/Protocol/Response.php:41-59 | with all bytes present: type 0 gives the response text and type 1 the error text (the size - 4 bytes, filtered); type 2 gives ts, attempts, the 16-byte id and the size - 30 byte body; any other type fails carrying the filtered size - 4 trailing bytes; a size below 4 fails for types 0, 1 and others |
| Response.ShortFrameAt | src/Protocol/Response.php:41-59 | a text or unknown frame whose size is below 4 fails with a negative length |
| Response.TextFrameAt | src/Protocol/Response.php:42-59 | a type-0, type-1 or unknown frame with its data present decodes to the filtered size - 4 bytes and ends size + 4 bytes on |
| Response.MessageFrameAt | src/Protocol/Response.php:50-55 | a type-2 frame with its data present decodes field by field and ends size + 4 bytes on |
| Response.MessageFieldsAt | src/Protocol/Response.php:51-54 | the four message fields sit at offsets 0, 8, 10 and 26 of the data |
| Response.Filtered | src/Protocol/Response.php:41-55 | what readFrame makes of a frame keeps its type and its size |
| Response.DecodeEncodeFiltered | src/Protocol/Response.php:35-63 | decoding any encodable frame, whatever follows it, gives the frame with its texts filtered and stops right after it |
| Response.DecodeEncode | src/Protocol/Response.php:35-63 | decoding an encoded frame whose texts are ASCII without NUL, whatever follows it, gives exactly that frame and stops right after it |
| Response.EncodedHeader | src/Protocol/Response.php:36-39 | the size and type words of an encoded frame read back as its size and type |
| Response.DecodeEncodedText | src/Protocol/Response.php:42-48 | the round trip for response and error frames |
| Response.DecodeEncodedMessage | src/Protocol/Response.php:50-55 | the round trip for message frames |
| Response.MessageFields | src/Protocol/Response.php:51-54 | ts, attempts, id and body of an encoded message are read back from their offsets |
| Response.BinaryPayloadIsLost | src/Protocol/Response.php:150-157 | a message whose one-byte body is 0x80 decodes with an empty body |
| Response.FrameReader.Take | src/Protocol/Response.php:150 | hands over exactly the next n bytes, or fails; a short read consumes what is left |
| Response.FrameReader.ReadInt | src/Protocol/Response.php:116-123 | equals `IntAt` at the cursor and advances it by 4 |
| Response.FrameReader.ReadShort | src/Protocol/Response.php:104-108 | equals `ShortAt` at the cursor and advances it by 2 |
| Response.FrameReader.ReadLong | src/Protocol/Response.php:131-140 | equals `LongAt` at the cursor and advances it by 8 |
| Response.FrameReader.ReadString | src/Protocol/Response.php:149-160 | the filtering loop equals `StringAt` at the cursor and advances it by `size` |
| Response.FrameReader.ReadMessage | src/Protocol/Response.php:50-55 | equals `MessageAt` at the cursor and advances it by size - 4 |
| Response.FrameReader.ReadBody | src/Protocol/Response.php:41-60 | equals `BodyAt` at the cursor and advances it by size - 4 |
| Response.FrameReader.ReadFrame | src/Protocol/Response.php:35-63 | equals `FrameAt` at the cursor and advances it past the whole frame |
| Monitor.AbstractMonitor.constructor | src/Monitor/AbstractMonitor.php:67-75 | stores host, port and timeout as given; an empty setting keeps the default length-check setting, any other replaces it wholesale; the buffer starts null |
| Monitor.AbstractMonitor.GetDomain | src/Monitor/AbstractMonitor.php:98-100 | the domain parses back into this monitor's host and port |
| Monitor.AbstractMonitor.Write | src/Monitor/AbstractMonitor.php:82-84 | the base write changes nothing |
| Monitor.AbstractMonitor.Reconnect | src/Monitor/AbstractMonitor.php:89-91 | the base reconnect changes nothing |
| Monitor.Decimal | src/Monitor/AbstractMonitor.php:99 | a port in decimal is never empty and has no colon |
| Monitor.ParsePortOfDecimal | src/Monitor/AbstractMonitor.php:99 | the decimal form of any integer, negative ones included, reads back as that integer |
| Monitor.DomainRoundTrip | src/Monitor/AbstractMonitor.php:98-100 | host ++ ":" ++ decimal(port) splits back at its last colon into the same host and port, even when the host itself contains colons |
| Monitor.Cut | src/Monitor/Producer.php:33-34 | the two substr calls always put the buffer back together; the first part has `len` bytes, or, for a negative `len`, all but the last -len bytes |
| Monitor.Slice | src/Monitor/Producer.php:20-37 | a non-null buffer gives min(len, its length) bytes for len >= 0; a longer buffer is split into returned ++ kept == old buffer; a buffer no longer than `len` is handed over whole and becomes null; for len >= 0 a null buffer stays null and gives null, while a negative len turns a null buffer into "" and gives "" |
| Monitor.Producer.constructor | src/Monitor/AbstractMonitor.php:67-75 | a producer starts with the monitor fields as given, a null buffer, no connection and nothing sent |
| Monitor.Producer.GetMonitor | src/Monitor/Producer.php:86-102 | fails only when not connected and the connect fails; a fresh connection sends the magic token first |
| Monitor.Producer.ReadAll | src/Monitor/Producer.php:44-54 | fails when recv gives false or nothing, naming the domain; otherwise returns the data unchanged |
| Monitor.Producer.Write | src/Monitor/Producer.php:61-65 | fails exactly when send reports false (or the connect fails); on success the command is sent; the read buffer is untouched |
| Monitor.Producer.Reconnect | src/Monitor/Producer.php:72-78 | closes and connects again; succeeds exactly when the connect does, sending the magic token |
| Monitor.Producer.Read | src/Monitor/Producer.php:20-37 | the returned bytes and the new buffer are `Slice` of the old buffer; a null buffer first costs a readAll whose data is dropped, and only that readAll can make read fail |
| Client.NodesOf | src/Client.php:116-121 | one producer per hosts entry, in order, with 'localhost' and 4150 for missing keys |
| Client.Quorum | src/Client.php:132 | ceil(n / 2) + 1 |
| Client.RequiredAcks | src/Client.php:125-138 | levels 1 and 2 require themselves, level 5 requires the quorum of the pool, and every other level is rejected |
| Client.QuorumReach | src/Client.php:131-144 | a quorum is reachable exactly when the pool has at least 2 nodes; for an odd pool it is one more than a bare majority (n=1 gives 2, n=3 gives 3, n=4 gives 3) |
| Client.PublishCommand | src/Client.php:173-174 | an array of messages gives mpub with those bodies; otherwise a non-zero delay gives dpub with that delay, else pub; the topic is kept |
| Client.Conversation | src/Client.php:177-181 | the heartbeat loop of one attempt ends at a step between its start and the end of the socket's steps |
| Client.ConversationStops | src/Client.php:175-181 | every step before the end of an attempt wrote its command and read a heartbeat; the attempt ends at the first failed write, failed read or non-heartbeat frame |
| Client.HeartbeatThenOk | src/Client.php:177-184 | a heartbeat followed by OK writes the command and exactly one NOP, and the attempt ends with the OK |
| Client.Written | src/Client.php:175-181 | an attempt writes one command per step it reached, without the write that failed |
| Client.Converse | src/Client.php:175-181 | the write/read/NOP loop ends as `Conversation` says and writes what `Written` says |
| Client.Tries | src/Client.php:171 | runs 0 to `tries`: tries + 1 attempts, none when `tries` is negative |
| Client.Retry | src/Client.php:171-197 | no attempt is made exactly when none is left; otherwise at least one and at most the remaining number are made |
| Client.Deliver | src/Client.php:171-197 | a producer is attempted at least once and at most tries + 1 times, and not at all exactly when `tries` is negative |
| Client.AttemptsWriteOnly | src/Client.php:175-181 | helper: every event an attempt records is a write to its own producer, which holds because `Written` tags each event with it |
| Client.RetryOwnEvents | src/Client.php:171-197 | helper: every event of the retry loop concerns its own producer, by construction of `Retry` |
| Client.RetryReconnects | src/Client.php:190-196 | a reconnect follows each failed attempt but the last run, so there are runs - 1 or runs reconnects and fewer than the attempts allowed |
| Client.RetryStopsAtAnswer | src/Client.php:171-197 | attempts continue only after a failure; the producer acknowledges or refuses exactly when its last attempt got a final frame, and acknowledges exactly when that frame is OK |
| Client.ErrorText | src/Client.php:186 | an error text exists exactly for an error frame, and is that frame's text; any other final frame gives null |
| Client.ErrorsOf | src/Client.php:183-200 | an acknowledging or untried producer adds no error; any other adds exactly one |
| Client.OutcomeAt | src/Client.php:169-200 | producer k of the pool contributes its own attempts, and makes none exactly when `tries` is negative |
| Client.Outcomes | src/Client.php:169-200 | one outcome per producer of the shuffled pool, in pool order |
| Client.Sweep | src/Client.php:167-205 | the sweep tries at least the next producer and never more than the pool |
| Client.SweepStep | src/Client.php:183-204 | one producer adds its acknowledgement or its error and its events, then the loop stops or goes on with the next |
| Client.SweepCounts | src/Client.php:183-200 | each producer tried adds at most one acknowledgement; with attempts allowed, exactly one acknowledgement or one error each |
| Client.SweepKeepsErrors | src/Client.php:186-199 | the errors are only ever appended to |
| Client.SweepStops | src/Client.php:202-204 | producers are left untried only once the requirement is met, and the count stops at the requirement |
| Client.PublishTally | src/Client.php:167-212 | over the whole pool: acknowledgements <= producers tried <= pool size; acknowledgements + errors == producers tried; no attempt means no count and no error; a cut-short pool means the requirement was met; never more acknowledgements than required |
| Client.TryProducer | src/Client.php:170-200 | the retry loop over one producer gives that producer's `Retry` outcome |
| Client.PublishAll | src/Client.php:167-205 | the loop over the pool gives the `Sweep` over the shuffled pool: acknowledgements, errors and connection events |
| Client.Client.constructor | src/Client.php:63-67 | stores timeout and setting; the pool starts empty and the required count at 1 |
| Client.Client.PublishTo | src/Client.php:114-147 | the pool grows by one producer per hosts entry in order, even when the call then fails; an unknown level fails and leaves the count unchanged; a known level sets the count, which is kept even when it exceeds the pool and the call fails naming the pool size; success implies the count is at most the pool size |
| Client.Client.Publish | src/Client.php:162-215 | the pool is left in the shuffled order, a permutation of the old pool; the publish fails exactly when fewer than the required producers acknowledge, with the required and achieved counts and the errors in order |

## Left out

- Short reads and negative sizes. In PHP they do not fail. With too few bytes, `unpack` warns and returns false, so readInt gives 0 and readString gives "". readFrame then returns a frame anyway: empty input gives size 0, type 0 and response "". A negative size does not fail either. `"c-4chars"` unpacks one char under the key "-4chars", and `Producer::read(-4)` consumes all but the last 4 bytes. The model departs from this on purpose: it reports `Truncated` or `NegativeLength` and stops.
- 32-bit PHP. On a platform where `PHP_INT_SIZE` is 4, `readInt` returns a signed value. The model follows 64-bit PHP, where it is unsigned.
- `bcadd`/`bcmul`. readLong's decimal-string arithmetic is modelled on mathematical naturals.
- Loose comparison. PHP's `switch` compares loosely: a level given as the string "5" or as 5.0 would match. Levels are integers here.
- PHP 7 `substr`. On PHP 7, `substr` can return false. `Monitor.Cut` follows PHP 8, where it returns "".
- Client.php:177 hands the string from `readAll()` to `readFrame`, which expects a monitor. On PHP 7 and later that raises a TypeError. A TypeError is an `\Error`, which `catch (\Exception $e)` does not catch, so publish as written aborts at its first successful read. The model instead takes the evident intent: "read one frame" is a step of the oracle, which yields a decoded frame or a socket failure. Reading a frame from a producer's own buffer is not tied to `Producer.Read`.
- Connect, send and recv are the oracle. Each attempt is a list of steps. Each step is a write's outcome and then a read's outcome. Past the end of the list, recv gives false. The magic token sent on a fresh connection is not part of the publish trace.
- Client.Client.Publish: shuffle's randomness is a parameter. The new order is any permutation of the pool.
- Client.Client.Publish: the exception is modelled by its required and achieved counts and the errors in order. The formatted message text (`sprintf` and `implode`) is not modelled.
- Client.Client.PublishTo: InvalidArgumentException is modelled as `InvalidLevel` or `Unattainable(n)`, not by its message text.
- Monitor.Failure: exceptions keep the domain they name but not their message text. In particular `WriteFailed` drops the byte count of "Failed to write N bytes to ..." (src/Monitor/Producer.php:63).
- Default arguments. The defaults of `publishTo` (level PUB_ONE), `publish` (tries 1, deferred 0) and the constructors (timeout 3, empty setting, 'localhost', 4150) are Dafny default parameter values. `Publish` takes the shuffled order and the oracle before `tries` and `deferred`, so that those two can keep their defaults. The integer timeout 3 is the real 3.0.
- Client.Node: a producer of the pool is the value of its construction arguments. Its live connection state, `Monitor.Producer`, is modelled separately, and `Publish` reads the socket through the oracle rather than through `Producer` objects.
- The timeout and the swoole setting are passed through as opaque values.
- The command byte encoding. src/Protocol/Command.php is not part of this model.
- The consumer side. `subscribe`, src/Monitor/Consumer.php and the lookup interface are event-loop plumbing with no logic to model.
- Client.Quorum follows the code (ceil). A bare-majority quorum, floor(n / 2) + 1, is not modelled.
- Response.FrameReader.Take: on a failed read the cursor is moved to the end of the bytes. Where PHP's real socket would leave it after a failed read is not modelled.
