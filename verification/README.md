# Verified model of the accelerometer firmware

The firmware of this repository reads an accelerometer FIFO, packs the samples into CBOR messages,
compresses each message with the heatshrink encoder, and sends banks of sixty messages over CoAP,
resending what the server reports as missing. This project models that path in Dafny 4.11 and proves
what it keeps, from the single bit of a compressed message to whole runs of sampling and sending.
`dafny verify dfyconfig.toml` checks everything.

## How it is built

| file | content |
|---|---|
| `Bits.dfy` | bit fields, shifts and the packing of bits into bytes |
| `Lzss.dfy` | the greedy parse, the encoding and its decoder as functions of the whole input; round trip, truncation, size |
| `Matching.dfy` | the index of previous equal bytes and the two match searches, in place on arrays |
| `BitPacker.dfy` | the partial output byte |
| `Encoder.dfy` | the encoder as a class with the C fields, and its ten states |
| `Compression.dfy` | arbitrary callers of the encoder, and the firmware's one-shot compression with the size it reports |
| `Cbor.dfy`, `MsgEncode.dfy` | RFC 8949 heads and integers, the message as bytes, and decoders for both |
| `Formats.dfy` | CBOR heads, messages and compressed streams as byte and bit layouts |
| `Zcbor.dfy` | the generated encoder, appending to a mutable state and patching list heads |
| `Batching.dfy` | how samples become messages, as functions of the readings, and what holds over all runs |
| `Reporting.dfy` | what the reported size says for inputs of one window and for all messages of the firmware |
| `Banks.dfy` | the shared banks of message slots |
| `Sensor.dfy` | `empty_fifo_fn` as a class, proved against `Batching.dfy` |
| `Sender.dfy` | `coap_send_fn` as a state machine and as nested loops proved against it |
| `Rounds.dfy` | sending runs told from their network events: which replies count, what each round resends |
| `Pipeline.dfy` | the parts together: runs from start-up, from the sensor to the server, sampling while sending |
| `Interleaving.dfy` | storing and sending in any order over unbounded time, on one memory |
| `Incompressible.dfy` | concrete inputs for the faults below |

The encoder's central invariant is `Committed`: the bits already pushed and the bits of the current
token still to be pushed are the beginning of the greedy parse of everything taken in so far *and of
each of its extensions*. The yielding states only move bits from one part to the other; the search
extends both. From it follow that output is never wrong at any suspension point, and that the finished
output is the encoding whatever the chunk sizes were.

A method is proved against a function of its inputs, and what such a function computes is said once more
without it: over all runs of events, readings or actions (`Rounds`, `Batching.RunHeaders`,
`Interleaving.SendersAreSafe`), or in the numbers of the formats (`Formats`, `Sender.ReplyExactly`,
`Sensor.MilliIs`).

Environment behaviour is passed in: whether memory is available, how a flush ends, what the sensors
return, and for the network a script with one entry for each pass of a sending loop. A method that
watches a script says what holds after that many steps, so its contract covers every run.

## What the proofs found

* `heatshrink_compression` polls once more after the output is full. That call is refused because it
  has no room, leaves the count of the call before in place, and the count is added again
  (`src/sensor.c:62-65`). It happens exactly when the encoder is stuck in a token: when the round of the
  parse in which the output fills has a whole byte more to write, or ends with a back-reference as the
  output fills, whose last step writes nothing but waits for room. `Compression.Reported` is the reported
  size as a function of the input, and `Compression.HeatshrinkCompression` proves it for every input of
  up to 32767 bytes. A message of the firmware gets a size within the payload area of its slot exactly when its second
  round does not get stuck; otherwise at least 1454 (`Reporting.MessageReport`). The message of
  `Incompressible.RestlessGrows`, 1017 bytes that encode to 1082, is reported with 1497, beyond the 1100
  bytes of `payload` (`src/shared.h:8`).
* `empty_fifo_fn` takes every positive size for success (`src/sensor.c:168-170`), so a message whose
  encoding is longer than itself is stored without its end. `Compression.StoredDecodes` gives the exact
  condition, and `Incompressible.FifoMessageIsLost` a reading that makes such a message.
* A poll that finds no room for the last partial byte returns `HSER_POLL_EMPTY` all the same
  (`src/heatshrink_encoder.c:237-240`), although the header describes that result as input exhausted
  (`src/heatshrink_encoder.h:16`). After finish, a poll that fills its output ends so exactly when one to
  seven bits are missing and the encoding ends with a literal (`HeatshrinkEncoder.Encoder.FlushWaits`);
  `Compression.FlushWithoutRoom` is a run in which half of the encoding of a single byte is delivered.
* The comment above `push_bits` says bytes are set from the lowest bits up; the code sets them from
  the highest down (`src/heatshrink_encoder.c:548-576`), and the model follows the code.
* The largest window that `heatshrink_encoder_alloc` accepts does not fit the 16-bit counters of the
  index (`Matching.WindowFitsIndex`), and beyond position 0x8000 the search without index finds nothing
  (`Matching.FindLongestMatchLinear`).
* The second message flushed in one call carries a header of zeros, and the first one the timestamp of
  the call before (`Batching.DrainWell`); `Incompressible.TwoFlushesHappen` gives two readings after
  which this has happened.
* A reply whose ten low bits are all set without being `0x3ff`, for example `0x7ff`, leaves no message to
  resend; the last position becomes 255 and the 8-bit loop counter never passes it
  (`Sender.RunawayExactly`, `Sender.SmallBitmapsAreSafe`); `Sender.RunawayHappens` is a whole run that
  ends there.
* The reconnect branch of `coap_send_fn` asks for `tries == 4`, which cannot happen
  (`src/networking.c:100`); `Sender.SenderTask.SendRound` carries the branch and proves it dead.

## Model

| member | source | states |
|---|---|---|
| `Lzss.BestIsNearestLongest` | src/heatshrink_encoder.c:450-527 | the match chosen for the parse is the longest in the window and the nearest among the longest |
| `Lzss.NearestLongestUnique` | src/heatshrink_encoder.c:450-527 | that match is unique, so any search meeting the description finds it |
| `Lzss.TokenIsGreedy` | src/heatshrink_encoder.c:261-302 | told from the bytes alone: a back-reference repeats earlier bytes, nothing longer repeats within the window, nothing as long from nearer; a literal stands where nothing long enough repeats |
| `Lzss.TokenStable` | src/heatshrink_encoder.c:268-283 | with a full lookahead the token does not depend on input still to come |
| `Lzss.CommitToken` | src/heatshrink_encoder.c:261-302 | committing one more token keeps the committed bits a prefix of the parse of every extension |
| `Lzss.ExpandGreedy` | src/heatshrink_encoder.c:276-302 | copying a back-reference byte by byte reproduces the input, overlaps and zero history included |
| `Lzss.DecodeParse` | src/heatshrink_encoder.c:304-382 | decoding inverts the parse from any position, and fewer than eight padding zeros never read as a token |
| `Lzss.RoundTrip` | src/heatshrink_encoder.c:304-382 | for every input and every accepted parameter pair the decoder inverts the encoding |
| `Lzss.TruncationLoses` | src/heatshrink_encoder.c:369-382 | an encoding cut short by any number of bytes decodes to a proper prefix of the input |
| `Lzss.TokenCost` | src/heatshrink_encoder.c:511-526 | a back-reference costs fewer than eight bits per byte it covers, a literal nine bits |
| `Lzss.SizeBound` | src/heatshrink_encoder.c:511-526 | an input of n bytes encodes to at most 9n/8 bytes, rounded up |
| `Lzss.FirstByte` | src/heatshrink_encoder.c:304-329 | the encoding of an input that does not start with a zero starts with its first byte as a literal |
| `Formats.TokenIs` | src/heatshrink_encoder.c:304-361 | a literal is a one and eight bits; a back-reference a zero, the distance less one and the length less one in the bits of window and lookahead |
| `Formats.EncodingIs` | src/heatshrink_encoder.c:548-576 | the encoded bytes hold the bits of the parse in order, eight to a byte from the top, and zeros behind |
| `Matching.DoIndexing` | src/heatshrink_encoder.c:403-436 | for every fill, every index entry is the greatest earlier position with an equal byte, or -1, as stored in 16 signed bits; up to 0x8000 positions it is that position itself |
| `Matching.ChainIsEarlierEqual` | src/heatshrink_encoder.c:405-411 | following the index visits exactly the earlier positions with the same byte |
| `Matching.ChainDescends` | src/heatshrink_encoder.c:405-411 | and visits them in strictly descending order |
| `Matching.Compare` | src/heatshrink_encoder.c:471-481 | the early test of the byte that would beat the best match never hides an improvement |
| `Matching.FindLongestMatch` | src/heatshrink_encoder.c:452-489 | the indexed search returns the nearest longest match, or not-found exactly when none is longer than break-even |
| `Matching.FindLongestMatchLinear` | src/heatshrink_encoder.c:490-509 | so does the search without index up to position 0x8000; beyond it the signed position is negative and nothing is found |
| `Matching.SearchesAgree` | src/heatshrink_encoder.c:463-526 | both searches return the same distance and length on the same data |
| `Matching.BestSlice` | src/heatshrink_encoder.c:276-287 | a search in the sliding buffer finds what a search in the whole history would |
| `Matching.WindowFitsIndex` | src/heatshrink_encoder.c:421-436 | 16-bit positions and signed index entries suffice for every fill exactly when the window is at most 2^14 |
| `BitPacker.BitCompletes` | src/heatshrink_encoder.c:560-574 | the eighth bit moves the partial byte to the output without losing or reordering bits |
| `BitPacker.WholeByte` | src/heatshrink_encoder.c:555-558 | at a byte boundary the whole-byte path adds the same bits as the bit loop |
| `BitPacker.FlushPacks` | src/heatshrink_encoder.c:369-382 | writing the partial byte makes the output exactly the packed bit stream |
| `HeatshrinkEncoder.Encoder.PushBits` | src/heatshrink_encoder.c:548-576 | the emitted bits grow by exactly the requested field, and at most one byte is written |
| `HeatshrinkEncoder.Encoder.PushOutgoingBits` | src/heatshrink_encoder.c:529-546 | emitted and queued bits together are unchanged; nothing is pushed exactly when the queue is empty |
| `HeatshrinkEncoder.Encoder.StYieldTagBit` | src/heatshrink_encoder.c:304-319 | emitted and pending bits together are unchanged; without room the state stays |
| `HeatshrinkEncoder.Encoder.StYieldLiteral` | src/heatshrink_encoder.c:321-329 | the same, for the literal byte last scanned |
| `HeatshrinkEncoder.Encoder.StYieldBrIndex` | src/heatshrink_encoder.c:331-345 | the same, for the distance field; every stay with room shrinks the queue |
| `HeatshrinkEncoder.Encoder.StYieldBrLength` | src/heatshrink_encoder.c:347-361 | the same, for the length field, after which the match counts as scanned |
| `HeatshrinkEncoder.Encoder.StStepSearch` | src/heatshrink_encoder.c:261-302 | the token found is the greedy token of the whole history, and the invariant holds with its bits pending |
| `HeatshrinkEncoder.Encoder.StSaveBacklog` | src/heatshrink_encoder.c:587-605 | sliding keeps a full window of history and every unprocessed byte |
| `HeatshrinkEncoder.Encoder.StFlushBitBuffer` | src/heatshrink_encoder.c:369-382 | reaching the last state means the bytes written are the encoding of all input |
| `HeatshrinkEncoder.Encoder.Reset` | src/heatshrink_encoder.c:119-136 | the encoder starts afresh with a zero history, whatever its parameters |
| `HeatshrinkEncoder.Encoder.Alloc` | src/heatshrink_encoder.c:70-105 | no encoder exactly when the parameters are out of range or memory runs out; otherwise a cleared one with a buffer and an index of two windows |
| `HeatshrinkEncoder.Encoder.Sink` | src/heatshrink_encoder.c:138-167 | takes as much as fits, refuses after finish or during processing, and then leaves the whole encoder unchanged |
| `HeatshrinkEncoder.Encoder.Finish` | src/heatshrink_encoder.c:253-259 | done is reported exactly in the last state, where the whole encoding has been written |
| `HeatshrinkEncoder.Encoder.PollLoop` | src/heatshrink_encoder.c:207-250 | terminates; more means the output is full, empty means input is wanted, all is done, or the flush found no room |
| `HeatshrinkEncoder.Encoder.Poll` | src/heatshrink_encoder.c:191-251 | the bytes delivered are the next bytes of the stream, nothing else in the caller's array changes, and a refused call leaves the whole encoder and the array unchanged |
| `HeatshrinkEncoder.Encoder.FlushWaits` | src/heatshrink_encoder.c:229-249 | after finish, a poll that fills its output waits in the flush exactly when one to seven bits are missing and the encoding ends with a literal |
| `HeatshrinkEncoder.Encoder.StuckBits` | src/heatshrink_encoder.c:304-361 | an encoder stuck in a token still has at least a byte of its round to write, unless the round ends with that token and it is a back-reference |
| `HeatshrinkEncoder.Encoder.AtRest` | src/heatshrink_encoder.c:261-302 | an encoder that asks for input after a poll has written the tokens that could begin with the input so far, and no others |
| `HeatshrinkEncoder.Encoder.OutputIsPrefix` | src/heatshrink_encoder.c:191-302 | at any moment the bytes written begin the encoding of every input that may still come |
| `HeatshrinkEncoder.Encoder.FinishedMeansDone` | src/heatshrink_encoder.c:191-259 | after finish, an encoder that wants nothing has written the whole encoding, which decodes to the input |
| `HeatshrinkEncoder.Encoder.BitsWritten` | src/heatshrink_encoder.c:191-259 | after finish, the bytes written hold no more bits than the encoding has, and less than a byte is missing once only the flush is left |
| `Compression.RunEncoder` | src/heatshrink_encoder.c:138-259 | for every sequence of sink, poll and finish calls, at every point the bytes put out by the polls begin the encoding of the bytes taken by the sinks and of all that may follow; sinks take something whenever input is wanted; once done they are all of it, which happens as soon as the polls after finish had room for more |
| `Compression.FlushWithoutRoom` | src/heatshrink_encoder.c:237-240 | a finished one-byte input polled with room for one byte: the answer is empty, one of two bytes is delivered, and the encoder waits in the flush |
| `Compression.EncodeStream` | src/heatshrink_encoder.c:138-259 | any chunk size and any polling room yield the same encoding, and the loop ends |
| `Compression.PollAll` | src/sensor.c:61-65 | the poll loop ends with all bytes so far in place, or with the output full; the last count is added twice exactly when the encoder is stuck in a token |
| `Compression.OneRound` | src/sensor.c:54-69 | one pass of the loop ends at the boundary that the parse reaches with the input so far, or with the reported size |
| `Compression.HeatshrinkCompression` | src/sensor.c:44-77 | writes at most the input length; the size is smaller than that exactly when the encoding is, and then the encoding is complete; in every case the size is `Reported`, a function of the input alone |
| `Reporting.SmallReport` | src/sensor.c:54-76 | up to one window the size is doubled exactly when the bits fill a byte more than the input has, or fill it and end with a back-reference; it is the input length exactly when they fill it otherwise, or all but part of its last byte |
| `Reporting.MessageReport` | src/sensor.c:54-76 | for every message of 1015 to 1044 bytes the size is within 1100 exactly when the second round does not get stuck; otherwise it is twice the length less at most 576 |
| `Reporting.ShortMessageReport` | src/sensor.c:54-76 | up to 1017 bytes the second round is the rest of the parse |
| `Compression.StoredDecodes` | src/sensor.c:44-77 | what is stored decodes to the input exactly when the encoding is not longer, otherwise to a proper prefix |
| `Compression.OneByteIsLost` | src/sensor.c:44-77 | an input for which it does not |
| `Incompressible.DistinctBytesDouble` | src/sensor.c:61-65 | eight or more distinct non-zero bytes are reported with twice their length |
| `Incompressible.RestlessGrows` | src/heatshrink_encoder.c:511-526 | a message of 1017 bytes that encodes to 1082 bytes and is reported with 1497 |
| `Incompressible.FifoMessageIsLost` | src/sensor.c:166-176 | a valid reading makes empty_fifo_fn encode that message, its slot gives back only the beginning, and its size exceeds the payload area |
| `Cbor.ReadIntOfInt` | src/msg_encode.c:28-36 | decoding inverts the shortest-form encoding of every 65-bit signed integer |
| `Cbor.WidthIsEncodedLength` | src/sensor.c:80-94 | the predicted width is the encoded length exactly between -2^32 and 2^32-1 |
| `Cbor.TimestampWidthIsEncodedLength` | src/sensor.c:97-114 | the predicted width is the encoded length for every 64-bit timestamp |
| `Formats.HeadIs` | src/msg_encode.c:23-68 | the bytes of every CBOR head: type in the upper three bits, the shortest of the five argument forms, most significant byte first |
| `MsgEncode.MsgRoundTrip` | src/msg_encode.c:48-68 | decoding inverts the encoding of every message |
| `Formats.MessageIs` | src/msg_encode.c:48-68 | every flushed message byte by byte: the outer list with its count, the four header numbers in their order, the samples |
| `Formats.SamplesAre` | src/msg_encode.c:23-46 | sample k stands behind the samples before it as a list of its three coordinates |
| `Zcbor.ZcborState.ListEnd` | src/msg_encode.c:53-58 | rewriting the dummy head for the real count moves the items up and keeps them |
| `Zcbor.EncodeRepeatedMsgXyz` | src/msg_encode.c:23-46 | appends one sample exactly when its coordinates fit 16 bits and there is room |
| `Zcbor.EncodeMsg` | src/msg_encode.c:48-68 | succeeds exactly for 1 to 256 samples in range with enough room, and then the bytes are the message's encoding |
| `Zcbor.CborEncodeMsg` | src/msg_encode.c:72-81 | the same into the caller's buffer, with the length |
| `Batching.HeaderSizeIsEncoded` | src/sensor.c:144 | the counted header is the encoded header with a two-byte outer head, 7 to 27 bytes |
| `Batching.FlushIsGood` | src/sensor.c:153-157 | at every flush the count is the encoded length, with 99 to 254 samples and 1015 to 1044 bytes |
| `Batching.AppendKeepsBusy` | src/sensor.c:190-195 | storing a sample keeps the count exact and at most 1024, and the write index at most 253 |
| `Batching.FlushedWhenTooLong` | src/sensor.c:153-195 | a sample makes the batch flush exactly when the encoded message with it would be longer than 1024 bytes; otherwise it joins the batch |
| `Batching.DrainWell` | src/sensor.c:141-201 | one call keeps every sample in order, flushes at most twice, says which header each message carries, and leaves the time of the call in the batch |
| `Batching.RunWell` | src/sensor.c:117-204 | over any run the count is exact between calls, every flush is good, and no sample is lost, added or reordered |
| `Batching.RunHeaders` | src/sensor.c:124-201 | over any run, the first message flushed by a call carries the climate values of that call and the time of the call before, zero for the first; a second one carries zeros, and there is no third |
| `Incompressible.TwoFlushesHappen` | src/sensor.c:153-182 | two readings in a row make the second call flush twice, the second time with a header of zeros |
| `Banks.StoreKeepsBanks` | src/sensor.c:178-187 | the current bank holds what was stored since the last swap in order, the other what was stored before it |
| `Banks.SharedBanks.Store` | src/sensor.c:178-187 | the next slot is filled, and the flag is raised exactly at a swap |
| `Banks.OtherBankKept` | src/networking.c:63-64 | without a swap the bank being sent does not change |
| `Banks.BanksAreSixties` | src/sensor.c:178-187 | the slots are cut into banks of sixty in order |
| `Sensor.FillSlot` | src/sensor.c:166-176 | the slot holds the compressed message with its reported size, or the plain one when the compressor finds no memory |
| `Sensor.HandOver` | src/sensor.c:157-187 | a message reaches the next slot unless the encoder reports a fault, and nothing else is stored |
| `Sensor.DeliveriesInOrder` | src/sensor.c:157-187 | each flushed message is the delivery with the number of those before it, unless the encoder reports a fault |
| `Sensor.SensorTask.AddSample` | src/sensor.c:151-195 | one pass of the loop is one step of the batching function, in place |
| `Sensor.SensorTask.FeedFifo` | src/sensor.c:147-196 | the loop over the FIFO feeds exactly its samples in order |
| `Sensor.SamplesAreTheFifo` | src/sensor.c:147-196 | reading by threes neither loses nor reorders a coordinate |
| `Sensor.MilliIs` | src/sensor.c:142-143 | the conversion gives the value in thousandths, cut off towards zero, and no other number meets this description |
| `Sensor.SensorTask.EmptyFifoFn` | src/sensor.c:117-204 | one call advances batch and deliveries as the batching function says, with at most two messages and one swap; the first message carries the climate values of the call in thousandths and the time of the call before; nothing happens when a read fails |
| `Sender.GetmsgCount` | src/networking.c:48-55 | the highest clear bit of the ten, or 255 |
| `Sender.HighestClearIs` | src/networking.c:48-55 | everything above that position has arrived and it has not |
| `Sender.RoundIsComplete` | src/networking.c:70-119 | a completed round has sent exactly the missing messages in ascending order, the last alone confirmable, and its token is awaited |
| `Sender.RunKeepsInv` | src/networking.c:57-153 | the round invariant holds after every step of every run |
| `Sender.DeliveryIsComplete` | src/networking.c:57-153 | truthful replies and all groups acknowledged mean that all sixty messages arrived, each attempted from its slot |
| `Sender.FailureBudget` | src/networking.c:82-116 | the device restarts exactly at the fourth failure; in every other state there have been at most three, and every message sent is the one in its slot |
| `Sender.AdvanceOnlyOnAck` | src/networking.c:57-153 | over every run the group is the number of full acknowledgements taken, each under the token of the last message of its round, and all is delivered exactly after six of them |
| `Sender.RunawayExactly` | src/networking.c:143-146 | a bitmap sends the loop astray exactly when its ten low bits are set and it is not 0x3ff |
| `Sender.SmallBitmapsAreSafe` | src/networking.c:137-146 | ten-bit bitmaps and the resend-all value never do, 0x7ff does |
| `Sender.RunawayHappens` | src/networking.c:137-146 | a run over a network that loses nothing goes astray on the reply 0x7ff |
| `Sender.ReplyExactly` | src/networking.c:257-309 | a datagram counts exactly when it parses, its two token bytes, low one first, are the number awaited and its code is 0x41 or 0x80; the value it stands for in each case |
| `Sender.SenderTask.ClientHandleGetResponse` | src/networking.c:257-309 | the reply is refused exactly when its token bytes or its code are wrong; otherwise the bitmap bytes become the value it stands for |
| `Rounds.RoundsFillTheGaps` | src/networking.c:57-153 | over every run, a completed round has sent, in ascending order, exactly the messages that the last reply which counted for the group leaves clear, all ten if there was none, with the highest of them alone confirmable |
| `Rounds.AttemptsFollowEvents` | src/networking.c:70-118 | what each event of a round does: the message of its turn is sent, with the outcome the event gives, or skipped, and the round moves on exactly when it was sent or skipped |
| `Rounds.RepliesDecide` | src/networking.c:119-152 | how each reply is answered: the next group, the same round again, a round of the gaps, or the end of the run |
| `Rounds.ArrivedIs` | src/networking.c:70-118 | a message has arrived exactly when one of its attempts was let arrive |
| `Rounds.HonestIs` | src/networking.c:119-151 | a run is honest exactly when each reply that counted reports only messages that have arrived |
| `Rounds.FailuresAre` | src/networking.c:82-116 | the failures are the attempts that did not succeed, by number |
| `Sender.SenderTask.SendRound` | src/networking.c:70-118 | the inner loop follows the state machine step by step, and the reconnect branch is dead |
| `Sender.SenderTask.TakeReply` | src/networking.c:119-151 | so does the part of the outer loop after it |
| `Sender.SenderTask.CoapSendFn` | src/networking.c:57-153 | for every network script the run is that of the state machine over the bank not being filled |
| `Pipeline.RunCalls` | src/sensor.c:117-204 | from start-up, after any calls, batch and slots are those of the run of the successful readings |
| `Pipeline.ReadingsInOrder` | src/sensor.c:124-143 | the readings of a run are its successful calls in order, each with the sensor values of its call |
| `Pipeline.NoSampleIsLost` | src/sensor.c:147-198 | without encoder faults, delivered samples followed by waiting ones are the samples read, in order |
| `Pipeline.SlotDecodes` | src/sensor.c:166-176 | which slots give the message back, and what is lost in the others |
| `Pipeline.SlotSizeFits` | src/sensor.c:166-176 | the size in a slot is within the payload area exactly when the second round does not get stuck, and always when the message shrank or was stored plain |
| `Pipeline.EndToEnd` | src/networking.c:57-153 | a bank sent with truthful replies until delivered arrives whole from its slots, and what the server reads from the slots, telling plain from packed by the first byte, is the exact stretch of the sensor samples, when its messages were stored plain or shrank |
| `Pipeline.SendWhileSampling` | src/sensor.c:183-187 | in every interleaving up to a swap, read from the live bank, the sender's run is that over the sixty payloads stored between the last two swaps, and batch and deliveries are those of the same calls without a sender |
| `Pipeline.ActionsInOrder` | src/sensor.c:183-187 | the calls and the network events of an interleaving are its actions in order |
| `Interleaving.SendersAreSafe` | src/sensor.c:178-187 | over every run of storing, starting to send and network steps: a sender not overtaken by a swap is in the state that the network events after its start produce over the bank complete at its start, as stored by the actions before |
| `Interleaving.MemoryIsStored` | src/sensor.c:178-187 | the memory holds exactly the slots that the actions have stored, whatever is sent meanwhile |
| `Interleaving.ActionsInOrder` | src/sensor.c:178-187 | those slots and events are the actions in order |

## Left out

- Compression.EncodeStream: window size 15 is excluded, because the 16-bit bound of the index loop then wraps to zero for a full buffer and the search reads index entries that were never written; `Matching.WindowFitsIndex` shows that exactly this size is affected.
- Compression.RunEncoder: window size 15 is excluded for the same reason.
- Compression.HeatshrinkCompression: inputs above 32767 bytes are excluded, because the doubled size then wraps in its 16 bits and the loop goes on with a wrong position; the firmware passes at most 1200.
- Compression.PollAll: inputs above 32767 bytes are excluded for the same reason.
- Sender.SenderTask.CoapSendFn: the model stops when a bitmap leaves nothing to resend, where the code goes on with positions up to 255 and tests bits beyond the width of an integer, which C leaves undefined; termination is not claimed, since a server can keep it going.
- Pipeline.EndToEnd: a message whose encoding is exactly as long as itself counts as not shrunk, because its stored size may exceed its length and a server that trusts it reads stale bytes.
- Zcbor.EncodeMsg: the zcbor library is not part of the repository; its appending, list heads and refusal for lack of room are modelled after RFC 8949, and other ways in which it may fail appear as an encoder fault chosen by the environment.
- Sensor.SensorTask.EmptyFifoFn: the products and sums that convert pressure and humidity to thousandths are required to fit 32 bits, as C leaves the overflow undefined.
- The result of a null encoder argument, and the null pointers for the returned counts; null data pointers are modelled.
- The configuration with static allocation, the loop detection and the logging of the encoder.
- `heatshrink_encoder_free` and the memory allocator; allocation only succeeds or fails.
- The sensor drivers under `ncsFiles`, sensor triggers, modem, DNS, DTLS and socket set-up.
- CoAP packet building and parsing: a datagram is a token, a code and a payload, or malformed.
- A reconnect inside `coap_send_fn`, which the code cannot reach.
- Preemption inside one call of `empty_fifo_fn` or one step of the sender: interleaving is by whole calls, stores and steps.
