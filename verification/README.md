# Verified models of nova-net

nova-net is a reliable-UDP stack: C code does the arithmetic and the ring buffers, Haskell code the
protocol.  The modules here model its hard parts in Dafny and prove what they are for.  C functions that
change state in place are methods and classes over arrays, each proved against a specification function;
Haskell functions are functions on immutable values.  `dafny verify dfyconfig.toml` checks everything.

## The parts

| files | what they model |
|---|---|
| `Bits`, `Wire` | unsigned words as bounded numbers, shifts and bitwise operators; little-endian bytes |
| `Poly1305Spec`, `Poly1305Limbs`, `Poly1305` | the authenticator on five 26-bit limbs, against arithmetic modulo 2^130 - 5 |
| `ChaCha20`, `Aead`, `Rfc8439` | the stream cipher, authenticated encryption in place, and what their definitions mean in the numbers of RFC 8439 |
| `SeqNum`, `AckBits`, `LossWindow`, `Popcount`, `SentBuffer`, `AckProcess` | sequence numbers, ack field, loss window, sent ring, and the walk of an ack over them |
| `PacketHeader`, `Reliability`, `AckMap`, `AckSoundness`, `NumberReuse`, `MappedUntilAcked` | the header, the endpoint, the packet-to-message map, and two endpoints over a network |
| `IntMap`, `Clock`, `Channel`, `OrderedDelivery`, `ChannelRuns`, `DeliverOnce`, `TimeoutOrder` | one channel in its five modes, alone and end to end |
| `Fragment`, `Reassembly` | splitting and bounded-memory reassembly |
| `ShiftRegister`, `Crc32c`, `Batch` | the checksum, over any kind of word and on 32 bits; message batches |
| `Priority`, `Aimd`, `Cwnd`, `Rtt`, `RateLimiter` | the replication scheduler, the AIMD rate controller, the congestion window, the round-trip estimator, the request limiter |

The main results are: the tag and the cipher are those of RFC 8439 on every input and decryption inverts
encryption (`Aead.OpenedSealed`, `Aead.RoundTrip`); acknowledged implies received
(`AckSoundness.AckedImpliesReceived`, `AckSoundness.NoExceptionIff`); ordered delivery is a prefix of what was sent
(`OrderedDelivery.DeliveredIsPrefix`), and complete when nothing overflows (`OrderedDelivery.ArrivedAreDelivered`); reassembly inverts splitting (`Reassembly.LastFragmentCompletes`);
the table CRC is the bit-serial one and detects every burst of 32 bits (`Crc32c.Software`,
`Crc32c.BurstAnywhereRejected`); no entity starves (`Priority.NoStarvation`); the rate controller is a token bucket
(`Aimd.TokenBucket`); and the limiter holds in every window (`RateLimiter.LimitsEveryWindow`).

## Where the code does less than one may expect

Each of these is stated as a lemma beside the property it limits.

- Packet 0 counts as received from the start, so the first packet is acknowledged whether it arrived or not
  (`AckSoundness.PacketZeroIsUnsound`): by every header that names packet 32 or an older one as its newest
  (`AckSoundness.ZeroTakenIff`).  A side is safe from it if and only if its packet 0 carries no reliable message
  (`AckSoundness.NoExceptionIff`).
- A packet without a reliable message can use a number that is still mapped to an older message, which was lost: nothing
  removes the entry, and the acknowledgement of the new packet is taken for the old message
  (`NumberReuse.BareTakesOver`).  `AckSoundness.NamedIsLast` and `AckSoundness.SendKeepsCurrentIff` say exactly when.
- An advance of exactly 64 clears the ack field, so its bit 63 can miss a received packet
  (`AckBits.UpdateAgrees` says exactly when).
- Numbers exactly 32768 apart compare by their raw values (`SeqNum.HalfwayIsRaw`, `SeqNum.RightIff`); every
  window below is therefore strictly smaller.
- A timeout flush can deliver a later message before an earlier one (`TimeoutOrder.LateAfterTimeout`); it
  keeps order if and only if it skips no waiting entry (`TimeoutOrder.TickKeepsOrderIff`, `TimeoutOrder.RisesForGoodIff`).
- After more than 2^15 messages a ReliableOrdered channel can deliver one twice, long before the sequence wraps: number 0
  counts as new again (`TimeoutOrder.Repeats`, `TimeoutOrder.AtMostOnceIff`).
- The sequenced modes never deliver message 0, the first one a sender sends (`DeliverOnce.SequencedRises`);
  every other newer message is delivered (`DeliverOnce.SequencedDelivers`).
- The duplicate filter of ReliableUnordered is never cleaned up: a cleanup takes out one number at most
  (`Channel.CleanupRemoves`).
- A batch read that fails on a length has consumed the length, and a later read can succeed
  (`Batch.FailureNotSticky`, `Batch.FailureFinalIff`).
- A loss reported before a fast retransmit is due carries the number 0, so the recovery it starts ends with almost any next
  ack (`Cwnd.NumberlessLoss`; `AckProcess.Process` says that the number is 0 then).

## How the hypotheses read

- `AckSoundness`: a packet may arrive while its index is less than 32768 from the newest received, and with an
  acknowledgement no older than 65504 packets.  Packet numbers may be used again while they are mapped; a side is
  `Careful` if it does so only for reliable messages, which replace the entry.
- `OrderedDelivery`: a message may arrive while its index is less than 32768 from the expected one; ticks
  happen while nothing has timed out.  Sequence numbers wrap freely.
- `DeliverOnce`, `TimeoutOrder`: sequence numbers stay below 2^15, which `TimeoutOrder.AtMostOnceIff` shows to be the
  exact bound for ReliableOrdered.
- `Reassembly`: only the fragments of the message bear its number, and its own buffer is neither evicted nor
  left to expire; `Reassembly.FittingMessageCompletes` says under which loads and ticks that is so.
- `RateLimiter`: time does not run backwards.  Time differences are subtractions of 64-bit words, and
  src/NovaNet/Types.hs:161-164 makes the order of the two times the duty of the caller, so this is no defect;
  `RateLimiter.RecentIff` and `RateLimiter.NothingForgottenIff` say that exactly this order is needed.
- `Rtt`: samples up to 2^60 ns (36 years).  `Aimd`: base rate at least 1, time steps not negative, and a
  packet is deducted only while the budget allows it.

## Model

| member | source | states |
|---|---|---|
| `Poly1305Limbs.ClampLimbs` | cbits/nn_crypto.c:152-175 | The five masked 26-bit limbs of the key hold `r` with exactly the bits cleared that section 2.5 of RFC 8439 clears |
| `Poly1305.Poly1305State.constructor` | cbits/nn_crypto.c:152-175 | A fresh state holds the clamped `r`, the pad `s` and the accumulator 0 |
| `Poly1305Limbs.Schoolbook` | cbits/nn_crypto.c:195-214 | The five column sums with the factor 5 folded in are congruent to the product modulo 2^130 - 5 |
| `Poly1305.Columns` | cbits/nn_crypto.c:195-214 | The 64-bit columns of a product of reachable limbs are congruent to the product and stay below 2^58, so no 64-bit product or sum wraps |
| `Poly1305.CarryAround` | cbits/nn_crypto.c:216-225 | The lazy carry keeps the residue and leaves limbs that the next block can take: h1 < 2^26 + 64, the others < 2^26 |
| `Poly1305.Poly1305State.Blocks` | cbits/nn_crypto.c:177-230 | For any number of whole blocks the limbs hold a number congruent to the accumulator of section 2.5 of RFC 8439 |
| `Poly1305Limbs.FinalCarry` | cbits/nn_crypto.c:245-251 | From every reachable state one partial carry chain leaves all limbs below 2^26 |
| `Poly1305Limbs.FinalSubtract` | cbits/nn_crypto.c:253-268 | Adding 5 and looking at the carry out of the top limb decides exactly whether the number is at least 2^130 - 5 |
| `Poly1305.SubtractP` | cbits/nn_crypto.c:253-268 | The masked select leaves the canonical residue, not just a congruent one |
| `Poly1305Limbs.Repack` | cbits/nn_crypto.c:270-284 | Packing the limbs with shifts and ORs loses nothing: the four words are the number modulo 2^128 |
| `Poly1305.Poly1305State.Finish` | cbits/nn_crypto.c:232-302 | The tag is the little-endian form of (accumulator mod 2^130 - 5) + s modulo 2^128, with a padded last block if bytes remain |
| `Poly1305Spec.AbsorbConcat` | cbits/nn_crypto.c:177-230 | Absorbing in several calls is absorbing once, when every call but the last brings whole blocks |
| `Rfc8439.MacIsPolynomial` | cbits/nn_crypto.c:177-302 | The tag is the polynomial of section 2.5 of RFC 8439, with the blocks as coefficients, at r modulo 2^130 - 5, plus s, modulo 2^128 |
| `Rfc8439.KeyHalves` | cbits/nn_crypto.c:152-175 | r is the first half of the key with exactly the bits cleared that section 2.5.1 lists byte by byte, s is the second half |
| `ChaCha20.RotateLeft` | cbits/nn_crypto.c:29 | The two shifts and the OR are the rotation |
| `ChaCha20.QuarterRoundInvertible` | cbits/nn_crypto.c:31-37 | The quarter round can be undone, so it loses no information |
| `ChaCha20.QuarterInPlace` | cbits/nn_crypto.c:31-37 | The statements on four array cells compute the quarter round of section 2.1 of RFC 8439 there and touch nothing else |
| `Rfc8439.QuarterRoundVector` | cbits/nn_crypto.c:31-37 | The quarter round gives the test vector of section 2.1.1 of RFC 8439 |
| `ChaCha20.RoundsInvertible` | cbits/nn_crypto.c:46-79 | The ten double rounds together, in the order columns, then diagonals, can be undone |
| `ChaCha20.RoundsOnto` | cbits/nn_crypto.c:46-79 | and every state is what some state becomes: they are a bijection |
| `Rfc8439.DoubleRoundIs` | cbits/nn_crypto.c:54-63 | A double round is the four columns and then the four diagonals, written out |
| `Rfc8439.QuartersInOrder` | cbits/nn_crypto.c:54-63 | Quarter rounds happen one after the other, from the front of that list |
| `Rfc8439.KeystreamUndone` | cbits/nn_crypto.c:46-79 | A keystream block, read as words, less its state and with ten double rounds over the list written out undone, is its state |
| `ChaCha20.Block` | cbits/nn_crypto.c:46-79 | The 64 bytes are the little-endian words of the rounds added to the input state |
| `ChaCha20.Setup` | cbits/nn_crypto.c:85-105 | The state is that of section 2.3 of RFC 8439: constants, key, counter, nonce |
| `Rfc8439.StateBytes` | cbits/nn_crypto.c:85-105 | As bytes, the state is the text expand 32-byte k, the key, the counter and the nonce |
| `ChaCha20.Crypt` | cbits/nn_crypto.c:111-137 | The chunked loop is a bytewise exclusive or with byte i mod 64 of block counter + i / 64, and changes no byte outside the range |
| `Rfc8439.CryptedByBlocks` | cbits/nn_crypto.c:111-137 | Byte j of block b is combined with byte j of the keystream block whose counter is b further, modulo 2^32 |
| `ChaCha20.CryptedTwice` | cbits/nn_crypto.c:111-137 | Encrypting twice with the same key, nonce and counter gives the data back |
| `Aead.OpenedSealed` | cbits/nn_crypto.c:326-457 | Opening what was sealed gives the same counter and the same plaintext, for every key, counter, protocol number and length |
| `Aead.SealedOpened` | cbits/nn_crypto.c:326-457 | The converse: whatever opens is exactly what sealing its plaintext under its counter gives |
| `Aead.NonceFields` | cbits/nn_crypto.c:317-324 | The first eight bytes of the nonce are the counter, the last four the protocol number |
| `Rfc8439.SealedLayout` | cbits/nn_crypto.c:326-391 | A sealed message is the counter, the ciphertext from block 1 on, and the tag under the first half of block 0 |
| `Rfc8439.MacInputLayout` | cbits/nn_crypto.c:347-384 | What is authenticated is the ciphertext, zeros up to a multiple of sixteen, the length zero and the length of the ciphertext |
| `Aead.BuildNonce` | cbits/nn_crypto.c:317-324 | The array holds the nonce: counter, then protocol number, little-endian |
| `Aead.ComputeTag` | cbits/nn_crypto.c:347-384 | The sequence of block calls computes the tag over the input of section 2.8 of RFC 8439 with empty additional data, under the key of block 0 |
| `Aead.Encrypt` | cbits/nn_crypto.c:326-391 | In place, the buffer becomes counter, ciphertext, tag, and the bytes after them stay |
| `Aead.SameTag` | cbits/nn_crypto.c:441-450 | The accumulated difference is zero exactly when all sixteen bytes agree |
| `Aead.Decrypt` | cbits/nn_crypto.c:393-457 | The result is that of opening; on a short message or a wrong tag the buffer is unchanged, otherwise only the ciphertext is replaced, by the plaintext |
| `Aead.RoundTrip` | cbits/nn_crypto.c:326-457 | Encrypting and then decrypting in the same buffer succeeds, reports the counter, and leaves the plaintext and everything behind the message as they were |
| `SeqNum.GtIsLater` | cbits/nn_seq.h:40-51 | Less than 32768 apart, `nn_seq_gt` and `nn_seq_diff` are the order and the difference of the unbounded indices |
| `SeqNum.HalfwayIsRaw` | cbits/nn_seq.h:40-51 | Exactly 32768 apart, the raw numbers decide |
| `SeqNum.RightIff` | cbits/nn_seq.h:40-51 | Less than 65536 apart, the comparison is right if and only if the indices are less than 32768 apart, or exactly so and the raw order agrees |
| `SeqNum.GtTotal` | cbits/nn_seq.h:40-51 | Of two different numbers exactly one is newer, and the signed distance is antisymmetric |
| `AckBits.AckState.Update` | cbits/nn_seq.c:96-114 | The C update of the two words is the same function as `ackUpdate` of Haskell |
| `AckBits.UpdateAgrees` | src/NovaNet/Reliability.hs:253-268 | One update keeps bits 0 to 62 exact and bit 63 sound, and bit 63 is exact afterwards in exactly the cases listed: an advance of exactly 64 is what loses it |
| `AckBits.RunAgrees` | src/NovaNet/Reliability.hs:253-268 | The same over every run of arrivals closer than 32768 to the newest |
| `AckBits.FreshRunAgrees` | src/NovaNet/Reliability.hs:119-131 | From a new endpoint, the field says which of the 63 indices before the newest arrived, packet 0 counting as received from the start |
| `LossWindow.LossWindow.Record` | cbits/nn_seq.c:131-146 | The bit set or cleared appends one sample to the history, whatever the index has wrapped to |
| `LossWindow.CountPlaces` | cbits/nn_seq.c:131-146 | The window holds a rotation of the last min(n, 256) samples, so it has as many losses as they have |
| `LossWindow.LossWindow.Percent` | cbits/nn_seq.c:162-183 | The result is the fraction of losses among the last min(n, 256) samples |
| `Popcount.Popcount64` | cbits/nn_seq.c:149-160 | The four arithmetic steps count the one bits of every 64-bit word |
| `Popcount.StageOne` | cbits/nn_seq.c:155 | After the first step each pair of bits holds its own count |
| `SentBuffer.SentBuf.Insert` | cbits/nn_seq.c:32-48 | The ring refines a map from sequence numbers to records: an insertion replaces whatever holds the slot, and the result tells whether another packet was evicted |
| `SentBuffer.InsertedLookup` | cbits/nn_seq.c:32-57 | A packet just inserted is found, and any other as before unless it had the same slot |
| `SentBuffer.SentBuf.Lookup` | cbits/nn_seq.c:50-57 | Lookup is lookup in that map |
| `SentBuffer.SentBuf.Delete` | cbits/nn_seq.c:68-78 | Deletion removes that number and no other, and says whether it was there |
| `SentBuffer.SentBuf.BumpNack` | cbits/nn_ack_process.c:41-43 | The nack counter of one record grows by one modulo 256 |
| `SentBuffer.InsertedSize` | cbits/nn_seq.c:32-48 | The count grows by one exactly when nothing was evicted or replaced |
| `AckProcess.Process` | cbits/nn_ack_process.c:8-53 | Exactly the tracked acked packets leave the ring, exactly the tracked packets with a clear bit get one more nack; counts, bytes, loss samples, round-trip sample and the oldest fast-retransmit number are those of the packets before the call |
| `AckProcess.NextBit` | cbits/nn_ack_process.c:26-52 | The 33 numbers a header names are different, so no bit disturbs another |
| `AckProcess.TalliesAre` | cbits/nn_ack_process.c:26-52 | The counts are the numbers of tracked packets that the header names as received and as missing |
| `AckProcess.SamplesAre` | cbits/nn_ack_process.c:18-44 | Each of them gives one loss sample, true for the missing ones |
| `AckProcess.BytesConserved` | cbits/nn_ack_process.c:18-35 | Bytes tracked before = bytes acknowledged + bytes tracked after |
| `AckProcess.FastFromThird` | cbits/nn_ack_process.c:41-48 | A fast retransmit is due with the third nack, and with each later one until the counter wraps |
| `AckProcess.RunConserves` | cbits/nn_ack_process.c:8-53 | Over any run, packets inserted = acked + written over + still tracked |
| `PacketHeader.Write` | cbits/nn_packet.c:10-32 | The nine bytes written are the encoding |
| `PacketHeader.Read` | cbits/nn_packet.c:34-74 | Reading is decoding, and rejects short buffers and unknown types |
| `PacketHeader.EncodeIsPacked` | cbits/nn_packet.c:10-32 | The nine bytes, as one number, are the fields packed side by side in 68 bits |
| `PacketHeader.DecodeEncode` | cbits/nn_packet.c:10-74 | Decoding inverts encoding, whatever follows the header |
| `PacketHeader.DecodeFailsIff` | cbits/nn_packet.c:34-74 | A header is rejected exactly if it is shorter than nine bytes or its type is above 7 |
| `PacketHeader.EncodeDecode` | cbits/nn_packet.c:10-74 | Encoding a decoded header gives the same bytes, up to the four unused bits |
| `Reliability.RecvBuf.Insert` | cbits/nn_seq.h:76-82 | The ring of received numbers refines a table by slot, and `highest` follows the circular order |
| `Reliability.InsertedExists` | cbits/nn_seq.h:70-82 | After an insertion a number is found exactly if it is the new one, or was found before and has another slot |
| `Reliability.ReliableEndpoint.Receive` | src/NovaNet/Reliability.hs:177-193 | A packet is accepted exactly if it is within the distance limit and not known; otherwise nothing changes |
| `Reliability.NotAcceptedTwice` | src/NovaNet/Reliability.hs:177-193 | An accepted number is not accepted again until another number takes its slot, whatever arrives |
| `Reliability.NewIsAcceptedIff` | src/NovaNet/Reliability.hs:177-193 | After any arrivals, a number that has not arrived is accepted exactly if it is within the distance limit |
| `Reliability.WireBits` | src/NovaNet/Reliability.hs:242-245 | The 32 bits on the wire are the low 32 of the 64 |
| `AckMap.ResolvedExactly` | src/NovaNet/Connection.hs:370-393 | Exactly the mapped packets that a header names are resolved, and exactly they leave the map |
| `AckMap.ResolvedInOrder` | src/NovaNet/Connection.hs:370-393 | Each named mapped packet yields its message once, the newest packet first |
| `AckSoundness.AckedImpliesReceived` | src/NovaNet/Connection.hs:400-439 | In every run of two connections over a network that loses, duplicates and reorders, for a side that puts no packet without a reliable message under a number still mapped: each mapped number that a delivered header names stands for the last packet sent under it; that packet carried the mapped message, and the other side accepted it, unless it is packet 0 |
| `AckSoundness.MessagesAreSound` | src/NovaNet/Connection.hs:370-393 | So each message that becomes acknowledged was carried by such a packet, whose number the header names |
| `AckSoundness.NamedIff` | src/NovaNet/Connection.hs:370-393 | A header names a mapped number exactly if the last packet sent under it is in the history the header was made from, at most 32 before the newest |
| `AckSoundness.NamedIsLast` | src/NovaNet/Connection.hs:370-393 | With no such care, in every run: the last packet sent under a named number was accepted or is packet 0, and the header acknowledges the packet that carried the mapped message if and only if nothing was sent under its number since |
| `AckSoundness.SendKeepsCurrentIff` | src/NovaNet/Connection.hs:497-500 | A send keeps every mapped number standing for its last packet if and only if it carries a reliable message or its number is not mapped |
| `NumberReuse.BareTakesOver` | src/NovaNet/Connection.hs:671-680 | Care is needed: a run in which packet 1 is lost, a packet without a message uses number 1 again 65536 packets later, and its acknowledgement is taken for the message of packet 1, which was never received |
| `AckSoundness.PacketZeroIsUnsound` | src/NovaNet/Reliability.hs:119-131 | The exception is real: a message in packet 0 is acknowledged by the first packet of the other side, which has received nothing |
| `AckSoundness.ZeroTakenIff` | src/NovaNet/Reliability.hs:119-131 | In every run, while number 0 is mapped to packet 0, a header that passes the filter acknowledges it exactly if the newest packet it acknowledges is at most 32, received or not |
| `AckSoundness.NoExceptionIff` | src/NovaNet/Reliability.hs:119-131 | Over all such runs that begin with packet 0 of one side, each acknowledgement that side takes is of an accepted packet if and only if packet 0 carries no reliable message |
| `AckSoundness.SoundWithoutZero` | src/NovaNet/Connection.hs:400-439 | In every such run, whoever sends first, a side whose packet 0 carried no message takes acknowledgements of accepted packets only |
| `AckSoundness.TakeKeeps` | src/NovaNet/Connection.hs:400-439 | Every step of either side keeps the agreement of ack field, header bytes, ack map and packets on the way |
| `MappedUntilAcked.KeptIff` | src/NovaNet/Connection.hs:671-683 | After a packet a number is still mapped to its message exactly if the packet was filtered out, or does not name it and either at most 256 numbers are left or it is at most 128 behind the acknowledgement |
| `MappedUntilAcked.MappedUntilReleased` | src/NovaNet/Connection.hs:400-439 | Over every run a number leaves the map only through a header that names it, a reliable packet that takes it over, or such a pruning |
| `Channel.EvictedIsOldest` | src/NovaNet/Channel.hs:437-451 | A full buffer loses exactly the entry with the oldest send time, and the least key among equals |
| `Channel.SentIsStored` | src/NovaNet/Channel.hs:167-204 | A reliable send stores the message under its own number beside old entries, within the buffer limit |
| `Channel.SentIff` | src/NovaNet/Channel.hs:167-204 | A message is rejected exactly if it is too large, or reliable with a full buffer that blocks; otherwise it goes out under the next number, marked reliable exactly in the reliable modes |
| `Channel.AcknowledgedIff` | src/NovaNet/Channel.hs:318-321 | Exactly the acknowledged number leaves the buffer |
| `ChannelRuns.NotSentAgain` | src/NovaNet/Channel.hs:318-367 | Over every run, an acknowledged number is not sent again before a new message is sent under it |
| `Channel.RetransmitExactly` | src/NovaNet/Channel.hs:326-367 | A pass resends exactly the expired entries with retries left and removes exactly the expired ones without; buffer and counters account for both |
| `Channel.ExpiredIff` | src/NovaNet/Channel.hs:326-367 | An entry expires when more than the timeout has passed since it was sent last |
| `Channel.ResentWaits` | src/NovaNet/Channel.hs:326-367 | A message just sent again is neither sent again nor given up before the timeout has passed once more |
| `Channel.RetransmitsCopies` | src/NovaNet/Channel.hs:326-367 | Every message of a pass is a copy of a buffered one under its own number |
| `OrderedDelivery.DeliveredIsPrefix` | src/NovaNet/Channel.hs:272-312 | Sender, retransmitter, lossy network and receiver: in every run without a timeout flush whose arrivals are closer than 32768 to the expected message, the delivered list is a prefix of the accepted payloads, and nothing whose turn has come waits |
| `OrderedDelivery.FlushKeeps` | src/NovaNet/Channel.hs:299-312 | Flushing delivers messages in their order and leaves only later ones, across wraparound |
| `OrderedDelivery.ArriveKeeps` | src/NovaNet/Channel.hs:272-297 | So does every arrival inside the window, duplicate, early or due |
| `OrderedDelivery.ArrivedAreDelivered` | src/NovaNet/Channel.hs:272-312 | The converse of the prefix: when no early message is turned away for lack of room, once the first k messages have arrived in any order they are delivered |
| `OrderedDelivery.ArrivalIsSafe` | src/NovaNet/Channel.hs:272-297 | An arrival that finds room is delivered if due and buffered if early, and loses nothing |
| `ChannelRuns.EveryRunAccounts` | src/NovaNet/Channel.hs:167-367 | In every mode and every run with timeouts: delivered + buffered + dropped on arrival = arrived; messages sent and resent are counted; the buffers keep their limits, and no entry is resent more often than allowed |
| `ChannelRuns.FlushMoves` | src/NovaNet/Channel.hs:299-312 | A flush moves entries from the buffer to the queue one for one and changes nothing else |
| `DeliverOnce.AtMostOnce` | src/NovaNet/Channel.hs:375-428 | Below 2^15, every mode but Unreliable delivers each number at most once, even when timeouts skip ahead |
| `DeliverOnce.SequencedRises` | src/NovaNet/Channel.hs:248-257 | In the sequenced modes the delivered numbers rise, and number 0, the first a sender uses, is never delivered |
| `DeliverOnce.SequencedDelivers` | src/NovaNet/Channel.hs:248-257 | Number 0 is the only failure: after every run below 2^15 an arrival is delivered if and only if it is newer than everything delivered and is not number 0 |
| `DeliverOnce.UnorderedDelivers` | src/NovaNet/Channel.hs:259-270 | In ReliableUnordered, after every run below 2^15, an arrival is delivered if and only if its number has not been delivered before |
| `DeliverOnce.UnreliableDelivers` | src/NovaNet/Channel.hs:239-246 | In Unreliable everything that arrives is delivered, in the order of arrival |
| `Channel.CleanupRemoves` | src/NovaNet/Channel.hs:415-432 | The cleanup of the duplicate filter takes out the number exactly half the space away and no other, and only from a set larger than 512 |
| `TimeoutOrder.TickKeepsOrderIff` | src/NovaNet/Channel.hs:380-413 | A tick keeps order if and only if no waiting entry below one that times out is left behind |
| `TimeoutOrder.Repeats` | src/NovaNet/Channel.hs:272-413 | After more than 2^15 messages in order, a copy of message 0 is buffered, and delivered again by the timeout; the clock does not run backwards |
| `TimeoutOrder.AtMostOnceIff` | src/NovaNet/Channel.hs:272-413 | All runs with numbers below n and a clock that does not run backwards deliver each number at most once if and only if n <= 2^15 |
| `TimeoutOrder.RisesUnlessSkipped` | src/NovaNet/Channel.hs:380-413 | Over every run in which no tick skips an entry the delivered numbers rise |
| `TimeoutOrder.RisesForGoodIff` | src/NovaNet/Channel.hs:380-413 | After any such run a further tick keeps deliveries rising, at whatever time the next tick comes, if and only if it skips no waiting entry |
| `TimeoutOrder.LateAfterTimeout` | src/NovaNet/Channel.hs:380-413 | A run of two arrivals and two ticks that delivers message 2 before message 1 |
| `Fragment.HeaderLayout` | src/NovaNet/Fragment.hs:292-303 | A header is the message number in four bytes, the lowest first, then the index, then the count |
| `Fragment.DecodeEncode` | src/NovaNet/Fragment.hs:292-313 | The six-byte header is read back, whatever data follows |
| `Reassembly.SplitFailsIff` | src/NovaNet/Fragment.hs:104-125 | Splitting fails exactly for a size that is not positive or too small for 255 fragments |
| `Reassembly.SplitIs` | src/NovaNet/Fragment.hs:104-125 | A split is the list of the fragments the theorems below feed to the assembler |
| `Reassembly.JoinAll` | src/NovaNet/Fragment.hs:200-215 | The pieces joined in index order are the payload |
| `Reassembly.OutputIs` | src/NovaNet/Fragment.hs:136-215 | In every run that neither evicts the buffer of the message nor lets it expire, a fragment yields the payload exactly when it is the last one missing, and nothing otherwise |
| `Reassembly.LastFragmentCompletes` | src/NovaNet/Fragment.hs:136-215 | After any order, repetition and interleaving of all fragments but one, that one gives back the payload, if the buffer of this message was left alone |
| `Reassembly.FitsUndisturbed` | src/NovaNet/Fragment.hs:218-262 | It is left alone if what is in flight fits into memory and no tick comes a timeout after one of its fragments |
| `Reassembly.LoadFits` | src/NovaNet/Fragment.hs:241-262 | What is in flight fits if everything that arrives fits together |
| `Reassembly.FittingMessageCompletes` | src/NovaNet/Fragment.hs:136-262 | So under these two conditions, which do not speak of evictions, the last fragment gives back the payload |
| `Fragment.EvictsOldest` | src/NovaNet/Fragment.hs:241-262 | An eviction happens exactly over the limit and takes an oldest buffer, the least key among equals |
| `Fragment.EvictKeeps` | src/NovaNet/Fragment.hs:241-262 | Eviction ends within the limit, and counts what it removes |
| `Fragment.UpdateLeaves` | src/NovaNet/Fragment.hs:223-237 | A tick leaves exactly the buffers younger than the timeout |
| `Fragment.NextKeeps` | src/NovaNet/Fragment.hs:136-234 | Every step keeps the memory account, its bound and the count of buffers |
| `Fragment.EveryRunAccounts` | src/NovaNet/Fragment.hs:136-262 | In every run on any input: memory in use = total length of the stored fragments <= limit, and buffers created = completed + timed out or evicted + pending |
| `Crc32c.ShiftInjective` | cbits/nn_crc32c.c:31-39 | The generator step loses no state |
| `Crc32c.ShiftOnto` | cbits/nn_crc32c.c:31-39 | and reaches every state: it is a bijection |
| `Crc32c.TableIsGenerated` | cbits/nn_crc32c.c:44-109 | All 256 constants are what the generator makes of their index |
| `Crc32c.TableStepIsSerial` | cbits/nn_crc32c.c:116 | One table step is the bit-serial register after the eight bits of the byte |
| `Crc32c.Software` | cbits/nn_crc32c.c:111-119 | The loop computes the bit-serial register for every buffer and start value |
| `Crc32c.CheckValue` | cbits/nn_crc32c.c:111-119 | The checksum of the ASCII digits 1 to 9 is the check value of CRC-32C, E3069283 |
| `Crc32c.Append` | cbits/nn_crc32c.c:201-207 | The checksum follows the data, which is unchanged |
| `Crc32c.Validate` | cbits/nn_crc32c.c:209-224 | The result is the payload length if the last four bytes are the checksum of the others, and 0 otherwise; it is positive exactly for a valid message with a payload that is not empty |
| `Crc32c.AppendedIsValid` | cbits/nn_crc32c.c:201-224 | What was appended validates |
| `Crc32c.BurstRejected` | cbits/nn_crc32c.c:201-224 | Any change of the payload within 32 consecutive bits is detected |
| `Crc32c.ValidIff` | cbits/nn_crc32c.c:209-224 | A message with its checksum validates exactly if it leaves one fixed residue in the register, whatever the message |
| `Crc32c.BurstAnywhereRejected` | cbits/nn_crc32c.c:201-224 | Any change of a valid message within 32 consecutive bits is detected, in the payload, in the checksum, or across the boundary |
| `ShiftRegister.BurstBack` | cbits/nn_crc32c.c:31-39 | Registers that agree after up to 32 bits differed before by exactly the bits in which the messages differ |
| `ShiftRegister.FeedByTable` | cbits/nn_crc32c.c:116 | Why a table works: the low part can be shifted apart from the high part |
| `Batch.Writer.Add` | cbits/nn_batch.c:22-44 | A message is added exactly if count, length and room allow; otherwise nothing changes |
| `Batch.Writer.Finish` | cbits/nn_batch.c:46-54 | The bytes are the count and the messages with their lengths; an empty batch has size 0 |
| `Batch.Reader.NextMessage` | cbits/nn_batch.c:75-96 | The reader follows the reading function on any buffer and looks at no byte past its length |
| `Batch.ReadsInside` | cbits/nn_batch.c:75-96 | From any buffer, a message lies inside it and after everything read before, and there are never more than announced |
| `Batch.FailureFinalIff` | cbits/nn_batch.c:75-96 | A failed read is final exactly at the end of the batch |
| `Batch.FailureNotSticky` | cbits/nn_batch.c:84-89 | A buffer on which a read succeeds after one failed |
| `Batch.ReadsWhatWasWritten` | cbits/nn_batch.c:13-96 | A reader of a finished batch reads exactly the messages added |
| `Priority.SelectFits` | src/NovaNet/Replication/Priority.hs:126-137 | What is selected and what is left add up to the budget, which is never overdrawn |
| `Priority.SelectGreedy` | src/NovaNet/Replication/Priority.hs:126-137 | Every entity in its turn is selected if and only if it fits in what those selected before it leave |
| `Priority.DrainUsesBudget` | src/NovaNet/Replication/Priority.hs:107-137 | For sizes that are not negative, every entity not selected is larger than what is left of the budget |
| `Priority.FirstIsHighest` | src/NovaNet/Replication/Priority.hs:113-117 | The stable sort puts an entity of highest priority first |
| `Priority.SortRanked` | src/NovaNet/Replication/Priority.hs:113-117 | The list is sorted by priority, ties by key, and holds every entity once |
| `Priority.AccumulateIs` | src/NovaNet/Replication/Priority.hs:85-90 | Priority grows by the base rate per unit of time, and times add up |
| `Priority.DrainFits` | src/NovaNet/Replication/Priority.hs:107-123 | The selected entities fit the budget together, and exactly they restart from zero |
| `Priority.NoStarvation` | src/NovaNet/Replication/Priority.hs:85-137 | Every entity of rate b is selected within floor(n * bMax / b) + 1 + n rounds, whatever the others start with |
| `Aimd.Controller.DoTick` | cbits/nn_congestion.c:35-96 | The statements compute the tick function |
| `Aimd.Controller.DoDeduct` | cbits/nn_congestion.h:126-134 | A packet costs one token and nothing else changes; if the budget allowed it, the bounds of the controller still hold |
| `Aimd.TickKeeps` | cbits/nn_congestion.c:35-96 | 1 <= rate <= 4 * base, 0 <= budget <= rate, recovery time between 1 s and 60 s |
| `Aimd.BadStays` | cbits/nn_congestion.c:45-90 | Entering Bad halves the rate down to 1; Bad lasts for the recovery time at a constant rate; no rate grows faster than one per second |
| `Aimd.StartsGood` | cbits/nn_congestion.c:11-24 | A controller starts in Good, at the base rate, with nothing to spend |
| `Aimd.ModeIff` | cbits/nn_congestion.c:39-90 | Good ends exactly if the loss alone or the round trip alone is over its threshold; Bad ends exactly if both are well and the recovery time is over |
| `Aimd.RecoveryTimeIs` | cbits/nn_congestion.c:50-82 | The recovery time doubles exactly when Bad comes back within 5 s and halves exactly after 10 s of Good, between 1 s and 60 s |
| `Aimd.RateAndBudget` | cbits/nn_congestion.c:65-96 | In Good the rate rises by one per second up to four times the base; the budget fills at the rate, up to one second of it |
| `Aimd.RecoversIff` | cbits/nn_congestion.c:84-92 | Over every calm run from Bad, the controller is in Good at the end if and only if a tick came after the recovery time |
| `Aimd.TokenBucket` | cbits/nn_congestion.h:126-134 | Over any run packets sent <= sum of rate * time; over any later stretch <= that sum plus the starting rate |
| `Cwnd.Window.DoAck` | cbits/nn_congestion.c:116-137 | The statements compute the acknowledgement step |
| `Cwnd.Window.DoLoss` | cbits/nn_congestion.c:139-156 | The statements compute the loss step |
| `Cwnd.Window.DoAckSeq` | cbits/nn_congestion.c:158-172 | The statements compute the in-flight step and the exit from recovery |
| `Cwnd.NextKeeps` | cbits/nn_congestion.c:116-195 | The window keeps two segments; only entering recovery, which halves it, or an idle restart can make it smaller; in recovery it is frozen |
| `Cwnd.OneCutPerRecovery` | cbits/nn_congestion.c:116-195 | Over any run the window gets smaller at most once more often than recovery is left, idle restarts apart, however many losses are reported |
| `Cwnd.FallEnters` | cbits/nn_congestion.c:116-195 | Where it gets smaller, recovery begins and at least half of it stays |
| `Cwnd.GrowsByAcked` | cbits/nn_congestion.c:116-195 | Over any run, with losses and restarts, it exceeds the initial window by no more than the bytes acknowledged |
| `Cwnd.SlowStartGrowth` | cbits/nn_congestion.c:116-137 | Over a stretch of slow start it grows by exactly the bytes acknowledged |
| `Cwnd.AvoidanceGrowth` | cbits/nn_congestion.c:116-137 | Over a stretch of avoidance it grows by at most mss * acked / window at the start, and at least mss * acked / window at the end |
| `Cwnd.SlowStartEnds` | cbits/nn_congestion.c:121-126 | Slow start ends exactly with the ack that takes the window to the threshold |
| `Cwnd.IdleIff` | cbits/nn_congestion.c:184-195 | An idle restart happens exactly after two timeouts without a send or a loss, with ten segments |
| `Cwnd.InFlightIs` | cbits/nn_congestion.c:158-165 | Over every run in which acks are of bytes in flight, bytes in flight = sent - acknowledged |
| `Cwnd.RecoveryEnds` | cbits/nn_congestion.c:158-172 | Recovery ends exactly with the ack of a packet sent after the one named at its start, less than 32768 apart |
| `Cwnd.NumberlessLoss` | src/NovaNet/Connection.hs:424-426 | Reported with number 0, as the caller does before a fast retransmit is due, recovery ends with the first ack numbered 1 to 32768 |
| `Cwnd.SendFits` | cbits/nn_congestion.h:159-170 | A send is allowed exactly if it leaves no more in flight than the window |
| `Rtt.Estimator.Update` | cbits/nn_rtt.c:32-71 | The statements compute the update in 64-bit arithmetic |
| `Rtt.NoOverflow` | cbits/nn_rtt.c:32-71 | For samples up to 2^60 ns nothing wraps: the update is the one of section 2 of RFC 6298 in exact integers |
| `Rtt.EveryRunWithin` | cbits/nn_rtt.c:32-71 | Over any samples in [m, M]: SRTT in [m, M], RTTVAR in [0, M], RTO in its clamp |
| `Rtt.EstimateIs` | cbits/nn_rtt.c:43-60 | The first sample counts whole with half of it as variation; later ones count an eighth, and their distance a quarter; an unset estimator has a timeout of 2 s |
| `Rtt.TimeoutIs` | cbits/nn_rtt.c:62-71 | The timeout is the estimate plus four times its variation, or plus 1 ms if that is more, between 50 ms and 2 s |
| `Rtt.SamplesCounted` | cbits/nn_rtt.c:32-45 | Negative samples are ignored, the others counted modulo 2^32 |
| `Rtt.Closer` | cbits/nn_rtt.c:58-60 | Towards a constant sample the estimate moves strictly closer without passing it until both have the same quotient by 8 |
| `Rtt.Converges` | cbits/nn_rtt.c:58-60 | and it gets there, to less than 8 ns, within as many samples as the first distance |
| `RateLimiter.FilterTwice` | src/NovaNet/Security.hs:131-132 | What was pruned once would be pruned at any later time |
| `RateLimiter.NextDecides` | src/NovaNet/Security.hs:110-144 | With pruning and cleanup, each decision is that of a limiter over the whole history |
| `RateLimiter.AllowsIff` | src/NovaNet/Security.hs:110-144 | After every run a request is allowed if and only if fewer than the maximum were allowed for its source in the last 999 999 999 ns |
| `RateLimiter.CleanupForgets` | src/NovaNet/Security.hs:134-144 | Five seconds after the last cleanup, only sources with a request in the last second stay |
| `RateLimiter.LimitsEveryWindow` | src/NovaNet/Security.hs:110-144 | Over every run, no window shorter than a second holds more than the maximum of allowed requests of a source |
| `RateLimiter.RecentIff` | src/NovaNet/Types.hs:161-164 | Of two times less than a second apart, the test for recent requests is right exactly if they come in order |
| `RateLimiter.NothingForgottenIff` | src/NovaNet/Security.hs:131-132 | Of requests less than a second away, none is forgotten if and only if none is later than now |
| `RateLimiter.BackwardForgets` | src/NovaNet/Types.hs:161-164 | So the order of time is needed: without it the limit fails |

## Left out

- Secure wiping and constant-time behaviour: not a property of results.
- The cast of the length returned by encryption to `int`: the model returns the length itself.
- `size_t` sums in the batch and checksum code that would wrap near the top of the address space: lengths are unbounded numbers.
- Hardware checksum instructions: only the software path is modelled; the compiler's own bit count stands beside the portable one that is modelled.
- Statistics counters of channels, assembler and limiter are unbounded; in the source they are 64-bit words.
- Floating-point rounding: rates, budgets, priorities and the loss ratio are reals, and the timeouts configured in milliseconds enter as nanoseconds.
- Sockets, threads, foreign-function shims, random numbers and the simulated network: not part of this model.
- Congestion and bandwidth calls inside `processIncomingHeader`: they do not affect what is acknowledged; the controllers have modules of their own.
- The pacing interval of the congestion window, and its cast to a 32-bit integer: the window is compared as a number.
- Fragments inside channels: the channel theorems are about whole messages, the fragment theorems about the assembler alone.
- Connection requests, tokens, handshake, migration, delta encoding, interest management and interpolation: not part of this model.
- Delivery liveness: a message dropped from a full ordered buffer is still acknowledged at packet level, so only safety holds.
- Duplicate detection of ReliableUnordered over wraparound: its cleanup measures from a number that mode never advances; `DeliverOnce.AtMostOnce` covers numbers below 2^15.
- Reliability.ReliableEndpoint.Receive: models the duplicate filter and the ack state; the sent ring, loss window and round-trip estimator that the same record holds are modelled in modules of their own.
- Batch.Reader.Init: the null result stands for the error code -1.
- Priority.NoStarvation: `applyModifier` and registration during the rounds are not steps of the run, because the rates are fixed in the claim.
