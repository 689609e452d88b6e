# LZMA reference decoder, modelled in Dafny

This project models LzmaSpec.js, the JavaScript port of the LZMA reference
decoder (LzmaSpec.c by Igor Pavlov). It proves properties of that model. The modelled parts are:

- The range decoder: `init`, `decodeBit`, `decodeDirectBits` and `isFinishedOK`.
- The forward and reverse bit-tree decoders and the length decoder.
- The circular output window: `putByte`, `getByte`, `flush`, `copyMatch`, `checkDistance` and `isEmpty`.
- The 12-state packet-kind machine.
- `decodeProperties`, `decodeLiteral` and `decodeDistance`.
- The main loop `decode`, and `decodeLzma`, which reads the 13-byte header, runs the loop and interprets its result code.

Every stateful JavaScript object is an immutable datatype, and every method is a function that returns the new value.
A thrown `Error` becomes `Err` of a `Result`.
Numbers that the source forces into 32 bits (`| 0`, `<<`, `>>>`) are kept as their 32-bit pattern.
`Base.Signed` recovers the int32 value where the source compares signed.
The input stream is the sequence of bytes not yet read.
The output stream is an append-only byte sequence.
The main loop is `Decoder.Decode`. It terminates without a fuel bound, because every continuing pass either consumes an input byte or narrows the range.

The central results are:

- `Lzma.DecodeLzma`: the bytes returned are the LZ77 expansion (`Decoder.Expand`) of the packets the loop decoded. Their number is the declared size, and when no size is declared the stream ended with the end marker.
- `Decoder.Decode`: the state after a run is the state machine replayed over the packet kinds, and the distance list is the move-to-front list replayed over the packets. The size counter shrinks by exactly what was written.
- `MatchCopy.ChunkedIsSequential`: the chunked `copyMatch` equals `len` sequential `putByte(getByte(dist))` calls. `Window.CopyMatchIsSeqCopy` shows that this appends the LZ77 self-referencing copy.

Modules follow the source: `Base`, `RangeCoder`, `BitTree`, `LengthDecoder`, `LzmaState`, `Header`, `Window`, `MatchCopy`, `Literal`, `Distance`, `Decoder`, `SignedDistance` and `Lzma`.

## Model

| member | source | states |
|---|---|---|
| RangeCoder.ReadByte | LzmaSpec.js:22-27 | reading succeeds exactly when a byte is left; the byte and the rest make up the input |
| RangeCoder.NewProbs | LzmaSpec.js:129-137 | every probability starts at PROB_INIT_VAL = 1024 |
| RangeCoder.Init | LzmaSpec.js:148-163 | needs five bytes; the code is bytes 1..4 big-endian and the range is 0xFFFFFFFF; corrupted exactly when byte 0 is nonzero or the code equals the range; otherwise the coder is sound (code < range) |
| RangeCoder.IsFinishedOK | LzmaSpec.js:164-166 | true only on a zero code; from such a code every further bit decodes as 0, whatever its probability |
| RangeCoder.Normalize | LzmaSpec.js:209-212 | below 2^24 the range is multiplied by 256 and one byte is consumed; the end of input is the end-of-file error; code < range is kept |
| RangeCoder.Bound | LzmaSpec.js:195 | the split point lies inside the range and, for probabilities in [31, 2017], leaves both halves nonempty |
| RangeCoder.UpdateProb | LzmaSpec.js:199-206 | a 0 bit raises the probability and a 1 bit lowers it; the value stays in (0, 2048) and in [31, 2017] once there, so `& 0xFFFF` never changes it |
| RangeCoder.DecodeBit | LzmaSpec.js:192-219 | the bit is 0 exactly when code < bound; only the probability at `index` changes; at most one byte is consumed, exactly when the range fell below 2^24; the coder makes progress; soundness is kept |
| RangeCoder.DirectBit | LzmaSpec.js:171-185 | the bit is 1 exactly when code >= range/2; progress; the corrupted flag stays set; code < range is kept unless the coder flags corruption |
| RangeCoder.HalveCode | LzmaSpec.js:172-174 | the sign trick `t = code >> 31` subtracts half the range exactly when the code reaches it |
| RangeCoder.DirectBitsFrom | LzmaSpec.js:167-191 | with `res` bits already read, n more bits give a value in [res·2^n, (res+1)·2^n) and the coder progresses |
| RangeCoder.DecodeDirectBits | LzmaSpec.js:167-191 | numBits direct bits form a value below 2^numBits |
| RangeCoder.ProgressChain | LzmaSpec.js:192-219 | progress of the range decoder composes (this is the loop's termination measure) |
| BitTree.Decode | LzmaSpec.js:237-243 | the value is below 2^numBits; only nodes 1..2^numBits-1 adapt; numBits > 0 bits make progress |
| BitTree.DecodeMsbFirst | LzmaSpec.js:237-243 | the first bit decoded, at node 1, is the most significant bit of the value |
| BitTree.Walk | LzmaSpec.js:238-241 | from node m at level k, the final node lies in [2^numBits, 2^(numBits+1)) and keeps m as its leading bits: later bits are appended below it, most significant first |
| BitTree.ReverseDecode | LzmaSpec.js:221-230 | the reversed value is below 2^numBits; only the tree at `offset + 1 ..` adapts |
| BitTree.ReverseDecodeLsbFirst | LzmaSpec.js:221-230 | the first bit decoded, at node 1, is the least significant bit of the value |
| BitTree.ReverseWalk | LzmaSpec.js:223-228 | the `level` bits already in `symbol` are the value's low bits (value mod 2^level == symbol); later bits only add higher powers of two |
| LengthDecoder.New | LzmaSpec.js:268-273 | the choice, low, mid and high tables have their sizes, every entry at 1024 |
| LengthDecoder.Decode | LzmaSpec.js:275-283 | the first choice bit is 0 exactly when the length is below 8, and past that the second is 0 exactly when it is below 16; only the chosen tables change |
| LengthDecoder.DecodeLow | LzmaSpec.js:276-278 | the length is the value of the posState's 3-bit low tree; the other posStates' low trees and the other coders are unchanged |
| LengthDecoder.DecodeMid | LzmaSpec.js:279-281 | the length is 8 plus the value of the posState's 3-bit mid tree; only that tree changes |
| LengthDecoder.DecodeHigh | LzmaSpec.js:282 | the length is 16 plus the value of the 8-bit high tree; only the high tree changes |
| LzmaState.UpdateLiteral | LzmaSpec.js:286-294 | after a literal the state is below 7 |
| LzmaState.UpdateMatch | LzmaSpec.js:295-297 | 7 exactly when the previous state was a literal state, otherwise 10 |
| LzmaState.UpdateRep | LzmaSpec.js:298-300 | 8 exactly after a literal state, otherwise 11 |
| LzmaState.UpdateShortRep | LzmaSpec.js:301-303 | 9 exactly after a literal state, otherwise 11 |
| LzmaState.Update | LzmaSpec.js:286-303 | the new state is below 7 exactly when the packet was a literal |
| LzmaState.RunIsClassify | LzmaSpec.js:286-303 | the state after any packet history is the one `Classify` reads off the last three packets |
| LzmaState.AfterLiteralIff | LzmaSpec.js:375 | `state < 7` (the matched-literal test) holds exactly when the last packet was a literal or there was none |
| LzmaState.ReplayRun | LzmaSpec.js:466-512 | replaying further packets after a history equals running the whole history |
| Header.DecodeProperties | LzmaSpec.js:326-343 | rejected exactly when d >= 225; otherwise lc < 9, lp < 5, pb < 5 and lc + 9·lp + 45·pb = d; dictSize is the little-endian field clamped up to 4096, and a field with the top bit set counts as negative and also gives 4096 |
| Header.PropertiesRoundTrip | LzmaSpec.js:326-335 | every admissible (lc, lp, pb) encoded as (pb·5 + lp)·9 + lc decodes back |
| Header.LittleEndianRoundTrip | LzmaSpec.js:336-338 | a number below 2^(8k) survives k little-endian bytes |
| Header.SizeDefined | LzmaSpec.js:576-581 | the size is defined exactly when some size byte differs from 0xFF |
| Header.UndefinedIsAllOnes | LzmaSpec.js:576-581 | the end marker is mandatory exactly when the 64-bit size field is 2^64 - 1 |
| Header.UnpackSize | LzmaSpec.js:574-586 | None exactly when all eight size bytes are 0xFF; otherwise the field's value, below 2^64 - 1 |
| Header.UnpackSizeRoundTrip | LzmaSpec.js:574-586 | every size below 2^64 - 1 written into a header is read back |
| Header.UnpackSizeAsWritten | LzmaSpec.js:574-586 | the int32 the source accumulates: undefined in the same cases, and always in [-2^31, 2^31) |
| Header.ReadHeader | LzmaSpec.js:567-572 | fewer than 13 bytes is the end-of-file error; then a properties byte >= 225 is rejected; the rest follows the header |
| Window.Create | LzmaSpec.js:66-73 | a valid, empty window of dictSize zeros |
| Window.Flush | LzmaSpec.js:86-91 | the pending bytes reach the output stream; the produced output and the invariant are unchanged |
| Window.GetByte | LzmaSpec.js:83-85 | on a valid window, the output byte dist places back, or 0 before that many bytes were written |
| Window.GetByteMeaning | LzmaSpec.js:83-85 | getByte(dist) is the byte dist places back in the output, or 0 before that many bytes exist |
| Window.PutByteOutput | LzmaSpec.js:74-82 | putByte appends its byte to the output |
| Window.PutByteValid | LzmaSpec.js:74-82 | putByte keeps the invariant (the buffer holds the last `size` bytes of the output, and unwritten cells are zero) |
| Window.PutByte | LzmaSpec.js:74-82 | the cursor advances and wraps to 0 at `size`, setting isFull; totalPos grows by one |
| Window.GetAfterPut | LzmaSpec.js:74-85 | after putByte(b), getByte(1) is b and every older byte is one place further back |
| Window.CopyMatch | LzmaSpec.js:92-117 | `len` sequential putByte(getByte(dist)) calls keep the window shaped and advance totalPos by len |
| Window.CopyMatchOutput | LzmaSpec.js:92-117 | copyMatch appends exactly `len` bytes and leaves the earlier output alone |
| Window.CopyMatchValid | LzmaSpec.js:92-117 | copyMatch keeps the window invariant |
| Window.CopyMatchIsSeqCopy | LzmaSpec.js:92-117 | copyMatch appends the LZ77 copy from `dist` back, reading zeros before the first byte |
| Window.SeqCopyRepeats | LzmaSpec.js:92-117 | every copied byte repeats the byte `dist` places before it (overlapping copies included) |
| Window.CheckDistance | LzmaSpec.js:118-120 | on a valid window, accepts exactly the distances not beyond the bytes written, or any once the buffer has wrapped |
| Window.CheckDistanceMeaning | LzmaSpec.js:118-120 | checkDistance accepts a distance exactly when it is at most the number of bytes written, or the window has wrapped |
| Window.IsEmpty | LzmaSpec.js:121-123 | on a valid window, true exactly when no byte has been produced |
| Window.IsEmptyMeaning | LzmaSpec.js:121-123 | isEmpty holds exactly before the first byte |
| MatchCopy.CopyMatchChunked | LzmaSpec.js:92-117 | the chunked copy keeps the window shaped and advances totalPos by len (its bytes: ChunkedIsSequential) |
| MatchCopy.CopyRounds | LzmaSpec.js:98-115 | the outer loop keeps the window shaped and advances totalPos by the bytes left |
| MatchCopy.CopyChunk | LzmaSpec.js:100-103 | the inner `for` moves the write cursor by chunk, leaves the other fields and the output stream alone, and counts chunk bytes |
| MatchCopy.ChunkedIsSequential | LzmaSpec.js:92-117 | the chunked copy loop equals `len` sequential putByte(getByte(dist)) calls, flushes included |
| MatchCopy.RoundsAreSequential | LzmaSpec.js:98-114 | each pass of the outer loop keeps the read cursor `dist` behind the write cursor and extends the sequential copy |
| MatchCopy.Round | LzmaSpec.js:99-113 | a chunk copies at least one byte and at most the bytes left; both cursors stay inside the buffer |
| MatchCopy.ChunkIsSequential | LzmaSpec.js:100-103 | the inner `for` equals `chunk` sequential putByte(getByte(dist)) calls |
| MatchCopy.CopyCompose | LzmaSpec.js:92-117 | copying a and then b bytes from one distance is copying a + b |
| Literal.LitState | LzmaSpec.js:366 | the literal context is below 2^(lc + lp) |
| Literal.LitBase | LzmaSpec.js:366-367 | the 0x300-entry coder selected by the context lies inside litProbs |
| Literal.MatchBit | LzmaSpec.js:373-374 | a bit that extends the top k bits of the match byte to its top k + 1 bits |
| Literal.AgreeStep | LzmaSpec.js:370-378 | the decoded prefix keeps agreeing with the match byte exactly when the new bit equals the match bit |
| Literal.PlainWalk | LzmaSpec.js:381-383 | the plain loop finishes at a symbol in [0x100, 0x200) that extends the prefix it started from; only probabilities 1..0xFF of the coder adapt |
| Literal.MatchedWalk | LzmaSpec.js:369-379 | the matched loop ends at the first bit that differs from the match byte, or after the eighth; only the matched half of the coder adapts |
| Literal.DecodeLiteral | LzmaSpec.js:357-386 | a byte below 256; after a literal state only the plain probabilities of the selected coder adapt, otherwise only that coder's |
| Distance.SlotsTile | LzmaSpec.js:398-399 | the reverse trees of slots 4..13 lie one after another in posDecoders, from index 1 up to 114 |
| Distance.New | LzmaSpec.js:410-412 | the slot, position and align tables have their sizes, every entry at 1024 |
| Distance.SlotBaseBits | LzmaSpec.js:398 | the smallest distance of a slot has exactly DirectBits + 2 bits, led by the bits 1 and slot & 1 |
| Distance.SlotOfRange | LzmaSpec.js:395-396 | every distance a slot can produce is one the encoder assigns to that slot |
| Distance.MarkerInLastSlot | LzmaSpec.js:514 | 0xFFFFFFFF (rep0 === -1) is the last distance of slot 63 and of no other slot |
| Distance.SmallSlot | LzmaSpec.js:398-399 | distances of slots 4..13 are below kNumFullDistances = 128 and their trees lie inside posDecoders |
| Distance.LargeDistance | LzmaSpec.js:400-403 | for slots 14..63, the `| 0` additions never wrap and the distance stays in its slot |
| Distance.ModelledBits | LzmaSpec.js:398-399 | slots 4..13: the distance lies in the slot's range and is below 128; only that slot's tree adapts |
| Distance.DirectAndAlign | LzmaSpec.js:400-403 | slots 14..63: the distance lies in the slot's range; only the align coder adapts |
| Distance.DecodeDistance | LzmaSpec.js:387-406 | a slot below 64 whose encoder slot is the distance's; slots 0..3 are the distance itself; the other slots give the slot's range |
| Distance.SlotTail | LzmaSpec.js:394-405 | slots 0..3 are the distance; slots 4..13 add reverse-coded bits and change only that slot's tree; the others add direct and align bits and leave posDecoders alone |
| Decoder.InitProbs | LzmaSpec.js:407-423 | every table has the size the model needs, and every entry of every table is 1024 |
| Decoder.PromoteRep | LzmaSpec.js:490-504 | the rep reassignments move the chosen distance to the front and keep the others in order |
| Decoder.FlagBit | LzmaSpec.js:463-504 | a flag bit is 0 exactly when the code is below the split of its probability; the window is untouched and the coder progresses |
| Decoder.PosState | LzmaSpec.js:463 | the position state is below 2^pb and below 16 |
| Decoder.LiteralPacket | LzmaSpec.js:463-470 | stops with an error exactly when the size counter is 0; otherwise it appends the decoded literal |
| Decoder.PutLiteral | LzmaSpec.js:467-469 | putByte, updateState_Literal and the counter decrement follow the literal packet |
| Decoder.ShortRepPacket | LzmaSpec.js:480-485 | appends the byte rep0 + 1 back; state and counter follow a short rep |
| Decoder.ShortRepEmits | LzmaSpec.js:483 | putByte(getByte(rep0 + 1)) appends the byte rep0 places before the last one |
| Decoder.RepPacket | LzmaSpec.js:473-507 | a zero counter or an empty window stops with an error; otherwise a short rep or a rep, which appends its copy |
| Decoder.Rep0Packet | LzmaSpec.js:480-486 | isRep0Long 0 gives a short rep; 1 gives a rep with index 0 |
| Decoder.OlderRep | LzmaSpec.js:487-504 | isRepG1 and isRepG2 pick rep1, rep2 or rep3 |
| Decoder.LongRep | LzmaSpec.js:506-507 | a rep with the given index appends its copy, and the coder progresses |
| Decoder.RepCopy | LzmaSpec.js:506-540 | updateState_Rep and the copy with the promoted distance |
| Decoder.MatchPacket | LzmaSpec.js:508-527 | a match: the length, then the distance; every outcome is settled (see Decode) |
| Decoder.MatchEnd | LzmaSpec.js:514-527 | a continuing match carries the decoded distance and length + 2 and passed the distance check; a stop is at the marker exactly when the distance is 0xFFFFFFFF |
| Decoder.AtMarker | LzmaSpec.js:514-519 | the marker flushes and finishes with the marker exactly when the code is zero, otherwise with an error |
| Decoder.AcceptedMatch | LzmaSpec.js:509-540 | an accepted distance is pushed, and the copy either continues or stops on the clamp error |
| Decoder.DistanceRejected | LzmaSpec.js:524-527 | on a valid window, rejects exactly the distances beyond the dictionary, or beyond the bytes written before the first wrap |
| Decoder.AcceptedReachable | LzmaSpec.js:524-527 | a distance that passes the check is inside the dictionary and reaches back no further than the bytes written |
| Decoder.CopyPacket | LzmaSpec.js:529-540 | a length beyond the counter copies what is left and stops with an error; otherwise it copies len + 2 bytes of LZ77 copy and continues |
| Decoder.ClampedCopy | LzmaSpec.js:531-539 | the clamped copy writes exactly the remaining counter and reports an error |
| Decoder.FullCopy | LzmaSpec.js:536-537 | the whole copy: the new distances and state are taken and the LZ77 copy is appended |
| Decoder.CopyEmits | LzmaSpec.js:536 | copyMatch(rep0 + 1, len) appends the LZ77 copy from rep0 + 1 back |
| Decoder.FlushAll | LzmaSpec.js:86-91 | the flush keeps the produced output and leaves every byte in the output stream |
| Decoder.NextPacket | LzmaSpec.js:463-540 | one packet: it either continues with a packet and the bytes it appends, or stops on an error or at the marker |
| Decoder.RepOrMatch | LzmaSpec.js:472-540 | isRep selects the rep or the match branch; neither produces a literal |
| Decoder.EndCheck | LzmaSpec.js:456-461 | with the counter at 0, no marker required and a zero code, the loop stops, flushed, and finishes without the marker; that result happens only then |
| Decoder.Iteration | LzmaSpec.js:447-548 | with notFinal and fewer than 48 bytes left, it flushes and is not complete, and only then; a stop that is not an error leaves the output flushed and unchanged |
| Decoder.EmitsApply | LzmaSpec.js:463-540 | each packet's effect on the output is `Apply`: a literal, one byte rep0 + 1 back, or an LZ77 copy |
| Decoder.Chain | LzmaSpec.js:447-548 | a continuing pass in front of a summarised run gives a summarised run |
| Decoder.Decode | LzmaSpec.js:424-549 | the run ends summarised: the state is the replayed state machine, the distance list is the replayed list, the counter and totalPos move by the packets' lengths, and the output is the LZ77 expansion of the packets; with notFinal false it is never not complete; a clean finish without the marker needs counter 0, no mandatory marker and a zero code |
| SignedDistance.AgreeBelowHalf | LzmaSpec.js:524 | below 2^31 the signed check of the source and the unsigned check of the model agree |
| SignedDistance.NegativePasses | LzmaSpec.js:524 | every distance from 2^31 up to 0xFFFFFFFE passes the signed check and fails the unsigned one |
| SignedDistance.ReadBeyondEndNeverStops | LzmaSpec.js:97-115 | with the read cursor beyond the buffer, copyMatch's loop never ends, for any number of passes |
| SignedDistance.InsideBufferStops | LzmaSpec.js:97-115 | with both cursors inside the buffer, the loop ends within `left` passes with nothing left |
| SignedDistance.RoundCursors | LzmaSpec.js:98-113 | the cursor arithmetic on numbers moves exactly as a round of the window copy |
| SignedDistance.NegativeDistanceOutcome | LzmaSpec.js:521-537 | every distance from 2^31 up to 0xFFFFFFFE passes the check as written and starts the read cursor ahead of the write cursor; past the buffer end the copy never ends, inside the buffer it ends |
| SignedDistance.HalfRangeDistanceHangs | LzmaSpec.js:521-537 | a decoded distance of 0x80000000 passes the check as written, and copyMatch(rep0 + 1, len) never ends; the unsigned check rejects it |
| Lzma.Create | LzmaSpec.js:344-356 | five more bytes are needed; the decoder is valid and empty, with zero distances, state 0 and the declared size as counter; the marker is mandatory exactly when no size is declared |
| Lzma.Start | LzmaSpec.js:557-587 | the header errors come in the source's order: end of file, then properties, then end of file in the range coder's init |
| Lzma.Run | LzmaSpec.js:589 | the loop run from the started decoder is summarised and never not complete |
| Lzma.Finish | LzmaSpec.js:591-605 | error codes become the source's errors; a marker finish with a declared size must match it in length; both clean finishes return the output stream |
| Lzma.FinishedOutput | LzmaSpec.js:589-605 | a clean finish leaves the expansion of the packets in the output stream, as many bytes as the packets' lengths, equal to the declared size without the marker; with no declared size only the marker can finish cleanly |
| Lzma.DecodeLzma | LzmaSpec.js:557-606 | the errors of a short or bad header; a success returns the LZ77 expansion of the decoded packets, of the declared length, with the state equal to the state machine's run over the packets |
| Lzma.FinishAsWritten | LzmaSpec.js:591-603 | as written, a finish without the marker throws "Internal Error"; everything else is handled as in Finish |
| Lzma.DecodeLzmaAsWritten | LzmaSpec.js:557-606 | differs from DecodeLzma only on runs that finish without the marker |
| Lzma.WithoutMarkerRejected | LzmaSpec.js:601-603 | every run that finishes without the marker is decoded by DecodeLzma and rejected as written |
| Lzma.EmptyStreamAsWritten | LzmaSpec.js:557-606 | an 18-byte stream with declared size 0 decodes to the empty output, but as written it throws "Internal Error" |
| Lzma.SizeAsWrittenFolds | LzmaSpec.js:574-583 | the declared size 2^32 is read as 1 by the source's int32 accumulation |

## Left out

- I/O: the InputStream and OutputStream objects are replaced by byte sequences. OutputStream's buffer growth is not modelled, because it does not change the bytes.
- `decodeLzma`'s "input data is not specified" error: the model has no null input.
- The `corrupted` flag is computed as the source computes it, but nothing in the core reads it, so no decision depends on it.
- `decode(notFinal)` with `notFinal` true is modelled (`Decoder.Iteration`), but decodeLzma only calls it with false, and resuming a loop that was not complete is not modelled.
- The main loop's local variables are written back only when the loop breaks on `notFinal`. A stopped outcome keeps the decoder fields it started the pass with, and the model says no more about them.
- `Header.DecodeProperties`: dictSizeInProperties is kept as the source's int32, so a top byte of 0x80 or more is negative and becomes 4096. This is the code's behaviour, not the 32-bit unsigned size of the LZMA format.
- `Literal.LitState` and `Decoder.PosState` take the low bits of totalPos exactly. The source's `&` first truncates totalPos to 32 bits, which does not change the low bits.
- `Decoder.Decode` and `Lzma.DecodeLzma` use the corrected size (`Header.UnpackSize`) and the corrected distance check (`Decoder.DistanceRejected`). The as-written int32 counter, which can be negative, and the signed check are modelled only as far as the findings below need.
- BitTree.Decode and BitTree.ReverseDecode fix the bit order (BitTree.Walk, BitTree.ReverseWalk and the first-bit lemmas), not a round trip through an encoder. The range coder's arithmetic decoding is not related to an encoder.
- Lzma.Finish: the corrected finish. It returns the output for LZMA_RES_FINISHED_WITHOUT_MARKER, where line 602 throws "Internal Error". Lzma.FinishAsWritten models the throw (Findings row 1).
- Header.UnpackSize: the corrected 64-bit size. The source's int32 accumulation folds bytes 4..7 onto bytes 0..3; Header.UnpackSizeAsWritten models it (Findings row 3).
- Decoder.MatchEnd: the corrected distance check, unsigned. Line 525 compares the int32 rep0, which lets distances of 2^31 and more through; SignedDistance models it (Findings row 2).

## Findings

| source | as written | input that shows it | evidently intended | confidence | as-written member | corrected member |
|---|---|---|---|---|---|---|
| LzmaSpec.js:589-603 | The final `else` throws "Internal Error" for LZMA_RES_FINISHED_WITHOUT_MARKER, the normal end of a stream with a declared size and no end marker. | 5D 00 10 00 00, then eight 00 size bytes, then 00 00 00 00 00: declared size 0 and a zero code. | Return the decoded bytes, as the reference decoder reports success. | high, not executed | Lzma.EmptyStreamAsWritten | Lzma.DecodeLzma |
| LzmaSpec.js:521-537 | The check `rep0 >= dictSize` compares the int32 rep0. A decoded distance of 2^31 or more is negative and passes, and copyMatch(rep0 + 1, len) starts its read cursor at pos - (rep0 + 1), ahead of the write cursor. When that is past the buffer end every chunk is negative and `left` grows, so the loop never ends. Otherwise the copy ends but copies stale bytes from ahead of the cursor. | A match whose distance decodes to 0x80000000 (slot 62, all further bits 0), on any window with fewer than 2^31 - 1 cells after the cursor. | Reject the distance as beyond the dictionary, and report a decoding error. | high, not executed | SignedDistance.HalfRangeDistanceHangs | Decoder.MatchEnd |
| LzmaSpec.js:574-583 | `unpackSize \|= b << (8 * i)` works on an int32, and JavaScript takes shift counts modulo 32. Size bytes 4..7 are or-ed onto bytes 0..3. | Size bytes 00 00 00 00 01 00 00 00 (2^32): read as 1. | The 64-bit little-endian size of the LZMA header. | high, not executed | Lzma.SizeAsWrittenFolds | Header.UnpackSizeRoundTrip |
