# Verified models of libosmocore's coding, framing and bookkeeping cores

A Dafny project that models the self-contained algorithms of libosmocore and proves what they are for: that the Viterbi
decoders find best messages, that coders and framers undo each other, that diagonal interleaving never collides, that a
queue loses no wake-up, that checks see every burst they are made for, that a termination cascade frees everything
once. `dafny verify dfyconfig.toml` checks all of it.

| files | what they model |
|---|---|
| `Bits`, `SoftBits`, `ConvCode`, `ConvEncoder`, `Viterbi`, `ConvDecoder`, `ConvDecode`, `NoiseFree` | convolutional codes given by tables, the streaming encoder, the generic minimum-error decoder, and what they are to each other |
| `ConvPoly`, `ConvProduct` | tables from polynomials, and the polynomial products they compute |
| `AccCode`, `AccSums`, `AccTrellis`, `AccDecoder`, `AccBest`, `AccDecode` | the accelerated maximum-correlation decoder: bit-reversed states, butterflies, 16-bit sums with normalisation |
| `Gf2` | polynomials over GF(2), division by a shift register, and which changes of a block it cannot see |
| `PackedBits`, `Interleave`, `BurstStream`, `InPlacePuncture`, `FireCode`, `Xcch` | the GSM channel coding chain of 3GPP TS 45.003: packing, interleaving, burst mapping, puncturing in place, the xCCH block code with its parity |
| `HdlcFrame`, `HdlcDecoder`, `HdlcControl`, `HdlcEncoder`, `HdlcLink`, `HdlcCheck` | HDLC framing after sections 2.2, 2.6 and 2.7 of ITU-T Q.921: both bit machines, the byte-level shortcut for flags, the link they make, and what its check sees |
| `ItQueue`, `ItFlush` | the inter-thread queue as interleaved steps of any number of threads |
| `FsmCascade`, `FsmTerm`, `FsmForest`, `FsmQuiet`, `FsmLost` | termination of FSM instances: with arbitrary re-entrant callbacks, over any acyclic forest, and what the two have to do with each other |
| `LogCache` | the log-level cache against the per-target decision |
| `FrSid`, `FrEcu` | full-rate SID classification and error concealment after chapter 6 of 3GPP TS 46.011 |

Integers are unbounded; where the width matters it is written out (`Wrap16` for 16-bit sums, `UINT_RANGE` for
`unsigned int`, `Truncate` for `uint8_t`). Registers of the HDLC and full-rate code are bit vectors.

## Findings

Properties one would expect that the code does not have, each with the exact condition under which it does:

- A call of `osmo_isdnhdlc_encode` need not come back. After a frame whose closing flag ends on a byte boundary
  `do_closing` stays set; a following frame of one byte is then never loaded and the loop neither writes nor ends
  (src/core/isdnhdlc.c:349-361, 397-406, 533-556). `HdlcControl.ReturnsExactly` gives the condition, `HdlcLink.NoReturn`
  the input: a single zero byte, sent first, then any frame of one byte.
- A call with nothing to send before anything was sent writes two bytes, also into a buffer of one byte: the flag and the
  initial content of `cbin` (src/core/isdnhdlc.c:384-395, 598-607). No other call writes more bytes than the buffer has:
  `HdlcLink.OverrunsExactly`.
- The bound on the queue does not hold for `max_length` UINT_MAX, where `current_length + 1` wraps to 0
  (src/core/it_q.c:232); it holds for every other value: `ItQueue.BoundedExactly`.
- The log-level cache refuses messages of negative level that a category with level 0 accepts (src/core/logging.c:167,
  729-731); it is sound if and only if the level is not negative: `LogCache.SoundExactly`, `LogCache.NegativeLevel`.
- The announced output length counts every puncture entry, also those behind the block (src/core/conv.c:65-68): it is the
  encoder's output length if and only if all of them lie in the block: `ConvEncoder.EncodedLength`.
- A termination can lose children. If a callback of an instance that is still before its cleanup terminates the parent,
  the loop of the parent meets that child a second time, takes it for stuck and breaks off; the children behind it in
  the list are never terminated, though the parent is freed (src/core/fsm.c:997-1014). `FsmLost.ChildLost` is such a run;
  `FsmForest.GivesUpExactly` says when the loop breaks off, and `FsmForest.DescendantsFreed` that nobody is lost if no
  callback terminates an instance above one that is before its cleanup.
- A comment in `osmo_fsm_inst_free` says that the outermost instance is put into the collection and all are deallocated at
  once (src/core/fsm.c:560-566). In the code the depth is 0 by then, so it is released first and the collected ones after
  it; the model follows the code.

## Model

| member | source | states |
|---|---|---|
| `ConvEncoder.Encoder.LoadState` | src/core/conv.c:91-102 | the register is the number whose binary digits are the K-1 bits |
| `ConvEncoder.Encoder.DoOutput` | src/core/conv.c:104-130 | sends exactly the bits of the output word at positions that are not in the puncture list, and leaves the cursor at the next step |
| `ConvEncoder.Encoder.Raw` | src/core/conv.c:132-159 | sends the unpunctured part of the coded path of the data bits; state and indices are those after the path |
| `ConvEncoder.Encoder.Flush` | src/core/conv.c:161-194 | the same for the K-1 flush steps, with the termination tables where a code has them |
| `ConvEncoder.Encode` | src/core/conv.c:206-226 | the whole block of a message, for all three terminations |
| `ConvEncoder.EmittedAppend` | src/core/conv.c:132-159 | encoding in two chunks at any split is encoding at once, whatever the puncture list |
| `ConvEncoder.GetOutputLength` | src/core/conv.c:50-71 | counts the puncture entries up to the terminator |
| `ConvEncoder.EncodedLength` | src/core/conv.c:50-71 | the block has the announced length if and only if every punctured index lies in it |
| `ConvCode.CodedInjective` | src/core/conv.c:144-159 | with two different outputs per state, different messages have different coded paths |
| `ConvDecoder.Decoder.Reset` | src/core/conv.c:269-288 | error 0 in the start state (in every state if it is negative), MAX_AE elsewhere |
| `ConvDecoder.Decoder.Scan` | src/core/conv.c:320-415 | keeps the invariant that errors and history are a chain of relaxed columns, and consumes exactly the unpunctured soft bits of its columns |
| `ConvDecoder.Decoder.Flush` | src/core/conv.c:417-516 | the same for the K-1 flush columns |
| `ConvDecoder.Decoder.GetBestEndState` | src/core/conv.c:518-575 | state 0 of a flushed code, else a state with least error, -1 only if all are MAX_AE |
| `ConvDecoder.Decoder.GetOutput` | src/core/conv.c:577-629 | the message read off the traceback leads to the end state and its path error is the returned error |
| `Viterbi.LeastError` | src/core/conv.c:320-516 | optimality of the dynamic program for any mix of columns: no path from the start state is better than the accumulated error, a reached error is attained by a path, and on blocks too short to saturate MAX_AE marks exactly the unreachable states |
| `ConvDecode.DecodeGeneric` | src/core/conv.c:641-674 | for every flushed or truncated code: a nearest message to the depunctured block, and its distance: no message correlates better by more than two per soft bit, none is closer in squared distance by more than 511 per soft bit, and the returned error is that squared distance over 512 |
| `SoftBits.ErrGap` | src/core/conv.c:388-395 | for every soft bit the wrong bit costs between amplitude - 1 and amplitude more than the right one |
| `SoftBits.CorrTracksErr` | src/core/conv.c:388-395 | twice the difference of two blocks' errors is the difference of their correlations, but for two per soft bit that tells them apart |
| `NoiseFree.NearestReencodes` | src/core/conv.c:641-674 | on a noise-free punctured block, at any amplitude, every nearest message encodes to the sent block at every unpunctured position |
| `NoiseFree.DecodeInvertsEncode` | src/core/conv.c:641-674 | without puncturing and with two different outputs per state the nearest message is the message |
| `NoiseFree.GenericRoundTrip` | src/core/conv.c:206-674 | encoder, full-amplitude soft bits, generic decoder: error 0, the same block, and without puncturing the same message |
| `ConvPoly.PolySplitsStates` | utils/conv_gen.py:74-80 | tables of every polynomial code whose divider has tap 0 lead from each state to two different states |
| `ConvPoly.ShiftsFlushToZero` | src/core/conv.c:161-194 | if flush steps shift the register, flushing ends in state 0 from every state |
| `ConvPoly.PolyFlushShifts` | utils/conv_gen.py:82-83 | flush steps of every polynomial code, recursive or not, shift the register |
| `ConvPoly.PolyDataShifts` | utils/conv_gen.py:74-80 | data steps of a non-recursive polynomial code shift the data bit itself in |
| `ConvPoly.TailBites` | src/core/conv.c:215-220 | a tail-biting block of such a code of length at least K-1 ends in the state its last bits load |
| `ConvProduct.BlockIsProduct` | utils/conv_gen.py:74-121 | for every flushed block of every polynomial code, recursive or not: output i is the product of its polynomial with the bits that enter the register, and the message is the product of the divider with these bits, cut to its length |
| `ConvProduct.PlainBlockIsProduct` | utils/conv_gen.py:74-121 | without divider every output is the product of the message with its polynomial |
| `ConvProduct.StreamOfCoded` | src/core/conv.c:104-130 | these outputs are the coded bits, one of every N |
| `AccCode.BitswapIsRev` | src/core/conv_acc.c:213-262 | the masks and shifts reverse the bits |
| `AccCode.PolyButterfly` | utils/conv_gen.py:74-121 | polynomials whose numerators and divider have taps 0 and K-1 give tables in which both new bits and both oldest bits flip every output: what the butterflies assume; they also split states and outputs and flush to zero |
| `AccCode.PolySystematic` | src/core/conv_acc.c:344-382 | the search for a systematic output finds exactly the systematic ones, and their flush output carries the feedback bit |
| `AccDecoder.GenStateInfo` | src/core/conv_acc.c:287-310 | input value and NRZ outputs of the edge from the even predecessor, in the reversed numbering |
| `AccDecoder.GenRecursiveStateInfo` | src/core/conv_acc.c:312-382 | the same for recursive codes; refused exactly if no output looks systematic |
| `AccDecoder.AcsButterfly` | src/core/conv_acc_generic.c:32-62 | both successors of a pair of states get the larger candidate, stored in 16 bits, and the selection; nothing else changes |
| `AccDecoder.GenBranchMetrics` | src/core/conv_acc_generic.c:65-101 | each metric is the correlation of the soft bits with the edge's output |
| `AccDecoder.GenPathMetrics` | src/core/conv_acc_generic.c:104-127 | one add-compare-select step on all states, with the minimum subtracted when asked |
| `AccDecoder.VDecoder.GenerateTrellis` | src/core/conv_acc.c:401-452 | tables of all states, and the start bonus 127 * N * K in state 0 |
| `AccDecoder.VDecoder.ForwardTraverse` | src/core/conv_acc.c:649-660 | sums and selections of all columns, normalised on the interval |
| `AccDecoder.VDecoder.Traceback` | src/core/conv_acc.c:454-530 | the message read off the selections from state 0 after a flush, else from a state with the largest sum |
| `AccDecoder.OutputBit` | src/core/conv_acc.c:454-482 | the stored value of the even predecessor, and `path ^ val` in a recursive code, is the data bit of the edge |
| `AccTrellis.EdgeMetric` | src/core/conv_acc_generic.c:32-62 | on all four edges of a butterfly the one metric or its negation is the correlation with that edge's output |
| `AccTrellis.WalkBelow` | src/core/conv_acc_generic.c:104-127 | every code path is a walk: the exact sum of its end is at least its start sum plus its correlation |
| `AccTrellis.TraceAttains` | src/core/conv_acc.c:454-530 | every traceback is a code path that attains the exact sum it starts from |
| `AccSums.StepRange` | src/core/conv_acc_generic.c:32-62 | a butterfly step never lowers the minimum and raises the maximum by at most one metric |
| `AccSums.SpreadBound` | src/core/conv_acc_generic.c:104-127 | after K-1 steps any two sums differ by at most twice K-1 metrics, whatever they started from |
| `AccSums.SameDecisions` | src/core/conv_acc_generic.c:104-127 | sums that differ from the exact ones by one offset make the same selections: normalisation changes no decision |
| `AccSums.ExactRun` | src/core/conv_acc.c:649-660 | the 16-bit sums of a whole run, wrap-around and normalisation included, are the exact sums minus an offset at every step |
| `AccSums.NoOverflow` | src/core/conv_acc.c:550-560 | if the two room conditions hold, every new sum lies in 0..32767 before it is stored, for blocks of any length |
| `AccDecode.DecoderStoresFit` | src/core/conv_acc.c:516-560 | in a decoder fed with soft bits up to 118 no store of a path sum wraps around, in any column of a block of any length |
| `AccDecode.Amplitude118` | src/core/conv_acc.c:550-560 | soft bits up to 118 satisfy both conditions for all six supported code shapes |
| `AccDecode.GentleAt118` | src/core/conv_acc.c:550-560 | blocks of any length with soft bits up to 118 leave room for exact decisions |
| `AccDecode.FullAmplitudeFits` | src/core/conv_acc.c:550-560 | amplitude 127 leaves room for exact decisions if and only if the block has at most 246, 240, 160, 154, 116 or 110 steps, for the six shapes; a sum may still wrap just before it is normalised |
| `AccDecode.Depuncture` | src/core/conv_acc.c:626-642 | the soft bits in place, 0 at every punctured position |
| `AccDecode.DecodeAcc` | src/core/conv_acc.c:731-754 | for every butterfly code, flushed or truncated, whose soft bits leave room, and so for soft bits up to 118 at any length: a message and start state with the largest start bonus plus correlation; for soft bits up to 79 (K = 5) or 74 (K = 7) the message that correlates best of all messages sent from state 0 |
| `AccBest.StartsAtZero` | src/core/conv_acc.c:401-452 | on every received block, noisy or not, whose amplitude the bonus outweighs, the best start state is 0 |
| `AccBest.BonusDecidesExactly` | src/core/conv_acc.c:401-452 | it outweighs the amplitude if and only if that is at most 79 (K = 5) or 74 (K = 7) |
| `AccBest.DecodersAgree` | src/core/conv.c:641-674 | then the correlations of the two decoders' messages differ by at most the rounding of the generic decoder's errors |
| `AccDecode.DecodeBlock` | src/core/conv.c:641-674 | the dispatch: accelerated for N <= 4 and K 5 or 7, generic otherwise, refused for N < 2; with what each promises |
| `AccDecode.AccInvertsEncode` | src/core/conv_acc.c:731-754 | on a noise-free unpunctured block the best message is the message, and the best start state is 0 |
| `PackedBits.Pbit2Ubit` | src/core/bits.c:212-223 | bit i of the output is bit i of the packed buffer, in either bit order |
| `PackedBits.Ubit2Pbit` | src/core/bits.c:187-201 | the bits at their places in the packed buffer and every other bit as before |
| `Interleave.StreamInjective` | src/coding/gsm0503_interleaving.c:628-730 | over an unbounded stream with a new block every four bursts, distinct (block, bit) pairs of xCCH, TCH/FS and TCH/F9.6 go to distinct (burst, position) pairs |
| `Interleave.Spread` | src/coding/gsm0503_interleaving.c:30-52 | coded bits less than 4, 8 or 18 places apart go to different bursts in xCCH, TCH/FS and TCH/F9.6 |
| `Interleave.XcchFilled` | src/coding/gsm0503_interleaving.c:30-52 | every position of the four bursts of an xCCH block carries a coded bit |
| `Interleave.XcchApart` | src/coding/gsm0503_interleaving.c:30-52 | neighbours in an xCCH burst are 164, 228 or 292 places apart in the block |
| `BurstStream.SendTchFr` | src/coding/gsm0503_mapping.c:61-94 | a block mapped into a stream can be read off it, and every other block still can |
| `BurstStream.SendAllTchF96` | src/coding/gsm0503_coding.c:3385-3432 | any number of blocks ORed into a zeroed stream can all be read off it in the end |
| `BurstStream.RecoverTchFr` | src/coding/gsm0503_interleaving.c:628-651 | TCH/FS: send all blocks over any bursts, unmap and deinterleave block n: block n |
| `BurstStream.RecoverTchF96` | src/coding/gsm0503_interleaving.c:704-730 | TCH/F9.6: the same from zeroed bursts |
| `InPlacePuncture.Puncture` | src/coding/gsm0503_coding.c:1479-1481 | the front of the buffer is the kept elements in order; what is behind the mask is untouched |
| `InPlacePuncture.Depuncture` | src/coding/gsm0503_coding.c:1063-1068 | kept elements at their places, 0 elsewhere, in the same buffer and from the back |
| `InPlacePuncture.RefilledKept` | src/coding/gsm0503_coding.c:1105-1110 | for every mask and length, refilling what was kept restores the kept positions and is 0 at the others |
| `InPlacePuncture.KeptRefilled` | src/coding/gsm0503_coding.c:1497-1499 | and keeping what was refilled gives it back |
| `InPlacePuncture.PunctureAndBack` | src/coding/gsm0503_coding.c:1479-1499 | both loops on one buffer: kept positions as before, punctured ones 0 |
| `FireCode.ParityExactly` | src/core/crcXXgen.c.tpl:39-64 | the parity of a block of any length is the one word whose complement makes it a multiple of x^40 + x^26 + x^23 + x^17 + x^3 + 1 |
| `FireCode.ChangedWord` | src/core/crcXXgen.c.tpl:64-100 | a changed word passes the check if and only if the change is a multiple of that polynomial |
| `FireCode.BurstSeen` | src/core/crcXXgen.c.tpl:64-100 | no change within 40 consecutive bits, block or parity, passes the check |
| `FireCode.ParityTells` | src/coding/gsm0503_parity.c:35-45 | blocks that differ within 40 consecutive bits have different parity |
| `Xcch.EncodeCB` | src/coding/gsm0503_coding.c:615-626 | the coded block of the 184 bits with the 40 bits that make block and complemented parity a multiple of the Fire code's polynomial |
| `Xcch.CodedWordIsProduct` | src/coding/gsm0503_coding.c:615-626 | the coded bits are in turn those of the products with 1 + D^3 + D^4 and 1 + D + D^3 + D^4 |
| `Xcch.DecodeBer` | src/coding/gsm0503_coding.c:534-585 | the error count is the number of soft bits without the sign of the re-encoded bit; on a right block the message; up to amplitude 79 a word that correlates best with whatever was received |
| `Xcch.XcchDecode` | src/coding/gsm0503_coding.c:638-650 | right-signed soft bursts of any 224-bit word, at every mix of amplitudes up to 127, decode to 0 and the block if the parity is right, and to -1 with the buffer left alone if it is wrong, with no errors in 456 bits; any soft bursts up to amplitude 79 do the same with a word that correlates best |
| `Xcch.XcchRoundTrip` | src/coding/gsm0503_coding.c:592-670 | encode, ±A soft bits for any A from 1 to 127, decode: the same 23 bytes |
| `Xcch.DamagedFails` | src/coding/gsm0503_coding.c:560-585 | a word that differs from a protected block within 40 bits in a row has no right parity |
| `Xcch.XcchRefuses` | src/coding/gsm0503_coding.c:592-670 | such a word, encoded, sent and decoded at any amplitude: -1, and the buffer is left alone |
| `HdlcFrame.FrameResidue` | src/core/crc16.c:108-113 | any bytes followed by their complemented checksum leave the residue 0xf0b8 |
| `HdlcCheck.RunIsRegister` | src/core/crc16.c:108-113 | the table-driven checksum of any bytes from any start is the division of their bits, lowest first, by x^16 + x^12 + x^5 + 1 |
| `HdlcCheck.ResidueExactly` | src/core/isdnhdlc.c:75-90 | the residue 0xf0b8 is left exactly by payloads with their check bytes |
| `HdlcCheck.ReceivedExactly` | src/core/isdnhdlc.c:75-90 | whatever bytes are stuffed and closed by a flag, the bit machine reports a payload only if the two bytes after it are its checksum, else a status of -1 or -2 |
| `HdlcCheck.UndetectedExactly` | src/core/isdnhdlc.c:75-90 | a damaged frame escapes the checksum error if and only if the damage is a multiple of the polynomial |
| `HdlcCheck.DamageDetected` | src/core/isdnhdlc.c:75-90 | every change within 16 bits in a row, of payload or check bytes, is refused |
| `HdlcCheck.ReceiveDamaged` | src/core/isdnhdlc.c:116-318 | the same for the byte-oriented decoder from end to end, from any flag offset and in any split into chunks: one report of status -2 and no payload |
| `HdlcFrame.Unstuff` | src/core/isdnhdlc.c:221-271 | the bit machine takes out exactly the zeros that stuffing put in, for all data |
| `HdlcFrame.WholeFlag` | src/core/isdnhdlc.c:249-264 | a flag reports the frame before it, if there is one, and opens the next |
| `HdlcDecoder.SkipFlag` | src/core/isdnhdlc.c:297-300 | a whole rotated flag leaves the bit machine as it was, and silent, at every offset |
| `HdlcDecoder.AbortRegisters` | src/core/isdnhdlc.c:146-155 | the registers restored in the middle of a flag are those of the bit machine |
| `HdlcDecoder.Decoder.FlagEnd` | src/core/isdnhdlc.c:252-277 | the byte shortcut on entering a flag is the bit machine on as many bits |
| `HdlcDecoder.Decoder.Decode` | src/core/isdnhdlc.c:116-318 | on every stream without seven ones in a row and with room for its frames: status, delivered bytes and state are those of the bit machine on the bits looked at; the last loaded byte may be pending; what the bit machine refuses is in HdlcCheck |
| `HdlcDecoder.DecodeChunks` | src/core/isdnhdlc.c:116-318 | the reports of a stream do not depend on its split into calls |
| `HdlcControl.ReturnsExactly` | src/core/isdnhdlc.c:349-406 | the encoder's loop between frames ends after some number of turns if and only if the condition holds |
| `HdlcControl.StaysStuck` | src/core/isdnhdlc.c:349-406 | otherwise every number of turns leaves room unused and the byte unloaded |
| `HdlcEncoder.Encoder.FlagsTurn` | src/core/isdnhdlc.c:351-395 | a turn of the real loop between frames is the turn of that model, and its bytes are flags at the current offset |
| `HdlcEncoder.Encoder.StartTurn` | src/core/isdnhdlc.c:351-406 | the same with a frame to send |
| `HdlcEncoder.SendOne` | src/core/isdnhdlc.c:455-475 | a data bit on the line keeps "line plus owed zero is the stuffed data" |
| `HdlcEncoder.Encoder.Encode` | src/core/isdnhdlc.c:337-612 | for every buffer size: the bytes are the next bits of flag, stuffed payload, checksum, closing flag and padding, a frame may be spread over any number of calls, and the exact number of flag bytes |
| `HdlcLink.SendOne` | src/core/isdnhdlc.c:337-612 | buffer after buffer until a frame is out; `do_closing` stays set exactly if the stuffed frame ends on a byte boundary |
| `HdlcLink.PaddedCarried` | src/core/isdnhdlc.c:221-264 | every frame as it is on the line makes the bit machine report its payload once, from every flag offset to every other |
| `HdlcLink.OverrunsExactly` | src/core/isdnhdlc.c:384-395 | a call writes more than its buffer has if and only if nothing was sent before, nothing is to be sent, the state is HDLC_SEND_FAST_FLAG and the buffer has one byte |
| `HdlcLink.NoReturn` | src/core/isdnhdlc.c:349-406 | after a frame of one zero byte no call with a frame of one byte comes back |
| `HdlcLink.RoundTrip` | src/core/isdnhdlc.c:116-612 | any sequence of non-empty frames, sent in buffers of any size, followed by at least one byte of flags and received in any split into chunks: exactly one report for each, with its payload, in order |
| `ItQueue.InvRun` | src/core/it_q.c:88-264 | every interleaving of every number of enqueuers and flushers with the reader keeps the invariant: length, order, mutual exclusion and wake-ups |
| `ItQueue.EachOnce` | src/core/it_q.c:165-264 | after any run what was enqueued is, in order, an interleaving of what went to the callback, what was flushed, and then what is still queued: every item exactly once |
| `ItFlush.FlushEmpties` | src/core/it_q.c:184-201 | a returned flush has taken the mutex, and passed a state, still holding it, in which list and length are 0 and exactly the items it found were dropped |
| `ItFlush.FlushedForGood` | src/core/it_q.c:184-201 | of the items it found none ever goes to the callback, in any continuation |
| `ItFlush.FlushRuns` | src/core/it_q.c:184-201 | with the mutex free a flush ends after 3 steps and one for each item, and changes nothing else |
| `ItFlush.Refuses` | src/core/it_q.c:231-236 | an enqueue above the maximum changes nothing |
| `ItQueue.NoLostWakeUp` | src/core/it_q.c:88-112 | whatever the maximum, queued items never exceed eventfd counter plus enqueuers that still owe an increment plus iterations left in the reader's loop |
| `ItQueue.QueueSound` | src/core/it_q.c:226-264 | `current_length` is the length of the list whenever the mutex is free, neither exceeds the maximum, and without flush the callback sees a prefix of the enqueue order |
| `ItQueue.Drains` | src/core/it_q.c:88-112 | from every reachable state in which no worker holds the mutex or owes an increment, wherever the reader is and whatever the maximum, the reader alone gets back to sleep with every item delivered in order, without flush every item ever enqueued |
| `ItQueue.BoundedExactly` | src/core/it_q.c:231-238 | no run exceeds the maximum, if and only if the maximum is not UINT_MAX |
| `FsmCascade.DepthRestored` | src/core/fsm.c:909-917 | for every run of callbacks that terminate, switch the feature and relink: the depth is the number of counted calls, and has its old value when they are done |
| `FsmCascade.AllReleasedOnce` | src/core/fsm.c:896-972 | when all calls are done, every terminated instance went through osmo_fsm_inst_free exactly once and exactly those were released |
| `FsmCascade.SafeTermination` | src/core/fsm.c:536-572 | with the feature on, a release happens only when the depth is 0 and no call works on a released instance |
| `FsmForest.GivesUpExactly` | src/core/fsm.c:990-1014 | in every run that leaves the lists alone, a loop breaks off with children left if and only if the first of them is being terminated further out and has not reached its cleanup |
| `FsmForest.DescendantsFreed` | src/core/fsm.c:896-1015 | if no callback terminates an instance above one that is before its cleanup, everything below every terminated instance is freed when the calls are done |
| `FsmForest.ChildrenFreedFirst` | src/core/fsm.c:896-1015 | if none terminates an instance above one on the stack, every instance is freed after all its children |
| `FsmLost.ChildLost` | src/core/fsm.c:997-1014 | a run in which a parent is freed and one of its children not even terminated |
| `FsmQuiet.QuietTermination` | src/core/fsm.c:896-1015 | with callbacks that only return there is exactly one run that ends, and it frees, releases and unlinks what the recursion of FsmTerm does, in the same order, and calls pre_term before and cleanup after the children of each, and one event |
| `FsmTerm.Instances.TermChildren` | src/core/fsm.c:986-1015 | all children and everything below them are gone, children before parents, nobody notified, and the loop never breaks off because a child is stuck |
| `FsmTerm.Instances.Term` | src/core/fsm.c:896-972 | a whole tree: cleanup and free in post-order, lists cut, only the root's parent notified, and what was released in which order with and without the feature |
| `FsmTerm.AcyclicTree` | src/core/fsm.c:510-531 | everything below an instance of an acyclic forest is a tree without repetitions |
| `FsmTerm.TermAcyclic` | src/core/fsm.c:896-1015 | terminating an instance of any acyclic forest runs cleanup exactly once for every descendant, before its parent, frees the same, and makes one event |
| `LogCache.Logging.UpdateAll` | src/core/logging.c:101-125 | every entry is the lowest level of the registered targets, or 255 if the category is off in all |
| `LogCache.Logging.Update` | src/core/logging.c:133-152 | one entry recomputed with the given values, the others as they were |
| `LogCache.LowestReached` | src/core/logging.c:113-121 | an entry is only as low as some target's level |
| `LogCache.MoreImportant` | src/core/logging.c:713-744 | what a target takes the filters passed, and it takes every more important message the filters pass too |
| `LogCache.CoversExactly` | src/core/logging.c:713-744 | an entry covers a target if and only if it lets through every level from 0 on that the target accepts |
| `LogCache.Logging.CacheSound` | src/core/logging.c:160-168 | in every state that keeps the invariant, what some registered target accepts passes the cache |
| `LogCache.Logging.SetCategoryFilter` | src/core/logging.c:1025-1037 | keeps the invariant, on registered and other targets |
| `LogCache.Logging.SetLogLevel` | src/core/logging.c:1011-1017 | keeps the invariant |
| `LogCache.Logging.ParseCategoryMask` | src/core/logging.c:458-508 | keeps the invariant; exactly the named categories are on, each at the level of the last token that names it |
| `LogCache.Logging.AddTarget` | src/core/logging.c:837-843 | keeps the invariant |
| `LogCache.Logging.DelTarget` | src/core/logging.c:848-854 | keeps the invariant; exactly that target is gone |
| `LogCache.Logging.TargetCreate` | src/core/logging.c:1108-1155 | keeps the invariant though the new target is not registered |
| `LogCache.SoundExactly` | src/core/logging.c:160-168 | sound for every configuration if and only if the level is not negative |
| `LogCache.NegativeLevel` | src/core/logging.c:713-731 | the configuration in which a negative level is accepted by a target and refused by the cache, built by the calls themselves |
| `FrSid.Classify` | src/codec/gsm610.c:385-405 | valid with at most one code word bit that is not 0, speech with 16 or more, else invalid, though counting stops at 16 |
| `FrSid.CodeWordRises` | src/codec/gsm610.c:313-326 | the 95 bits are counted once each |
| `FrSid.CheckSid` | src/codec/gsm610.c:334-353 | true exactly for the signature with an error-free code word |
| `FrSid.PristineErrors` | src/codec/gsm610.c:313-326 | the code word touches no bit of LARc and of the four block amplitudes |
| `FrSid.SidPreen` | src/codec/gsm610.c:420-462 | a valid SID keeps its parameters and loses every other bit, other frames are untouched |
| `FrEcu.FrEcuState.Input` | src/codec/ecu_fr.c:107-160 | the new state for each class of frame |
| `FrEcu.FrEcuState.Output` | src/codec/ecu_fr.c:239-280 | frame and new state are those of the state machine the theorems are about |
| `FrEcu.ReduceXmaxc` | src/codec/ecu_fr.c:165-183 | all four amplitudes reduced in place, and muted exactly if all were at most 4 |
| `FrEcu.XmaxcReduced` | src/codec/ecu_fr.c:165-183 | reading an amplitude back gives the reduced one |
| `FrEcu.SpeechFades` | src/codec/ecu_fr.c:247-260 | after a speech frame call 1 repeats it and every call from the 18th on is the silence frame |
| `FrEcu.SpeechExactly` | src/codec/ecu_fr.c:165-260 | from the second call on, exactly: while an amplitude is left, and once more, the saved frame with every amplitude reduced by 4 per call and the drawn grid positions; then silence |
| `FrEcu.SpeechKept` | src/codec/ecu_fr.c:165-200 | in between only amplitudes and grid positions change, and no amplitude is above that of the saved frame |
| `FrEcu.SidPerfect` | src/codec/ecu_fr.c:218-233 | every re-emitted SID has an error-free code word, the saved LARc and the saved amplitude in all four subframes |
| `FrEcu.SidFades` | src/codec/ecu_fr.c:261-275 | after a valid SID calls 1 to 47 re-emit it unchanged and every call from the 63rd on is the silence frame |
| `FrEcu.SidExactly` | src/codec/ecu_fr.c:203-275 | from the 48th call on, exactly: the saved SID, free of errors, with its amplitude reduced by 4 per call while some is left; then silence |
| `FrEcu.SidKept` | src/codec/ecu_fr.c:203-275 | every call in between emits silence or an error-free SID with at most the saved amplitude |
| `FrEcu.NeverLouder` | src/codec/ecu_fr.c:160-275 | in any state no call is louder than an earlier one, in any subframe |
| `FrEcu.FrEcuState.FrameIn` | src/codec/ecu_fr.c:303-315 | bad frames, frames of another length and frames without the RTP signature change nothing; the others act by their class |

## Left out

- Tail-biting decoding: its two-pass search is a heuristic, and `osmo_conv_decode_rewind` serves only that.
- The SSE, AVX and NEON metric units: intrinsics with saturating arithmetic, and NEON breaks ties differently.
- AccDecode.DecodeAcc: no claim about soft bits that leave no room for the 16-bit sums, and above amplitude 79 (K = 5) or 74 (K = 7) none that the best start state is 0 on noisy input, since the start bonus alone does not decide it there.
- AccDecode.FullAmplitudeFits: the room condition is sufficient; whether longer blocks at amplitude above 118 also keep all decisions exact is not stated.
- ConvDecode.DecodeGeneric: asks for a block too short to saturate, 127 * N * (len + K - 1) below MAX_AE, for two different successors per state and, for flushed codes, that flushing ends in state 0; polynomial codes provide the last two.
- Viterbi.LeastError: history bytes of unreached states, which the source leaves unwritten, hold arbitrary values here.
- Output buffers that a caller provides and a routine only fills from the front are returned sequences; buffers that are read back or changed in place are arrays.
- HdlcDecoder.Decoder.Decode: streams with seven ones in a row (abort, idle line), frames longer than the buffer, 56k adaptation; the destination buffer is bound to the decoder for its life.
- HdlcEncoder.Encoder.Encode: D-channel idle and 56k adaptation; a new frame is only handed over between frames, never while one is being closed.
- The CRC-16 table is represented by the division it tabulates, the parity of xCCH by the division with its generator.
- `osmo_conv_decode_ber_punctured` with a mask, EGPRS headers and coding schemes, the speech codecs behind the channel coders, and the half-rate, MCS-5 and MCS-7 interleavers: more of the same index arithmetic, or layouts of structures that are not part of this model.
- BurstStream.SendTchFr: stealing flags are one parameter; FACCH blocks that replace a speech block are not modelled.
- FsmForest.DescendantsFreed: a condition on runs; a run that breaks it may still lose nobody, for instance if a later callback terminates the children left behind.
- ItQueue.InvRun: other threads enqueue and flush, only the reader dequeues; the loop counter of the reader is unbounded.
- FsmCascade.SafeTermination: timers, state changes, talloc parents and log text; callbacks act through termination, the switch and relinking, and never terminate an instance that is already released.
- LogCache.Logging.ParseCategoryMask: the tokens of the mask are given as the categories and levels they match; string matching is left out.
- LogCache.Logging.Check: filters are a verdict passed in; the lock and unlocked reads of the cache are left out.
- FrEcu.FrEcuState.Output: the pseudo-random bits of the grid positions are a parameter.
- base64, bit-vector accessors, sockets, netlink, select loops, GSMTAP, VTY and command-line tools: plumbing, or easy members.
