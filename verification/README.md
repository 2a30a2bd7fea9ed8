# Verification of Stratux: codecs, queues and parsers

Stratux receives aircraft traffic and weather over the 978 MHz UAT link and forwards it, as GDL90 and other
messages, to tablets. This project models the parts of it whose correctness is not obvious from reading one
function, and proves what those parts are for. `dafny verify dfyconfig.toml` checks everything.

**Reed-Solomon codec** (`dump978/fec`, `dump978/fec.c`). Symbols are naturals, their sum is `Bits.Xor`, and GF(2^mm)
is the shift register of `init_rs.h` (`Galois`). All algebra is over an arbitrary field whose `gfpoly` is primitive:
sums, polynomials and the Vandermonde argument (`Sums`, `Poly`), the key equation and the minimality of
Berlekamp-Massey (`Massey`), locators and Forney's formula (`Locator`). `ReedSolomon.Decode` says, as a function of the
received block, what the decoder leaves and returns. `Decoding` and `DecoderTheorems` prove what that is good for,
`Generator` connects it to the generator polynomial, and `Undetected` shows where it falls short. `Outcome` says of
every block, correctable or not, what comes back: -1 exactly when lambda does not split into distinct factors
(`DecodeCount`), and otherwise each symbol, changed or not, by the root it belongs to (`SymbolOutcome`).
`RsTables`, `RsInit` and `RsCodec` are the C code itself, loop by loop over arrays in index form, proved to fill the
right tables and to compute exactly `Decode`. `Fec` has the three UAT codes of section 2.2.3 of RTCA DO-282B, proves
0x187 primitive, and adds the uplink de-interleaving and the two attempts at a downlink frame.

Three facts about the codec that its comments do not say:
- A block may be accepted that is not a codeword, with no error reported. The decoder compares the number of roots
  with the degree of lambda but not with the recurrence length, and does not look whether a root points into the
  padding. The block it leaves is a codeword exactly when both hold (`DecodeSoundness`); every code with two or more
  parity symbols has a block on which this fails (`UndetectedError`), and an uplink frame made of such blocks passes
  `correct_uplink_frame` with zero errors (`UplinkAcceptsNonCodewords`).
- The test `sr == 1` does not establish that `gfpoly` is primitive (`ImprimitiveAccepted`). The tables are inverse to
  each other exactly if it is (`InverseIffPrimitive`).
- The loop that looks for `iprim` ends exactly when `prim` and 2^mm - 1 have no common factor
  (`SearchEndsIffCoprime`); this is the only demand on callers of `init_rs_char`. With symbols of eight bits and prim 3
  every check is passed and the search never ends (`EndlessSearch`).

**Client queue** (`main/messagequeue.go`, `main/network.go`). `MessageQueue.Queue` carries, as ghost state, the history
of everything stored, the places of the present entries in it, and what was handed out. Its invariant holds over every
run of its methods at any times: sorted by priority and by age within a priority, at most ten percent over `maxSize`,
nothing handed out twice. Pruning meets a rule that leaves no choice (`PruneUnique`). `Network` is the loop that
collects a packet. `Wakeup` is the protocol between any number of senders and closers, the mutex, the one-slot channel
and the writer, as a transition system; an entry can wait while the writer sleeps only inside a `Put` that still holds
the lock and is about to notify, and a writer left to itself sends everything and stops (`WriterDrains`).

**Framing and checksums** (`main/gen_gdl90.go`, `dump978/uat2esnt.c`). `Division` defines the remainder of dividing
polynomials over GF(2), proves it unique, and proves that the shift register and the field multiplication compute it.
`Crc` has both table-driven checksums. `Gdl90` adds byte stuffing, the receiver of section 2.2 of the GDL 90 Data
Interface Specification, and the packets the writer sends. Damage within two adjacent bytes of message and checksum is
noticed except where the two meet: the same bits changed in the last byte of a message and in the low byte of its
checksum give another message that is received (`DamageRejectedIff`, `UndetectedDamage`).

**Parsers** (`dump978/reader.c`, `dump978/dump978.c`, `dump978/uat_decode.c`, `uatparse/uatparse.go`). `Reader` is the
buffered line reader and the printer it undoes; its meaning is given one byte at a time, so the way reads cut the
stream cannot matter. `Dlac` has the two six-bit text unpackers against the bit stream, `InfoFrames` the slicing of
uplink application data. Three facts found on the way:
- A line that overflows the reader's buffer is not skipped. What is read is its last part, the line without as many
  4096-byte pieces from its front as there are (`AnyLineDelivered`, `StreamDelivered`); so a line is read as it stands
  exactly when its last part parses alike (`ReadAsItStands`), and a frame can be made of a line that has none
  (`OverlongLineMisread`).
- The C text unpacker has a buffer of 1024 bytes. Every text of n packed bytes fits it exactly when n is at most 25
  (`AlwaysFitsIff`).
- FIS-B headers with month, day and seconds lose the top bit of the seconds (`HeaderRoundTrip`).

**Least squares** (`common/equations.go`). `LeastSquares` proves the closed form optimal over all lines, and says
exactly when there is none.

Bytes are naturals below 256 (`Collections.AllBytes`) and words are naturals, reduced explicitly where the program's
width matters. Loops with early `goto` exits are methods of their own; a C function that is one long body is several
methods, in its order.

## Model

| member | source | states |
|---|---|---|
| Galois.ExpInjective | dump978/fec/init_rs.h:48-59 | with a primitive gfpoly the register takes nn different values before it repeats |
| Galois.LogExists | dump978/fec/init_rs.h:48-59 | every nonzero symbol is one of the register's values |
| Galois.MulComm | dump978/fec/init_rs.h:48-59 | field multiplication is commutative |
| Galois.MulAssoc | dump978/fec/init_rs.h:48-59 | field multiplication is associative |
| Galois.MulDistrib | dump978/fec/init_rs.h:48-59 | field multiplication distributes over addition |
| Galois.MulNonzero | dump978/fec/init_rs.h:48-59 | a product of symbols is zero only if a factor is |
| Division.RemainderUnique | dump978/uat2esnt.c:585-596 | dividing by a polynomial of degree mm leaves only one remainder |
| Division.ClmulIsRemainder | dump978/fec/init_rs.h:52-59 | multiplying while reducing gives the carry-less product modulo gfpoly |
| RsTables.Modnn | dump978/fec/rs-common.h:20-26 | modnn ends for every x >= 0 with x mod (2^mm - 1) |
| RsTables.FillTables | dump978/fec/init_rs.h:48-59 | for any gfpoly: alpha_to holds the register's states and index_of the last place of each; sr ends as state nn |
| RsTables.InverseIffPrimitive | dump978/fec/init_rs.h:60-67 | with sr == 1, the two tables are mutual inverses if and only if gfpoly is primitive |
| RsTables.PrimitiveTables | dump978/fec/init_rs.h:48-59 | a primitive gfpoly makes index_of the logarithm of every nonzero symbol |
| RsTables.TableProduct | dump978/fec/decode_rs.h:174 | looking up the sum of two logarithms gives the carry-less product modulo gfpoly |
| UatField.UatPrimitive | dump978/fec.c:32-33 | 0x187 is primitive |
| UatField.ImprimitiveAccepted | dump978/fec/init_rs.h:60-67 | a gfpoly that passes sr == 1 and is not primitive |
| RsInit.SearchEndsIffCoprime | dump978/fec/init_rs.h:82-84 | the search for the prim-th root of 1 ends if and only if prim and nn have no common factor |
| RsInit.EndlessSearch | dump978/fec/init_rs.h:82-84 | parameters that pass every check and for which it never ends |
| RsInit.FindPrimRoot | dump978/fec/init_rs.h:82-85 | it then finds iprim between 1 and nn with iprim * prim = 1 modulo nn |
| RsInit.MultiplyByRoot | dump978/fec/init_rs.h:91-99 | one round of the in-place loop multiplies genpoly by x + alpha^root |
| RsInit.BuildGenerator | dump978/fec/init_rs.h:87-103 | genpoly is the product of x + alpha^((fcr+i)*prim), in index form |
| RsInit.InitRsChar | dump978/fec/init_rs.h:8-104 | exactly which parameters yield null; otherwise the fields, tables and iprim of the codec, valid and with the generator polynomial when gfpoly is primitive |
| Generator.MulRootsVanishes | dump978/fec/init_rs.h:87-100 | genpoly, and each multiple of it, vanishes at each of its roots |
| Generator.MulRootsElsewhere | dump978/fec/init_rs.h:87-100 | genpoly has no root that its factors do not have |
| Generator.SyndromesZeroIffMultiple | dump978/fec/decode_rs.h:81-107 | for blocks of any length, all syndromes are zero if and only if genpoly divides the block |
| Poly.DerivativeAtRoot | dump978/fec/decode_rs.h:273-279 | the odd-coefficient sum is the derivative: locator times cofactor at a root |
| Massey.RecurrenceBound | dump978/fec/decode_rs.h:191-192 | two recurrences that part after r terms are together longer than r |
| Massey.StepKeepsInvariant | dump978/fec/decode_rs.h:170-205 | each step keeps lambda(0) = 1, deg lambda <= el, the key equation, and the shifted invariant on b |
| Massey.KeyEquation | dump978/fec/decode_rs.h:160-206 | the invariant holds after any number of steps, for any syndromes over any field |
| Massey.ShortestRecurrence | dump978/fec/decode_rs.h:160-206 | no recurrence shorter than el generates the syndromes |
| Locator.LocatedGenerates | dump978/fec/decode_rs.h:160-206 | the polynomial with the inverse locators as roots is a recurrence for their power sums |
| Locator.RootsForced | dump978/fec/decode_rs.h:208-247 | any recurrence for the syndromes of few errors vanishes at every error |
| Locator.NoIdlePoint | dump978/fec/decode_rs.h:240-247 | a located point without weight means that a shorter recurrence exists |
| Locator.FewErrorsShortRun | dump978/fec/decode_rs.h:191-192 | el is at most the number of errors |
| Locator.ForneySolves | dump978/fec/decode_rs.h:262-290 | weights that match the evaluator at each root reproduce every syndrome |
| Decoding.SyndromeIsPowerSum | dump978/fec/decode_rs.h:81-93 | a Horner syndrome is the power sum of the symbols over their locators |
| Decoding.PointsDistinct | dump978/fec/decode_rs.h:218-233 | different positions have different, nonzero locators |
| Decoding.MinimumDistance | dump978/fec/decode_rs.h:81-107 | two codewords differ in more than nroots symbols or not at all |
| Decoding.CorrectedSyndrome | dump978/fec/decode_rs.h:287-290 | all corrections together add their power sum to every syndrome |
| DecoderTheorems.RootInverse | dump978/fec/decode_rs.h:218-233 | the location recorded for a root has the inverse of the root as its locator |
| DecoderTheorems.SearchCompleteIff | dump978/fec/decode_rs.h:215-247 | the count equals deg_lambda if and only if lambda has deg_lambda distinct nonzero roots |
| DecoderTheorems.FoundDerivative | dump978/fec/decode_rs.h:273-286 | the denominator is never zero, so that the DEBUG check could not fail |
| DecoderTheorems.ForneyHolds | dump978/fec/decode_rs.h:262-290 | each error value computed, scaled by its locator, matches the evaluator |
| DecoderTheorems.DecodeSoundness | dump978/fec/decode_rs.h:240-291 | -1 leaves the block alone; otherwise the result is a codeword if and only if el equals the count and no location lies in the padding |
| DecoderTheorems.BoundedDistanceDecoding | dump978/fec/decode_rs.h:81-297 | every codeword with at most nroots/2 changed symbols is restored, and their number returned |
| DecoderTheorems.CorrectableIffAccepted | dump978/fec/decode_rs.h:81-297 | a codeword within nroots/2 exists if and only if the result passes three tests |
| Outcome.DecodeCount | dump978/fec/decode_rs.h:240-247 | for every block: the count is the degree of lambda if lambda has that many distinct nonzero roots, and -1 otherwise |
| Outcome.SymbolOutcome | dump978/fec/decode_rs.h:262-291 | for every block not rejected: a symbol changes only if the inverse of its locator is a root of lambda, and then by the value that solves Forney's equation there |
| Outcome.ForneyUnique | dump978/fec/decode_rs.h:266-290 | that equation has one solution |
| Undetected.DegenerateDecode | dump978/fec/decode_rs.h:208-247 | a block whose only nonzero syndrome is the first is returned as it is, with 0 |
| Undetected.UndetectedError | dump978/fec/decode_rs.h:208-247 | every code with two or more parity symbols has such a block |
| RsCodec.Rs.FormSyndromes | dump978/fec/decode_rs.h:81-93 | the loop over index form evaluates the block at each root |
| RsCodec.Rs.SyndromesToIndex | dump978/fec/decode_rs.h:95-107 | conversion in place; reports whether any syndrome is nonzero |
| RsCodec.Rs.Discrepancy | dump978/fec/decode_rs.h:170-177 | coefficient r-1 of lambda times the syndromes |
| RsCodec.Rs.Adjust | dump978/fec/decode_rs.h:183-190 | t = lambda - discr*x*b |
| RsCodec.Rs.Normalise | dump978/fec/decode_rs.h:193-198 | b = lambda divided by the discrepancy |
| RsCodec.Rs.ShiftUp | dump978/fec/decode_rs.h:179-181 | b = x*b |
| RsCodec.Rs.MasseyStep | dump978/fec/decode_rs.h:169-206 | one round in place is one step on polynomials |
| RsCodec.Rs.BerlekampMassey | dump978/fec/decode_rs.h:160-206 | lambda and el after all rounds |
| RsCodec.Rs.LambdaToIndex | dump978/fec/decode_rs.h:208-214 | conversion in place; finds the degree |
| RsCodec.Rs.TryExponent | dump978/fec/decode_rs.h:219-225 | the incremental registers evaluate lambda at alpha^i |
| RsCodec.Rs.ChienSearch | dump978/fec/decode_rs.h:215-239 | root and loc hold the first deg_lambda zeros in order, with their locations |
| RsCodec.Rs.FormOmega | dump978/fec/decode_rs.h:248-260 | the evaluator polynomial |
| RsCodec.Rs.EvaluateOmega | dump978/fec/decode_rs.h:267-271 | its value at a root |
| RsCodec.Rs.EvaluateDerivative | dump978/fec/decode_rs.h:273-279 | the value of the derivative at a root |
| RsCodec.Rs.ComputeValue | dump978/fec/decode_rs.h:266-290 | the error value at a root |
| RsCodec.Rs.ApplyCorrections | dump978/fec/decode_rs.h:266-291 | all corrections, last root first; nothing outside the block changes |
| RsCodec.Rs.DecodeRsChar | dump978/fec/decode_rs.h:75-298 | the whole decoder in place computes Decode of the block |
| Fec.UatCodesValid | dump978/fec.c:35-40 | the three parameter sets make valid codes of 30, 48 and 92 bytes |
| Fec.Decoder.constructor | dump978/fec.c:35-40 | init_fec yields three codecs for those codes |
| Fec.Decoder.CorrectUplinkFrame | dump978/fec.c:67-93 | success exactly when each column block is accepted; then to[72*b+i] is byte i of corrected block b for all six blocks, and rs_errors is the sum |
| Fec.BlockAcceptedIff | dump978/fec.c:79-85 | a block is accepted if and only if its lambda splits with degree at most ten, and that degree is its count |
| Fec.TotalIsChanges | dump978/fec.c:83-91 | for blocks near codewords, rs_errors is the number of changed bytes of all six |
| Fec.Decoder.CorrectAdsbFrame | dump978/fec.c:42-65 | 2 if and only if the long attempt makes at most seven corrections and leaves a type other than 0; else 1 if and only if the short one, on what that left, makes at most six and leaves type 0; else -1 and 9999 |
| Fec.FrameRejected | dump978/fec.c:42-65 | a frame of which neither code's lambda splits is returned as it came, with -1 and 9999 |
| Fec.UplinkCorrects | dump978/fec.c:67-93 | up to ten changed bytes in each block are corrected |
| Fec.UplinkAcceptsNonCodewords | dump978/fec.c:79-91 | a frame accepted with no errors of which no block is a codeword |
| Fec.LongFrameCorrects | dump978/fec.c:44-52 | up to seven changed bytes of a long frame are corrected |
| Fec.ShortFrameCorrects | dump978/fec.c:54-60 | up to six of a short one, counted in what a rejected long attempt leaves |
| Fec.FailedAttemptKeeps | dump978/fec.c:45-48 | which is the frame as it came when that attempt returned -1 |
| MessageQueue.Queue.constructor | main/messagequeue.go:33-39 | an empty queue |
| MessageQueue.Queue.FindInsertPosition | main/messagequeue.go:182-190 | the first entry of a larger priority number |
| MessageQueue.Queue.Insert | main/messagequeue.go:48-63 | the entry stands behind all of its own or a smaller number; nothing else moves |
| MessageQueue.Queue.Put | main/messagequeue.go:41-72 | the new queue, its bound and its token; nothing on a closed queue |
| MessageQueue.Queue.NotifyData | main/messagequeue.go:192-197 | the token is there |
| MessageQueue.Queue.Close | main/messagequeue.go:199-205 | closed, with a token the first time |
| MessageQueue.Queue.Group | main/messagequeue.go:138-155 | the usable entries in runs of equal priority |
| MessageQueue.Queue.Strip | main/messagequeue.go:156-171 | drops exactly as many as asked for, the oldest of the largest numbers |
| MessageQueue.Queue.Prune | main/messagequeue.go:138-180 | a subsequence of the usable entries of length min(usable, maxSize), each dropped one behind or older than each kept one |
| MessageQueue.UsableComplete | main/messagequeue.go:144-148 | the usable entries are all that have not expired and no others |
| MessageQueue.PruneUnique | main/messagequeue.go:135-137 | only one queue meets that rule |
| MessageQueue.PruneTimes | main/messagequeue.go:138-180 | what is kept had not expired at that time, and what had not expired is dropped only from a full queue |
| MessageQueue.Queue.GetFirstUsableIndex | main/messagequeue.go:103-119 | the first unexpired entry, or an emptied queue |
| MessageQueue.Queue.GetFirst | main/messagequeue.go:83-100 | data and priority of the first unexpired entry, with all before it dropped |
| MessageQueue.Queue.PeekFirst | main/messagequeue.go:74-76 | the entry stays |
| MessageQueue.Queue.PopFirst | main/messagequeue.go:79-81 | the entry goes, once |
| MessageQueue.Queue.GetQueueDump | main/messagequeue.go:121-133 | the data in order, pruned first if asked for |
| MessageQueue.FirstIsOldestMostUrgent | main/messagequeue.go:102-112 | the entry handed out has the smallest number of all unexpired ones and is the oldest with it |
| MessageQueue.PeekThenPop | main/messagequeue.go:74-81 | at one time, both concern the same entry |
| Network.CollectMessages | main/network.go:377-408 | the packet is the data of the entries just popped, in the order of the queue; what is left is the end of the queue, and all else gone had expired at a look; there was room after each but the last, and it ends only when empty of messages, without room, or held back, which means asleep before a priority above -10 or throttled before one above 0; a client always asleep gets only -10 and less, one always throttled only 0 and less, if the clock stands still meanwhile |
| Network.HoldBack | main/network.go:381-391 | the test before each message: held back only for the answer last given and the message in front |
| Network.TakeNext | main/network.go:393-397 | the first unexpired message, with nothing else lost but what had expired; or none and an empty queue |
| Network.GuessCovers | main/network.go:399-402 | the guess at the next length is never below the longest message so far |
| Wakeup.StepKeeps | main/network.go:410-440 | every step of every thread keeps the invariant |
| Wakeup.EveryStateInvariant | main/network.go:410-440 | the invariant holds in every state of every run |
| Wakeup.NoLostWakeup | main/messagequeue.go:192-205 | a parked writer without a token means an empty queue or a Put yet to notify, and, if closed, a Close between its two steps |
| Wakeup.PendingPutWakes | main/messagequeue.go:69-71 | the Put that is yet to notify does wake the writer |
| Wakeup.NoDeadlock | main/network.go:410-440 | the writer can go on if and only if it is not asleep, has not left and does not wait for the lock; whoever holds the lock can go on and frees it |
| Wakeup.WriterStepProgress | main/network.go:414-438 | each step of the writer brings it nearer to its end, and messages sent followed by unexpired ones queued stay the same sequence |
| Wakeup.WriterDrains | main/network.go:410-440 | left to itself in any state, the writer stops within a bounded number of steps; on an open queue with a free lock it is then asleep, and has sent all that was unexpired, in order |
| MessageQueue.UsableFromFirst | main/messagequeue.go:102-119 | the usable entries are the first one handed out and those of the rest |
| Crc.CrcInit | main/gen_gdl90.go:226-241 | the table is each byte after eight shifts |
| Crc.CrcCompute | main/gen_gdl90.go:244-250 | the remainder of the message by 0x11021, without augmentation |
| Crc.GdlCrcDivides | main/gen_gdl90.go:244-250 | eight shifts and a byte at a time, the checksum is that remainder for messages of any length |
| Crc.GdlDivisor | main/gen_gdl90.go:226-241 | the divisor is x^16 + x^12 + x^5 + 1 |
| Crc.AdjacentErrorsDetected | main/gen_gdl90.go:244-250 | messages of equal length that differ only within two adjacent bytes have different checksums |
| Crc.InitCrcTables | dump978/uat2esnt.c:568-583 | the table, from words that are masked only at the end |
| Crc.Checksum | dump978/uat2esnt.c:585-596 | the remainder of the message times x^24 by the Mode S generator |
| Crc.ModeSCrcDivides | dump978/uat2esnt.c:585-596 | eight shifts with each byte entering on top, the checksum is that remainder for messages of any length |
| Crc.ModeSDivisor | dump978/uat2esnt.c:568-583 | the divisor is 0x1fff409 |
| Crc.ClosedFrame | dump978/uat2esnt.c:598-605 | a frame closed with its checksum leaves just the parity overlaid on it |
| Crc.ChecksumAndSend | dump978/uat2esnt.c:598-605 | only the last three bytes change, and the whole frame then leaves the parity |
| Gdl90.PrepareMessage | main/gen_gdl90.go:252-274 | flag, stuffed message and checksum, flag |
| Gdl90.FrameIs | main/gen_gdl90.go:252-274 | 0x7E, the stuffed message and remainder with the remainder's low byte first, 0x7E |
| Gdl90.StuffedAs | main/gen_gdl90.go:261-269 | 0x7E becomes 0x7D 0x5E, 0x7D becomes 0x7D 0x5D, every other byte stays |
| Gdl90.NoFlagInside | main/gen_gdl90.go:261-269 | no flag occurs inside a frame |
| Gdl90.UnstuffInverts | main/gen_gdl90.go:261-269 | unstuffing gives message and checksum back |
| Gdl90.StreamUnambiguous | main/gen_gdl90.go:252-274 | any concatenation of frames gives back exactly its messages, in order |
| Gdl90.Resynchronises | main/gen_gdl90.go:252-274 | also after any other bytes: a receiver that joins late or saw noise loses none of them |
| Gdl90.DamageRejectedIff | main/gen_gdl90.go:244-258 | message and checksum damaged, before stuffing, within two adjacent bytes are rejected if and only if the damage is not the same change to the last message byte and the low checksum byte |
| Gdl90.UndetectedDamage | main/gen_gdl90.go:253-258 | every nonempty message has such damage for every mask, and another message is received |
| Gdl90.PacketDelivers | main/network.go:377-408 | a packet of frames de-frames to exactly the messages popped, in order |
| Gdl90.MixedPacketDelivers | main/network.go:377-408 | whatever else is in the packet, every message sent as a frame is received, in order |
| LeastSquares.LinRegWeighted | common/equations.go:63-111 | the only line at which the weighted squared residual is stationary, or none |
| LeastSquares.LinReg | common/equations.go:21-56 | the result of the weighted fit with all weights 1 |
| LeastSquares.FitUnique | common/equations.go:21-56 | sums determine the result, so that LinReg and LinRegWeighted agree on equal weights of 1 |
| LeastSquares.FitIsOptimal | common/equations.go:106-110 | for nonnegative weights it has the least residual of all lines, and no other line has it |
| LeastSquares.DeterminantIsPairs | common/equations.go:101-104 | Sw*Swxx - Swx^2 is the sum over pairs of w_i*w_j*(x_i-x_j)^2 |
| LeastSquares.FitExists | common/equations.go:63-104 | for nonnegative weights, none exactly when the lengths differ or all positively weighted x coincide |
| LeastSquares.TriCubeWeight | common/equations.go:113-124 | between 0 and 1, and positive exactly inside the window |
| LeastSquares.TriCubeFormula | common/equations.go:113-124 | inside the window, weight * abs(h)^9 = (abs(h)^3 - abs(x-center)^3)^3 |
| Reader.Reader.HexByte | dump978/reader.c:174-199 | two hex digits, or negative |
| Reader.Reader.ProcessLine | dump978/reader.c:135-172 | hands over the frame on a line, if there is one |
| Reader.ParseLineIs | dump978/reader.c:135-172 | a line carries a frame if and only if it is the type character, pairs of hex digits in either case for at most 432 bytes, a semicolon, and anything |
| Reader.NoFrameIff | dump978/reader.c:135-172 | every other line carries none |
| Reader.TruncatedLine | dump978/reader.c:171 | in particular one without a semicolon |
| Reader.Reader.ProcessInput | dump978/reader.c:106-133 | hands over all complete lines and keeps the rest |
| Reader.Reader.ReadFrames | dump978/reader.c:59-96 | whatever the sizes of the reads, the frames of the bytes taken one at a time |
| Reader.ChunksCompose | dump978/reader.c:71-86 | the frames do not depend on where the stream is cut |
| Reader.BufferMatches | dump978/reader.c:106-133 | working on the buffer is working byte by byte |
| Reader.ShortLinesAllRead | dump978/reader.c:72-75 | with lines of at most 4096 bytes nothing is dropped |
| Reader.OverlongLineRestarts | dump978/reader.c:72-75 | the first 4096 bytes of a longer line are dropped and what follows is read as a line |
| Reader.AnyLineDelivered | dump978/reader.c:72-75 | a line of any length yields the frame on its last part, its length modulo 4096 |
| Reader.ReadAsItStands | dump978/reader.c:72-75 | it is read as it stands if and only if that part parses as the whole does |
| Reader.StreamDelivered | dump978/reader.c:59-96 | what any stream yields, line by line |
| Reader.OverlongLineMisread | dump978/reader.c:72-75 | a line without a frame from which one is read |
| Reader.DumpRawMessage | dump978/dump978.c:83-96 | type character, two hex digits a byte, the optional error count, the signal strength |
| Reader.PrintedShape | dump978/dump978.c:83-96 | a printed line fits the reader's buffer and has no newline inside |
| Reader.PrintedFields | dump978/dump978.c:83-96 | behind the bytes stand, in decimal, the error count unless it is 0 and the signal strength |
| Reader.RoundTrip | dump978/dump978.c:83-96 | any printed messages come back as the same frames, in order |
| Dlac.DecodeDlac | dump978/uat_decode.c:651-696 | ends, with the text of the six-bit codes in the buffer as far as it goes, a NUL behind it if it fits, and whether it does not |
| Dlac.TextBound | dump978/uat_decode.c:679-689 | k codes make at most 63 characters for every two and one for an odd one |
| Dlac.AlwaysFitsIff | dump978/uat_decode.c:653 | every text of n bytes fits the 1024-byte buffer if and only if n <= 25, with an overflowing one for each greater n |
| Dlac.DlacDecode | uatparse/uatparse.go:81-112 | ends, with the same text for the same bytes |
| Dlac.ExtractIsCode | uatparse/uatparse.go:87-97 | each of the four cases reads the next six bits of the stream |
| Dlac.AllCodesRead | uatparse/uatparse.go:85-110 | the loop ends after exactly floor(4n/3) codes |
| Dlac.TextExpandsCodes | uatparse/uatparse.go:98-108 | the text is the tab expansion of those codes |
| Dlac.AlphabetIs | uatparse/uatparse.go:28 | letters have the codes 1 to 26, a character from 32 up has its own, and the six others are named |
| Dlac.CodesOfPack | uatparse/uatparse.go:87-97 | packed codes come back, with one more of zero if and only if three are left over |
| Dlac.TextRoundTrip | uatparse/uatparse.go:81-112 | any characters and tabs, encoded and packed, are decoded as written, with a 0x03 behind them exactly then |
| Dlac.FormatDLACData | uatparse/uatparse.go:176-191 | split at 0x1E, and only what follows the last 0x1E at 0x03 |
| Dlac.SplitInvertsJoin | uatparse/uatparse.go:176-191 | splitting loses nothing and leaves no separator |
| Dlac.SplitUnique | uatparse/uatparse.go:176-191 | and is the only way to take the text apart |
| Dlac.RecordsAre | uatparse/uatparse.go:176-191 | what stands before the last 0x1E is split at 0x1E alone, what stands behind it at 0x03 alone |
| InfoFrames.UplinkMdb.DecodeInfoFrame | dump978/uat_decode.c:496-563 | the FIS-B part of a frame, if it has one |
| InfoFrames.UplinkMdb.DecodeUplinkMdb | dump978/uat_decode.c:589-617 | the slices of the application data, or nothing changed |
| InfoFrames.FisbWhen | dump978/uat_decode.c:496-563 | a frame has FIS-B data if and only if it is of type 0 and not shorter than the header its time option asks for; the data is the rest of it |
| InfoFrames.FisbSliced | dump978/uat_decode.c:496-563 | a type 0 frame packed from a header and a body has, once sliced, that header's fields and that body |
| InfoFrames.SliceTiles | dump978/uat_decode.c:595-616 | at most 70 frames that tile a prefix, FIS-B data inside its frame, and an end that is one of the four reasons to stop |
| InfoFrames.TilesDisjoint | dump978/uat_decode.c:595-616 | every frame lies in bounds behind the one before |
| InfoFrames.UnpackKept | dump978/uat_decode.c:595-616 | a packed, zero-padded list comes back up to its first empty frame of type 0 and the seventieth |
| InfoFrames.UnpackInvertsPack | dump978/uat_decode.c:595-616 | a packed, zero-padded list comes back whole if and only if it has at most 70 frames, none both empty and of type 0 |
| InfoFrames.HeaderRoundTrip | dump978/uat_decode.c:508-561 | FIS-B headers come back field by field, whatever the unused bits, if and only if they have no seconds of 32 or more beside a month |

## Left out

- The erasure branch and the DEBUG blocks of the decoder, and failing allocations: no caller uses the former.
- RsInit.FindPrimRoot: takes prim coprime to nn as a precondition, because for any other prim the loop does not end (`EndlessSearch`).
- RsInit.InitRsChar: takes prim coprime to 2^symsize - 1 as a precondition, because the search for iprim does not end otherwise; genpoly of a gfpoly that is not primitive is not described.
- RsCodec.Rs.DecodeRsChar: gfpoly is kept as a ghost field of the codec, because the C structure has only the tables.
- MessageQueue.Queue.Put: float32(len) > float32(maxSize)*1.1 is modelled as 10*len > 11*maxSize, without rounding; the clock is a parameter and the data is a byte slice.
- MessageQueue.Queue.FindInsertPosition: sort.Search is modelled as the binary search it is documented to be.
- Sharing of a Go slice's backing array between entries, packets and callers: slices are sequences.
- Network.CollectMessages: the answers of IsSleeping and IsThrottled and the clock are parameters, one value for each call; maxMsgLen becomes the length of the whole packet, as in the code.
- Wakeup.NoLostWakeup: covers writers that are neither sleeping nor throttled; data races on Closed are single reads and writes.
- Crc.ChecksumAndSend: the printing of the frame.
- Gdl90.DamageRejectedIff: damage to stuffed bytes, which may change what is an escape and so the length.
- LeastSquares.LinRegWeighted: real arithmetic in place of float64; the sum Swyy is computed and never used, as in the code.
- Reader.Reader.ReadFrames: reads and their errors are nondeterministic; opening and freeing the reader.
- Dlac.DecodeDlac: writes behind the end of the buffer, which C leaves undefined, are not made.
- InfoFrames.UplinkMdb.DecodeUplinkMdb: position, slot and site fields; the slot behind the last frame, whose length and type are overwritten before a break.
- The Go function DecodeUplink, whose overrun test differs from the C one.
- Altitude, speed and identification encoders, tables of categories: finite domains.
- Demodulation, geometry, AHRS, CPR encoding: transcendental functions and rounding.
- NMEA, APRS and AIS parsing, logging, process control, settings and the web interface.
