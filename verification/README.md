# ADSBin: what the signal and message core computes

A Dafny model of the parts of the ADSBin firmware that turn samples and bytes into aircraft and
time, and of the bench code that mirrors them, with proofs of what they promise together. Drivers,
tasks and clock readings are inputs. `dafny verify dfyconfig.toml` checks everything.

| files | what they model |
|---|---|
| `Arith`, `Bits`, `BitStrings`, `Bytes`, `Wrappers`, `Geo` | truncating division, machine words as naturals with exclusive-or and shifts; bytes, coordinates, options |
| `Gf256`, `Poly`, `Lfsr`, `Locator`, `RsCode` | the field GF(256) of polynomial 0x187, polynomials, linear recurrences, error locators, the Reed-Solomon code of RTCA DO-282B section 2.2.3 |
| `BerlekampMassey`, `RsDecoding`, `RsLoops`, `UatFec`, `Uplink` | the UAT encoder and decoder in place on their buffers, and the interleaved uplink frame |
| `Cpr`, `CprCache` | compact position reporting (RTCA DO-260B sections 2.2.3.2.3 and 2.2.3.2.4) over exact reals, with the encoder as the specification, and the per-aircraft pairing cache |
| `ModesCrc` | the 24-bit Mode-S parity (ICAO Annex 10 Volume IV section 3.1.2.3.3) |
| `Gdl90`, `Gdl90Crc`, `Gdl90Deframe`, `Gdl90Errors`, `CdcLink` | GDL90 framing (Garmin 560-1058-00 section 2.2), its deframer, what that makes of damaged bytes, and the console text that shares the link |
| `Calendar`, `Nmea`, `RmcLabels`, `Pps`, `PpsDrift`, `Ladder`, `LadderRuns`, `LadderClock`, `OwnshipRuns`, `ClockRuns`, `GpsTask`, `Seqlock` | the GPS clock: date arithmetic, the fix merge and the order of its labels, the PPS estimator and its drift, the quality ladder with its ownship side effects and what each rung publishes, the parts run together as the supervisor runs them, and the seqlock that publishes the result |
| `TrafficTable`, `Traffic` | the traffic table as a map bounded by its capacity |
| `PpmSlicer` | the fractional-rate pulse-position slicer |

Code that works in place is a class or a method over arrays, proved equal to a function of its old
state; the results about whole runs are lemmas about that function.

## Where code and comments differ

The model follows the code. These differences came out as results; where a promise fails, the
exact condition under which it holds is proved:

- The phase is said to be pinned exactly, at the captured clock of the edge. The code pins it to the
  clock the supervisor's tick reads when it notices the edge, so the published time is behind the
  edge's by that lag, up to a tick of the 5 Hz loop (`ClockRuns.PublishedTime`). A run from boot whose
  ticks come late by any lag below a second ends DISCIPLINED to 100 ns and behind its own edge by that
  lag (`ClockRuns.LateTicksFromBoot`); `ClockRuns.LagCondition` says exactly how much lag is harmless.
- The upper rungs publish from the last accepted edge only while the capture is readable and every new
  edge comes under a valid fix. Otherwise the turn leaves no anchor and the code publishes the plain
  NMEA label, still as DISCIPLINED to 100 ns: `ClockRuns.StaleLabelWhileDisciplined` is a run from boot
  that ends a second behind, however prompt its ticks. `ClockRuns.AccuracyCondition` says exactly when
  neither can happen.
- The drift is clamped at 100 ppm, but its integrator stands still at an error of 5 us a second, so a
  crystal more than about 5 ppm from the present drift is never learned
  (`PpsDrift.SteadyCrystal`, `PpsDrift.FastCrystalNotLearned`).
- The capture timer counts 40 MHz, 25 ns a tick, where several comments say 80 MHz.
- A refresh of the position is meant to take the newest fix, but on the rungs that bear a fix every
  tick pushes the parser's coordinates, valid or not: one void sentence at (0, 0) replaces the reference
  (`OwnshipRuns.VoidReplacesFix`). The reference is that of the latest valid fix exactly when no such
  tick has other coordinates in range (`OwnshipRuns.ReferenceFollowsFix`).
- The supervisor orders its side effects so that a reader never sees a valid ownship with a quality
  below NMEA_FIX, or the reverse. Only the reverse holds (`LadderRuns.LadderSafety`): the reference is
  visible beside the lower quality on every promotion, before the quality is published, and on every
  demotion, before the reference is cleared, and at no other time (`LadderRuns.QualitySetExposes`,
  `LadderRuns.TickExposes`, `LadderRuns.RunExposes`); four fixes from boot reach it
  (`LadderRuns.ExposedFromBoot`).
- The seqlock's fallback copy is described as the last coherent snapshot, but lies outside the
  sequence window. It is whole when no backup is under way as the copy begins and no publish
  completes during it (`Seqlock.FallbackUndisturbed`). With a publish under way it can mix the two
  snapshots exactly when they differ in two words and the backup is not finished
  (`Seqlock.FallbackTearsIff`), and such states are reached from boot (`Seqlock.FallbackCanTear`).
- Initialising the 1090 MHz demodulator at exactly 2 Msps is accepted; there every sample falls one
  half-bit late (`PpmSlicer.RateCondition`).
- The RMC handler accepts day 31 in every month, and a leap second at the end of a day, which run
  into the following days; with times of two decimals, an accepted label is below every later one
  exactly when its date is on the calendar and its second below 86400 (`RmcLabels.OrderCondition`).
- A time with more decimals is rounded to microseconds, so its label can equal the next midnight's
  (`RmcLabels.MidnightTie`). Labels of calendar dates never run backwards and coincide exactly where
  the rounding does (`RmcLabels.LabelsIncrease`, `RmcLabels.WeakOrderCondition`).
- `RELOCK_EDGES` never decides a relock: an unlock clears the edge credit, so a lock regained takes
  eight accepted edges like the first (`Pps.RelockTakesEight`).
- A GGA sentence that follows its RMC is never merged (`Nmea.Parser.HandleGga`).
- The generator polynomial is stored lowest degree first; its comment says highest first.

## Model

| member | source | states |
|---|---|---|
| Gf256.AlphaInjective | components/demod978/uat_fec.c:62-96 | the first 255 powers of alpha are distinct, which is what makes the log table well defined |
| Gf256.LogExists | components/demod978/uat_fec.c:62-91 | every non-zero byte is a power of alpha, so the walk fills the whole log table |
| UatFec.Codec.Init | components/demod978/uat_fec.c:70-99 | the one-time build leaves the exponent table holding alpha^(i mod 255) and the log table its inverse |
| UatFec.Codec.GfMul | components/demod978/uat_fec.c:104-111 | the log/exp lookup is the field product, defined independently as a product of polynomials modulo 0x187 |
| UatFec.Codec.GfInv | components/demod978/uat_fec.c:114-118 | the lookup is the multiplicative inverse |
| UatFec.Codec.GfAlphaPow | components/demod978/uat_fec.c:121-129 | alpha to any integer power, negative ones included, despite the truncating remainder |
| UatFec.Codec.BuildGenerator | components/demod978/uat_fec.c:148-168 | the in-place product equals the product of the linear factors, low degree first |
| RsLoops.GeneratorVanishes | components/demod978/uat_fec.c:131-168 | the generator polynomial is zero at alpha^(120+j) for every parity symbol j |
| RsLoops.CodewordsAreMultiples | components/demod978/uat_fec.c:131-204 | the words with zero syndromes are exactly the multiples of the generator polynomial |
| UatFec.Codec.Encode | components/demod978/uat_fec.c:174-204 | the shift register leaves the k message bytes alone and completes them to a codeword: every syndrome is zero |
| RsCode.SystematicUnique | components/demod978/uat_fec.c:174-204 | no other parity completes the message, so the encoding is determined by its contract |
| RsCode.CodewordRoots | components/demod978/uat_fec.c:131-138 | a codeword is a word whose polynomial vanishes at alpha^120 to alpha^(119+n-k) |
| RsCode.MinimumDistance | components/demod978/uat_fec.c:131-138 | two codewords that differ in at most n-k symbols are equal |
| UatFec.Codec.ComputeSyndromes | components/demod978/uat_fec.c:219-237 | the Horner loops give all syndromes, and the early exit is taken exactly on codewords |
| Lfsr.Massey | components/demod978/uat_fec.c:261-271 | Massey's bound: if a recurrence of length l fails at symbol r, every recurrence that also produces symbol r has length at least r+1-l |
| BerlekampMassey.StepNoDiscrepancy | components/demod978/uat_fec.c:258-260 | the loop invariant (constant term 1, degree at most L, minimal length, L + L' + m = r + 1, all symbols so far produced) survives a zero discrepancy |
| BerlekampMassey.StepLengthChange | components/demod978/uat_fec.c:261-271 | the invariant survives a length change, the old locator becoming the previous one |
| BerlekampMassey.StepSameLength | components/demod978/uat_fec.c:272-279 | the invariant survives a correction that keeps the length |
| UatFec.Codec.FindLocator | components/demod978/uat_fec.c:239-280 | the loop ends with a shortest recurrence that produces every syndrome |
| Poly.Vandermonde | components/demod978/uat_fec.c:282-286 | weights whose first power sums over distinct nodes all vanish are zero |
| Locator.RecurrenceVanishes | components/demod978/uat_fec.c:288-321 | with at most (n-k)/2 errors, any recurrence no longer than the error count has every inverse error position among its roots |
| RsDecoding.NearCodewordLocated | components/demod978/uat_fec.c:282-321 | if a codeword is within (n-k)/2 symbols, neither rejection test fires: L is at most the error count and the root count equals L |
| UatFec.Codec.FindRoots | components/demod978/uat_fec.c:297-315 | the search lists exactly the byte positions whose inverse power is a root |
| RsDecoding.DerivativeNonzero | components/demod978/uat_fec.c:356-368 | once the root count equals L the derivative is non-zero at each root, so the singular exit is never taken |
| Locator.Forney | components/demod978/uat_fec.c:323-375 | magnitudes computed from the evaluator and the derivative reproduce every syndrome |
| UatFec.Codec.Magnitude | components/demod978/uat_fec.c:345-374 | the loops compute X^(1-120) times the evaluator over the derivative at the inverse position |
| RsDecoding.CorrectionSound | components/demod978/uat_fec.c:338-381 | for any received word that reaches the correction, correctable or not, the result is a codeword |
| RsDecoding.RejectedOutcome | components/demod978/uat_fec.c:284-321 | -1 is returned only when no codeword is within (n-k)/2 symbols |
| UatFec.Codec.Decode | components/demod978/uat_fec.c:213-382 | for every received word: c >= 0 means the buffer is now a codeword exactly c <= (n-k)/2 symbols from what was received; -1 means the buffer is unchanged and no codeword is that near |
| RsDecoding.DecodesToSent | components/demod978/uat_fec.c:213-382 | any corruption of at most (n-k)/2 symbols of a codeword is undone exactly and counted exactly |
| RsDecoding.CodewordDecodesToItself | components/demod978/uat_fec.c:235-237 | a fresh encoding decodes to itself with count 0 |
| RsDecoding.DecodesToUnique | components/demod978/uat_fec.c:213-382 | the decoder's contract determines its result for every input |
| UatFec.Codec.UplinkDecode | components/demod978/uat_fec.c:405-442 | each block comes out as the codeword within 10 symbols of it, or as received where there is none; the payload is their data parts in order, the total is the symbols so changed, the failures are exactly the blocks with no such codeword, and success means every block has one |
| Uplink.BurstInBlock | components/demod978/uat_fec.c:397-416 | a burst of 60 on-air bytes reaches each codeword in at most 10 bytes |
| Uplink.DistanceOfFrame | components/demod978/uat_fec.c:412-431 | the per-block differences add up to the corrupted bytes of the frame |
| Uplink.BurstRepaired | components/demod978/uat_fec.c:405-442 | after any burst of up to 60 consecutive on-air bytes every block is correctable, its data part is the payload's, and the symbols changed are the corrupted bytes |
| Uplink.ReceiveBurst | components/demod978/uat_fec.c:405-442 | so the decoder returns success, no block error, the original payload and the number of corrupted bytes |
| Cpr.NlScan | components/modes_decode/cpr.c:76-100 | the early-exit scan counts the boundaries passed |
| Cpr.NlMeans | components/modes_decode/cpr.c:92-98 | 59 - k zones exactly between boundary k, included, and the next |
| Cpr.NlSymmetric | components/modes_decode/cpr.c:78-82 | the zone count is the same in both hemispheres |
| Cpr.NlNonIncreasing | components/modes_decode/cpr.c:87-99 | the zone count never grows towards the poles |
| Cpr.CprModIs | components/modes_decode/cpr.c:112-116 | the folded remainder is the mathematical one for dividends of either sign |
| Cpr.IndexModulo | components/modes_decode/cpr.c:142-151 | n k1 - (n-1) k0 + s is k0 + s modulo n and k1 + s modulo n-1, why one index serves both formats |
| Cpr.LatIndexIs | components/modes_decode/cpr.c:142-145 | for the even frame of one position and the odd frame of another, the index is 60 k1 - 59 k0 plus the rounded 59/6 of their encoded latitudes' difference |
| Cpr.LatSlack | components/modes_decode/cpr.c:142-145 | that difference rounds to nothing if and only if it is within 3/59 of a degree |
| Cpr.LonSlack | components/modes_decode/cpr.c:175-177 | the same for longitude, with NL (NL - 1) / 360 of the difference below a half |
| Cpr.GlobalInRange | components/modes_decode/cpr.c:128-200 | every accepted pair of 17-bit frames, matching or not, gives a latitude in [-90, 90] and a longitude in [-180, 180) |
| Cpr.GlobalRecovers | components/modes_decode/cpr.c:128-200 | an even frame from one position and an odd frame from another within that slack are accepted exactly when their encoded latitudes have equal zone counts; the later one's latitude then comes back within half a quantum, and so does its longitude modulo 360 when the two longitudes are within their slack |
| Cpr.GlobalExact | components/modes_decode/cpr.c:145-188 | of an accepted pair at any distance, the latitude is the later one's if and only if the slip is whole turns of zones, and likewise the longitude |
| Cpr.SlowEnough | components/modes_decode/cpr.c:142-177 | true positions a twentieth of a degree of latitude and 0.499 of a zone of longitude apart are within the slack |
| Cpr.NearestAngleUnique | components/modes_decode/cpr.c:223-239 | the decoded angle is the only value with the transmitted fraction inside the one-zone window around the reference, southern and western references included |
| Cpr.FoldOnceLands | components/modes_decode/cpr.c:245-246 | one fold always lands in [-180, 180] on the same meridian |
| Cpr.LocalRecovers | components/modes_decode/cpr.c:210-251 | every encoded position within half a zone of the reference is recovered within half a quantum, longitude modulo 360 |
| Cpr.LocalLatExact | components/modes_decode/cpr.c:223-227 | the latitude is the encoded one if and only if that is within half a zone of the reference |
| Cpr.LocalFix | components/modes_decode/cpr.c:210-251 | any frame at all: accepted exactly when the one latitude in the window that stands for its field is on the globe, with that latitude and the one longitude in the window of its zones |
| CprCache.Cache.GetSlot | components/modes_decode/modes_decode.c:670-700 | a hit, a first free slot or a least recently used victim, keeping the occupied slots a prefix of distinct aircraft |
| CprCache.Cache.OldestHeard | components/modes_decode/modes_decode.c:670-700 | the least recently used slot is that of the aircraft heard longest ago, by the reports received |
| CprCache.Cache.PositionCpr | components/modes_decode/modes_decode.c:702-772 | the result in every case, what is stored and what is counted; every half stays the latest frame of its own aircraft, and a counted global fix is that of the latest even and odd frames of this aircraft, no further apart than the configured age |
| CprCache.Cache.PositionFromPair | components/modes_decode/modes_decode.c:702-743 | the even frame of one position and the odd frame of another, in either order, within the configured age and close enough for the rounding, resolve to the later one within half a quantum when their encoded latitudes have equal zone counts |
| CprCache.Cache.PositionFromSecond | components/modes_decode/modes_decode.c:714-743 | the same from the second frame on, whatever other aircraft sent since the first |
| CprCache.Cache.PositionFromReference | components/modes_decode/modes_decode.c:745-772 | a frame whose position is within half a zone of the reference resolves to it within half a quantum, unless a pair settles it |
| ModesCrc.CrcTable.BuildEntry | components/modes_decode/modes_decode.c:108-126 | eight unmasked shifts then a mask give the remainder of the byte |
| ModesCrc.CrcTable.Compute | components/modes_decode/modes_decode.c:136-150 | the byte table computes the bit-by-bit division by x^24 + 0xFFF409 for messages of any length |
| ModesCrc.CrcTable.CheckCrc | components/modes_decode/modes_decode.c:237-290 | length, failure and acceptance, and which address is reported in each case |
| ModesCrc.AddressBits | components/modes_decode/modes_decode.c:275-290 | the reported address is bits 8 to 31 of the message |
| ModesCrc.FormatBits | components/modes_decode/modes_decode.c:268-275 | the frames judged by their parity alone are those whose first five bits are 17 or 18 |
| ModesCrc.DivisorIs | components/modes_decode/modes_decode.c:108-126 | x^24 leaves the remainder 0xFFF409 |
| ModesCrc.OverlayRecovered | components/modes_decode/modes_decode.c:262-266 | the reported overlay is an address exactly when the parity was sent combined with it |
| ModesCrc.AcceptedDivides | components/modes_decode/modes_decode.c:237-290 | a frame is accepted exactly when the whole frame divides without remainder |
| ModesCrc.BurstRejected | components/modes_decode/modes_decode.c:237-290 | an accepted frame is rejected after any non-empty change confined to 24 consecutive bits |
| ModesCrc.LongDivision | tools/bench/gdl90.py:433-456 | the bench's division of the message as one integer gives the same CRC |
| Gdl90.Encoder.Crc | components/sinks/gdl90_encoder.c:102-123 | the CRC, the table being built on first use |
| Gdl90Crc.CrcIsRemainder | components/sinks/gdl90_encoder.c:82-123 | the table fold is the bit-by-bit remainder of the message modulo x^16 + x^12 + x^5 + 1 for messages of any length |
| Gdl90Errors.DivisorIs | components/sinks/gdl90_encoder.c:82-99 | 16 bits are their own remainder, and x^16 leaves x^12 + x^5 + 1 |
| Gdl90.Encoder.FrameMessage | components/sinks/gdl90_encoder.c:173-214 | either the whole frame is written, its length returned, or the exact error; nothing at or past the capacity is touched |
| Gdl90.StuffedHasNoFlag | components/sinks/gdl90_encoder.c:141-160 | no flag inside a frame, and stuffing at most doubles |
| Gdl90Errors.StuffIsSpelled | components/sinks/gdl90_encoder.c:141-160 | the flag and the escape are escaped, and no other byte |
| Gdl90.FrameSize | components/sinks/gdl90_encoder.c:173-214 | a frame fits in 2(len+2)+2 bytes |
| Gdl90Deframe.ByteStuff | tools/bench/gdl90.py:100-110 | the bench stuffs as the firmware does |
| Gdl90Deframe.ByteUnstuff | tools/bench/gdl90.py:113-136 | the loop un-stuffs or reports a dangling escape |
| Gdl90Deframe.StuffRoundTrip | tools/bench/gdl90.py:100-136 | un-stuffing undoes stuffing |
| Gdl90Deframe.BenchCrc16 | tools/bench/gdl90.py:71-92 | the bench's masked fold is the firmware's CRC |
| Gdl90Deframe.SplitIsJoinInverse | tools/bench/gdl90.py:167-169 | the chunks joined by flags are the stream |
| Gdl90Deframe.ChunksHaveNoFlag | tools/bench/gdl90.py:167-169 | no chunk holds a flag |
| Gdl90Deframe.DeframeStream | tools/bench/gdl90.py:151-206 | the loop reads the chunks in order, skipping empty, badly escaped, short and unknown ones |
| Gdl90Errors.ChunkReported | tools/bench/gdl90.py:167-204 | any chunk between two flags is one frame when it un-stuffs to at least three bytes with a known id, its CRC accepted exactly when the last two bytes, low first, are the bitwise remainder of the rest; otherwise it is none |
| Gdl90Errors.BurstFlagged | tools/bench/gdl90.py:184-204 | a firmware frame whose id and payload changed in a burst of up to 16 bits, still under a known id, is reported as one frame with its CRC refused |
| Gdl90Errors.StraddlingBurstPasses | tools/bench/gdl90.py:192-195 | the same change of the last message byte and of the CRC's low byte is accepted, for every message |
| Gdl90Errors.UnstuffSpelled | tools/bench/gdl90.py:113-136 | un-stuffing reads any escaping of a body, needed or not |
| Gdl90Errors.DanglingExactly | tools/bench/gdl90.py:125-129 | an escape dangles exactly when the data ends in an odd number of them |
| Gdl90Deframe.DeframeAtFlag | tools/bench/gdl90.py:164-206 | the frames on the two sides of any flag do not depend on each other |
| Gdl90Deframe.ResyncAfterNoise | tools/bench/gdl90.py:151-206 | noise before the first frame costs no later frame |
| Gdl90Deframe.StreamRoundTrip | tools/bench/gdl90.py:151-206 | deframing the firmware's frames for any messages with known ids returns those messages, in order, each with its CRC accepted |
| CdcLink.Link.FilterTextBytes | tools/bench/cdc_link.py:249-277 | the state machine continues the text view of everything received, whatever the chunk boundary |
| CdcLink.Link.ConsumeLines | tools/bench/cdc_link.py:279-306 | nothing is lost, repeated or reordered in the line view or the byte view |
| CdcLink.Link.ReadLoop | tools/bench/cdc_link.py:215-241 | both views describe the concatenation of the chunks, so the chunking is invisible |
| CdcLink.Link.ReadBytes | tools/bench/cdc_link.py:310-321 | at most maxBytes bytes, first in first out |
| CdcLink.Link.PollLine | tools/bench/cdc_link.py:357-361 | lines are taken first in first out |
| CdcLink.StripCrMeans | tools/bench/cdc_link.py:303-305 | exactly the carriage returns at the end of a line go |
| CdcLink.LinesConcat | tools/bench/cdc_link.py:291-306 | only the unfinished line of what came before affects the lines that follow |
| CdcLink.TextOfWire | tools/bench/cdc_link.py:249-277 | for any interleaving of flag-free console text with firmware frames, the text view is the console text with one newline per frame |
| CdcLink.SharedLinkLines | tools/bench/cdc_link.py:249-306 | whole console lines come out exactly, with one blank line per frame |
| CdcLink.ReadSharedLink | tools/bench/cdc_link.py:215-306 | for every chunking of those bytes, a fresh link ends up holding exactly those lines, none unfinished, and all the bytes |
| Calendar.Epoch | components/gps_clock/gps_clock_nmea.c:226-240 | 1970-01-01 is day 0 |
| Calendar.Successor | components/gps_clock/gps_clock_nmea.c:232-240 | every Gregorian date, in any year, is one less than the day after it |
| Calendar.CountsDays | components/gps_clock/gps_clock_nmea.c:226-240 | n days later on the calendar is n more |
| Calendar.Injective | components/gps_clock/gps_clock_nmea.c:232-240 | no two calendar dates share a day number |
| Calendar.TimestampsIncrease | components/gps_clock/gps_clock_nmea.c:319-322 | second labels are ordered exactly as (date, second of day) |
| Calendar.DayOverflowAliases | components/gps_clock/gps_clock_nmea.c:311-316 | a day past the end of its month, which the handler accepts, is labelled as that day of the next month |
| Calendar.LeapSecondAliases | components/gps_clock/gps_clock_nmea.c:202-206 | second 86400, which the parser accepts, is labelled as the next midnight |
| Nmea.Parser.TryPublish | components/gps_clock/gps_clock_nmea.c:253-296 | when a fix is published, from which sentence its position comes, and that it is valid exactly when active, of good quality and on the globe away from null island |
| Nmea.Parser.HandleRmc | components/gps_clock/gps_clock_nmea.c:299-341 | a datable RMC publishes exactly one fix with its timestamp, the position and quality of a remembered GGA whose time of day rounds to the same hundredth of a second; any other changes nothing; the fix is valid exactly when active, of good quality and on the globe away from null island |
| Nmea.Parser.HandleGga | components/gps_clock/gps_clock_nmea.c:344-362 | a GGA is remembered for the next RMC and never publishes |
| Nmea.Parser.Feed | components/gps_clock/gps_clock_nmea.c:407-445 | after any batch of sentences the published label is that of the last one with a time and a date, each of those is one fix, and without one only the byte count changes |
| RmcLabels.LabelOf | components/gps_clock/gps_clock_nmea.c:319-332 | the published label is the day number and the time of day rounded to microseconds, though the code rounds the fraction of the second |
| RmcLabels.LabelCounts | components/gps_clock/gps_clock_nmea.c:309-331 | a sentence that writes the date n days after 1970-01-01 is labelled n days and its rounded time of day in microseconds |
| RmcLabels.LabelsIncrease | components/gps_clock/gps_clock_nmea.c:319-332 | on calendar dates and any number of decimals, a later (date, time of day) never has a smaller microsecond label; the two are equal exactly when both times round to one microsecond, of one day or across a midnight, and never with two decimals |
| RmcLabels.MidnightTie | components/gps_clock/gps_clock_nmea.c:319-332 | 23:59:59.9999999 and the following midnight have the same label |
| RmcLabels.OrderCondition | components/gps_clock/gps_clock_nmea.c:311-332 | with times of two decimals, an accepted sentence's label is below that of every later accepted one if and only if its date is on the calendar and its second below 86400 |
| RmcLabels.WeakOrderCondition | components/gps_clock/gps_clock_nmea.c:311-332 | with any number of decimals, an accepted sentence's label is above no later one's if and only if the days past the end of its month and its rounded time of day come to at most one day |
| Pps.Capture.Tick | components/gps_clock/gps_clock_pps.c:253-406 | every exit of the tick, with the estimator state and the signals it leaves |
| PpsDrift.AcceptedExactly | components/gps_clock/gps_clock_pps.c:253-334 | an edge is accepted exactly when the capture and the count moved by one pulse under a valid fix and the interval is a second within 200 us while locked, within 2 ms otherwise; every new edge, rejected or not, becomes the reference of the next interval |
| PpsDrift.LockAfter | components/gps_clock/gps_clock_pps.c:295-393 | the lock and its credit after every tick: lost exactly on an edge without a valid fix, the third rejection in a row or an edge whose second does not follow, gained exactly on the eighth following edge with two corroborated seconds |
| PpsDrift.SignalsAfter | components/gps_clock/gps_clock_pps.c:279-406 | convergence is reported exactly on an accepted edge that leaves the lock, and the edge count is the counter's movement |
| PpsDrift.DriftLaw | components/gps_clock/gps_clock_pps.c:361-384 | on an accepted following edge the reported phase error is what the last two edges' seconds, ticks and the drift leave over; while locked the drift moves toward cancelling it by a two-hundredth truncated, within the clamp, and not at all from 5000 ns on; on any other edge it stays |
| PpsDrift.SteadyStep | components/gps_clock/gps_clock_pps.c:361-380 | for a crystal of any constant error the mismatch between drift and crystal never grows at an edge, and falls by at least a part per billion while it exceeds 201 ns a second within the integrator's reach |
| PpsDrift.SteadyCrystal | components/gps_clock/gps_clock_pps.c:361-380 | the same over every run: below 5 us a second it falls to about 200 ns, beyond it the drift never moves |
| PpsDrift.FastCrystalNotLearned | components/gps_clock/gps_clock_pps.c:361-380 | a crystal 6 ppm fast leaves a drift of zero at zero for ever, though the clamp would allow it |
| Pps.ResetInv | components/gps_clock/gps_clock_pps.c:225-234 | the reset estimator satisfies the invariant |
| Pps.TickInv | components/gps_clock/gps_clock_pps.c:253-406 | locked implies seeded, two corroborated seconds and eight good edges; the drift stays within 100000 ppb; a seeded anchor is the last accepted second; the good edges are the latest accepted ones, single, in tolerance, on consecutive seconds |
| Pps.TickEffects | components/gps_clock/gps_clock_pps.c:318-379 | the drift moves only while locked and by at most 24 ppb an edge; an unlock leaves at most one edge of credit; only an accepted edge reports present |
| Pps.ConvergenceMeans | components/gps_clock/gps_clock_pps.c:385-405 | a reported convergence means the last eight accepted edges were single, in tolerance and on consecutive UTC seconds, and the phase is pinned to this one |
| Pps.RunInv | components/gps_clock/gps_clock_pps.c:225-406 | the invariant holds over every run |
| Pps.RelockTakesEight | components/gps_clock/gps_clock_pps.c:385-393 | a lock regained takes eight accepted edges less the credit kept, over any run |
| Pps.ThreeRejectsUnlock | components/gps_clock/gps_clock_pps.c:318-334 | three rejected edges with none accepted between them leave the estimator unlocked |
| Ladder.Supervisor.UpdateOwnship | components/ownship/ownship.c:258-290 | a valid reference with unusable coordinates is refused and leaves the old one |
| Ladder.Supervisor.ClearOwnship | components/ownship/ownship.c:326-362 | only a live GPS reference is cleared; a manual one is left |
| Ladder.Supervisor.SetQuality | components/gps_clock/gps_clock_supervisor.c:294-322 | the side effects of a rung change, in their order, each visible state recorded |
| Ladder.Supervisor.LadderStep | components/gps_clock/gps_clock_supervisor.c:336-471 | one step of the ladder on every branch, with every visible state it passes through |
| Ladder.Supervisor.TaskTick | components/gps_clock/gps_clock_supervisor.c:496-507 | one supervisor turn, the byte delta taken modulo 2^32 |
| LadderClock.RungAfter | components/gps_clock/gps_clock_supervisor.c:336-471 | the rung after a tick, each if and only if a condition on the inputs and counters before it |
| LadderClock.CountersAfter | components/gps_clock/gps_clock_supervisor.c:338-398 | what those counters count: silent ticks, ticks without a fresh fix or an edge, good fixes since, and the holdover uncertainty |
| LadderClock.IdleCounters | components/gps_clock/gps_clock_supervisor.c:338-372 | the same without a module and as it goes |
| LadderClock.TickPublishes | components/gps_clock/gps_clock_supervisor.c:244-287 | at NMEA_FIX the parser's label to 30 ms with the fix flag; on a move below it the monotonic clock, flagged as no time, which then stays; above it the rung's own uncertainty |
| LadderClock.IdleClock | components/gps_clock/gps_clock_supervisor.c:244-256 | over every run that ends below NMEA_FIX, the clock is the one of the last tick that changed the rung |
| LadderClock.HoldoverTimeline | components/gps_clock/gps_clock_supervisor.c:429-456 | coasting without edges from DISCIPLINED: one tick forgiven, HOLDOVER from the second at 100 ns and 2000 ns more each tick, NMEA_FIX from the twenty-seventh on |
| LadderRuns.BootInv | components/gps_clock/gps_clock_supervisor.c:516-534 | the state published at initialisation satisfies the invariant, whatever non-GPS reference ownship starts from |
| LadderRuns.FreshAtPromotion | components/gps_clock/gps_clock_supervisor.c:376-388 | the third good fix is the fresh one, so a promotion always has a usable position |
| LadderRuns.QualitySetInv | components/gps_clock/gps_clock_supervisor.c:294-322 | every rung change, in the order its side effects are given, keeps the safety property at each visible state |
| LadderRuns.LadderSafety | components/gps_clock/gps_clock_supervisor.c:336-471 | over every run, at every visible moment, a published fix-bearing quality comes with a valid reference; between ticks the GPS owns the reference exactly when the published quality bears a fix, FREE_RUNNING has fewer than three good fixes, and HOLDOVER publishes less than 50000 ns |
| LadderRuns.RungEntry | components/gps_clock/gps_clock_supervisor.c:405-470 | HOLDOVER is entered only from DISCIPLINED after two edgeless ticks, DISCIPLINED only on convergence, and a fix rung from below only as NMEA_FIX on a fresh fix |
| LadderRuns.FiveMissesDemote | components/gps_clock/gps_clock_supervisor.c:376-420 | five ticks without a fresh fix: no fix-bearing quality is published and the GPS owns no reference |
| LadderRuns.SilenceMeansNone | components/gps_clock/gps_clock_supervisor.c:338-361 | fifty ticks without a byte: NONE is published, from whatever rung |
| LadderRuns.HoldoverBudget | components/gps_clock/gps_clock_supervisor.c:440-456 | twenty-five unconverged ticks always end HOLDOVER |
| LadderRuns.QualitySetExposes | components/gps_clock/gps_clock_supervisor.c:294-322 | among the states a rung change passes through, one shows the GPS reference beside a quality below NMEA_FIX if and only if the change crosses that rung, upwards or downwards |
| LadderRuns.TickExposes | components/gps_clock/gps_clock_supervisor.c:336-471 | the same for a tick: if and only if the guards of the promotion or of a demotion hold before it |
| LadderRuns.RunExposes | components/gps_clock/gps_clock_supervisor.c:336-471 | over every run: if and only if some tick promotes or demotes |
| LadderRuns.ExposedFromBoot | components/gps_clock/gps_clock_supervisor.c:305-311 | four fresh fixes from boot show the GPS reference beside a quality below NMEA_FIX |
| OwnshipRuns.TickReference | components/gps_clock/gps_clock_supervisor.c:416-417 | a tick that ends on a fix rung leaves the parser's coordinates as the reference when they are in range, valid or not, and the old reference otherwise |
| OwnshipRuns.ReferenceFollowsFix | components/gps_clock/gps_clock_supervisor.c:416-417 | over every run, the reference on the fix rungs is at every tick the position of the latest valid fix if and only if no such tick has invalid coordinates that are in range and elsewhere |
| OwnshipRuns.VoidReplacesFix | components/gps_clock/gps_clock_supervisor.c:195-209 | four fixes from boot and then a void sentence at (0, 0): still NMEA_FIX, with the reference at (0, 0) |
| ClockRuns.RunInv | components/gps_clock/gps_clock_supervisor.c:477-507 | over every joint run of estimator and ladder both invariants hold |
| ClockRuns.DisciplinedMeansEightEdges | components/gps_clock/gps_clock_supervisor.c:421-429 | DISCIPLINED is entered only on a readable edge completing eight clean edges on consecutive UTC seconds |
| ClockRuns.PublishedTime | components/gps_clock/gps_clock_supervisor.c:263-282 | on every turn that publishes an upper rung from an anchor: the UTC second of the last accepted edge plus the local time since the edge itself, less the time between the edge and the tick that noticed it, within 100 ppm of the time since that tick and one microsecond; the plain NMEA label otherwise |
| ClockRuns.PublishedOverRuns | components/gps_clock/gps_clock_supervisor.c:477-507 | the same for the last turn of every joint run |
| ClockRuns.EveryRungOverRuns | components/gps_clock/gps_clock_supervisor.c:244-287 | what the last turn of every joint run publishes on every rung: the reading's own label at NMEA_FIX, the monotonic clock of the turn that changed the rung below it |
| GpsTask.TaskTurn | components/gps_clock/gps_clock_supervisor.c:477-507 | one turn of the task, parser, capture and ladder in its order, is one joint step; on NMEA_FIX the clock is the label of the turn's last sentence with a time and a date |
| ClockRuns.LagCondition | components/gps_clock/gps_clock_pps.c:308-310 | a turn that publishes from its anchor publishes the edge's time within that bound if and only if the anchor is no later than the bound, drift and rounding allowed for; on the tick that accepts the edge, if and only if it was latched at most a microsecond before |
| ClockRuns.AccuracyCondition | components/gps_clock/gps_clock_pps.c:269-310 | whatever label of the years 2000 to 2099 comes with the same edge, the published time is the last accepted edge's if and only if the capture is readable and not the first, any new edge comes under a valid fix, there is an anchor or this edge sets one, and the anchor is no later than the bound allows |
| ClockRuns.LateTicksFromBoot | components/gps_clock/gps_clock_pps.c:308-310 | for every lag below a second, a run from boot through eight clean edges, each noticed that late, that ends DISCIPLINED to 100 ns and behind its own edge by exactly that lag |
| ClockRuns.StaleLabelWhileDisciplined | components/gps_clock/gps_clock_supervisor.c:277-282 | a run from boot through eight clean edges that then publishes the previous second's label, a second and the lag of its ticks behind its own edge, as DISCIPLINED to 100 ns |
| Seqlock.BootInv | components/gps_clock/gps_clock_supervisor.c:127-129 | the zeroed start satisfies the invariant |
| Seqlock.StepInv | components/gps_clock/gps_clock_supervisor.c:137-177 | every step of the writer or of any reader keeps: a copy whose sequence has not moved is a prefix of the snapshot that sequence names |
| Seqlock.CleanReadIsOneSnapshot | components/gps_clock/gps_clock_supervisor.c:152-173 | in every interleaving of word steps, a clean read is one published snapshot, whole, and none older than the one current when the call began |
| Seqlock.HistoryIsPublished | components/gps_clock/gps_clock_supervisor.c:137-150 | snapshots are only added, each the argument of some publish |
| Seqlock.CallReturns | components/gps_clock/gps_clock_supervisor.c:161-176 | wait-freedom: a call returns within eight attempts' worth of its own steps, whatever the writer does |
| Seqlock.FallbackUndisturbed | components/gps_clock/gps_clock_supervisor.c:137-176 | with no backup under way as the copy begins, the fallback is the last published snapshot, whole, unless a publish completes during the copy |
| Seqlock.FallbackTearsIff | components/gps_clock/gps_clock_supervisor.c:137-176 | with a publish under way as the copy begins, storing or backing up, some continuation returns words equal to neither snapshot if and only if the two differ in at least two words and the backup is not finished, for any number of words |
| Seqlock.FallbackCanTear | components/gps_clock/gps_clock_supervisor.c:148-176 | such a mixture is reached from boot, through eight odd loads, for any two snapshots that differ in two words |
| TrafficTable.MergeKeepsLatest | components/traffic/traffic.c:337-405 | over any run of messages each field group, the time of the position and the signal level are those of the last message that carried them, and the counter saturates |
| TrafficTable.Dropped | components/traffic/traffic.c:541-576 | a message is dropped exactly when its position is impossible, its altitude above the ceiling or its range beyond the limit, each under its filter, and by the first that applies |
| TrafficTable.IngestedScreened | components/traffic/traffic.c:541-576 | with the filters on, every valid position in the table is on the globe away from the origin and every altitude at most the ceiling |
| TrafficTable.LiveSize | components/traffic/traffic.c:77-88 | the occupied slots are as many as the addresses in the map |
| TrafficTable.LiveUpdate | components/traffic/traffic.c:585-610 | writing one slot removes what it held from the map and adds the new target, nothing else |
| Traffic.Table.FindOldest | components/traffic/traffic.c:286-303 | an occupied slot heard no later than any other |
| Traffic.Table.Screen | components/traffic/traffic.c:541-576 | the first filter that drops a message, counted once |
| Traffic.Table.Ingest | components/traffic/traffic.c:519-650 | a filtered message changes only its counter; any other is merged into its 24-bit address or added, a full table losing exactly one least recently heard target and nothing else changing; the result and the fix counter follow from the table before and after; every counter is conserved |
| Traffic.Table.GeometryCurrent | components/traffic/traffic.c:232-255 | every live target has range and bearing exactly when ownship and its position are valid, and then those of the two |
| Traffic.Table.SetOwnship | components/traffic/traffic.c:652-682 | a missing or invalid reference is stored as none, and every target keeps all but its geometry, present exactly when both ends are valid |
| Traffic.Table.Age | components/traffic/traffic.c:684-735 | exactly the targets unheard for the expiry time go and are counted; a survivor keeps everything but a position that has grown stale |
| Traffic.Table.Clear | components/traffic/traffic.c:878-899 | the table is empty and the counters are kept |
| Traffic.Table.Bounded | components/traffic/traffic.c:80-83 | the tally is the size of the map and never exceeds the capacity |
| Traffic.Table.Get | components/traffic/traffic.c:741-764 | the record of the 24-bit address, if live |
| Traffic.Table.Snapshot | components/traffic/traffic.c:766-791 | the live targets in slot order, up to the caller's capacity |
| Traffic.ListedIsLive | components/traffic/traffic.c:766-791 | every listed target is the map's record of its address |
| Traffic.ListedOnce | components/traffic/traffic.c:766-791 | no address is listed twice |
| PpmSlicer.SamplesInTheirHalves | components/demod1090/demod1090.c:313-360 | above 2 Msps both samples of each of the 112 bits lie in their own half-bits: the truncated phase never drifts out |
| PpmSlicer.TwoMspsIsLate | components/demod1090/demod1090.c:676-682 | at exactly 2 Msps every sample lands one half-bit late |
| PpmSlicer.RateCondition | components/demod1090/demod1090.c:671-682 | among the accepted rates the slicer is aligned if and only if the rate exceeds 2 Msps |
| PpmSlicer.NoOverflow | components/demod1090/demod1090.c:313-347 | the 64-bit phase and the 32-bit indices hold for blocks of up to 2^31 samples |
| PpmSlicer.SliceBits | components/demod1090/demod1090.c:313-360 | each bit is the louder half at its two sample indices, zeros follow, and the loop stops at the first bit outside the block |
| PpmSlicer.FrameBitIs | components/demod1090/demod1090.c:340-356 | decision b is bit b of the frame sent most significant bit first |
| PpmSlicer.DemodulateFrame | components/demod1090/demod1090.c:297-360 | for every rate above 2 Msps, start and bit string that fits, exactly the bits of an ideal envelope come back |

## Left out

- USB, tuner, UART, PPS capture and ETM set-up, sockets, storage, tasks, locks, logging and the command line: inputs or omitted. Public calls that take a mutex run alone.
- Floating-point rounding: positions, rates and times are exact reals; a NaN or an infinity is one separate value.
- The great-circle range and bearing formulas (components/traffic/traffic.c:170-220) are parameters of the table.
- The relation of the NL boundary table to the arccosine formula of the bench.
- The Gillham altitude branch, the heartbeat and traffic message field packing, UAT field parsing and DF17 field decoding.
- The preamble detector, its pre-gate, and the magnitude table.
- Decimal and hexadecimal parsing of NMEA fields, the line assembler and its checksum: parsed values are inputs.
- The link's drain operation, which discards bytes but keeps the frame state.
- UTF-8 decoding of console lines: a line is its bytes.
- The ADS-B convenience wrappers of the UAT decoder, which call it with fixed sizes, and the traffic table's iterate, count and statistics getters.
- The six-block uplink encoder: the repository has none; `Uplink.Carries` says what a sent frame is.
- Counters of the traffic table, the estimator and the statistics are unbounded where the code has 32 or 64 bits.
- CprCache.Cache.GetSlot: takes the documented non-zero address; with address 0 and a full table the code punches a hole in the prefix.
- TrafficTable.MergeKeepsLatest: a field group whose flag is off is absent, so the stale value behind a cleared flag is not represented; the callsign is taken as already bounded and terminated.
- Seqlock.CleanReadIsOneSnapshot: assumes the fences give the word steps a total order, and that fewer than 2^32 sequence bumps happen within one read attempt.
- Seqlock.FallbackTearsIff: the continuation completes the one publish under way; a longer run can publish again and mix further snapshots.
- ClockRuns.PublishedTime: the label of an edge is the RMC second the code reads with it; that the receiver names the right second is not modelled. The capture timer and the microsecond clock are taken to run at one rate, so the lag of a tick is a difference of counts.
- ClockRuns.AccuracyCondition: the reading carries a label of the years 2000 to 2099, and the time since the anchor fits in 64 bits.
- RmcLabels.OrderCondition: takes a year that has a next one in the two characters of the date, for the sentence of the next midnight.
- RmcLabels.WeakOrderCondition: takes such a year too.
- PpsDrift.SteadyCrystal: edges a constant time apart on the tick's clock; the jitter of the polling tick is not averaged.
- LadderRuns.LadderSafety: the GPS is the only ownship writer during the run; the reference it starts from is arbitrary but not its own.
- PpmSlicer.SliceBits: positions are unbounded integers; PpmSlicer.NoOverflow bounds the code's 64-bit ones.
