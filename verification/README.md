# Skyblip, verified models

A Dafny model of the parts of Skyblip's firmware and host scripts whose correctness rests on an
argument and not on a reading: the codes that put a burst right, the framing around them, the
companion link's codec, the queue between two threads, the service that decides what a link may do
to the unit, and the line drawn on its panel.  `dafny verify dfyconfig.toml` checks all of it.

The models follow the source's own form.  What the source updates in place is a class or an array
that methods change; each such method is held to a function or a relation on values, and what the
source promises is proved of that.

| files | what they model |
|---|---|
| `GaloisField`, `Polynomials`, `ShiftRegister`, `ErrorPatterns`, `ReedSolomonCode`, `ReedSolomonGenerator`, `ReedSolomon` | RS(255,223): the field the tables build, the generator, encoding, and decoding by Berlekamp-Massey, Chien search and Forney. The main result is the contract of `Decode`: it repairs whatever can be repaired and refuses everything else. |
| `Scramble`, `UplinkFormat`, `Uplink` | XXTEA under a zero key and the uplink frame built on it and on the code, held to its bytes in numbers: targets sent are targets received, whatever 16 bytes were damaged. |
| `AdslCrc`, `SyndromeSearch`, `GrayCode`, `AdslCorrect`, `AdslSeal` | the CRC-24 of an ADS-L block, its table of single-bit syndromes, the binary search in the sorted one, and the corrector that sweeps the bits a receiver marked in Gray-code order. |
| `Manchester`, `Air` | chips and dead chips, the sync word that names one of two systems, and a burst from sender to corrected block. |
| `Cbor`, `CborFormat`, `BlipWriter`, `BlipReader` | the companion link's CBOR subset: printer and strict reader, an exact bijection between frames and accepted bytes, and the bytes those that RFC 8949 (sections 3 and 4.2.1) and RFC 3629 give. |
| `BusQueue` | the single-producer single-consumer ring as interleaved steps of two threads, and its two methods run alone. |
| `ConfigState`, `ConfigSafety`, `ConfigRuns`, `ConfigClaim`, `ConfigAnswers`, `ConfigSession`, `ConfigService` | prompts, upload window, claim, latches, nonce session and install decision: what each event does, what holds over every run, that other sessions might as well be silent, that a thing is said exactly when it is due, and the methods that do it, whose objects are tied to the runs by the history each keeps. |
| `Reports`, `ReportBytes`, `Replies` | multi-frame reports cut to a payload, their lengths those of their CBOR, and the one reply that waits while the link would block. |
| `ConfigReplies` | a command and its answer, service and replies together. |
| `Canvas` | Bresenham's line on the bit-packed grid. |
| `Remainders`, `Pigeonhole` | arithmetic and counting the others share. |
| `KeySlots`, `WordBytes` | four write-once seed slots under a supply that may fail between any two word writes. |
| `Annunciator` | the tune player against the score as written. |
| `Atmosphere` | the altitude table read both ways. |
| `Recorder`, `LogSession`, `Rings` | two bounded rings: records with the gaps where some were refused, and the flight log's sessions. |

What the proofs turned up:

- The version an upload is held to is stored when a firmware request is accepted
  (firmware/core/comms/config.cpp:238), not when its prompt is confirmed.  A second request accepted
  while the window is open therefore changes what may be installed without another press:
  `ConfigRuns.InstallsUnconfirmed` is such a run, `InstalledWasAskedFor` is what does hold, and
  `InstalledWasConfirmed` says exactly when the installed version is the confirmed one.
- A comment in firmware/core/protocol/air.cpp speaks of a sync tail of 23 bits; the constants make it
  24, and the model follows the constants.
- `altitude_mm_to_pressure_mpa` gives the least pressure for every altitude within the table but its
  lowest: rounding reaches that altitude before its pressure (`Atmosphere.FootIsNotLeast`, and the
  contract of `PressureMpa` for all altitudes).
- firmware/core/annunciation/annunciator.h:85 says a tune never starts over a sounding one.  It does
  when the first fix comes in the very pass in which a sounding call is dropped, and then only: the
  release forgets that a tone is on before the jingle is begun (`Annunciator.JumpsIn` in the contract
  of `Update`; `FixDuringCall` is such a run).
- A line and the line drawn back from its end are the same pixels exactly when none of them is a tie
  (`Canvas.ReversesUnlessTied`; from (0, 0) to (2, 1) they differ, `Canvas.ReverseMayDiffer`).

## Model

| member | source | states |
|---|---|---|
| GaloisField.GeneratorOrder | firmware/core/fec/reed_solomon.cpp:6-12 | doubling and folding by 0x11D never returns to 1 in fewer than 255 steps |
| GaloisField.ExpDistinct | firmware/core/fec/reed_solomon.cpp:7-11 | the 255 entries of the antilogarithm table are distinct |
| GaloisField.LogExists | firmware/core/fec/reed_solomon.cpp:7-11 | every nonzero byte is one of those powers |
| GaloisField.MulExp | firmware/core/fec/reed_solomon.h:30-33 | the product of two powers is the power of the sum of their exponents |
| GaloisField.TableProductIsFieldProduct | firmware/core/fec/reed_solomon.h:30-33 | the product by logarithm and antilogarithm is the shift-and-add product of polynomials modulo 0x11D, for all pairs of bytes |
| GaloisField.MulAssociates | firmware/core/fec/reed_solomon.h:30-33 | the table product associates |
| GaloisField.MulDistributes | firmware/core/fec/reed_solomon.h:30-33 | the table product distributes over exclusive or |
| GaloisField.InvCancels | firmware/core/fec/reed_solomon.h:34 | inverse gives the reciprocal of every nonzero byte |
| ReedSolomon.BuildTables | firmware/core/fec/reed_solomon.cpp:5-14 | the two loops fill the antilogarithm table with the powers and the logarithm table with their exponents |
| ReedSolomon.BuildGenerator | firmware/core/fec/reed_solomon.cpp:16-24 | the nested loop leaves the coefficients of the product of (x + g^i) for i below 32 |
| ReedSolomonGenerator.GeneratorRoots | firmware/core/fec/reed_solomon.cpp:16-24 | every one of the 32 powers is a root of the generator |
| ReedSolomonGenerator.EncodingIsCodeword | firmware/core/fec/reed_solomon.cpp:27-37 | data followed by the register that encode leaves has 32 zero syndromes |
| ReedSolomonGenerator.CodewordsAreEncodings | firmware/core/fec/reed_solomon.cpp:27-37 | the only codeword that begins with given data is the one encode makes |
| ReedSolomonCode.MinimumDistance | firmware/core/fec/reed_solomon.cpp:39-50 | two different codewords differ in at least 33 bytes |
| ReedSolomon.ReedSolomon255.Encode | firmware/core/fec/reed_solomon.cpp:27-37 | the parity written is the one with which the data is a codeword |
| ReedSolomon.ReedSolomon255.ComputeSyndromes | firmware/core/fec/reed_solomon.cpp:39-50 | the 32 Horner sums of the word, and whether all vanish |
| ShiftRegister.StepKeepsInvariant | firmware/core/fec/reed_solomon.cpp:71-94 | one turn of Berlekamp-Massey keeps: the register generates the syndromes seen, and the last failing register still stands by to correct it |
| ErrorPatterns.ShortestRegister | firmware/core/fec/reed_solomon.cpp:71-94 | a turn never makes the register longer than any damage that explains the syndromes |
| ErrorPatterns.LocatorRoots | firmware/core/fec/reed_solomon.cpp:107-119 | the roots of the finished locator are exactly the inverses of the damaged places |
| ErrorPatterns.RootsAreSimple | firmware/core/fec/reed_solomon.cpp:135-141 | at a damaged place the derivative does not vanish |
| ErrorPatterns.ForneyGivesTheValue | firmware/core/fec/reed_solomon.cpp:122-144 | evaluator over derivative, times the place, is the damage at that place |
| ReedSolomonCode.DecodingTheorem | firmware/core/fec/reed_solomon.cpp:59-152 | for any codeword within 16 bytes: the locator has that degree, its roots are that many places, no derivative vanishes there, and the corrected word is that codeword |
| ReedSolomon.ReedSolomon255.FindLocator | firmware/core/fec/reed_solomon.cpp:65-94 | the loop ends with the registers of the specification for the syndromes |
| ReedSolomon.ReedSolomon255.FindPositions | firmware/core/fec/reed_solomon.cpp:105-120 | the positions found are all the roots among the 255 places, ascending, or the search is refused |
| ReedSolomon.ReedSolomon255.FindEvaluator | firmware/core/fec/reed_solomon.cpp:122-125 | the evaluator is the product of syndromes and locator cut to 32 terms |
| ReedSolomon.ReedSolomon255.ValueAt | firmware/core/fec/reed_solomon.cpp:128-144 | the value written at a position is evaluator over derivative there, times the place |
| ReedSolomon.ReedSolomon255.Decode | firmware/core/fec/reed_solomon.cpp:59-152 | a result n at or above zero leaves a codeword exactly n bytes from the input and n is at most 16; a negative one is -1 and no codeword is within 16; any codeword within 16 bytes of the input is what comes back |
| Scramble.DescramblingInverts | firmware/core/fec/scramble.cpp:13-41 | descrambling a scrambled block gives the block back, for every block of two words or more and every loop count |
| Scramble.ScramblingInverts | firmware/core/fec/scramble.cpp:13-41 | scrambling a descrambled block gives the block back |
| Scramble.ScrambleKey0 | firmware/core/fec/scramble.cpp:13-26 | the array ends as the scrambled block, which `Xxtea.ScrambledIsXxtea` says is XXTEA's |
| Scramble.DescrambleKey0 | firmware/core/fec/scramble.cpp:28-41 | the array ends as the descrambled block |
| Xxtea.ScrambledIsXxtea | firmware/core/fec/scramble.cpp:5-26 | the scrambled block is XXTEA with a key of four zero words, for every block and number of rounds |
| UplinkRecords.UnpackPack | firmware/core/protocol/adsl_uplink.cpp:13-38 | a packed record reads back as the target cut to its field widths, the speed held at 255 |
| UplinkFormat.PackIsRecord | firmware/core/protocol/adsl_uplink.cpp:13-22 | a record in numbers, byte by byte: address, table and state, category, speed held at 255, latitude, longitude and altitude, little-endian two's complement |
| UplinkFormat.UnpackIsRecord | firmware/core/protocol/adsl_uplink.cpp:24-38 | any sixteen bytes are read as a target they are that record of |
| UplinkFormat.GateIsTheGlobe | firmware/core/protocol/adsl_uplink.cpp:47-52 | the gate lets through exactly an address that is not zero, within 90 degrees of latitude and 180 of longitude |
| Uplink.UnwhiteningUndoes | firmware/core/protocol/adsl_uplink.cpp:66-69 | unwhitening the whitened data gives it back, the three bytes past the last word included |
| Uplink.FrameOfIsFrame | firmware/core/protocol/adsl_uplink.cpp:55-74 | the frame sent is a codeword whose data is the cipher, under a zero key in six rounds, of version 1, count, key index, the targets' records and zeros |
| Uplink.DeliveredIsReceived | firmware/core/protocol/adsl_uplink.cpp:76-106 | what is delivered is what the deciphered data says: version 1 and at most 13 records or a refusal, and of the records met until there was no more room exactly those on the globe, the others counted as rejected |
| Uplink.DeliversWhatWasSent | firmware/core/protocol/adsl_uplink.cpp:76-106 | a frame at most 16 bytes from the one sent for targets with an address in 24 bits and a place on the globe gives them back in order, as carried, with the number of damaged bytes and none rejected |
| Uplink.AdslUplink.Encode | firmware/core/protocol/adsl_uplink.cpp:55-74 | Full and nothing written above 13 targets, else the frame of these targets, which is that of `Uplink.IsFrame` in numbers |
| Uplink.AdslUplink.Decode | firmware/core/protocol/adsl_uplink.cpp:76-106 | Crc exactly when no codeword is within 16 bytes; otherwise what that codeword's deciphered data says, byte by byte; every target delivered has an address and is on the globe, and rejected counts exactly the records met that are not; every frame sent for targets on the globe and damaged in at most 16 bytes comes back |
| AdslCrc.AdslCrcPass | firmware/core/fec/crc.cpp:5-13 | the eight turns of the register for one byte |
| AdslCrc.StepXor | firmware/core/fec/crc.cpp:8-11 | a turn of the register is linear over exclusive or |
| AdslCrc.RegisterFlip | firmware/core/fec/crc.cpp:15-19 | flipping one bit of a block changes the register by what that bit alone leaves in it |
| AdslCrc.TableIsImpulse | firmware/core/protocol/adsl.cpp:126-151 | every entry of the syndrome table is what its bit, alone in the block, leaves in the check |
| AdslCrc.CheckFlip | firmware/core/protocol/adsl.cpp:119-151 | flipping a bit changes the check by its table entry |
| SyndromeSearch.EntriesAscend | firmware/core/protocol/adsl.cpp:154-182 | the sorted table ascends |
| SyndromeSearch.EveryBitHasEntry | firmware/core/protocol/adsl.cpp:154-182 | every one of the 192 bits has its entry in the sorted table |
| SyndromeSearch.SyndromesDistinct | firmware/core/protocol/adsl.cpp:126-182 | no two bits share a syndrome |
| SyndromeSearch.FindCrcSyndrome | firmware/core/protocol/adsl.cpp:153-195 | the bit with this syndrome if there is one, else 0xFF, for every 24-bit value |
| AdslSeal.SealIsTheOnlyOne | firmware/core/fec/crc.cpp:21-28 | of all three-byte endings only the computed one makes a block pass the check |
| AdslSeal.AdslCrcCompute | firmware/core/fec/crc.cpp:21-28 | three zero bytes through the register after the block |
| AdslSeal.SetCrc | firmware/core/protocol/adsl.cpp:108-113 | the block is clean afterwards and its first 21 bytes are untouched |
| AdslCorrect.AdslCrcCheck | firmware/core/fec/crc.cpp:15-19 | the check of the whole block |
| GrayCode.GrayStep | firmware/core/protocol/adsl.cpp:234-239 | consecutive Gray codes differ in exactly the lowest set bit of the count |
| GrayCode.UngrayInverts | firmware/core/protocol/adsl.cpp:234-235 | every mask is the Gray code of one number, so the sweep meets every subset |
| AdslCorrect.SweepDecides | firmware/core/protocol/adsl.cpp:231-248 | when no stop of the sweep is clean or one bit from clean, no change of marked bits and one more makes the block clean |
| AdslCorrect.OneBitAway | firmware/core/protocol/adsl.cpp:198-206 | a block whose check is a syndrome is one bit from clean: flipping that bit gives the only clean block so near |
| AdslCorrect.FreshBit | firmware/core/protocol/adsl.cpp:240-247 | at the first stop one bit from clean that bit is not among those flipped, so the count returned is exact |
| AdslCorrect.Sweep | firmware/core/protocol/adsl.cpp:231-249 | the loop over Gray codes flips one marked bit a turn, keeps the check beside the block, and ends with the first stop in its order that is clean or one bit from it, put right; or with -1 when no stop is |
| AdslCorrect.FirstStopIsOne | firmware/core/protocol/adsl.cpp:231-249 | of several clean blocks in reach only one is at the first stop, so marks and order decide which comes back |
| AdslCorrect.Correct | firmware/core/protocol/adsl.cpp:198-250 | a count at or above zero is returned exactly when the marked bits (at most max_erasures of them) and one other can make the block clean; then it is clean, changed in exactly that many bits, at most one of them unmarked, and it is the block of the first stop that is clean or one bit from it; a clean block within one bit is the one that comes back |
| Manchester.DecodeTableIs | firmware/core/fec/manchester.cpp:8-25 | every one of the 256 entries gives the second chip of each pair and marks the pairs that are equal |
| Manchester.Encode | firmware/core/fec/manchester.cpp:31-36 | each bit goes out as two chips, 10 for zero and 01 for one |
| Manchester.Decode | firmware/core/fec/manchester.cpp:38-50 | each bit is the second chip of its pair and is marked exactly when the pair is dead; the number of marks is returned |
| Air.ShiftLeft | firmware/core/protocol/air.cpp:28-36 | the buffer moves up by any number of bits, zeros entering at the end |
| Air.NamesNeverCross | firmware/core/protocol/air.cpp:9-26 | no chips are within one bit of both sync words |
| Air.OneWrongBitKeepsTheName | firmware/core/protocol/air.cpp:18-26 | a tail at most one bit off a sync word is given that name |
| Air.MBandPayload | firmware/core/protocol/air.cpp:51-58 | the rest of the sync word and the frame, Manchester coded |
| Air.EncodeMBand | firmware/core/protocol/air.cpp:60-67 | the whole sync word and the frame, Manchester coded |
| Air.ReceiveMBand | firmware/core/protocol/air.cpp:77-92 | refused when short or unnamed; else the frame behind the tail with its dead pairs erased, of 24 bytes or 26 by its name, and the dead pairs of that many bytes counted, no others |
| Air.HeardIsReceived | firmware/core/protocol/air.cpp:77-92 | a frame heard with one wrong tail bit keeps its name and is wrong only where pairs were dead or turned; its length is 24 bytes or 26 by the sync word, and exactly its own dead pairs are counted |
| Air.UndamagedComesBack | firmware/core/protocol/air.cpp:60-92 | what encode_m_band sent, its two window bytes consumed and anything following, is received whole under its own name with no erasure; of 24 bytes under 0xF5724B18 and of 26 under 0xF531FAB6 with that length and no bad chip |
| Air.SendAndReceive | firmware/core/protocol/air.cpp:60-92 | a burst sent under either sync word and heard behind its window, whatever follows: its name, its length, its bytes, and no bad chips |
| Air.HeardIsRepairable | firmware/core/protocol/adsl.cpp:198-250 | a clean ADS-L frame heard with at most six dead pairs and one turned bit is within what correct repairs |
| Air.ReceiveAdsl | firmware/products/skyblip_go/services/traffic.cpp:215-222 | from chips to block: what is taken is clean and was named ADS-L, no block heard with at most six dead pairs and one turned bit is lost, and with no pair dead it is the block that was sent |
| CborValues.HeadsArePrefixFree | scripts/blip_frames.py:196-206 | no head begins another |
| CborValues.PrefixFree | scripts/blip_frames.py:168-193 | no printed value begins another, nested lists and maps included |
| CborValues.CodedIsOneToOne | scripts/blip_frames.py:162-193 | two values print alike only if they are one value |
| CborValues.OnlyFramesPrintAsFrames | scripts/blip_frames.py:162-283 | of all printable values exactly the frames of the grammar print as one |
| Utf8Text.Utf8IsEncodedPoints | scripts/blip_frames.py:273-277 | the byte ranges text is held to are exactly the encodings of code points that are no surrogates, as RFC 3629 section 3 writes them |
| CborFormat.ShortestIsBytes | scripts/blip_frames.py:196-206 | the head printed is, of all heads with this initial byte and argument by RFC 8949, the only shortest |
| CborFormat.CodedIsTheFormat | scripts/blip_frames.py:162-206 | what is printed is the value by RFC 8949 in its numbers: 0x00 unsigned, 0x20 negative, 0x40 bytes, 0x60 text, 0x80 array, 0xA0 map, 0xF4 and 0xF5, arguments most significant byte first, keys ascending; and a value has no other bytes, or none when it does not fit |
| CborFormat.FramesAreTheGrammar | scripts/blip_frames.py:1-10 | a frame is a map of unsigned keys with nothing nested but arrays of unsigned integers, and with bytes, all arguments within 32 bits |
| SortedKeys.SortedIsTheOnlyOne | scripts/blip_frames.py:189 | ascending order of the keys is unique, so a map has one printed form |
| BlipWriter.Writer.Head | scripts/blip_frames.py:196-206 | the shortest head, refused above 32 bits |
| BlipWriter.Writer.Put | scripts/blip_frames.py:168-193 | appends the value exactly when every argument fits 32 bits |
| BlipReader.Reader.Take | scripts/blip_frames.py:222-227 | the next bytes, or truncated |
| BlipReader.Reader.Head | scripts/blip_frames.py:229-239 | reads a head only in its shortest form; failing, no head of the grammar stands there |
| BlipReader.Reader.Items | scripts/blip_frames.py:267-268 | reads the items of an array; failing, no such array stands there |
| BlipReader.Reader.ReadValue | scripts/blip_frames.py:257-271 | reads the one value whose bytes stand there; failing, none does |
| BlipReader.Reader.ReadText | scripts/blip_frames.py:273-277 | text of valid UTF-8, else refused |
| BlipReader.Reader.UnsignedItem | scripts/blip_frames.py:279-283 | an unsigned integer, else none stands there |
| BlipReader.Reader.Frame | scripts/blip_frames.py:241-255 | reads the one frame that stands there; failing, none does |
| BlipReader.Encode | scripts/blip_frames.py:162-165 | the bytes RFC 8949 gives the value, in numbers and in the shortest form, and a refusal exactly when it has none within 32 bits |
| BlipReader.Decode | scripts/blip_frames.py:209-214 | accepts exactly the bytes that RFC 8949 gives some frame of the grammar, and gives that frame |
| BlipReader.DecodeEncoded | scripts/blip_frames.py:162-214 | of everything the printer takes, frames and nothing else decode, to themselves |
| BusQueue.FullTest | firmware/core/bus/bus.h:20-25 | next == tail exactly when Capacity items are in flight by the tail loaded |
| BusQueue.EmptyTest | firmware/core/bus/bus.h:32-33 | tail == head exactly when nothing is there by the head loaded |
| BusQueue.StepKeepsInvariant | firmware/core/bus/bus.h:19-37 | every step of either thread, index loads as stale as they may be, keeps slots, counts and verdicts right |
| BusQueue.EveryInterleavingIsSafe | firmware/core/bus/bus.h:19-37 | over every interleaving: no slot is written while it is read, pops are a prefix of accepted pushes, at most Capacity in flight, accepted and refused make up attempted |
| BusQueue.VerdictsAreRight | firmware/core/bus/bus.h:20-33 | a push is refused exactly when full by the tail it loaded, a pop comes back empty exactly when nothing was there by its head |
| BusQueue.Queue.Push | firmware/core/bus/bus.h:19-29 | alone: appended, or refused when full and counted |
| BusQueue.Queue.Pop | firmware/core/bus/bus.h:31-37 | alone: the oldest item, or nothing when empty |
| ConfigClaim.StepUnsaid | firmware/core/comms/config.cpp:24-492 | no event does or says anything different for what was said before it: it only adds to it |
| ConfigClaim.OthersMightAsWellBeSilent | firmware/core/comms/config.cpp:276-281 | over every run, with every frame of a session that did not hold the link left out, prompt, window, latches, settings, claim and nonce session stand just as they do with it, and everything is said just as it is with it but the word to those sessions that another holds the link |
| ConfigSafety.PromptStep | firmware/core/comms/config.cpp:197-208 | a prompt stands after an event exactly if the event raised it, or it stood and the event did not end it |
| ConfigSafety.WindowStep | firmware/core/comms/config.cpp:24-59 | the same for the upload window |
| ConfigSafety.LatchStep | firmware/core/comms/config.cpp:425-485 | the same for the recovery, power-off, erase and cold-start latches |
| ConfigSafety.InstallStep | firmware/core/comms/config.cpp:248-265 | the same for the install latch |
| ConfigRuns.StandsExactlySince | firmware/core/comms/config.cpp:24-492 | over every run, window, prompt, latch or install stands exactly if one event began it and none since ended it: the window by a powered on-ground confirm of a firmware prompt, each latch by a confirm of its own prompt on the ground |
| ConfigRuns.InTheAir | firmware/core/comms/config.cpp:43-59 | over every run, airborne, the window is shut and no prompt but Register stands |
| ConfigRuns.NothingStandsLong | firmware/core/comms/config.cpp:24-41 | after the last tick an open window is under ten minutes old and a standing prompt under thirty seconds, by true time across wraps of the counter |
| ConfigRuns.ApprovedIsLastAsked | firmware/core/comms/config.cpp:238 | the version held is the one of the last accepted firmware request |
| ConfigRuns.InstalledWasAskedFor | firmware/core/comms/config.cpp:248-265 | an install is requested only for a finished, signed upload of the version last asked for, in the window, on the ground and powered |
| ConfigRuns.InstalledWasConfirmed | firmware/core/comms/config.cpp:238-265 | it is the version the press confirmed exactly when no later accepted request asked for another |
| ConfigRuns.InstallsUnconfirmed | firmware/core/comms/config.cpp:238-265 | a run in which the version installed is not the one any press confirmed |
| ConfigRuns.SettingsWereConfirmed | firmware/core/comms/config.cpp:366-388 | every settings frame applied was the last one shown when a press on powered ground confirmed it |
| ConfigRuns.AppliedStep | firmware/core/comms/config.cpp:437-458 | settings are written by a powered press on the ground on a Set prompt that the store accepts, the frame it showed, and by nothing else |
| ConfigRuns.NoNonceTwice | firmware/core/comms/identity_link.cpp:144-172 | over every run no nonce has a code checked against it twice |
| ConfigService.LinkClaim.Grant | firmware/core/comms/link_claim.h:10-16 | the first session to speak becomes the holder and only the holder is granted |
| ConfigService.IdentityLink.Open | firmware/core/comms/identity_link.cpp:32-39 | the sender has a live session under a nonce not used before and nobody else has one; when no nonce can be drawn nobody has |
| ConfigService.IdentityLink.Tick | firmware/core/comms/identity_link.h:46-48 | no session loses its life by it, and one left open is live |
| ConfigService.IdentityLink.Forget | firmware/core/comms/identity_link.h:51-55 | the session that left is live at no time and no code is held for it; what any other session has is untouched |
| ConfigService.ConfigService.Tick | firmware/core/comms/config.cpp:24-41 | keeps what its history makes of it; afterwards an open window is under ten minutes old with no upload finished, a standing prompt is the one that stood and under thirty seconds old, and a new install request is for a signed upload of the version last accepted, powered and on the ground |
| ConfigService.EverythingHasItsEvent | firmware/core/comms/config.cpp:24-492 | of any service, whatever was called on it: the window, a prompt, a latch or an install request stands exactly if one event of its life began it and none since ended it |
| ConfigService.UploadsWereAuthorised | firmware/core/comms/config.h:110 | an upload is allowed only since a press that found a firmware prompt on powered ground, under ten minutes before the last tick, with no airborne report, cancel, closing or loss of the holder since |
| ConfigService.PromptsAreFresh | firmware/core/comms/config.cpp:36-58 | a standing prompt was raised under thirty seconds before the last tick; airborne only Register stands and the window is shut |
| ConfigService.NothingWasGrantedUnasked | firmware/core/comms/config.cpp:248-265 | an install request is for the version of the last accepted firmware request, every settings frame applied was shown and confirmed, and no nonce was tried twice |
| ConfigService.ConfigService.SetFlightState | firmware/core/comms/config.cpp:43-59 | keeps what its history makes of it; airborne leaves no open window and no prompt but that of a unit not yet activated, and any other state leaves both as they were |
| ConfigService.ConfigService.OnLinkDown | firmware/core/comms/config.cpp:91-101 | keeps what its history makes of it; the session holds neither claim nor live nonce afterwards, and prompt, window and claim end exactly if it was the holder |
| ConfigService.ConfigService.OnRx | firmware/core/comms/config.cpp:276-318 | keeps what its history makes of it; no frame opens a window, sets a latch or writes settings, only the holder's touches prompt or version, and the first to speak holds the link; exactly what is due is said, every refusal when and only when its reason is the first that holds; a question that can be answered is, whatever the unit is doing |
| ConfigService.ConfigService.SettleUnlock | firmware/core/comms/identity_link.cpp:175-187 | a held code is held no longer, and the unit is activated by it exactly if power and storage allowed |
| ConfigService.ConfigService.Confirm | firmware/core/comms/config.cpp:425-485 | keeps what its history makes of it; no prompt stands afterwards, and window, settings and latches changed only as the prompt found asked, on the ground (and powered, for the first two) |
| ConfigService.ConfigService.Cancel | firmware/core/comms/config.cpp:487-492 | keeps what its history makes of it; no prompt and no window stands and nothing was granted |
| Reports.Budget.Take | firmware/core/util/cbor.cpp:161-167 | an entry is taken exactly when the map with it fits |
| Reports.Writer.Add | firmware/core/util/cbor.cpp:173-190 | an entry is refused exactly when its key is out of order, the map is full or it does not fit |
| Reports.Report.FitsPayload | firmware/core/comms/diagnostics.cpp:291-302 | whether header and widest field fit |
| Reports.Report.Pack | firmware/core/comms/diagnostics.cpp:307-319 | as many fields in line of one group as fit, and no fewer |
| Reports.Report.NextFrame | firmware/core/comms/diagnostics.cpp:304-343 | the next frame: of one group, as full as can be, within the room; progress whenever fits said yes |
| Reports.ChainIsTheReport | firmware/core/comms/diagnostics.cpp:304-343 | the frames carry every field once and in order, are numbered, never mix groups, and say more in all but the last |
| ReportBytes.FrameLength | firmware/core/comms/diagnostics.cpp:304-343 | the length counted for a frame is that of its map in CBOR: command, group, part, more and the fields under their keys |
| ReportBytes.FramesFit | firmware/core/comms/diagnostics.cpp:304-343 | every frame of a report, as it stands on the link, is within the room it was cut for |
| Replies.ReplyService.Deliver | firmware/core/comms/config.cpp:154-166 | one frame waits for the link, from now on, a second is dropped, a wide one refused; every frame is sent, waits or is counted as a drop, and goes to the session it is for |
| Replies.ReplyService.ReplyTo | firmware/core/comms/config.cpp:147-151 | a frame too wide for the holder is answered with small_mtu, and this ends |
| Replies.ReplyService.StartReport | firmware/core/comms/config_reports.cpp:187-198 | all or nothing: cut and sent to the holder from the first field, or refused with nothing of it sent; on a link that blocks its first frame waits from this moment |
| Replies.ReplyService.ContinueReport | firmware/core/comms/config_reports.cpp:202-215 | frames go out until one waits, the report ends or the link fails it; an unfinished report always leaves a frame waiting |
| Replies.ReplyService.ResumeReplies | firmware/core/comms/config_reports.cpp:217-234 | the waiting frame first, then the rest in order; a frame the link still blocks waits on, its report behind it, exactly if it first had to wait less than two seconds ago, and else both are given up and counted; a report fails only because the link refused a frame of it, cannot carry it, or kept one waiting past its ceiling; and a willing link leaves nothing waiting |
| Replies.ReplyService.Outwait | firmware/core/comms/config_reports.cpp:217-234 | over any passes at which the link blocks, a waiting frame and its report wait on exactly if every pass came less than two seconds after the frame first had to wait, by true time across wraps of the counter |
| Replies.ReplyService.AskBlocked | firmware/core/comms/config_reports.cpp:187-234 | the same from the call that starts a report while the link blocks |
| Replies.ReplyService.OnHolderDown | firmware/core/comms/config.cpp:91-101 | nothing waits and no report runs afterwards; the frame that waited is the only kind that is neither taken nor counted |
| Replies.ReplyService.Reply | firmware/core/comms/config.cpp:132-166 | any other answer leaves what was delivered of a report as it is and is dropped while one waits; on a willing link it goes out, or small_mtu to the holder for it |
| Replies.DeliveredIsThePrefix | firmware/core/comms/config_reports.cpp:187-234 | what the link has taken is always an in-order beginning of the report, and all of it once nothing is left to say and the link failed nothing |
| Canvas.AcrossIsNearest | firmware/ui/canvas.cpp:69-88 | the closed form of a pixel is the nearest one, the lower of two as near |
| Canvas.ErrorStep | firmware/ui/canvas.cpp:79-86 | one turn of the error term moves the long axis and keeps the nearest pixel |
| Canvas.EndsOfTheLine | firmware/ui/canvas.cpp:69-88 | max(dx, dy) + 1 pixels, from one endpoint to the other |
| Canvas.StepsAreSmall | firmware/ui/canvas.cpp:79-86 | each pixel is one step of the longer axis from the one before |
| Canvas.WithinHalfAPixel | firmware/ui/canvas.cpp:69-88 | every pixel is within half a pixel of the ideal line, in all octants |
| Canvas.AcrossBothWays | firmware/ui/canvas.cpp:69-88 | a pixel drawn from one end and from the other agree but at a tie, where they are one apart |
| Canvas.ReversesUnlessTied | firmware/ui/canvas.cpp:69-88 | a line has the same pixels drawn back from its end exactly if its longer extent is not divisible by a higher power of two than its shorter |
| Canvas.Canvas.SetPixel | firmware/ui/canvas.cpp:47-55 | one pixel painted, or none outside the grid, and no other changed |
| Canvas.Canvas.GetPixel | firmware/ui/canvas.cpp:57-60 | the pixel, white outside the grid |
| Canvas.Canvas.DrawLine | firmware/ui/canvas.cpp:69-88 | the loop ends having painted exactly the pixels of the closed form that fall in the grid |
| KeySlots.WholeSeed | firmware/core/identity/key_slots.cpp:42-50 | a slot with no erased word, written from one seed, reads back as that seed |
| KeySlots.CurrentIsOneDraw | firmware/core/identity/key_slots.cpp:58-64 | the current slot holds a seed that a single draw produced |
| KeySlots.LiveThrough | firmware/core/identity/key_slots.cpp:58-85 | through any number of boots, each provisioning and reading and each cut anywhere: every slot returned is one slot, every seed read is one seed and was drawn, no written word changes, and once a slot was returned every boot that can read returns it |
| KeySlots.Memory.Write | firmware/core/identity/key_slots.cpp:79-80 | only an erased word is ever written; the write may be lost, or the supply with it |
| KeySlots.FillIn | firmware/core/identity/key_slots.cpp:21-27 | blank, complete or torn, by its erased words |
| KeySlots.CurrentIn | firmware/core/identity/key_slots.cpp:29-33 | the highest complete slot, if any |
| KeySlots.NextBlank | firmware/core/identity/key_slots.cpp:35-40 | the first of the blank slots at the end |
| KeySlots.ReadSeed | firmware/core/identity/key_slots.cpp:58-64 | nothing, or the current seed, which one draw produced |
| KeySlots.WriteSlot | firmware/core/identity/key_slots.cpp:79-80 | the supply failing after any of the eight writes, the slots stay sound, and a slot that reads complete is the whole seed |
| KeySlots.Provision | firmware/core/identity/key_slots.cpp:66-85 | cut anywhere, the words stay sound and written ones unchanged; a slot returned is current and whole; where a seed was current nothing is touched and no other slot returned; when nothing goes wrong it finds the current slot or fills the next blank one |
| Annunciator.ScoreOn | firmware/core/annunciation/annunciator.cpp:59-86 | the score at a moment after a note begins is the score from that note |
| Annunciator.CallAsHeard | firmware/core/annunciation/annunciator.h:35-50 | the traffic call in hertz and milliseconds: 3520 to 180, 4435 to 270, silent to 540, 3520 to 720, 4435 to 990 |
| Annunciator.JingleAsHeard | firmware/core/annunciation/annunciator.h:53-70 | the first fix jingle in hertz and milliseconds |
| Annunciator.Policy.Begin | firmware/core/annunciation/annunciator.cpp:38-57 | a tune begins at once, after 90 ms over a sounding note, and is not put off by being begun again in its rest |
| Annunciator.Policy.Advance | firmware/core/annunciation/annunciator.cpp:59-86 | ends, with the phase that holds this moment, or with the jingle over and released |
| Annunciator.Policy.Update | firmware/core/annunciation/annunciator.cpp:18-36 | what sounds is what the score says at this moment of a tune begun when it was, whatever passes came between; when it is begun, released or left alone; over a sounding note a tune begins after 90 ms, but for exactly one case |
| Annunciator.Policy.Listen | firmware/core/annunciation/annunciator.cpp:18-36 | over any passes that begin and release nothing, however many and whenever they come, each hears the score at its offset from the start the tune had before them |
| Annunciator.Policy.Insist | firmware/core/annunciation/annunciator.cpp:38-57 | however many begins follow while a tune rests, it is silent until its start and its start does not move |
| Annunciator.FixDuringCall | firmware/core/annunciation/annunciator.cpp:24-33 | two passes after which a jingle has begun over a sounding call without a rest |
| Annunciator.Policy.Emit | firmware/core/annunciation/annunciator.cpp:96-108 | the command, and changed exactly when it differs from the last |
| Atmosphere.RoundingKeepsOrder | firmware/core/util/intmath.h:10-13 | rounding to the nearest keeps order, negative numbers included |
| Atmosphere.RoundingIsNear | firmware/core/util/intmath.h:10-13 | rounding is never more than half a unit away, negative numbers included |
| Atmosphere.KnotsDescend | firmware/core/flight/atmosphere.cpp:19-35 | the table descends |
| Atmosphere.BetweenDescends | firmware/core/flight/atmosphere.cpp:57-65 | between two knots the altitude falls with the pressure and stays between theirs |
| Atmosphere.WithinHalfAMillimetre | firmware/core/flight/atmosphere.cpp:53-66 | at a knot the table's altitude, past it within half a millimetre of the straight line to the next |
| Atmosphere.AltitudeNeverRises | firmware/core/flight/atmosphere.cpp:53-66 | the altitude never rises with the pressure, across knots, between them and past the table |
| Atmosphere.PressureMpa | firmware/core/flight/atmosphere.cpp:80-93 | the least pressure whose altitude is at or below this one, exactly for altitudes above the foot of the table; at or below it the highest |
| Atmosphere.FootIsNotLeast | firmware/core/flight/atmosphere.cpp:82 | at the foot itself the pressure returned is not the least |
| Recorder.GapsAddUp | firmware/core/diagnostics/recorder.cpp:64-73 | the gaps told add up to the records refused |
| Recorder.Recorder.Push | firmware/core/diagnostics/recorder.cpp:39-49 | stored, or refused when full after the pending gap was told; a type not listed is no drop |
| Recorder.Recorder.NoteDrop | firmware/core/diagnostics/recorder.cpp:57-62 | the refusal joins the pending gap |
| Recorder.Recorder.FlushGap | firmware/core/diagnostics/recorder.cpp:64-73 | a pending gap is stored, in its place and with its exact count, as soon as there is room |
| Recorder.Recorder.Peek | firmware/core/diagnostics/recorder.cpp:75-82 | the oldest entries not committed, in order, after a pending gap was stored with its count and instants if there was room |
| Recorder.Recorder.Commit | firmware/core/diagnostics/recorder.cpp:84-88 | the oldest entry is gone for good |
| Recorder.EveryDropIsTold | firmware/core/diagnostics/recorder.cpp:16-88 | stored gaps and the pending one sum to dropped, written is committed plus queued |
| LogSession.LogSession.Push | firmware/core/flight/log_session.cpp:7-19 | the sample joins the queue, over the oldest when full, counted when a session is owed it |
| LogSession.LogSession.Peek | firmware/core/flight/log_session.cpp:22-33 | the oldest record a session is owed, never a sample of the ground after it |
| LogSession.LogSession.Commit | firmware/core/flight/log_session.cpp:35-41 | the record peek shows joins the log and is marked committed, and a drained session is closed |
| LogSession.LogSession.Drain | firmware/products/skyblip_go/services/flight_log.cpp:97-103 | as many of the records owed as the flash has room for go out, oldest first, and no others |
| LogSession.LogSession.FinishLanding | firmware/core/flight/log_session.cpp:21-41 | whatever passes follow a landing, what is drained is an in-order beginning of what was held at the landing, all of it once the session is done with, nothing lost and no later sample among it |
| LogSession.LogSession.Serve | firmware/products/skyblip_go/services/flight_log.cpp:32-44 | over any passes of update and drain the accounts stay kept and the log grows by what was drained |
| LogSession.LogSession.Update | firmware/core/flight/log_session.cpp:65-113 | which of the four actions, by the craft flying (120 s of hold for one that hovers), a sample a second with position and time, and the records themselves: what the session has taken and lost by it |
| LogSession.LogSession.Hover | firmware/core/flight/log_session.cpp:55-63 | over any passes of a craft that can hover and no longer rolls, its session stays open exactly while every pass comes under two minutes after it last rolled, by true time across wraps of the counter |
| LogSession.LogSession.OpenNow | firmware/core/flight/log_session.cpp:99-109 | the session takes the whole window and is named by the oldest sample that survived |
| LogSession.EveryRecordIsAccountedFor | firmware/core/flight/log_session.cpp:7-113 | over every session since the log was erased: the log is, in order, what each took less what was dropped, and committed, dropped and owed records add up to those taken |
| ConfigAnswers.OneAnswer | firmware/core/comms/config.cpp:276-318 | a command of the holder but an unlock is answered by one thing and only one, to the holder: a report for a timing, radio or diagnostics query with something to report, else a frame |
| ConfigAnswers.CommandAnswered | firmware/core/comms/config.cpp:276-318 | and that one thing is due, and what it says was done is done |
| ConfigReplies.HandDown | firmware/core/comms/config.cpp:132-151 | on a willing link one thing said comes to one frame, to small_mtu, to nothing if it could not be written, or to a whole report |
| ConfigReplies.Exchange | firmware/core/comms/config.cpp:276-318 | with nothing waiting and a willing link, a command of the holder but an unlock is answered in full: every field of the report asked for once and in order, or one frame, or small_mtu; nothing only for a frame that could not be written |
| ConfigAnswers.UnlockAnswered | firmware/core/comms/identity_link.cpp:144-172 | an unlock is answered once and truly, or its verified code is held for its write |
| ConfigAnswers.PressAnswered | firmware/core/comms/config.cpp:425-485 | a press is answered once, and says what it authorised or truly why not; with nothing to confirm on the ground it says nothing |
| ConfigAnswers.NothingUntrueIsSaid | firmware/core/comms/config.cpp:24-492 | over every event, whatever is said is due, a refusal for the first reason that holds, and every acceptance is of what was done |
| ConfigAnswers.SaidExactlyWhenDue | firmware/core/comms/config.cpp:24-492 | over every event a thing is said if and only if it is due, in the facts themselves: each of the refusals exactly under its guard, no earlier one holding, each acceptance, prompt and answer exactly under its own |
| ConfigAnswers.OnlyOneIsMeant | firmware/core/comms/config.cpp:24-492 | no two things are due at once, but at a tick |
| ConfigAnswers.QuestionIsAnswered | firmware/core/comms/config.cpp:299-308 | a question that can be answered is, in every flight and power state |
| ConfigSession.IdentityStep | firmware/core/comms/identity_link.cpp:32-187 | over every event, exactly when the nonce session is open, a registration is under way, a code is held and the unit is activated, and which nonce was tried |
| LogSession.LogSession.CloseNow | firmware/core/flight/log_session.cpp:72-83 | the landing record is taken if there is a position for it, and all that is held is owed |
| LogSession.LogSession.Sample | firmware/core/flight/log_session.cpp:84-113 | a sample a second: kept on the ground, appended in a session, or the window becomes one |
| KeySlots.TrySlot | firmware/core/identity/key_slots.cpp:73-82 | one seed drawn, written and read back: stored exactly whole, and stored whenever nothing goes wrong |

## Left out

- Byte-wide arithmetic is on bit vectors where the source shifts and folds, and on unbounded integers elsewhere: overflow of `int` in `Canvas::line`, in the queue's indices and in the counters of drops is not modelled; the dropped counter of the queue and the millisecond counter wrap as in the source.
- Reed-Solomon: `decode` is written as one method for each of its phases, with local buffers as sequences; the log table is filled as a function of the element because index 0 is overwritten last.
- ReedSolomon.ReedSolomon255.Decode: claims nothing about the word left behind by a negative result, as its callers copy first.
- AdslCorrect.Correct: claims nothing about the block left behind by a negative result, where flips may remain.
- The minimum distance of the CRC-24 over 192 bits: only what distinct single-bit syndromes give is used.
- Constant tables are matches on the two halves of their index; the bits set in a byte are counted one by one.
- Uplink.AdslUplink.Decode: returns statistics counted from zero; the source leaves its caller's as they were on a frame refused, and those but `corrected` on one of a version or count it does not take, and adds to the `rejected` it was given.
- Uplink: fields of an observation that a record does not carry (climb, track, signal strength, receive time), and framing of the O band, `receive_burst` and `framed_noise`.
- CBOR: keys of a dictionary other than integers, the registry's names, types and enums (`encode_frame`, `decode_frame`), and Unicode itself: text is its UTF-8 bytes under the byte ranges of RFC 3629.
- BlipWriter.Writer.Put: on failure nothing is claimed about the bytes appended so far, which the source discards with its exception.
- Memory ordering beyond what acquire and release allow an index load: a load may be stale, never ahead; the items themselves are copied between two steps.
- ConfigService: the service's fields are grouped into a few records; status and update pushes, connected sessions, the prompt's text, the format of every answer (what is said is a list of things handed down; a frame's size is given with it), and drop counters other than the replies'; signatures, stores, images and settings descriptions are verdicts given with the event.
- ConfigRuns.NothingStandsLong: assumes time never runs back and ticks come less than 49 days apart, without which a 32-bit counter cannot tell.
- Replies: the optional diagnostics and timing reports are one field, since a command is only taken while neither is set; the payload of the link never falls below the 20 bytes the transport guarantees.
- Replies.DeliveredIsThePrefix: says nothing about fields a report was never built with; building the list of fields from the counters is not modelled, nor the text lines of the console.
- Reports: a field is its key, group and encoded length; what its value is is not modelled, `ReportBytes` takes any value of that length.
- Drawing other than pixels and lines, and the fonts.
- Monocypher, SHA-256 and Ed25519, the BLE transport, storage drivers and everything that formats text.
- Link power budgets, flight extrapolation, log events, cutoff and shutdown timing, and the offload and UF2 scripts.
- KeySlots.Provision: a write is lost or taken whole; a word left half written by a failing supply is not modelled.
- Annunciator: whether a tone was commanded and its pitch are one field, zero for none.
- Annunciator.Policy.Update: assumes passes less than 24 days apart, so that the wrapping counter measures them.
- LogSession.LogSession.Commit: commits whatever is oldest when it is called; that this is the record peeked assumes no update in between, as in `Drain` and in the service.
- Recorder: the payload of a gap's duration, and 32-bit wrap of its counters; `radio::Entry` and the typed overloads of `record` are one record type.
- Atmosphere: the conversions to centimetres and pascals, temperature and climb.
