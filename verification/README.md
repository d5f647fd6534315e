# Verification models of the TEE SDK's computing parts

The SDK's demonstration programs contain six pieces of code that compute something rather
than call a library. This project models them in Dafny, in the form the sources have, and
proves what they promise.

**CRC engine and secure-element frames** (`CrcRegister`, `CrcTable`, `CrcEngine`,
`CrcHistory`, `CrcPolynomial`, `CrcReflection`, `CrcModes`, `CrcOrder`, `CrcDetection`, `SeFrame`; bit
strings and words in `BitSequences`, `WordBits`, `Sequences`, `ByteValues`). `CrcEngine.Crc` is
the global record with its four operations. A ghost phase keeps the bytes of a session
instead of a register; every operation is proved against one step of that protocol, and
`CrcHistory` says over whole call histories when a session is open and what it covers;
`CrcModes` says in numbers what each mode returns, for every message and for 123456789. The
256-entry table is proved equal to bit-serial division, the register to the remainder of a
polynomial division over GF(2), the reflected modes to the right-shifting engine of RFC 1662.
From linearity, injectivity and parity of the division step and from the order of x (32767 =
7 * 31 * 151) follow exact statements about which changes of a frame the receiver's
comparison misses. `SeFrame` models sending and receiving over a bus as byte sequences, with
the receiver's polling loops, its early exits, and resynchronisation after noise.

**Tiny printf** (`PrintfNumber`, `PrintfHash`, `PrintfFormat`, `PrintfDirectives`,
`PrintedFields`, `PrintedHash`, `PrintedSpecifiers`, `PrintedExamples`, `TinyPrintf`).
`PrintfFormat.Render` is the text of a format; `TinyPrintf` follows the code step by step: a
moving format pointer, digits in a 32-character array, and a sink that receives one
character at a time. Each method is tied to the text, so the output functions cannot
influence it.
`PrintfDirectives` proves that written directives are parsed back into their parts, that
formats can be cut between conversions, and what `*` stands for; `PrintfNumber` compares the
digits and padding of the integer conversions with section 7.19.6.1 of ISO/IEC 9899:1999 and
proves the print/parse round trip; `PrintedFields` carries both through the interpreter, to
all directives, and `PrintfHash` and `PrintedHash` do so for the flag '#'. Where the code departs from the standard, the exact condition is proved, and
`PrintedExamples` has an input for each way.

**Attribute packing** (`AttrCodec`, `AttrRoundTrip`, `AttrBytes`): the host's two-pass layout in a fresh
array and the trusted application's parser, with a complete characterisation of accepted
inputs. The layout and the round trip fail for some lists with lengths or offsets near 2^32;
`AttrCodec.LayoutIff` and `AttrRoundTrip.RoundTripIff` say for which. `AttrBytes` gives the
packed form byte by byte.

**Overflow-detecting arithmetic** (`IntOverflow`, over the integer types of `CTypes`): the
fallback macros for assignment, addition and multiplication as conditional expressions, for
all combinations of operand and destination types.

**Bit strings** (`Bitstring`): byte-at-a-time range changes and first-bit searches on an
array against the plain set of bits.

**Image table** (`Sbmeta`, `SbmetaReading`, `SbmetaLayout`, `Utf8`): the builder of sbmeta.bin, a growing
file of fixed slots, with errors and Python exceptions as outcomes, and what a reader of the
file finds in it.

`LittleEndian` and `Options` hold what several of these share.

## Where the code and its documentation or standard differ

- `compiler.h:181-212` says that the corner cases of the least signed integer are removed
  first; the macro does not do so. `IntOverflow.Mishandled` is the exact set of cases in
  which the multiplication does not meet its promise. Besides products with 0 or 1 its
  families are `LeastProduct`, `NegativeIntoUnsigned` and `NarrowLeastProduct`;
  `MinusThreeTimesTwo` and `ShortLeastTimesMinusOne` are instances.
- Left-justified integer conversions omit the zeros a precision asks for; zero padding and
  precision stop at 32 characters, and the sign is dropped when they fill the buffer. A
  negative precision argument counts as precision 0 rather than as none. `%hhd` narrows to
  plain char, which is unsigned on RISC-V. `PrintedFields.AsAsked` is the exact condition
  for integers, `PrintedFields.StringConforms` that for strings.
- With '#' the code takes characters back to make room for the prefix, digits as well as
  padding zeros; it adds a zero to an octal precision, prints no digit for an octal 0 of
  precision 0, and cuts the prefix at 32 characters. `PrintfHash.DigitTaken` is the exact
  condition for digits to be lost, `PrintedHash.HashAsAsked` that for the standard's field.
- `ROUNDUP` in `pack_attrs` wraps for lengths above 2^32 - 4: the reference gets no room, so
  its bytes are overwritten by the next reference or leave the buffer (`AttrCodec.WrappedMeets`).
  Offsets from 2^32 on are cut to 32 bits (`AttrRoundTrip.FarByteChanges`).
- A frame sent by `se_spi_send` is not what `se_spi_receive` waits for: the preamble has 55
  and AA in the other order (`SeFrame.OwnFrameReceived`, `SeFrame.EmbeddedFrame`).
- Initialising a named mode while custom parameters wait returns success but opens no
  session; the frame check then compares with 0 (`SeFrame.PendingCustomBreaksTheCheck`).
- Mode MCRF4XX has the parameters of CRC_CCIT_FALSE (`main.c:172-174`); nothing is claimed
  about the published CRC of that name.
- `sbmeta.py` pads a name by its number of characters, not bytes, so a name that is not ASCII
  moves digest and address (`SbmetaReading.FieldsMoved`, `SbmetaReading.AccentedMoves`).

## Model

| member | source | states |
|---|---|---|
| `CrcTable.TableEntry` | Tsec_dev_kit/Tsec_sdk/demo/spi/host/main.c:70-103 | Each of the 256 table entries is its index, at the top of a 16-bit word, multiplied by x eight times modulo x^16 + x^12 + x^5 + 1. |
| `CrcTable.TableEntryBits` | Tsec_dev_kit/Tsec_sdk/demo/spi/host/main.c:70-103 | A table entry is what bit-serial division of the eight index bits leaves in an empty register. |
| `CrcRegister.FeedSplit` | Tsec_dev_kit/Tsec_sdk/demo/spi/host/main.c:222-231 | Why one table can serve all registers: dividing up to 16 bits moves the rest of the register up and adds a part that depends only on the difference of register top and input. |
| `CrcTable.TableStepIsFeed` | Tsec_dev_kit/Tsec_sdk/demo/spi/host/main.c:222-231 | One pass of the update loop on a byte is the bit-serial division of its eight bits, for every register. |
| `CrcEngine.U8BitReverseBits` | Tsec_dev_kit/Tsec_sdk/demo/spi/host/main.c:114-120 | The three exchanges put every bit of a byte at its mirrored place. |
| `CrcEngine.U16BitReverseBits` | Tsec_dev_kit/Tsec_sdk/demo/spi/host/main.c:105-112 | The four exchanges put every bit of a word at its mirrored place. |
| `CrcEngine.RemainderStep` | Tsec_dev_kit/Tsec_sdk/demo/spi/host/main.c:222-232 | If the running value carries the remainder of the bytes so far, one more pass makes it carry the remainder with that byte, reflected or not. |
| `CrcEngine.FinaliseBits` | Tsec_dev_kit/Tsec_sdk/demo/spi/host/main.c:248-258 | Reflection, XOR and byte exchange on words give the published bits of the CRC of the message. |
| `CrcEngine.Crc.constructor` | Tsec_dev_kit/Tsec_sdk/demo/spi/host/main.c:48-57 | The zero-initialised record has no session. |
| `CrcEngine.Crc.Custom` | Tsec_dev_kit/Tsec_sdk/demo/spi/host/main.c:122-130 | Any session ends; exactly these parameters now wait for an init. |
| `CrcEngine.Crc.Init` | Tsec_dev_kit/Tsec_sdk/demo/spi/host/main.c:132-209 | Every branch as a step of the session protocol: bad byte order or mode, a named mode with and without waiting parameters, the custom mode with and without them; and the status returned in each. |
| `CrcEngine.Crc.SelectMode` | Tsec_dev_kit/Tsec_sdk/demo/spi/host/main.c:150-192 | The ten named modes overwrite just the parameters they mention. |
| `CrcEngine.Crc.Update` | Tsec_dev_kit/Tsec_sdk/demo/spi/host/main.c:211-238 | With an open session the bytes are appended to it and the running value carries their remainder; otherwise the call fails and spoils the state. |
| `CrcEngine.Crc.GetResult` | Tsec_dev_kit/Tsec_sdk/demo/spi/host/main.c:241-264 | Returns the published CRC bits of the session bytes if an update has succeeded, closing the session, and 0 otherwise. |
| `CrcHistory.PendingIff` | Tsec_dev_kit/Tsec_sdk/demo/spi/host/main.c:122-147 | Over every call history: custom parameters are waiting exactly when a custom call was followed by nothing but results and inits of named modes. |
| `CrcHistory.SessionRun` | Tsec_dev_kit/Tsec_sdk/demo/spi/host/main.c:132-264 | A session found in the history determines the state: its parameters, byte order and the bytes of its updates. |
| `CrcHistory.OpenIff` | Tsec_dev_kit/Tsec_sdk/demo/spi/host/main.c:132-264 | Over every call history: a session is open exactly when the history ends in an opening init, early results, and updates. |
| `CrcHistory.GetResultMeaning` | Tsec_dev_kit/Tsec_sdk/demo/spi/host/main.c:122-264 | Over every call history: get_result returns the CRC of exactly the bytes updated since the init that opened the session, and 0 if there is none or it has no update. |
| `CrcHistory.Drive` | Tsec_dev_kit/Tsec_sdk/demo/spi/host/main.c:122-264 | The record driven through any history is in the state the history says, and every get_result on the way answers for the calls before it. |
| `CrcHistory.ClosedAfterResult` | Tsec_dev_kit/Tsec_sdk/demo/spi/host/main.c:211-264 | After a result has been taken nothing but a new init opens a session again. |
| `CrcHistory.ChunkingIrrelevant` | Tsec_dev_kit/Tsec_sdk/demo/spi/host/main.c:211-238 | Two ways of cutting the same bytes into updates leave the same state. |
| `CrcPolynomial.RegisterIsRemainder` | Tsec_dev_kit/Tsec_sdk/demo/spi/host/main.c:211-238 | Division with remainder over GF(2) and its uniqueness: dividend = q * generator + r holds for the register and its quotient bits and for no other q and r of these degrees. |
| `CrcPolynomial.XmodemIsModulo` | Tsec_dev_kit/Tsec_sdk/demo/spi/host/main.c:155-157 | From 0 and without reflection, the register after a message M is M(x) * x^16 modulo x^16 + x^12 + x^5 + 1 and nothing else is, for any length. |
| `CrcReflection.ReflectedEngine` | Tsec_dev_kit/Tsec_sdk/demo/spi/host/main.c:222-250 | With both reflections on, the left-shifting table engine returns what a right-shifting engine with polynomial 0x8408 and mirrored start value returns, for every message. |
| `CrcReflection.X25IsPppFcs` | Tsec_dev_kit/Tsec_sdk/demo/spi/host/main.c:166-171 | Mode X_25 is the frame check sequence of Appendix C.2 of RFC 1662. |
| `CrcReflection.X25GoodFcs` | Tsec_dev_kit/Tsec_sdk/demo/spi/host/main.c:166-171 | A message followed by what mode X_25 returns for it, low byte first, leaves the good value 0xF0B8 of RFC 1662, and its mirror image in the engine's register. |
| `CrcModes.NamedModes` | Tsec_dev_kit/Tsec_sdk/demo/spi/host/main.c:150-192 | After a named init the session has exactly these parameters, for each of the ten modes: start, XOR value and the two reflections, as numbers. |
| `CrcModes.NamedOverCustom` | Tsec_dev_kit/Tsec_sdk/demo/spi/host/main.c:132-209 | A named init while custom parameters wait replaces exactly those its mode mentions, for each of the ten modes, and opens no session. |
| `CrcModes.CustomMode` | Tsec_dev_kit/Tsec_sdk/demo/spi/host/main.c:193-199 | Mode 0xFF opens a session with the custom parameters as they were given. |
| `CrcModes.InitFailsIff` | Tsec_dev_kit/Tsec_sdk/demo/spi/host/main.c:143-206 | After any history an init fails exactly for a byte order above 1, a mode from 10 to 254, or mode 255 with nothing waiting. |
| `CrcModes.CheckValues` | Tsec_dev_kit/Tsec_sdk/demo/spi/host/main.c:122-264 | What get_result returns after init, one update with 123456789: one value for each of the ten modes, and 0x8921 for KERMIT with bytes exchanged. |
| `CrcModes.MirroringModes` | Tsec_dev_kit/Tsec_sdk/demo/spi/host/main.c:150-192 | For every message KERMIT, X_25, TMS37157, RIELLO and CRC_A return what the right-shifting engine computes from 0, 0xFFFF, 0x3791, 0x554D and 0x6363. |
| `CrcModes.StraightModes` | Tsec_dev_kit/Tsec_sdk/demo/spi/host/main.c:150-192 | For every message XMODEM and FALSE return the register fed from 0 and 0xFFFF, GENIBUS the complement of the latter, MCRF4XX the same as FALSE, and AUG_CCIT what FALSE returns with sixteen zero bits in front. |
| `CrcModes.AugStart` | Tsec_dev_kit/Tsec_sdk/demo/spi/host/main.c:175-177 | 0x1D0F is the register sixteen zero bits leave from 0xFFFF. |
| `CrcModes.Reflections` | Tsec_dev_kit/Tsec_sdk/demo/spi/host/main.c:222-264 | With any custom parameters the two reflections act independently and only when they are 1, one on the bytes of the message and one on the register; byte order 1 exchanges the bytes of the result. |
| `CrcModes.OneReflection` | Tsec_dev_kit/Tsec_sdk/demo/spi/host/main.c:222-264 | Instances: 123456789 with only the input reflected gives 0x9184, with only the output reflected 0xC38C. |
| `CrcOrder.OrderOfX` | Tsec_dev_kit/Tsec_sdk/demo/spi/host/main.c:70-103 | x^n = 1 modulo the generator of the table exactly when 32767 divides n. |
| `CrcDetection.KermitWireBytes` | Tsec_dev_kit/Tsec_sdk/demo/spi/host/main.c:434-452 | With byte order 1 each CRC byte on the wire is a mirrored register byte: the receiver compares with the remainder itself. |
| `CrcDetection.AcceptedIffZero` | Tsec_dev_kit/Tsec_sdk/demo/spi/host/main.c:501-513 | The comparison succeeds exactly when payload and CRC bytes together divide to zero. |
| `CrcDetection.ChangeAccepted` | Tsec_dev_kit/Tsec_sdk/demo/spi/host/main.c:501-513 | A change of an accepted frame goes unnoticed exactly when the changed bits alone divide to zero. |
| `CrcDetection.BurstsDetected` | Tsec_dev_kit/Tsec_sdk/demo/spi/host/main.c:501-513 | Every change within 16 consecutive bits of an accepted frame fails the comparison, whatever the length. |
| `CrcDetection.OddErrorsDetected` | Tsec_dev_kit/Tsec_sdk/demo/spi/host/main.c:501-513 | Every change of an odd number of bits fails the comparison. |
| `CrcDetection.TwoBitErrors` | Tsec_dev_kit/Tsec_sdk/demo/spi/host/main.c:501-513 | A change of two bits goes unnoticed exactly when their distance is a multiple of 32767. |
| `CrcDetection.GeneratorUndetected` | Tsec_dev_kit/Tsec_sdk/demo/spi/host/main.c:501-513 | The bounds are sharp: four particular bits within 17 positions always go unnoticed. |
| `CrcDetection.MinimumDistance` | Tsec_dev_kit/Tsec_sdk/demo/spi/host/main.c:501-513 | Two different accepted frames of one length up to 32767 bits differ in at least four bits. |
| `SeFrame.Bus.SendByte` | Tsec_dev_kit/Tsec_sdk/demo/spi/host/main.c:406-414 | One byte more on the output, nothing else. |
| `SeFrame.Bus.ReceiveByte` | Tsec_dev_kit/Tsec_sdk/demo/spi/host/main.c:416-426 | The next input byte. |
| `SeFrame.PayloadCrc` | Tsec_dev_kit/Tsec_sdk/demo/spi/host/main.c:434-436 | init, update, get_result in KERMIT mode yield the bytes that go with the payload; with custom parameters waiting they yield 0. |
| `SeFrame.FillFrame` | Tsec_dev_kit/Tsec_sdk/demo/spi/host/main.c:438-452 | The I/O buffer holds preamble, length with its high byte first, payload and CRC, and the index ends behind them. |
| `SeFrame.Send` | Tsec_dev_kit/Tsec_sdk/demo/spi/host/main.c:428-465 | Exactly 00 00 00 55 AA 00, two bytes hi and lo with 256 * hi + lo the length, the payload and its matching CRC bytes are appended to the output. |
| `SeFrame.WaitFor` | Tsec_dev_kit/Tsec_sdk/demo/spi/host/main.c:474-478 | A polling loop stops right behind the first occurrence, or with the input used up when there is none. |
| `SeFrame.WaitForSync` | Tsec_dev_kit/Tsec_sdk/demo/spi/host/main.c:474-478 | The five polling loops in a row. |
| `SeFrame.ReadPayload` | Tsec_dev_kit/Tsec_sdk/demo/spi/host/main.c:495-499 | The payload arrives in both buffers; what lies behind it in the caller's buffer is untouched. |
| `SeFrame.ReceiveBody` | Tsec_dev_kit/Tsec_sdk/demo/spi/host/main.c:479-515 | Every branch after synchronisation: wrong byte, length too large, CRC mismatch, success, with the position reached. An announced length that fits becomes the caller's length whatever follows, and the CRC record is idle once the payload is there and untouched before. |
| `SeFrame.ReceiveFrame` | Tsec_dev_kit/Tsec_sdk/demo/spi/host/main.c:468-516 | The receiver computes the reception function of its input, capacity and CRC state; on success the caller has payload and length. After every outcome the caller's length and the state of the CRC record are determined: a frame that fails after its length leaves that length as the next capacity. |
| `SeFrame.TrailerUnique` | Tsec_dev_kit/Tsec_sdk/demo/spi/host/main.c:504-510 | Comparing the assembled word with get_result is comparing with the one matching pair of CRC bytes. |
| `SeFrame.SyncIff` | Tsec_dev_kit/Tsec_sdk/demo/spi/host/main.c:474-478 | Synchronisation ends where the five bytes occur, each the first of its kind after the one before, and nowhere else. |
| `SeFrame.ReceivedIff` | Tsec_dev_kit/Tsec_sdk/demo/spi/host/main.c:468-516 | The receiver returns 0 with a payload if and only if the input holds the synchronisation, a zero byte, a length within capacity, that payload and its CRC. |
| `SeFrame.RejectedIff` | Tsec_dev_kit/Tsec_sdk/demo/spi/host/main.c:479-513 | After the synchronisation the receiver fails exactly on a byte other than 0, on a length 256 * hi + lo above the capacity, or on CRC bytes that do not go with the payload. |
| `SeFrame.AnnouncedIff` | Tsec_dev_kit/Tsec_sdk/demo/spi/host/main.c:485-493 | The caller's length is replaced exactly when both length bytes arrive behind a zero byte and 256 * hi + lo is within the capacity, and then by that number. |
| `SeFrame.OverrunIff` | Tsec_dev_kit/Tsec_sdk/demo/spi/host/main.c:495-499 | The receiver stores past its 1024-byte buffer if and only if a synchronised frame announces more than that, the caller's capacity accepts it, and more than that arrives. |
| `SeFrame.Resynchronises` | Tsec_dev_kit/Tsec_sdk/demo/spi/host/main.c:468-516 | After any noise without 0xAA the verdict on a frame depends on the frame alone. |
| `SeFrame.SentIsReceived` | Tsec_dev_kit/Tsec_sdk/demo/spi/host/main.c:428-516 | Payload and CRC bytes as sent, behind any noise without 0xAA and the receiver's synchronisation, are received unchanged. |
| `SeFrame.OwnFrameReceived` | Tsec_dev_kit/Tsec_sdk/demo/spi/host/main.c:428-516 | What the receiver makes of a frame as the sender emits it: it waits on when no 0x55 follows the preamble, and receives a payload if and only if the first 0x55 is followed by a body of that payload. |
| `SeFrame.EmbeddedFrame` | Tsec_dev_kit/Tsec_sdk/demo/spi/host/main.c:428-516 | An instance: the payload 55 00 00 00 00 00, sent, is received as the empty payload. |
| `SeFrame.DamageRejected` | Tsec_dev_kit/Tsec_sdk/demo/spi/host/main.c:468-516 | The same with a burst of up to 16 bits, an odd number of flipped bits, or up to three flipped bits within 32767 bits ends in an error. |
| `SeFrame.CheckTrailer` | Tsec_dev_kit/Tsec_sdk/demo/spi/host/main.c:434-452 | The CRC bytes of the payload 123456789 are 89 21 and no others. |
| `SeFrame.CheckFrame` | Tsec_dev_kit/Tsec_sdk/demo/spi/host/main.c:468-516 | The frame 00 00 00 AA 55 00, 00 09, 123456789, 89 21 is received, given room for nine bytes. |
| `SeFrame.PendingCustomBreaksTheCheck` | Tsec_dev_kit/Tsec_sdk/demo/spi/host/main.c:122-135 | While custom parameters wait, the receiver accepts exactly the frames whose CRC bytes are 00 00. |
| `PrintfNumber.FieldWidthIff` | Tsec_dev_kit/Tsec_sdk/demo/float/ta/printf.c:199-301 | Without '#', an integer conversion emits max(width, length without a width) exactly when zero padding asks for at most 32 characters. |
| `PrintfNumber.DigitsAreAll` | Tsec_dev_kit/Tsec_sdk/demo/float/ta/printf.c:292-297 | The digit loop, reversed, produces all digits of the value as long as they fit the buffer. |
| `PrintfNumber.AllDigitsValue` | Tsec_dev_kit/Tsec_sdk/demo/float/ta/printf.c:292-297 | The digits denote the value in the base. |
| `PrintfNumber.DigitLetters` | Tsec_dev_kit/Tsec_sdk/demo/float/ta/printf.c:294-296 | Digit k is character k of 0123456789abcdef, or of 0123456789ABCDEF, and reads as k. |
| `PrintfNumber.AllDigitsLetters` | Tsec_dev_kit/Tsec_sdk/demo/float/ta/printf.c:292-297 | All digits of a value are digits below the base, and all of them small or all capital letters. |
| `PrintfNumber.SixtyFourBits` | Tsec_dev_kit/Tsec_sdk/demo/float/ta/printf.c:283-284 | A 64-bit value has at most 22 digits in bases 8 to 16, so digits and sign fit 32 characters. |
| `PrintfNumber.FieldShape` | Tsec_dev_kit/Tsec_sdk/demo/float/ta/printf.c:199-277 | Without '#' the emitted text is blanks, sign, zeros, digits, blanks, with the sign dropped exactly when zeros and digits fill the buffer. |
| `PrintfNumber.RoundTripIff` | Tsec_dev_kit/Tsec_sdk/demo/float/ta/printf.c:199-326 | Reading the text back, blanks ignored, gives the signed value exactly when the minus sign of a negative value is kept; over all flags but '#', widths and precisions. |
| `PrintfNumber.CutReads` | Tsec_dev_kit/Tsec_sdk/demo/float/ta/printf.c:292-297 | In base 2 a longer value is cut to 32 digits and reads back as less than 2^32. |
| `PrintfNumber.ConformsIff` | Tsec_dev_kit/Tsec_sdk/demo/float/ta/printf.c:199-326 | The text is the field of section 7.19.6.1 of ISO/IEC 9899:1999 exactly under Conforming: no zeros needed on the left-justified side, and zero padding, precision and sign within 32 characters. |
| `PrintfNumber.LeftConforms` | Tsec_dev_kit/Tsec_sdk/demo/float/ta/printf.c:230-241 | Left-justified fields lose their precision zeros: they conform exactly when no such zero is needed. |
| `PrintfNumber.BlankPaddedConforms` | Tsec_dev_kit/Tsec_sdk/demo/float/ta/printf.c:230-274 | Blank-padded fields conform up to precision 31, at 32 without a sign (or with a blank in a wider field), and never above. |
| `PrintfDirectives.RenderConcat` | Tsec_dev_kit/Tsec_sdk/demo/float/ta/printf.c:586-850 | Formats can be cut between conversions: the second part goes on with the arguments the first one left. |
| `PrintfDirectives.AtoiReads` | Tsec_dev_kit/Tsec_sdk/demo/float/ta/printf.c:188-195 | The wrapping digit loop reads the number its digits denote whenever that fits an unsigned int. |
| `PrintfDirectives.FlagsShown` | Tsec_dev_kit/Tsec_sdk/demo/float/ta/printf.c:601-612 | Flags in any order and number are read as the set they form. |
| `PrintfDirectives.WidthShown` | Tsec_dev_kit/Tsec_sdk/demo/float/ta/printf.c:614-629 | A written width, or an argument for it, is read as such. |
| `PrintfDirectives.PrecisionShown` | Tsec_dev_kit/Tsec_sdk/demo/float/ta/printf.c:631-644 | A written, bare or argument precision is read as such. |
| `PrintfDirectives.LengthShown` | Tsec_dev_kit/Tsec_sdk/demo/float/ta/printf.c:646-680 | Each length modifier is read as the argument size it names. |
| `PrintfDirectives.ParseShown` | Tsec_dev_kit/Tsec_sdk/demo/float/ta/printf.c:601-680 | Parsing undoes writing: any directive, followed by anything, is read as what it says. |
| `PrintfDirectives.RenderShown` | Tsec_dev_kit/Tsec_sdk/demo/float/ta/printf.c:586-850 | A written directive emits what its conversion emits, and the rest of the format follows with the remaining arguments. |
| `PrintfDirectives.ResolvedRender` | Tsec_dev_kit/Tsec_sdk/demo/float/ta/printf.c:618-644 | A directive with '*' prints what the directive with the numbers written in prints, a negative width as '-' and a negative precision as 0. |
| `PrintfDirectives.ResolutionsAgree` | Tsec_dev_kit/Tsec_sdk/demo/float/ta/printf.c:618-644 | The standard's reading of '*' differs from the code's only in leaving a negative precision out. |
| `PrintedFields.SpecifierTable` | Tsec_dev_kit/Tsec_sdk/demo/float/ta/printf.c:684-719 | The integer conversions are d, i, u, x, X, o and b; d and i are signed; o is octal, x and X are hexadecimal, b binary, the others decimal. |
| `PrintedFields.IntegerShown` | Tsec_dev_kit/Tsec_sdk/demo/float/ta/printf.c:684-756 | What an integer directive prints, with or without '*' and '#', from its parts: argument narrowed by the length modifier, sign, base, flags, width and precision. |
| `PrintedFields.NarrowedIff` | Tsec_dev_kit/Tsec_sdk/demo/float/ta/printf.c:719-756 | The argument is narrowed to the type the standard's length modifiers name, except exactly for %hhd and %hhi of a byte from 128 on. |
| `PrintedFields.PrintableIff` | Tsec_dev_kit/Tsec_sdk/demo/float/ta/printf.c:719-740 | The code's negation is defined except for the least int without a length modifier and the least long with one of l, ll, t, j and z. |
| `PrintedFields.FlagsOf` | Tsec_dev_kit/Tsec_sdk/demo/float/ta/printf.c:691-717 | After the code's adjustments an integer conversion works with just the flags the standard gives its directive. |
| `PrintedFields.PrintedReadsBack` | Tsec_dev_kit/Tsec_sdk/demo/float/ta/printf.c:577-857 | Through the interpreter: the text of any integer directive without '#' reads back as the narrowed argument exactly when a negative number's sign is visible and, for %b, the number has at most 32 bits. |
| `PrintedFields.StandardReadsBack` | Tsec_dev_kit/Tsec_sdk/demo/float/ta/printf.c:684-756 | The standard's own field reads back as its number, so texts of different numbers differ. |
| `PrintedFields.PrintedConforms` | Tsec_dev_kit/Tsec_sdk/demo/float/ta/printf.c:577-857 | Through the interpreter, for any arguments of '*': the text of %d %i %u %x %X %o without '#' is the standard's field exactly when the narrowing agrees and Conforming holds or, for a negative precision argument, the number is not 0 and zero padding had nothing to fill. |
| `PrintedFields.PrecisionZeroIff` | Tsec_dev_kit/Tsec_sdk/demo/float/ta/printf.c:715-717 | Printed with precision 0 instead of none, a number is the field asked for exactly when it is not 0 and zero padding had nothing to fill. |
| `PrintedFields.PrintedWidth` | Tsec_dev_kit/Tsec_sdk/demo/float/ta/printf.c:577-857 | Through the interpreter: an integer directive without '#' emits max(width, length without a width) exactly when zero padding fits the buffer. |
| `PrintedFields.TextWidth` | Tsec_dev_kit/Tsec_sdk/demo/float/ta/printf.c:776-820 | %c and %s emit max(width, length without a width), except exactly for strings of 2^32 characters or more whose cut length is below the width. |
| `PrintedFields.StringConforms` | Tsec_dev_kit/Tsec_sdk/demo/float/ta/printf.c:796-820 | The text of %s without a length modifier is the standard's field exactly when the length is not cut below the width or, for a negative precision argument, the string is blank and fits the width. |
| `PrintfHash.HashShape` | Tsec_dev_kit/Tsec_sdk/demo/float/ta/printf.c:243-263 | With '#', in bases 2, 8 and 16: the text of a nonzero number is a field around as much of the prefix as fits, and zeros and digits of which the code has taken back some. |
| `PrintfHash.DigitsKeptIff` | Tsec_dev_kit/Tsec_sdk/demo/float/ta/printf.c:243-249 | The digits all stand behind the prefix exactly when none is taken: none is with a precision, and without one exactly when digits, or in base 16 digits and a single padding zero, do not fill the width. |
| `PrintfHash.HashFieldIff` | Tsec_dev_kit/Tsec_sdk/demo/float/ta/printf.c:199-277 | For given digits in bases 8 and 16 the field with '#' is the standard's exactly under HashConforming: a condition on the numbers of digits, precision, width and flags. |
| `PrintedHash.HashConformsIff` | Tsec_dev_kit/Tsec_sdk/demo/float/ta/printf.c:199-326 | With '#', for every value of up to 64 bits, 0 included, flags, width and precision: the standard's field exactly under HashAgrees. |
| `PrintedHash.PrintedHashConforms` | Tsec_dev_kit/Tsec_sdk/demo/float/ta/printf.c:577-857 | Through the interpreter, for any arguments of '*': the text of %o %x %X with '#' is the standard's field exactly under HashAgrees or, for a negative precision argument, when the number is not 0 and zero padding had nothing to fill. |
| `PrintedHash.PrintedHashDigits` | Tsec_dev_kit/Tsec_sdk/demo/float/ta/printf.c:577-857 | Through the interpreter, for %o %x %X %b with '#' and a nonzero number of at most 32 digits: the text ends with all its digits, blanks aside, exactly when none is taken for the prefix. |
| `PrintedHash.DecimalHash` | Tsec_dev_kit/Tsec_sdk/demo/float/ta/printf.c:702-705 | On %d, %i and %u '#' has no effect. |
| `PrintedSpecifiers.PlainText` | Tsec_dev_kit/Tsec_sdk/demo/float/ta/printf.c:586-596 | A format without a percent sign is emitted as it is and takes no argument. |
| `PrintedSpecifiers.LengthsWritten` | Tsec_dev_kit/Tsec_sdk/demo/float/ta/printf.c:646-680 | The length modifiers are h, hh, l, ll, j, z and t. |
| `PrintedSpecifiers.StandsForItself` | Tsec_dev_kit/Tsec_sdk/demo/float/ta/printf.c:840-849 | %% emits one percent sign, and an unknown conversion its own character; neither takes an argument. |
| `PrintedSpecifiers.PercentShown` | Tsec_dev_kit/Tsec_sdk/demo/float/ta/printf.c:840-843 | So does every directive that ends in a second percent sign. |
| `PrintedSpecifiers.CharacterShown` | Tsec_dev_kit/Tsec_sdk/demo/float/ta/printf.c:776-794 | %c emits the argument modulo 256, with blanks up to the width in front or, with '-', behind. |
| `PrintedSpecifiers.PointerShown` | Tsec_dev_kit/Tsec_sdk/demo/float/ta/printf.c:822-838 | %p emits the low 64 bits as sixteen hexadecimal places with zeros and capitals, whatever the width. |
| `PrintedExamples.LeftJustified` | Tsec_dev_kit/Tsec_sdk/demo/float/ta/printf.c:230-241 | %-.3d of 5 prints 5, where the standard asks for 005. |
| `PrintedExamples.ZeroPadded` | Tsec_dev_kit/Tsec_sdk/demo/float/ta/printf.c:230-241 | %033d of -5 prints 32 characters without the sign. |
| `PrintedExamples.FullPrecision` | Tsec_dev_kit/Tsec_sdk/demo/float/ta/printf.c:234-236 | %.32d of -5 prints 32 characters without the sign. |
| `PrintedExamples.NegativeStar` | Tsec_dev_kit/Tsec_sdk/demo/float/ta/printf.c:638-642 | %05.*d of -1 and 7 prints blanks in front, where the standard asks for 00007. |
| `PrintedExamples.NegativeStarString` | Tsec_dev_kit/Tsec_sdk/demo/float/ta/printf.c:638-642 | %.*s of -1 and abc prints nothing, where the standard asks for abc. |
| `PrintedExamples.LongString` | Tsec_dev_kit/Tsec_sdk/demo/float/ta/printf.c:796-820 | %5s of a string of 2^32 characters puts five blanks in front of it, where the standard asks for the string. |
| `PrintedExamples.NarrowedNegative` | Tsec_dev_kit/Tsec_sdk/demo/float/ta/printf.c:731-732 | The text of %hhd of -1 reads back as 255, the standard's as -1. |
| `PrintedExamples.PrefixForDigit` | Tsec_dev_kit/Tsec_sdk/demo/float/ta/printf.c:244-249 | %#1x of 5 prints 0x, where the standard asks for 0x5. |
| `PrintedExamples.PrefixCut` | Tsec_dev_kit/Tsec_sdk/demo/float/ta/printf.c:250-262 | %#.31x of 5 begins with x instead of 0x. |
| `PrintedExamples.OctalZero` | Tsec_dev_kit/Tsec_sdk/demo/float/ta/printf.c:260-262 | %#.3o of 5 prints 0005, where the standard asks for 005. |
| `PrintedExamples.OctalNothing` | Tsec_dev_kit/Tsec_sdk/demo/float/ta/printf.c:286-291 | %#.o of 0 prints nothing, where the standard asks for 0. |
| `TinyPrintf.Sink.Put` | Tsec_dev_kit/Tsec_sdk/demo/float/ta/printf.c:133-166 | The three output functions: store below maxlen, drop, or print unless NUL. |
| `TinyPrintf.Sink.Out` | Tsec_dev_kit/Tsec_sdk/demo/float/ta/printf.c:133-166 | One character more of the text, the buffer holding it as far as maxlen. |
| `TinyPrintf.OutRev` | Tsec_dev_kit/Tsec_sdk/demo/float/ta/printf.c:199-223 | Blanks, the buffer backwards, blanks. |
| `TinyPrintf.NtoaFormat` | Tsec_dev_kit/Tsec_sdk/demo/float/ta/printf.c:227-277 | Zeros, prefix and sign are appended in place without ever indexing outside the 32 characters, for every base, width, precision and flags including '#', and the specified text is emitted. |
| `TinyPrintf.AppendHash` | Tsec_dev_kit/Tsec_sdk/demo/float/ta/printf.c:243-263 | The '#' prefix stays within the buffer, also when it takes back zeros. |
| `TinyPrintf.WriteDigits` | Tsec_dev_kit/Tsec_sdk/demo/float/ta/printf.c:292-297 | The do-while digit loop leaves the digits, least significant first, and never more than 32. |
| `TinyPrintf.NtoaLong` | Tsec_dev_kit/Tsec_sdk/demo/float/ta/printf.c:281-326 | Both integer functions emit the specified text of the value. |
| `TinyPrintf.StrnlenS` | Tsec_dev_kit/Tsec_sdk/demo/float/ta/printf.c:171-176 | The length, limited and cut to an unsigned int. |
| `TinyPrintf.ReadFlags` | Tsec_dev_kit/Tsec_sdk/demo/float/ta/printf.c:601-612 | The flag loop consumes what the specification consumes. |
| `TinyPrintf.ReadNumber` | Tsec_dev_kit/Tsec_sdk/demo/float/ta/printf.c:188-195 | The digit loop of _atoi with its moving pointer. |
| `TinyPrintf.OutString` | Tsec_dev_kit/Tsec_sdk/demo/float/ta/printf.c:808-811 | Characters up to the end of the string or the precision. |
| `TinyPrintf.OutConversion` | Tsec_dev_kit/Tsec_sdk/demo/float/ta/printf.c:682-850 | The specifier switch emits the conversion's text and consumes its argument. |
| `TinyPrintf.Run` | Tsec_dev_kit/Tsec_sdk/demo/float/ta/printf.c:586-850 | The interpreter loop emits the text of the whole format. |
| `TinyPrintf.VsnprintfTo` | Tsec_dev_kit/Tsec_sdk/demo/float/ta/printf.c:577-857 | Loop, termination and return value on any sink. |
| `TinyPrintf.Vsnprintf` | Tsec_dev_kit/Tsec_sdk/demo/float/ta/printf.c:900-903 | Sink independence: the same length for every count and for a null buffer; the buffer holds the first count - 1 characters and NUL, and everything behind that is as before. |
| `TinyPrintf.Vprintf` | Tsec_dev_kit/Tsec_sdk/demo/float/ta/printf.c:893-897 | The stream shows the same text without NULs, with the same length. |
| `TinyPrintf.CompleteIff` | Tsec_dev_kit/Tsec_sdk/demo/float/ta/printf.c:852-856 | Section 7.19.6.5 of ISO/IEC 9899:1999: the stored string is the text as far as it fits, and complete if and only if the returned length is below the count. |
| `AttrCodec.RoundUpExact` | Tsec_dev_kit/Tsec_sdk/demo/curve25519/host/main.c:39 | Rounding up to 4 in 32 bits does so exactly when the addition does not wrap. |
| `AttrCodec.LayoutIff` | Tsec_dev_kit/Tsec_sdk/demo/curve25519/host/main.c:91-140 | For every list: all copies of the second pass end inside the buffer and no two references' bytes meet, if and only if no length is above 2^32 - 4. |
| `AttrCodec.LayoutSound` | Tsec_dev_kit/Tsec_sdk/demo/curve25519/host/main.c:104-140 | Without such lengths every reference's region is 4-aligned, behind the record table, and inside the buffer. |
| `AttrCodec.RegionsDisjoint` | Tsec_dev_kit/Tsec_sdk/demo/curve25519/host/main.c:104-140 | Without such lengths the regions of two references do not overlap. |
| `AttrCodec.WrappedMeets` | Tsec_dev_kit/Tsec_sdk/demo/curve25519/host/main.c:39 | A reference with such a length gets no room: the next reference with bytes is written over it, or, when there is none, its copy leaves the buffer. |
| `AttrCodec.OverlappingMeets` | Tsec_dev_kit/Tsec_sdk/demo/curve25519/host/main.c:104-140 | An instance that stays inside the buffer: of references of 2^32 - 3, 2^32 - 4 and 4 bytes the second is written over the first. |
| `AttrCodec.PackedSize` | Tsec_dev_kit/Tsec_sdk/demo/curve25519/host/main.c:91-103 | The first pass computes exactly the length of the packed form, wrapping lengths counting as the code counts them. |
| `AttrCodec.PackOne` | Tsec_dev_kit/Tsec_sdk/demo/curve25519/host/main.c:117-140 | One attribute of the second pass stores its record and its bytes at their places, and the next offset is reached. |
| `AttrCodec.PackAttrs` | Tsec_dev_kit/Tsec_sdk/demo/curve25519/host/main.c:78-143 | Success with exactly what the copies write one after another, nothing for an empty list, or out of memory with null; without wrapping lengths this is the packed form. |
| `AttrCodec.WrittenIsPacked` | Tsec_dev_kit/Tsec_sdk/demo/curve25519/host/main.c:104-140 | Written over a zeroed buffer one after another, the attributes leave count, records and zero-filled regions, if no length wraps. |
| `AttrCodec.UnpackAttrs` | Tsec_dev_kit/Tsec_sdk/demo/curve25519/ta/curve25519.c:137-194 | Success exactly for acceptable inputs (and alignment, and memory where any is needed); then the outputs are the decoded records with every non-null reference inside the input, and otherwise they are untouched. |
| `AttrRoundTrip.WrittenDecodes` | Tsec_dev_kit/Tsec_sdk/demo/curve25519/host/main.c:117-140 | What the record of each attribute decodes to, overwritten or not, the pointer being the offset as far as 32 bits hold it. |
| `AttrRoundTrip.PointersExactIff` | Tsec_dev_kit/Tsec_sdk/demo/curve25519/host/main.c:135-136 | The pointers are right exactly when every offset fits 32 bits. |
| `AttrRoundTrip.WrittenReturns` | Tsec_dev_kit/Tsec_sdk/demo/curve25519/ta/curve25519.c:137-194 | Whatever is written without leaving the buffer is accepted, and each attribute comes back as it is, except that a reference has the bytes at its offset modulo 2^32. |
| `AttrRoundTrip.RoundTrip` | Tsec_dev_kit/Tsec_sdk/demo/curve25519/ta/curve25519.c:137-194 | Unpacking a packed list succeeds and gives back ids, value pairs, reference lengths and bytes, null references staying null, also for the empty list, if no length wraps, references with bytes start below 2^32, and empty ones not at a multiple of it. |
| `AttrRoundTrip.RoundTripIff` | Tsec_dev_kit/Tsec_sdk/demo/curve25519/ta/curve25519.c:137-194 | That condition is exact: for every list whose copies stay inside the buffer, it holds if and only if the list comes back whatever bytes its references have. |
| `AttrRoundTrip.FarByteChanges` | Tsec_dev_kit/Tsec_sdk/demo/curve25519/host/main.c:135-136 | An instance: behind a reference of 2^32 - 4 bytes, a reference to the byte 2 comes back as a reference to the byte 1. |
| `AttrRoundTrip.FarNothingReturns` | Tsec_dev_kit/Tsec_sdk/demo/curve25519/host/main.c:135-136 | An instance the other way: with no bytes behind the same reference the offset does not fit 32 bits, and the list still comes back. |
| `AttrRoundTrip.PackedInjective` | Tsec_dev_kit/Tsec_sdk/demo/curve25519/host/main.c:78-143 | Different lists that meet the condition of the round trip have different packed forms. |
| `AttrBytes.ListedIff` | Tsec_dev_kit/Tsec_sdk/demo/curve25519/ta/include/curve25519_derive_key.h:68 | What a list must be for the packer, with values told from references by bit 29 of the id as a number. |
| `AttrBytes.OffsetNumbers` | Tsec_dev_kit/Tsec_sdk/demo/curve25519/host/main.c:91-103 | The first reference starts at 4 + 12 * count, each next one behind the length rounded up to four in 32 bits. |
| `AttrBytes.WrittenBytes` | Tsec_dev_kit/Tsec_sdk/demo/curve25519/host/main.c:112-136 | Byte by byte, least significant first: the count at 0, then at 4 + 12 * k the id, offset or first value, and length or second value of attribute k. |
| `AttrBytes.WrittenContents` | Tsec_dev_kit/Tsec_sdk/demo/curve25519/host/main.c:130-140 | Without wrapping lengths the referenced bytes stand at the offset of their record, followed by zeros up to the next one. |
| `AttrBytes.DecodedIff` | Tsec_dev_kit/Tsec_sdk/demo/curve25519/ta/curve25519.c:164-183 | A record decodes as a value exactly when its id modulo 2^30 is 2^29 or more; otherwise as a reference, null exactly when the offset is 0. |
| `AttrBytes.AcceptableIff` | Tsec_dev_kit/Tsec_sdk/demo/curve25519/ta/curve25519.c:146-177 | A buffer that is not empty is accepted exactly when 4 + 12 * count bytes are there and every reference that is not null ends inside it, in terms of its bytes. |
| `AttrBytes.Demonstrate` | Tsec_dev_kit/Tsec_sdk/demo/curve25519/host/main.c:396-430 | The two X25519 keys and a curve, packed and unpacked: references to 40 and 72, where their bytes are, and a value. |
| `CTypes.Convert` | Tsec_dev_kit/Tsec_sdk/export/ta-rv64/include/compiler.h:99-101 | Conversion to an integer type lands in its range and keeps values that fit. |
| `CTypes.TypeRanges` | Tsec_dev_kit/Tsec_sdk/export/ta-rv64/include/compiler.h:99-101 | The ranges of the eight integer types, as numbers. |
| `CTypes.Converted` | Tsec_dev_kit/Tsec_sdk/export/ta-rv64/include/compiler.h:99-101 | A conversion changes a value by a multiple of 2^8, 2^16, 2^32 or 2^64. |
| `CTypes.Conversions` | Tsec_dev_kit/Tsec_sdk/export/ta-rv64/include/compiler.h:224-240 | The usual arithmetic conversions: below int to int, the unsigned of two types of one width, otherwise the wider one. |
| `IntOverflow.AssignExact` | Tsec_dev_kit/Tsec_sdk/export/ta-rv64/include/compiler.h:99-105 | The two comparisons detect every change of value: store exactly if it fits. |
| `IntOverflow.AddExact` | Tsec_dev_kit/Tsec_sdk/export/ta-rv64/include/compiler.h:107-143 | For operands and destination of any types: a + b if the destination holds it, overflow otherwise. |
| `IntOverflow.MulMagnitudesExact` | Tsec_dev_kit/Tsec_sdk/export/ta-rv64/include/compiler.h:214-237 | Split-half multiplication of two unsigned 64-bit factors is exact. |
| `IntOverflow.MulExactIff` | Tsec_dev_kit/Tsec_sdk/export/ta-rv64/include/compiler.h:224-240 | For operands and destination of any types: the macro stores a * b if it fits and reports overflow otherwise, exactly unless Mishandled, a condition on operands and types. |
| `IntOverflow.NarrowLeastProduct` | Tsec_dev_kit/Tsec_sdk/export/ta-rv64/include/compiler.h:224-240 | With the least value of a type narrower than int the macro reports overflow, except into uintmax_t with factor -1, where it stores 2^64 minus the product. |
| `IntOverflow.MulUintmax` | Tsec_dev_kit/Tsec_sdk/export/ta-rv64/include/compiler.h:224-240 | uintmax_t throughout: overflow if and only if a * b >= 2^64. |
| `IntOverflow.MulIntmax` | Tsec_dev_kit/Tsec_sdk/export/ta-rv64/include/compiler.h:224-240 | intmax_t operands other than the least one: overflow if and only if abs(a * b) > INTMAX_MAX. |
| `IntOverflow.LeastProduct` | Tsec_dev_kit/Tsec_sdk/export/ta-rv64/include/compiler.h:236-239 | For operands of any types and any signed destination: its least value as a product of factors other than 0 and 1 is reported as overflow although it fits. |
| `IntOverflow.NegativeIntoUnsigned` | Tsec_dev_kit/Tsec_sdk/export/ta-rv64/include/compiler.h:238 | A negative product whose magnitude an unsigned destination of int width or more holds is stored wrapped, without an overflow report. |
| `IntOverflow.MinusThreeTimesTwo` | Tsec_dev_kit/Tsec_sdk/export/ta-rv64/include/compiler.h:224-240 | An instance: -3 * 2 into uintmax_t stores 2^64 - 6. |
| `IntOverflow.MinusOneTimesOne` | Tsec_dev_kit/Tsec_sdk/export/ta-rv64/include/compiler.h:231-233 | An instance: -1 of int times 1 of unsigned int into uintmax_t stores 4294967295. |
| `IntOverflow.ShortLeastTimesMinusOne` | Tsec_dev_kit/Tsec_sdk/export/ta-rv64/include/compiler.h:224-240 | An instance: SHRT_MIN * -1 into uintmax_t stores 2^64 - 32768. |
| `IntOverflow.ShortLeastTimesTwo` | Tsec_dev_kit/Tsec_sdk/export/ta-rv64/include/compiler.h:224-240 | An instance: SHRT_MIN * 2 into int is reported as overflow although it fits. |
| `Bitstring.BitSet` | Tsec_dev_kit/Tsec_sdk/export/ta-rv64/include/bitstring.h:68-69 | Sets one bit in place and no other. |
| `Bitstring.BitClear` | Tsec_dev_kit/Tsec_sdk/export/ta-rv64/include/bitstring.h:72-73 | Clears one bit in place and no other. |
| `Bitstring.BitNumbers` | Tsec_dev_kit/Tsec_sdk/export/ta-rv64/include/bitstring.h:64-65 | Bit i is found with mask 01, 02, 04, 08, 10, 20, 40 or 80 in byte i / 8. |
| `Bitstring.SingleBit` | Tsec_dev_kit/Tsec_sdk/export/ta-rv64/include/bitstring.h:64-73 | Read back with bit_test, a single set or clear changes its bit and no other. |
| `Bitstring.FoldIsRange` | Tsec_dev_kit/Tsec_sdk/export/ta-rv64/include/bitstring.h:68-73 | Setting or clearing bits one by one changes exactly the range. |
| `Bitstring.RangeUnique` | Tsec_dev_kit/Tsec_sdk/export/ta-rv64/include/bitstring.h:76-107 | The change of a range determines the string. |
| `Bitstring.SetMasks` | Tsec_dev_kit/Tsec_sdk/export/ta-rv64/include/bitstring.h:99-105 | The shift masks of bit_nset select the bits meant, within a byte and at both ends. |
| `Bitstring.ClearMasks` | Tsec_dev_kit/Tsec_sdk/export/ta-rv64/include/bitstring.h:82-88 | The shift masks of bit_nclear select the bits meant. |
| `Bitstring.BitNset` | Tsec_dev_kit/Tsec_sdk/export/ta-rv64/include/bitstring.h:93-107 | Sets exactly the bits start to stop, in one byte or many, and equals setting them one by one. |
| `Bitstring.BitNclear` | Tsec_dev_kit/Tsec_sdk/export/ta-rv64/include/bitstring.h:76-90 | Clears exactly the bits start to stop, and equals clearing them one by one. |
| `Bitstring.FirstOther` | Tsec_dev_kit/Tsec_sdk/export/ta-rv64/include/bitstring.h:119-121 | The inner loop of a search finds the first bit of the byte that differs. |
| `Bitstring.BitFfs` | Tsec_dev_kit/Tsec_sdk/export/ta-rv64/include/bitstring.h:129-145 | The least index below nbits whose bit is set, or -1 exactly when there is none, whatever the padding bits. |
| `Bitstring.BitFfc` | Tsec_dev_kit/Tsec_sdk/export/ta-rv64/include/bitstring.h:110-126 | The least index below nbits whose bit is clear, or -1 exactly when there is none, whatever the padding bits. |
| `Bitstring.FirstBitUnique` | Tsec_dev_kit/Tsec_sdk/export/ta-rv64/include/bitstring.h:110-145 | A search has one answer. |
| `Bitstring.RangeThenSearch` | Tsec_dev_kit/Tsec_sdk/export/ta-rv64/include/bitstring.h:93-126 | A search for the opposite value never answers inside a range just set or cleared. |
| `Sbmeta.HexstringToBytes` | tools/sectool/sbmeta.py:117-122 | The loop packs every pair of the digest, or raises at the first that is not a byte. |
| `Sbmeta.SbmetaImageGen.ProcessField` | tools/sectool/sbmeta.py:182-232 | A field is rejected exactly when its value is missing or has the wrong type or size, raises exactly when the value is out of range, and otherwise yields bytes that represent the value. |
| `Sbmeta.FieldMeaning` | tools/sectool/sbmeta.py:182-232 | What representing means: a signed byte read back is the integer or the enum code, the name decodes from UTF-8 and is followed by zeros, each digest byte is its pair of digits, the little-endian word is the address or all ones. |
| `Sbmeta.SbmetaImageGen.WriteFields` | tools/sectool/sbmeta.py:242-262 | The fields are appended in order until one fails. |
| `Sbmeta.SbmetaImageGen.AddImage` | tools/sectool/sbmeta.py:235-279 | Exactly the record and its 0xFF padding are appended, or what was written before the failure; the index advances only on success. |
| `Sbmeta.SbmetaImageGen.PaddingImage` | tools/sectool/sbmeta.py:273-279 | Pads to 4096 bytes, or fails when there is nothing to pad. |
| `Sbmeta.SbmetaImageGen.PackSbmeta` | tools/sectool/sbmeta.py:425-461 | A run leaves the specified file and outcome. |
| `Sbmeta.ImagesInSlots` | tools/sectool/sbmeta.py:264-270 | Running offsets stay multiples of 128: every record goes into its own slot, and all do exactly when each fits. |
| `Sbmeta.RunIff` | tools/sectool/sbmeta.py:235-279 | A run succeeds exactly for 1 to 31 images that fit their slots, and then leaves 4096 bytes; 32 or more always fail. |
| `SbmetaReading.SlotHoldsIff` | tools/sectool/sbmeta.py:182-270 | A record fits its slot exactly when every field has a value of the right type and range and the encoding of the name exceeds its characters by at most 16 bytes. |
| `SbmetaLayout.SlotIs` | tools/sectool/sbmeta.py:235-270 | A slot byte by byte: 53 42 4D 54, device, partition, the codes of type, digest and sign scheme, encryption, medium, checksum scheme, each name with its code as a number; the name and zeros, 64 digest bytes, the address least significant byte first, and 0xFF. |
| `SbmetaLayout.RunIs` | tools/sectool/sbmeta.py:425-461 | So it is at byte 128 * i of every successful run, and 0xFF behind the last slot up to byte 4096. |
| `SbmetaLayout.DescribesIff` | tools/sectool/sbmeta.py:125-270 | A record fits its slot exactly for such descriptions: integers from -128 to 127, names from the four tables written out, a name of at most 31 characters and 16 extra bytes, at most 128 digest characters in readable pairs, and an address, if any, of 32 bits. |
| `SbmetaLayout.FieldOutcomes` | tools/sectool/sbmeta.py:125-232 | Which values of integer, name and address fields give a message and which an exception. |
| `SbmetaLayout.EnumOutcomes` | tools/sectool/sbmeta.py:180-211 | A value that is no name of its table gives a message; an enumerated field never raises. |
| `SbmetaLayout.Unwritten` | tools/sectool/sbmeta.py:235-262 | An image without a name raises before anything is written, one without a device fails behind the magic number. |
| `SbmetaLayout.Exceeds` | tools/sectool/sbmeta.py:264-266 | A record that packs but takes more than 128 bytes is a message, with the record already written. |
| `SbmetaLayout.RunFails` | tools/sectool/sbmeta.py:273-279 | No images are a message, and so are 32 and more that all fit, with their slots already written. |
| `SbmetaLayout.PairIff` | tools/sectool/sbmeta.py:117-122 | What a pair of digest characters packs to: 16 * first + second of two hexadecimal digits, small or capital; one digit next to white space or behind a plus sign; 0 for -0; and an exception for everything else. |
| `SbmetaLayout.TeeSlot` | tools/sectool/sbmeta.yaml:79-87 | An instance: the slot of the shipped tee image starts 53 42 4D 54 00 03 05 00 00 00 00 04, then its name, and ends in 0xFF from the address on. |
| `Utf8.Forms` | tools/sectool/sbmeta.py:187 | The lead byte and the continuation bytes of one to four byte characters. |
| `Utf8.DecodeIff` | tools/sectool/sbmeta.py:187 | Bytes decode to a string if and only if they are its UTF-8 encoding. |
| `SbmetaReading.FieldsMoved` | tools/sectool/sbmeta.py:187-188 | In every slot, digest and address stand behind their fixed offsets by exactly the bytes by which the encoded name is longer than its characters; name and codes stand at theirs. |
| `SbmetaReading.NameReadsIff` | tools/sectool/sbmeta.py:187-188 | The name field gives back the name exactly when that has no NUL and fits 32 bytes encoded. |
| `SbmetaReading.FixedOffsetsIff` | tools/sectool/sbmeta.py:187-188 | For a name that fits, digest and address are at the fixed offsets exactly when the name is ASCII or both are zero. |
| `SbmetaReading.DecodesIff` | tools/sectool/sbmeta.py:182-232 | Read at the fixed offsets, the name as UTF-8, a record gives back codes, name, digest and address exactly when the name has no NUL, fits 32 bytes encoded, and is ASCII unless digest and address are zero. |
| `SbmetaReading.AccentedMoves` | tools/sectool/sbmeta.py:187-188 | An input on which reading back fails: an image named with one accented letter. |
| `SbmetaReading.RunDecodes` | tools/sectool/sbmeta.py:425-461 | In every successful run slot i at byte 128 * i reads back as image i under exactly that condition, and all bytes behind the slots are 0xFF. |
| `SbmetaReading.DigestRoundTrip` | tools/sectool/sbmeta.py:117-122 | A lower-case hexadecimal digest packs, and its bytes give it back. |

## Left out

- All calls into the TEE client, TEE internal and csi libraries, session set-up, flash scanning, `display_hex` and `delay_time`; the demonstrations built only on them.
- The copies of the attribute packer in the ecdh and ecdsa demonstrations and of the headers under host_include.
- `__INTOF_SUB`: it subtracts in the operands' own type in one branch, so it makes no promise of exactness.
- `_ftoa` and `_etoa`: a format with a floating conversion has no defined text here.
- `sprintf_` and `fctprintf`: the first has no bound on its buffer, the second is the stream sink with another character function.
- The table is a function given by the source's rows of eight, and `Crc.SelectMode` is the part of the switch in `crc_ccit_init` that sets parameters.
- SeFrame.ReceiveFrame: the bus is a finite input, so a polling loop that would wait for ever ends as `Waiting`. The source stores the payload into its 1024-byte I/O buffer without a check of its own; inputs on which it would run past the end, exactly those of `SeFrame.OverrunIff`, are excluded, and no others.
- SeFrame.Send: the payload has at most 1014 bytes, as the source writes payload and 10 more bytes into the same buffer unchecked and a longer one would run past its end; the status the bus operations return is not modelled, as the source ignores it.
- SeFrame.SentIsReceived: the synchronisation bytes are the receiver's; what becomes of the sender's own preamble is `SeFrame.OwnFrameReceived`.
- CrcDetection.MinimumDistance: the bound of 32767 bits is where two-bit changes begin to go unnoticed (`TwoBitErrors`).
- TinyPrintf.Vsnprintf: formats whose behaviour C leaves undefined are excluded by `Render(...).Some?`: a format that ends inside a conversion, a missing argument or one of the wrong kind, and the most negative value of %d or of a width argument, which cannot be negated. An integer argument of another width than the conversion's is narrowed as the calling convention does. The running index does not wrap at 2^64.
- PrintedFields.PrintedReadsBack: not with '#', for which `PrintedHash.PrintedHashDigits` says when all digits are there.
- PrintedFields.PrintedConforms: not for %b, which the standard does not have; with '#' see `PrintedHash.PrintedHashConforms`. '#' on a decimal conversion, which the standard leaves undefined, is ignored (`PrintedHash.DecimalHash`).
- PrintedFields.PrintedWidth: not with '#', whose prefix may exceed a zero-padded width in base 2.
- PrintedSpecifiers.PointerShown: only flag '0' and precisions up to 16; with others %p is an integer conversion of width 16, of which `PrintfNumber.FieldShape` speaks.
- PrintedFields.StringConforms: not for %ls and %hs, which the standard gives a wide string and does not have; the code looks at no length modifier there (`StringPrinted`).
- AttrCodec.PackAttrs: only lists on which a copy would leave the buffer are excluded; which these can be is said by `LayoutIff` and `WrappedMeets`. A buffer holds as many bytes as its length says.
- AttrRoundTrip.RoundTrip: the condition is exact for lists of a shape with all their contents (`RoundTripIff`); a single list outside it may come back when the bytes at the wrong place happen to agree.
- IntOverflow.MulExactIff: excluded are operands whose negation C leaves undefined, the least values of signed types of int width or more, next to a factor other than 0 and 1. Next to 0 or 1 the macro negates them as well, before it looks at the other factor, and does not use the result; the lemma takes that negation to wrap around, which C does not promise.
- IntOverflow.AddExact: the least value of an operand type of int width or more is excluded where the macro negates it.
- Bitstring.BitNset: a range is not empty and lies inside the string, as the macro requires; bit numbers are natural numbers. The same holds for `BitNclear`.
- Sbmeta.SbmetaImageGen.PackSbmeta: reading YAML, file checks, hashing and the signing subprocess; records come with their digest already computed, values are integers, booleans, strings or null, error texts are not kept, and hexadecimal digits outside ASCII are not modelled.
