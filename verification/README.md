# OTA receive path of the Telink demo: a verified model

The `ota_demo` application of the Telink vendor package receives firmware over a UART. This project models that receive
path in Dafny and proves what it promises, from the interrupt handler that puts bytes into a ring up to the digest of
the flashed image.

* `Uart.dfy`, `Serial.dfy`: the UART. `Uart` is an interleaving transition system whose atomic steps are the stretches
  with interrupts locked, the interrupt handler taking a byte, and the two ways a wait can end. `Serial` is the code
  itself, a class with the 256-slot ring, the borrowed buffer pointer and the event bit; every one of its methods is
  proved to be a run of `Uart`.
* `Wire.dfy`: the line as `app.c` sees it, a sequence of bytes and time-outs, and `_inbyte`, `flushinput` and
  `uart_read_buf` on it, with the calls made as a history. `Device.dfy` joins the two: the calls that `xmodemReceive` makes
  to the reader are a run on the line those calls make up.
* `Gf2.dfy`, `Registers.dfy`, `Divisors.dfy`, `Order.dfy`, `Crc.dfy`: polynomials over GF(2), long division, the order
  of x modulo x^16 + x^12 + x^5 + 1, and `crc16_ccitt` and `check`, on 16-bit words, against them.
* `Receiver.dfy`: `xmodemReceive` as a function of its input, one header attempt (`Turn`) at a time; `Ledger.dfy` reads
  the history of a run as a protocol with unbounded block counts; `Runs.dfy` has the theorems about whole runs;
  `Xmodem.dfy` is the code, loop by loop, over line, buffer, flash and running hash.
* `Faults.dfy`, `Strays.dfy`: what the receiver makes of any bytes at all, followed by silence: what it comes to first, and
  all the frames it finds among stray bytes. `Damage.dfy`: what a line can do to a frame, byte by byte.
* `Sender.dfy`, `StopAndWait.dfy`, `Transfers.dfy`: a sender that goes on to the next block only when it hears an ACK,
  composed with the receiver over a line that loses, alters and adds bytes and loses answers. The rounds of that
  composition are tied back to one run of the receiver on one input stream.
* `Protocol.dfy`: what goes over the wire in bytes and figures instead of named constants: what is sent back for every
  frame and every other input, how many repeats are answered, whole transfers.
* `Commands.dfy`: the upload, hash and print commands on flash. `Console.dfy`, `Signature.dfy`: the line editor and the
  hexadecimal signature reader. `Sequences.dfy`: concatenation.

Four places where the code does something else than one would expect are stated as it does them, with the exact
condition:

* The number before the expected block number is computed as an integer, so number 0 has no predecessor and a repeat of
  block 255 is refused (`Ledger.RepeatAnsweredIff`). If the ACK of block 255 is lost, sender and receiver never get any
  further (`StopAndWait.StuckForever`); this can happen exactly in transfers of 255 blocks or more
  (`Transfers.StuckReachableIff`).
* The hash and print commands skip the last 1024 bytes exactly when the length is a positive multiple of 1024
  (`Commands.Covered`, `Commands.ReadBack`).
* Refused frames never use up the budget of repeats; only repeats do (`Runs.RunConcludes`).
* Nothing protects a header byte or an EOT. Any bytes in which the attempts to get a header come to an EOT, at once or
  behind frames that are accepted, end the run as if the transfer were complete, and no others do
  (`Strays.EndsEarlyIff`). One such fault is a frame whose header byte is lost (`Damage.BeheadedEndsIff`); block 4 is the
  smallest example (`Transfers.FourthHeaderLostRun`). What faults sender and receiver survive is known exactly
  (`StopAndWait.WelcomeIff`).

## Model

| member | source | states |
|---|---|---|
| Crc.Crc16Ccitt | ota_demo/ota_demo/app.c:117-134 | the loop on a 16-bit register returns the word whose bits are the polynomial remainder of the message times x^16 |
| Crc.ShiftIn | ota_demo/ota_demo/app.c:122-132 | one byte through the register is an addition into the high half and eight multiplications by x in the residue ring, and extends the message by that byte |
| Crc.ShiftedWord | ota_demo/ota_demo/app.c:126-130 | shifting a 16-bit word left drops its high bit and brings in a 0; the high bit is the one tested with 0x8000 |
| Crc.TurnsByX | ota_demo/ota_demo/app.c:125-131 | shifting a word with the conditional exclusive-or of 0x1021 is multiplication by x modulo the generator |
| Crc.TapsAreGenerator | ota_demo/ota_demo/app.c:127 | 0x1021 is x^16 + x^12 + x^5 + 1 without its leading term |
| Crc.Crc16Step | ota_demo/ota_demo/app.c:122-132 | feeding a byte to the register extends the message by that byte |
| Crc.Crc16IsRemainder | ota_demo/ota_demo/app.c:117-134 | a polynomial of degree below 16 is what long division by the generator leaves over if and only if it is the CRC |
| Gf2.ResidueIsRemainder | ota_demo/ota_demo/app.c:125-131 | for every polynomial the shift register ends with the one remainder of its division by the generator |
| Gf2.QuotientDivides | ota_demo/ota_demo/app.c:125-131 | the bits shifted out are a quotient: quotient times generator plus register is the polynomial fed in |
| Crc.Check | ota_demo/ota_demo/app.c:136-156 | accepts exactly the bodies whose trailer is the CRC, high byte first, or the 8-bit sum of the payload |
| Crc.TrailerIsUnique | ota_demo/ota_demo/app.c:136-156 | for every payload and mode exactly one trailer passes, the one the sender computes |
| Crc.SumConcat | ota_demo/ota_demo/app.c:145-149 | the checksum starts at 0: the sum of two parts is the sum of the whole, and one byte is its own sum |
| Crc.ChecksumOfSame | ota_demo/ota_demo/app.c:145-152 | in checksum mode `n` bytes of one value are accepted with exactly one trailer, `n` times the value modulo 256; 128 zeros with 0 only |
| Crc.TrailerOfOne | ota_demo/ota_demo/app.c:136-143 | in figures: the payload 01 is accepted in CRC mode with the trailer 10 21 only |
| Crc.SoundIffDivisible | ota_demo/ota_demo/app.c:136-143 | a body of any length passes the CRC check if and only if payload and trailer together are a multiple of the generator |
| Crc.SoundIffCrcIsZero | ota_demo/ota_demo/app.c:136-143 | a body passes the CRC check if and only if the CRC of payload and trailer together is 0 |
| Crc.UndetectedIffDivisible | ota_demo/ota_demo/app.c:136-143 | an error in a good body goes unnoticed if and only if its pattern is a multiple of the generator |
| Crc.BurstDetected | ota_demo/ota_demo/app.c:117-142 | every non-zero error within 16 consecutive bits of payload and trailer is noticed, for payloads of any length |
| Crc.OddErrorDetected | ota_demo/ota_demo/app.c:117-142 | every error in an odd number of bits is noticed, for payloads of any length |
| Crc.OneByteDetected | ota_demo/ota_demo/app.c:136-156 | one wrong byte in payload or trailer is noticed in either mode, for payloads of any length |
| Order.OrderOfX | ota_demo/ota_demo/app.c:117-134 | x^n is 1 modulo the generator exactly for the multiples of 32767 |
| Order.TwoBitErrorUndetectedIff | ota_demo/ota_demo/app.c:117-142 | two flipped bits in a good body of any length go unnoticed if and only if they are a multiple of 32767 positions apart |
| Order.FewFlippedBitsDetected | ota_demo/ota_demo/app.c:67-68 | any one, two or three flipped bits are noticed for payloads of up to 1024 bytes |
| Wire.Line.InByte | ota_demo/ota_demo/app.c:158-162 | takes the next byte, or reports a time-out as -1 |
| Wire.Line.FlushInput | ota_demo/ota_demo/app.c:183-187 | discards everything up to and including the next time-out, and ends on every input |
| Wire.Line.ReadBuf | ota_demo/ota_demo/app.c:296-297 | as called here, with a non-zero time-out: fills the buffer with the bytes that come before it is full or a wait times out, and touches nothing else in it |
| Wire.TakenAccounts | ota_demo/ota_demo/serial.c:199-229 | the bytes taken, at most one time-out, and the input left make up the input before |
| Xmodem.GetFirstByte | ota_demo/ota_demo/app.c:191-222 | finds the header, the end, or a double CAN; a single CAN swallows what follows it; only the endings are acknowledged |
| Xmodem.Passes | ota_demo/ota_demo/app.c:227-229 | the condition on a frame holds exactly when the protocol does not reject it |
| Xmodem.Answer | ota_demo/ota_demo/app.c:242-250 | an accepted frame costs one repeat and gets one ACK, or three CANs after a flush when the budget is gone |
| Xmodem.Deliver | ota_demo/ota_demo/app.c:231-238 | flash and hash are both given exactly the part of the payload that still fits |
| Xmodem.PacketCheck | ota_demo/ota_demo/app.c:224-254 | verdict, variables, answer, flash and hash after a complete frame are those of the protocol; the callback is made for new blocks only |
| Xmodem.ReceiveFrame | ota_demo/ota_demo/app.c:292-314 | the same for any frame, a short one being refused; all buffer indices stay within 1030 |
| Xmodem.AwaitHeader | ota_demo/ota_demo/app.c:265-278 | up to sixteen attempts, each with one solicitation while no header has been seen |
| Xmodem.Receive | ota_demo/ota_demo/app.c:256-315 | on every finite input it returns; result, replies, input left and calls to the reader are those of the specified run, and however the run ends flash and hash both hold exactly the delivered bytes and flash is unchanged elsewhere; only the bytes that do arrive must fit into the flash |
| Xmodem.GiveUp | ota_demo/ota_demo/app.c:285-289 | a run given up discards the input through the next time-out and sends 18 18 18 |
| Xmodem.Updater.Receive | ota_demo/ota_demo/app.c:355-366 | the slice is appended to what was hashed and written at the start address plus the cursor; every other cell of the flash keeps its value |
| Xmodem.StillInStep | ota_demo/ota_demo/app.c:230-241 | after every frame, delivered or not, flash region and hashed bytes equal the concatenated accepted payloads cut to the destination |
| Receiver.TurnShrinks | ota_demo/ota_demo/app.c:265-314 | every attempt uses up input, one of the two solicitation rounds, or a retry, so no run goes on for ever |
| Ledger.JudgeRules | ota_demo/ota_demo/app.c:227-247 | the decision on 8-bit numbers equals the protocol's on unbounded counts: new if one above the count modulo 256, repeat if equal to it and not 255 |
| Ledger.RepeatAnsweredIff | ota_demo/ota_demo/app.c:228 | a repeat of the last accepted block is answered as one if and only if its number is not 255 |
| Ledger.SliceContinues | ota_demo/ota_demo/app.c:231-238 | the slices given to the callback continue each other to the stream cut to the destination size, also for negative sizes |
| Ledger.UpdateDelivers | ota_demo/ota_demo/app.c:230-241 | the cursor is always the number of bytes delivered, and a frame adds to them exactly the fitting part of a new payload |
| Ledger.UpdateCounts | ota_demo/ota_demo/app.c:239-242 | the block number stays one above the count of accepted blocks modulo 256, and the budget 25 minus the repeats since the last new block |
| Ledger.TurnAgrees | ota_demo/ota_demo/app.c:265-314 | from any state in agreement with its history, every input leads to one again: number, budget, cursor and mode |
| Runs.RunConcludes | ota_demo/ota_demo/app.c:256-315 | every run on every input: right verdicts throughout, one mode, -3 exactly when 25 repeats came without a new block between them and never later, EOT returns min(max(destsz, 0), accepted bytes) |
| Runs.AcceptedInOrder | ota_demo/ota_demo/app.c:227-241 | the n-th accepted block was well formed, carried number n + 1 modulo 256, and its payload is the n-th delivered |
| Runs.SessionReplies | ota_demo/ota_demo/app.c:292-314 | after the first header nothing is solicited and every header gets exactly one answer until the end |
| Runs.SessionOpening | ota_demo/ota_demo/app.c:265-295 | before the first header only solicitations are sent, and the one outstanding at that header decides the mode for good |
| Runs.RunReplies | ota_demo/ota_demo/app.c:256-315 | everything a run sends: up to 16 'C' and up to 16 NAK, one answer per header, the ending; all 32 solicitations if it ends with -2 and no header |
| Runs.SilentRunIff | ota_demo/ota_demo/app.c:265-289 | a run returns -2 without a header if and only if 32 attempts bring nothing, and then it has sent 16 'C', 16 NAK and three CANs |
| Runs.MeaninglessIsFruitless | ota_demo/ota_demo/app.c:191-222 | time-outs and bytes other than SOH, STX, EOT and CAN bring nothing, in any number and order |
| Runs.SessionIsShort | ota_demo/ota_demo/app.c:265-314 | a run answers no more headers than it reads items of input |
| Sender.BodyCarries | ota_demo/ota_demo/app.c:224-241 | every frame a sender builds, of any number and mode, is well formed and carries its payload |
| Sender.TurnReadsFrame | ota_demo/ota_demo/app.c:296-313 | a turn that finds a header reads exactly that frame and leaves what follows it, unless it refuses it and flushes |
| Sender.FrameRoundTrip | ota_demo/ota_demo/app.c:224-253 | a 128 or 1024 byte block with the expected number is accepted, acknowledged and delivered in either mode, and the budget is restored |
| Sender.LineErrorRefused | ota_demo/ota_demo/app.c:117-156 | a frame in CRC mode with one to three wrong bits, an odd number of them, or a burst of at most 16 is refused |
| Protocol.TurnOnFrame | ota_demo/ota_demo/app.c:224-314 | in bytes, for every state and every complete frame, good or not: the expected number is answered 06 and delivered as far as it fits, a repeat 06 while budget is left, the last one 18 18 18 and -3, everything else 15 after a flush |
| Protocol.TurnOnShortFrame | ota_demo/ota_demo/app.c:296-303 | in bytes: a frame cut short after its header is answered 15 after a flush and changes nothing but mode and solicitation |
| Protocol.TurnOnOther | ota_demo/ota_demo/app.c:191-289 | in bytes, for every state and input that begins with no header: 04 and 18 18 end the run and are answered 06, a single 18 takes one item with it, all else is a missed attempt, the sixteenth of which turns 43 into 15 or ends the run with 18 18 18 and -2 |
| Protocol.RepeatsAfterBlock | ota_demo/ota_demo/app.c:227-250 | after an accepted block other than 255 exactly 24 repeats in a row are answered 06, from any state, and the 25th ends the run with 18 18 18 and -3 |
| Protocol.RepeatsOfFirst | ota_demo/ota_demo/app.c:256-315 | the whole run in bytes: block 1, up to 24 repeats of it and 04 give 43 and 06 for each of them; 25 repeats give 43, 06 25 times, 18 18 18 and -3 |
| Protocol.QuietIff | ota_demo/ota_demo/app.c:265-289 | after the first header a run ends for want of another if and only if the attempts left of sixteen bring none, and then sends 18 18 18 only |
| Protocol.NothingHeard | ota_demo/ota_demo/app.c:256-289 | in bytes: a run that hears nothing in 32 attempts, and no other, sends 43 16 times, 15 16 times, 18 18 18, and returns -2 without a header |
| Protocol.TransferBytes | ota_demo/ota_demo/app.c:256-315 | in bytes: after 0 to 31 silent attempts, frames 01 or 02, number, complement, payload, trailer and then 04 deliver everything in order and are answered 06 each |
| Faults.ScanTells | ota_demo/ota_demo/app.c:191-222 | on any bytes followed by silence the attempts do what a scan of the bytes says: nothing, a header and what follows it, an end, a cancel, or giving up, with the solicitations sent |
| Faults.HarmlessIff | ota_demo/ota_demo/app.c:224-309 | any bytes at all bring no accepted frame and no normal end, if and only if the first thing the attempts reach is no EOT and no frame that passes for the expected or the previous block |
| Faults.HarmlessNoise | ota_demo/ota_demo/app.c:191-222 | such bytes change nothing but the attempts left, or end the run with an error; only a double CAN among them is acknowledged |
| Faults.EndsUnframedIff | ota_demo/ota_demo/app.c:202-216 | any bytes at all end the run before any frame by the first control byte reached: normally for EOT, with -1 for a double CAN, with -2 when the attempts run out first |
| Strays.ChunkAccounts | ota_demo/ota_demo/app.c:265-313 | the frames found among any bytes at all are the history of the turns they cause; an ACK goes out exactly for the accepted ones while the run goes on |
| Strays.EndsEarlyIff | ota_demo/ota_demo/app.c:202-206 | any bytes at all end the run normally if and only if they lead to an EOT, at once or behind frames that are accepted; the result is then what has been delivered |
| Strays.NoiseDecides | ota_demo/ota_demo/app.c:265-309 | any bytes at all, followed by the silence they call for, do the same whatever comes after them |
| Damage.ShortFrameHarmless | ota_demo/ota_demo/app.c:296-303 | a frame with bytes missing after its header does no harm |
| Damage.BadFrameHarmless | ota_demo/ota_demo/app.c:306-309 | a frame that fails its checks does no harm, whatever comes after it |
| Damage.OneByteHarmless | ota_demo/ota_demo/app.c:224-254 | a frame with any one byte wrong, other than its header byte, does no harm in either mode |
| Damage.LineErrorHarmless | ota_demo/ota_demo/app.c:136-143 | a frame in CRC mode with an error the CRC notices does no harm |
| Damage.BeheadedEndsIff | ota_demo/ota_demo/app.c:191-222 | a frame of either size whose header byte is lost or hit ends the run normally if and only if its number, inverse and payload lead to an EOT |
| Damage.BeheadedFrameIff | ota_demo/ota_demo/app.c:191-222 | for a 128-byte frame that is exactly when the first control byte reached is EOT; the run ends with -1 exactly for a double CAN, with -2 exactly when the attempts run out, and in all other cases nothing is accepted or acknowledged |
| Damage.NumbersThatEnd | ota_demo/ota_demo/app.c:202-206 | blocks number 4 and 251 end the run when their header byte is lost or arrives as 0 and more than two attempts are left |
| Damage.FourthHeaderLost | ota_demo/ota_demo/app.c:202-206 | after three accepted blocks the fourth without its header byte ends the run at once, with an ACK and what has been delivered; with a 0 in its place too, unless that is the last attempt, which ends with -2 |
| Damage.EndBehindFrame | ota_demo/ota_demo/app.c:202-206 | one EOT byte behind an accepted frame ends the run, however many blocks are missing |
| Damage.FrameAmongStrays | ota_demo/ota_demo/app.c:191-254 | a good frame with meaningless bytes before and after it is found, accepted and nothing else is |
| StopAndWait.WelcomeIff | ota_demo/ota_demo/app.c:224-315 | any bytes at all in a round keep sender and receiver in step, whether the ACK they cause is heard or not, if and only if the accepted frames are the next blocks of the source, the one the sender is at is the last of them if the run goes on, and an EOT comes only when all blocks are there |
| StopAndWait.RoundKeepsSync | ota_demo/ota_demo/app.c:224-254 | in every such round the sender stays at the receiver's count or one behind while the transfer runs |
| StopAndWait.Safety | ota_demo/ota_demo/app.c:224-315 | over rounds in which any bytes are lost, altered or added, as far as `WelcomeIff` allows, and any answers lost, the delivered bytes are always a prefix of the source cut to the destination, and all of it on a normal end |
| StopAndWait.RoundsAreSession | ota_demo/ota_demo/app.c:256-315 | the rounds are one run of the receiver on the concatenation of what the line brought |
| StopAndWait.RunIsSafe | ota_demo/ota_demo/app.c:256-315 | safety for the run of the receiver itself on such an input stream |
| StopAndWait.FaultEndsEarlyIff | ota_demo/ota_demo/app.c:202-206 | whatever bytes arrive in a round, the transfer ends normally within it if and only if they lead to an EOT, at once or behind accepted frames; with blocks missing such bytes are not welcome |
| StopAndWait.StraysAreWelcome | ota_demo/ota_demo/app.c:191-254 | the sender's block with meaningless bytes around it is a round and does what the block alone does |
| StopAndWait.RoundProgress | ota_demo/ota_demo/app.c:227-250 | a round without loss moves the sender on if and only if the pair is not stuck at number 0 and the budget is not used up |
| StopAndWait.ProgressIsSuccesses | ota_demo/ota_demo/app.c:227-250 | over whole runs, while the transfer runs and is not stuck, the sender has moved on by exactly the number of rounds in which a frame got through, alone or among other bytes, and was answered |
| StopAndWait.SuccessesComplete | ota_demo/ota_demo/app.c:202-250 | after as many such rounds as there are blocks the next transmission to arrive ends the transfer with everything delivered |
| StopAndWait.StuckForever | ota_demo/ota_demo/app.c:227-229 | a pair stuck at number 0 stays stuck over all rounds and accepts nothing while the transfer runs; it fails, unless a fault and not the sender supplies an EOT when all blocks are there |
| StopAndWait.IntactIsPossible | ota_demo/ota_demo/app.c:265-313 | an intact transmission is a round at any point of a transfer, with or without a pause after it |
| StopAndWait.WelcomeIsPossible | ota_demo/ota_demo/app.c:265-309 | any welcome bytes, with the silence they call for, are a round at any point of a transfer |
| StopAndWait.FaultIsPossible | ota_demo/ota_demo/app.c:265-309 | in particular any bytes that expose nothing |
| StopAndWait.LostIsPossible | ota_demo/ota_demo/app.c:266-278 | silence for one attempt is a round, at any point of a transfer |
| Transfers.CompleteTransfer | ota_demo/ota_demo/app.c:256-315 | any number of blocks of mixed size sent over a clean line after 0 to 31 silent attempts arrives completely; one ACK per block and one for EOT are sent |
| Transfers.FourthHeaderLostRun | ota_demo/ota_demo/app.c:202-206 | three blocks and a fourth whose header byte is lost or arrives as 0: the run returns normally with three blocks delivered |
| Transfers.CanGetStuck | ota_demo/ota_demo/app.c:227-229 | with 255 blocks or more, losing the ACK of block 255 leads to the stuck state |
| Transfers.StuckReachableIff | ota_demo/ota_demo/app.c:227-229 | the stuck state can be reached if and only if there are at least 255 blocks |
| Commands.App.RunUpload | ota_demo/ota_demo/app.c:402-413 | the digest kept is that of the bytes now in flash at the start address, however the transfer ended and whatever size was announced; the flash before and behind them is as it was |
| Commands.App.RunHash | ota_demo/ota_demo/app.c:442-471 | the digest printed is that of the requested region, 256 bytes if the length is negative, short of its last 1024 bytes if its length is a positive multiple of 1024 |
| Commands.App.RunPrint | ota_demo/ota_demo/app.c:415-440 | the bytes printed are those of the region, with the same exception |
| Commands.ReadBack | ota_demo/ota_demo/app.c:451-462 | what is read back after a write is all of it if and only if its length is 0 or not a multiple of 1024 |
| Commands.LengthsCovered | ota_demo/ota_demo/app.c:418-429 | in figures: a negative length stands for 256, and exactly the positive multiples of 1024 come out 1024 short |
| Commands.App.UploadThenHash | ota_demo/ota_demo/app.c:402-471 | a complete upload hashed again gives the digest it left, except for lengths divisible by 1024, where the first size - 1024 bytes are hashed |
| Console.ReadWithEcho | ota_demo/ota_demo/app.c:164-176 | 7F comes back as 08 and is echoed as 08 20 08, every other byte above 0 as itself, 0 and a time-out not at all |
| Console.ReadLine | ota_demo/ota_demo/app.c:317-343 | value, buffer, input left and echo of the editor, on platforms with signed and with unsigned `char`; a time-out at once is -1 where it is signed |
| Console.EditIsStack | ota_demo/ota_demo/app.c:317-343 | on keys 1 to 127 the editor is a stack: it returns the text typed, keeps zeros after it, echoes every key, 7F as 08 20 08, and consumes exactly the line |
| Console.UnfinishedTimesOut | ota_demo/ota_demo/app.c:317-343 | a line that times out before it is complete returns -1 where `char` is signed, and goes on with the character 255 where it is not; the keys before it are echoed either way |
| Console.OtherBytes | ota_demo/ota_demo/app.c:322-339 | 0 is kept without echo; bytes of 128 and above are echoed and kept where `char` is unsigned, and end the line with -1 where it is signed |
| Signature.DecodeLine | ota_demo/ota_demo/app.c:382-392 | the pairs of a line are decoded in order, up to the first error, into the free part of the buffer only |
| Signature.Read | ota_demo/ota_demo/app.c:368-400 | value and bytes written are those of the specified reading, for lines of any length and every buffer that they do not overrun |
| Signature.SignFits | ota_demo/ota_demo/app.c:372-397 | only full lines go on, so a buffer of a multiple of 16 bytes is never exceeded |
| Signature.SafeIffMultipleOf16 | ota_demo/ota_demo/app.c:378-392 | no input writes past the end if and only if the buffer length is a multiple of 16, as the caller's 128 is |
| Signature.SignRoundTrip | ota_demo/ota_demo/app.c:368-400 | every byte string of up to 128 bytes typed as hexadecimal text and a line feed is returned; only 128 bytes leave the line feed unread |
| Signature.SignReturns | ota_demo/ota_demo/app.c:368-400 | every reading returns the number of bytes it has written or -1, and keeps those written before |
| Signature.BadPairRefused | ota_demo/ota_demo/app.c:382-390 | after any full lines, two characters that are no byte end the reading with -1; the bytes before them have been written |
| Signature.TimeOutRefused | ota_demo/ota_demo/app.c:373-376 | where `char` is signed a line that times out ends the reading with -1 |
| Signature.PairsOdd | ota_demo/ota_demo/app.c:382-393 | a line of odd length decodes its last pair from its last character and the byte that stands behind it in the buffer |
| Signature.ForgetsIff | ota_demo/ota_demo/app.c:368-400 | what was in the line buffer before makes a difference if and only if the first line is accepted, of odd length, good up to its last pair, with nothing typed and deleted behind it, and its last pair depends on its second character |
| Signature.SignForgets | ota_demo/ota_demo/app.c:382-384 | typed in lines of even length a signature does not depend on what was in the line buffer before, at whatever line |
| Signature.OddLineRemembers | ota_demo/ota_demo/app.c:382-384 | an example: the line "0" yields the digit that stands second in the buffer |
| Uart.StepKeeps | ota_demo/ota_demo/serial.c:171-260 | every atomic step of handler and reader keeps byte order, the lending of the buffer, and the wake-up bits |
| Uart.FifoOrder | ota_demo/ota_demo/serial.c:171-260 | for every interleaving, delivered bytes, the lent buffer and the ring are in this order the kept arrivals, and with the drops all arrivals |
| Uart.DropsOnlyWhenFull | ota_demo/ota_demo/serial.c:235-240 | an arrival is dropped if and only if no buffer is lent and 255 bytes are queued |
| Uart.NoLostWakeUp | ota_demo/ota_demo/serial.c:181-189 | a reader waiting with something to take can be woken, and while a buffer is lent the event bit is clear |
| Uart.ShortReadTimedOut | ota_demo/ota_demo/serial.c:212-226 | a read with a non-zero time-out returns fewer bytes than asked only if its wait timed out |
| Uart.LentBuffer | ota_demo/ota_demo/serial.c:249-254 | a lent buffer belongs to an active call, has room, and is only ever appended to |
| Uart.BufferFills | ota_demo/ota_demo/serial.c:249-255 | exactly the missing bytes complete a lent buffer and set the event |
| Uart.BufferTakes | ota_demo/ota_demo/serial.c:247-258 | any bytes arriving for a lent buffer fill it up to what was asked for, no further; the byte that completes it sets the event and takes it back |
| Uart.QueueFills | ota_demo/ota_demo/serial.c:231-243 | with no buffer lent any bytes queue up in order up to 255; the event is set exactly when one of them found room |
| Uart.SerialIsALine | ota_demo/ota_demo/serial.c:171-229 | the calls made behave as calls on one line of bytes and time-outs, whose bytes are a prefix of the kept arrivals |
| Device.RunReplayed | ota_demo/ota_demo/app.c:183-315 | the calls that a run makes, which are those that `Xmodem.Receive` records, are a run of the program that goes by what calls return, with the same outcome |
| Device.CallsAreSession | ota_demo/ota_demo/app.c:183-315 | the calls of such a program from beginning to end are the specified run on the line they make up, which reads exactly that line |
| Device.TransferOnSerial | ota_demo/ota_demo/serial.c:171-260 | after any interleaving, if the last calls are those of a run, its outcome, and with it what is in flash and hash, is that of the specified run on bytes that are kept arrivals in order, from where the calls before it stopped |
| Serial.Port.Push | ota_demo/ota_demo/serial.c:235-238 | storing at the end index modulo 256 appends to the queue the ring stands for |
| Serial.Port.Pop | ota_demo/ota_demo/serial.c:191-192 | reading at the start index modulo 256 takes the head of that queue |
| Serial.RingEmpty | ota_demo/ota_demo/serial.c:181 | equal indices mean an empty ring, and it is full at 255 bytes |
| Serial.Port.GetcUnsafe | ota_demo/ota_demo/serial.c:231-243 | drop-newest on a queue of capacity 255 |
| Serial.Port.Irq | ota_demo/ota_demo/serial.c:247-259 | a handler step of the transition system: the byte is appended to a lent buffer or queued, and outside the part lent the buffer keeps its contents |
| Serial.Port.PutDirect | ota_demo/ota_demo/serial.c:249-255 | the byte goes after those already in the lent buffer, and the last one wanted takes the buffer back and sets the event |
| Serial.Port.UartIrqHandler | ota_demo/ota_demo/serial.c:245-260 | handler steps for every byte of the hardware FIFO, in order, changing nothing around the part lent |
| Serial.Port.EventRead | ota_demo/ota_demo/serial.c:183-184 | a wait ends by time-out if and only if it expires or no event has been set by the end of what arrives during it; otherwise by the event, which it clears |
| Serial.Port.UartRead | ota_demo/ota_demo/serial.c:171-197 | a run of the transition system whose result is exactly determined: the oldest queued byte; on an empty ring the first byte to arrive in a wait that does not expire; -1 when a wait ends by time-out; an event left over from before only makes it wait again |
| Serial.Port.Drain | ota_demo/ota_demo/serial.c:206-210 | moves the oldest bytes of the ring into the buffer, as many as wanted and there |
| Serial.Port.BeginBuf | ota_demo/ota_demo/serial.c:204-217 | lends the buffer only when the ring is empty and more is wanted, with the event cleared |
| Serial.Port.FinishBuf | ota_demo/ota_demo/serial.c:219-226 | takes the buffer back, so that the handler cannot reach it any more |
| Serial.Port.UartReadBuf | ota_demo/ota_demo/serial.c:199-229 | a run of the transition system that returns exactly what is queued followed by what arrives, up to what was asked for; it times out if and only if it waits and the wait expires or too little arrives; nothing outside the part asked for is written |

## Left out

- Serial.Port.UartRead: one reader only; the remark in the code about several readers of the ring is not modelled.
- Serial.Port.EventRead: the operating system's event and interrupt lock are taken as their documentation has them, waits return and clear the bit or time out and the lock makes a stretch atomic; the order of simultaneous waits and durations are not modelled.
- Serial.Port.UartReadBuf: the interrupt buffer slot is stored in device 0 while the ring is that of device 1; there is one slot here, as only one device is registered.
- Xmodem.Receive: waiting times appear only as the place of time-outs in the input; printing is left out.
- Xmodem.Updater.Receive: `HotaWrite` is not in the repository and its result is ignored by the code; it is taken to write what it is given, which is required to lie inside the flash.
- Commands.App.RunHash: `HotaRead` likewise; the region is required to lie inside the flash, and address arithmetic modulo 2^32 is therefore not modelled. SHA-256 is any function of the bytes fed to it.
- Signature.Read: `strtoul` is a parameter of the model, a function of two characters; that its callers see an error is all that is said of malformed text. What a write past the end of the buffer does is not modelled; SafeIffMultipleOf16 says when none happens.
- StopAndWait.Safety: the sender answers in the mode solicited in the round and moves on by one block at most in a round. Bytes that are not welcome are excluded, which are exactly those the code does not stay in step over (WelcomeIff). An answer that is turned into an ACK is excluded.
- Damage.BeheadedFrameIff: a 1024-byte payload may contain a whole frame, so for it BeheadedEndsIff is the statement.
- StopAndWait.WelcomeIsPossible: bytes that end in a frame cut short need a silence of two waits, which is how long the receiver takes to answer.
- Device.TransferOnSerial: the histories of the calls are joined, not the two classes; that the calls of the reader are those that the receive code makes is the hypothesis.
- StopAndWait.RoundProgress: a sender that gives up, and the loss of the answer to EOT, are not modelled.
- Signature verification, key parsing, HOTA initialisation, restart and rollback: foreign code that is not part of this model.
- Command dispatch, argument parsing and the debug command: library calls with only simple claims.
- UART set-up and transmission: register access; what is sent is kept as a list of bytes.
- The BLE, LED, UART, mbedTLS and XTS demos, the HAL stubs and the build files: constant tables and wrappers.
