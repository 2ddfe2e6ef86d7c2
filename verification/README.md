# Verification of the inverter firmware

This project models the algorithms and state machines of a motor inverter's firmware and of its boot loader, and proves
what they promise. Every module follows one component of the firmware:

- `FixedPoint`: the fractional divisions of the motor control library.
- `Crc32`, `Md5`, `Md5Vectors`: checksum and message digest, against the bit-serial register and RFC 1321 with its examples.
- `Gf256`, `AesTables`, `AesCipher`, `AesVectors`, `Aes`, `Cbc`: the AES decryption of the boot loader with its tables
  computed at start-up, against FIPS 197 with its examples, and cipher block chaining across calls.
- `Flash`, `Boot`, `History`: the flash routines, the start-up check, and what the flash has held at every moment.
- `Ymodem`, `Decoding`, `YSession`, `YLoader`: the loader that takes a file in packets, decodes it and writes it, with the
  boot record last. `YSender`: the sender at the other end of the line.
- `CanTransport`: blocks over CAN frames. `UsbEndpoint`: transfers over USB packets. `HidQueue`: queued transfers.
- `Dfu`: the DFU state machine with its download buffer and the step that flashes it.
- `Motor`, `AdcFilter`, `CanLog`: ramps and commands of the motor, filters of the measurements, the log ring.
- `Numbers`, `Printf`: reading and printing numbers. `Words`: what the modules share.

The routines that change state are classes and methods over the same fields, buffers and loops, proved against
specification functions; what is promised is proved about these functions and as invariants. Some long routines are cut
into a few methods, each of which is a stretch of the original. `dafny verify dfyconfig.toml` checks the project.

Where the code does not do what it is for, the exact condition under which it does is proved:

- The flash routine counts four-byte words down by two, so an odd count runs on to the end of the flash
  (`Flash.CounterMeetsZero`, `Flash.WritableIs`, `Flash.OverrunReachesEnd`); the boot record then stays blank only by
  chance (`Decoding.OverrunMeetsRecord`), and a file is safe if its size is writable.
- The loader copies every chunk to the beginning of its block, so what came before in the same block is lost. A file comes
  in whole if and only if every data packet has 1024 bytes or brings all that remains (`YLoader.Loader.Balance`, `YLoader.Loader.Lossy`).
- A file that fits its first data packet is erased for and written and then refused, for want of a second packet
  (`YLoader.Loader.Transfer`). A short data packet with number 0 modulo 256 and two zero bytes at its beginning is taken for
  the packet of a sender without files and ends the session.
- The loader refuses a packet it has taken already, unless it was the last: once the answer to a packet before the last is
  lost, the sender repeats it in vain and the file never gets through (`YSender.SendFile`, `YSender.LostForEver`).
- The encryption flag is never reset (`YLoader.Loader.FlagStays`), so a plain file after an encrypted one is decrypted
  (`YLoader.Loader.PlainFile`).
- Decrypting goes block by block of sixteen bytes: a rest of the file is left as it is, and if it is alone in its chunk,
  decrypted with what lies behind it (`Decoding.DecipheredIs`, `YLoader.Loader.EncryptedBody`).
- A block over CAN of a whole number of frames is delivered, but its sender never waits for the answer and reports an
  error (`CanTransport.Sender.SendPacket`, `CanTransport.WholeFramesUnreported`, `CanTransport.Exchange`).
- The length of an IN packet is compared as a byte, so endpoints of 256 bytes and more lose the empty last packet
  (`UsbEndpoint.TerminatedCount`); an OUT transfer of a multiple of the packet size never completes under zero
  termination (`UsbEndpoint.CompletesIff`).
- A DFU download that fills the buffer of 2520 bytes is flashed that far and leaves the DFU mode, one by more than 1041
  blocks is refused, and each download goes behind all that was flashed before (`Dfu.Download`). A download cut off by a bus
  reset before its manifestation makes the next one fail (`Dfu.Interrupted`). An upload whose requests do not pass the image
  size within 65536 of them starts anew (`Dfu.UploadAll`, `Dfu.UploadWraps`); one by single bytes never ends
  (`Dfu.OneByteUploads`).
- A queued HID transfer that the layer below refuses, or ignores while the bus is suspended, is not sent, nor is any after it,
  until a bus reset or a change of the configuration drops them all (`HidQueue.StuckWithoutReset`,
  `HidQueue.RefusedUntilReset`).

## Model

| member | source | states |
|---|---|---|
| FixedPoint.F32DivNorm | Firmware/Inverter_firmware/MotorControlLib/SWLIBS_Inlines.h:764-806 | the shift returned brings any positive divisor to at least 2^30 and below 2^31 |
| FixedPoint.HighDigitBound | Firmware/Inverter_firmware/MotorControlLib/SWLIBS_Inlines.h:842-879 | the capped and halved first guess is never below the true upper 15 quotient bits and at most 2 above them, and its product does not pass the numerator |
| FixedPoint.LowDigitBound | Firmware/Inverter_firmware/MotorControlLib/SWLIBS_Inlines.h:881-915 | the capped second guess is never below the true lower 16 quotient bits and at most 4 above them |
| FixedPoint.CorrectionsAreSharp | Firmware/Inverter_firmware/MotorControlLib/SWLIBS_Inlines.h:868-915 | two and four corrections are not one too many: there are operands for which the guesses are off by exactly 2 and 4 |
| FixedPoint.HighDigit | Firmware/Inverter_firmware/MotorControlLib/SWLIBS_Inlines.h:842-879 | after at most two corrections the upper digit is exact and the remainder lies below the divisor; every 32-bit and 64-bit intermediate fits |
| FixedPoint.LowDigit | Firmware/Inverter_firmware/MotorControlLib/SWLIBS_Inlines.h:881-915 | after at most four corrections the lower digit is exact |
| FixedPoint.F32Div | Firmware/Inverter_firmware/MotorControlLib/SWLIBS_Inlines.h:809-924 | for all operands with the numerator smaller in magnitude, the result is the numerator times 2^31 over the denominator, rounded toward zero, the least denominator included |
| FixedPoint.F32DivF32F16 | Firmware/Inverter_firmware/MotorControlLib/SWLIBS_Inlines.h:944-968 | the same for a 16-bit denominator, with 2^15 |
| Crc32.TableUpdate | Firmware/Inverter_bootloader/APP/CRC32.c:31-32 | one table step equals eight clocks of the bit-serial reflected register, for every register content and octet |
| Crc32.StepsLinear | Firmware/Inverter_bootloader/APP/CRC32.c:23-24 | any number of shift steps is linear over exclusive or, which is what justifies a table |
| Crc32.RegisterInjective | Firmware/Inverter_bootloader/APP/CRC32.c:29-34 | no two register contents are merged by reading the same octets |
| Crc32.BurstDetected | Firmware/Inverter_bootloader/APP/CRC32.c:15-35 | a change confined to four consecutive octets changes the checksum, whatever surrounds them |
| Crc32.ResidueCheck | Firmware/Inverter_bootloader/APP/CRC32.c:15-35 | a message followed by four octets leaves the fixed residue exactly if they are its checksum, low octet first |
| Crc32.FillTable | Firmware/Inverter_bootloader/APP/CRC32.c:20-27 | entry i of the table is eight shift steps of i |
| Crc32.Crc32 | Firmware/Inverter_bootloader/APP/CRC32.c:15-35 | the routine returns the bit-serial CRC-32 of IEEE 802.3 section 3.2.9 of the buffer, for any buffer and length |
| Crc32.CheckValue | Firmware/Inverter_bootloader/APP/CRC32.c:5-14 | the checksum of the digits from 1 to 9 is CBF43926, the check value its heading names |
| Gf256.PowerAdd | Firmware/Inverter_bootloader/APP/aes.c:49-66 | powers of 3 in the field multiply by adding exponents, so the tables turn products into sums |
| Gf256.OrderIs255 | Firmware/Inverter_bootloader/APP/aes.c:49-66 | 3 returns to 1 after 255 multiplications and not before, so the loop visits every non-zero element once |
| Gf256.Logarithm | Firmware/Inverter_bootloader/APP/aes.c:49-66 | every non-zero element is a power of 3 below 255 |
| AesTables.AffineBits | Firmware/Inverter_bootloader/APP/aes.c:86-97 | the four rotations and the constant are the affine map of FIPS 197 equation 5.1, bit by bit |
| AesTables.InvSBoxUndoesSBox | Firmware/Inverter_bootloader/APP/aes.c:70-128 | the inverse S-box undoes the S-box and the other way round |
| AesTables.CalcPowLog | Firmware/Inverter_bootloader/APP/aes.c:49-66 | the loop that ends when the power is 1 again fills both tables: powers of 3, and their exponents |
| AesTables.CalcSBoxEntry | Firmware/Inverter_bootloader/APP/aes.c:76-101 | one entry through the tables is the S-box of FIPS 197 section 5.1.1, zero included |
| AesTables.CalcSBox | Firmware/Inverter_bootloader/APP/aes.c:70-104 | after the loop over a wrapping byte counter all 256 entries are the S-box |
| AesTables.CalcSBoxInv | Firmware/Inverter_bootloader/APP/aes.c:108-128 | through its two wrapping loops the routine inverts any table without repeated values |
| AesCipher.MixColumnsUndone | Firmware/Inverter_bootloader/APP/aes.c:144-188 | the matrix of FIPS 197 section 5.3.3 undoes the one of section 5.1.3 |
| AesCipher.ShiftRowsUndone | Firmware/Inverter_bootloader/APP/aes.c:216-243 | the inverse row rotation undoes the row rotation |
| AesCipher.InvRoundUndoes | Firmware/Inverter_bootloader/APP/aes.c:342-360 | one inverse round undoes one round |
| AesCipher.InvCipherUndoesCipher | Firmware/Inverter_bootloader/APP/aes.c:342-360 | the inverse cipher undoes the cipher of FIPS 197 section 5.1 on every block, under every schedule of fifteen round keys |
| AesVectors.ScheduleA3 | Firmware/Inverter_bootloader/APP/aes.c:281-338 | words 8 to 15 of the expanded key of FIPS 197 appendix A.3, byte for byte |
| AesVectors.BlockC3 | Firmware/Inverter_bootloader/APP/aes.c:342-360 | the ciphertext block of FIPS 197 appendix C.3 is deciphered, under the key expanded from 00 to 1f, to the plaintext block given there |
| Aes.CollectIsDot | Firmware/Inverter_bootloader/APP/aes.c:144-188 | the hand-factored sums of InvMixColumn are a row of the inverse matrix applied to the column |
| Aes.Unmix | Firmware/Inverter_bootloader/APP/aes.c:144-188 | the in-place arithmetic on four bytes is the inverse matrix, for every column |
| Aes.InvMixColumn | Firmware/Inverter_bootloader/APP/aes.c:144-188 | the column in the state is replaced by its product with the inverse matrix and nothing else changes |
| Aes.Tables.InvShiftRows | Firmware/Inverter_bootloader/APP/aes.c:216-243 | the byte moves, row by row, are the inverse rotation of section 5.3.1 |
| Aes.Tables.InvSubBytesAndXOR | Firmware/Inverter_bootloader/APP/aes.c:203-212 | sixteen bytes are taken through the inverse S-box and added to a round key |
| Aes.Tables.KeyExpansion | Firmware/Inverter_bootloader/APP/aes.c:281-338 | the first 240 bytes of block1 become the schedule of section 5.2 for a 256-bit key, with its extra substitution and its doubling constant |
| Aes.Tables.InvCipher | Firmware/Inverter_bootloader/APP/aes.c:342-360 | sixteen bytes in place become their inverse cipher under the schedule in block1 |
| Aes.Tables.AesInit | Firmware/Inverter_bootloader/APP/aes.c:364-378 | although powers and logarithms are overwritten by schedule and inverse table, both end up right, for every key |
| Aes.Tables.AesDecrypt | Firmware/Inverter_bootloader/APP/aes.c:382-390 | a block in place becomes its inverse cipher added to the chain block, and the chain block becomes the ciphertext |
| Cbc.DecryptSplit | Firmware/Inverter_bootloader/APP/Y_Loader.c:192-201 | decrypting two pieces with the chain block carried over is decrypting them as one |
| Cbc.SessionIsOneShot | Firmware/Inverter_bootloader/APP/Y_Loader.c:192-201 | any series of calls on whole blocks together gives the one-shot CBC decryption of SP 800-38A section 6.2 |
| Cbc.DecryptEncrypt | Firmware/Inverter_bootloader/APP/Y_Loader.c:192-201 | CBC decryption undoes CBC encryption for any block cipher and its inverse |
| Cbc.DecryptAt | Firmware/Inverter_bootloader/APP/Y_Loader.c:192-201 | a plaintext block depends on its own and the preceding ciphertext block only |
| Cbc.AesRoundTrip | Firmware/Inverter_bootloader/APP/Y_Loader.c:192-201 | with the same key and initial block the loader recovers what was encrypted |
| Cbc.DecryptBlock | Firmware/Inverter_bootloader/APP/Y_Loader.c:192-201 | a call decrypts in place as many blocks as the loop, with its condition at the end, goes through, and leaves the last ciphertext block in the chain; a length below 32 gives one block |
| Md5.Round1 | Firmware/Inverter_bootloader/APP/md5.c:84-101 | the sixteen written-out steps are steps 0 to 15 of RFC 1321 section 3.4, the registers turning by one place each step |
| Md5.Round2 | Firmware/Inverter_bootloader/APP/md5.c:105-122 | steps 16 to 31, with their own word order, rotations and form of the auxiliary function |
| Md5.Round3 | Firmware/Inverter_bootloader/APP/md5.c:126-143 | steps 32 to 47 |
| Md5.Round4 | Firmware/Inverter_bootloader/APP/md5.c:147-164 | steps 48 to 63 |
| Md5.PutUint32 | Firmware/Inverter_bootloader/APP/md5.c:32-38 | four octets that stand for the word, low-order first |
| Md5.Context.Starts | Firmware/Inverter_bootloader/APP/md5.c:40-49 | the context stands for the empty message, whatever it held |
| Md5.Context.Process | Firmware/Inverter_bootloader/APP/md5.c:51-172 | the state becomes its compression with the block |
| Md5.CountedAdd | Firmware/Inverter_bootloader/APP/md5.c:183-187 | the test for a sum below the addend carries exactly when the low word has wrapped |
| Md5.Context.Update | Firmware/Inverter_bootloader/APP/md5.c:174-211 | a context that stands for a message stands for the longer message afterwards, for any piece, however full the buffer was |
| Md5.BitCount | Firmware/Inverter_bootloader/APP/md5.c:227-232 | the two words shifted together are the bit length modulo 2^64, low-order octet first |
| Md5.PadLengthIs | Firmware/Inverter_bootloader/APP/md5.c:234-235 | the padding chosen is one octet 0x80 and the fewest zeros that bring the length to 56 modulo 64 |
| Md5.FoldSplit | Firmware/Inverter_bootloader/APP/md5.c:199-204 | compressing over two runs of blocks is compressing over both |
| Md5.Context.Finish | Firmware/Inverter_bootloader/APP/md5.c:221-244 | finishing gives the RFC 1321 digest of the whole message |
| Md5.DigestOfPieces | Firmware/Inverter_bootloader/APP/md5.c:40-244 | starts, one update for each piece and finish give the digest of the concatenation, however the message is cut |
| Md5.RotateIs | Firmware/Inverter_bootloader/APP/md5.c:72 | the rotation is the product with 2^n, its low word plus what falls out of it |
| Md5Vectors.DigestOfEmpty | Firmware/Inverter_bootloader/APP/md5.c:40-244 | the digest of the empty message is d41d8cd98f00b204e9800998ecf8427e, as in RFC 1321 appendix A.5 |
| Md5Vectors.DigestOfAbc | Firmware/Inverter_bootloader/APP/md5.c:40-244 | the digest of abc is 900150983cd24fb0d6963f7d28e17f72 |
| Flash.CounterMeetsZero | Firmware/Inverter_bootloader/APP/flash_FTFL.c:131-177 | the unsigned counter that goes down by two meets zero if and only if it starts even, and then first after half its value |
| Flash.WritableIs | Firmware/Inverter_bootloader/APP/flash_FTFL.c:125-132 | sizes the routine writes as intended are those at most three bytes short of a whole number of phrases |
| Flash.OverrunReachesEnd | Firmware/Inverter_bootloader/APP/flash_FTFL.c:137-180 | any other size is written on until the hardware refuses at the end of the flash |
| Flash.BurntNext | Firmware/Inverter_bootloader/APP/flash_FTFL.c:137-180 | phrases programmed one after the other make up one longer programming |
| Flash.BurnClears | Firmware/Inverter_bootloader/APP/flash_FTFL.c:137-180 | programming a cell raises no bit, and clears just those the programmed byte does not have |
| Flash.Device.SectorErase | Firmware/Inverter_bootloader/APP/flash_FTFL.c:57-107 | the sector of an aligned address becomes 0xFF, and nothing else changes |
| Flash.Device.ByteProgram | Firmware/Inverter_bootloader/APP/flash_FTFL.c:119-183 | exact contents after every phrase and at the end, for every size, with the error cases; cells can only lose bits |
| Boot.BlankNeverStarts | Firmware/Inverter_bootloader/APP/Main.c:146-162 | with a blank boot record nothing is started |
| Boot.Layout | Firmware/Inverter_bootloader/APP/app_cfg.h:81-93 | where hash, size, flag and magic number of a boot record stand, as the order and the sizes of its fields have it |
| Boot.NumberReads | Firmware/Inverter_bootloader/APP/app_cfg.h:81-93 | a field holds the number whose octets are stored in it, low-order first |
| Boot.CheckAndJump | Firmware/Inverter_bootloader/APP/Main.c:146-183 | the application is entered if and only if the record names a size within the flash, the hash of that much of the program area, and the vectors are written |
| Ymodem.ReadHeader | Firmware/Inverter_bootloader/APP/Y_Loader.c:371-388 | the size read from a first packet is the number in the field after the name, or zero if it is none |
| Ymodem.TakenInOrder | Firmware/Inverter_bootloader/APP/Y_Loader.c:127-159 | whatever wrong-numbered packets, errors and silence are mixed in, the bytes taken are a prefix of the file sent, and all of it when it is done |
| Numbers.ValueOfDigits | Firmware/Inverter_bootloader/BSP/printf.c:87-153 | positional notation without leading zeros stands for the number, in any radix up to sixteen |
| Numbers.HexDigits | Firmware/Inverter_bootloader/APP/Y_Loader.c:44-50 | the hexadecimal digits are those from 0 to f in either case, each with its value, and no other character |
| Numbers.Str2Int | Firmware/Inverter_bootloader/APP/Y_Loader.c:212-283 | the value is stored and 1 returned exactly for strings with a meaning: prefix and one to eight hexadecimal digits, up to ten decimal digits, or these and a multiplier letter; otherwise nothing is stored |
| Printf.MkNumStr | Firmware/Inverter_bootloader/BSP/printf.c:87-153 | the buffer holds the digits of the magnitude backwards behind a zero, negative remainders being negated one by one, so the least integer is right |
| Printf.PrintSigned | Firmware/Inverter_bootloader/BSP/printf.c:381-444 | the characters of %d for every number, flags and width |
| Printf.PrintUnsigned | Firmware/Inverter_bootloader/BSP/printf.c:491-531 | the characters of %u, %o, %b and %p |
| Printf.PrintHex | Firmware/Inverter_bootloader/BSP/printf.c:446-489 | the characters of %x, whose zero padding does not count the prefix |
| Printf.SignedLength | Firmware/Inverter_bootloader/BSP/printf.c:381-444 | a signed number fills its width unless it is longer |
| Printf.DecimalRoundTrip | Firmware/Inverter_bootloader/BSP/printf.c:503-531 | what is printed in decimal under zero padding is read back if and only if the width is at most ten |
| Printf.PlainRoundTrip | Firmware/Inverter_bootloader/BSP/printf.c:503-531 | what %u prints is read back for every 32-bit number |
| Printf.HexRoundTrip | Firmware/Inverter_bootloader/BSP/printf.c:446-489 | what %x prints with its prefix under zero padding is read back if and only if the width is at most eight |
| Printf.BareHex | Firmware/Inverter_bootloader/BSP/printf.c:446-489 | without the prefix only numbers below ten are read back |
| Printf.SignedRoundTrip | Firmware/Inverter_bootloader/BSP/printf.c:381-444 | %d stands for every integer including the least; exactly those not negative are read back |
| History.OnlyVerifiedStarts | Firmware/Inverter_bootloader/APP/Y_Loader.c:505-565 | at every content the flash has had since the first erasure: nothing is started unless the image of the file it was last erased for has been verified, and then it is that image, with the hash and size of its own record |
| History.SafeErasedLast | Firmware/Inverter_bootloader/APP/Y_Loader.c:510-513 | erasing the last sector begins the time of a file, whose record is blank from then on |
| History.SafeProgrammed | Firmware/Inverter_bootloader/APP/flash_FTFL.c:137-180 | every phrase of a chunk of the image leaves the boot loader alone, and the record blank if the size is one the routine writes as intended |
| History.SafeRecorded | Firmware/Inverter_bootloader/APP/Y_Loader.c:433-437 | after the verification only the record of the verified file is written, phrase by phrase, also over itself |
| History.AcceptedMatches | Firmware/Inverter_bootloader/APP/Y_Loader.c:417-446 | what the loader accepts is what the start-up check looks for |
| Decoding.WipedCovers | Firmware/Inverter_bootloader/APP/Y_Loader.c:510-527 | every byte of an image and the whole boot record are erased, and no byte of the boot loader |
| Decoding.BurntTakes | Firmware/Inverter_bootloader/APP/flash_FTFL.c:137-180 | programming erased cells always reads back as what was programmed, for every size |
| Decoding.OverrunMeetsRecord | Firmware/Inverter_bootloader/APP/flash_FTFL.c:131-177 | a chunk of an odd number of words leaves the boot record blank if and only if the memory behind the buffer holds 0xFF there |
| Decoding.BodyNext | Firmware/Inverter_bootloader/APP/Y_Loader.c:536-549 | decoding a further chunk behind whole ciphertext blocks is decoding the longer body |
| Decoding.DecipheredIs | Firmware/Inverter_bootloader/APP/Y_Loader.c:192-201 | of an encrypted body of any size the whole ciphertext blocks are decrypted and the rest is left, unless it is alone in its chunk: then it is decrypted with what lies behind it |
| Decoding.EncryptedFile | Firmware/Inverter_bootloader/APP/Y_Loader.c:477-500 | a file encrypted as one, header and body, comes out in clear: the record of its header and its body |
| Decoding.CipherHeaderGood | Firmware/Inverter_bootloader/APP/Y_Loader.c:480-502 | for every key there is a header that is accepted and taken for encrypted |
| YSession.ChunkWritable | Firmware/Inverter_bootloader/APP/Y_Loader.c:460-462 | every chunk of a file is of a size the flash routine writes as intended if the file is |
| YSession.DecodedNext | Firmware/Inverter_bootloader/APP/Y_Loader.c:536-549 | what is written stays the decoded chunks, and the chain block the last ciphertext block, over one more chunk of any size |
| YLoader.Loader.EraseForImage | Firmware/Inverter_bootloader/APP/Y_Loader.c:505-529 | the last sector first, then every sector of the image; exactly one erasure is recorded, with the record of the file |
| YLoader.Loader.FinishFileProgram | Firmware/Inverter_bootloader/APP/Y_Loader.c:417-446 | without a hash match nothing is written; with one the record is written, and read back if its cells were blank or held it already |
| YLoader.Loader.HeaderBlock | Firmware/Inverter_bootloader/APP/Y_Loader.c:473-532 | goes on if and only if the header, as it is or decrypted, shows an acceptable record; then flash, chain block and encryption flag are as they should be, otherwise the flash is as it was |
| YLoader.Loader.BodyBlock | Firmware/Inverter_bootloader/APP/Y_Loader.c:533-551 | what is written is what is decoded, for any chunk size, it is compared, and nothing below it changes |
| YLoader.Loader.Complete | Firmware/Inverter_bootloader/APP/Y_Loader.c:556-568 | a complete file is accepted, with all invariants of the session, or its image lacks the hash, it came in one packet, or its size lets the flash routine run on |
| YLoader.Loader.PackPrgToFlash | Firmware/Inverter_bootloader/APP/Y_Loader.c:453-574 | after a packet the file is longer by its data, cut to the declared size, with all invariants; when it is refused it is known why, and at most one erasure was made, for a header that began with the data |
| YLoader.Loader.PacketsProcessing | Firmware/Inverter_bootloader/APP/Y_Loader.c:353-412 | a first packet opens a session of the declared size if that is not too large; others are packed, and both agree with the model of a session |
| YLoader.Loader.Programmator | Firmware/Inverter_bootloader/APP/Y_Loader.c:87-187 | over any events: the run ends exactly at the first event that stops it or at a data packet that is refused; every byte sent, the session reached, and every erasure made was brought on by a packet of the run; what a finished file has left in the flash, and what was there before the first data packet, stays as it is until a further data packet is taken, also when the run ends |
| YLoader.Loader.OnEvent | Firmware/Inverter_bootloader/APP/Y_Loader.c:99-185 | one turn of the loop: what is answered, when it stops, and where it leaves the session, the errors and the flash |
| YLoader.AcksAreTaken | Firmware/Inverter_bootloader/APP/Y_Loader.c:128-159 | over any run every packet taken is acknowledged and no other is: the ACKs sent are as many as the packets taken and the ends of files out of turn, the NAKs as the packets with another number and the ends of files done |
| YSender.PacketIs | Firmware/Inverter_bootloader/APP/Y_Loader.c:128-159 | the packet expected is taken and acknowledged; a repetition of the one before is neither, unless that was the last of the file, which is acknowledged again |
| YSender.GivenIs | Firmware/Inverter_bootloader/APP/Y_Loader.c:357-361 | the first packets of a file bring its first bytes, and with the last of them it is done |
| YSender.SendEnd | Firmware/Inverter_bootloader/APP/Y_Loader.c:115-126 | a sender that repeats the end of the file until it is told that a new one may begin: it is, if and only if the answer to the second end that arrives, or to a later one, is heard; the file is closed with the first, and stays in the flash whatever becomes of that |
| YSender.SendPackets | Firmware/Inverter_bootloader/APP/Y_Loader.c:87-187 | a sender that repeats a packet until it is acknowledged, on a line that garbles packets and loses answers: after every turn the loader has taken what an undisturbed line would have brought, at most one packet more than is acknowledged |
| YSender.SendFile | Firmware/Inverter_bootloader/APP/Y_Loader.c:87-187 | both together: the last packet is acknowledged if and only if every answer to one before it is heard and one to the last; the file is then done, and in the flash if its packets are intact, also after its end |
| YSender.NothingLost | Firmware/Inverter_bootloader/APP/Y_Loader.c:128-159 | as long as no answer is lost the packets acknowledged are exactly those taken |
| YSender.LostForEver | Firmware/Inverter_bootloader/APP/Y_Loader.c:128-131 | a file can still get through if and only if no answer to a packet before the last has been lost; after that no further packet is ever acknowledged |
| YLoader.Loader.Balance | Firmware/Inverter_bootloader/APP/Y_Loader.c:457-571 | what remains, the chunk that completed the header and what is written make up the declared size if and only if every data packet had 1024 bytes or brought all that remained; otherwise less was written |
| YLoader.Loader.Lossy | Firmware/Inverter_bootloader/APP/Y_Loader.c:457-471 | a session with a long and a short packet, after which the three do not make up the size |
| YLoader.Loader.Delivered | Firmware/Inverter_bootloader/APP/Y_Loader.c:453-574 | a file done by such packets is in the flash from 0x8000 on, decoded, its record is in place, the start-up check matches, and the boot loader is untouched |
| YLoader.Loader.NotAccepted | Firmware/Inverter_bootloader/APP/Y_Loader.c:556-568 | a file refused for its hash is in the flash all the same, decoded, but nothing would be started |
| YLoader.Loader.PlainFile | Firmware/Inverter_bootloader/APP/Y_Loader.c:536-549 | a plain file is written as it was sent if the encryption flag was not set, and decrypted if it was |
| YLoader.Loader.EncryptedBody | Firmware/Inverter_bootloader/APP/Y_Loader.c:536-549 | what is in the flash of an encrypted file of any size |
| YLoader.Loader.FlagStays | Firmware/Inverter_bootloader/APP/Y_Loader.c:490 | after an encrypted file that is refused the flag is still set when the next file is opened |
| YLoader.SomePacket | Firmware/Inverter_bootloader/APP/Y_Loader.c:480-502 | packets with such a header exist for every key |
| YLoader.Loader.OnlyVerified | Firmware/Inverter_bootloader/APP/Y_Loader.c:505-565 | whenever the loader is cut off, nothing is started but an image verified against the record of its own file |
| YLoader.Loader.WhyRefused | Firmware/Inverter_bootloader/APP/Y_Loader.c:453-574 | a good file in such packets is refused for one reason only: all of it is in the flash and does not have the hash its header names |
| YLoader.Loader.ShortTaken | Firmware/Inverter_bootloader/APP/Y_Loader.c:457-571 | a good file of which something was taken intact is not refused before its end, whatever the size of the packet |
| YLoader.Loader.Transfer | Firmware/Inverter_bootloader/APP/Y_Loader.c:87-187 | from the header packet on, with any other events in between, and through any events after it that bring no data: a file that is done is in the flash and accepted, nothing is written afterwards, also when the run ends; a good one is given up only because an event stops the run or because its hash is wrong |
| CanTransport.Delivered | Firmware/Inverter_bootloader/APP/CAN_task.c:187-307 | whatever the receiver was doing, the frames of a block of 1 to 512 bytes bring it over; the last frame and no other is answered, with the number of the block |
| CanTransport.Room | Firmware/Inverter_bootloader/APP/CAN_task.c:282-285 | no copy leaves the receive buffer |
| CanTransport.AnsweredMeans | Firmware/Inverter_bootloader/APP/CAN_task.c:257-307 | over any frames, a block is acknowledged only if the frames since its header brought it and its checksum agrees |
| CanTransport.Collected | Firmware/Inverter_bootloader/APP/CAN_task.c:282-289 | over any frames, the buffer holds the data frames since the last header in order |
| CanTransport.EmptyNeverAnswered | Firmware/Inverter_bootloader/APP/CAN_task.c:257-307 | a block of no bytes is never answered |
| CanTransport.WholeFramesUnreported | Firmware/Inverter_bootloader/APP/CAN_task.c:206-251 | on a bus that works every block is received and answered, and its sender reports success exactly if the block is not a whole number of frames and the answer is seen |
| CanTransport.FrameCount | Firmware/Inverter_bootloader/APP/CAN_task.c:206-217 | the number of data frames |
| CanTransport.Sender.SendPacket | Firmware/Inverter_bootloader/APP/CAN_task.c:187-251 | success exactly if the length is not a multiple of eight, all frames get through and one of the polls brings a frame that is the number alone; what is sent is a prefix of the frames of the block, and all of them if the bus works |
| CanTransport.AnsweredIsHeld | Firmware/Inverter_bootloader/APP/CAN_task.c:257-307 | whatever frames were lost on the way, the number of a block is answered if and only if all of its frames came, and the block is then in the buffer |
| CanTransport.Exchange | Firmware/Inverter_bootloader/APP/CAN_task.c:187-307 | sender and receiver together, with frames lost and stale answers with other numbers among the polls: success means that the receiver holds this block, and it is reported exactly if no frame was lost, the answer arrives and the block is not one of whole frames |
| CanTransport.Receiver.ReceivingPacket | Firmware/Inverter_bootloader/APP/CAN_task.c:257-307 | the routine is the receiver of the model, frame by frame, and acknowledges exactly on success |
| UsbEndpoint.PayloadIsBuffer | Firmware/Inverter_bootloader/USB_DRIVER/usb_dci_kinetis.c:212-237 | the packets of a transfer together are the buffer |
| UsbEndpoint.PacketsAlternate | Firmware/Inverter_bootloader/USB_DRIVER/usb_dci_kinetis.c:1041-1141 | the data toggles alternate from the first on, and every packet but the last is full |
| UsbEndpoint.PacketCount | Firmware/Inverter_bootloader/USB_DRIVER/usb_dci_kinetis.c:1114-1138 | the number of packets of a transfer, with and without zero termination |
| UsbEndpoint.TerminatedCount | Firmware/Inverter_bootloader/USB_DRIVER/usb_dci_kinetis.c:1124 | with zero termination there are floor(n/m)+1 packets if and only if the endpoint is below 256 bytes, or the data do not fill its packets, or there are none |
| UsbEndpoint.EndsShort | Firmware/Inverter_bootloader/USB_DRIVER/usb_dci_kinetis.c:1124 | the host sees a short last packet under the same condition |
| UsbEndpoint.InEndpoint.SendData | Firmware/Inverter_bootloader/USB_DRIVER/usb_dci_kinetis.c:862-927 | a transfer is taken exactly if none is under way and the endpoint is not stalled, and its packets are then pending |
| UsbEndpoint.InEndpoint.TokenDone | Firmware/Inverter_bootloader/USB_DRIVER/usb_dci_kinetis.c:1041-1141 | each completion sends the next pending packet and turns the toggle; the end is reported with the last |
| UsbEndpoint.Transfer | Firmware/Inverter_bootloader/USB_DRIVER/usb_dci_kinetis.c:862-1141 | a whole transfer through the two descriptors gives exactly the packets of the model |
| UsbEndpoint.CompletesIff | Firmware/Inverter_bootloader/USB_DRIVER/usb_dci_kinetis.c:1168-1217 | reception completes for every conforming series of enough packets if and only if the size is not a positive multiple of the packet size under zero termination |
| UsbEndpoint.EnoughPackets | Firmware/Inverter_bootloader/USB_DRIVER/usb_dci_kinetis.c:1180-1181 | otherwise it completes within floor(n/m)+1 packets |
| UsbEndpoint.SixtyThree | Firmware/Inverter_bootloader/APP/usb_descriptor.h:69 | on an endpoint of 64 bytes reception of a block of 63 completes with its first packet, and that of a block of 64 with no series of packets |
| UsbEndpoint.OutEndpoint.TokenDone | Firmware/Inverter_bootloader/USB_DRIVER/usb_dci_kinetis.c:1041-1225 | a packet is stored behind those before it, and the next is awaited or the end reported |
| UsbEndpoint.Reception | Firmware/Inverter_bootloader/USB_DRIVER/usb_dci_kinetis.c:784-842 | a transfer with the packets of a host is reported exactly if it completes, and the buffer holds what was sent |
| Dfu.Device.ReceiveBlock | Firmware/Inverter_bootloader/USB_CLASS/usb_dfu.c:1134-1191 | the buffer is the concatenation of the blocks since block 0, cut to its capacity; it is marked ready when full or at the end |
| Dfu.Device.TransmitBlock | Firmware/Inverter_bootloader/USB_CLASS/usb_dfu.c:1208-1238 | what is sent for a request, and where the next one begins |
| Dfu.Device.IdleState | Firmware/Inverter_bootloader/USB_CLASS/usb_dfu.c:467-550 | dfuIDLE: which requests are granted, the answer, the phase that follows and what is collected |
| Dfu.Device.DnloadSyncState | Firmware/Inverter_bootloader/USB_CLASS/usb_dfu.c:568-610 | dfuDNLOAD-SYNC |
| Dfu.Device.DnloadIdleState | Firmware/Inverter_bootloader/USB_CLASS/usb_dfu.c:658-724 | dfuDNLOAD-IDLE |
| Dfu.Device.ManifestSyncState | Firmware/Inverter_bootloader/USB_CLASS/usb_dfu.c:742-789 | dfuMANIFEST-SYNC |
| Dfu.Device.UploadIdleState | Firmware/Inverter_bootloader/USB_CLASS/usb_dfu.c:869-913 | dfuUPLOAD-IDLE, and dfuDNBUSY with it |
| Dfu.Device.ErrorState | Firmware/Inverter_bootloader/USB_CLASS/usb_dfu.c:931-964 | dfuERROR |
| Dfu.Device.AppDetachState | Firmware/Inverter_bootloader/USB_CLASS/usb_dfu.c:421-449 | appDETACH |
| Dfu.Device.OtherRequests | Firmware/Inverter_bootloader/USB_CLASS/usb_dfu.c:336-404 | every request in every phase: whether it is granted, the phase that follows, what is answered, GetState with the phase there was and GetStatus with the one that follows, what is collected and what is uploaded |
| Dfu.Entered | Firmware/Inverter_bootloader/USB_CLASS/usb_dfu.c:421-964 | by which requests each phase is entered, and from where |
| Dfu.RefusedIsError | Firmware/Inverter_bootloader/USB_CLASS/usb_dfu.c:421-964 | a request is refused exactly if it leads to dfuERROR; an abort leads to dfuIDLE from dfuIDLE, dfuDNLOAD-IDLE and dfuUPLOAD-IDLE; questions change the phase in the two SYNC phases only |
| Dfu.Device.PollTimeOut | Firmware/Inverter_bootloader/USB_CLASS/usb_dfu.c:104-115 | the poll timeout ends dfuDNBUSY and dfuMANIFEST |
| Dfu.Device.BusReset | Firmware/Inverter_bootloader/USB_CLASS/usb_dfu.c:174-188 | a reset detaches, or leads to dfuERROR, or back to run time after a manifestation |
| Dfu.Device.AppTask | Firmware/Inverter_bootloader/APP/USB_task.c:248-268 | what is flashed, and where it goes, in dfuDNBUSY and in manifestation; in dfuDNBUSY a full buffer is flashed and ends in appIDLE, and nothing else is flashed at all |
| Dfu.Device.Run | Firmware/Inverter_bootloader/USB_CLASS/usb_dfu.c:1243-1280 | every event of a run is carried out and answered as the model says; and dfuDNLOAD-IDLE implies that the flashing step of the last block ran, nothing is pending, and all that was received, less than 2520 bytes, is in the buffer |
| Dfu.ErrorStays | Firmware/Inverter_bootloader/USB_CLASS/usb_dfu.c:931-964 | over any run nothing but ClrStatus, and the power coming on, leads out of dfuERROR; until then known questions are told the error, every other request is refused, and neither the bytes collected nor the flash change |
| Dfu.FlashedGrows | Firmware/Inverter_bootloader/APP/USB_task.c:248-268 | what has been flashed is never taken back in any run |
| Dfu.UploadAll | Firmware/Inverter_bootloader/USB_CLASS/usb_dfu.c:1208-1238 | requests of any sizes from 1 to 63 bring the whole image and a short answer at its end if and only if their sum passes the image size before the 16-bit number wraps; until then they bring its beginning |
| Dfu.UploadWraps | Firmware/Inverter_bootloader/USB_CLASS/usb_dfu.c:1216-1220 | if the number wraps first, the next request is answered from the beginning of the image again |
| Dfu.OneByteUploads | Firmware/Inverter_bootloader/USB_CLASS/usb_dfu.c:1208-1238 | after any number of requests for single bytes the first 65536 bytes have come over and over, and the device still waits for more |
| Dfu.Download | Firmware/Inverter_bootloader/USB_CLASS/usb_dfu.c:1243-1280 | a whole download by the book ends in dfuIDLE if and only if nothing was pending before it, it is shorter than the buffer and no block number is refused; it is flashed as sent, behind all that was flashed before, if and only if it is not longer than the buffer |
| Dfu.Interrupted | Firmware/Inverter_bootloader/USB_CLASS/usb_dfu.c:1175-1183 | a bus reset before the manifestation leaves something pending, which makes the next download fail |
| HidQueue.SlotsWrap | Firmware/Inverter_bootloader/USB_CLASS/usb_hid.c:511-519 | slots are not confused when the 8-bit counters wrap, and a new transfer never meets a waiting one |
| HidQueue.Queue.SendData | Firmware/Inverter_bootloader/USB_CLASS/usb_hid.c:492-541 | the status in every case, and the queue afterwards: busy exactly when four wait, handed on at once if it is the only one |
| HidQueue.Queue.Service | Firmware/Inverter_bootloader/USB_CLASS/usb_hid.c:132-172 | the queue after the end of a transfer: one with an error is sent again, without one the next is sent, and the layer below may refuse or ignore either |
| HidQueue.Queue.Reset | Firmware/Inverter_bootloader/USB_CLASS/usb_hid.c:230-238 | a bus reset or a change of the configuration drops what waits, and the queue takes transfers again whatever was refused before |
| HidQueue.Queue.InOrder | Firmware/Inverter_bootloader/USB_CLASS/usb_hid.c:132-172 | what was accepted is, in order, what was completed or dropped and what waits, each once, and at most four wait |
| HidQueue.Queue.OneInFlight | Firmware/Inverter_bootloader/USB_CLASS/usb_hid.c:158-168 | one transfer is in flight exactly if one waits and the layer below took it, and it is the first |
| HidQueue.RefusedUntilReset | Firmware/Inverter_bootloader/USB_CLASS/usb_hid.c:230-238 | after a refusal something is completed again if and only if a reset comes, the first transfer submitted after it is taken, and it ends without an error, having been taken again after every end with one |
| HidQueue.StuckWithoutReset | Firmware/Inverter_bootloader/USB_CLASS/usb_hid.c:529-533 | without a reset nothing is completed or dropped, and what is accepted only waits |
| HidQueue.Drains | Firmware/Inverter_bootloader/USB_CLASS/usb_hid.c:148-168 | without a refusal as many faultless ends as transfers wait complete them all in order |
| HidQueue.Refines | Firmware/Inverter_bootloader/USB_CLASS/usb_hid.c:492-541 | over any run, with any verdicts of the layer below and any resets, slots and counters behave as a queue of capacity four |
| CanLog.Places | Firmware/Inverter_firmware/Main/CAN_control.c:472-504 | head, tail and the places between them, across the wrap |
| CanLog.Log.Push | Firmware/Inverter_firmware/Main/CAN_control.c:489-510 | afterwards the latest 127 of the unread records and the new one are there |
| CanLog.Log.Pop | Firmware/Inverter_firmware/Main/CAN_control.c:469-485 | the oldest record, if there is one |
| CanLog.UnreadIsLatest | Firmware/Inverter_firmware/Main/CAN_control.c:489-510 | what is unread is always the latest part of all that was pushed, in order, at most 127 records |
| CanLog.Refines | Firmware/Inverter_firmware/Main/CAN_control.c:469-510 | the ring does this over any run of pushes and pops |
| Motor.StaysBetween | Firmware/Inverter_firmware/Main/Motor_control.c:497-533 | all through a ramp of any length the frequency, rounded or not, lies between start and target |
| Motor.Monotone | Firmware/Inverter_firmware/Main/Motor_control.c:640-646 | the rounded frequency only goes towards the target |
| Motor.Arrives | Firmware/Inverter_firmware/Main/Motor_control.c:497-533 | after exactly its number of ticks, if that is below 2^31, the rounded frequency is the target |
| Motor.NoWrap | Firmware/Inverter_firmware/Main/Motor_control.c:642-643 | no 64-bit sum wraps in a ramp between 32-bit frequencies |
| Motor.AtOnce | Firmware/Inverter_firmware/Main/Motor_control.c:529-533 | a change without time takes one tick, and the wrapping of its step does not show |
| Motor.Control.InitSpeedChange | Firmware/Inverter_firmware/Main/Motor_control.c:479-582 | action, ticks and step of a speed change, and that nothing changes if the frequency is the target already |
| Motor.Control.StartMotorMoving | Firmware/Inverter_firmware/Main/Motor_control.c:418-426 | ignored while the motor is driven or the safety circuit is open; otherwise the modulator is on at the start frequency, with a ramp from there, or none if that is the target |
| Motor.Control.StopMotorMoving | Firmware/Inverter_firmware/Main/Motor_control.c:432-438 | a stop ramp of the given time, from the frequency shown, to the speed for direction and load |
| Motor.Control.EmergencyStop | Firmware/Inverter_firmware/Main/Motor_control.c:443-454 | everything at rest |
| Motor.Control.Tick | Firmware/Inverter_firmware/Main/Motor_control.c:640-681 | at rest or faster than the least frequency after every tick, although the end of a stop first marks uniform motion |
| Motor.Control.Run | Firmware/Inverter_firmware/Main/Motor_control.c:418-681 | over all interleavings of commands and ticks, each is carried out as the model says, and the motor is at rest or driven above the least frequency |
| Motor.Control.StopTakesEffect | Firmware/Inverter_firmware/Main/Motor_control.c:432-438 | after the last stop command the motor is off before more ticks have passed than the stop was to take |
| Motor.Control.StopUp | Firmware/Inverter_firmware/Main/Motor_control.c:497-533 | going up, a stop with time drives the motor until the last of its ticks; until then the frequency comes down to 5, under a heavy load to 15, but never below, and a slower one comes up to 15 |
| Motor.ShownBetween | Firmware/Inverter_firmware/Main/Motor_control.c:640-646 | a ramp that begins in the middle of another, within half a unit of the frequency shown, stays between that and its target as well |
| Motor.Control.StartArrives | Firmware/Inverter_firmware/Main/Motor_control.c:418-426 | a start arrives at its target after exactly its number of ticks, one without time after one tick, one to the start frequency after none, monotonely, and goes on at it |
| AdcFilter.StaysInRange | Firmware/Inverter_firmware/Main/ADC_control.c:35-43 | samples up to M keep the offset in 0 to 4096 M + 4095 |
| AdcFilter.AlwaysInRange | Firmware/Inverter_firmware/Main/ADC_control.c:35-43 | so over any series of samples |
| AdcFilter.NoOverflow | Firmware/Inverter_firmware/Main/ADC_control.c:35-43 | with 16-bit samples no sum passes 32 bits |
| AdcFilter.NoOvershoot | Firmware/Inverter_firmware/Main/ADC_control.c:35-43 | on a constant sample the current never crosses zero and never grows |
| AdcFilter.GapShrinks | Firmware/Inverter_firmware/Main/ADC_control.c:35-43 | what the offset is short of shrinks by its 4096th part, rounded up, on every interrupt |
| AdcFilter.Settles | Firmware/Inverter_firmware/Main/ADC_control.c:35-43 | it is exactly zero after finitely many interrupts, and stays so |
| AdcFilter.Results.Average | Firmware/Inverter_firmware/Main/ADC_control.c:45-51 | the accumulator is the sum of the sixteen stored samples, which are the latest ones |
| AdcFilter.Results.AverageIs | Firmware/Inverter_firmware/Main/ADC_control.c:45-51 | the average is within the bound of the latest samples, and the sample itself once sixteen were equal |
| AdcFilter.Results.Isr | Firmware/Inverter_firmware/Main/ADC_control.c:35-51 | all filters together, on every interrupt |

## Left out

- FixedPoint.F32Div: states nothing for numerators not smaller in magnitude than the denominator, for which the library calls the result undefined.
- F32Norm, F16Norm, the saturating shifts and multiplications and the single-expression inlines of the library: easy next to the divisions, and F32Norm is exact for positive arguments only.
- Aes.Tables.AesInit: the forward cipher is a specification only; the firmware contains none.
- Cbc.DecryptBlock: for a length that is not a multiple of sixteen it states which blocks are decrypted, as the routine leaves the rest alone.
- Md5.Round1: the additive constants are those of RFC 1321 as a table; that they are sines is not proved.
- Flash.Device.SectorErase: protection, collision and read-verify errors of the flash controller are not modelled; the hardware refuses only addresses that are unaligned or outside.
- Flash.Device.ByteProgram: protection, collision and read-verify errors of the flash controller are not modelled; the hardware refuses only addresses that are unaligned or outside.
- Boot.CheckAndJump: memory beyond the flash, which a record with a size above the program area makes the check read, is a parameter.
- YLoader.Loader.WhyRefused: is about files of more than 1024 bytes whose body fits what is erased for their image and whose size the flash routine writes as intended; what else can make a packet be refused is in YLoader.Loader.PackPrgToFlash.
- History.OnlyVerifiedStarts: is about erasures for files of a size the flash routine writes as intended, because the record of any other may be written by accident.
- YLoader.Loader.Programmator: packets arrive whole and with a matching complement of their number, as the receiving routine hands them on; the byte-wise reception, the CRC of the packets, which the code does not check, and the display are left out, and the destination is the own flash.
- YSender.SendFile: a garbled packet is an error or silence to the loader; one whose first byte turns into another control byte is left out.
- CanTransport.Exchange: is about a receiver that is not in the middle of another block with the same number, which comes again after 256 blocks.
- CanTransport.Delivered: the checksum is any function of the block, the same on both sides; the commands carried in the blocks and the retries of a busy controller beyond "sent or given up" are left out.
- CanTransport.Receiver.ReceivingPacket: compares checksums as four bytes, as a little-endian processor does.
- UsbEndpoint.InEndpoint.SendData: the control endpoint, whose transfers start with DATA1, is left out.
- UsbEndpoint.InEndpoint.TokenDone: the control endpoint, with its status stage and setup direction, and the set-up of endpoints are left out; descriptors hold offsets into the buffer instead of addresses.
- UsbEndpoint.OutEndpoint.TokenDone: a transfer of 65535 bytes, whose length is the mark for none, is excluded, as is receiving without a buffer.
- Dfu.Device.TransmitBlock: requests larger than the announced 63 bytes, which overrun the intermediate buffer, are excluded.
- Dfu.Device.AppTask: what is flashed and where it goes is recorded; erasing and programming themselves are in Flash.
- Dfu.Device.OtherRequests: poll delays and timers are left out; the timeout may come at any moment.
- HidQueue.Queue.Service: the notifications of the application are left out.
- HidQueue.Queue.Reset: a change of the configuration and the new enumeration that follows it in the same call, in which the controller gives up its transfers, are one step.
- Motor.Control.StopUp: a stop without time is in Motor.Control.StopTakesEffect, as is one while the motor goes down.
- Motor.Control.InitSpeedChange: the float quotient is taken as exact and then truncated; the measured current is a choice; the scale of the modulator, the angle generator and the copying of the control block while ticks come in are left out, every command and tick being one step.
- Motor.Control.StartMotorMoving: times whose number of ticks does not fit 32 bits are excluded.
- AdcFilter.Results.Isr: the raw samples are parameters; the test recording is left out.
- CanLog.Log.Push: the semaphore makes each push and pop one step; the notification is left out.
- Printf.PrintSigned: the parsing of format strings and the character and string conversions are left out; flags and width are parameters.
- Register set-up, display, terminal menus, temperature sensor, descriptors and report handling, the timing search of the CAN controller, and the space vector modulation, whose bodies are not part of the repository.
