# Verified model of Shishi's key database and its gnulib code

Shishi keeps the keys of a Kerberos realm in a file-backed database (`db/`) and brings its own copies of portable
library code (`gl/`). This project models both in Dafny and proves what they are for: that a search through an unknown
time zone returns the right time, that a decoder fed in arbitrary pieces decodes the whole, that a table, an unrolled
loop or a circular buffer computes what its standard defines, and that a tree of directories behaves like a map from
principals to bags of keys.

Code that updates objects and buffers in place is modelled by classes and methods over arrays; each of them is proved
against a function that says what the result is, and the properties of that function are separate lemmas.

| modules | subject |
|---|---|
| MachineInts, Bytes, Strings, Numerals | machine integers, bytes and words, separators, numbers as text |
| Calendar, Mktime | inverting a conversion to broken-down time |
| Base64, Base64Grammar, Base64Encode, Base64Decode | the encoder, the texts that are accepted, and the streaming decoder |
| Digest, Sha1, MdRounds, Md5, Md4, DigestConstants | buffered hashing, block functions and where their constants come from |
| Hmac, Pbkdf2 | message authentication, key derivation |
| Feistel, DesTables, Des, DesSchedule, DesCipher | DES and triple DES as the code computes them |
| DesStandard, DesBits, DesBoxes, DesKeys, DesConforms | DES as FIPS 46-3 defines it, and that it is the same |
| Crc, Arcfour, ArcfourStandard | the table-driven CRC, the RC4 stream cipher and its definition |
| InetText, InetParse, InetNtop | internet addresses as text, and reading them |
| Escape, FileSystem, KeyFile, ShisaDatabase, ShisaTree, ShisaFile | the key database on a file system |
| PrintfSpec, PrintfGrammar, PrintfParse | the parser for format strings, and their grammar |
| IntProps, Malloca | overflow tests and digit bounds, the table of heap blocks |

Time zones, `localtime`, `malloc`, the file system and the addresses of buffers come in as parameters or as a small
model of their own. `long`, `size_t` and `time_t` have 64 bits and `int` has 32; arithmetic that wraps around, saturates
or truncates toward zero in the code does so in the model. `char` is signed.

Where the code does not do what one would expect, the exact condition is proved: when `ranged_convert` gives up
(Mktime.RangedConvert), when a shift overflow is overlooked (IntProps.LeftShiftAlmostExact), when unescaping gives a
name back (Escape.UnescapedEscaped), for which iteration count a loop does not end (Pbkdf2.LoopEnds), when the
terminator of an IPv4 address falls outside the buffer (InetNtop.OutsideExactly), and when a search for keys compares a
password with one that is not there (ShisaDatabase.DefinedExactly).

Check everything with `dafny verify dfyconfig.toml`.

## Model

| member | source | states |
|---|---|---|
| `Calendar.LeapYearIsGregorian` | gl/mktime.c:145-154 | the leap-year test, which works on years counted from 1900 and on their low bits, accepts exactly the Gregorian leap years, for every year of either sign |
| `Calendar.InterveningLeapDaysCounts` | gl/mktime.c:205-213 | the difference of the two leap-day formulas is the number of years in between that the leap-year test accepts, also for negative years where shifts and truncating division disagree |
| `Calendar.LeapDaysFit` | gl/mktime.c:205-213 | for the years that ydhms_diff accepts, from 2 * INT_MIN to 2 * INT_MAX, its leap-day formula gives the same in the 32 bits of int as in unbounded arithmetic |
| `Calendar.YdhmsDiffIsElapsed` | gl/mktime.c:187-224 | for those years, the difference of two broken-down times is the elapsed time found by adding up the lengths of the years, modulo 2^64 and exactly whenever it fits |
| `Calendar.MonthTableCorrect` | gl/mktime.c:160-166 | the table of days before each month agrees with adding month lengths one by one in the calendar |
| `Mktime.TimeAvg` | gl/mktime.c:227-234 | the average is the floor of the half sum, computed without leaving the type |
| `Mktime.TimeAddOk` | gl/mktime.c:236-255 | true exactly when the sum is representable, on hosts where signed overflow wraps and on hosts where it does not |
| `Mktime.TimeIntAddOk` | gl/mktime.c:257-275 | the same for a time and an int |
| `Mktime.GuessIsExact` | gl/mktime.c:280-301 | a guess from a converted time lands on the requested linear time whenever that is representable |
| `Mktime.FarTime` | gl/mktime.c:292-300 | the fallback guess is never the time it started from, so the search cannot stand still there |
| `Mktime.FarTimeIsNearest` | gl/mktime.c:292-300 | and where the sum overflows it is the end of the range on that side, the nearest time there is, unless the time is already beside an end |
| `Mktime.RangedConvert` | gl/mktime.c:303-341 | for conversions that succeed exactly on an interval around 0, the result is that of the nearest convertible time; there is none exactly when that time is 0 and was not the one asked for; at most one call when the time is convertible |
| `Mktime.RequestIsLinear` | gl/mktime.c:366-395 | normalising the month, with truncating division and a correction for negative remainders, does not move the requested time |
| `Mktime.GuessHitsTarget` | gl/mktime.c:280-301 | in a zone with a fixed offset the guess after any convertible probe is the requested time |
| `Mktime.OffsetLearned` | gl/mktime.c:549 | the remembered offset is right modulo 2^32, which is all that its truncation to int lets the next call see |
| `Mktime.Probe` | gl/mktime.c:474-499 | for every conversion whatever: the times looked at follow the guesses; the loop ends with a match only at a time whose fields are those requested, with a gap only where the guesses have come back to a time that misses the request and is the preferred one of two, and gives up only after six probes without either; in a fixed-offset zone it takes at most two guesses, and fails exactly when the time is out of range |
| `Mktime.GuessStays` | gl/mktime.c:280-301 | for every conversion whatever: the next guess is the time looked at exactly if that time has the fields requested |
| `Mktime.GuessMoves` | gl/mktime.c:280-301 | otherwise, away from the ends of time_t, it moves by exactly what is missing |
| `Mktime.GapOscillates` | gl/mktime.c:479-494 | where a gap is reported, the guesses go to and fro between two times for ever, and both miss the request |
| `Mktime.FindDst` | gl/mktime.c:501-548 | where the surroundings can be converted, the first of the 894 times around, in the order of the code, that does not contradict the isdst requested, and the time extrapolated from it, or nothing changed when there is none; in a zone without daylight-saving time nothing changes |
| `Mktime.ExtrapolatedMeets` | gl/mktime.c:538-545 | the time extrapolated from there has the fields requested if the offset from UTC is the same at both |
| `Mktime.RestoreSeconds` | gl/mktime.c:551-566 | putting the requested seconds back gives the time found with them, one more behind a leap second, and its fields, or failure when one of the sums leaves time_t or the time is not convertible |
| `Mktime.OrdinarySeconds` | gl/mktime.c:551-566 | with ordinary seconds nothing has to be put back: a time that meets the request has its seconds |
| `Mktime.MetExactly` | gl/mktime.c:349-571 | and for a request in the usual ranges every field of the time found is the field requested |
| `Mktime.MktimeInternal` | gl/mktime.c:349-571 | for every conversion whatever: in which of four ways the time was found, that a time found by matching has the fields requested, and what becomes of its seconds and of the remembered offset; in a fixed-offset zone the exact time of the unnormalised fields when the request is feasible and -1 otherwise, after at most two guesses, with the fields of the conversion, and the remembered offset becomes right |
| `Mktime.MktimeTwice` | gl/mktime.c:349-571 | after one successful call the next one matches on its first probe, whatever offset the first one started from |
| `Mktime.MktimeOfLocaltime` | gl/mktime.c:349-571 | converting a time to fields and back gives the time and the fields again |
| `Mktime.ConvertedIsFeasible` | gl/mktime.c:349-571 | fields that the zone itself produces are always feasible requests for the time they came from |
| `Mktime.CalendarZone` | gl/mktime.c:280-301 | the calendar itself, with any offset, is a conversion to which these results apply |
| `Base64.EncodeGroupDecodes` | gl/base64.c:402-467 | each encoded group of one, two or three bytes decodes to those bytes |
| `Base64.DecodeGroupsAppend` | gl/base64.c:487-562 | decoding a text in two parts, the second with the unfinished group of the first in front, is decoding the whole |
| `Base64.DecodeEncode` | gl/base64.c:487-562 | decoding with a context gives every encoded byte string back (section 4 of RFC 4648) |
| `Base64Grammar.AlphabetExactly` | gl/base64.c:185-332 | the table of values has one for exactly the characters of the alphabet, each its place in it; the padding and the newline are not among them |
| `Base64Grammar.GroupAccepted` | gl/base64.c:402-467 | a group of four is accepted exactly if it is four letters, three and "=", or two and "==" |
| `Base64Grammar.GroupMeaning` | gl/base64.c:402-467 | the bytes that a group yields, accepted or not, said as equations between its number in base 64 and the bytes in base 256 |
| `Base64Grammar.EncodingMeaning` | gl/base64.c:103-131 | the same equations for an encoded group, filled up with zero bits, and its padding (section 4 of RFC 4648) |
| `Base64Grammar.TextAccepted` | gl/base64.c:487-562 | with a context a text is accepted exactly if each of its groups is such a group |
| `Base64Grammar.UnitGroups` | gl/base64.c:487-562 | whole texts: a multiple of four characters, all groups but the last four letters, the last one any group |
| `Base64Grammar.UnitAccepted` | gl/base64.c:487-562 | without a context exactly those texts are accepted |
| `Base64Grammar.CallAccepted` | gl/base64.c:487-562 | the verdict of a call in each of its modes, on any input and any unfinished group |
| `Base64Encode.EncodeFast` | gl/base64.c:68-84 | the fast loop writes exactly the encoding |
| `Base64Encode.EncodeRound` | gl/base64.c:103-131 | one round of the general loop writes as much of the next four characters as there is room for |
| `Base64Encode.EncodeInto` | gl/base64.c:87-135 | fast and slow path agree; the buffer receives the whole text and a terminator if both fit, else exactly a prefix, and nothing behind it changes |
| `Base64Encode.OverflowTestExact` | gl/base64.c:145-163 | the test inlen > outlen finds exactly the lengths for which the size of the allocation overflows size_t |
| `Base64Encode.EncodeAlloc` | gl/base64.c:144-174 | too long, out of memory, or a buffer with the whole encoding and its terminator |
| `Base64Decode.FieldsJoined` | gl/base64.c:415-457 | the ors of shifted and masked table entries are the bytes that the definition finds by arithmetic, since the fields do not overlap |
| `Base64Decode.Decode4` | gl/base64.c:402-467 | the verdict, and the decoded bytes as far as there is room, for any text and any padding in it |
| `Base64Decode.DecodeContext.Get4` | gl/base64.c:348-386 | the next group from the saved characters and the input with newlines skipped; the context keeps what is unfinished |
| `Base64Decode.FastGroups` | gl/base64.c:505-531 | the fast loop decodes groups up to the first one it cannot, with the room saved before it for the rollback |
| `Base64Decode.SlowGroup` | gl/base64.c:544-556 | after the rollback one group through the context decodes as the specification says, or ends the call |
| `Base64Decode.DecodeCtx` | gl/base64.c:487-562 | one call, with or without a context and for any output size: verdict, number of bytes, bytes and the unfinished group are those of decoding group by group |
| `Base64Decode.DecodeChunks` | gl/base64.c:487-562 | a text fed in any non-empty chunks, up to the first failure, gives the bytes and verdict of removing all newlines and decoding group by group |
| `Base64Decode.NeedLenSuffices` | gl/base64.c:578-604 | the size computed at line 588 never cuts anything off, the pending characters included |
| `Base64Decode.DecodeAllocCtx` | gl/base64.c:578-605 | the allocated buffer holds all decoded bytes, or the call reports an invalid text or lack of memory |
| `Base64Decode.DecodeUnitEncode` | gl/base64.c:487-562 | decoding without a context gives every encoded byte string back |
| `Base64Decode.DecodeWrappedText` | gl/base64.c:487-562 | with newlines anywhere and chunks cut anywhere the encoding still decodes to the data |
| `Base64Decode.PaddingInTheMiddle` | gl/base64.c:487-562 | a padded group ends the text without a context but not with one |
| `Digest.CounterAdd` | gl/md5.c:325-329 | the two-word counter with its carry is the byte count modulo 2^64 |
| `Digest.BitCount` | gl/md5.c:123-127 | the two words of the length, shifted with the bits carried over, are the bit count modulo 2^64 |
| `Digest.PaddingWritten` | gl/md5.c:112-134 | the padding written into the buffer is that of the definition, for every number of waiting bytes up to and including 64 |
| `Digest.Context.ProcessBlock` | gl/md5.c:310-329 | count and registers after whole blocks |
| `Digest.Context.ProcessBytes` | gl/md5.c:231-295 | whatever has been fed, aligned or not, the context stands for the message so far followed by these bytes |
| `Digest.Context.BlocksThroughBuffer` | gl/md5.c:262-275 | the path for misaligned input, which leaves up to 64 bytes waiting |
| `Digest.Context.KeepRest` | gl/md5.c:281-294 | the last bytes go into the buffer, which is processed when it reaches 64 |
| `Digest.Context.Finish` | gl/md5.c:112-134 | MD5 and SHA-1: the digest is the fold of the block function over the message padded at once (sections 3.1 to 3.4 of RFC 1321) |
| `Digest.Context.FinishMd4` | gl/md4.c:92-116 | the same with the other padding formula of MD4 |
| `Digest.Context.ReadCtx` | gl/sha1.c:85-97 | the registers in the byte order of the algorithm |
| `Digest.DigestOfPieces` | gl/sha1.c:218-282 | every way of cutting a message into pieces, at any addresses, gives the same digest as the whole message |
| `Digest.DigestOfPiecesMd4` | gl/md4.c:92-116 | the same through the finish function of MD4 |
| `Digest.RegisterRead` | gl/sha1.c:85-97 | read in the byte order of the algorithm, the bytes of a register give the register |
| `DigestConstants.InitialRegisters` | gl/md5.c:75-85 | written as bytes, the initial registers of MD5 and MD4 are the digits 0 to f upwards and downwards (section 3.3 of RFC 1321) |
| `DigestConstants.InitialRegistersSha1` | gl/sha1.c:62-72 | those of SHA-1 are the same and a fifth |
| `DigestConstants.RootsSha1` | gl/sha1.c:287-290 | the four constants are the integer parts of 2^30 times the square roots of 2, 3, 5 and 10 |
| `DigestConstants.RootsMd4` | gl/md4.c:278-279 | so are the two of MD4, for 2 and 3 |
| `DigestConstants.SinesMd5` | gl/md5.c:371-453 | the 64 constants are the integer parts of 2^32 times the absolute values of the sines of 1 to 64, computed by the power series at 1 and the addition theorem |
| `Sha1.DigestOfPieces` | gl/sha1.c:203-216 | SHA-1 of a message in pieces, from initial registers to the 20 bytes of the digest |
| `Md5.DigestOfPieces` | gl/md5.c:215-228 | MD5 of a message in pieces |
| `Md4.DigestOfPieces` | gl/md4.c:195-208 | MD4 of a message in pieces |
| `Sha1.CompressBlock` | gl/sha1.c:286-432 | the rounds over a circular schedule of 16 words with registers changing roles compute the 80-word schedule with shifting registers (section 6.2 against section 6.1 of RFC 3174) |
| `Sha1.Schedule` | gl/sha1.c:324-326 | each word replaced in the circular array is the word of the long schedule for that round |
| `Sha1.RoundFCorrect` | gl/sha1.c:293-296 | the optimised choice and majority functions are those of RFC 3174 |
| `Sha1.NewECorrect` | gl/sha1.c:328-334 | one macro invocation is one round of the definition |
| `MdRounds.FourSteps` | gl/md5.c:346-356 | four invocations with rotated names and sums added in place are four steps with shifting registers |
| `MdRounds.CompressBlock` | gl/md5.c:310-459 | so are all of them, for the word order, shifts and constants of the definition |
| `Md5.CodeRefinesDefinition` | gl/md5.c:302-451 | the word and shift arguments of the 64 invocations are those of section 3.4 of RFC 1321, and the optimised functions are its functions |
| `Md5.CompressBlock` | gl/md5.c:310-459 | one block of MD5 |
| `Md4.CodeRefinesDefinition` | gl/md4.c:282-370 | the same for the 48 invocations of MD4 and RFC 1320 |
| `Md4.CompressBlock` | gl/md4.c:293-377 | one block of MD4 |
| `Hmac.HmacBuffer` | gl/hmac-sha1.c:31-80 | the result is the definition of section 2 of RFC 2104, for keys of every length, also when the result overwrites the text |
| `Hmac.HashKey` | gl/hmac-md5.c:40-52 | a key longer than a block is replaced by its digest |
| `Pbkdf2.Pbkdf2Sha1` | gl/gc-pbkdf2-sha1.c:32-98 | the error codes, the one iteration count for which it never ends, and otherwise exactly the first dkLen bytes of the concatenated blocks of section 5.2 of RFC 2898 |
| `Pbkdf2.DeriveBlock` | gl/gc-pbkdf2-sha1.c:70-92 | the exclusive or of all iterations although U is both input and output of the pseudorandom function |
| `Pbkdf2.BlockCountRoundsUp` | gl/gc-pbkdf2-sha1.c:59-60 | number of blocks and length of the last one |
| `Pbkdf2.LoopEnds` | gl/gc-pbkdf2-sha1.c:74 | the inner loop ends exactly for iteration counts below 2^32 - 1 |
| `Feistel.RoundsUndone` | gl/des.c:394-404 | for any round function: the rounds with the subkeys reversed, on exchanged words, undo the rounds |
| `Feistel.RoundsComplement` | gl/des.c:394-404 | if complementing word and subkey cancel in the round function, complementation passes through all rounds |
| `Des.FinalOfInitial` | gl/des.c:362-388 | the final permutation undoes the initial one |
| `Des.InitialOfFinal` | gl/des.c:362-388 | and the initial one undoes the final one |
| `Des.DesRoundCancels` | gl/des.c:394-404 | the round function does not see a word complemented together with the used bits of its subkey |
| `Des.CryptUndone` | gl/des.c:542-564 | on one block, the reversed subkeys undo the subkeys, for any subkeys at all |
| `Des.CryptBytesUndone` | gl/des.c:542-564 | the same on eight bytes |
| `Des.CryptComplement` | gl/des.c:542-564 | flipping the used bits of all subkeys and complementing the block complements the result |
| `DesBits.InitialStandard` | gl/des.c:362-374 | the initial permutation, up to a rotation of both words, is the table IP of FIPS 46-3, bit for bit |
| `DesBits.FinalStandard` | gl/des.c:376-388 | the final one is the table of the inverse permutation |
| `DesBoxes.RoundStandard` | gl/des.c:105-220 | the round function, up to the rotation, is the expansion E, the selection functions S1 to S8 and the permutation P of FIPS 46-3, for every word and every subkey |
| `DesSchedule.KeySchedule` | gl/des.c:430-515 | the loop fills 32 words with the schedule and leaves the rest of the array alone |
| `DesSchedule.ScheduleComplement` | gl/des.c:430-515 | complementing the key flips every subkey word by exactly 0x3f3f3f3f |
| `DesSchedule.Complementation` | gl/des.c:430-564 | DES complementation, for every key and block |
| `DesSchedule.ParityIgnored` | gl/des.c:430-515 | the lowest bit of each key byte has no influence |
| `DesKeys.ScheduleStandard` | gl/des.c:430-515 | the words of round n hold PC-2 of the halves of PC-1 after the rotations of rounds 1 to n, bit for bit, by the tables of FIPS 46-3 |
| `DesKeys.ShiftsAddUp` | gl/des.c:241-243 | the rotations up to round n add up to 1 for n = 1, 2n - 2 up to 8, 2n - 3 up to 15, and 28 |
| `DesConforms.Conforms` | gl/des.c:430-564 | the subkeys of a key and encryption with them are DES as FIPS 46-3 defines it bit by bit, for every key and block |
| `DesConforms.DecryptionConforms` | gl/des.c:430-564 | and with the subkeys reversed they are its inverse |
| `DesCipher.SixteenRounds` | gl/des.c:551-558 | the unrolled macro invocations are the sixteen rounds |
| `DesCipher.DesContext.SetKey` | gl/des.c:517-529 | the decryption subkeys are the encryption subkeys pair by pair in reverse |
| `DesCipher.DesContext.EcbCrypt` | gl/des.c:542-564 | the effect of one call on its buffers, which may be the same |
| `DesCipher.DesContextRoundTrip` | gl/des.c:517-564 | in every context built by gl_des_setkey each mode undoes the other |
| `DesCipher.TripleRounds` | gl/des.c:613-653 | forty-eight rounds between one initial and one final permutation are three whole passes of DES |
| `DesCipher.TripleContext.Set2Keys` | gl/des.c:566-588 | builds the context that gl_3des_set3keys builds from the first key, the second and the first again |
| `DesCipher.TripleContext.Set3Keys` | gl/des.c:590-611 | the subkeys of encrypt, decrypt, encrypt, and of the way back |
| `DesCipher.TripleContext.EcbCrypt` | gl/des.c:613-653 | the effect of one call on its buffers |
| `DesCipher.TripleContextRoundTrip` | gl/des.c:566-653 | a context from either setup function encrypts with key 3 after decrypting with key 2 after encrypting with key 1, and each mode undoes the other |
| `DesCipher.TripleOfOneKey` | gl/des.c:590-653 | with one key three times it is DES |
| `Crc.TableCorrect` | gl/crc.c:25-69 | every entry of the table is the remainder of its index after eight steps of division by 0xEDB88320 |
| `Crc.TableStepDivides` | gl/crc.c:81-82 | one table step is the division of the eight bits of the byte (section 8 of RFC 1952) |
| `Crc.UpdateNoXor` | gl/crc.c:76-85 | the loop computes bit-by-bit division of the message |
| `Crc.Update` | gl/crc.c:93-97 | the remainder kept complemented |
| `Crc.RemainderAppend` | gl/crc.c:76-85 | dividing two pieces in turn divides their concatenation |
| `Crc.UpdateInPieces` | gl/crc.c:93-97 | updating over two pieces in turn is updating over their concatenation |
| `Crc.RemainderOfWord` | gl/crc.c:76-85 | up to four bytes act on the remainder as one word |
| `Crc.RemainderInjective` | gl/crc.c:76-85 | different remainders stay different over the same bytes |
| `Crc.BurstDetected` | gl/crc.c:76-103 | two messages of equal length that differ only inside four consecutive bytes never share a CRC |
| `Crc.CheckValue` | gl/crc.c:93-103 | the CRC of the digits 1 to 9 is 0xcbf43926 |
| `Arcfour.StepInvertible` | gl/arcfour.c:43-47 | each step can be undone and each state is reached by a step |
| `Arcfour.AfterInjective` | gl/arcfour.c:31-54 | different states stay different for ever |
| `Arcfour.ShortCycleNeverEntered` | gl/arcfour.c:31-75 | the states with j == i + 1 and sbox[j] == 1 are never entered or left, and never met from i == j == 0 |
| `Arcfour.EveryRun` | gl/arcfour.c:31-75 | for every key and every length of run the box is a permutation of 0..255 and the state is off the short cycles |
| `Arcfour.Context.SetKey` | gl/arcfour.c:56-75 | the state after key setup, for every key that is not empty |
| `Arcfour.Context.Stream` | gl/arcfour.c:31-54 | output and state after any length, also in place |
| `Arcfour.CryptTwice` | gl/arcfour.c:31-54 | streaming twice from equal states gives the input back |
| `Arcfour.StreamedTwice` | gl/arcfour.c:31-54 | the same however each of the two streams is cut into calls |
| `ArcfourStandard.StreamConforms` | gl/arcfour.c:31-75 | byte for byte the key stream is that of RC4 defined by permutations of numbers and their transpositions, for every key and length |
| `InetText.LeftmostLongest` | gl/inet_ntop.c:177-206 | the run chosen is at least as long as any run of two or more zero words, and the leftmost of that length |
| `InetText.Text6Length` | gl/inet_ntop.c:161 | text and terminator fit the 46 bytes of tmp |
| `InetText.TwoParts` | gl/inet_ntop.c:208-244 | with a run the text is the words before it, a double colon, and the words after it |
| `InetText.DottedLength` | gl/inet_ntop.c:124-141 | seven to fifteen characters |
| `InetText.DottedExactly` | gl/inet_ntop.c:223-232 | the text has a dot exactly if the first ten bytes are zero and the next two are 255, or the first twelve are zero and the next two are not both zero; it then ends in the dotted form of the last four |
| `InetNtop.FindRun` | gl/inet_ntop.c:177-206 | the scanning loop finds that run, or none when there is no run of two |
| `InetNtop.Ntop4` | gl/inet_ntop.c:124-141 | the dotted text and its terminator, refused exactly when the text is longer than the size; in a buffer of just that size the terminator falls outside exactly when the text has that length |
| `InetNtop.OutsideExactly` | gl/inet_ntop.c:134-140 | what the test lets pass stays inside the caller's buffer exactly if the text is shorter than the size or the buffer is larger |
| `InetNtop.Format` | gl/inet_ntop.c:208-244 | the formatting loop writes exactly the text, within tmp |
| `InetNtop.Ntop6` | gl/inet_ntop.c:151-256 | succeeds exactly when text and terminator fit the caller's buffer, which otherwise is not touched |
| `InetParse.DottedParsed` | gl/inet_ntop.c:124-141 | reading a dotted IPv4 address gives its four bytes back |
| `InetParse.RoundTrip6` | gl/inet_ntop.c:151-256 | reading the text by section 2.2 of RFC 4291 gives the same sixteen bytes, for every address, in plain, compressed and embedded-IPv4 form |
| `InetParse.Text6Injective` | gl/inet_ntop.c:151-256 | different addresses have different texts |
| `Malloca.HeaderLayout` | gl/malloca.c:52-63 | the header keeps blocks aligned, and the magic word does not overlap the link |
| `Malloca.ChainsHoldTheLive` | gl/malloca.c:64-69 | each chain holds exactly the live blocks of its slot, so the chains are disjoint |
| `Malloca.BlockTable.Mmalloca` | gl/malloca.c:73-112 | a new live block at the head of its chain, or NULL exactly when the size overflows or malloc fails, with nothing changed |
| `Malloca.BlockTable.Freea` | gl/malloca.c:116-149 | frees exactly the live blocks, whose magic words mmalloca has written, and nothing else, whatever word is in front of another pointer |
| `Malloca.PerformAll` | gl/malloca.c:72-149 | any sequence of calls: each answer is that of a set of live blocks, to which mmalloca adds and from which freea removes |
| `Malloca.LiveAfterRun` | gl/malloca.c:72-149 | after any sequence of calls a block is live exactly if it has been allocated and not been freed since |
| `Malloca.ChainsWithout` | gl/malloca.c:134-140 | unlinking through the cell that leads to a block keeps all chains |
| `Numerals.ValueOfNumeral` | gl/intprops.h:108-111 | a printed number reads back as itself |
| `Numerals.NumeralText` | gl/intprops.h:108-111 | its characters are digits of the base, in lower case, and the first is not zero unless the number is |
| `Numerals.NumeralLength` | gl/intprops.h:108-111 | a number has at most d digits exactly when it is below the base to the power of d |
| `IntProps.AddExact` | gl/intprops.h:166-184 | the tests for addition, subtraction and negation are true exactly when the result leaves the range, and do not leave it themselves |
| `IntProps.MultiplyExact` | gl/intprops.h:190-202 | the same for multiplication, with truncating quotients |
| `IntProps.DivideExact` | gl/intprops.h:206-207 | only the lowest value divided by -1 overflows |
| `IntProps.LeftShiftAlmostExact` | gl/intprops.h:225-228 | the test for shifts is right for all values but one, and for that one exactly when the minimum is no multiple of the power of two |
| `IntProps.LeftShiftExact` | gl/intprops.h:225-228 | so it is exact in two's complement |
| `IntProps.LeftShiftOverlooks` | gl/intprops.h:225-228 | and a concrete value is overlooked without the extra negative value |
| `IntProps.BitsStrlenBoundHolds` | gl/intprops.h:105-108 | for every b >= 1 a value up to 2^b has at most (146 b + 484) / 485 decimal digits |
| `IntProps.StrlenBoundHolds` | gl/intprops.h:110-120 | the bound for a whole type, with its sign |
| `Escape.EscapedInjective` | db/fileutil.c:69-96 | different names have different file names |
| `Escape.PlainExactly` | db/fileutil.c:69-96 | the characters left alone are letters, digits, minus and dot |
| `Escape.EscapeText` | db/fileutil.c:69-96 | every other one becomes a percent sign and two digits, the tenth of which is a colon |
| `Escape.EscapedIsComponent` | db/fileutil.c:69-96 | a file name contains no slash, and is "." or ".." only for those names |
| `Escape.EscapeFilename` | db/fileutil.c:69-96 | the loop writes exactly the escaped name and its terminator, inside the allocation |
| `Escape.UnescapeFilename` | db/fileutil.c:47-67 | the loop writes exactly what its rules say, inside the copy |
| `Escape.UnescapedEscaped` | db/fileutil.c:43-96 | unescaping gives the name back exactly when no escaped byte has a digit of ten, which is written as a colon |
| `FileSystem.ResolveEntry` | db/fileutil.c:127-181 | a path name with a slash and a proper component appended leads to that entry |
| `KeyFile.KeyRoundTrip` | db/file.c:417-497 | reading a key file that key_add wrote gives the key without its version number, and without a password if that was empty |
| `KeyFile.EncodedText` | db/file.c:614-624 | the text of a key file: six numbers with spaces between them, a newline, and the four parts of the key |
| `KeyFile.Stream.Scan` | db/file.c:438-440 | one number of fscanf, white space and digits |
| `KeyFile.ReadKey` | db/file.c:436-496 | reading any file content gives the key in it or fails |
| `ShisaDatabase.DefinedExactly` | db/file.c:499-526 | matching is defined on every key of a principal exactly if the hint has no password, or no key that agrees with all its other fields lacks a password |
| `ShisaDatabase.PasswordMissing` | db/file.c:521-522 | a hint with only a password is compared with the null pointer of a key without one; and an empty password in a hint does not match one that is not |
| `ShisaDatabase.FoundByItself` | db/file.c:499-526 | a key that has been added matches itself exactly if it has no version number and no empty password; an empty password makes the comparison undefined |
| `ShisaDatabase.NeverMatched` | db/file.c:504-522 | after every run a hint with a version number selects nothing, and is defined; a hint with an empty password selects nothing |
| `ShisaDatabase.SingleField` | db/file.c:499-526 | a hint with a single field, whichever it is, selects exactly the keys with that value in it |
| `ShisaDatabase.NoField` | db/file.c:499-526 | a hint with none, or with a priority, selects all keys |
| `ShisaDatabase.FieldsCombine` | db/file.c:499-526 | a hint with several selects what all of its fields select one by one, and these decide whether it is defined |
| `ShisaDatabase.EveryField` | db/file.c:499-526 | a hint with every field selects only keys equal to it up to the priority |
| `ShisaDatabase.PasswordDefined` | db/file.c:521-522 | a hint with only a password is defined exactly on keys that all have one |
| `ShisaDatabase.OthersUntouchedByRun` | db/file.c:236-700 | a run that does not concern a principal leaves its keys as they were |
| `ShisaDatabase.RemoveUndoesAdd` | db/file.c:580-700 | removing a key is defined and undoes adding it if the hint selects it and nothing else, and is defined on the other keys |
| `ShisaTree.Listed` | db/fileutil.c:429-468 | what a listing of a realm or of a keys directory shows |
| `ShisaTree.KeysListed` | db/file.c:553-569 | going through the files of a principal once yields its bag of keys |
| `ShisaTree.StandsLookup` | db/fileutil.c:127-161 | looking for the escaped name is looking for the name |
| `ShisaFile.DirectoriesDistinct` | db/fileutil.c:144-161 | different principals have different directories |
| `ShisaFile.FileNameInjective` | db/file.c:603 | file names for different numbers differ |
| `ShisaFile.Backend.FreshName` | db/file.c:600-605 | the loop ends, with a name that is not taken |
| `ShisaFile.Backend.RealmAdd` | db/file.c:221-234 | as the database of maps and bags, in result and effect |
| `ShisaFile.Backend.RealmRemove` | db/file.c:293-315 | as the database; only realms without principals |
| `ShisaFile.Backend.PrincipalAdd` | db/file.c:236-261 | as the database, with or without a first key |
| `ShisaFile.Backend.PrincipalRemove` | db/file.c:377-398 | as the database; a principal that never had a key cannot be removed |
| `ShisaFile.Backend.RemoveKeys` | db/file.c:317-346 | all key files and their directory |
| `ShisaFile.Backend.ReadKeyFile` | db/file.c:417-497 | the key in the file of that name |
| `ShisaFile.KeyMatch` | db/file.c:499-526 | the chain of tests: no match, match, or a call of strcmp with a null pointer |
| `ShisaFile.Backend.KeysFind` | db/file.c:528-578 | undefined exactly if the hint is not defined on all keys, and otherwise exactly the keys that the hint selects, each as often as it is stored |
| `ShisaFile.Backend.KeyAdd` | db/file.c:581-628 | one more key in the bag, in a new file, so that no key is ever overwritten |
| `ShisaFile.Backend.KeyRemove` | db/file.c:646-700 | removes a key only when exactly one is selected, and otherwise tells none from several; undefined only if the hint is not defined on all keys, and then always unless several have been found |
| `ShisaFile.Backend.Perform` | db/file.c:221-700 | every operation refines the step of the database, apart from key removals that are undefined |
| `ShisaFile.Backend.PerformAll` | db/file.c:221-700 | from an empty location every run, up to the first undefined comparison, leaves files that stand for the database that the run leads to |
| `PrintfSpec.ParsedInOrder` | gl/printf-parse.c:134-602 | directives are ordered and disjoint, each starts at a percent sign, and there is none between them |
| `PrintfGrammar.ConversionMeaning` | gl/printf-parse.c:338-579 | the type of an argument from the conversion character and the counts of l, j, z, Z, t, of L and of h alone, both ways: no other type is found, and what means nothing is rejected |
| `PrintfGrammar.SizeFlagsCounted` | gl/printf-parse.c:338-410 | the flags of the size characters are made of these three counts |
| `PrintfGrammar.RegisterExactly` | gl/printf-parse.c:100-132 | a registration is refused exactly for an argument that has another type, and changes no other argument |
| `PrintfGrammar.ItemAccepted` | gl/printf-parse.c:134-602 | a directive is accepted exactly if there is a reading of its text in the right form whose numbers are not too large and whose arguments contradict neither those known before nor each other |
| `PrintfGrammar.ParsedShaped` | gl/printf-parse.c:134-602 | the text of each directive consists of a percent sign, an optional number with a dollar sign, flags, width, precision, sizes and the conversion character, each beginning where the one before ends; the flags recorded are those in the text, the type is the one that sizes and conversion character mean, and each argument is the one named or the next in order |
| `PrintfGrammar.ReadingUnique` | gl/printf-parse.c:134-602 | no directive can be read in two such ways: text and position determine its end, its parts and its arguments |
| `PrintfGrammar.ReadingFound` | gl/printf-parse.c:134-602 | so the parser's reading of a directive is the only one there is |
| `PrintfSpec.ParsedTyped` | gl/printf-parse.c:100-132 | every width, precision and value index is below the count of arguments, and the slot has the type registered, also after all later registrations |
| `PrintfGrammar.ParsedWell` | gl/printf-parse.c:83-632 | all of this for every format that is accepted |
| `PrintfParse.XtimesSaturates` | gl/printf-parse.c:165 | the checked product is exact up to SIZE_MAX |
| `PrintfParse.XsumSaturates` | gl/printf-parse.c:165 | and so is the checked sum |
| `PrintfParse.Parser.ReadNumber` | gl/printf-parse.c:162-165 | the number of a position, saturated, without reading past the terminator |
| `PrintfParse.Parser.ReadPosition` | gl/printf-parse.c:153-175 | a position with its dollar sign, an invalid one, or none |
| `PrintfParse.Parser.RegisterArg` | gl/printf-parse.c:100-132 | the argument gets the type or has it already, conflict is an error, and all stores are inside the array, which may have grown |
| `PrintfParse.Parser.ParseDirective` | gl/printf-parse.c:139-579 | one directive as the specification reads it, error exactly there |
| `PrintfParse.Parser.Append` | gl/printf-parse.c:581-601 | there is always room for one more directive |
| `PrintfParse.Parser.Parse` | gl/printf-parse.c:83-632 | whatever memory allocation does: success only with the directives, arguments and longest fields of the specification, and an error only when it rejects the format |
| `PrintfParse.LongestWidthReached` | gl/printf-parse.c:227-272 | the longest width recorded is the length of one of the widths, and none is longer |
| `PrintfParse.LongestPrecisionReached` | gl/printf-parse.c:284-330 | the same for precisions |

## Left out

- Pbkdf2.Pbkdf2Sha1: when the output buffer is the password itself it allows only one block, since later blocks would be derived from what has overwritten the password.
- Pbkdf2.DeriveBlock: requires an iteration count below 2^32 - 1, because for 2^32 - 1 itself its loop never ends; LoopEnds states this boundary, and Pbkdf2Sha1 gives it an outcome of its own.
- Mktime.FindDst: what it finds where some time in the surroundings cannot be converted is described only for fixed-offset zones.
- Mktime.Probe: how many guesses it takes to find a time that can be found is proved only for fixed-offset zones; elsewhere six may not be enough.
- gl/mktime.c: zones with leap seconds beyond the adjustment at its end, and the repair of overflow for 32-bit time_t (lines 416 to 472).
- Escape.UnescapedEscaped: is no general inverse, since escape_filename writes the digit ten as a colon that unescape_filename does not read back; injectivity still holds.
- InetNtop.Ntop4: the outcome Outside stands for undefined behaviour; what is overwritten then is not described.
- The key database: names that are empty, "." or "..", failing system calls, permissions, races, realm listings as such, the stamps and flags of shisa_file_principal_find, and the choice between several databases in db/core.c.
- ShisaFile.Backend.PerformAll: a run ends where strcmp is called with a null pointer; what happens after that is not described.
- KeyFile.ReadKey: signs in front of numbers, and numbers too large for their type, which key_add never writes.
- FileSystem.System: its directories and files take the place of the operating system; symbolic links are not part of this model.
- Malloca.BlockTable: the contents of blocks, and programs that overwrite the header of a live block; links and magic words are maps from blocks instead of bytes in memory, and malloc is assumed not to hand out live blocks again.
- PrintfParse.Parser: a directive is stored in its array when it is complete instead of field by field; the platform is glibc with 64-bit long, wide characters and long long, without the unistdio extensions and the restriction to ASCII.
- PrintfParse.Parser.Parse: says nothing about the arrays after an error or lack of memory, when the code frees them.
- Crc.UpdateNoXor, Arcfour.Context.SetKey: input that is only read is a sequence.
- Arcfour: keys of length zero, which its documentation forbids.
- gl/des.c: the table of weak keys, and the makekey functions around the setup functions.
- The stream functions of md4, md5 and sha1, gl/gc-gnulib.c and everything that only selects an implementation.
- gl/intprops.h: the macros for operands of mixed types (lines 231 to 320), and the limits of types computed from their size.
- The documentation in db/file.c says that an underscore is not escaped; the code escapes it and leaves dots alone. The model follows the code.
- Secrecy, strength and timing of ciphers and hashes.
