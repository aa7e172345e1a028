# Verified model of GlacialBackup's core

GlacialBackup keeps a local collection of archives and mirrors it to a vault in the cloud. This project models the parts
of it with the most intricate behaviour and proves what they promise:

* the streaming hash (`src/lib_sphash.c`): `SpookyMix`, `SpookyShort`, `SpookyHash` over the 64-bit words of `Words`,
  with `Blocks` for bytes that come in whole blocks;
* the string library (`src/lib_bstrlib.c`): the string itself (`Bstrings`, with `SnapUp` for the sizes of its blocks),
  search (`Search`), replacement in place (`FindReplace`), SGML escaping (`Sgml`), splitting and joining (`Split`),
  input streams (`Streams`, `StreamSplit`), output streams (`WriteStreams`), justification (`Justify`) and the three
  encodings (`Base64`, `YEnc`, `UuCode`, `UuStream`, with `SixBits` for the arithmetic that two of them share);
* the program's own protocols: lists in the properties table (`PropertyList`), the sync to the cloud (`CloudPaths`,
  `UploadOrder`, `VaultTable`, `CloudSync`, `SharedPaths` for files that get into each other's way, and `SyncSteps` for
  runs with crashes) and the check of the archives on disk (`VerifyArchives`).

Code that works in place is imperative here as well: strings are objects with a data block and a length, streams are
objects with a buffer, and their methods are proved against functions on sequences of bytes. What the library promises
is then proved about those functions. `Bytes` holds bytes and the slices that everything uses.

## What the proofs found

* `binstr` is described as a brute-force search; it is a greedy scan for a subsequence that jumps back when the needle
  was found with gaps. `Search` follows the code, and the result is the same first index.
* A list that was stored as one joined string reads back exactly if no entry holds a NUL and it is not the list of one
  empty string (`PropertyList.ReadBackIsExact`).
* A UU decoder for a text that has something behind its last line end which decodes to at least a byte never comes to
  its end: each call hands out something (`UuStream.LastLineAgain`; `LineWithoutEnd` is such a text). `bUuDecodeEx`
  reads until it has the largest number of bytes that an int can count, so its result is filled up with that line
  (`UuStream.BUuDecodeEx`). Where there is nothing like that, the decoder hands out all lines and then nothing more.
* The path in the cloud of a file loses its first character if the root directory has no separator
  (`CloudPaths.CloudPathIs`), and two files whose names differ in nothing but `\` and `/` share one path
  (`CloudPaths.SameCloudPath`, `BackslashInName`). After a sync a file is dirty exactly if it differs from the file
  that was uploaded last to its path, or from what was known of the path before if there is none
  (`CloudSync.SyncMain`). So of two files that differ from each other one is uploaded again at each sync
  (`SharedPaths.SyncRepeatedly`, `SyncBackslash`).
* Where no two files share a path, a sync without refusals leaves nothing to be uploaded exactly if no uploaded file has
  a size, a checksum and a time that are all zero; such a file stays dirty (`CloudSync.SyncThenFind`).
* The check of the archives overlooks an empty name unless a needed name stands before it
  (`VerifyArchives.Verify`, `EmptyNamesAreOverlooked`).

## Model

| member | source | states |
|---|---|---|
| Words.ShiftLeftIsProduct | src/lib_sphash.c:66-68 | a left shift, bit by bit, is multiplication modulo 2^64 |
| Words.ShiftRightIsQuotient | src/lib_sphash.c:66-68 | a right shift, bit by bit, is division by a power of two |
| Words.RotSplit | src/lib_sphash.c:66-68 | the two halves of a rotation share no bit: the low bits move up, the high bits come round |
| Words.RotByBit | src/lib_sphash.c:66-68 | a rotation by k moves each bit up by k places, and from the top round to the bottom |
| Words.UndoRot | src/lib_sphash.c:66-68 | rotating by k and then by 64 - k gives the word back |
| Words.BitAtIs | src/lib_sphash.c:66-68 | bit i is what is odd or even of the quotient by 2^i |
| Words.XorByBit | src/lib_sphash.c:91-121 | the exclusive or of two words has exactly the bits that one of them has and the other has not |
| Words.UndoXor | src/lib_sphash.c:91-121 | exclusive or with the same word twice gives the first word back |
| Words.PlusIsSum | src/lib_sphash.c:91-121 | sum and difference are those of the integers modulo 2^64 |
| Words.UndoPlus | src/lib_sphash.c:91-121 | wrapping addition and subtraction undo each other, both ways |
| SpookyMix.MixIsBijective | src/lib_sphash.c:91-121 | for a fixed data block the mixing program has a two-sided inverse on the twelve variables |
| SpookyMix.Mix | src/lib_sphash.c:91-121 | the thirty-six unrolled assignments compute the twelve steps of the renamed mixing program |
| SpookyMix.EndPartialIsBijective | src/lib_sphash.c:139-156 | one pass of the final mixing has a two-sided inverse |
| SpookyMix.EndPartial | src/lib_sphash.c:139-156 | the unrolled assignments compute that pass |
| SpookyMix.EndIsBijective | src/lib_sphash.c:158-171 | for fixed data the whole final mixing has a two-sided inverse |
| SpookyMix.End | src/lib_sphash.c:158-171 | the data is added to the twelve variables and three passes follow |
| SpookyMix.ShortMixIsBijective | src/lib_sphash.c:188-206 | the mixing of short messages has a two-sided inverse |
| SpookyMix.ShortMix | src/lib_sphash.c:188-206 | the unrolled assignments compute that mixing |
| SpookyMix.ShortEndIsBijective | src/lib_sphash.c:220-237 | the final mixing of short messages has a two-sided inverse |
| SpookyMix.ShortEnd | src/lib_sphash.c:220-237 | the unrolled assignments compute that final mixing |
| SpookyShort.WordByBit | src/lib_sphash.c:276-286 | a word holds its eight bytes in order, the lowest bits first |
| SpookyShort.AddLastBytes | src/lib_sphash.c:300-335 | the fall-through cases add the last bytes of a word as that word padded with zeros, read little-endian |
| SpookyShort.AddTail | src/lib_sphash.c:298-339 | the switch over the remainder adds the tail as a zero-padded block of sixteen bytes and the length in the top byte; without a tail two constants are added |
| SpookyShort.AbsorbGroups | src/lib_sphash.c:276-286 | the loop over groups of thirty-two bytes absorbs all of them in order |
| SpookyShort.ShortHash | src/lib_sphash.c:244-345 | the hash of a short message equals the plain definition over groups, half group and padded tail, for every length |
| SpookyHash.BlockByBit | src/lib_sphash.c:386-421 | the words of a block hold its ninety-six bytes in order |
| SpookyHash.MixedAllAppend | src/lib_sphash.c:361-459 | mixing in blocks one after the other is the same as mixing in their concatenation |
| SpookyHash.MixedAllIsInjective | src/lib_sphash.c:91-121 | two different states never become equal under any common sequence of whole blocks |
| SpookyHash.SpookyState.constructor | src/lib_sphash.c:348-358 | a new state has seen no message and keeps its seeds |
| SpookyHash.SpookyState.TakeBuffer | src/lib_sphash.c:386-421 | the held bytes, topped up to two blocks, are mixed in, and the rest of the fragment starts at a block |
| SpookyHash.SpookyState.TakeBlocks | src/lib_sphash.c:423-459 | all whole blocks are mixed in and the last few bytes held back, which keeps the invariant |
| SpookyHash.SpookyState.Update | src/lib_sphash.c:361-459 | the invariant is kept and the message has grown by the fragment, for every fragment and every state of the buffer |
| SpookyHash.SpookyState.PadLast | src/lib_sphash.c:503-506 | the last block is padded with zeros and its number of bytes put in its last byte |
| SpookyHash.SpookyState.Final | src/lib_sphash.c:462-515 | the four words are those of the one-shot definition for the whole message so far, and the state stays valid for that message |
| SpookyHash.HashInFragments | src/util_audio_tags.c:229-270 | however the message is cut, and wherever the hash is asked for in between, the result is the one-shot hash of the whole message |
| SnapUp.SnapUpSizeIsSmeared | src/lib_bstrlib.c:86-109 | below 2^30 the snapped size is 8 or, from 8 on, what the shifts compute plus one: the least power of two that is greater than what is asked for |
| SnapUp.SmearedIsFull | src/lib_bstrlib.c:93-107 | the shifts set all the bits below the highest one, on words of 32 bits |
| Bstrings.Bstring.Alloc | src/lib_bstrlib.c:115-180 | there is room for olen + 1 bytes, the contents stay, and a request that is not positive is refused |
| Bstrings.Bstring.CatBlk | src/lib_bstrlib.c:441-454 | the block stands behind the old contents, with a NUL behind it |
| Bstrings.Bstring.ConChar | src/lib_bstrlib.c:398-409 | the character stands behind the old contents, with a NUL behind it |
| Bstrings.Bstring.Delete | src/lib_bstrlib.c:1051-1074 | the section, clamped to the string at both ends, is gone and the rest closes up; an error without change exactly if its length is negative |
| Bstrings.Bstring.InsertBlk | src/lib_bstrlib.c:1556-1600 | the block stands between the two parts of the old contents, or behind them and as much fill as is missing; a negative position is refused |
| Bstrings.Bstring.Assign | src/lib_bstrlib.c:500-515 | the contents are those of the operand, in a block that is large enough |
| Search.FirstIsUnique | src/lib_bstrlib.c:1098-1109 | there is at most one first occurrence |
| Search.FirstIs | src/lib_bstrlib.c:1098-1109 | the needle stands at the first occurrence, and no place where it stands comes before it |
| Search.Binstr | src/lib_bstrlib.c:1110-1186 | the result is the least index from pos on where the needle stands in one piece, or -1 exactly if there is none |
| Search.Scan | src/lib_bstrlib.c:1143-1185 | the greedy scan with its skip by two, its jump back and its last-character fix-up loses no occurrence and ends |
| Search.FindChar | src/lib_bstrlib.c:1136-1141 | the peeled-off case of one character finds its first occurrence |
| FindReplace.ReplaceAllLength | src/lib_bstrlib.c:1677-1821 | the length changes by the number of matches times the difference of the two strings |
| FindReplace.ReplaceEqual | src/lib_bstrlib.c:1710-1720 | in-place overwriting equals the functional replacement |
| FindReplace.ReplaceShrinking | src/lib_bstrlib.c:1722-1746 | closing the gaps from the left never damages bytes still to be searched or moved, and equals the functional replacement |
| FindReplace.FindAll | src/lib_bstrlib.c:1762-1796 | the table holds the places of exactly the matches the replacement takes, in order |
| FindReplace.SpreadAll | src/lib_bstrlib.c:1798-1814 | moving the pieces apart from the right, by the table, gives the functional replacement |
| FindReplace.ReplaceExpanding | src/lib_bstrlib.c:1748-1820 | expanding replacement equals the functional replacement |
| FindReplace.BfindReplace | src/lib_bstrlib.c:1677-1832 | for all strings and positions, and also where an operand is the string itself, the contents are those with every match from pos on replaced, left to right and without overlap; errors leave them alone |
| Sgml.ReplaceAllIsSubstituted | src/lib_bstrlib.c:1677-1821 | replacing a single character is the character-wise substitution |
| Sgml.EscapesAre | src/lib_bstrlib.c:3960-3972 | the four characters and their escapes, spelled out |
| Sgml.FourPassesEscape | src/lib_bstrlib.c:3960-3972 | the four whole-string replacements, in their order, escape each original character once and no escape again |
| Sgml.UnescapedEscaped | src/lib_bstrlib.c:3960-3972 | the escaped text can be read back: no two texts have the same escape |
| Sgml.BSGMLEncode | src/lib_bstrlib.c:3960-3972 | the string is changed to the character-wise escape of its old contents |
| Split.BuildCharField | src/lib_bstrlib.c:1392-1400 | the field flags exactly the characters of the string |
| Split.FindBreak | src/lib_bstrlib.c:1408-1416 | the index is that of the first flagged character from p on, or the length |
| Split.BsplitScb | src/lib_bstrlib.c:2733-2759 | the callback is called with exactly the pieces between separators and their offsets, up to the first negative answer, which is returned; a position outside is refused, an empty separator gives the whole string |
| Split.CallsAreUnique | src/lib_bstrlib.c:2733-2759 | pieces and answers determine the calls and the outcome |
| Split.BSplit | src/lib_bstrlib.c:2812-2833 | the entries of the list are the pieces of the string |
| Split.JoinSplit | src/lib_bstrlib.c:2387-2445 | splitting a string at a character and joining the pieces with it gives the string back |
| Split.SplitJoin | src/lib_bstrlib.c:2699-2715 | joining entries that lack the separator and splitting gives the entries back |
| Split.PiecesLackBreaks | src/lib_bstrlib.c:2699-2715 | no piece contains the separator |
| Split.JoinLength | src/lib_bstrlib.c:2397-2422 | the room that is counted first is the length of the joined string |
| Split.CopyEntries | src/lib_bstrlib.c:2428-2439 | copying the entries behind one another fills the block with the joined string |
| Split.BjoinBlk | src/lib_bstrlib.c:2387-2445 | the result is the entries with the separator between them, in a block of just that size |
| PropertyList.ReadBackIsExact | src/dbaccess.c:369-443 | an accepted list reads back as it was if and only if no entry holds a NUL and it is not the list of one empty string |
| PropertyList.RefusedIs | src/dbaccess.c:427-443 | a list is accepted exactly if each separator in an entry stands behind a NUL |
| PropertyList.Properties.SetThenGetStr | src/dbaccess.c:346-406 | a value reads back up to its first NUL, so whole exactly if it holds none, and no other value changes |
| PropertyList.Properties.SetList | src/dbaccess.c:427-443 | the same of the method; the joined string of an accepted list is stored, up to its first NUL, and a refused one changes nothing |
| PropertyList.Properties.GetList | src/dbaccess.c:369-387 | the list is that of the pieces of the stored value, and empty if there is none |
| PropertyList.Properties.SetThenGet | src/dbaccess.c:369-443 | what was stored is what is read, under exactly the condition above |
| Streams.BStream.constructor | src/lib_bstrlib.c:2059-2071 | nothing of the core stream is lost |
| Streams.BStream.Unread | src/lib_bstrlib.c:2365-2368 | the bytes come before everything that was still to come |
| Streams.BStream.ReadLine | src/lib_bstrlib.c:2181-2243 | the part up to and including the first terminator, or all of the rest, is appended; what follows stays to come; an error exactly if nothing was left |
| Streams.BStream.ReadLineFromCore | src/lib_bstrlib.c:2215-2242 | reads into the destination deliver the line, and what was read too far goes to the buffer |
| Streams.BStream.FindFlag | src/lib_bstrlib.c:2198-2200 | the loop without a bound stops at the first terminator, or at the sentinel |
| Streams.BStream.Bsreadlna | src/lib_bstrlib.c:2116-2172 | the same for one terminator |
| Streams.BStream.Bsreadlnsa | src/lib_bstrlib.c:2181-2243 | the same for a set of terminators, and an error without change for none |
| Streams.BStream.Bsreada | src/lib_bstrlib.c:2253-2309 | at most n bytes, in order, go from what is to come to the destination; none only if none were left |
| Streams.BStream.ReadThroughBuffer | src/lib_bstrlib.c:2284-2308 | the buffered path delivers n bytes or all that is left |
| StreamSplit.BssplitScb | src/lib_bstrlib.c:2478-2526 | the callback is called with exactly the pieces and offsets of what was to come, up to its first negative answer, whatever the chunks of the core stream; the stream is left standing behind the last one and its separator |
| StreamSplit.BehindLastIs | src/lib_bstrlib.c:2478-2526 | the content is what was passed, the last piece, its separator and what the stream still has to give; after all pieces nothing is left |
| StreamSplit.SplitBothWays | src/lib_bstrlib.c:2478-2526 | a stream is split into the same entries, with the same outcome, as its whole content in a string, for all chunks and all answers |
| StreamSplit.RunAll | src/lib_bstrlib.c:2116-2309 | in every interleaving of line reads, block reads and unreads each call delivers the front of what was to come and leaves the rest |
| StreamSplit.NothingLost | src/lib_bstrlib.c:2116-2309 | over a run without unreads, what was delivered and what is left make up the content in order |
| WriteStreams.BwriteStream.Flush | src/lib_bstrlib.c:4116-4122 | what is pending is sent as one block; on a refusal, which only the core stream can cause, the stream is at its end |
| WriteStreams.BwriteStream.BuffLength | src/lib_bstrlib.c:4195-4201 | the size is changed only if it is positive, and the old one returned; a negative one is an error |
| WriteStreams.BwriteStream.WriteBstr | src/lib_bstrlib.c:4130-4165 | sent and pending bytes grow by exactly the string, each block sent has at least the minimum size, and less than that is pending; after a refusal, which only the core stream can cause, what was sent is a beginning of what was written |
| WriteStreams.RunWrites | src/lib_bstrlib.c:4103-4201 | over every run of writes, flushes and resizes, sent and pending bytes are all that was written, in order |
| WriteStreams.WriteAndClose | src/lib_bstrlib.c:4209-4221 | after closing, the core stream has all that was written, or a beginning of it if it refused a block itself |
| Justify.JustifyLeft | src/lib_bstrlib.c:3220-3237 | the line becomes its words with one space between them |
| Justify.Squeeze | src/lib_bstrlib.c:3227-3231 | the loop with its two flags, in place, keeps a space exactly behind a character that is none |
| Justify.LeftJustifiedLine | src/lib_bstrlib.c:3220-3237 | left justification keeps the words, which are nonempty and hold no space |
| Justify.NonEmptyAppend | src/lib_bstrlib.c:3220-3306 | nothing but the empty entries is left out of the words, and the order stays |
| Justify.InsertChrs | src/lib_bstrlib.c:3202-3214 | the run of characters stands at pos, behind a fill if the string is shorter; a run that is not positive is refused |
| Justify.RoundedGap | src/lib_bstrlib.c:3294-3296 | a rounded gap is the share or one more, and leaves no gap more than one over the share to the others |
| Justify.RoundedIsNearest | src/lib_bstrlib.c:3294-3296 | the rounded gap is the nearest whole number to the share, the upper one of two |
| Justify.GapsAreNearest | src/lib_bstrlib.c:3291-3302 | each gap is the nearest whole number to an even share of what the gaps before it have left |
| Justify.GapsAreEven | src/lib_bstrlib.c:3291-3302 | each gap is the share rounded down or one more, and together they use up the room |
| Justify.WordsOfSpread | src/lib_bstrlib.c:3291-3302 | spreading words with gaps of at least one space keeps the words and their order |
| Justify.WordStands | src/lib_bstrlib.c:3291-3302 | each word stands behind the words and gaps before it, and right before it there are as many spaces as its gap says |
| Justify.StretchedLine | src/lib_bstrlib.c:3272-3306 | a stretched line has the width exactly, the same words in the same order, gaps of at least one that differ by one at most, each the nearest to its share |
| Justify.Stretch | src/lib_bstrlib.c:3290-3302 | the loop puts the line together with the successively rounded gaps |
| Justify.JustifyMargin | src/lib_bstrlib.c:3272-3306 | a line with room for it is stretched, any other is justified left |
| SixBits.ThreeBytes | src/lib_bstrlib.c:3431-3436 | the three bytes come back from the four values they were cut into |
| SixBits.Sextets | src/lib_bstrlib.c:3437-3441 | the values that the shifts cut out of three bytes are the digits of their number to the base 64 |
| Base64.SymbolIs | src/lib_bstrlib.c:3411-3411 | the symbol of a value is the character at that place of the alphabet of section 5.2 of RFC 1341 |
| Base64.DecodeOfSymbol | src/lib_bstrlib.c:3485-3495 | the decoding of symbols is the inverse of the table, and the pad is no symbol |
| Base64.SkippedOrCut | src/lib_bstrlib.c:3502-3602 | what is no symbol is skipped, and a text that ends within a group is cut there |
| Base64.GroupSpelled | src/lib_bstrlib.c:3417-3480 | the four characters at the place of each group of three bytes are the base-64 digits of their number in that alphabet |
| Base64.EndSpelled | src/lib_bstrlib.c:3417-3480 | one or two bytes that remain are spelled by one digit more than bytes, and pads, and the length of the whole is exact |
| Base64.DecodedEncoded | src/lib_bstrlib.c:3417-3602 | decoding undoes encoding for every string, across padding and line breaks |
| Base64.LinesOfEncoding | src/lib_bstrlib.c:3424-3451 | the line ends stand behind each 76 characters and nowhere else |
| Base64.LineIsShort | src/lib_bstrlib.c:3424-3451 | no line has more than 76 characters, as section 5.2 of RFC 1341 demands |
| Base64.BBase64Encode | src/lib_bstrlib.c:3417-3480 | the result of the loop and the switch spells every group and the last bytes in the alphabet, each at its place, and has exactly the length that takes |
| Base64.BBase64DecodeEx | src/lib_bstrlib.c:3502-3602 | the loop computes the decoding; a text that ends too early gives what there is with the flag set, or nothing if no flag is asked for |
| YEnc.DecodedEncoded | src/lib_bstrlib.c:3875-3954 | decoding undoes encoding for every string |
| YEnc.DecodedLines | src/lib_bstrlib.c:3906-3954 | and also if the code is broken into lines anywhere between the characters |
| YEnc.CodeIs | src/lib_bstrlib.c:3875-3897 | a byte is written 42 places further on, and the four characters that must not be there 106 places behind an escape |
| YEnc.EncodedAppend | src/lib_bstrlib.c:3875-3897 | the code of a string is that of its parts, one after the other |
| YEnc.RefusedBehind | src/lib_bstrlib.c:3906-3954 | a NUL outside an escape is refused wherever it stands, and so is an escape at the end |
| YEnc.EncodedIsPlain | src/lib_bstrlib.c:3875-3897 | the code has no NUL, no CR and no LF in it |
| YEnc.BYEncode | src/lib_bstrlib.c:3875-3897 | the loop computes the encoding |
| YEnc.PutOctet | src/lib_bstrlib.c:3937-3946 | string and staging buffer together grow by one octet, also when the buffer is full |
| YEnc.BYDecode | src/lib_bstrlib.c:3906-3954 | the loop computes the decoding, and refuses a NUL outside an escape and an escape with nothing behind it |
| Words.OrBitsByBit | src/lib_bstrlib.c:3639-3639 | the bitwise or has exactly the bits that one of both words has |
| Words.OrBitsBelow | src/lib_bstrlib.c:3639-3639 | it is as long as the longer one of them |
| UuCode.OrOutOfRange | src/lib_bstrlib.c:3639-3639 | so the one comparison of both values, which may be negative, finds exactly that one of them is out of range |
| UuCode.DecodedLine | src/lib_bstrlib.c:3613-3687 | an encoded line decodes to its bytes and is not bad |
| UuCode.EncodeByteIs | src/lib_bstrlib.c:3836-3867 | the character of a value is that many places behind the space, and the back quote for 0 |
| UuCode.QuadDigits | src/lib_bstrlib.c:3836-3867 | the four characters of three bytes are the digits of their number to the base 64 |
| UuCode.GroupStands | src/lib_bstrlib.c:3836-3867 | each line of the code begins with the character for its length, and each group of three bytes has its four characters at its own place, zeros standing for what is missing at the end |
| UuCode.QuadsArePlain | src/lib_bstrlib.c:3836-3867 | no character of the code is a line end |
| UuCode.LinesOfEncoded | src/lib_bstrlib.c:3613-3867 | an encoded text decodes to itself, line by line, without a bad line and without a line that has no end |
| UuCode.BUuEncode | src/lib_bstrlib.c:3836-3867 | the two loops compute the encoding |
| UuCode.PutGroup | src/lib_bstrlib.c:3632-3676 | one round of the loop decodes one group, repairs what can be repaired and gives up on what cannot |
| UuCode.DecLine | src/lib_bstrlib.c:3613-3687 | the bytes of the line are appended, none if nothing can be made of it; a bad line is counted, or an error if there is no counter |
| UuStream.UuCtx.DecodeLines | src/lib_bstrlib.c:3747-3769 | the lines in the buffer are decoded and taken out of it, and nothing else changes what the decoder will hand out |
| UuStream.UuCtx.Gather | src/lib_bstrlib.c:3746-3773 | lines are read and decoded until there is enough, or no line end comes any more |
| UuStream.UuCtx.DecodePart | src/lib_bstrlib.c:3729-3792 | each call hands out the next bytes of the whole decoding, at most as many as are asked for, and none only at the end |
| UuStream.ReadDecoded | src/lib_bstrlib.c:3713-3719 | reading everything from the decoding stream gives the first INT_MAX bytes of the whole decoding and, if something stands behind its last line end, of that over and over again, whatever the input stream does |
| UuStream.BUuDecodeEx | src/lib_bstrlib.c:3703-3722 | the result is the decoding of all lines with an end, filled up to INT_MAX bytes with what stands behind the last line end, over and over again; with the number of bad lines, if it was not filled up |
| UuStream.EncodeThenDecode | src/lib_bstrlib.c:3703-3867 | every nonempty string survives encoding and decoding with no bad line |
| UuStream.LastLineAgain | src/lib_bstrlib.c:3775-3785 | wherever a decoder stands whose text has something behind its last line end that decodes to at least a byte, each of any number of calls hands out at least a byte |
| UuStream.LastLineOnly | src/lib_bstrlib.c:3775-3785 | called until it fills less than a block, the decoder has handed out all lines with an end, and from there on each call hands out exactly what stands behind the last line end |
| UuStream.LineWithoutEnd | src/lib_bstrlib.c:3775-3785 | there is such a text, of three characters |
| CloudPaths.TopIs | src/op_sync_cloud.c:106-106 | the first directory of all paths in the cloud, spelled out |
| CloudPaths.CloudPathIs | src/op_sync_cloud.c:87-113 | the path goes on with the name of the root directory, whose first character is lost if it has no separator |
| CloudPaths.SameCloudPath | src/op_sync_cloud.c:87-113 | two files under the root have the same path in the cloud if and only if they differ in nothing but the separators |
| CloudPaths.BackslashInName | src/op_sync_cloud.c:87-113 | two different files that do so |
| CloudPaths.LocalPathToCloudPath | src/op_sync_cloud.c:87-113 | replacing the separators and cutting off the front gives that path, or nothing for a file that is not under the root |
| UploadOrder.DigitIs | src/op_sync_cloud.c:241-241 | the digits are the hexadecimal ones, in lower case |
| UploadOrder.HexOrder | src/op_sync_cloud.c:241-241 | numbers of equally many digits compare like their digits |
| UploadOrder.EntryOrder | src/op_sync_cloud.c:666-670 | an entry of a smaller file never comes behind one of a larger file |
| UploadOrder.PathOfEntry | src/op_sync_cloud.c:582-584 | the path comes back out of the entry, whatever characters it has |
| UploadOrder.CompareFlipped | src/lib_bstrlib.c:969-987 | the comparison of two strings changes its sign with their order |
| UploadOrder.CompareIs | src/lib_bstrlib.c:969-987 | the first difference decides, as signed characters; a text that is the front of the other comes first; nothing counts behind a NUL |
| UploadOrder.CompareTransitive | src/lib_bstrlib.c:969-987 | the order is transitive |
| UploadOrder.Sort | src/util_higher.c:778-789 | the entries are kept, each as often as it was there, and of any two of them none comes before one that is smaller |
| UploadOrder.SmallestFirst | src/op_sync_cloud.c:666-670 | in the sorted list the sizes never go down |
| VaultTable.UniqueWithout | src/dbaccess.c:205-215 | deleting keeps one record for each path and vault, and leaves none for the deleted key |
| VaultTable.LookupFinds | src/dbaccess.c:1326-1354 | what is looked up is what a record says, and all zeros exactly stand in for a missing one |
| VaultTable.Database.ByPath | src/dbaccess.c:1326-1354 | the values of the record of that key, or zeros |
| VaultTable.Database.DelByPath | src/dbaccess.c:1356-1373 | the records of that key are gone, the others stay |
| VaultTable.Database.Insert | src/dbaccess.c:1375-1400 | the record is added, and refused exactly if there is one of its key |
| CloudSync.CleanIs | src/op_sync_cloud.c:178-227 | in a table with one record for each key, a file is taken for clean if and only if there is a record of its key that is not all zero and has its checksum, or its size and time |
| CloudSync.Finder.CheckDirty | src/op_sync_cloud.c:178-227 | the method finds exactly that, in terms of the records and the file; the time that is passed does not matter |
| CloudSync.Finder.Callback | src/op_sync_cloud.c:229-265 | a file goes to the dirty or to the clean side, with its entry and its size; one outside the root or too large stops the search |
| CloudSync.Finder.Find | src/op_sync_cloud.c:267-285 | the lists, counters and totals are exactly those of the dirty and the clean files, in the order of the search |
| CloudSync.Finder.EntriesAre | src/op_sync_cloud.c:241-249 | the entries are those of the dirty files and of no others |
| CloudSync.Marked | src/op_sync_cloud.c:566-569 | deleting and inserting changes what is known of that path and of no other |
| CloudSync.MarkSuccessUpload | src/op_sync_cloud.c:556-572 | the record is replaced by that of the file as it is, and the insertion is never refused; if the file cannot be read or the deletion fails nothing changes, and if the database fails at the insertion the old record is gone |
| CloudSync.UploadOne | src/op_sync_cloud.c:574-631 | the file is uploaded exactly if it exists and the cloud takes it; then the last archive in the cloud has the content of the file and the description of its path and time, its record is that of the file, and else nothing changes |
| CloudSync.TakenOfList | src/op_sync_cloud.c:678-684 | the files that the cloud takes are files of the list, and all of them if it refuses none |
| CloudSync.KnownStep | src/op_sync_cloud.c:556-572 | each upload makes the file the last one under its path, and leaves what is known of all other paths |
| CloudSync.RecordsFit | src/op_sync_cloud.c:556-631 | for the path of each uploaded file there is an archive in the cloud of exactly the size and the checksum that are recorded |
| CloudSync.UploadAll | src/op_sync_cloud.c:678-684 | the cloud is asked once for each file; archive k behind the old ones has the content of the k-th file it takes and the description of its path; the records fit the archives, and what is known of each path is the last of these files under it, or what was known before |
| CloudSync.UploadFound | src/op_sync_cloud.c:660-684 | the sorted list names exactly the dirty files, and only dirty files are uploaded, all of them if the cloud refuses none |
| CloudSync.SyncMain | src/op_sync_cloud.c:574-684 | for all files, answers and refusals, and however files share paths in the cloud: the contents and descriptions of the files taken arrive in order, records and archives fit, and a file is dirty afterwards if and only if it differs from the file uploaded last under its path, or from what was known of the path before if there is none |
| CloudSync.DirtyWhereDistinct | src/op_sync_cloud.c:574-684 | where files do not share paths, an uploaded file is dirty exactly if its values are all zero, and any other exactly if it was dirty before |
| CloudSync.SyncThenFind | src/op_sync_cloud.c:267-684 | where files do not share paths and the cloud refuses nothing, the next search finds nothing if and only if no dirty file has values that are all zero |
| SharedPaths.OneDiffers | src/op_sync_cloud.c:556-631 | of two files that share a path and differ from each other one is dirty, whichever was uploaded last |
| SharedPaths.SyncOnce | src/op_sync_cloud.c:556-684 | a sync that begins with one of them dirty uploads one of them and ends with one of them dirty |
| SharedPaths.SyncRepeatedly | src/op_sync_cloud.c:556-684 | in any number of syncs without refusals and without changes of the files each one uploads one of them again |
| SharedPaths.SyncBackslash | src/op_sync_cloud.c:87-684 | and so it is with the two files of `BackslashInName`, from an empty table on, if their contents differ in size and checksum |
| SyncSteps.StepKeepsInvariant | src/op_sync_cloud.c:556-572 | each step of the sync, change of a file and crash keeps the invariant of table and history |
| SyncSteps.RunKeepsInvariant | src/op_sync_cloud.c:556-631 | in every run there is at most one record for each path and vault, and each stems from an upload |
| SyncSteps.InsertionSucceeds | src/op_sync_cloud.c:566-569 | in every run an insertion finds its key free and makes the record that of the file |
| SyncSteps.CleanMeansUploaded | src/op_sync_cloud.c:178-227 | in every run a file is found clean only if an upload under its path has its checksum, or its size and time |
| SyncSteps.WrittenAfterUpload | src/op_sync_cloud.c:178-227 | after a marked upload and any new version of the file it is clean if and only if the record is not all zero and the checksum, or size and time, are as they were |
| SyncSteps.TouchedIsClean | src/op_sync_cloud.c:200-208 | a file that is touched after its upload and not changed is not uploaded again |
| SyncSteps.CrashAfterDeletion | src/op_sync_cloud.c:566-569 | after a crash between deletion and insertion the file is found dirty |
| VerifyArchives.OrderByOrdered | src/dbaccess.c:475-479 | the rows come in the order of their bytes |
| VerifyArchives.Between | src/dbaccess.c:475-479 | what stands between two rows with a common front has that front |
| VerifyArchives.Contiguous | src/user_config.c:854-863 | the rows of one name stand together, so it is enough to remember the last name |
| VerifyArchives.BeforeEmpty | src/user_config.c:854-863 | which names stand before an empty one |
| VerifyArchives.NoLongerNeededIs | src/user_config.c:816-829 | the mark of an archive that is no longer needed, spelled out |
| VerifyArchives.MismatchesAre | src/user_config.c:831-916 | a name is counted if and only if it is the name of a row, no row of it has the mark, and its file is missing or differs from the checksums of all rows of that name; an empty name only behind another needed one |
| VerifyArchives.OtherRowsDoNotMatter | src/user_config.c:831-916 | a row of another name changes nothing for a name that is not empty |
| VerifyArchives.EmptyNamesAreOverlooked | src/user_config.c:854-863 | where all names are empty nothing is counted |
| VerifyArchives.RowIsWellFormed | src/dbaccess.c:445-507 | a row that was written can be read exactly if neither the name nor the checksum has an equals sign, and then reads as what was written |
| VerifyArchives.WriteThenGet | src/dbaccess.c:445-507 | what was written is among what is read from the whole table, in the same place of both lists |
| VerifyArchives.ArchivesTable.GetChecksums | src/dbaccess.c:475-507 | names and checksums of all rows in order, and an error exactly if a row has not one equals sign |
| VerifyArchives.VerifyArchiveChecksum | src/user_config.c:798-814 | whether name and checksum stand at the same place of the two lists |
| VerifyArchives.ArchiveNeeded | src/user_config.c:816-829 | whether no place of the lists has that name and the mark |
| VerifyArchives.DupeOrNew | src/user_config.c:854-863 | a needed name that is not the one remembered is new, and the one remembered is not new or does not count |
| VerifyArchives.CountMismatches | src/user_config.c:852-900 | the loop counts each name that counts once |
| VerifyArchives.Verify | src/user_config.c:831-916 | the counter grows by the number of distinct needed names whose file is missing or has none of the recorded checksums, an empty name counting only behind another |

## Left out

- The C type int: lengths and positions are unbounded here, so the tests for overflow in `src/lib_bstrlib.c` and strings longer than an int can count are not modelled, except that `UuStream.ReadDecoded` stops at the largest int.
- SnapUp.SnapUpSizeIsSmeared: is about sizes below 2^30; from there on the shifts overflow and the source keeps the size that was asked for.
- Failed allocations, null arguments, invalid headers and write-protected strings: all operations get valid strings and enough memory.
- Aliasing: different operands have different blocks, so headers that refer into the memory of another string are not modelled; nor are the copies that `bconcat` and `binsert` make of an operand that is the string itself. (`FindReplace.BfindReplace` has those of `findreplaceengine`.)
- The unaligned reads of `src/lib_sphash.c` and the byte order of other machines: words are read little-endian.
- SpookyHash.SpookyState.Update: requires that the whole message stays shorter than 2^64 bytes, which is what the length field can count.
- Bstrings.Bstring.Alloc: does not model which of the two strategies, reallocating or copying, is tried first, because both keep the contents.
- Split.BuildCharField: flags are one for each character, which is the source's own alternative to bits in longer words.
- The growth of the entry table of a string list: a list is a sequence that grows.
- StreamSplit.BssplitScb: its callback gives any answer but does not read from the stream or give bytes back to it.
- Streams.BStream.Bsreada: does not say how many bytes a direct read delivers, because the core stream decides that.
- Streams.CoreStream.Read: returns at least one byte until its content ends; a read function that answers 0 earlier, or more than it was asked for, is not modelled.
- Replacement without regard to case: `findreplaceengine` is modelled with `binstr` only.
- `bssplitstrcb`: at the end of the stream it hands the whole rest of the buffer to the callback without splitting it.
- UuStream.UuCtx.DecodePart: does not model a decoding stream without a counter, where a bad line stops the stream but stays in its buffer; `UuCode.DecLine` has both.
- UuCode.IsSpace: is that of the C locale.
- CloudPaths.LocalPathToCloudPath: requires a root that is not empty and does not end with a separator, because the program stops otherwise.
- UploadOrder.Sort: promises no more than the order and the entries, as `qsort` does, whose algorithm is not part of this model.
- The retry prompt of an upload, the command line tool that uploads, the inventory of the vault and the user interface.
- CloudSync.UploadOne: has no failure between the upload and the end of its marking, which `CloudSync.MarkSuccessUpload` and `SyncSteps` have; a file does not change during its own upload, and the description of an archive is a function of its path and time.
- VaultTable.Database.Insert: is a contract of SQLite's UNIQUE constraint, whose engine is not part of this model; nor are the preparing and binding of statements.
- VerifyArchives.Verify: does not model a file that exists but cannot be read, nor the messages that are shown when no counter is given; rows hold no NUL.
- Vaults, regions and credentials, the backup, restore and compact operations, the archiver, formatted output (`bformat`), and the trimming, comparing and case-changing functions of the string library, which would add only easy members.
