# Verified cores of the OceanBase / MariaDB C client

A Dafny 4.11 model of the self-contained algorithms of the client library, with proofs about all inputs and all
runs. `dafny verify dfyconfig.toml` checks everything.

- **Hash table** (`Hash*.dfy`, `OBHash.dfy`): linear hashing in one array whose chains are threaded through it by
  index. Insertion splits one bucket and deletion merges one, both in place around a single moving free slot. The
  invariant (homes, links, ranks) is stated slot by slot; the meaning is a multiset of records.
- **Number printing** (`Big*.dfy`, `QuoRem.dfy`, `Pow5.dfy`, `Digits.dfy`, `DtoaLoop.dfy`, `Dtoa.dfy`,
  `SmallInteger.dfy`, `DoubleBits.dfy`, `Decimals.dfy`, `Printing.dfy`, `Floats.dfy`, `Scaling.dfy`, `QuickPath.dfy`,
  `DoublePrinting.dfy`, `ReadBack.dfy`): `dtoa` in all its modes, from the two words of a double to a decimal, on its
  three paths: double arithmetic with its error bound and a proof of when it is enough, exact integers below 10^15, and arbitrary-precision integers on
  32-bit words. What is printed is stated in real numbers: the shortest decimal among the reals that round to the
  double, or the double rounded half-even at the place asked for.
- **Packets** (`Bytes.dfy`, `Packets.dfy`, `Frames.dfy`, `Pvio.dfy`, `Net.dfy`, `Conversation.dfy`): the buffering
  writer, the reassembling reader, the compressed protocol and the read-ahead cache, over a transport that moves any
  number of bytes per call. The wire format is stated byte by byte.
- **SHA-1** (`Sha1*.dfy`): the streaming, unrolled implementation against FIPS 180-4, whose published one-block example
  is proved of the definitions.
- **Nested values** (`Complex*.dfy`): decoding of objects and collections into one buffer, with size accounting.
- **64-bit integers as text** (`Integers.dfy`), **memory root** (`MemRoot.dfy`), **string escaping** (`Charsets.dfy`,
  `Escape.dfy`).

Many proofs work with a loop state that is a named predicate and three lemmas (it holds at the start, a turn keeps
it, at the end it says what was wanted); `hide` keeps definitions a proof does not use out of its way.

Where the code differs from its own comments, or does not do what its callers rely on, the code is followed, the
failing input is given and the exact condition is proved:

- `hash_update` does not restore the table for every record. `HashUpdate.UpdateLink` states exactly when it does, and
  `HashUpdate.UpdateCanFail` gives a table on which it does not.
- The comment above `dtoa` says that trailing zeros are suppressed. For an integer below 10^15 a zero at the last digit
  asked for is kept when it is not rounded up and double arithmetic has given up, as it always does on a tie:
  `DoublePrinting.PrintDouble` states exactly when, and `DoublePrinting.ZeroStaysThere` is an example, 1005 to three
  digits in mode 4.
- The same comment says of modes 4 and 5 that they apply the tests of mode 0. Up to 14 digits they do not: double
  arithmetic comes first, and what it finds is the double rounded at the place asked for, not the shortest decimal.
- Double arithmetic gives up near a tie, and in one more case: modes 3 and 5 where one digit is asked for by the estimate
  of the exponent and the estimate turns out one too great. `DoublePrinting.PrintDouble` states both conditions; the
  second is exact but for doubles within 14 parts in 2^53 of the power of ten.
- In the compressed protocol a packet that ends with an empty chunk (a multiple of 0xFFFFFF bytes) is read correctly,
  but then the byte to be restored by the next read is saved from four bytes too early. If the frame with the empty
  chunk brings more data, the first byte of that data becomes zero. `Conversations.Receive` states exactly when,
  `Conversations.ByteIsLost` gives such a stream, and `Conversations.ReceiveTwo` proves that the next packet comes back
  if and only if that byte was zero anyway. The branch that moves the buffer without moving `current` is never
  taken: `Nets.WholeChunk`.
- A frame that cannot be decompressed is not reported as an error by `ma_net_read`, because the loop is left by `break`
  and not by the `return` behind it. `Nets.Net.ReadCompressed` states exactly when this happens and what is returned
  instead; `Conversations.NotCompressed` is such a stream.
- The first buffer of a connection has no room behind `max_packet`, one that has grown has. `Nets.Net.ReadFrame` states
  exactly when the header of a frame is still inside. Without compression the reader stays inside for every first
  buffer that holds a header and is not larger than a chunk.
- `ma_SHA1Update` has a 32-bit index. `Sha1s.StopsInTime` proves that its loop stops when all blocks are done and not
  before, if and only if `Sha1s.InRange`; `Sha1s.IndexWraps` is an input that is not in range.

A comment in the source expects that the shortest-digit loop rounds up a nine only as the first digit. It does:
`DtoaLoop.Gen.NineIsFirst`.

## Model

| member | source | states |
|---|---|---|
| HashMasks.MaskIsMod | libmariadb/ma_hash.c:103-107 | for a power-of-two range that is half to fully in use, the masked hash is the remainder modulo the range, or modulo half of it when that bucket does not exist yet, and always names a bucket in use |
| HashMasks.GrowMask | libmariadb/ma_hash.c:300-319 | one more bucket changes the bucket of exactly those hash numbers of one old bucket whose next bit is set |
| HashMasks.DoubleMask | libmariadb/ma_hash.c:408-409 | doubling the range when it is full changes no bucket |
| HashMasks.ShrinkMask | libmariadb/ma_hash.c:441-462 | one bucket less, with the range halved or not, sends exactly the last bucket to its lower one |
| HashWalk.MoveLink | libmariadb/ma_hash.c:261-271 | of all links exactly the one that led to `find` is redirected; the walk runs off the chain if and only if `find` is not on it |
| HashSplit.SplitBucket | libmariadb/ma_hash.c:302-381 | the loop that splits a bucket leaves one free slot, every other slot linked in the chain of its new bucket, and the same records |
| HashTables.PlaceRecord | libmariadb/ma_hash.c:382-407 | the new record goes to its home slot whatever is there, all chains stay intact and one record is added |
| HashTables.InsertLink | libmariadb/ma_hash.c:286-411 | split and placement together keep the invariant for one bucket more and add exactly the record |
| HashTables.FindRecord | libmariadb/ma_hash.c:430-439 | the chain walk finds the record if and only if the table holds it, with its predecessor |
| HashTables.Unlink | libmariadb/ma_hash.c:445-454 | unlinking leaves exactly one free slot and all other records |
| HashMerge.FillFromLast | libmariadb/ma_hash.c:456-493 | each of the five merge cases empties the last slot, links everything for one bucket less and keeps the records |
| HashTables.ShrinkTable | libmariadb/ma_hash.c:441-497 | the table with one slot less is good again for the halved or kept range |
| HashTables.DeleteLink | libmariadb/ma_hash.c:420-500 | deletion fails without change if and only if the record is absent, otherwise removes exactly one occurrence |
| HashUpdate.UpdateLink | libmariadb/ma_hash.c:507-568 | the table is good for the new key with the same records if and only if the record keeps its bucket, or is stored once and does not free its new home slot; the not-found result is exact |
| HashUpdate.UpdateCanFail | libmariadb/ma_hash.c:551-566 | a concrete table and key change on which the update does not restore the table |
| OBHash.HashTable.constructor | libmariadb/ma_hash.c:45-67 | a new table is valid and empty |
| OBHash.HashTable.Insert | libmariadb/ma_hash.c:286-411 | adds exactly the record and keeps the invariant, or fails unchanged without memory |
| OBHash.HashTable.Delete | libmariadb/ma_hash.c:420-500 | removes exactly the record, or reports that it was not there and changes nothing |
| OBHash.HashTable.Update | libmariadb/ma_hash.c:507-568 | as `UpdateLink`, on the object, the exact not-found condition included |
| OBHash.HashTable.Search | libmariadb/ma_hash.c:201-231 | succeeds if and only if a record with the key is present, and positions on the first in chain order |
| OBHash.HashTable.Next | libmariadb/ma_hash.c:236-256 | the next record with the key in chain order, or none |
| OBHash.HashTable.FindAll | libmariadb/ma_hash.c:201-256 | a search followed by `hash_next` until it fails lists every slot with the key exactly once |
| OBHash.HashTable.Run | libmariadb/ma_hash.c:286-500 | after any run of insertions and deletions the table is valid and holds the multiset the run describes |
| OBHash.BucketIsChain | libmariadb/ma_hash.c:103-115 | every bucket is one acyclic chain headed at its home slot with exactly the records of that bucket; a bucket whose home slot holds another record is empty |
| BigLoops.MulAddWords | libmariadb/ma_dtoa.c:726-732 | the multiply-and-add loop is exact, with the carry out |
| BigLoops.MulAccWords | libmariadb/ma_dtoa.c:880-889 | the inner multiplication loop adds a word times a number at an offset and changes nothing else |
| BigLoops.SubMulWords | libmariadb/ma_dtoa.c:1184-1194 | the subtraction loop of `quorem`: difference, carry and borrow account for q times s exactly |
| BigLoops.ShiftWords | libmariadb/ma_dtoa.c:1001-1012 | the shift loop multiplies by a power of two, with the bits shifted out |
| BigLoops.DiffWords | libmariadb/ma_dtoa.c:1080-1094 | the two subtraction loops leave the difference up to the final borrow |
| BigLoops.CompareWords | libmariadb/ma_dtoa.c:1032-1044 | comparing words from the top decides the order of the numbers |
| Bigints.FromInt | libmariadb/ma_dtoa.c:835-843 | the number of one word |
| Bigints.MultAdd | libmariadb/ma_dtoa.c:715-746 | b * m + a for every b, growing when the carry needs room; no leading zero word appears |
| Bigints.Mult | libmariadb/ma_dtoa.c:848-896 | the product, in an object that always has room, without leading zero words |
| Bigints.LShift | libmariadb/ma_dtoa.c:984-1021 | b * 2^k for every k; the room asked for suffices |
| Bigints.Cmp | libmariadb/ma_dtoa.c:1024-1045 | the sign of the difference; lengths decide between a zero of no words and one of one word |
| Bigints.Diff | libmariadb/ma_dtoa.c:1048-1099 | the absolute difference, with the sign set if and only if the second is greater |
| QuoRems.Estimate | libmariadb/ma_dtoa.c:1181 | with four leading zero bits in the divisor the quotient of leading words is right or one too small |
| QuoRems.QuoRem | libmariadb/ma_dtoa.c:1168-1229 | returns a digit q with old b = q * S + b and b below S |
| QuoRems.QuotientIsFloor | libmariadb/ma_dtoa.c:1168-1229 | such q and rest are the floor quotient and the remainder |
| Pow5s.P5Table | libmariadb/ma_dtoa.c:904-936 | table entry i is 5^(4 * 2^i) |
| Pow5s.MultBy625Power | libmariadb/ma_dtoa.c:952-977 | the loop over the bits of the exponent, by table and then by squaring, multiplies by 625^k |
| Pow5s.Pow5Mult | libmariadb/ma_dtoa.c:940-981 | b * 5^k for every k |
| Digits.RoundOff | libmariadb/ma_dtoa.c:1889-1897 | one unit more in the last place, through any number of nines; all nines become a single one |
| Digits.TrimZeros | libmariadb/ma_dtoa.c:1904-1905 | trailing zeros go, the value stays |
| DtoaLoop.Decide | libmariadb/ma_dtoa.c:1790-1847 | what the stopping tests decide is justified by the margins, and if both neighbours are inside them the nearer is taken, except for a nine with ten exactly at the upper end |
| DtoaLoop.Gen.NearestTen | libmariadb/ma_dtoa.c:1799-1845 | a nine that is rounded up goes to the nearest decimal, except between both ends of the margins |
| DtoaLoop.RoundsUp | libmariadb/ma_dtoa.c:1822-1825 | up if and only if the rest is more than half, or half with an odd digit |
| DtoaLoop.RoundLast | libmariadb/ma_dtoa.c:1885-1906 | the decimal is the number rounded half-even to its length, written without trailing zeros |
| DtoaLoop.TimesTen | libmariadb/ma_dtoa.c:1853-1860 | number and margins times ten, margins that are one object staying one |
| DtoaLoop.LeftRight | libmariadb/ma_dtoa.c:1787-1862 | ends with a decimal inside the margins such that no shorter one is inside and none of its length is nearer (but for that nine), or, when no decimal of `ilim` digits is inside, with the number rounded half-even to `ilim` digits; no trailing zeros |
| DtoaLoop.Gen.NineIsFirst | libmariadb/ma_dtoa.c:1838-1844 | a nine has to be rounded up only as the first digit |
| DtoaLoop.FixedDigits | libmariadb/ma_dtoa.c:1864-1906 | the exact digits if the number ends early, otherwise the number rounded half-even to `ilim` digits; no trailing zeros |
| Dtoa.Hi0Bits | libmariadb/ma_dtoa.c:749-780 | the number of leading zero bits |
| Dtoa.ShiftDivisor | libmariadb/ma_dtoa.c:1724-1743 | the chosen shift gives the divisor exactly four leading zero bits |
| Dtoa.Exponents | libmariadb/ma_dtoa.c:1658-1674 | the exponents of two and five of number, divisor and margin keep their ratios to the double and to half a unit in its last place |
| Dtoa.MarginExponents | libmariadb/ma_dtoa.c:1698-1713 | below a power of two the lower margin is half the upper one |
| Dtoa.CheckEstimate | libmariadb/ma_dtoa.c:1744-1754 | an estimate one too great is corrected, after which the first digit is 1 to 9 |
| Dtoa.Margins | libmariadb/ma_dtoa.c:1772-1785 | the scaled margins, one object or two |
| Dtoa.Prepare | libmariadb/ma_dtoa.c:1658-1754 | number and divisor, normalised and with the estimate corrected, stand for the double divided by 10^k |
| Dtoa.FinishOperands | libmariadb/ma_dtoa.c:1770-1785 | the operands of the digit loop stand for the double, its margins and the power of ten |
| Dtoa.NormalMode | libmariadb/ma_dtoa.c:1439-1452 | modes out of range are mode 0, modes 6 to 9 are modes 2 to 5 |
| Dtoa.Limits | libmariadb/ma_dtoa.c:1453-1476 | the digits asked for, for the estimated decimal exponent and for the corrected one |
| Dtoa.ShortestDigits | libmariadb/ma_dtoa.c:1658-1906 | modes 0, 1, 4 and 5: the digits and decimal point are those of a decimal as in `LeftRight`, or in mode 5 those of `NoPlaces`, for the double given by mantissa and exponent |
| Dtoa.NoPlaces | libmariadb/ma_dtoa.c:1756-1769 | when the last place asked for is left of the first digit: a one or nothing, as half-even rounding at that place says, with the decimal point at that place |
| Dtoa.RoundedDigits | libmariadb/ma_dtoa.c:1658-1906 | modes 2 and 3: the double itself, the double rounded half-even to the digits asked for, or the result of `NoPlaces` |
| DoubleBits.Lo0Bits | libmariadb/ma_dtoa.c:783-830 | trailing zero bits counted and shifted out |
| DoubleBits.D2B | libmariadb/ma_dtoa.c:1102-1149 | for every nonzero double, normal or not: odd significand, exponent and bit length |
| DoubleBits.DoubleDigits | libmariadb/ma_dtoa.c:1658-1906 | from the two words of the double to a result as in `ShortestDigits`, with half a unit in the last place as margin |
| Decimals.WithinIff | libmariadb/ma_dtoa.c:1787-1862 | the integer margins of the digit loop are the interval of reals, divided by a power of ten |
| Decimals.RoundedOnce | libmariadb/ma_dtoa.c:1283-1289 | rounding half-even at a place has one result, so what modes 2 and 3 print is determined |
| SmallIntegers.IntegerDigits | libmariadb/ma_dtoa.c:1612-1655 | the digit loop for integers below 10^15 ends after at most all digits, with the integer or with it rounded half-even, and keeps a zero exactly if the integer goes on behind it without being rounded up |
| SmallIntegers.SmallInteger | libmariadb/ma_dtoa.c:1598-1656 | the whole path for such integers, with a single one or no digits where no place is left |
| Printing.EstimateIsGood | libmariadb/ma_dtoa.c:1405-1415 | an estimate of the decimal exponent that is right, or at most one too great where checked, is what the code after it needs |
| Printing.NotBothEnds | libmariadb/ma_dtoa.c:1799-1809 | no double has ten at the upper end and nine within its margins, so the nearest decimal is taken always |
| Printing.IntegerPrints | libmariadb/ma_dtoa.c:1598-1656 | the small-integer path keeps the promise of every mode |
| Printing.PrintShortest | libmariadb/ma_dtoa.c:1658-1906 | modes 0, 1, 4 and 5 on the arbitrary-precision path, for every nonzero double, as in `PrintDouble` |
| Printing.PrintRounded | libmariadb/ma_dtoa.c:1658-1906 | modes 2 and 3 on the arbitrary-precision path, for every nonzero double and every number of digits, negative ones included, as in `PrintDouble` |
| Floats.NearFloat | libmariadb/ma_dtoa.c:1486-1596 | an operation that is rounded to a nearest double errs by at most one part in 2^53, but for numbers that are not normal |
| Floats.RoundingExists | libmariadb/ma_dtoa.c:1486-1596 | there is such an arithmetic: every real has a nearest double |
| Scaling.ScaleDown | libmariadb/ma_dtoa.c:1494-1514 | division by 10^k through the tables, with at most as many roundings as `ieps` accounts for, for every double and k; up to 10^22 the divisor is exact |
| Scaling.ScaleUp | libmariadb/ma_dtoa.c:1515-1526 | the same for multiplication, also of numbers that are not normal |
| QuickPath.Epsilon | libmariadb/ma_dtoa.c:1536-1537 | the tolerance covers the error of the scaling and of the digit loop, and is at most 175 parts in 2^53 |
| QuickPath.QuickShortest | libmariadb/ma_dtoa.c:1548-1566 | if the loop of modes 4 and 5 stops, the digits are less than half a unit of the last digit asked for away from the number, and have no trailing zeros; if it gives up, the scaled number is within the error bounds of a tie at that digit |
| QuickPath.QuickFixed | libmariadb/ma_dtoa.c:1567-1590 | the same for the loop of modes 2 and 3 |
| QuickPath.TryQuick | libmariadb/ma_dtoa.c:1486-1596 | what the whole quick path finds, with the estimate corrected or not, and with no digit asked for; it finds nothing only if the number is within twice the greatest error bound of a tie at the place asked for, or the correction of the estimate leaves no digit |
| QuickPath.GaveUp | libmariadb/ma_dtoa.c:1536-1590 | where a digit loop gives up the first digit is not in doubt, and the number itself is that near to a tie |
| QuickPath.AtTrueLead | libmariadb/ma_dtoa.c:1527-1535 | a number so near to a power of ten that its first digit was mistaken is still rounded at the place of its true first digit |
| DoublePrinting.SettleEstimate | libmariadb/ma_dtoa.c:1409-1415 | the estimate is exact afterwards wherever the power of ten is a double |
| DoublePrinting.PrintQuick | libmariadb/ma_dtoa.c:1486-1596 | the quick path succeeds whenever it is tried with some digits and the double is not within 350 parts in 2^53, relative to its first digit, of a tie at the place asked for; whenever it succeeds, the result is the double correctly rounded to the digits or at the place asked for, less than half a unit away, without trailing zeros |
| DoublePrinting.TieGivesUp | libmariadb/ma_dtoa.c:1486-1596 | on a tie the quick path does not succeed |
| DoublePrinting.QuickThere | libmariadb/ma_dtoa.c:1486-1596 | 1001 in mode 4 to three digits is printed as one digit |
| DoublePrinting.ZeroStaysThere | libmariadb/ma_dtoa.c:1624-1653 | 1005 in mode 4 to three digits is printed with a trailing zero |
| DoublePrinting.PrintDouble | libmariadb/ma_dtoa.c:1324-1922 | every double in every mode. Modes 0 and 1: the decimal is in the rounding interval, no coarser one and none with fewer digits is, and none in it with as many digits is nearer. Modes 2 and 4 ask for the place ndigits - 1 below the first digit, at least the first digit itself, and modes 3 and 5 for the place 10^-ndigits. Modes 2 and 3: the double rounded half-even at that place, and no digit beyond. Modes 4 and 5: the double so rounded if double arithmetic succeeds; otherwise as modes 0 and 1 if a decimal that ends at that place is in the interval, and rounded if none is. Double arithmetic succeeds for up to 14 digits unless the double is too near to a tie there. Trailing zeros exactly in the one case of `ZeroStays`, on the other paths never. Infinities, NaN and zero |
| ReadBack.RoundsToDouble | libmariadb/ma_dtoa.c:1277-1283 | every real of the rounding interval is nearer to its double than to any other double, or as near when the significand is even |
| ReadBack.ReadsBack | libmariadb/ma_dtoa.c:1277-1283 | so what modes 0 and 1 print is read back as the double |
| Packets.ParseChunks | libmariadb/ma_net.c:201-227 | parsing the chunks of a payload gives the payload and what follows it, for every length below the limit, multiples of the chunk size included, with the last sequence number |
| Packets.ChunksOnWire | libmariadb/ma_net.c:194-227 | the chunks are the only bytes in the wire format: for each chunk three bytes of length, the least significant first, a byte that counts, and the payload; a chunk of 0xFFFFFF bytes is followed by another one |
| Packets.WireReads | libmariadb/ma_net.c:575-603 | bytes in that format are read as the payload they stand for, whatever follows |
| Frames.FrameReads | libmariadb/ma_net.c:459-480 | a frame gives back its content whether or not it was compressed |
| Frames.FrameBytes | libmariadb/ma_net.c:459-480 | the bytes of a frame: two lengths, the least significant byte first, with a byte that counts between them, and the body; content below 50 bytes or that compression does not make shorter is sent as it is with the second length 0 |
| Frames.PlainFrame | libmariadb/ma_net.c:459-480 | a frame appended to whole frames appends its content |
| Pvios.Pvio.CacheRead | libmariadb/ma_pvio.c:273-310 | bytes returned and bytes still cached are the bytes taken from the transport, in order, for every length and every fragmentation; what is cached is returned without a call of the transport, otherwise there is exactly one, for 16384 bytes if fewer than 2048 are asked for |
| Nets.Net.constructor | libmariadb/ma_net.c:87-117 | a fresh connection is valid with nothing written |
| Nets.Net.RealWrite | libmariadb/ma_net.c:376-506 | everything reaches the wire, in one frame if compressed, whose bytes are stated, or the connection is marked unusable |
| Nets.Net.WriteBuff | libmariadb/ma_net.c:283-370 | bytes handed over and bytes buffered are all bytes written, in order; the buffered amount stays within capacity; nothing is sent while there is room, otherwise at least all that was buffered |
| Nets.Net.Write | libmariadb/ma_net.c:201-227 | appends the chunks of the payload, numbered consecutively: the bytes of length, number and payload are stated for every chunk |
| Nets.Net.WriteCommand | libmariadb/ma_net.c:229-280 | as for the payload with the command byte in front, bytes included; numbers are zero when compressed |
| Nets.Net.Flush | libmariadb/ma_net.c:171-188 | nothing stays buffered and nothing is lost |
| Nets.Net.Realloc | libmariadb/ma_net.c:135-158 | fails exactly from the limit on, otherwise grows to a multiple of the I/O size and has room for a header behind it |
| Nets.Net.RealRead | libmariadb/ma_net.c:511-573 | one chunk or frame of the stream at the write position, with its lengths from the first bytes of the stream, or exactly which error; nothing is written beyond the buffer if and only if the header fits |
| Nets.Net.ReadUncompressed | libmariadb/ma_net.c:575-603 | exactly what the reference parser says of the byte stream, errors included, however it is fragmented; nothing is written beyond the buffer |
| Nets.Net.ReadFrame | libmariadb/ma_net.c:702-799 | one more frame is decompressed behind what is in the buffer, or found not to be compressed data; everything stays inside the buffer if and only if the header fits |
| Nets.Net.CollectPacket | libmariadb/ma_net.c:645-795 | frames are read until the buffer holds the packet that the reference parser sees in the uncompressed stream, with the headers of further chunks removed; what is left over is exactly what the last frame brought too much |
| Nets.WholeChunk | libmariadb/ma_net.c:659-690 | a full chunk is never complete at a start that is not zero, so the buffer is not moved without `current` |
| Nets.Net.TakePacket | libmariadb/ma_net.c:801-809 | the packet is terminated; the pending bytes are the rest of the stream, with the first one zero after a packet that ends with an empty chunk |
| Nets.Net.ReadCompressed | libmariadb/ma_net.c:627-809 | the next packet of the uncompressed stream, of any length, however packets, chunks and frames overlap; the byte to be restored is right except behind an empty chunk; a result that is neither a packet nor an error if and only if the stream comes to a frame that cannot be decompressed before the packet is whole; a buffer that has grown is never left |
| Conversations.SendAll | libmariadb/ma_net.c:171-227 | several packets and a flush hand over exactly their chunks |
| Conversations.Receive | libmariadb/ma_net.c:575-809 | one packet comes back, and the stream goes on unchanged if and only if no byte behind an empty chunk is lost or that byte is zero |
| Conversations.ByteIsLost | libmariadb/ma_net.c:806-808 | a payload of 0xFFFFFF bytes, its empty chunk and another packet, in two frames, lose that byte |
| Conversations.CutShort | libmariadb/ma_net.c:645-659 | a packet whose first byte became zero is read with a smaller length |
| Conversations.ReceiveTwo | libmariadb/ma_net.c:627-809 | of two packets the second comes back if and only if no byte of it is lost or that byte is zero |
| Conversations.NotCompressed | libmariadb/ma_net.c:792-797 | a frame that says it is compressed and is not |
| Conversations.ReceiveAll | libmariadb/ma_net.c:575-809 | every packet of a run comes back, in order, with and without compression |
| Conversations.Exchange | libmariadb/ma_net.c:171-809 | writer and reader together: the packets read are the packets written |
| Conversations.ExchangeCommand | libmariadb/ma_net.c:229-809 | the same for a command: its byte followed by its data, for every length, with and without compression |
| Sha1Rounds.BasicFunctions | libmariadb/ma_sha1.c:46-49 | the shortened bit functions are those of the standard |
| Sha1Rounds.Round | libmariadb/ma_sha1.c:62-81 | a macro line is a step of the standard with the registers renamed |
| Sha1Rounds.NextWord | libmariadb/ma_sha1.c:57-58 | the sixteen circular words always are the last sixteen of the 80-word schedule |
| Sha1Rounds.FiveLines | libmariadb/ma_sha1.c:190-194 | five lines bring the registers back to their roles after five steps |
| Sha1Rounds.Transform | libmariadb/ma_sha1.c:182-285 | the unrolled transformation is the block computation of section 6.1.2 |
| Sha1Rounds.Decode | libmariadb/ma_sha1.c:309-317 | big-endian words of a block |
| Sha1Example.Published | libmariadb/ma_sha1.c:87-177 | the digest of "abc" is the published one, byte by byte |
| Sha1s.LengthField | libmariadb/ma_sha1.c:151-159 | the bytes of the two counters are the 64-bit message length |
| Sha1s.Context.constructor | libmariadb/ma_sha1.c:87-98 | the initial hash value and an empty message |
| Sha1s.StopsInTime | libmariadb/ma_sha1.c:128 | the block loop stops when all blocks are done and not before, if and only if its 32-bit index is in range |
| Sha1s.IndexWraps | libmariadb/ma_sha1.c:128 | 2^32 - 1 bytes after one byte are not in range |
| Sha1s.Context.Update | libmariadb/ma_sha1.c:105-141 | the context of the longer message, wherever block boundaries fall, whenever the 32-bit index is in range |
| Sha1s.Context.Final | libmariadb/ma_sha1.c:146-177 | the digest of the standard, padding of section 5.1.1 included |
| Sha1s.Encode | libmariadb/ma_sha1.c:292-302 | the five words as twenty bytes |
| Sha1s.HashPieces | libmariadb/ma_sha1.c:87-177 | any split of any message gives the digest of the whole, whenever the 32-bit index is in range |
| ComplexTypes.BitmapReads | libmariadb/ma_stmt_codec.c:1830-1849 | bit i + 2 of the bitmap tells whether child i is null |
| ComplexTypes.SizeCounted | libmariadb/ma_stmt_codec.c:1532-1564 | the size of a value is 24 bytes for every child of fixed size, 32 for every string or raw child, 48 for every nested one, at every depth, and the data |
| ComplexMemory.HoldsOne | libmariadb/ma_stmt_codec.c:1801-1853 | headers and data in memory hold one value only, so it can be read back |
| ComplexMemory.Disjoint | libmariadb/ma_stmt_codec.c:2112-2134 | if the total fits, all pieces are in the buffer and none overlap |
| ComplexFetch.Fetch.AllocSpace | libmariadb/ma_stmt_codec.c:2112-2134 | space is accounted for in order whether or not it fits, and the error flag tells which |
| ComplexFetch.Fetch.FetchLeaf | libmariadb/ma_stmt_codec.c:1565-1682 | a string, raw or fixed-size value consumes its encoding and is stored |
| ComplexFetch.Fetch.FetchKids | libmariadb/ma_stmt_codec.c:1830-1850 | the null bits and the children that are not null, in order |
| ComplexFetch.Fetch.FetchObject | libmariadb/ma_stmt_codec.c:1801-1853 | an object is rebuilt from its encoding, which is consumed exactly |
| ComplexFetch.Fetch.FetchArray | libmariadb/ma_stmt_codec.c:1921-1975 | the same for a collection |
| ComplexFetch.Fetch.FetchChild | libmariadb/ma_stmt_codec.c:2025-2111 | every value tree is rebuilt from its encoding, which is consumed exactly, and its size is reported |
| ComplexFetch.Fetch.FetchType | libmariadb/ma_stmt_codec.c:2384-2474 | length and bytes consumed depend on row and types alone; the length is a header of 48 bytes, 24, 32 or 48 for every child and the data; every piece has a place of its own size; no error if and only if the buffer has that length, and then all places are in it without overlap and the pieces hold the value |
| ComplexFetch.FetchAgain | libmariadb/ma_stmt_codec.c:2384-2474 | a retry with the reported length succeeds |
| Integers.PrintDigits | libmariadb/ma_ll2str.c:51-69 | the two division loops write the digits of the value, and 64 places always suffice |
| Integers.Ll2Str | libmariadb/ma_ll2str.c:26-70 | signed or unsigned digits in any radix from 2 to 36, without leading zeros |
| Integers.StrToULL | libmariadb/ma_stmt_codec.c:140-165 | the longest run of digits with its value, or an error exactly without digits or above 64 bits |
| Integers.StrToLL | libmariadb/ma_stmt_codec.c:167-216 | sign and range of the signed value, the minimum included |
| Integers.AToLL | libmariadb/ma_stmt_codec.c:219-236 | no error if and only if the text is spaces, an optional minus, digits and spaces with a value in range, and then that value |
| Integers.AToULL | libmariadb/ma_stmt_codec.c:239-256 | the same without sign |
| Integers.DecimalDigits | libmariadb/ma_ll2str.c:51-69 | decimal digits read back as the number |
| Integers.DigitsRead | libmariadb/ma_ll2str.c:24-70 | digits in any radix, read as 0 to 9 and A to Z, are the number, without a leading zero |
| Integers.PrintThenParse | libmariadb/ma_ll2str.c:26-70 | parsing inverts printing for every 64-bit value, signed and unsigned |
| MemRoots.MemRoot.constructor | libmariadb/ma_alloc.c:24-44 | an empty root, or one with its first block |
| MemRoots.MemRoot.FindFit | libmariadb/ma_alloc.c:69-83 | the first free block with room or the end of the list; the first block moves to the used list exactly if it has too little room for the 17th time and less than 4096 bytes left |
| MemRoots.MemRoot.NewBlock | libmariadb/ma_alloc.c:85-101 | a block of the size asked for with its header or of the usual size, which grows every four blocks, listed once at the end |
| MemRoots.MemRoot.Alloc | libmariadb/ma_alloc.c:46-112 | fails if and only if no free block has room and there is no memory; otherwise an aligned piece of the first free block with room, or of a new block if none has, that starts where the pieces before it end; both lists, the block and the counters afterwards; every block is in one list and header, pieces and rest make up its size |
| MemRoots.PiecesDisjoint | libmariadb/ma_alloc.c:102-103 | pieces of a block are aligned, inside it and do not overlap |
| MemRoots.MemRoot.Free | libmariadb/ma_alloc.c:116-144 | every block is released once, except a kept first block, which is as new |
| MemRoots.MemRoot.Run | libmariadb/ma_alloc.c:46-144 | after any run of allocations and releases, the areas handed out since the last release are those asked for, and never overlap |
| Charsets.ValidPrefix | libmariadb/ma_charset.c:126-209 | a character of several bytes starts with a high byte and is recognised by its own bytes |
| Charsets.Utf8High | libmariadb/ma_charset.c:126-196 | the high bytes at the front alone decide on a UTF-8 character |
| Charsets.Utf8Accepts | libmariadb/ma_charset.c:86-196 | every code point of UTF-8 from U+0080 on is recognised with its length, up to U+FFFF where characters have at most three bytes |
| Charsets.Utf8Only | libmariadb/ma_charset.c:86-196 | nothing else is: what is recognised is such a code point in its only form |
| Escapes.NotAStart | libmariadb/ma_charset.c:1034-1063 | a byte copied alone never makes up a character with what the escaping puts behind it |
| Escapes.EscapeRoundTrip | libmariadb/ma_charset.c:1025-1097 | reading an escaped string in its character set gives back every input, for both ways of escaping |
| Escapes.ScansThrough | libmariadb/ma_charset.c:973-1097 | scanned character by character, an escaped string is passed to its end, whatever it was: no quote ends it early, and with backslashes no NUL, newline, return or Ctrl-Z is left raw |
| Escapes.LiteralEnds | libmariadb/ma_charset.c:973-1097 | a literal ends exactly at the quote put behind the escaped string |
| Escapes.Sequences | libmariadb/ma_charset.c:1051-1074 | the seven escape sequences, in every character set |
| Escapes.EscapeLoop | libmariadb/ma_charset.c:973-1097 | the loops compute the escaped string, which is read back as the input and scanned to its end; twice the input always has room, so the overflow branches are not reached |

## Left out

- The hash functions and key access of the hash table are parameters; the free callback and `HASH_CASE_INSENSITIVE` comparison are not modelled, and a key length of 0 is modelled by passing the key bytes of the record's length.
- Wrap-around of the 32-bit `records` and `blength` at 2^31 records.
- OBHash.HashTable.Update: when the update does not restore the table, nothing is stated about the links it leaves.
- The estimate of the decimal exponent in `dtoa` is a parameter that is right or one too great, and for the quick path at least one part in 2^48 away from either end. Doubles have no greatest value, which the operations do not come near; comparisons of doubles and the arithmetic on integers below 10^16 are those of real numbers and integers, with which they agree; rounding modes other than to nearest.
- Printing.EstimateIsGood: that the linear approximation of the logarithm gives such an estimate is not proved.
- The block lists of `Stack_alloc`; bignum objects are fresh objects. Masks and shifts of words are written as remainders, products and quotients, and `x << k | z` as the sum of disjoint bits.
- `my_fcvt` and `my_gcvt`, which lay out the digits.
- The OceanBase 2.0 protocol, pipelined multi-commands, time-outs and `last_errno`; allocation failure in `net_realloc` and in a compressed write.
- Nets.Net.ReadCompressed: the four bytes behind the buffered ones that the removal of a header moves along are not modelled, and decompression does not run out of memory.
- What a write beyond the reader's buffer does: the buffer is a sequence that is as long as what is stored in it, and a flag tells whether everything was inside the allocated size.
- zlib: compression is an abstract inverse pair. TLS, sockets and asynchronous operation.
- ComplexFetch.Fetch.FetchChild: dates, intervals, timestamps and XML values, and unknown types are not modelled; an anonymous collection is one whose element type is entered under the empty name; fixed-size values are copied as bytes; reading a length is an abstract inverse pair; the heap for pieces that do not fit does not run out.
- TIME parsing and the text forms of date and time, floating-point conversion of parameters.
- Sha1s.Context.Update: what happens when the 32-bit index wraps around is not modelled.
- MemRoots.MemRoot.Alloc: sizes do not wrap around, and memory is numbered blocks rather than addresses.
- Character sets other than single-byte, UTF-8, gbk, sjis and cp932; other SQL literals.
- `ma_hash.c` iteration by index, `hash_free`, dynamic arrays, lists, default files, replication and the statement protocol: they would add only easier members.
