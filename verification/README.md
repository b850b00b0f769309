# Constant database, posting index and certified-mail anomalies, verified

This project models three parts of the repository in Dafny and proves what they are for.

**The constant database** (`cdb/`, and its 256-table original `cdb/orig/`). A database is written once from a
list of (key, data) records and then only read. The specification is the plain list. The file is a header of
(position, slot count) pairs, the records, and one open-addressed hash table per header pair. The number of
tables is a parameter, any power of two whose header fits, so `cdb/` (512) and `cdb/orig/` (256) are two
instances of the same theorems (`Cdb.Instances`).
- `Words`, `Sequences`: 32-bit words, their little-endian bytes, masks and shifts, slices.
- `Device`, `Buffers`: a file is its bytes and an offset, with a script of outcomes that makes each transfer
  short, interrupted or failed; above it the buffered input and output with their arrays updated in place.
- `CdbHash`, `CdbProbe`, `CdbFormat`, `CdbLookup`: the hash, linear probing, the finished file as a function of
  the records (`Image`), and why probing that file finds exactly the records of a key.
- `CdbMaker`, `CdbReader`, `CdbTraverse`, `CdbText`, `CdbGrammar`, `CdbTools`, `CdbChecks`: the writer (block list,
  counting sort, probing, layout), the resumable reader, the walks, the text format and its grammar character by
  character, `cdbdump`/`cdbmake`, and `cdbtest`/`cdbstats`/`cdbnumrecs`.
- `Cdb`: the theorems about the whole: build then find, dump then make.

**The certified-mail anomaly detector** (`examples/PEC_log`). Parsed log lines feed one state machine per
message.
- `PecModel`: lines, states, one step, the verdict. Counters are signed chars that start at `'0'` and wrap.
- `PecCounts`, `PecVerdict`, `PecFields`: the state is the sum of the lines, the verdict in terms of the lines, and
  the written rules on the fields of the lines.
- `PecOrder`, `PecMarks`: exactly when the verdict depends on the order of the lines.
- `PecTexts`, `PecMessage`, `PecLines`: exactly when each text of the report is printed, in terms of the state and in
  terms of the lines; the message object with its verdict and its separately written report.
- `PecReports`, `PecDrivers`: the two programs (table of messages, one message at a time) and when they agree.

**The posting index** (`examples/IR/posting.cpp`). One byte string per word: the offset of the last entry, then
entries of a document id, a frequency and positions. `sizeof(u_posting)` is a parameter `h`, a multiple of four.
- `PostingFormat`, `PostingFind`: the byte string as a function of the entries, and the two ways of finding one.
- `PostingIndex`, `PostingDocuments`, `PostingErase`: `add`, `del`, `substitute` in place, indexing any number of
  documents, and adding then erasing one.
- `PostingPhrase`, `PostingSearch`, `PostingQuery`, `PostingRuns`: phrase search as a statement about positions, on
  the stored bytes, over the documents that were indexed, and after any run of additions and erasures.

## What the code does not do as one might expect

- `cdbnumrecs` prints the number of hash slots, which is twice the number of records (`CdbChecks.NumRecs`).
- `cdbmake`'s guard against overflow refuses the lengths from 4294967210 on, which do fit 32 bits; no length of a
  finished database is among them (`CdbText.ParseDecimalExact`, `CdbText.FittingLengths`).
- A counter of the anomaly detector wraps: 257 envelopes look like one (`PecFields.WrappedEnvelopes`).
- The recipients of two lines are compared without case, but the mark `(certificato` with case, and only the marks
  of the first line count. So the order of lines can decide a verdict (`PecOrder.MarksOutOfCase`). It does not
  exactly if the lines agree on the marks of all recipients that are owed receipts or named by one, or no order
  is normal (`PecMarks.OneVerdictByMarks`); the two programs then agree on every grouped copy of the log, and only
  then (`PecReports.ReportsAgreeExactly`).
- A missing delivery can go unprinted: a message to two recipients, delivered to the first, with both take-overs
  missing (`PecTexts.HiddenDelivery`). `PecTexts.HiddenExactly` says when: every recipient without a delivery has
  the trouble with its take-over that an earlier one has. The message is reported all the same.
- The byte search for a document can miss an entry, because after a refused hit the alignment is counted from
  behind that hit. Ids are negated inodes, so documents with the inodes n and 65536 n are enough
  (`PostingFind.MissedEntry`); `PostingFind.FindsAgreeExactly` says exactly when the search is right.
- A quoted phrase search takes the first position within reach. It can miss a match when words as short as the
  distance are indexed (`PostingQuery.FirstFitMisses`, two files of a directory taken as one document). It misses
  none in any document exactly if indexed words are longer than the distance, as with the default sizes 3 and 2
  (`PostingQuery.GuardExactly`), and none for phrases of two indexed words (`PostingPhrase.TwoLongExact`);
  `PostingPhrase.SpacingExactly` gives the exact condition on the positions.

## Model

| member | source | states |
|---|---|---|
| `Words.PackIs` | cdb/orig/uint32_pack.c:3-11 | the little-endian form is the four base-256 digits |
| `Words.UnpackPack` | cdb/orig/uint32_unpack.c:3-15 | reading back what was packed gives the word |
| `Words.PackUnpack` | cdb/orig/uint32_unpack.c:3-15 | packing what was read gives the bytes |
| `Words.PackByShifts` | cdb/orig/uint32_pack.c:3-11 | the shift form stores the little-endian form in place and touches nothing else |
| `Words.UnpackByShifts` | cdb/orig/uint32_unpack.c:3-15 | the shift form inverts packing; its accumulator never overflows |
| `Words.MaskIsRemainder` | cdb/cdb_make.c:91 | masking with 2^k - 1 is the remainder modulo 2^k, for every k |
| `Words.XorBit` | cdb/cdb_hash.c:8 | a bit of the exclusive or is set exactly if it is set in one operand only |
| `Words.AndBit` | cdb/cdb_make.c:91 | a bit of the conjunction is set exactly if it is set in both operands |
| `Words.XorTwice` | cdb/cdb_hash.c:8 | exclusive or undoes itself |
| `Words.ShiftDivides` | cdb/orig/cdb.c:100 | shifting right by k is dividing by 2^k |
| `CdbHash.HashAddFits` | cdb/cdb_hash.c:5-9 | exclusive or with a byte stays within 32 bits |
| `CdbHash.HashLaw` | cdb/cdb_hash.c:5-21 | the hash of nothing is 5381, and exclusive or with the last byte of a key gives 33 times the hash of the rest, modulo 2^32 |
| `CdbHash.ComputeHash` | cdb/cdb_hash.c:11-21 | the loop computes the fold of the hash step over the key |
| `Device.WrittenTwice` | cdb/buffer_put.c:6-21 | two adjacent writes leave the file as one write of both |
| `Device.WrittenHeadLast` | cdb/cdb_make.c:150-152 | writing the header last covers the hole in front of the body: the result is header and body written from 0 |
| `Device.File.AllWrite` | cdb/buffer_put.c:6-21 | for every pattern of short and interrupted writes, success means that exactly the bytes were written at the offset; it fails only if a write does |
| `Device.File.OneRead` | cdb/buffer_get.c:5-14 | after any number of interruptions the bytes returned are the next of the file; none mean its end |
| `Buffers.OutBuffer.Flush` | cdb/buffer_put.c:23-31 | the waiting bytes reach the file and the buffer is empty |
| `Buffers.OutBuffer.PutAlign` | cdb/buffer_put.c:33-45 | what was written and what is waiting is extended by exactly the argument |
| `Buffers.OutBuffer.Put` | cdb/buffer_put.c:47-67 | the same, through the direct writes of large arguments |
| `Buffers.OutBuffer.PutC` | cdb/buffer.h:26-30 | the same for one byte |
| `Buffers.OutBuffer.PutFlush` | cdb/buffer_put.c:69-73 | the waiting bytes and the argument reach the file |
| `Buffers.ByteCopyR` | cdb/byte_cr.c:3-16 | a move towards the end is right although source and target overlap; the rest is unchanged |
| `Buffers.InBuffer.GetThis` | cdb/buffer_get.c:16-23 | takes at most the waiting bytes; taken and remaining are the stream |
| `Buffers.InBuffer.Feed` | cdb/buffer_get.c:25-36 | the bytes to come are unchanged by the read and the shift to the buffer's end; 0 exactly at the end of the stream |
| `Buffers.InBuffer.BGet` | cdb/buffer_get.c:38-46 | returned bytes followed by the remaining ones are the stream |
| `Buffers.InBuffer.Get` | cdb/buffer_get.c:48-56 | the same, through the direct read of large requests |
| `Buffers.InBuffer.GetC` | cdb/buffer.h:42-46 | the next byte of the stream, or its end |
| `Buffers.InBuffer.Peek` | cdb/buffer.h:39 | what is shown is a prefix of the bytes to come |
| `Buffers.InBuffer.Seek` | cdb/buffer.h:40 | drops exactly that many of the bytes to come |
| `Buffers.Copy` | cdb/buffer_copy.c:3-16 | at success all that remained of the input is put behind the output, whatever transfers happened; it succeeds if no transfer fails |
| `CdbProbe.SomeSlotFree` | cdb/cdb_make.c:134-138 | fewer entries than slots leave a free slot |
| `CdbProbe.FillInvariant` | cdb/cdb_make.c:123-140 | after every insertion the table holds exactly the entries, at distinct slots, and every slot between an entry's home and the entry belongs to an earlier entry |
| `CdbProbe.PlaceHolds` | cdb/cdb_make.c:136-139 | inserting at a free slot keeps the table exact |
| `CdbProbe.PlaceReached` | cdb/cdb_make.c:135-139 | inserting at the first free slot of the path keeps all paths unbroken |
| `CdbProbe.EqualHashesInOrder` | cdb/cdb_make.c:133-140 | entries of one hash sit along their common path in insertion order |
| `CdbProbe.FreeSlotEndsPath` | cdb/cdb.c:119-123 | a free slot on the path lies beyond every entry of that hash |
| `CdbProbe.EntryPlace` | cdb/cdb_make.c:134-139 | each entry sits, of the slots no earlier entry holds, in the one that comes first cyclically from its home |
| `CdbProbe.OrigHome` | cdb/orig/cdb.c:100-101 | with 256 tables the home is the hash shifted right by 8, modulo the slots |
| `CdbFormat.CountBeforeTotal` | cdb/cdb_make.c:111-115 | every entry is in exactly one table: the counts sum to the number of entries |
| `CdbFormat.ImagePointer` | cdb/cdb_make.c:127-128 | where the file holds the header pair of each table |
| `CdbFormat.ImageSlot` | cdb/cdb_make.c:142-147 | where the file holds each slot of each table |
| `CdbFormat.ImageRecord` | cdb/cdb_make.c:52-71 | where the file holds each record, and that records follow each other |
| `CdbFormat.BucketOwner` | cdb/cdb_make.c:117-121 | every place of a bucket is some entry's, at its rank in insertion order |
| `CdbFormat.RankRises` | cdb/cdb_make.c:117-121 | ranks within a bucket keep insertion order |
| `CdbFormat.OrigHeaderOffset` | cdb/orig/cdb.c:95 | `(u << 3) & 2047` is the header offset of table u mod 256, although the shift may overflow |
| `CdbLookup.MatchesComplete` | cdb/cdb.c:99-145 | the specification of lookup lists every record of the key |
| `CdbLookup.MatchesRise` | cdb/cdb.c:99-145 | the specification of lookup lists them in insertion order, each once |
| `CdbLookup.TableInvariant` | cdb/cdb_make.c:123-140 | the probe-table invariant holds in every table of a finished file |
| `CdbLookup.PointerReads` | cdb/cdb.c:109-112 | what the reader finds in the header, and that the table it points to lies inside the file |
| `CdbLookup.NothingWraps` | cdb/cdb_make.c:94-104 | on every database that fits: fewer than 2^29 entries, the file is the end of the records plus 16 bytes per record, and neither a record's end nor a table's end wraps |
| `CdbLookup.EntryLies` | cdb/cdb_make.c:134-147 | where the file holds the entry of each record: in table hash mod tables, in the slot that comes first cyclically from (hash / tables) mod slots and that no earlier record of the table holds; the first one exactly there; its cyclic distance is the number of wasted probes |
| `CdbLookup.SlotOwner` | cdb/cdb.c:121-122 | a slot in use belongs to one record, which its own probing put there |
| `CdbLookup.DepthRises` | cdb/cdb.c:120-126 | records of one hash are met in insertion order |
| `CdbLookup.FreeSlotBeyond` | cdb/cdb.c:122-123 | when a search meets a free slot, it has met every record of its hash |
| `CdbLookup.NextSlotMeaning` | cdb/cdb.c:120-141 | what each probed slot means for a search that has returned k records of its key |
| `CdbMaker.SpreadStep` | cdb/cdb_make.c:117-121 | one step of the backward distribution keeps every bucket's placed part right and writes inside the entries' area |
| `CdbMaker.TallyStep` | cdb/cdb_make.c:88-92 | one step of the count is right and does not overflow |
| `CdbMaker.BucketInSplit` | cdb/cdb_make.c:117-121 | after the distribution each bucket is a contiguous slice at `start[t]`, in insertion order |
| `CdbMaker.ProbeStops` | cdb/cdb_make.c:136-138 | the insertion loop reaches a free slot before it has gone round |
| `CdbMaker.Maker.constructor` | cdb/cdb_make.c:10-20 | an empty database whose stream starts behind the header |
| `CdbMaker.Maker.PosPlus` | cdb/cdb_make.c:22-28 | the check notices exactly the sums that do not fit 32 bits |
| `CdbMaker.Maker.AddBegin` | cdb/cdb_make.c:52-63 | both lengths are streamed |
| `CdbMaker.Maker.AddEnd` | cdb/cdb_make.c:30-50 | succeeds exactly if the record area still fits; then entry, count and position are those of the longer list |
| `CdbMaker.Maker.Add` | cdb/cdb_make.c:65-71 | the record is appended to the list, its bytes to the stream; without a failed write it succeeds exactly if the record area fits |
| `CdbMaker.Maker.CountEntries` | cdb/cdb_make.c:85-92 | the counts are the bucket sizes |
| `CdbMaker.Maker.Masked` | cdb/cdb_make.c:91 | the mask selects the table of the hash |
| `CdbMaker.Maker.WorkSize` | cdb/cdb_make.c:94-101 | the work area has room for the entries and the largest table, without overflow |
| `CdbMaker.Maker.PrefixSums` | cdb/cdb_make.c:111-115 | `start` holds the end of every bucket |
| `CdbMaker.Maker.Distribute` | cdb/cdb_make.c:117-121 | a stable counting sort: buckets contiguous, insertion order kept |
| `CdbMaker.Maker.Insert` | cdb/cdb_make.c:135-139 | the loop places the entry as specified and leaves the sorted entries alone |
| `CdbMaker.Maker.FillTable` | cdb/cdb_make.c:130-140 | the hash area becomes the specified table; the sorted entries are unchanged |
| `CdbMaker.Maker.EmitSlots` | cdb/cdb_make.c:142-147 | the slots are streamed and the position advances by 8 each; without a failed write it succeeds exactly if that fits 32 bits |
| `CdbMaker.Maker.EmitTable` | cdb/cdb_make.c:123-148 | one table keeps the invariant of the layout loop: header pairs, streamed slots and position of all tables so far |
| `CdbMaker.Maker.WriteHeader` | cdb/cdb_make.c:150-152 | the file is header and body from offset 0 |
| `CdbMaker.Maker.Finish` | cdb/cdb_make.c:73-153 | at success the file is the image of the records added; without a failed write it succeeds exactly if the file fits 32-bit positions |
| `CdbReader.ByteDiff` | cdb/byte_diff.c:3-16 | 0 exactly if the strings agree, else the difference of the first bytes that do not |
| `CdbReader.Reader.Read` | cdb/cdb.c:44-49 | the bytes asked for, exactly if they lie inside the map |
| `CdbReader.ReadUnmapped` | cdb/cdb.c:50-62 | without a map, for every pattern of short and interrupted reads, the same bytes; without a failed read exactly if they lie inside the file |
| `CdbReader.Reader.Match` | cdb/cdb.c:70-85 | the comparison in pieces of 32 bytes is that of the whole key |
| `CdbReader.Reader.FindStart` | cdb/cdb.c:20-23 | starts a search that has returned nothing |
| `CdbReader.Reader.FirstProbe` | cdb/cdb.c:107-118 | chooses the table and the home slot of the key; 0 exactly if the table is empty |
| `CdbReader.Reader.Advance` | cdb/cdb.c:124-126 | moves one slot along the cyclic path |
| `CdbReader.Reader.Check` | cdb/cdb.c:128-140 | 1 exactly if the record at the position has the key |
| `CdbReader.Reader.ProbeOnce` | cdb/cdb.c:120-141 | one turn of the loop keeps "exactly the first k records of the key have been passed" |
| `CdbReader.Reader.FindNext` | cdb/cdb.c:99-145 | on a finished file call number k+1 returns the k+1st record of the key, and 0 on every call after the last; on any file a hit is a record with the key |
| `CdbReader.Reader.Find` | cdb/cdb.c:147-151 | the first record of the key, or 0 exactly if there is none |
| `Cdb.LookupIsMatches` | cdb/cdb.c:99-145 | looking up in the plain list gives the data of the listed records |
| `Cdb.Build` | cdb/cdb_make.c:10-153 | the file built from any list is its image; without a failed write the build succeeds exactly if the file fits |
| `Cdb.FindAll` | cdb/cdb.c:99-151 | repeated search of a finished file returns what the plain list answers |
| `Cdb.Instances` | cdb/cdb.h:10-11 | the two numbers of tables that the repository uses |
| `Cdb.BuildThenFind` | cdb/cdb_make.c:65-153 | for every list, key and power of two as number of tables: what was added is what is found, each once, in order |
| `CdbTraverse.FirstWordIsEod` | cdb/cdb_traverse.c:7-8 | the first word of a finished file is the end of its records |
| `CdbTraverse.DoIt` | cdb/cdb_traverse.c:4-20 | one record per call, 0 behind the last |
| `CdbTraverse.FirstKey` | cdb/cdb_traverse.c:22-25 | the first record, or 0 exactly if there is none |
| `CdbTraverse.NextKey` | cdb/cdb_traverse.c:27-29 | the next record, or 0 at the end |
| `CdbTraverse.Successor` | cdb/cdb_traverse.c:31-41 | the record behind the first one added under the key, for any key |
| `CdbTraverse.SuccessorSteps` | cdb/cdb_traverse.c:31-41 | stepping by a record's own key leads to the next record exactly if no earlier record has its key |
| `CdbTraverse.WalkAll` | cdb/cdb_traverse.c:22-29 | the walk visits exactly the records, in insertion order |
| `CdbTraverse.WalkBySuccessor` | cdb/cdb_traverse.c:31-41 | stepping by key from the null key visits every record once if keys are distinct |
| `CdbText.ParseDecimalExact` | cdb/cdbmake.c:65-72 | printed decimals parse back exactly below 4294967210 |
| `CdbText.FittingLengths` | cdb/cdbmake.c:70 | no length that occurs in a finished database of at least eight tables trips the guard |
| `CdbText.ParseText` | cdb/cdbmake.c:61-101 | parsing the printed text of records gives the records |
| `CdbText.TextRoundTrip` | cdb/cdbdump.c:62-84 | the text of every finished database parses to its records, whatever follows it |
| `CdbGrammar.DecimalIs` | cdb/fmt_ulong.c:3-13 | the decimal form has the number as positional value and no zeros in front |
| `CdbGrammar.DumpedLine` | cdb/cdbdump.c:74-78 | a dumped line is "+", key length, ",", data length, ":", key, "->", data and a newline |
| `CdbGrammar.LineExact` | cdb/cdbmake.c:64-100 | a line is accepted exactly if it has that form, with any digits that stand for the lengths and pass the guard |
| `CdbGrammar.ParseExact` | cdb/cdbmake.c:61-101 | a text is accepted, and read as these records, exactly if it is such a line for each of them and then an empty line |
| `CdbTools.FmtUlong` | cdb/fmt_ulong.c:3-13 | returns the number of decimal digits and, given where to, writes them in place |
| `CdbTools.GetBytes` | cdb/cdbdump.c:24-37 | exactly the next bytes; without failed reads it succeeds exactly if so many remain |
| `CdbTools.GetNum` | cdb/cdbdump.c:54-58 | the next word of the stream |
| `CdbTools.CopyBytes` | cdb/cdbdump.c:41-52 | moves exactly the next bytes from input to output, in pieces |
| `CdbTools.DumpRecord` | cdb/cdbdump.c:72-78 | prints the line of the record that the input starts with |
| `CdbTools.SkipHeader` | cdb/cdbdump.c:68-69 | passes exactly the header and returns its first word |
| `CdbTools.Dump` | cdb/cdbdump.c:62-84 | on any input, prints the records that follow the header; on a finished file, all its records in order, and it succeeds if no transfer fails |
| `CdbTools.ReadNum` | cdb/cdbmake.c:65-72 | the guarded loop accepts exactly what the grammar of lengths accepts, without overflow |
| `CdbTools.CopyKey` | cdb/cdbmake.c:83-88 | the key is streamed and the running hash is the hash of the whole key |
| `CdbTools.MakePair` | cdb/cdbmake.c:82-100 | a well-formed pair is appended to the database, anything else is refused |
| `CdbTools.MakeRecord` | cdb/cdbmake.c:64-100 | one line is accepted exactly as the grammar says |
| `CdbTools.Make` | cdb/cdbmake.c:59-103 | accepts exactly the texts of the format whose records fit, and writes their database |
| `Cdb.DumpFile` | cdb/cdbdump.c:62-84 | the dump of a finished file is the text of its records |
| `Cdb.MakeFile` | cdb/cdbmake.c:39-103 | the file made from a text is the image of the records it parses to |
| `Cdb.DumpThenMake` | cdb/cdbmake.c:61-103 | dumping any finished database of at least eight tables and making it again gives the same file byte for byte, for every pattern of transfers |
| `CdbChecks.TestKey` | cdb/cdbtest.c:92-106 | on a finished file the record is found: itself, or an earlier one exactly if its key was added before |
| `CdbChecks.Test` | cdb/cdbtest.c:69-119 | on every finished file: nothing missing, no bad length, "different record" counts exactly the testable records whose key was added before |
| `CdbChecks.SoundExactly` | cdb/cdbtest.c:112-116 | the five numbers: none missing, none of a wrong length, "untested" counts keys longer than 1024, "different record" the others whose key was added before, the rest is found |
| `CdbChecks.SeekRecord` | cdb/cdbstats.c:93-100 | repeated search always reaches the record itself, at its depth on the probe path |
| `CdbChecks.Measure` | cdb/cdbstats.c:93-105 | one record goes into the bin of its depth |
| `CdbChecks.Stats` | cdb/cdbstats.c:71-109 | never gives up on a finished file; each bin of the histogram counts exactly the testable records of that depth, the last one those of ten and more |
| `CdbChecks.InBinExactly` | cdb/cdbstats.c:101-105 | a bin counts the records with keys up to 1024 bytes and that many wasted probes, the last one ten or more |
| `CdbChecks.SlotCount` | cdb/cdb_make.c:123-148 | behind the records a finished file has two slots per record |
| `CdbChecks.NumRecs` | cdb/cdbnumrecs.c:61-78 | the printed number is twice the number of records, so it is their number only for the empty database |
| `PecModel.CharOfEqual` | examples/PEC_log/PEC_report_anomalie.cpp:293 | a counter shows the same char after two counts exactly if they agree modulo 256 |
| `PecModel.FoldExactly` | examples/PEC_log/PEC_report_anomalie.cpp:270 | texts are equal ignoring case exactly if they are letter by letter the same but for A-Z and a-z |
| `PecModel.DomainExactly` | examples/PEC_log/PEC_report.cpp:771-811 | an address is of a given domain exactly if what is behind its first @ is; without an @ it is of none |
| `PecModel.AddrsExactly` | examples/PEC_log/PEC_report_anomalie.cpp:99-113 | the addresses of a recipient field are its tokens without the parenthesized ones, in order |
| `PecModel.CertsExactly` | examples/PEC_log/PEC_report_anomalie.cpp:103-108 | an address is certified exactly if a token that begins with "(certificato" comes behind it and before the next address |
| `PecCounts.TotalPermuted` | examples/PEC_log/PEC_report_anomalie.cpp:289-344 | a sum over lines does not depend on their order |
| `PecCounts.ReceiptsCount` | examples/PEC_log/PEC_report_anomalie.cpp:144-227 | the addresses of one receipt move exactly the tallies of the certified recipients they name |
| `PecCounts.RunSummed` | examples/PEC_log/PEC_report_anomalie.cpp:229-347 | for lines that agree on sender and recipients, every flag and counter is the sum over the lines |
| `PecCounts.RunIncoherent` | examples/PEC_log/PEC_report_anomalie.cpp:267-286 | lines that disagree leave a mark that stays |
| `PecVerdict.VerdictExact` | examples/PEC_log/PEC_report_anomalie.cpp:349-459 | for every list of lines, the message is anomalous if and only if the lines disagree or break the counting rules (counts modulo 256) |
| `PecFields.TalliesAreSums` | examples/PEC_log/PEC_report_anomalie.cpp:316-344 | the counters of a certified recipient are the numbers of its mentions: take-overs in `ricezione`, failures and deliveries in `consegna`, virus detections in `consegna` or, if that is empty, in `ricezione` |
| `PecFields.StrayTotals` | examples/PEC_log/PEC_report_anomalie.cpp:144-227 | a stray flag is raised exactly if such a field of a line of its kind names somebody who is no certified recipient |
| `PecFields.SentNormal` | examples/PEC_log/PEC_report_anomalie.h:16-75 | rules B on those numbers: a sent message with one envelope, one acceptance, one take-over and one delivery or failure per certified recipient, as many virus detections as virus failures, and no stray receipt goes unreported; below 80 of each sort no other does |
| `PecFields.ReceivedNormal` | examples/PEC_log/PEC_report_anomalie.h:79-113 | rules C on those numbers: a received message with one envelope, no acceptance, no stray receipt, and for certified recipients one take-over and one delivery, failure or virus detection exactly if they are of the given domains goes unreported; below 80 of each sort no other does |
| `PecFields.WrappedEnvelopes` | examples/PEC_log/PEC_report_anomalie.cpp:293 | without that bound it is false: 257 envelopes go unreported |
| `PecOrder.VerdictReordered` | examples/PEC_log/PEC_report_anomalie.cpp:66-129 | the verdict on a reordering depends on the line that comes first, and on nothing else |
| `PecOrder.OneVerdictExactly` | examples/PEC_log/PEC_report_anomalie.cpp:229-459 | all orders get one verdict if and only if every line, taken as the first, satisfies the counting rules alike |
| `PecMarks.FineByMarks` | examples/PEC_log/PEC_report_anomalie.cpp:103-108 | of two lines with the same sender and recipients, if the counting rules hold for one as the first, they hold for the other if and only if both mark the same recipients as certified among those owed receipts or named by one |
| `PecMarks.OneVerdictByMarks` | examples/PEC_log/PEC_report_anomalie.cpp:66-459 | all orders of a message's lines get the same verdict if and only if no order is normal or all lines agree on those marks |
| `PecMarks.VerdictPermuted` | examples/PEC_log/PEC_report_anomalie.cpp:229-459 | in particular, any reordering of lines that agree on all marks gets the same verdict |
| `PecOrder.MarksOutOfCase` | examples/PEC_log/PEC_report_anomalie.cpp:105 | two lines whose order decides the verdict |
| `PecMessage.Messaggio.constructor` | examples/PEC_log/PEC_report_anomalie.cpp:66-129 | the new message has the state the model gives for its first line |
| `PecMessage.SplitRecipients` | examples/PEC_log/PEC_report_anomalie.cpp:99-113 | the loop separates addresses from remarks and marks the certified ones |
| `PecMessage.Messaggio.SetRicezione` | examples/PEC_log/PEC_report_anomalie.cpp:144-179 | one address of a take-over or virus detection moves the state as the model says |
| `PecMessage.Messaggio.SetConsegna` | examples/PEC_log/PEC_report_anomalie.cpp:181-227 | the same for deliveries, failures and newer virus detections |
| `PecMessage.Messaggio.CallForAll` | examples/PEC_log/PEC_report.cpp:738-757 | every address of a field in order, remarks skipped |
| `PecMessage.Messaggio.ProcessLine` | examples/PEC_log/PEC_report_anomalie.cpp:229-347 | one line moves the state as the model says |
| `PecMessage.Messaggio.IsAnomalia` | examples/PEC_log/PEC_report_anomalie.cpp:349-459 | the verdict loop with its early returns decides the verdict of the model |
| `PecTexts.PrintedAnomalous` | examples/PEC_log/PEC_report_anomalie.cpp:349-459 | some text has its reason in the state if and only if the verdict is anomalous |
| `PecTexts.HiddenExactly` | examples/PEC_log/PEC_report_anomalie.cpp:617-671 | no missing delivery is printed if and only if every owed recipient without one is skipped; likewise for more than one delivery |
| `PecTexts.HiddenDelivery` | examples/PEC_log/PEC_report_anomalie.cpp:617-671 | three log lines after which a missing delivery is not printed |
| `PecMessage.Messaggio.ReportOwed` | examples/PEC_log/PEC_report_anomalie.cpp:611-736 | prints the once-only texts that the recipient gives reason for and that have not been printed, and no other; a text left out ends the work on the recipient |
| `PecMessage.Messaggio.ReportRecipient` | examples/PEC_log/PEC_report_anomalie.cpp:542-759 | one turn prints exactly the texts of the recipient, but for those already printed, and raises exactly its stray flags |
| `PecMessage.Messaggio.Report` | examples/PEC_log/PEC_report_anomalie.cpp:476-792 | each of the nineteen texts is printed if and only if the state gives reason for it, through all branches and `continue`s; something is printed if and only if the verdict is anomalous |
| `PecLines.TextsByLines` | examples/PEC_log/PEC_report_anomalie.cpp:502-786 | on lines that agree, below 80 of each sort, each text is printed exactly if the lines give reason for it: envelopes and acceptances by their number and the sender's domain, the others by the mentions of some recipient or by a stray receipt |
| `PecLines.DisagreementText` | examples/PEC_log/PEC_report_anomalie.cpp:267-286 | on lines that disagree exactly one text is printed, about the sender or about the recipients, as the first disagreement is; the sender of an envelope takes precedence |
| `PecReports.TableTabulates` | examples/PEC_log/PEC_report_anomalie1.cpp:278-306 | one line keeps "the table holds every message with the state of its own lines" |
| `PecReports.OneMessage` | examples/PEC_log/PEC_report_anomalie1.cpp:288-303 | lines are of one message exactly if their ids differ at most in case |
| `PecReports.IrrelevantIgnored` | examples/PEC_log/PEC_report_anomalie.h:245-255 | lines of the kinds non-acceptance and anomaly envelope make no difference to what is reported |
| `PecReports.SingleLine` | examples/PEC_log/PEC_report_anomalie.h:245-255 | lines of any other kind do: one alone, with a sender of the given domains, is reported |
| `PecReports.StreamStreams` | examples/PEC_log/PEC_report_anomalie2.cpp:22-51 | on grouped input one line keeps "the current message has its lines' state, the earlier ones are judged" |
| `PecReports.StreamReports` | examples/PEC_log/PEC_report_anomalie2.cpp:64-71 | at the end the printed ids are exactly those of the anomalous messages |
| `PecReports.ReportablePermuted` | examples/PEC_log/PEC_report_anomalie2.cpp:22-71 | a copy of the log in another order has the same anomalous messages if the marks that matter agree in every message that some order makes normal |
| `PecReports.ReportableStable` | examples/PEC_log/PEC_report_anomalie2.cpp:22-71 | a copy that keeps the order within messages always has the same anomalous messages |
| `PecReports.ReportsAgreeExactly` | examples/PEC_log/PEC_report_anomalie1.cpp:278-368 | every grouped copy of a log has its anomalous messages if and only if those marks agree |
| `PecDrivers.TableDriver.ParseLine` | examples/PEC_log/PEC_report_anomalie1.cpp:278-306 | the table of message objects moves as the model's table |
| `PecDrivers.TableDriver.DropNormal` | examples/PEC_log/PEC_report_anomalie1.cpp:187-196 | exactly the anomalous messages stay |
| `PecDrivers.TableDriver.End` | examples/PEC_log/PEC_report_anomalie1.cpp:351-368 | exactly the anomalous messages are reported, each with at least one line |
| `PecDrivers.StreamDriver.ParseLine` | examples/PEC_log/PEC_report_anomalie2.cpp:22-51 | the current message and the printed ids move as the model's |
| `PecDrivers.StreamDriver.End` | examples/PEC_log/PEC_report_anomalie2.cpp:64-71 | the last message is judged too |
| `PecDrivers.ReportByTable` | examples/PEC_log/PEC_report_anomalie1.cpp:278-368 | on every log the table program reports exactly the anomalous messages |
| `PecDrivers.ReportByStream` | examples/PEC_log/PEC_report_anomalie2.cpp:22-71 | on grouped input the streaming program does too |
| `PecDrivers.ReportBoth` | examples/PEC_log/PEC_report_anomalie2.cpp:22-71 | the table program on a log and the streaming program on a grouped copy of it report the same messages under that condition, and always if the order within messages was kept |
| `PostingFormat.EntryReads` | examples/IR/posting.cpp:309-322 | what the code reads through a pointer to an entry is the entry |
| `PostingFormat.BlobEntry` | examples/IR/posting.cpp:538-624 | where each entry lies in the posting, one behind the other |
| `PostingFormat.DelLowersLast` | examples/IR/posting.cpp:486-490 | removing any entry but an only one strictly lowers the offset of the last entry |
| `PostingFind.FindByEntries` | examples/IR/posting.cpp:304-327 | the walk over the entries returns the first entry of the document, or nothing exactly if there is none |
| `PostingFind.FindByBytes` | examples/IR/posting.cpp:285-303 | the loop computes the search with its moving base |
| `PostingFind.SearchStops` | examples/IR/posting.cpp:258-303 | the byte search stops at the first hit that is aligned to the end of the hit before it and whose entry fits the rest |
| `PostingFind.BaseExactly` | examples/IR/posting.cpp:296-299 | alignment is counted from the start of the posting or from behind the last hit |
| `PostingFind.AcceptedExactly` | examples/IR/posting.cpp:258-277 | a hit is accepted exactly if it is a multiple of four bytes from there and an entry with the little-endian frequency found in it would end inside the posting |
| `PostingFind.FindsAgreeExactly` | examples/IR/posting.cpp:258-328 | both searches agree on a posting if and only if no hit in front of the entry is accepted and the last such hit leaves the alignment as it was |
| `PostingFind.FindsAgree` | examples/IR/posting.cpp:258-328 | in particular they agree if the first hit is the start of an entry |
| `PostingFind.OnlyAtEntriesSuffices` | examples/IR/posting.cpp:258-328 | and therefore on every posting in which the id's bytes occur only at entry headers |
| `PostingFind.MissedEntry` | examples/IR/posting.cpp:296-299 | a well-formed posting whose entry the byte search misses |
| `PostingIndex.CheckCapacity` | examples/IR/posting.cpp:510-536 | there is room for one more position, and no byte in use is lost by the move |
| `PostingIndex.AppendPosition` | examples/IR/posting.cpp:613-624 | position, size and frequency are updated in place; the bytes are those of the longer entry |
| `PostingIndex.AddKeepsUnique` | examples/IR/posting.cpp:592-605 | one position more keeps document ids unique if and only if the document is that of the last entry or new |
| `PostingDocuments.AddDocument` | examples/IR/posting.cpp:691-709 | all words of a new document: every posting gets exactly one entry more if the word is long enough and occurs, with exactly its positions in order, and is otherwise unchanged |
| `PostingDocuments.IndexedUnique` | examples/IR/posting.cpp:538-624 | after any run of documents with different ids, document ids are unique in every posting |
| `PostingDocuments.IndexDocuments` | examples/IR/posting.cpp:691-709 | after such a run every posting says exactly which documents have the word, in order, each once, and at which positions |
| `PostingIndex.Index.Extend` | examples/IR/posting.cpp:572-624 | the stored bytes become the encoding of the entries with the position added |
| `PostingIndex.Index.Begin` | examples/IR/posting.cpp:547-624 | a first occurrence gives the encoding of one entry with one position |
| `PostingIndex.Index.Add` | examples/IR/posting.cpp:538-640 | refines "append the position to the last entry if it is this document's, else append a new entry"; all other postings are unchanged |
| `PostingIndex.Index.EntryFrom` | examples/IR/posting.cpp:447-463 | the first loop finds the document's next entry, or fails exactly if there is none |
| `PostingIndex.Index.Del` | examples/IR/posting.cpp:408-498 | an only entry goes with its word; else exactly the document's next entry is removed, and without one the call fails and nothing changes |
| `PostingIndex.OnlyEntry` | examples/IR/posting.cpp:399-406 | the size test recognizes exactly an only entry |
| `PostingIndex.Index.Substitute` | examples/IR/posting.cpp:767-780 | the document is taken out of the word's posting if it is there |
| `PostingIndex.Index.Erase` | examples/IR/posting.cpp:844-856 | the pass takes the document out of every posting |
| `PostingErase.ErasedBack` | examples/IR/posting.cpp:767-780 | taking those entries out restores the entries of every word |
| `PostingErase.AddThenErase` | examples/IR/posting.cpp:767-780 | adding all words of a new document and erasing it restores every posting byte for byte and removes the words that were new |
| `PostingPhrase.SearchExact` | examples/IR/posting.cpp:1273-1322 | a reported document has the phrase; every document with the phrase is reported if the positions of each long sub-word with a long one in front and a long one behind lie more than the distance apart |
| `PostingPhrase.TwoLongExact` | examples/IR/posting.cpp:1273-1322 | a phrase of at most two long sub-words is never missed |
| `PostingPhrase.CloseMisses` | examples/IR/posting.cpp:1303-1318 | for any phrase and any such sub-word with two positions closer than that, some positions of the others make the search miss a match |
| `PostingPhrase.SpacingExactly` | examples/IR/posting.cpp:1273-1322 | the search is exact whatever the positions of the other sub-words if and only if those sub-words are spaced |
| `PostingPhrase.ChainIsPlain` | examples/IR/posting.cpp:1303-1318 | while positions stay far below 2^32 the wrapped distances are plain ones: each long sub-word 0 to `max_distance` bytes behind the running end |
| `PostingPhrase.NearExact` | examples/IR/posting.cpp:1303-1316 | with `max_distance` 2^32 - 1 a document matches if and only if every long sub-word occurs in it, and nothing is missed |
| `PostingSearch.SetPosting` | examples/IR/posting.cpp:358-369 | the document's entry in the stored posting |
| `PostingSearch.NearPosition` | examples/IR/posting.cpp:1303-1316 | the loop finds the first stored position within reach |
| `PostingSearch.FitRest` | examples/IR/posting.cpp:1285-1319 | the loop over stored postings decides whether first fit succeeds |
| `PostingSearch.MatchEntry` | examples/IR/posting.cpp:1262-1322 | the loop over the first sub-word's positions finds a match if and only if some position leads to one |
| `PostingSearch.FindFirstLong` | examples/IR/posting.cpp:1211-1216 | the first sub-word that is long enough |
| `PostingSearch.MatchDocument` | examples/IR/posting.cpp:1238-1326 | the search in one document decides the match of the specification |
| `PostingSearch.MatchAll` | examples/IR/posting.cpp:1247-1341 | the search calls back exactly for the matching documents, once each, in the order of the posting |
| `PostingQuery.LongWordSpaced` | examples/IR/posting.cpp:699 | tokens do not overlap, so occurrences of a word longer than the distance are spaced |
| `PostingQuery.QuotedExact` | examples/IR/posting.cpp:1273-1322 | in a document of such tokens a quoted phrase is found if and only if it occurs, whenever indexed words are longer than the distance |
| `PostingQuery.GuardExactly` | examples/IR/posting.cpp:1273-1322 | a quoted search is exact for all documents and phrases if and only if indexed words are longer than the distance |
| `PostingQuery.LiteralOccurs` | examples/IR/posting.cpp:977-1003 | a phrase that stands in the document word for word, one byte between its words, short words among them, occurs for every distance |
| `PostingQuery.FirstFitMisses` | examples/IR/posting.cpp:1303-1316 | a document of two files, with words of one letter indexed, whose phrase is missed |
| `PostingQuery.ReadPostings` | examples/IR/posting.cpp:935-975 | the stored postings of the long sub-words, or failure exactly if one of them is not indexed |
| `PostingQuery.Search` | examples/IR/posting.cpp:1198-1346 | over the documents indexed: exactly those that first fit reports, each once, in order |
| `PostingQuery.IndexThenSearch` | examples/IR/posting.cpp:1162-1187 | indexing documents and searching: a quoted phrase is found in exactly the documents that contain it if indexed words are longer than the distance, one that is not quoted always |
| `PostingRuns.ErasedRecorded` | examples/IR/posting.cpp:844-856 | erasing a document leaves in every posting exactly the notes of the other documents |
| `PostingRuns.ErasedUnknown` | examples/IR/posting.cpp:767-780 | erasing a document that is not indexed changes nothing |
| `PostingRuns.StoredSize` | examples/IR/posting.cpp:510-536 | the size of every stored posting, from the documents indexed |
| `PostingRuns.Perform` | examples/IR/posting.cpp:803-856 | one addition or erasure keeps "the index says exactly what the remaining documents contain" |
| `PostingRuns.ChangedExactly` | examples/IR/posting.cpp:803-856 | after an addition the document is there too, after an erasure all but that document |
| `PostingRuns.RunThenSearch` | examples/IR/posting.cpp:691-856 | after any run of additions and erasures the search finds exactly the remaining documents that contain the phrase, under the conditions above |

## Left out

- System calls (`open`, `lseek`, `mmap`, `fsync`, `rename`, `close`) and error texts: a file is bytes, an offset and
  a script of outcomes; a seek is assumed to succeed.
- Device.File.AllWrite: a script of outcomes is finite, so an endless row of interruptions or empty writes, on which
  the source loops for ever, is not modelled.
- CdbReader.Reader.Read: the reader is proved on the mapped file; `CdbReader.ReadUnmapped` gives the same bytes.
- `alloc`, `stralloc` and friends: allocation succeeds.
- CdbTools.DumpHead: the source puts the front of a line in five pieces, the model in one.
- CdbChecks.Test: what the five printed lines look like; the counts are returned. A key that is too long to look up
  is read past in one piece, byte by byte in the source.
- URDB, UCDB, UHashMap, UVector and UString are maps, sequences and byte arrays; their own code is not modelled.
- PEC log text: parsing, dates, signatures, XML escaping, time-to-live warnings and the warning for incorrect
  messages; a line comes as id, sender, recipients, kind and address fields.
- PecMessage.Messaggio.ProcessLine: recipients are compared token by token; the source compares the raw field, so
  fields that differ only in separators are different there.
- PecMessage.Messaggio.constructor: requires that every `(certificato` mark has an address somewhere in front of it.
  This is exactly when the source stays inside its array of marks; it is asked only of lines that begin a message.
- `isDomainAddress` remembers its last domain; the memory changes no answer except for an empty domain at first.
- The counters are taken as signed chars, as on the target machine.
- PecMessage.Messaggio.Report: how often a text about viruses is printed, and the order of the texts.
- The discharge of the message table to a database, and the order in which the table program prints.
- PostingIndex.Index.Add: only postings below 2^31 bytes, so that doubling the space fits 32 bits.
- PostingDocuments.AddDocument: the same bound on every posting; a document's words come as tokens with positions,
  the tokenizer and the list of bad words are not modelled.
- PostingRuns.RunThenSearch: the same bound at every addition; the table of document names, whose errors stop the
  program when a known document is added or an unknown one erased, is not modelled.
- PostingQuery.GuardExactly: for sizes whose sum stays below 2^32, so that the document exists.
- PostingErase.AddThenErase: erases with the pass of `setDocID`; the removal word by word takes its error branch on a
  word's second occurrence.
- The in-memory table of words, posting compression, the cache of the last word in `setPosting`, ranking by
  distance, and printing of the index.
- PostingFind.FindByBytes: a hit in the last bytes of a posting is refused; the source reads the frequency behind
  the posting's end there. Sizes wrap at 32 bits for a header of 12 bytes only.
- PostingPhrase.SpacingExactly: for distances below 2^31; the code uses 2 and, for phrases that are not quoted,
  2^32 - 1, which `PostingPhrase.NearExact` covers.
- PostingSearch.MatchAll: the rank handed to the callback, which is computed from the last distance looked at.
- Everything else in the repository: WiAuth, XAdES, csp, contrib, the document tools and the other reports.
