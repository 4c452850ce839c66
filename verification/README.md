# The framing engine of t2sz, modelled and proved in Dafny

t2sz cuts a tar archive, or any stream of bytes, into frames that are compressed independently, and
writes a seek table that describes them. The policy that decides where a frame ends is implemented
twice: once over a mapped file, by nested loops that gather elements, overshoot the maximum and carry
what is left over (`src/t2sz.c:1270-1389`), and once over standard input, by a machine that sees each
byte once, holds small entries back, counts null blocks instead of storing them, and must pledge the
size of a frame before it has seen its content (`src/t2sz.c:957-1171`).

The project states the policy once, as a fold over bytes, and proves that both machines produce its
frames on every input, succeed exactly when it does, and lose nothing.

## How it is organised

| file | contents |
|---|---|
| `Basics.dfy`, `Numerals.dfy` | bytes, results; octal, big-endian, little-endian and decimal numbers |
| `TarHeader.dfy`, `Pax.dfy` | checksum, size field, joined entries; the "size" record of a pax header |
| `Framing.dfy`, `FrameShape.dfy` | the framing policy as a fold; the same frames described without it |
| `Elements.dfy`, `TarFrames.dfy` | parsing an archive into elements, and the frames it should have |
| `Sparse.dfy` | sparse maps as GNU tar prints them, and that their end is found |
| `Pledges.dfy` | for which frames of a stream a size is pledged |
| `Splits.dfy` | when no group is split, exactly; files that are split without `-S` |
| `Overrides.dfy`, `Parse.dfy` | where entry sizes come from; the parse described without parsing |
| `Codec.dfy`, `SeekTable.dfy` | the compression library seen from outside; the table, written and read |
| `Context.dfy` | the compression context, a class: frames, counters, pledges, seek table |
| `Mapped.dfy`, `Stdin.dfy`, `Raw.dfy` | the two tar machines and the raw loops |
| `Agreement.dfy` | when the two tar machines agree, exactly |
| `Samples.dfy`, `Disputes.dfy` | entries put together by hand; archives on which the two machines disagree |
| `Archive.dfy`, `Compress.dfy` | what a reader gets from the file; the whole program |
| `Mutator.dfy` | the checksum repair of the fuzzing mutator |

The specification of tar mode is in three steps. `Elements.ElementsOf` parses the input into elements;
`Framing.Groups` puts every element that joins the next one together with it; `Framing.FoldGroups`
takes the bytes one at a time, closes the open frame when it reaches the maximum, and at the end of a
group when it has reached the minimum. `Elements.Frames` is the three together.

What a pax header says can depend on what lies behind its data in memory, since the comparison at
`src/t2sz.c:214` is not bounded by the data (a record length with many leading zeros leads it beyond).
So the state of a parse has the memory in it (`Elements.Memory`): the rest of the mapped file, or the two
buffers of standard input, with whatever earlier entries have left in them. These are not initialized
(`src/t2sz.c:1018-1024`); what they hold at first is a parameter, and every result is for all its values.

The source leaves by `exit()`; here a run ends with a `Status`, and a specification with a `Result`.
The compression library is a parameter: a `Codec` is any function that keeps the promises of its
streaming interface, whatever it takes and gives at each call. It refuses a frame whose pledge was not
met, so that a machine proved to succeed is one that meets every pledge. Which pledges it makes is
proved as well: the context remembers the pledge of every frame. A codec that keeps the promises is
given (`Codec.Stored`).

Where the source and its documentation differ, the model follows the source:

- The comments say that standard input is framed as a mapped file is (`src/t2sz.c:996-1001`,
  `src/t2sz.c:1011-1014`). It is as long as no entry is disputed: no header's entry ends elsewhere under the
  override that the other path carries. In an archive that either path accepts, that is also exactly
  when both find the same elements (`Agreement.SameElementsExactly`). For that it is enough
  that every pax header is held, or has data but no more than one chunk of it, and that no comparison
  in it runs past its data (`Agreement.PlainArchive`); well-formed records never make one do so. There is an
  archive for every way in which the paths part: a pax header of more than one chunk, which standard input
  passes over (`Disputes.LargeHeaderDisputed`, `src/t2sz.c:1131-1137` against `src/t2sz.c:1348-1350`); one
  without data that is not held (`Disputes.EmptyHeaderDisputed`); and one with a comparison that
  runs past its data (`Disputes.OverrunDisputed`). In the last case the frames of a stream can depend on
  what the stack held before (`Disputes.StackDecides`).
- `README.md:22` and `README.md:129` say that without `-S` a file is never split. Every maximum is
  lowered to 2^31 - 1 (`src/t2sz.c:1226-1233`), and a group is split exactly when it does not fit
  into what the groups before it have left of a frame below the minimum (`Splits.GroupsAreWhole`). Without `-s`
  that is a group of more than 2^31 - 1 bytes (`Splits.SplitWithoutMinimum`); with `-s` it can be a smaller
  one (`Splits.SplitWithMinimum`), but not one of at most 2^31 - `-s` bytes (`Splits.FitsWithMinimum`).

## Model

| member | source | states |
|---|---|---|
| Compress.CompressFile | src/t2sz.c:1225-1400 | in all four modes, and whatever the stack holds, a run succeeds exactly when its frames are defined, and then writes exactly those frames; unless `-j` is given, and with fewer than 2^27 frames, a table that lists them follows, through which every range can be read, and otherwise nothing; the file decompresses to the input; every pledge is met, and pledges are made for exactly the frames whose size is known in time |
| Compress.FramesAsAsked | README.md:20-26 | from the arguments alone: in tar mode no frame is over `-S` and every one but the last reaches `-s`, in raw mode exactly; a frame passes the end of a group only below `-s` and ends inside a group only when it has `-S` bytes, or 2^31 - 1 without `-S` |
| Compress.Lossless | fuzz/fuzz_tar.h:40-46 | a run that does not fail loses, adds and changes no byte, in any mode; every range of the input can be read through the seek table |
| Compress.FileAndPipeAgree | src/t2sz.c:1203-1224 | the same bytes from a file and from a pipe give the same frames, always in raw mode, and in tar mode if no entry is disputed |
| Compress.CleanupCompression | src/t2sz.c:1182-1197 | the finished file is the frames, then the table unless it was given up |
| Mapped.CompressTar | src/t2sz.c:1270-1400 | for every input and all limits the nested loops succeed exactly when the specification does and emit its frames, each with its size pledged |
| Mapped.GatherBlock | src/t2sz.c:1295-1379 | gathering, overshooting and cutting back keeps parse and frames on the way to the specified result; a block is full, or ends a group at the minimum, or ends the input |
| Mapped.Gathered | src/t2sz.c:1351-1379 | adding an element to a block that must go on changes nothing in the specified result |
| Mapped.Emitted | src/t2sz.c:1372-1388 | a gathered block is the next specified frame, with a residual carried over or not, also when a joined element ends exactly at the maximum |
| Mapped.TakeEntry | src/t2sz.c:1311-1357 | an entry is accepted exactly when the specification accepts it, with the same length; a pax header leaves behind the override that the rest of the map gives |
| Mapped.SparseMapLen | src/t2sz.c:1327-1333 | the sparse map blocks are counted exactly, or the count shows that they run off the end |
| Mapped.CompressRaw | src/t2sz.c:1279-1293 | mapped raw mode cuts blocks of one size and a shorter last one, each with its size pledged |
| Stdin.CompressTar | src/t2sz.c:1010-1171 | for every input below 2^63 bytes, all limits and all that the buffers may hold at first, the stream machine succeeds exactly when the specification for streams does, emits its frames, pledges the size of exactly the frames begun with an element of known size, and meets every pledge |
| Stdin.TarLoop | src/t2sz.c:1032-1164 | at every header, closed frames, open frame, held entries, counted null blocks, override, both buffers and the pledges made together are on the way to the specified result |
| Stdin.NullBlock | src/t2sz.c:1043-1051 | counting a null block instead of compressing it changes nothing in the specified result |
| Stdin.FlushRun | src/t2sz.c:1056-1068 | held entries and regenerated null blocks go into frames as one element, a frame they begin gets its size pledged, the pledge is met, and the chunk buffer is left cleared |
| Stdin.StreamEntry | src/t2sz.c:1074-1163 | an entry is held or pushed; either way frames, both buffers and override together become what the specification makes of it, and its failure is the specification's |
| Stdin.PushEntry | src/t2sz.c:1107-1163 | an entry that is not held succeeds exactly when it is complete; a frame it begins gets its size pledged unless it joins the next entry or has a sparse map; every pledge is met, and the chunk buffer holds what the last pieces left in it |
| Stdin.PushMap | src/t2sz.c:1116-1120 | the sparse map is taken to its last block, or the stream ends inside it |
| Stdin.PushPayload | src/t2sz.c:1126-1142 | exactly the padded payload is pushed; a pax header is looked at only when it comes in one chunk, with what the chunk buffer held before behind it |
| Stdin.ReadExact | src/t2sz.c:860-874 | whatever short reads occur, exactly `n` bytes arrive in place and nothing else changes, or the input has fewer |
| Stdin.CompressStream | src/t2sz.c:765-796 | raw standard input without `-s` is cut at the largest frame there can be, with no pledges |
| Stdin.CompressBlocks | src/t2sz.c:798-833 | raw standard input with `-s` is cut into blocks of that size whatever short reads occur, each with its size pledged, with no empty frame on an exact multiple |
| Raw.IsOneGroup | src/t2sz.c:765-833 | raw blocks are the frames of a single group cut at the block size |
| Raw.Shape | src/t2sz.c:1281-1293 | raw blocks together are the input, none is empty, and all but the last have the block size |
| Context.Context.PushBytesTar | src/t2sz.c:957-990 | pushing bytes is feeding them to the fold, whatever pieces they come in; an open frame always has room; frames it opens are not pledged; a pledge stays met |
| Context.Context.EndFrameAndRecord | src/t2sz.c:930-939 | the frame in the making is finished and recorded with its true sizes, and this fails only if its pledge was broken |
| Context.Context.StartElementFrame | src/t2sz.c:911-916 | without `-s`, and when none is open, a frame is opened with the smaller of the size of the element and `-S` pledged, which is what it will hold; otherwise nothing is done |
| Context.Context.CompressBufferToFrame | src/t2sz.c:679-704 | for every schedule of the compressor and any output buffer, what is written is one frame of the buffer, begun with its size pledged, and its length is returned |
| Context.Context.EndFrame | src/t2sz.c:716-736 | flushing completes exactly one frame of all bytes fed, or the pledge was not met |
| Context.Context.SeekTableAdd | src/t2sz.c:434-452 | every frame is counted; the table lists all of them, or is given up at the 2^27th; the casts to 32 bits lose nothing |
| Context.Context.WriteSeekTable | src/t2sz.c:349-393 | what is appended is the table of exactly the recorded entries |
| Pledges.FirstOfEachGroup | src/t2sz.c:899-905 | without `-s` the frames are those of one group after the other, and if no entry has a sparse map and each that joins the next is held, a size is pledged for exactly the first frame of every group |
| Pledges.NoneWithMinimum | src/t2sz.c:903-905 | with `-s`, a stream gets no pledges |
| Framing.FeedConcat | src/t2sz.c:957-990 | feeding `a` and then `b` gives the frames of feeding them at once |
| Framing.ElementsAsGroups | src/t2sz.c:1376-1379 | deciding at every element, as the machines do, gives the frames of deciding at every group |
| Framing.GroupsAreFrames | src/t2sz.c:1157-1162 | without `-s`, groups that do not exceed `-S` are the frames |
| FrameShape.FramingIsUnique | src/t2sz.c:996-1001 | the frames of the fold satisfy `IsFraming`, a description without any fold, and no other frames do |
| TarFrames.FramesCharacterised | README.md:126-148 | the frames of an accepted archive are those described, and only those |
| TarFrames.FramesOfArchive | README.md:126-148 | no frame is empty or over `-S`, all but the last reach `-s`, equal values give that size exactly, a boundary inside a group ends a full frame, and no byte is lost |
| TarFrames.OneGroupPerFrame | README.md:18-20 | without `-s` no frame reaches past the end of the group it starts in |
| Splits.GroupsAreWhole | README.md:22-22 | in an accepted archive no frame boundary is inside a group if and only if every group fits into what is left of the frame open before it |
| Splits.FitsWithoutMinimum | README.md:18-20 | without `-s`, if and only if no group is over the maximum |
| Splits.FitsWithMinimum | README.md:129-129 | with `-s`, if every group is at most `-S` - `-s` + 1 |
| Splits.SplitWithMinimum | src/t2sz.c:1226-1233 | two files, both below 2^31 - 1 bytes, the second of which is split without `-S` |
| Splits.SplitWithoutMinimum | src/t2sz.c:1226-1233 | a file of 2^31 bytes that is split without `-s` and `-S` |
| Parse.ParseIsUnique | src/t2sz.c:1303-1370 | either path accepts exactly the inputs that can be written as a list of valid elements, there is one way to do so, and that is what it finds |
| Overrides.EntriesEndRight | src/t2sz.c:237-244 | on either path each entry ends where its own size says, or the nearest pax header since the last entry that was not an extension header, used once; null blocks, other extension headers and pax headers passed over are looked past |
| Agreement.SameElementsExactly | src/t2sz.c:1010-1014 | two parses of an input, on the two paths or on one with different buffers, find the same elements if no header's entry ends elsewhere under the other override; if either of them accepts the input, if and only if |
| Agreement.PathsAgree | src/t2sz.c:996-1001 | then both tar paths refuse an archive or give the same frames, for all limits |
| Agreement.PlainArchive | src/t2sz.c:1131-1137 | nothing is disputed if every pax header is looked at and no comparison in it runs past its data: neither between the paths nor between two runs with different stacks |
| Agreement.WellFormedIsReadInside | src/t2sz.c:196-198 | a pax header of well-formed records is of that kind if it is held or comes in one chunk |
| Agreement.PassedOverExactly | src/t2sz.c:1094-1137 | the data of a pax header is passed over exactly when the header does not fit into what is left of 64 KiB and the data is empty or over 128 KiB |
| Agreement.SkippingMatters | src/t2sz.c:1348-1350 | exactness: after a pax header that is passed over, the paths agree on every plain input that may follow if and only if its override and the carried one cannot be told apart |
| Agreement.OverridesMatter | src/t2sz.c:237-244 | two carried overrides are the same in that sense if and only if no plain input tells them apart |
| Disputes.LargeHeaderDisputed | src/t2sz.c:1131-1137 | a concrete archive, a pax header with one byte more than a chunk and an empty file, which for any limits the mapped path refuses and the other accepts |
| Disputes.EmptyHeaderDisputed | src/t2sz.c:1096-1101 | one in which a pax header without data follows a full held buffer, which the mapped path accepts and the other refuses |
| Disputes.OverrunDisputed | src/t2sz.c:214-214 | one in which a comparison runs past the data of a pax header, which the mapped path cuts into three frames and the other into two, whatever is on the stack |
| Disputes.StackDecides | src/t2sz.c:1018-1018 | one for which the frames of a stream are decided by what the chunk buffer held before |
| Archive.WholeDecompresses | fuzz/fuzz_tar.h:40-46 | decompressing the whole file gives the contents of all frames, and the table counts for nothing |
| Archive.TableIfAsked | src/t2sz.c:434-452 | without `-j` and with fewer than 2^27 frames the table is there, with the size of every frame; with `-j` or 2^27 frames the file is the frames and nothing else |
| Archive.TableIsFound | src/t2sz.c:349-393 | a reader finds at the end of the file exactly one entry for each frame, with its true sizes |
| Archive.AnyRange | src/t2sz.c:349-393 | for every range, choosing frames by the running sums and decompressing only those gives the same bytes as decompressing everything |
| Archive.PackedTotalIsOffset | src/t2sz.c:349-393 | the compressed sizes add up to where the table starts |
| SeekTable.TableRoundTrip | src/t2sz.c:349-393 | the reader of the seekable format gets back the written entries; frame size and frame count are not truncated |
| SeekTable.TableSpelled | src/t2sz.c:349-393 | the table byte by byte: magic numbers, size, the two numbers of each frame, number of frames, descriptor |
| SeekTable.FramesDecompress | src/t2sz.c:1386-1386 | frames written one after the other decompress to their contents in order |
| SeekTable.RangeIsRead | src/t2sz.c:434-452 | running sums of the entries locate every frame before and after decompression |
| Pax.PaxSize | src/t2sz.c:204-227 | the loops compute the size the records give, size_t wrap-around and the comparison beyond the data included |
| Pax.PaxSizeInvertsPrinter | src/t2sz.c:204-227 | for all well-formed records, whatever pads them, the first "size" record is found, and no other record's key or value is taken for one |
| Pax.PrintedSizeIsFound | src/t2sz.c:214-222 | a size printed in decimal comes back, up to 18446744073709551609, and above that as none |
| Pax.SizeIsFound | src/t2sz.c:214-222 | a record spelled out as length, " size=", decimal digits and newline is found after any other records and gives its number |
| Pax.InsideExactly | src/t2sz.c:214-214 | what lies behind the data of a pax header changes nothing if and only if no comparison with the key runs past it |
| Pax.WellFormedStaysInside | src/t2sz.c:196-198 | well-formed records, whatever pads them, never make one do so |
| Pax.LengthExists | src/t2sz.c:196-198 | a length that counts itself exists for every key and value |
| TarHeader.Checksum | src/t2sz.c:67-83 | the 32-bit sum is the mathematical one, and six octal digits hold it |
| TarHeader.IsTarHeader | src/t2sz.c:98-112 | a header is accepted exactly when its checksum field, read as octal, is the sum |
| TarHeader.PrintedChecksumMatches | src/t2sz.c:88-93 | six digits, NUL and space, or seven digits and NUL, are accepted, whatever the field held before |
| TarHeader.ParseTarSize | src/t2sz.c:132-149 | the size is what the field says, octal or base-256 |
| TarHeader.OctalSizeIsRead | src/t2sz.c:145-148 | an octal size padded with blanks or zeros and ended by any other character or by the field is read |
| TarHeader.ChecksumIsRead | src/t2sz.c:101-106 | a checksum printed in any such way is accepted exactly when it is the sum of the header |
| Numerals.OctalIsRead | src/t2sz.c:104-104 | octal text is read past blanks and a sign up to the first other character, a minus negating modulo 2^64; without digits it is 0 |
| TarHeader.OctalSizeRoundTrip | src/t2sz.c:145-148 | eleven octal digits are read back as the size they print, below 8^11 |
| TarHeader.Base256SizeRoundTrip | src/t2sz.c:134-142 | the base-256 field of any 64-bit size is read back |
| TarHeader.Base256Exact | src/t2sz.c:134-142 | a base-256 field, read as the signed 95-bit number it is, gives its value exactly when that is a 64-bit size, and otherwise what all callers reject |
| TarHeader.JoinsNextEntry | src/t2sz.c:171-178 | exactly extension headers and files whose base name starts with "._" and goes on join the next entry |
| TarHeader.JoinsExactly | src/t2sz.c:159-178 | told from the bytes of the header: type x, g, L or K, or a name whose last part starts with "._" and goes on |
| Sparse.MapIsFound | src/t2sz.c:180-191 | a sparse map as GNU tar prints it, four entries in the header and 21 in each block, is followed to its end, for any number of entries |
| Elements.FramesInOnePass | src/t2sz.c:1010-1014 | parsing, grouping and folding can be done in one pass over the input |
| Mutator.FixTarChecksum | fuzz/fuzz_tar_mmap.c:73-84 | only the checksum field changes, to the sum in six digits, NUL and space |
| Mutator.FixAllChecksums | fuzz/fuzz_tar_mmap.c:86-102 | every complete block that is not null is repaired in place, and nothing else changes |
| Mutator.RepairedBlocks | fuzz/fuzz_tar_mmap.c:64-102 | after the repair every complete block is null or passes the header check, and repairing again changes nothing |

## Left out

- Agreement.SameElementsExactly: of two parses that refuse an input it says nothing more; and different elements can in rare cases be joined to the same groups, and so give the same frames.
- Agreement.SkippingMatters: for a header of which nothing depends on what is behind it.
- Pax.PaxSize: a comparison that runs off the end of the mapped file or of the buffer itself, which is undefined in C, counts as no match.
- Stdin.Input.Fread: the header read at `src/t2sz.c:1034` takes a short count for the end of the stream, so there `fread()` is as ISO C has it; every other read may come short.
- The compression library is a parameter; compression level, worker threads and content checksums do not affect framing.
- Every frame of at most 2^31 - 1 bytes is taken to compress to fewer than 2^32 bytes; this is part of what a codec promises.
- Inputs of 2^63 bytes or more, and builds where `size_t` or `long` has 32 bits.
- Running out of memory, read errors and write errors.
- Opening, mapping and redirecting files, the check that the output is not the input, and the removal of partial output.
- Option parsing, apart from its demand that the maximum is 0 or at least the minimum (`src/t2sz.c:1768-1770`); messages and verbose output.
- Growing the seek table's memory: the table is a sequence, and only its capacity is computed.
- Big-endian hosts: `writeLE32()` is its result.
- The loops of the source are split into methods, one for each round or piece, and the mapped loop into its raw and tar modes; counters passed by address are passed in and out.
- A reader's treatment of tables with entry checksums is modelled but not needed, as t2sz writes none.
- The exit and memory handling of the fuzzing harnesses, and the library's own mutation before the repair.
