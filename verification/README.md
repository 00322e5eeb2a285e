# libarchive's streaming and format core, modelled in Dafny

This project models the part of libarchive (as bundled in tarsnap) that moves bytes: the read-ahead layer and its
block sources, the ustar writer and the tar reader, output blocking, the LZW decompressor, the hard-link resolver, three
algorithms of the restore side (fix-up sorting, path canonicalisation, sparse writing), UTF-8 conversion and the search
for cpio odc headers. Code that changes things in place is modelled by classes and methods over arrays and linked
nodes; each is proved against a short reference meaning: a sequence of bytes, a finite map, a pure LZW decoder, a file
as a sequence of bytes.

`dafny verify dfyconfig.toml` checks everything.

## The main results

* **One plain stream.** However a source cuts its bytes into blocks, and with or without a skipper, every run of looks,
  takes and skips sees what it would see on a plain sequence (`StreamScript.Run`). The odc search finds the earliest
  header (`OdcSearch.FindHeader`).
* **Sparse bodies.** `archive_read_data` is one expansion of the blocks for all buffer sizes exactly if no hole at the
  end is longer than the number of empty blocks that span it (`ReadData.ChunkIndependence`); over the tar reader it puts
  the stored bytes where any sparse map says, up to the place where a map goes backwards (`TarSparse.ReadSparse`), and the
  next header does not depend on what the client read (`TarSparse.HeaderAfterCalls`).
* **Whole-archive round trip.** Of any list of entries, their bodies written in any pieces, those that the strict writer
  accepts are read back in order, through any output blocking and any input source (`TarArchive.RoundTrip`).  Which those
  are, and how each is seen, is stated in the fields that the client handed over (`TarEntries`): as it was written, but for
  a slash or a missing link target in exactly stated cases (`TarArchive.SeenExactly`, `UstarRoundTrip.PathRebuilt`). Numeric
  fields survive exactly on the ranges of `TarNumbers.SizeFieldRoundTrip`, `EightByteFieldRoundTrip` and `MtimeFieldRoundTrip`.
* **Headers.** What a tar header stands for is stated flag by flag, and with it where the next one is read
  (`TarHeaders.HardLinkMeans`, `TarHeaders.NextAfter`).
* **LZW.** The decompressor with its bit buffer, dictionary arrays and fixed stack refines a reference decoder
  (`LzwDecoder.Decompress`), which inverts a greedy encoder; for every input there is a file that decompresses to it
  (`LzwPacking.CompressedComesBack`). Over whole runs, from wherever opening a file leads, resets resume at multiples of
  the code width (`LzwLeaks.ResetsResume`), and bits that a reset leaves in the buffer change a code exactly for the files
  that `LzwLeaks.LeaksExactly` describes; the decompressor is modelled for those files too.
* **Hard links.** The hash table with its doubly linked buckets refines a finite map through lookups, removals and growth
  (`LinkCache`), and a whole run of the new cpio protocol delivers, file by file and in order, exactly what a recursive
  reference says (`LinkResolver.LinkifyNewCpio`); what that is for a group of links is stated field by field
  (`LinkProtocol.GroupBodies`).
* **Restoring.** The in-place merge sort is the mirrored stable sort (`FixupSort.SortedIsMirrored`); a path becomes its
  canonical form in its own buffer (`PathCleanup.CleanupPathname`); a sparse file equals a dense one
  exactly if no zero goes over another byte to stay (`DiskWriter.Restore`).
* **UTF-8.** Both compositions of the two conversions, each with its exact condition
  (`Utf8Codec.DecodeInvertsUtf8`, `Utf8Codec.Utf8InvertsDecode`).

## How the C code is represented

Bytes are integers below 256. Shifts and masks are written as division and remainder by powers of two, or as the
recursive `Shr`, `Shl` and `LowBits` of `BitStream`. Widths of C integers are written out where they matter (`Clamp`,
`Scan8`, `SIZE_LIMIT`, `Int32`). Pointers into a block are the bytes they lead to. A `ghost` parameter or field only names
what a proof talks about: the nodes of a list, the contents of a C string, the place in a stream. I/O enters as
`BlockSource.Source` (a read callback and a skipper), `OutputBlocker.Client` (a write callback) and `DiskWriter.File` (a
file with a position); where these may choose, the choice is left open.

## Where the code and its documentation differ

The model follows the code.

* libarchive/archive_read.c:531-535 promises that sparse files are simply padded with nulls; after an empty block the code
  forgets how much of the gap before it is still to be filled (`ReadData.HoleDependsOnBuffer`).
* libarchive/archive_read.c:942 says that at the end of the file `*avail` is zero; the call that finds the end reports what
  the copy buffer holds.
* libarchive/archive_read_support_format_cpio.c:501-511 warns that something was skipped, but not when the header is then
  found by the quick check at the start of a later window (`OdcSearch.WarnsExactly`, `OdcSearch.SilentSkip`).
* libarchive/archive_entry.h:438-439 says that names with a link count of zero are kept; they are dropped at the first match
  (`LinkProtocol.ZeroLosesAnEntry`).
* libarchive/archive_write_disk.c:1550-1552 says that a trailing `..` is an error; only SECURE_NODOTDOT makes it one.
* libarchive/archive_read_support_compression_compress.c:338-354 skips junk relative to the start of a section, but the initial
  section's count includes the three header bytes (`LzwLeaks.ResetsResume`); and line 349 says that the rest of the byte is
  discarded, while its bits stay in the buffer (`LzwLeakyFiles.LeakyFileLeaks`).
* libarchive/archive_read_support_format_tar.c:935 empties the link target by setting its length alone, so that a later
  link without a target gets the text of an earlier one (`TarArchive.SeenExactly`).

## Model

| member | source | states |
|---|---|---|
| BlockSource.Source.Read | libarchive/archive_read_open_memory.c:106-119 | the next bytes of the contents and nothing else: memory_read hands out min(read_size, what is left), any other source a non-empty piece of its choice, and the empty block exactly at the end |
| BlockSource.Source.Skip | libarchive/archive_read_open_memory.c:130-144 | moves at most as far as asked and as there is; the memory source rounds down to a multiple of its block size and stops less than one block short |
| BlockSource.RoundDown | libarchive/archive_read_open_memory.c:139-141 | dividing by the block size and multiplying again is the largest multiple that does not exceed the request |
| ReadFilter.Filter.LookAhead | libarchive/archive_read.c:974-1130 | shows at least min of the very next bytes and consumes nothing; a null pointer means that fewer than min bytes are left, or a fatal error, which a reliable source and a request up to 2^63 rule out; when nothing is buffered and one block of a memory source is enough, it shows that block |
| ReadFilter.Filter.FromBuffers | libarchive/archive_read.c:993-1017 | what either buffer can show for a request is the very next bytes, and is all that may then be consumed |
| ReadFilter.Filter.PullMore | libarchive/archive_read.c:1019-1129 | every further round fetches a block or brings the copy buffer closer to the request, so the loop ends; the position does not change |
| ReadFilter.Filter.RollBack | libarchive/archive_read.c:1001-1017 | the roll-back test implies that the copy buffer lies just before what is left of the client block, so that stepping back shows the same next bytes |
| ReadFilter.Filter.Compact | libarchive/archive_read.c:1019-1025 | moving the copy buffer to its front keeps what it holds |
| ReadFilter.Filter.Fetch | libarchive/archive_read.c:1027-1057 | the next block joins on to what is buffered; end of file means that only the copy buffer is left |
| ReadFilter.Filter.TopUp | libarchive/archive_read.c:1066-1128 | brings at least one byte into the copy buffer, or fails because doubling overflowed for a request above 2^63 |
| ReadFilter.Filter.Grow | libarchive/archive_read.c:1067-1108 | a larger buffer with the same contents; doubling fails only by wrapping around |
| ReadFilter.Filter.FilterConsume | libarchive/archive_read.c:1152-1166 | drops exactly the requested bytes from whichever buffer is in use |
| ReadFilter.Filter.Consume | libarchive/archive_read.c:1143-1150 | the same, and file_position advances by it |
| ReadFilter.Filter.Skip | libarchive/archive_read.c:1181-1252 | drops exactly the requested prefix if it is there and otherwise everything, and then fails; file_position advances by what was dropped in either case |
| ReadFilter.Filter.DrainBuffers | libarchive/archive_read.c:1189-1205 | uses both buffers before the source is asked |
| ReadFilter.Filter.SkipSource | libarchive/archive_read.c:1206-1226 | what a skipper that moves no further than asked reports is what is dropped |
| ReadFilter.Filter.Discard | libarchive/archive_read.c:1227-1251 | skipping by reading and discarding |
| StreamScript.Run | libarchive/archive_read.c:968-1252 | over every source, blocking and interleaving of looks, of taking no more than was looked at, and of skips, a consumer sees exactly what it would see on a plain sequence of bytes |
| StreamScript.Perform | libarchive/archive_read.c:968-1252 | one operation answers as on the plain sequence, and leaves the position where that leaves it |
| StreamScript.TakeAtWill | libarchive/archive_read.c:968-1166 | however much a consumer takes of what it is shown, which depends on the blocks, what it has taken is the stream |
| ReadData.BodyReader.NextBlock | libarchive/archive_read.c:553-567 | the next block, which may have no data, or the status with which the data ends |
| ReadData.BodyReader.Read | libarchive/archive_read.c:539-609 | for every list of blocks and every buffer size, the bytes, the result and the state that the recursive reading of the list gives: empty blocks, blocks out of order and errors included |
| ReadData.BodyReader.Emit | libarchive/archive_read.c:575-606 | one round, zeros up to the block and then its data, is one step of that reading, also for an empty block |
| ReadData.ReadInChunks | libarchive/archive_read.c:539-609 | whatever buffer sizes a client uses and whatever the blocks are, the calls put together are one reading, up to the first that fails; from orderly blocks whose holes at the end are filled they are the front of one and the same expansion |
| ReadData.ReadSolid | libarchive/archive_read.c:571-575 | from blocks with data a call fails exactly if it would read past the last block before one that is out of order, and otherwise gets the next bytes of the expansion |
| ReadData.ReadAllSolid | libarchive/archive_read.c:539-609 | and over any buffer sizes the calls get its front, and the first of them that would read past it fails |
| ReadData.ReadIsFront | libarchive/archive_read.c:539-609 | from orderly blocks a call gets the next bytes of the expansion, and all that is left if they do not fill the buffer |
| ReadData.ReadKeepsFilled | libarchive/archive_read.c:553-606 | and loses nothing of it if holes at the end are filled |
| ReadData.ChunkIndependence | libarchive/archive_read.c:553-606 | for orderly blocks, empty ones included, the output is the front of the expansion for all buffer sizes exactly if no hole at the end is longer than the number of empty blocks that span it |
| ReadData.LastBlock | libarchive/archive_read.c:553-606 | so with data in the last block always, and with a single empty block at the end exactly if it spans at most one byte |
| ReadData.HoleDependsOnBuffer | libarchive/archive_read.c:553-606 | one byte and an empty block at offset ten give as many bytes as a first buffer of two or more has room for, up to ten: ten for a buffer of twenty, and five for buffers of five |
| ReadData.ExpandHoldsData | libarchive/archive_read.c:528-538 | the expansion of orderly blocks holds every block at its offset and ends with the last block, so that a trailing hole is not part of it |
| ReadData.ExpandFillsGaps | libarchive/archive_read.c:586-591 | and is zero wherever no block has data |
| OdcSearch.IsOctal | libarchive/archive_read_support_format_cpio.c:462-471 | all characters of a range are octal digits |
| OdcSearch.LooksLikeHeader | libarchive/archive_read_support_format_cpio.c:488-491 | the test made at one offset: "070707" and 76 octal characters |
| OdcSearch.HeaderChars | libarchive/archive_read_support_format_cpio.c:488-491 | character by character, what counts as a header |
| OdcSearch.JumpIsSafe | libarchive/archive_read_support_format_cpio.c:497-524 | a jump of 1, 2 or 6 chosen by the sixth byte never steps over a header |
| OdcSearch.ScanWindow | libarchive/archive_read_support_format_cpio.c:493-524 | stops exactly where the jumps lead, at the first header of a window if it has one, having passed none, and makes progress |
| OdcSearch.SearchWindow | libarchive/archive_read_support_format_cpio.c:481-528 | one window of the stream: no header is passed, and something is skipped unless the search ends |
| OdcSearch.FindHeader | libarchive/archive_read_support_format_cpio.c:473-529 | stops at the earliest header at or after the position, wherever the source cuts its blocks, and fails only if there is none; answer and place are those of the search over the windows that it was shown |
| OdcSearch.ScanFinds | libarchive/archive_read_support_format_cpio.c:493-524 | the first header in a window is found |
| OdcSearch.WarnInFirstWindow | libarchive/archive_read_support_format_cpio.c:500-512 | when the first window holds a header, the warning is given exactly if something was skipped |
| OdcSearch.WarnsExactly | libarchive/archive_read_support_format_cpio.c:486-512 | for all windows: a header is reported without a warning exactly if one of the windows that were looked at starts there |
| OdcSearch.SilentSkip | libarchive/archive_read_support_format_cpio.c:486-491 | with blocks of 76 bytes, six bytes of junk before a header are skipped without a warning |
| TarNumbers.FormatOctal | libarchive/archive_write_set_format_ustar.c:486-514 | fills the field with the octal digits, or zeros or sevens, and reports whether the number fits |
| TarNumbers.Format256 | libarchive/archive_write_set_format_ustar.c:471-481 | fills the field with the low bytes in two's complement under the marker bit |
| TarNumbers.FormatNumber | libarchive/archive_write_set_format_ustar.c:438-466 | strict: octal with its terminator kept; otherwise as few octal digits as hold the number, and base-256 failing that |
| TarNumbers.OctalWidthFits | libarchive/archive_write_set_format_ustar.c:455-462 | the width chosen holds the number, and none is found only if no width does |
| TarNumbers.OctalRoundTrip | libarchive/archive_write_set_format_ustar.c:500-507 | digits written backwards read forwards as the number |
| TarNumbers.TarAtol8 | libarchive/archive_read_support_format_tar.c:2021-2050 | leading blanks are skipped, reading stops at the first character that is no digit, and what would overflow yields -1 |
| TarNumbers.TarAtol256 | libarchive/archive_read_support_format_tar.c:2093-2115 | the signed big-endian value of the field without its marker bit, clamped to 64 bits |
| TarNumbers.TarAtol | libarchive/archive_read_support_format_tar.c:2004-2015 | the marker bit selects the parser |
| TarNumbers.Base256Reads | libarchive/archive_read_support_format_tar.c:2093-2115 | a base-256 field reads back as the number exactly if what lies above its low bytes is a 7-bit signed number |
| TarNumbers.SizeFieldRoundTrip | libarchive/archive_write_set_format_ustar.c:438-466 | tar_atol after non-strict format_number is the identity on all 64-bit numbers for the 12-byte size field |
| TarNumbers.EightByteFieldRoundTrip | libarchive/archive_write_set_format_ustar.c:438-466 | for the 8-byte fields it is the identity exactly on [-2^62, 2^62) |
| TarNumbers.NoClampNeeded | libarchive/archive_read_support_format_tar.c:2096-2113 | eight bytes never reach the overflow guards |
| TarNumbers.MtimeFieldRoundTrip | libarchive/archive_write_set_format_ustar.c:68-70 | the mtime field, written in 11 bytes and read as 12, survives exactly if it fits in octal or is one of the two extreme numbers |
| TarNumbers.StrictFieldRoundTrip | libarchive/archive_write_set_format_ustar.c:445-447 | a strict field reads back as the number cut to what its digits can hold |
| UstarHeader.RecordPadding | libarchive/archive_write_set_format_ustar.c:243 | what is added to a size to make it a multiple of 512 |
| UstarHeader.FindSlash | libarchive/archive_write_set_format_ustar.c:285-294 | strchr finds the first slash from an offset on, or there is none |
| UstarHeader.SplitPath | libarchive/archive_write_set_format_ustar.c:285-321 | the two calls of strchr find the slash at which a long path is split, or the path is cut |
| UstarHeader.FieldAt | libarchive/archive_write_set_format_ustar.c:54-94 | a header put together from its fields has each field at its offset |
| UstarHeader.WriteField | libarchive/archive_write_set_format_ustar.c:274-281 | copying a string to the start of a field changes that field alone |
| UstarHeader.FormatIds | libarchive/archive_write_set_format_ustar.c:282-376 | name, mode, user and group fields, and whether their numbers fit |
| UstarHeader.FormatSizes | libarchive/archive_write_set_format_ustar.c:378-387 | size and mtime fields, and whether they fit |
| UstarHeader.FormatStrings | libarchive/archive_write_set_format_ustar.c:323-361 | link target, user and group name and type flag, and whether they fit |
| UstarHeader.ChooseFlag | libarchive/archive_write_set_format_ustar.c:405-425 | the type flag of an entry, or a file type that has none |
| UstarHeader.FormatDevice | libarchive/archive_write_set_format_ustar.c:389-404 | device numbers of device nodes, and the prefix |
| UstarHeader.SumBytes | libarchive/archive_write_set_format_ustar.c:426-428 | the sum of all 512 bytes, unsigned |
| UstarHeader.HeaderFinished | libarchive/archive_write_set_format_ustar.c:429-431 | the six digits written over the spaces make the finished header |
| UstarHeader.FormatHeader | libarchive/archive_write_set_format_ustar.c:257-433 | all 512 bytes of the header are those of the layout, filled as far as the entry fits, and the result says whether all of it did |
| UstarParse.CheckSum | libarchive/archive_read_support_format_tar.c:709-751 | accepts exactly the headers whose stored sum, cut to an int, is that of the other bytes and eight spaces, unsigned or, as old writers did, signed |
| UstarParse.BlockIsNull | libarchive/archive_read_support_format_tar.c:756-765 | a record of nulls |
| UstarParse.CopyString | libarchive/archive_read_support_format_tar.c:1158-1178 | a string field up to its first null, which may be missing |
| UstarParse.ParsePath | libarchive/archive_read_support_format_tar.c:1156-1164 | prefix, a slash unless the prefix ends in one, and name |
| UstarParse.ParseCommon | libarchive/archive_read_support_format_tar.c:937-944 | mode, owner, size and mtime whatever the type |
| UstarParse.Bid | libarchive/archive_read_support_format_tar.c:299-365 | a record is taken for a header exactly if it is not null, its checksum, magic and version are right, and type flag and mode are plausible |
| UstarParse.ParseHeader | libarchive/archive_read_support_format_tar.c:1147-1191 | the entry that a header describes: names, type, device numbers, directories written as files, and the link target that an earlier header may have left |
| UstarParse.ParseType | libarchive/archive_read_support_format_tar.c:949-1075 | the branches on the type flag, and the size of hard links |
| UstarRoundTrip.ChecksumPasses | libarchive/archive_read_support_format_tar.c:709-751 | every header that the writer formats passes the checksum test of the reader |
| UstarRoundTrip.FieldInHeader | libarchive/archive_write_set_format_ustar.c:54-94 | each field of a written header is found at its offset |
| UstarRoundTrip.NumberReads | libarchive/archive_read_support_format_tar.c:2021-2050 | digits with a terminator after them read as the number |
| UstarRoundTrip.PathRebuilt | libarchive/archive_read_support_format_tar.c:1156-1164 | prefix, '/' and name are the path again exactly if the slash chosen for the split does not follow another one, and otherwise the path without that slash |
| UstarRoundTrip.LosesASlash | libarchive/archive_write_set_format_ustar.c:285-321 | letters, two slashes and a hundred letters are such a path |
| UstarRoundTrip.NoDoubleSlash | libarchive/archive_write_set_format_ustar.c:285-321 | so a path without "//" is always rebuilt |
| UstarRoundTrip.OwnerReads | libarchive/archive_write_set_format_ustar.c:363-376 | mode, user and group numbers read back |
| UstarRoundTrip.SizeReads | libarchive/archive_write_set_format_ustar.c:378-387 | size and mtime read back |
| UstarRoundTrip.HeaderIsUstar | libarchive/archive_read_support_format_tar.c:646-695 | a written header selects the ustar branch and is no end-of-archive mark |
| UstarRoundTrip.HeaderRoundTrip | libarchive/archive_read_support_format_tar.c:1147-1191 | for every entry that the strict writer accepts, reading the written header gives the entry, but for that slash and for the target of a link that has none, whatever headers came before and whatever follows |
| UstarRoundTrip.ReadsExactly | libarchive/archive_read_support_format_tar.c:929-934 | that is the entry itself exactly if its path loses no slash and a link has a target or finds an empty one |
| UstarRoundTrip.LooksWritten | libarchive/archive_read_support_format_tar.c:299-365 | every header that the writer formats is recognised where the reader asks whether one follows |
| OutputBlocker.Blocker.Write | libarchive/archive_write_set_compression_none.c:114-198 | for any client: bytes sent and bytes buffered stay the input so far exactly if the client takes all of the copy buffer whenever that is sent; otherwise what it did not take is what is missing. With a whole-block client every block sent is full |
| OutputBlocker.Blocker.WriteBlocks | libarchive/archive_write_set_compression_none.c:154-194 | filling the copy buffer, sending blocks directly and keeping the rest adds exactly the input to the stream, but for what the client did not take of a full copy buffer |
| OutputBlocker.Blocker.TopUp | libarchive/archive_write_set_compression_none.c:154-176 | the copy buffer is filled first, and sent if that fills it; then it is empty, whatever the client took |
| OutputBlocker.Blocker.SendFullBlocks | libarchive/archive_write_set_compression_none.c:178-187 | blocks go out directly while more than one is there, and nothing is lost however little the client takes of them |
| OutputBlocker.ShortFlushLoses | libarchive/archive_write_set_compression_none.c:165-175 | with blocks of two bytes, a client that takes one byte at a time loses the second byte |
| OutputBlocker.Blocker.PassThrough | libarchive/archive_write_set_compression_none.c:134-152 | without a block size everything goes out as it comes, however little the client takes at a time |
| OutputBlocker.Blocker.LastBlockLength | libarchive/archive_write_set_compression_none.c:226-236 | the length of the last block: a full one, or the least multiple of bytes_in_last_block that holds what is left, but no more than a full block |
| OutputBlocker.Blocker.Finish | libarchive/archive_write_set_compression_none.c:204-257 | only zeros are added, up to that length, and raw_position is then ahead of file_position by exactly them |
| UstarWriter.Writer.WriteNulls | libarchive/archive_write_set_format_ustar.c:552-566 | exactly that many nulls |
| UstarWriter.Writer.WriteHeader | libarchive/archive_write_set_format_ustar.c:196-245 | an accepted entry leaves its header and sets remaining bytes and padding; any other leaves nothing |
| UstarWriter.Writer.WriteData | libarchive/archive_write_set_format_ustar.c:568-582 | the front of the data goes out, never more than the declared size |
| UstarWriter.Writer.FinishEntry | libarchive/archive_write_set_format_ustar.c:539-550 | the body is padded to its declared size and to a whole record |
| UstarWriter.Writer.Finish | libarchive/archive_write_set_format_ustar.c:516-526 | two null records |
| UstarWriter.Writer.WriteBody | libarchive/archive_write_set_format_ustar.c:568-582 | whatever pieces a body is written in, its front up to the declared size goes out |
| UstarWriter.Writer.WriteItem | libarchive/archive_write_set_format_ustar.c:196-245 | header, body cut or padded to its size, and padding, if the entry is accepted, and otherwise nothing |
| UstarWriter.Writer.WriteArchive | libarchive/archive_write_set_format_ustar.c:516-582 | a whole archive: the accepted ones of any list of items, item after item, and its end |
| TarReader.Reader.AddSparseEntry | libarchive/archive_read_support_format_tar.c:1734-1750 | appends to the end of the sparse map |
| TarReader.Reader.ReadData | libarchive/archive_read_support_format_tar.c:444-512 | the next stored bytes with their place in the file; consumed + entry_bytes_remaining + entry_padding stays the same, even if the map covers less than the data |
| TarReader.Reader.DropExhausted | libarchive/archive_read_support_format_tar.c:472-478 | exhausted blocks leave the front of the map |
| TarReader.Reader.SkipEntry | libarchive/archive_read_support_format_tar.c:551-576 | after skipping, the stream is at the end of the entry, whatever was read of it before |
| TarReader.Reader.ReadRecord | libarchive/archive_read_support_format_tar.c:591-612 | a record or the end of the archive, and a short read is told from it |
| TarReader.Reader.ReadHeader | libarchive/archive_read_support_format_tar.c:582-704 | the result is a function of what stands at this offset of the stream and of the link target that earlier headers have left: end of archive, damaged, truncated, or the entry; for a hard link with a size the record behind it decides whether the size counts |
| TarReader.Reader.SelectsUstar | libarchive/archive_read_support_format_tar.c:646-695 | the type flags and the magic that lead to the ustar branch |
| TarReader.Reader.Interpret | libarchive/archive_read_support_format_tar.c:636-704 | the record means what the parser makes of it, and remaining bytes, padding and sparse map are set up so that the entry ends at its size rounded up to 512 |
| TarReader.Reader.HeaderFollows | libarchive/archive_read_support_format_tar.c:994-1006 | asks whether the next record looks like a header, and consumes nothing |
| TarReader.Reader.NextHeader | libarchive/archive_read.c:403-445 | the next header is read at the end of the current entry, however much of its body the client took, and every outcome leads to the state in which the next call finds the archive |
| TarHeaders.HardLinkMeans | libarchive/archive_read_support_format_tar.c:951-1006 | a hard link with a size is a regular file, and the size counts exactly if no other header follows; it keeps its link target |
| TarHeaders.BodilessMeans | libarchive/archive_read_support_format_tar.c:1007-1037 | flags 2 to 6 are symbolic link, character device, block device, directory and fifo: size 0, a target for the first, device numbers for the next two |
| TarHeaders.OtherFlagsMean | libarchive/archive_read_support_format_tar.c:1038-1075 | every other flag has the size of the size field and no link; D is a directory, M leaves the type open, and the rest are files, or directories if the name ends in a slash |
| TarHeaders.FieldsMean | libarchive/archive_read_support_format_tar.c:937-944 | mode, owner, time and names are those of their fields |
| TarHeaders.NextAfter | libarchive/archive_read.c:403-445 | the header after an entry is read 512 bytes on, or at that plus its size rounded up to 512: right behind a hard link that a header follows, and behind its body otherwise |
| TarReader.Reader.ReadBody | libarchive/archive_read_support_format_tar.c:444-512 | a client that reads a body block by block gets exactly the stored bytes |
| TarSparse.TakeBlock | libarchive/archive_read_support_format_tar.c:444-512 | one call hands out the next block of what the sparse map makes of the stored bytes, cut where the source cuts, or says that there is none |
| TarSparse.TakeBlocks | libarchive/archive_read_support_format_tar.c:444-512 | after any number of calls, what was handed out and what is still to come stand for the same file, and are in order or not as before |
| TarSparse.MappedHolds | libarchive/archive_read_support_format_tar.c:1734-1750 | each stretch of a sparse map, up to the first that goes backwards, holds the next of the stored bytes at its offset |
| TarSparse.MappedOrderly | libarchive/archive_read_support_format_tar.c:1734-1750 | from a map that goes forward come blocks in order |
| TarSparse.ReadSparse | libarchive/archive_read.c:539-609 | archive_read_data over an entry with any sparse map: for all buffer sizes and every source, the stored bytes where the map puts them, with zeros between them; if the map goes backwards, ARCHIVE_RETRY for the first call that would read past that place |
| TarSparse.HeaderAfterCalls | libarchive/archive_read.c:403-445 | for any sparse map, and after any number of calls for data whatever they answered, the next header is read at the end of the entry |
| TarArchive.ItemInPlace | libarchive/archive_write_set_format_ustar.c:196-245 | each item lies at its start: header, body, padding |
| TarArchive.ItemHeaderReads | libarchive/archive_read_support_format_tar.c:375-441 | reading there gives the entry that was written, as HeaderRoundTrip says |
| TarArchive.EndReads | libarchive/archive_read_support_format_tar.c:615-627 | and after the last item the end of the archive |
| TarArchive.SeenExactly | libarchive/archive_read_support_format_tar.c:929-934 | an item is seen exactly as it was written if and only if its path is not split after another slash and it is no link without a target |
| TarEntries.AcceptedExactly | libarchive/archive_write_set_format_ustar.c:257-433 | in terms of what the client handed over: six digits for mode, ids and device numbers, eleven for time and the size of a file, 32 and 100 bytes for names and link targets, and a path of 100 bytes or with a slash that splits it into at most 155 and at most 100 |
| TarEntries.SeenData | libarchive/archive_write_set_format_ustar.c:205-222 | a regular file that is no link is seen with its size and its data, cut or filled up with zeros to that size; anything else with size 0 and no data |
| TarEntries.SeenFields | libarchive/archive_write_set_format_ustar.c:205-231 | mode, ids, time, names and the numbers of devices are those handed over; the path is too, with one slash added for a directory that lacks it, less a slash that the split loses |
| TarEntries.SeenType | libarchive/archive_write_set_format_ustar.c:405-425 | so are the file type and the link target: a hard link has no type, a file whose name ends in a slash is a directory, and a link without a target finds the one that an earlier header has left |
| TarArchive.ReadBack | libarchive/archive_read.c:378-445 | reading an archive to its end gives the items that were written, in order, and then the end, whatever follows the archive |
| TarArchive.WriteOut | libarchive/archive_write_set_compression_none.c:114-257 | what arrives at the client is the archive and at most one block of zeros |
| TarArchive.RoundTrip | libarchive/archive_write_set_format_ustar.c:196-582 | for every list of entries, every chunking of their bodies, every block size and every source: what is read is, in order, every entry that the strict writer accepts, each body cut or padded to its declared size |
| BitStream.CodeSplit | libarchive/archive_read_support_compression_compress.c:410-444 | a number of m + n bits is its first m bits and, above them, the next n |
| BitStream.CodeMaskShift | libarchive/archive_read_support_compression_compress.c:439-443 | masking and shifting take them apart |
| BitStream.CodeOfByte | libarchive/archive_read_support_compression_compress.c:433-435 | eight aligned bits are a byte |
| BitStream.OrIsSum | libarchive/archive_read_support_compression_compress.c:433 | or-ing a byte in above the bits at hand adds it |
| BitReader.Reader.Refill | libarchive/archive_read_support_compression_compress.c:422-432 | next_in continues the stream where the bit buffer stopped, or the data has ended |
| BitReader.Reader.LoadByte | libarchive/archive_read_support_compression_compress.c:433-436 | one byte goes in above the bits at hand and is counted |
| BitReader.BufferOneMore | libarchive/archive_read_support_compression_compress.c:433-436 | the buffer then holds eight more bits of the stream |
| BitReader.TakeBits | libarchive/archive_read_support_compression_compress.c:439-443 | taking n bits out leaves the bits after them, and none that are stale |
| BitReader.Reader.FillTo | libarchive/archive_read_support_compression_compress.c:421-437 | after the loop the buffer holds the bits from the current position on, or the data has ended |
| BitReader.Reader.GetBits | libarchive/archive_read_support_compression_compress.c:410-444 | successive calls return consecutive slices of the bit stream, least significant bit first, however the upstream blocks are cut; stale bits are or-ed into the first byte of the next slice, of any length, and into nothing after it |
| LzwReference.StepInverts | libarchive/archive_read_support_compression_compress.c:362-398 | encoder and decoder stay in step, the encoder one entry ahead; KwKwK is the code for that entry |
| LzwReference.DecodeInverts | libarchive/archive_read_support_compression_compress.c:320-403 | from any point at which they are in step, decoding undoes the greedy encoding |
| LzwReference.DecodeInvertsEncode | libarchive/archive_read_support_compression_compress.c:320-403 | so it does from the start |
| LzwReference.DecodeInvertsSegments | libarchive/archive_read_support_compression_compress.c:337-362 | and wherever the encoder resets |
| LzwStream.Take | libarchive/archive_read_support_compression_compress.c:337-402 | the step for any code moves the position forward and keeps the table sensible, a reset that leaves bits in the buffer and an invalid code included |
| LzwStream.StreamDecodesSymbols | libarchive/archive_read_support_compression_compress.c:320-403 | a stream decodes to what the symbols it carries decode to |
| LzwStream.StreamInvertsEncoder | libarchive/archive_read_support_compression_compress.c:320-403 | a stream that carries the encoding of some segments decodes to those segments and ends properly |
| LzwSections.WidthAfterOne | libarchive/archive_read_support_compression_compress.c:391-398 | the code gets wider exactly when the next entry is a power of two |
| LzwSections.OutKeepsAligned | libarchive/archive_read_support_compression_compress.c:391-393 | a section is a multiple of eight codes of one width, so that it ends at a byte |
| LzwLeaks.ResolvesToBeginning | libarchive/archive_read_support_compression_compress.c:251-255 | opening a file ends up after its header or, if the first code that is no reset is invalid, right behind that code, nine bits into its section |
| LzwLeaks.NumberedOut | libarchive/archive_read_support_compression_compress.c:391-398 | every code before the first reset has the width and the place that its number tells: 256 codes of nine bits, then sections that end at a byte or, when an invalid code was passed over, seven bits before one |
| LzwLeaks.NumberedReset | libarchive/archive_read_support_compression_compress.c:338-356 | a reset as such a code leads to an aligned section and leaves three bits of the first section, the seven of a shifted one, or none in the buffer, as its number tells |
| LzwLeaks.ResetsResume | libarchive/archive_read_support_compression_compress.c:338-356 | over every whole run, a passed-over first code included, a reset resumes at the first byte from its end on whose distance from the start of its section is a multiple of the code width, and all sections after the first reset are aligned; resets in aligned sections leave nothing in the buffer, and the first reset of a file leaves what its number tells; counted from the start of the file, the first section never resumes at a multiple of nine bytes from the first code |
| LzwLeaks.LeaksExactly | libarchive/archive_read_support_compression_compress.c:346-354 | some code of a run differs from the one in the stream exactly if the first reset leaves bits that the nine-bit code after it does not have, a condition on the codes up to there |
| LzwSections.SettledStep | libarchive/archive_read_support_compression_compress.c:338-356 | every code and every reset of an aligned section leads to an aligned section, and leaks nothing |
| LzwLeakyFiles.LeakyFileLeaks | libarchive/archive_read_support_compression_compress.c:346-354 | a file of eleven bytes whose fifth code is such a reset |
| LzwLeakyFiles.PassedOverFileLeaks | libarchive/archive_read_support_compression_compress.c:251-255 | one whose first code is invalid and passed over |
| LzwLeakyFiles.ShiftedFileLeaks | libarchive/archive_read_support_compression_compress.c:391-398 | and one whose reset comes in a section that is seven bits off |
| LzwSections.MalformedExactly | libarchive/archive_read_support_compression_compress.c:371-382 | decoding is malformed exactly if the first code after the start or a reset is the next free one |
| LzwSections.NotMalformed | libarchive/archive_read_support_compression_compress.c:251-255 | the same for a whole file, whose first code is passed over if it is invalid |
| LzwDecoder.StrLength | libarchive/archive_read_support_compression_compress.c:120-130 | prefix chains decrease, so that the string of code c has at most c - 254 bytes |
| LzwDecoder.HoldsOneMore | libarchive/archive_read_support_compression_compress.c:384-390 | entering the previous string and one byte makes the dictionary arrays hold the longer table |
| LzwDecoder.OutputFits | libarchive/archive_read_support_compression_compress.c:371-382 | what a code expands to has at most 65281 bytes, so that the stack of 65300 never overflows; a code that is not yet in the table is expanded from one that is |
| LzwDecoder.WidthStep | libarchive/archive_read_support_compression_compress.c:391-398 | comparing with section_end_code widens the code exactly when the reference width changes |
| LzwDecoder.AfterFits | libarchive/archive_read_support_compression_compress.c:384-401 | the fields after a code fit the state of the reference after its string |
| LzwDecoder.Decoder.constructor | libarchive/archive_read_support_compression_compress.c:235-251 | the initial state fits the empty table and nine bits |
| LzwDecoder.Decoder.Expand | libarchive/archive_read_support_compression_compress.c:377-382 | the loop pushes the string of a code, its first byte on top, and ends |
| LzwDecoder.Decoder.SkipJunk | libarchive/archive_read_support_compression_compress.c:346-354 | discards the rest of the byte and the junk bytes; without junk the rest stays in the bit buffer, otherwise nothing does |
| LzwDecoder.Decoder.ResetTable | libarchive/archive_read_support_compression_compress.c:337-361 | the reset branch does the step of the reference, which skips to the next byte that is a multiple of the code width away from the start of the section, leaked bits included |
| LzwDecoder.Decoder.Accept | libarchive/archive_read_support_compression_compress.c:371-402 | one code does the step of the reference, KwKwK, new entry and wider codes included |
| LzwDecoder.Decoder.NextCode | libarchive/archive_read_support_compression_compress.c:320-403 | next_code yields the next string of the reference, the end of the data, or a fatal error for a code above the next free one, which is then passed over |
| LzwDecoder.Decoder.Read | libarchive/archive_read_support_compression_compress.c:261-290 | the block holds the next bytes of what the stream decodes to, and is full unless the data ends; a fatal error throws away less than a block |
| LzwDecoder.Open | libarchive/archive_read_support_compression_compress.c:201-255 | after the header and the first code, whose outcome is ignored, everything the file decodes to is still to come |
| LzwDecoder.Decompress | libarchive/archive_read_support_compression_compress.c:261-290 | for every file without an odd first code, every size of output block and every cutting of the input, reading to the end gives what the stream decodes to, leaking resets included, and fails exactly if an invalid code comes after the first |
| LzwDecoder.DecompressEncoded | libarchive/archive_read_support_compression_compress.c:261-290 | a file that carries an encoding decompresses to the input |
| LzwPacking.CodeOfPacked | libarchive/archive_read_support_compression_compress.c:410-444 | bits packed into bytes are found where they were put |
| LzwPacking.EncodeWritable | libarchive/archive_read_support_compression_compress.c:391-398 | every code of the greedy encoder fits the width that the decoder will use |
| LzwPacking.BitsCarry | libarchive/archive_read_support_compression_compress.c:337-361 | a file of those bits, with junk after resets, carries the symbols |
| LzwPacking.CompressedCarries | libarchive/archive_read_support_compression_compress.c:232-238 | so there is a file, header included, for every input |
| LzwPacking.CompressedComesBack | libarchive/archive_read_support_compression_compress.c:261-290 | and decompressing it gives that input, wherever the encoder starts over |
| LinkProtocol.OneMore | libarchive/archive_entry_link_resolver.c:210-239 | what is delivered and what is held back follow the reference one link at a time |
| LinkProtocol.DeliveredAtEnd | libarchive/archive_entry_link_resolver.c:173-180 | at the end the links held back are delivered too |
| LinkProtocol.StepMeans | libarchive/archive_entry_link_resolver.c:164-244 | one step of the three strategies, field by field: which entries are tracked, what the first link leaves in the table, and what later ones hand over |
| LinkProtocol.StepAccounts | libarchive/archive_entry_link_resolver.c:210-239 | every step keeps the books: file by file, what came in is delivered in order or held back, and other entries pass |
| LinkProtocol.DrainAccounts | libarchive/archive_entry_link_resolver.c:173-180 | taking any slot out of the table keeps them too |
| LinkProtocol.StepConserves | libarchive/archive_entry_link_resolver.c:210-239 | with link counts of at least one, every entry is out or in exactly one slot |
| LinkProtocol.GroupBodies | libarchive/archive_entry.h:461-480 | a whole group of the new cpio format comes out in order: the last entry as it was, and each before it with all its fields but no size and a link to the path of the first |
| LinkProtocol.PartOfGroup | libarchive/archive_entry_link_resolver.c:173-180 | so does a group some of whose links never came: the last that did keeps its body |
| LinkProtocol.NextGroup | libarchive/archive_entry_link_resolver.c:277-296 | after a whole group of a file the next one starts afresh |
| LinkProtocol.FirstHasBody | libarchive/archive_entry_link_resolver.c:190-206 | in the tar and mtree formats the first link comes out as it was, and each later one with a link to its path, without its size in tar and with it in mtree, and all other fields |
| LinkProtocol.DeliveredCount | libarchive/archive_entry_link_resolver.c:277-296 | nothing of a file is lost exactly if no group with a link count of zero gets its second link |
| LinkProtocol.DeliveredInOrder | libarchive/archive_entry.h:461-480 | and then it is delivered entry by entry in the order of arrival |
| LinkProtocol.CountedNoneLost | libarchive/archive_entry_link_resolver.c:277-296 | which link counts of at least one guarantee |
| LinkProtocol.ZeroLosesAnEntry | libarchive/archive_entry_link_resolver.c:277-296 | a link count of zero loses the second link, although the header file says that such names are kept |
| LinkProtocol.FirstStepAccounts | libarchive/archive_entry_link_resolver.c:190-206 | in the tar and mtree formats each entry comes out at once, the first link of a group unchanged and the later ones referring to it |
| LinkCache.Cache.FreeSpare | libarchive/archive_entry_link_resolver.c:255-261 | only the node held since the last call is freed |
| LinkCache.Cache.Search | libarchive/archive_entry_link_resolver.c:267-276 | finds the node of a file if and only if the map has one, in the bucket of its hash |
| LinkCache.Cache.Bypass | libarchive/archive_entry_link_resolver.c:286-292 | leads the links of both neighbours and the bucket past a node |
| LinkCache.BypassedIsChained | libarchive/archive_entry_link_resolver.c:286-292 | what is left is a doubly linked list without that node |
| LinkCache.Cache.Unlink | libarchive/archive_entry_link_resolver.c:286-292 | all other buckets stay as they are |
| LinkCache.Cache.Find | libarchive/archive_entry_link_resolver.c:246-300 | find_entry is the lookup of the map: one link used up, and the last one takes the file out; what it returns is not freed |
| LinkCache.Cache.NextEntry | libarchive/archive_entry_link_resolver.c:302-334 | takes some file out of the map, and nothing exactly if the map is empty |
| LinkCache.PushFront | libarchive/archive_entry_link_resolver.c:389-397 | a node in front of a doubly linked bucket |
| LinkCache.Cache.MoveBucket | libarchive/archive_entry_link_resolver.c:383-399 | all nodes of a bucket move to the new table, each to the bucket of its hash |
| LinkCache.Cache.Grow | libarchive/archive_entry_link_resolver.c:369-404 | twice as many buckets, a valid table again, and the same map |
| LinkCache.Cache.Enter | libarchive/archive_entry_link_resolver.c:354-363 | the map has one file more and number_entries counts it; it stays at most twice the buckets and one |
| LinkCache.Cache.Insert | libarchive/archive_entry_link_resolver.c:336-367 | insert_entry adds one file to the map; the table grows first exactly if there are more than two files for each bucket |
| LinkResolver.Resolver.Linkify | libarchive/archive_entry_link_resolver.c:164-244 | on the hash table, archive_entry_linkify is the step of the protocol on the map |
| LinkResolver.Resolver.Queue | libarchive/archive_entry_link_resolver.c:210-239 | the new cpio branch: hold back, hand over, and hand out the last one too |
| LinkResolver.LinkifyNewCpio | libarchive/archive_entry_link_resolver.c:164-244 | for every run and then draining: file by file the entries come out as the reference says, the rest in order, and with link counts of at least one as many as went in |
| LinkResolver.LinkifyFirst | libarchive/archive_entry_link_resolver.c:190-206 | the same for tar and mtree, one out for each in |
| FixupSort.NewFixup | libarchive/archive_write_disk.c:1374-1387 | prepends |
| FixupSort.CompareMeans | libarchive/archive_write_disk.c:1339-1349 | strcmp: positive exactly if the two names agree up to some place where the first has the larger byte or the second has ended, and negative exactly the other way round |
| FixupSort.CompareTransitive | libarchive/archive_write_disk.c:1339-1349 | so it is a transitive order |
| FixupSort.Halve | libarchive/archive_write_disk.c:1318-1330 | moving twice as fast ahead finds the last node of the first half |
| FixupSort.MergeSorts | libarchive/archive_write_disk.c:1337-1365 | merging sorts, and puts the later list first where names are equal |
| FixupSort.MergeLists | libarchive/archive_write_disk.c:1337-1365 | rewiring the next pointers in place makes the list of the merge |
| FixupSort.SortDirList | libarchive/archive_write_disk.c:1307-1366 | the list in place becomes its sorted list |
| FixupSort.SortedPermutes | libarchive/archive_write_disk.c:1307-1366 | a permutation |
| FixupSort.SortedIsMirrored | libarchive/archive_write_disk.c:1307-1366 | which is the stable descending sort of the list turned round |
| FixupSort.StableSortMeans | libarchive/archive_write_disk.c:1307-1366 | that sort is a permutation with no name before a larger one, and keeps the order of equal names |
| FixupSort.FixupOrder | libarchive/archive_write_disk.c:1228-1279 | so a path is fixed up before its ancestors, and fix-ups of one name in the order in which they were queued |
| FixupSort.QueueAndApply | libarchive/archive_write_disk.c:1228-1279 | from queueing to applying: all that was queued, no name before one whose bytes are larger, and equal names as they were queued |
| PathCleanup.LookSkip | libarchive/archive_write_disk.c:1576-1590 | skipping "//" and "./" drops an element that stands for nothing |
| PathCleanup.LookElement | libarchive/archive_write_disk.c:1583-1609 | what is copied stands for something, and ".." is recognised |
| PathCleanup.CopyElement | libarchive/archive_write_disk.c:1611-1616 | copying down in one buffer, the write cursor behind the read cursor, reads every character before it is overwritten |
| PathCleanup.Scan | libarchive/archive_write_disk.c:1570-1623 | the elements kept so far stand at the front of the buffer, each after a slash |
| PathCleanup.CleanupPathname | libarchive/archive_write_disk.c:1554-1641 | in its own buffer the path becomes its canonical form; it fails exactly for the empty path and, if ".." is refused, for a path with such an element |
| PathCleanup.CanonicalMeans | libarchive/archive_write_disk.c:1548-1553 | the canonical form has the same significant elements and is absolute just when the path was |
| PathCleanup.CanonicalAgain | libarchive/archive_write_disk.c:1548-1553 | canonicalising again changes nothing |
| DiskWriter.File.Write | libarchive/archive_write_disk.c:621-625 | write puts some of the bytes, at least one, at the position, with zeros in a gap before them |
| DiskWriter.File.Truncate | libarchive/archive_write_disk.c:691-698 | ftruncate cuts or extends with zeros |
| DiskWriter.Writer.SkipZeros | libarchive/archive_write_disk.c:589-598 | all leading zeros and no more |
| DiskWriter.Writer.BytesToWrite | libarchive/archive_write_disk.c:600-608 | bytes of one block only, up to its end or to the end of the data |
| DiskWriter.Writer.WriteSome | libarchive/archive_write_disk.c:610-631 | seek and write: the bytes land at the offset, and both positions advance by what was written |
| DiskWriter.Writer.WriteRound | libarchive/archive_write_disk.c:581-632 | one round deals with a part of the data, leaving zeros out in a sparse file: where writes take all they are given, exactly the leading zeros of a block |
| DiskWriter.Writer.WriteAll | libarchive/archive_write_disk.c:581-632 | round after round all of the data is laid down; in a sparse file exactly the leading zeros of each block are left out if writes take all they are given, and every zero if they take one byte |
| DiskWriter.Writer.WriteDataBlock | libarchive/archive_write_disk.c:547-634 | the data, clipped to the file, is written at the offset under any pattern of short writes; a sparse file may leave its zeros out |
| DiskWriter.Writer.WriteAt | libarchive/archive_write_disk.c:636-656 | the same at a given offset, and a warning exactly if something was clipped |
| DiskWriter.ZeroBlockLeftOut | libarchive/archive_write_disk.c:584-608 | so a whole block of zeros in the data is left out of the file |
| DiskWriter.Writer.FinishSize | libarchive/archive_write_disk.c:682-720 | the file is cut or extended to its declared size, also when the last write ended there |
| DiskWriter.HoldsMore | libarchive/archive_write_disk.c:584-598 | whatever zeros a write leaves out, a position holds the byte that was last written there, or another one that a zero should have erased |
| DiskWriter.HoldsMarksMore | libarchive/archive_write_disk.c:584-598 | if it leaves out all of them, a position is zero exactly if nothing else was ever written there |
| DiskWriter.SeparateErasesNothing | libarchive/archive_write_disk.c:584-598 | writes that do not overlap erase nothing |
| DiskWriter.ImageHolds | libarchive/archive_write_disk.c:576-578 | the file that the writes are to leave holds each of them, clipped |
| DiskWriter.ImageElsewhere | libarchive/archive_write_disk.c:682-720 | and zeros elsewhere |
| DiskWriter.Restore | libarchive/archive_write_disk.c:547-720 | for all writes, block sizes and patterns of short writes the file has exactly the declared length and, if it is dense or no zero goes over another byte to stay, is that image; a sparse file written byte by byte is the image exactly in that case |
| DiskWriter.ZeroLeftOut | libarchive/archive_write_disk.c:584-598 | a zero over another byte is lost in a sparse file, for any block size and any short writes |
| Utf8Codec.ToUnicodeInverts | libarchive/archive_string.c:241-288 | utf8_to_unicode reads back every code point up to 0x1fffff |
| Utf8Codec.ToUnicodeWithin | libarchive/archive_string.c:241-288 | it does not look past the terminator |
| Utf8Codec.DecodeInvertsUtf8 | libarchive/archive_string.c:181-356 | to UTF-8 and back gives the same wide string exactly if no character is above 0x1fffff or a leading surrogate |
| Utf8Codec.LoneLead | libarchive/archive_string.c:318-336 | a leading surrogate with no trailing one is dropped at the end and refused elsewhere |
| Utf8Codec.PairIsWritten | libarchive/archive_string.c:206-212 | the surrogate pair of a code point above 0xffff is written as that code point |
| Utf8Codec.PairIsRead | libarchive/archive_string.c:318-344 | and its six bytes, surrogates written one by one, are read as that code point |
| Utf8Codec.OtherIsWritten | libarchive/archive_string.c:214-234 | every other character is written by itself, lone surrogates included, and one above 0x1fffff as a question mark |
| Utf8Codec.Utf8InvertsDecode | libarchive/archive_string.c:181-356 | bytes come back from wide characters unchanged exactly if they are the shortest forms of code points up to 0x1fffff other than null and leading surrogates |
| Utf8Codec.WellFormedIsScalar | libarchive/archive_string.c:295-356 | among those, well-formed UTF-8 (section 4 of RFC 3629) is what stands for scalar values |
| Utf8Codec.Utf8IsWellFormed | libarchive/archive_string.c:214-229 | what is written for scalar values is well-formed |
| Utf8String.Str.Ensure | libarchive/archive_string.c:99-149 | a buffer of at least that length with the same contents; one that grows doubles, or from 8192 bytes on grows by a quarter or more |
| Utf8String.Str.Append | libarchive/archive_string.c:50-59 | the contents and then the bytes, terminated |
| Utf8String.PutPoint | libarchive/archive_string.c:214-234 | the bytes of one code point |
| Utf8String.Str.StrappendWUtf8 | libarchive/archive_string.c:181-239 | appends exactly the UTF-8 of the string: flushing at 240 bytes neither splits nor drops a character; the result says whether every code point has a form |
| Utf8String.Str.DecodeAt | libarchive/archive_string.c:309-344 | one round takes one code point, surrogate pairs put together |
| Utf8String.Str.ReadPoint | libarchive/archive_string.c:241-288 | the code point at a place of the string and the bytes it takes, up to four, or none |
| Utf8String.Str.Utf8W | libarchive/archive_string.c:295-356 | the string up to its first null as a wide string, or a failure exactly if it is not UTF-8 |
| Utf8String.ThereAndBack | libarchive/archive_string.c:181-356 | on the string objects: the round trip succeeds exactly if every character survives |
| Utf8String.BackAndThere | libarchive/archive_string.c:181-356 | on the string objects: bytes come back unchanged exactly if they have that form |

## Left out

- ReadFilter.Filter.LookAhead: allocation does not fail; the branch that reports so is not modelled.
- ReadData.BodyReader.Read: the blocks are given as a list, so that calls for data do not interleave with anything else on the reader below.
- OutputBlocker.Blocker.Write: after a client has failed, it is not stated how much of the input went out.
- UstarWriter.Writer.WriteHeader: the client below takes whole blocks, so that the results of a failing client do not appear; entries have a path, whose last byte the code looks at, and strings without null bytes.
- TarReader.Reader.ReadHeader: pax, GNU, Solaris and pre-POSIX headers and negative sizes are one result, `Foreign`, after which nothing more is read.
- TarReader.Reader.Interpret: headers of other variants, and negative sizes, are the one result `Foreign`.
- UstarParse.ParseHeader: the mode is the number in its field, and the file type is kept apart from it; the code keeps both in one number, whose type bits the type replaces.
- TarReader.Reader.ReadData: GNU sparse maps are given; reading them from the archive is not modelled.
- UstarRoundTrip.HeaderRoundTrip: for the strict writer. Headers that other formats make without strictness are covered field by field in `TarNumbers`.
- User and group numbers, modes and device numbers keep their 64 bits; their narrowing to uid_t, gid_t, mode_t and dev_t is not modelled.
- LzwDecoder.Open: files of fewer than three bytes, code widths outside 10..16, and sources that fail.
- LzwDecoder.Decoder.NextCode: a first code after the start or a reset that is the next free one, for which the code expands entry -1; `LzwSections.MalformedExactly` says which files have one.
- LzwDecoder.Decompress: the same files are excluded.
- LinkCache.Cache.Insert: allocation does not fail, and link counts fit an int.
- LinkResolver.Resolver.Linkify: entries are values, while the code changes the caller's entry in place; switching to the new cpio strategy with entries cached by another one is excluded, because the code then follows a null pointer.
- FixupSort.QueueAndApply: what applying a fix-up does to times, modes and flags is not modelled.
- PathCleanup.CleanupPathname: the Windows branch.
- DiskWriter.Writer.WriteDataBlock: offsets are within a known size, as the difference would wrap around otherwise; seeking and stat succeed, and a write that succeeds takes at least one byte.
- DiskWriter.Writer.FinishSize: ftruncate can extend, so that the fallback of writing one byte is not needed.
- DiskWriter.Restore: writes always succeed.
- Utf8String.Str.Ensure: a size that wraps around, which no buffer in memory reaches, and failing allocation.
- Utf8String.Str.Utf8W: 16-bit wide characters; and strings emptied by setting the length alone, whose old text the code would read.
- The gzip, bzip2, lzma and zip filters are calls into libraries that are not part of this model; so are format and filter bidding, options, error messages, ACLs, extended attributes, ownership and symlink checks.
- `find_newc_header`, `skip_sfx`, `be4` and the mtree and zip readers behave differently from the code modelled here, and nothing is claimed about them.
