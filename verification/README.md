# Verification model of xmount

xmount presents disk images as files of other formats. It is a stack of layers, and each of them has the same simple
meaning: a flat sequence of bytes. An input library reads a container (AEWF, QCOW2, VDI), a morphing library combines
the input images (one after the other, or striped as RAID0), the output layer puts a VDI header in front of the result
or a VHD footer behind it, and a cache file records what was written. The code of every layer is fast, stateful and cut
into blocks; this project proves that each of them is its flat sequence of bytes. Everything stated here is checked by
Dafny's verifier: `dafny verify dfyconfig.toml`.

| modules | what they model |
|---|---|
| `Bytes`, `Stdio`, `HeaderBuilder`, `Lookup` | byte strings, little- and big-endian numbers, C files, filling in a header, disks that are looked up byte by byte |
| `CacheLayout`, `VirtImage`, `Session` | the copy-on-write output image with its persistent cache file; runs of reads, writes and remounts; what a crash leaves behind |
| `AewfFormat`, `AewfThreads`, `Aewf`, `AewfSegments`, `AewfOpen`, `AewfWriter`, `AewfExamples` | the AEWF reader: ordering of the files, section walk, table and file caches, the single-threaded and the multi-threaded reader; a writer for its files, and concrete images |
| `Md5`, `Md5Suite`, `ImageHash` | streaming MD5 against RFC 1321 and its test suite, and the partial hash that identifies an image |
| `VdiFormat`, `VdiOutput`, `VdiInput`, `VdiRoundTrip`, `VdiFiles` | the VDI header xmount emits, the VDI reader, the round trip between them, and files that xmount did not emit |
| `QcowFormat`, `Qcow`, `QcowFiles`, `BitOps` | the QCOW2 reader, files as it may find them, and the bit operations it uses |
| `InputImages`, `Combine`, `Raid` | narrowed input images, concatenation, RAID0 striping |
| `VhdFormat`, `VhdOutput`, `VhdRoundTrip` | the VHD footer: geometry, fields, checksum; a mounted VHD image |
| `LibraryParameters` | the parser of key=value options |

How the program's objects appear: structures that the program updates in place are classes whose methods change their
fields (`VirtImage.Xmount`, `Stdio.File`, `Aewf.Handle`, `AewfOpen.Walk`, `Md5.State`, `VdiInput.Vdi`, `Qcow.Qcow`,
`InputImages.Inputs`, `Combine.Handle`, `Raid.Handle`). Loops are loops, and each is proved against a function or a
predicate that is defined without it.

## Main results

1. **The output image is one flat array.** `VirtImage.Xmount.View` is the emulated file as a sequence of bytes.
   `GetVirtImageData` returns a slice of it and changes nothing; `SetVirtImageData` overwrites a stretch of it. Over every
   run of reads, writes and remounts, also under changing output formats, each byte of the image is what was last written
   there, and before that the original one (`Session.Run`, `Session.LastWriteWins`).
2. **Exact failures of a write.** With room in the cache file, `SetVirtImageData` fails if and only if the request starts
   behind the end of the file, is an empty one to a VDI header, or its data reaches the end of the image in an uncached,
   short last block. A failed write has taken effect for a first part of the request, cut at a block boundary or where
   header or footer begin. `Session.Run` states the same for every write of a run.
3. **The cache file is always in order.** All cached regions are disjoint, lie behind the index, and never move, over
   every run; the header and index on disk agree with those in memory. Every single write to the file that
   `SetVirtImageData` makes, those of failed requests included, leaves contents that a later mount shows as the output
   image with a first part of the request in place. A creation that fails for lack of room leaves a cut-off header and
   index, which no later mount accepts unless it is empty.
4. **AEWF, whatever the schedule.** Worker threads are state machines that may run in any order between any two steps of
   the main thread. For every opened image whose size fits its number of chunks, also with chunks that cannot be read (but
   for chunks whose check looks at more than is stored of them, see below): a read from buffers that hold what they are
   marked with stores the bytes of the image, all of them if and only if all can be read; the single-threaded reader ends
   at the first byte that cannot be read, the multi-threaded one at most one round of jobs before it. On well-formed images
   both give the same bytes and count for every request.
   After a call of the multi-threaded reader, every thread's buffer holds the chunk it is marked with if and only if the
   whole request can be read, or the first chunk of it that cannot is too big for a buffer (`ReadMT`). A request
   inside a chunk that fails for any other reason succeeds when it is made again, with whatever is in the marked buffer
   (`RereadAfterFailedRead`). The buffer of the single-threaded reader always holds its chunk if and only if no piece of a
   chunk at which a file ends contradicts a chunk that can be read (`AttemptKeeps`, `RereadAfterTornRead`). The last job of
   an unaligned round can be skipped for lack of a thread; the outer loop still terminates and is right.
   The image is what was written: where the tables of the files, however many, lead to chunks that store some data, the
   image is that data (`WrittenImage`). For any data, any way to store its chunks, any base offset that the table can have and
   any name of the volume section, a file with these is opened, and both readers get the data from it (`WriteOpenRead`).
5. **AEWF caches, ordering and section walk.** The counters equal what is open or loaded, limits are exceeded by a single
   entry only, evicted entries were never used later than ones that stay, and no more of them are given up than needed.
   An image is opened if and only if its files can be numbered without gaps and there is a chain of links through each of
   them on which every section passes its check, and the final checks pass (`Open`). The walk terminates, sections do not
   overlap, the tables partition the chunks, and each table lies in its file if and only if its position plus size fits 64
   bits; a concrete file that is opened shows that it need not (`AewfExamples.WrappedTable`). The readers can work with an
   opened image if and only if that holds and the size of the image fits the number of chunks.
6. **MD5.** However a message is cut into `Append` calls, the digest is that of RFC 1321 for the whole message. The
   definition it is compared with gives the digests of the RFC's own test suite for "" and "abc", proved operation by
   operation.
7. **VDI round trip.** The VDI file built for any image whose header size fits 32 bits is accepted by the VDI reader, but
   for that of an empty image, and reading from it returns the image; so does reading a mounted image after writes to its
   data. From a file that some other program wrote, with any header fields, any block map and any blocks left out, reading
   returns the stored blocks where the map has them, and zeros elsewhere (`VdiFiles.OpenRead`).
8. **QCOW2, RAID0, combine.** The address mappings are bijections, and the chunked read loops equal the byte-wise lookup,
   stopping at the first byte that cannot be read with that byte's error. From a QCOW2 file with any header fields, and
   tables and clusters of every kind in any places, reading returns the bytes of the clusters (`QcowFiles.OpenRead`). RAID0
   puts chunk k on image k modulo their number, and counts no chunks that an image lacks if and only if every image holds
   one, the last image holds none, or there is none; otherwise some request in range fails, if the size of the array fits
   64 bits.
9. **VHD geometry** fits its fields, its capacity misses the sector count by less than one cylinder, and cutting the head
   count to 8 bits never shows; the footer's checksum is valid, also in a mounted image after writes to its data.
10. **Library options.** The parser accepts exactly the joined lists of options, with an optional comma behind them, and
    returns the list.

Where the code and its documentation or intention disagree, the model follows the code:

- `SetVirtImageData` asks for 0 bytes at the end of the image when data ends there in an uncached, short last block; that
  call does not succeed, so the write fails although its earlier blocks are committed (src/xmount.c:1707-1715).
- Reading or writing 0 bytes of a cached VDI header is a failed `fread` or `fwrite` (src/xmount.c:1162, 1337, 1380).
- `AewfRead` returns AEWF_OK after the reader returns, whatever the reader's result was
  (libxmount_input/libxmount_input_aewf/libxmount_input_aewf.c:1713-1717): a short count is all that tells of a failure,
  as `AewfExamples.ShortCount` shows for a concrete image.
- A failed `fread` of an uncompressed chunk has stored what the file had of it, and the buffer keeps the mark of the chunk
  that was in it before (libxmount_input/libxmount_input_aewf/libxmount_input_aewf.c:800). A thread is marked with
  its chunk before the chunk is read, and keeps the mark when reading or its job fails (the same file, 1008, 915-919 and
  935-939): `AewfExamples.ReadTwice` gets a concrete bad chunk with success at the second try.
- The single-threaded reader checks the length of what uncompress hands back also after a failure, and then reports the
  length instead of the failure; the worker threads report the failure (the same file, 793-796 and 915-918).
- The VDI and QCOW2 readers keep the number of bytes still to read in 32 bits, and test it at the end of the loop: a count
  that is a multiple of 2^32 reads nothing, but one lookup is made. `ReadResult` states this for every count.
- `VdiOpen` refuses a file with an empty block map, because reading 0 bytes fails.
- `RaidMorph` uses 0 chunks as "none yet" (libxmount_morphing/libxmount_morphing_raid/libxmount_morphing_raid.c:150-154).
- `SplitLibraryParameters` sets its own copy of the pointer instead of the number of options for an empty string
  (src/xmount.c:2883).
- `AewfOpen` computes the end of a section in 64 bits, so the size of a last section that wraps around is accepted.
- `AewfOpen` does not compare the size of the image with the number of chunks. `AewfExamples.MisfitVolume` is a concrete
  image of 1536 bytes in a single chunk of 1024, whose length as the last chunk is 512. For a position behind that, such as
  600, `AewfReadLegacy` computes a number of bytes to copy below zero
  (libxmount_input/libxmount_input_aewf/libxmount_input_aewf.c:887), which is large in 64 bits: it copies what the buffer
  has behind the chunk, and reports success.

## Model

| member | source | states |
|---|---|---|
| `CacheLayout.HeaderRoundTrip` | src/xmount.h:207-234 | the packed cache header, written and read back, has the same field values |
| `CacheLayout.EntryRoundTrip` | src/xmount.h:189-194 | a packed index entry, written and read back, has the same flag and position |
| `CacheLayout.AppendFrame` | src/xmount.c:1664-1740 | appending to the cache file changes neither any cached region nor what the file shows |
| `CacheLayout.InPlace` | src/xmount.c:1639-1662 | overwriting part of a cached region changes that region there and no other, because regions are disjoint |
| `CacheLayout.InPlaceOnDisk` | src/xmount.c:1639-1662 | overwriting part of a cached region leaves header and index on disk in agreement with memory |
| `CacheLayout.AssignBlock` | src/xmount.c:1747-1760 | once an appended block is marked as assigned, the image shows the block, every other byte is as before, and the layout stays disjoint |
| `CacheLayout.AssignBlockOnDisk` | src/xmount.c:1748-1760 | rewriting the entry in the file makes the index on disk agree with memory again |
| `CacheLayout.CachePart` | src/xmount.c:1409-1422 | once an appended header or footer is marked as cached, reading it shows the appended bytes, everything else is as before, and the layout stays disjoint |
| `CacheLayout.RewriteHeaderOnDisk` | src/xmount.c:1411-1422 | rewriting the cache header in the file makes it agree with memory and touches no region |
| `CacheLayout.ForgetPosition` | src/xmount.c:1667-1668 | a position stored for a block that is not assigned means nothing |
| `CacheLayout.ForgetPartPosition` | src/xmount.c:1357-1358 | a position stored for a header or footer that is not cached means nothing |
| `CacheLayout.Reload` | src/xmount.c:2226-2287 | header and index read back from the file show the same image, header and footer as those in memory |
| `CacheLayout.NewFile` | src/xmount.c:2288-2320 | a new cache file has no region and shows the original image |
| `CacheLayout.NewHeaderBytes` | src/xmount.c:2288-2320 | the header of a new cache file, byte by byte |
| `VirtImage.Xmount.constructor` | src/xmount.c:1103-1118 | without a cache file the output image is that of the original parts |
| `VirtImage.Xmount.InitCacheFile` | src/xmount.c:2161-2322 | an existing file is accepted exactly when signature, version, block size and length are right, and gives the layout stored in it; a new one shows the original image, and is created if and only if there is room, else a first part of header and index is left |
| `VirtImage.Xmount.LoadCacheFile` | src/xmount.c:2226-2285 | the checks on an existing file, and the header and index read from it |
| `VirtImage.Xmount.CreateCacheFile` | src/xmount.c:2286-2320 | header and free index of a new file, on disk and in memory; a creation that fails leaves a first part of them |
| `VirtImage.Xmount.CutShortRefused` | src/xmount.c:2226-2285 | what a failed creation leaves is not accepted by a later mount, and shows no image, unless it is empty and a new file is started |
| `VirtImage.Xmount.GetVirtImageSize` | src/xmount.c:930-974 | the size of the output image, also when it was computed before |
| `VirtImage.Xmount.GetMorphedImageData` | src/xmount.c:1048-1094 | the bytes of the morphed image from the offset on, as many as there are; at or behind its end, 0 instead of TRUE |
| `VirtImage.BlockInIndex` | src/xmount.c:2206-2207 | every position of the image lies in a block of the index |
| `VirtImage.JustEnough` | src/xmount.c:2206-2207 | the blocks counted are just enough for the image: no other number is |
| `VirtImage.AcceptedFile` | src/xmount.c:2206-2285 | an existing file is accepted if and only if it has 512 bytes and 12 more for each block that holds a byte of the image, with signature, version and block size in their places; the file xmount starts with has exactly so many bytes |
| `VirtImage.Xmount.BlockSource` | src/xmount.c:1216-1244 | bytes of a block are in its cached region if it is assigned, and in the morphed image if not |
| `VirtImage.Xmount.PartSource` | src/xmount.c:1149-1182 | bytes of the header or footer are in its cached region if it is cached, and in the emulated one if not |
| `VirtImage.Xmount.ReadFromBlock` | src/xmount.c:1216-1244 | bytes of one block, from the cache file or the morphed image, are the bytes of the image as written so far |
| `VirtImage.Xmount.ReadBlocks` | src/xmount.c:1206-1250 | the block loop stores exactly the requested slice of the image |
| `VirtImage.Xmount.ReadPart` | src/xmount.c:1143-1182 | bytes of the header or footer, cached or not |
| `VirtImage.Xmount.GetVirtImageData` | src/xmount.c:1103-1308 | a read returns the slice of the flat output image, cut at its end, and changes nothing; it fails only for 0 bytes of a cached VDI header |
| `VirtImage.NewBlockBytes` | src/xmount.c:1669-1740 | a newly cached block holds the changed bytes and around them those of the image |
| `VirtImage.Xmount.BlockSuffix` | src/xmount.c:1701-1726 | the rest of a block behind the changed bytes, padded with zeros; it fails exactly when the image ends where the changed bytes do |
| `VirtImage.Xmount.StoreBlock` | src/xmount.c:1664-1740 | the appended bytes are prefix, data and suffix of the block; failing leaves a file that begins as before |
| `VirtImage.Xmount.StoreNewBlock` | src/xmount.c:1664-1760 | a block is cached as a whole, or the image is as before |
| `VirtImage.Xmount.WriteNewBlock` | src/xmount.c:1663-1765 | a first write to a block shows in the image; each step of it is crash safe |
| `VirtImage.Xmount.WriteCachedBlock` | src/xmount.c:1639-1662 | a write to a cached block shows in the image and never lacks room, because the block is in the file already |
| `VirtImage.Xmount.WriteStep` | src/xmount.c:1634-1776 | one turn of the block loop overwrites the next bytes of the image, or changes nothing; every intermediate state of the file is recoverable |
| `VirtImage.Xmount.WriteBlocks` | src/xmount.c:1630-1776 | the block loop overwrites a stretch of the image, or, when it fails, a first part of it that ends at a block boundary |
| `VirtImage.Xmount.SetVdiFileHeaderData` | src/xmount.c:1317-1431 | a write to the VDI header overwrites it or changes nothing, never touches image and footer, and fails only for 0 bytes or a full medium |
| `VirtImage.Xmount.SetVhdFileHeaderData` | src/xmount.c:1441-1547 | a write to the VHD footer overwrites it or changes nothing, never touches image and VDI header, and fails only for 0 bytes or a full medium |
| `VirtImage.Xmount.WriteParts` | src/xmount.c:1594-1798 | which part of a request goes to the header, to the image blocks and to the footer |
| `VirtImage.Xmount.SetVirtImageData` | src/xmount.c:1556-1801 | a write overwrites the requested stretch of the flat output image and keeps every invariant; exact conditions for -1, and what is committed then; every intermediate state of the file shows a first part of the request |
| `VirtImage.Xmount.ShowsBlocks` | src/xmount.c:1634-1776 | a prefix of a request that is cut at a block boundary of the image is cut where a request may be cut |
| `VirtImage.Xmount.RecoverUnstored` | src/xmount.c:1664-1760 | while a block is being appended, attaching the file shows what it showed before |
| `VirtImage.Xmount.RecoverUnstoredPart` | src/xmount.c:1349-1422 | while a header or footer is being appended, attaching the file shows what it showed before |
| `Session.Reopen` | README:224-225 | closing and mounting again on the same cache file, also under another format, keeps every byte of the image |
| `Session.Serve` | src/xmount.c:1103-1308 | a read gets a slice of the flat image; a write overwrites a stretch of it, fails with room exactly when it is refused, and is cut at a block boundary then; a remount keeps the image and what is cached; cached regions stay where they are |
| `Session.Run` | README:219-225 | every sequence of reads, writes and remounts does to the flat image what its requests say, one after the other, exact failures included, and no cached region moves |
| `Session.RegionsStay` | src/xmount.c:1639-1765 | in every run a region that is cached stays cached, and where it is |
| `Session.OneStep` | src/xmount.c:1556-1801 | a request changes a byte of the image if and only if it is a write that takes effect there |
| `Session.LastWriteWins` | README:219-225 | after every run each byte is the last one written to it, and otherwise the original one |
| `Session.MountAfterCrash` | src/xmount.c:2161-2322 | mounting what a crash left shows the output image those contents stand for |
| `Stdio.File.Read` | src/xmount.c:1162-1168 | fread of one item: all bytes or failure; 0 bytes are a failure |
| `Stdio.File.Write` | src/xmount.c:1337-1343 | fwrite of one item, on a medium of limited capacity |
| `AewfFormat.LaterTable` | libxmount_input/libxmount_input_aewf/libxmount_input_aewf.c:1467-1472 | later tables cover later chunks |
| `AewfFormat.TableUnique` | libxmount_input/libxmount_input_aewf/libxmount_input_aewf.c:842-852 | exactly one table covers each chunk |
| `Aewf.Handle.OldestSegment` | libxmount_input/libxmount_input_aewf/libxmount_input_aewf.c:580-595 | the open file that was not used for the longest time, the first one of several |
| `Aewf.Handle.OpenSegment` | libxmount_input/libxmount_input_aewf/libxmount_input_aewf.c:565-614 | the wanted file is open afterwards, the counter is exact, the limit is exceeded by a single file only, no closed file was used later than one that stays open, and no more are closed than needed |
| `Aewf.Handle.OldestTable` | libxmount_input/libxmount_input_aewf/libxmount_input_aewf.c:631-646 | the loaded table that was not used for the longest time, the first one of several |
| `Aewf.Handle.ReleaseNext` | libxmount_input/libxmount_input_aewf/libxmount_input_aewf.c:629-652 | releasing the table that was unused for the longest time keeps to that order |
| `Aewf.Handle.ReleaseTables` | libxmount_input/libxmount_input_aewf/libxmount_input_aewf.c:627-652 | tables are released in order of use, until the new one fits or none is left; with the last of them kept it would not have fitted |
| `Aewf.Handle.LoadEwfTable` | libxmount_input/libxmount_input_aewf/libxmount_input_aewf.c:616-663 | the wanted table is in memory with the bytes of its file, the cache size is the summed size of the tables in memory, and the limit is exceeded by a single table only |
| `Aewf.Handle.FindTable` | libxmount_input/libxmount_input_aewf/libxmount_input_aewf.c:842-849 | the search finds the table that covers the chunk |
| `Aewf.Handle.PrepareChunk` | libxmount_input/libxmount_input_aewf/libxmount_input_aewf.c:840-859 | for every chunk the search succeeds, and its table and file are ready afterwards |
| `Aewf.Handle.Touch` | libxmount_input/libxmount_input_aewf/libxmount_input_aewf.c:855-856 | table and file are marked as used now, and the caches stay as they are |
| `Aewf.Handle.ChunkSizes` | libxmount_input/libxmount_input_aewf/libxmount_input_aewf.c:780-786 | every chunk but a short last one has the full chunk size, and the chunks cover the image |
| `Aewf.Handle.FindStored` | libxmount_input/libxmount_input_aewf/libxmount_input_aewf.c:759-786 | where the chunk is stored, in 32-bit arithmetic, and the length it must have; table or file not ready and chunk too big are the only errors, each exactly in its case |
| `Aewf.Handle.GoodChunk` | libxmount_input/libxmount_input_aewf/libxmount_input_aewf.c:780-820 | a chunk that can be read is its part of the image |
| `Aewf.Handle.WellFormedImage` | libxmount_input/libxmount_input_aewf/libxmount_input_aewf.c:745-820 | an image all of whose chunks can be read meets every condition of the readers |
| `AewfFormat.ShortChunkDependsOnBuffer` | libxmount_input/libxmount_input_aewf/libxmount_input_aewf.c:800-805 | a chunk stored uncompressed with fewer bytes than the check looks at passes it or not, depending on what was in the buffer before, whatever the checksum of its byte |
| `AewfFormat.SameInflateFailures` | libxmount_input/libxmount_input_aewf/libxmount_input_aewf.c:789-796 | the single-threaded reader and the threads name a failed uncompress differently, but refuse the same data |
| `AewfWriter.ChunkFound` | libxmount_input/libxmount_input_aewf/libxmount_input_aewf.c:763-778 | for every list of chunks laid end to end, every base offset and every chunk of the list: the table leads to exactly its bytes, and says whether it is compressed |
| `AewfWriter.ChunkHeld` | libxmount_input/libxmount_input_aewf/libxmount_input_aewf.c:763-819 | what is made of a chunk is up to its own bytes, wherever in the file it is |
| `AewfWriter.MeaningIsData` | libxmount_input/libxmount_input_aewf/libxmount_input_aewf.c:775-806 | a chunk has certain data if and only if its bytes inflate to them, or are them followed by their checksum, and fit the buffer |
| `AewfWriter.WrittenContent` | libxmount_input/libxmount_input_aewf/libxmount_input_aewf.c:822-868 | the content of every chunk of an opened image, from the bytes it was stored as |
| `AewfWriter.WrittenImage` | libxmount_input/libxmount_input_aewf/libxmount_input_aewf.c:822-868 | an image all of whose tables find chunks that store some data is that data, and all of it can be read |
| `AewfWriter.WriteOpenRead` | libxmount_input/libxmount_input_aewf/libxmount_input_aewf.c:1682-1724 | a file is written for any data, any way to store its chunks, any base offset of the table and any name of the volume section; opening it and reading from it, with either reader, gets the bytes of that data |
| `Aewf.Handle.ReadFilePos` | libxmount_input/libxmount_input_aewf/libxmount_input_aewf.c:305-330 | seek and read: the bytes, or a failed seek, or a failed read that has stored what the file has |
| `Aewf.Handle.InflateIntoBuffer` | libxmount_input/libxmount_input_aewf/libxmount_input_aewf.c:789-796 | the two checks behind uncompress, of which the later one overrides the earlier; AEWF_OK only with the data in the buffer |
| `Aewf.Handle.ReadChunkLegacy0` | libxmount_input/libxmount_input_aewf/libxmount_input_aewf.c:745-820 | what the attempt returns and makes of buffer and mark, for each kind of chunk: one that can be read, one that cannot, and one at which the file ends |
| `Aewf.Handle.ReadChunkLegacy` | libxmount_input/libxmount_input_aewf/libxmount_input_aewf.c:822-868 | a chunk that the buffer is marked with is taken from there, others are attempted; from a buffer in order, the result is that of the chunk, and the buffer stays in order if the chunk can be read or nothing can harm it |
| `Aewf.Handle.AttemptResult` | libxmount_input/libxmount_input_aewf/libxmount_input_aewf.c:788-819 | an attempt reports what is wrong with the chunk, and leaves the buffer with the chunk if nothing is |
| `Aewf.Handle.AttemptKeeps` | libxmount_input/libxmount_input_aewf/libxmount_input_aewf.c:788-819 | the buffer stays in order if the pieces of chunks at which files end agree with the chunks that can be read |
| `Aewf.Handle.RereadAfterTornRead` | libxmount_input/libxmount_input_aewf/libxmount_input_aewf.c:798-819 | that condition is needed: where a piece does not agree with a chunk, reading that chunk, then the torn one, then the first again gives wrong bytes with success |
| `Aewf.Handle.CopyFromChunk` | libxmount_input/libxmount_input_aewf/libxmount_input_aewf.c:883-893 | one turn of the loop copies the next bytes of the chunk, or returns what is wrong with it |
| `Aewf.Handle.ReadLegacy` | libxmount_input/libxmount_input_aewf/libxmount_input_aewf.c:870-897 | the single-threaded reader stores the requested bytes up to the first that cannot be read, and returns that one's error |
| `AewfThreads.StepRunning` | libxmount_input/libxmount_input_aewf/libxmount_input_aewf.c:905-954 | whichever worker takes its next step, the invariant of the round holds on: jobs in progress, failing ones included, buffers as chunk caches, delivered bytes, and untouched bytes |
| `AewfThreads.StepOwn` | libxmount_input/libxmount_input_aewf/libxmount_input_aewf.c:905-954 | a step brings the job forward: to success if the chunk can be read, to failure if not |
| `AewfThreads.StepOthers` | libxmount_input/libxmount_input_aewf/libxmount_input_aewf.c:921-939 | a step leaves bytes delivered by other jobs alone, that of a failing job too |
| `AewfThreads.StepUntouched` | libxmount_input/libxmount_input_aewf/libxmount_input_aewf.c:921-950 | no step writes outside the requested part of the caller's buffer |
| `AewfThreads.Apart` | libxmount_input/libxmount_input_aewf/libxmount_input_aewf.c:1113-1123 | jobs for different chunks have disjoint destinations |
| `AewfThreads.JobRange` | libxmount_input/libxmount_input_aewf/libxmount_input_aewf.c:1113-1123 | a job stays inside its chunk and inside the request |
| `AewfThreads.JobArguments` | libxmount_input/libxmount_input_aewf/libxmount_input_aewf.c:1106-1122 | offset, length and destination given to a job are those of its chunk's part of the request |
| `AewfThreads.Launch` | libxmount_input/libxmount_input_aewf/libxmount_input_aewf.c:1001-1028 | handing out a chunk, be it held already or in exchange for another one, keeps the invariant; no two buffers are marked with the same chunk |
| `AewfThreads.Join` | libxmount_input/libxmount_input_aewf/libxmount_input_aewf.c:1132-1141 | a finished job has returned AEWF_OK exactly if its chunk can be read; the thread is idle again, and holds the chunk then; else it stays marked with a chunk that cannot be read |
| `AewfThreads.LaunchFails` | libxmount_input/libxmount_input_aewf/libxmount_input_aewf.c:1004-1022 | a thread whose chunk could not be read from the file stays idle, marked with that chunk; the round has failed then |
| `AewfThreads.FailedJobStaysMarked` | libxmount_input/libxmount_input_aewf/libxmount_input_aewf.c:905-942 | a job for a chunk that cannot be read returns an error and leaves the thread marked with the chunk |
| `AewfThreads.AllDelivered` | libxmount_input/libxmount_input_aewf/libxmount_input_aewf.c:1128-1142 | when all jobs are joined and none has failed, the buffer holds one stretch of the image |
| `AewfThreads.CoveredMore` | libxmount_input/libxmount_input_aewf/libxmount_input_aewf.c:1115-1122 | each job adds its length to that stretch |
| `AewfThreads.OnlyLastIsSkipped` | libxmount_input/libxmount_input_aewf/libxmount_input_aewf.c:1113-1123 | when all threads have jobs, less than the rest of one chunk remains: a skipped job is the last one |
| `Aewf.Handle.WorkerStep` | libxmount_input/libxmount_input_aewf/libxmount_input_aewf.c:905-954 | one step of each of the three thread functions is the step of the worker state machine |
| `Aewf.Handle.RunWorkers` | libxmount_input/libxmount_input_aewf/libxmount_input_aewf.c:905-954 | any threads run, in any order, for any number of steps: the round stays in order and no job is lost |
| `Aewf.Handle.FindCached` | libxmount_input/libxmount_input_aewf/libxmount_input_aewf.c:1048-1051 | the search for a buffer that holds the chunk |
| `Aewf.Handle.FindIdle` | libxmount_input/libxmount_input_aewf/libxmount_input_aewf.c:1001-1004 | the search for the first idle thread |
| `Aewf.Handle.CachedJob` | libxmount_input/libxmount_input_aewf/libxmount_input_aewf.c:1051-1059 | as long as no job has failed, a buffer with the wanted chunk belongs to an idle thread and can be copied from |
| `Aewf.Handle.FreshJob` | libxmount_input/libxmount_input_aewf/libxmount_input_aewf.c:1004-1025 | the job for a chunk whose stored bytes were read will succeed if the chunk can be read, and fail if not |
| `Aewf.Handle.GiveUp` | libxmount_input/libxmount_input_aewf/libxmount_input_aewf.c:1008-1020 | an idle thread that could not read its chunk from the file |
| `Aewf.Handle.GiveJob` | libxmount_input/libxmount_input_aewf/libxmount_input_aewf.c:1004-1027 | a job given to an idle thread keeps the invariant of the round and adds its length to the sum |
| `Aewf.Handle.ReadChunkMT0` | libxmount_input/libxmount_input_aewf/libxmount_input_aewf.c:959-1034 | the chunk is handed to the first idle thread; without one, the job is skipped silently; an error is returned only for a chunk that cannot be read, and marks a thread with it unless the chunk is too big |
| `Aewf.Handle.ReadChunkMT` | libxmount_input/libxmount_input_aewf/libxmount_input_aewf.c:1036-1094 | the chunk is handed out, unless every thread has a job or the chunk cannot be read |
| `Aewf.Handle.LaunchNext` | libxmount_input/libxmount_input_aewf/libxmount_input_aewf.c:1113-1123 | one turn of the launch loop hands out the next part of the request, or finds every thread with a job, or something in the request that cannot be read |
| `Aewf.Handle.LaunchAll` | libxmount_input/libxmount_input_aewf/libxmount_input_aewf.c:1106-1123 | the jobs handed out cover the request from its start on: all of it, or all but less than a chunk because every thread has a job; otherwise something in it cannot be read |
| `Aewf.Handle.WaitFor` | libxmount_input/libxmount_input_aewf/libxmount_input_aewf.c:1134 | waiting for a thread ends, with its job done |
| `Aewf.Handle.JoinAll` | libxmount_input/libxmount_input_aewf/libxmount_input_aewf.c:1125-1142 | all threads are idle; if no job has failed, the summed lengths are the bytes delivered; an error means that something in the request cannot be read |
| `Aewf.Handle.RoundSettled` | libxmount_input/libxmount_input_aewf/libxmount_input_aewf.c:1125-1142 | after a round all threads hold the chunks they are marked with if and only if none is marked with a chunk of the request that cannot be read |
| `Aewf.Handle.OtherError` | libxmount_input/libxmount_input_aewf/libxmount_input_aewf.c:1113-1123 | a failed round met a chunk that cannot be read, with none before it that is too big: the first error of the request is another one |
| `Aewf.Handle.TooBigError` | libxmount_input/libxmount_input_aewf/libxmount_input_aewf.c:981-985 | where the launch loop ends at a chunk that is too big and all jobs succeed, that is the first error of the request |
| `Aewf.Handle.ReadMT0` | libxmount_input/libxmount_input_aewf/libxmount_input_aewf.c:1096-1147 | one round stores the next bytes of the image, at least one and perhaps not all; it fails only if something in the request cannot be read, and then leaves the buffers in order if and only if the first such chunk is too big; inside a chunk that a thread is marked with, it gets the bytes of that buffer |
| `Aewf.Handle.ReadMT` | libxmount_input/libxmount_input_aewf/libxmount_input_aewf.c:1149-1168 | for every schedule: the multi-threaded reader succeeds if and only if all requested bytes can be read, and stores exactly these; otherwise it ends at most one round before the first byte that cannot be read; a failed request from the start of a chunk, for no more than one round, gets nothing. The buffers hold the chunks they are marked with afterwards if and only if there is no such byte or the chunk of the first one is too big; a request inside a chunk that a thread is marked with gets the bytes of its buffer, with success |
| `Aewf.Handle.RereadAfterFailedRead` | libxmount_input/libxmount_input_aewf/libxmount_input_aewf.c:1004-1022 | a chunk that cannot be read and is not too big: the first request for bytes of it fails, the second one succeeds with the full count |
| `Aewf.Handle.Read` | libxmount_input/libxmount_input_aewf/libxmount_input_aewf.c:1682-1724 | with either reader: AEWF_OK for every request that does not start at a negative position; the count is that of all bytes in range if and only if all of them can be read, the bytes stored are those of the image, and a short count says where reading failed; when the buffers are in order for the next call |
| `AewfExamples.ShortCount` | libxmount_input/libxmount_input_aewf/libxmount_input_aewf.c:1713-1723 | a concrete image of two chunks, of which the second has a wrong checksum, is opened, and a read of both bytes gets less than both, and success; with one thread it gets the first one |
| `AewfExamples.ReadTwice` | libxmount_input/libxmount_input_aewf/libxmount_input_aewf.c:1008-1022 | on that image, with worker threads, the first read of the second byte fails and the second one succeeds |
| `Aewf.Handle.constructor` | libxmount_input/libxmount_input_aewf/libxmount_input_aewf.c:1565-1597 | an opened handle: nothing loaded, open or running |
| `AewfOpen.CollectPartition` | libxmount_input/libxmount_input_aewf/libxmount_input_aewf.c:1467-1472 | the collected tables partition the chunks, and are as many as there are tables with chunks |
| `AewfOpen.CollectedTable` | libxmount_input/libxmount_input_aewf/libxmount_input_aewf.c:1455-1472 | every table section with chunks has its entry, which starts behind the chunks of all earlier ones |
| `AewfOpen.SectorsOfTable` | libxmount_input/libxmount_input_aewf/libxmount_input_aewf.c:1440-1474 | the entry names the sectors section in front of the table, which no other table uses |
| `AewfOpen.NamesOfKinds` | libxmount_input/libxmount_input_aewf/libxmount_input_aewf.c:1420-1497 | the kind of a section is told by its name in any case, and by nothing else; a volume section has three names |
| `AewfOpen.Limits` | libxmount_input/libxmount_input_aewf/libxmount_input_aewf.c:1522-1563 | the limits on sector size, chunk size and number of tables |
| `AewfOpen.SectionSizes` | libxmount_input/libxmount_input_aewf/libxmount_input_aewf.c:1426-1505 | which sizes of a section are accepted, by its kind |
| `AewfOpen.SectionCount` | libxmount_input/libxmount_input_aewf/libxmount_input_aewf.c:1409-1412 | how many sections a file may have |
| `AewfOpen.TablesLieInFiles` | libxmount_input/libxmount_input_aewf/libxmount_input_aewf.c:1476-1480 | an accepted table lies in its file with all its entries if and only if its end fits 64 bits |
| `AewfWriter.Ordered` | libxmount_input/libxmount_input_aewf/libxmount_input_aewf.c:1336-1385 | the written files have a right header and the number 1 |
| `AewfWriter.HeaderRead` | libxmount_input/libxmount_input_aewf/libxmount_input_aewf.c:1336-1355 | the number of a segment file is the one in its header, for all 16-bit numbers |
| `AewfWriter.Walked` | libxmount_input/libxmount_input_aewf/libxmount_input_aewf.c:1396-1522 | what the walk finds in a written file of three sections, byte by byte, whatever its fields are |
| `AewfWriter.IsAccepted` | libxmount_input/libxmount_input_aewf/libxmount_input_aewf.c:1396-1563 | written files whose fields pass the checks are accepted, under each of the three names of a volume section, in any case |
| `AewfExamples.WrappedTable` | libxmount_input/libxmount_input_aewf/libxmount_input_aewf.c:1418-1480 | a concrete file that is opened, and whose table ends at 2^64, outside of it |
| `AewfExamples.MisfitVolume` | libxmount_input/libxmount_input_aewf/libxmount_input_aewf.c:1523-1563 | a concrete file that is opened, and whose image size does not fit its number of chunks: the readers' conditions do not hold |
| `AewfOpen.SectionsApart` | libxmount_input/libxmount_input_aewf/libxmount_input_aewf.c:1508-1519 | sections of a file follow each other without overlap, so their positions increase |
| `AewfOpen.Walk.VisitTable` | libxmount_input/libxmount_input_aewf/libxmount_input_aewf.c:1447-1483 | the checks on a table section, in the order of the code, and the entry it adds |
| `AewfOpen.Walk.VisitSection` | libxmount_input/libxmount_input_aewf/libxmount_input_aewf.c:1418-1505 | the checks on any section, in the order of the code, and what it adds to the tables, sectors and volume found |
| `AewfOpen.Walk.WalkSection` | libxmount_input/libxmount_input_aewf/libxmount_input_aewf.c:1409-1519 | one turn of the section loop: it adds the section to the chain, or returns exactly the error that stands in its way |
| `AewfOpen.Walk.WalkSegment` | libxmount_input/libxmount_input_aewf/libxmount_input_aewf.c:1404-1520 | the loop over a file terminates: with the whole chain of its sections, or at the first obstacle |
| `AewfOpen.Walk.WalkSegments` | libxmount_input/libxmount_input_aewf/libxmount_input_aewf.c:1396-1522 | what was found is what the sections of all files hold |
| `AewfOpen.WalkFinds` | libxmount_input/libxmount_input_aewf/libxmount_input_aewf.c:1396-1522 | there is only one way to follow the links: where a list of sections exists that passes every check, the walk finds it |
| `AewfOpen.Conclude` | libxmount_input/libxmount_input_aewf/libxmount_input_aewf.c:1522-1599 | the final checks in their order, and the handle |
| `AewfOpen.OpenOrdered` | libxmount_input/libxmount_input_aewf/libxmount_input_aewf.c:1396-1599 | for files in order: the handle, if and only if a list of sections exists that passes every check; otherwise the error of the first obstacle or of the final checks |
| `AewfSegments.Qsort` | libxmount_input/libxmount_input_aewf/libxmount_input_aewf.c:1361 | the same segments in the order of their numbers |
| `AewfSegments.OrderUnique` | libxmount_input/libxmount_input_aewf/libxmount_input_aewf.c:1361 | orders of the same segments by number have the same numbers |
| `AewfSegments.CheckNumbers` | libxmount_input/libxmount_input_aewf/libxmount_input_aewf.c:1362-1385 | the sorted segments are accepted if and only if they are numbered from 1 on; duplicates are reported only where there are some |
| `AewfSegments.OrderSegments` | libxmount_input/libxmount_input_aewf/libxmount_input_aewf.c:1336-1385 | the files are accepted if and only if all headers are right and some order of them is numbered from 1 on; the result is that order |
| `AewfOpen.Open` | libxmount_input/libxmount_input_aewf/libxmount_input_aewf.c:1295-1599 | opened if and only if the files can be put in order and a list of sections exists that passes every check; else the error of a header or of the numbering, that of the walk, or that of the final checks. The handle is ready to use if and only if all tables end below 2^64, and fit for the readers if and only if besides the image size fits the number of chunks |
| `Md5Suite.LawOfF` | src/md5.c:214 | F is "if X then Y else Z" in each bit |
| `Md5Suite.LawOfG` | src/md5.c:240 | G is "if Z then X else Y" in each bit |
| `Md5Suite.LawOfH` | src/md5.c:266 | H is the parity in each bit |
| `Md5Suite.LawOfI` | src/md5.c:292 | I is "if Z then X xor Y else not Y" in each bit |
| `Md5Suite.DigestOfEmpty` | src/md5.c:101-382 | the digest of the empty message is the one in appendix A.5 of RFC 1321 |
| `Md5Suite.DigestOfAbc` | src/md5.c:101-382 | the digest of "abc" is the one in appendix A.5 of RFC 1321 |
| `Md5.Round1` | src/md5.c:211-235 | the unrolled round is operations 1 to 16 of RFC 1321 |
| `Md5.Round2` | src/md5.c:237-261 | the unrolled round is operations 17 to 32 of RFC 1321 |
| `Md5.Round3` | src/md5.c:263-287 | the unrolled round is operations 33 to 48 of RFC 1321 |
| `Md5.Round4` | src/md5.c:289-313 | the unrolled round is operations 49 to 64 of RFC 1321 |
| `Md5.State.constructor` | src/md5.c:324-332 | the initial state of section 3.3 of RFC 1321 |
| `Md5.State.Process` | src/md5.c:166-322 | one block: the registers become those of section 3.4 of RFC 1321 |
| `Md5.State.AddLength` | src/md5.c:345-348 | the two count words are the 64-bit number of bits, with carry |
| `Md5.State.Append` | src/md5.c:334-371 | the state stands for the message with the new bytes behind it: digest of all whole blocks, and the rest in the buffer |
| `Md5.PadLength` | src/md5.c:386-387 | the padding reaches 56 mod 64 |
| `Md5.PaddedMessage` | src/md5.c:386-389 | message, padding and length are the padded message of sections 3.1 and 3.2 of RFC 1321 |
| `Md5.State.SavedLength` | src/md5.c:383-385 | the saved length is that of the message before padding |
| `Md5.State.Finish` | src/md5.c:373-393 | the digest of RFC 1321 for the whole message |
| `Md5.HashPieces` | src/md5.c:324-393 | for every way to cut a message into pieces, appending them gives the digest of the whole message |
| `ImageHash.CalculateInputImageHash` | src/xmount.c:1809-1836 | the MD5 of the first 10 MiB as two 64-bit halves; it fails exactly for an empty image |
| `HeaderBuilder.Put` | src/xmount.c:1878-1911 | a field is stored behind those before it |
| `VdiOutput.PutOffsets` | src/xmount.c:1891-1898 | the fields at offset 340 to 367 |
| `VdiOutput.PutBlockMap` | src/xmount.c:1925-1930 | the block map is the identity |
| `VdiOutput.InitVirtVdiHeader` | src/xmount.c:1842-1933 | all bytes of the emitted header and block map, field by field, for every image size that fits |
| `VdiFormat.BlockMapEntry` | src/xmount.c:1925-1930 | entry i of the emitted block map is i |
| `VdiFormat.EmittedFields` | libxmount_input/libxmount_input_vdi/libxmount_input_vdi.c:242-256 | the reader's header structure, laid over an emitted header, has the intended values |
| `VdiFormat.BlocksJustEnough` | src/xmount.c:1857-1858 | the blocks counted are just enough for the image |
| `VdiFormat.EmittedMapEntry` | libxmount_input/libxmount_input_vdi/libxmount_input_vdi.c:336-339 | entry i of the block map, where the reader looks for it, is i |
| `VdiInput.Vdi.FileSeek` | libxmount_input/libxmount_input_vdi/libxmount_input_vdi.c:83-88 | seeking fails exactly for positions that are negative as a long |
| `VdiInput.Vdi.FileRead` | libxmount_input/libxmount_input_vdi/libxmount_input_vdi.c:93-98 | all bytes or failure, with what the file has stored in any case |
| `VdiInput.Vdi.ParseHeader` | libxmount_input/libxmount_input_vdi/libxmount_input_vdi.c:242-256 | the header fields, or the first check that fails |
| `VdiInput.Vdi.LoadBlockMap` | libxmount_input/libxmount_input_vdi/libxmount_input_vdi.c:335-339 | the block map is the table at its offset in the file |
| `VdiInput.Vdi.Open` | libxmount_input/libxmount_input_vdi/libxmount_input_vdi.c:317-342 | exactly which files are accepted, and with which error others are not |
| `VdiInput.PieceOutcome` | libxmount_input/libxmount_input_vdi/libxmount_input_vdi.c:230-234 | reading a piece of a block gives the bytes of the byte-wise lookup, up to the first that fails |
| `VdiInput.NullOutcome` | libxmount_input/libxmount_input_vdi/libxmount_input_vdi.c:224-228 | discarded and unallocated blocks read as zeros |
| `VdiInput.OutsideOutcome` | libxmount_input/libxmount_input_vdi/libxmount_input_vdi.c:218-220 | positions behind the block map fail |
| `VdiInput.Vdi.Read0` | libxmount_input/libxmount_input_vdi/libxmount_input_vdi.c:214-237 | one piece equals the byte-wise lookup, or fails as its first bad byte does |
| `VdiInput.Vdi.Read` | libxmount_input/libxmount_input_vdi/libxmount_input_vdi.c:369-395 | the loop equals the byte-wise lookup for every count in 32 bits, with the error of the first byte that fails |
| `Lookup.OutcomeUnique` | libxmount_input/libxmount_input_vdi/libxmount_input_vdi.c:382-390 | how far a read gets and what it returns are determined by the disk |
| `Lookup.AnotherPiece` | libxmount_input/libxmount_input_vdi/libxmount_input_vdi.c:382-390 | a read is the concatenation of its pieces |
| `VdiRoundTrip.EmittedOpens` | libxmount_input/libxmount_input_vdi/libxmount_input_vdi.c:317-342 | the reader accepts every emitted file but that of an empty image |
| `VdiRoundTrip.IdentityMap` | libxmount_input/libxmount_input_vdi/libxmount_input_vdi.c:335-339 | sizes and block map of an opened emitted file |
| `VdiRoundTrip.EmittedByte` | libxmount_input/libxmount_input_vdi/libxmount_input_vdi.c:214-237 | looking up any byte of an emitted file gives that byte of the image |
| `VdiRoundTrip.EmittedStretch` | libxmount_input/libxmount_input_vdi/libxmount_input_vdi.c:369-395 | looking up any stretch of an emitted file gives the bytes of the image |
| `VdiRoundTrip.EmitOpenRead` | libxmount_input/libxmount_input_vdi/libxmount_input_vdi.c:317-395 | building the header, opening the file and reading from it returns the image bytes for every request in range |
| `VdiRoundTrip.MountedFile` | src/xmount.c:1142-1190 | a mounted VDI image, also after writes to its data, is such a file |
| `VdiFiles.FieldsRead` | libxmount_input/libxmount_input_vdi/libxmount_input_vdi.c:242-256 | from a header with every field free, each value the reader uses is taken from the right one |
| `VdiFiles.EmittedIsPrinted` | src/xmount.c:1842-1933 | the emitted header, as such a list of fields |
| `VdiFiles.FileOpens` | libxmount_input/libxmount_input_vdi/libxmount_input_vdi.c:317-342 | files with any header fields, block map and stored blocks are accepted |
| `VdiFiles.FileByte` | libxmount_input/libxmount_input_vdi/libxmount_input_vdi.c:214-237 | each byte of such a file's disk is that of the stored block that the map leads to, or zero |
| `VdiFiles.OpenRead` | libxmount_input/libxmount_input_vdi/libxmount_input_vdi.c:317-395 | opening such a file and reading from it gets the bytes of the stored blocks, and zeros elsewhere |
| `VdiFiles.FileOfIsFile` | libxmount_input/libxmount_input_vdi/libxmount_input_vdi.h:74-98 | such files exist for every block map, every list of blocks, and any space in front of map and data |
| `QcowFormat.SplitAddress` | libxmount_input/libxmount_input_qcow/libxmount_input_qcow.c:80-90 | the three parts of an address recombine to it and are in bounds |
| `QcowFormat.JoinAddress` | libxmount_input/libxmount_input_qcow/libxmount_input_qcow.c:80-90 | parts in bounds are those of the address they make up, so the split is a bijection |
| `QcowFormat.SameCluster` | libxmount_input/libxmount_input_qcow/libxmount_input_qcow.c:80-90 | addresses in one cluster share their table indexes |
| `BitOps.AddressExpressions` | libxmount_input/libxmount_input_qcow/libxmount_input_qcow.c:80-90 | the masks and shifts of the three functions are the remainders and quotients of the model |
| `BitOps.EntryExpressions` | libxmount_input/libxmount_input_qcow/libxmount_input_qcow.c:187-204 | the masks and shifts that take a table entry apart are the remainders and quotients of the model |
| `BitOps.OffsetMask` | libxmount_input/libxmount_input_qcow/libxmount_input_qcow.c:179-192 | the mask for offsets in the tables is the arithmetic of the model |
| `QcowFormat.PieceCells` | libxmount_input/libxmount_input_qcow/libxmount_input_qcow.c:168-171 | bytes of one piece come from one cluster |
| `Qcow.InSeekRange` | libxmount_input/libxmount_input_qcow/libxmount_input_qcow.c:179-186 | no position computed from the tables is too large to seek to |
| `Qcow.Qcow.FileRead` | libxmount_input/libxmount_input_qcow/libxmount_input_qcow.c:99-107 | what the file does not have reads as zeros |
| `Qcow.Qcow.ParseHeader` | libxmount_input/libxmount_input_qcow/libxmount_input_qcow.c:121-152 | the big-endian fields, or the first check that fails |
| `Qcow.Qcow.Open` | libxmount_input/libxmount_input_qcow/libxmount_input_qcow.c:293-327 | the L1 table and the derived sizes, for every cluster size that the format allows |
| `Qcow.Qcow.FindCluster` | libxmount_input/libxmount_input_qcow/libxmount_input_qcow.c:178-197 | both tables lead to the cluster the format says: compressed, zero, or plain |
| `Qcow.Qcow.ReadCluster` | libxmount_input/libxmount_input_qcow/libxmount_input_qcow.c:198-241 | bytes of a zero, compressed or plain cluster equal the byte-wise lookup |
| `Qcow.Qcow.Read0` | libxmount_input/libxmount_input_qcow/libxmount_input_qcow.c:157-242 | one piece equals the byte-wise lookup |
| `Qcow.Qcow.Read` | libxmount_input/libxmount_input_qcow/libxmount_input_qcow.c:361-387 | the loop equals the byte-wise lookup through L1 and L2, with the error of the first byte that fails |
| `QcowFiles.FieldsRead` | libxmount_input/libxmount_input_qcow/libxmount_input_qcow.c:121-152 | from a header with every field free, each value the reader uses is taken from the right one |
| `QcowFiles.EntryRead` | libxmount_input/libxmount_input_qcow/libxmount_input_qcow.c:179-204 | each kind of table entry is taken for what it was written as: not allocated, read as zeros, stored, or compressed |
| `QcowFiles.ClusterFound` | libxmount_input/libxmount_input_qcow/libxmount_input_qcow.c:178-204 | in files with tables and clusters in any places, both tables lead to the cluster that was meant |
| `QcowFiles.FileCell` | libxmount_input/libxmount_input_qcow/libxmount_input_qcow.c:157-242 | each byte of such a file's disk is that of its cluster |
| `QcowFiles.OpenRead` | libxmount_input/libxmount_input_qcow/libxmount_input_qcow.c:293-387 | opening such a file and reading from it gets the bytes of its clusters, and zeros where there is none |
| `InputImages.NarrowedBytes` | src/xmount.c:3842-3870 | a size limit is the size of the narrowed image, and its bytes are those from the offset on |
| `InputImages.Inputs.LoadInputs` | src/xmount.c:3842-3870 | start-up fails if and only if an image is too small for offset and size limit; the sizes are those of the narrowed images |
| `InputImages.Inputs.GetInputImageData` | src/xmount.c:985-1038 | what the narrowed image has of the request |
| `InputImages.Inputs.Size` | src/xmount.c:2972-2976 | the size of the narrowed image |
| `InputImages.Inputs.Read` | src/xmount.c:2987-2999 | what a narrowed image has of the request, and an error for image numbers that do not exist |
| `InputImages.ConcatAt` | libxmount_morphing/libxmount_morphing_combine/libxmount_morphing_combine.c:187-196 | where bytes of an image lie in the concatenation |
| `Combine.Handle.Morph` | libxmount_morphing/libxmount_morphing_combine/libxmount_morphing_combine.c:113-149 | the reported size is that of the concatenation, in 64 bits |
| `Combine.Handle.FindImage` | libxmount_morphing/libxmount_morphing_combine/libxmount_morphing_combine.c:187-196 | the image that holds a position; the search terminates, also over empty images |
| `Combine.Handle.ReadFromImage` | libxmount_morphing/libxmount_morphing_combine/libxmount_morphing_combine.c:202-234 | one turn of the loop stores the next bytes of the concatenation |
| `Combine.Handle.Read` | libxmount_morphing/libxmount_morphing_combine/libxmount_morphing_combine.c:162-238 | the slice of the concatenation of the narrowed images, for any number of them; requests that start at or reach behind the reported size are refused, and only those |
| `Raid.ChunksInTurn` | libxmount_morphing/libxmount_morphing_raid/libxmount_morphing_raid.c:210-220 | chunk k of the array is chunk k / n of image k % n |
| `Raid.LocateInRange` | libxmount_morphing/libxmount_morphing_raid/libxmount_morphing_raid.c:210-220 | each byte of the array has a place in the counted chunks of an image, from which it can be computed back |
| `Raid.PositionInRange` | libxmount_morphing/libxmount_morphing_raid/libxmount_morphing_raid.c:210-220 | each place in the counted chunks belongs to exactly one byte of the array: the mapping is a bijection |
| `Raid.AllAvailable` | libxmount_morphing/libxmount_morphing_raid/libxmount_morphing_raid.c:216-243 | no request in range reads outside an image |
| `Raid.PieceOutcome` | libxmount_morphing/libxmount_morphing_raid/libxmount_morphing_raid.c:217-243 | a piece of a chunk is a piece of one image |
| `Raid.RunningIsFewest` | libxmount_morphing/libxmount_morphing_raid/libxmount_morphing_raid.c:149-154 | the loop finds the smallest chunk count if and only if every image holds a chunk or the last one holds none |
| `Raid.FewestIsLeast` | libxmount_morphing/libxmount_morphing_raid/libxmount_morphing_raid.c:149-154 | the smallest chunk count is one of the counts and not above any |
| `Raid.Handle.CountChunks` | libxmount_morphing/libxmount_morphing_raid/libxmount_morphing_raid.c:133-155 | the loop over the images leaves a running minimum in which 0 stands for none yet |
| `Raid.Handle.Morph` | libxmount_morphing/libxmount_morphing_raid/libxmount_morphing_raid.c:115-170 | number of chunks and size of the array, in 64 bits; all images have the chunks counted on if and only if every image holds a chunk, the last one holds none, or there is none |
| `Raid.RightCounts` | libxmount_morphing/libxmount_morphing_raid/libxmount_morphing_raid.c:149-154 | the loop counts no more chunks than any image has exactly under that condition |
| `Raid.Handle.ReadFromChunk` | libxmount_morphing/libxmount_morphing_raid/libxmount_morphing_raid.c:217-249 | one turn of the loop equals the byte-wise mapping |
| `Raid.Handle.ReadChunks` | libxmount_morphing/libxmount_morphing_raid/libxmount_morphing_raid.c:209-250 | the loop equals the byte-wise mapping, up to the first byte that is missing |
| `Raid.Handle.Read` | libxmount_morphing/libxmount_morphing_raid/libxmount_morphing_raid.c:183-253 | every request in range gets the mapped bytes if every image has the chunks counted on |
| `Raid.MissingByte` | libxmount_morphing/libxmount_morphing_raid/libxmount_morphing_raid.c:217-243 | where an image lacks chunks, a byte of the array is missing |
| `Raid.Handle.SomeRequestFails` | libxmount_morphing/libxmount_morphing_raid/libxmount_morphing_raid.c:236-243 | where an image lacks chunks that are counted on, some request in range fails |
| `VhdFormat.Rounding` | src/xmount.c:1990-2011 | dividing by sectors and heads loses less than one cylinder |
| `VhdFormat.GeometryFits` | src/xmount.c:1990-2011 | cylinders, heads and sectors fit their fields, and the capacity is the sector count but for less than one cylinder |
| `VhdFormat.TrackSizes` | src/xmount.c:1990-2011 | which images have 17, 31, 63 and 255 sectors a track |
| `VhdFormat.SectorsJustEnough` | src/xmount.c:1979-1988 | the sectors counted are just enough for the image, up to the limit |
| `VhdOutput.CountSectors` | src/xmount.c:1979-1988 | the sectors of the image, at most those that CHS values can address |
| `VhdOutput.HeadsCut` | src/xmount.c:1998-2000 | where 8 bits are too few for the head count, the larger sector counts are chosen anyway |
| `VhdOutput.Geometry` | src/xmount.c:1990-2011 | the code with its 8- and 16-bit variables computes what the appendix on CHS calculation of the Virtual Hard Disk Image Format Specification says on unbounded numbers |
| `VhdOutput.AddBytes` | src/xmount.c:2023-2026 | the sum of all bytes in 32 bits |
| `VhdOutput.InitVirtVhdHeader` | src/xmount.c:1939-2032 | all bytes of the emitted footer, field by field, geometry and checksum included |
| `VhdFormat.ChecksumValid` | src/xmount.c:2023-2027 | the stored checksum is the complement of the sum of all bytes outside its field |
| `VhdFormat.EmittedShape` | src/xmount.c:1975-2015 | a reader finds image size and geometry in their fields |
| `VhdFormat.FixedBytes` | src/xmount.c:1960-2015 | the bytes that are the same in every footer |
| `VhdRoundTrip.MountVhd` | src/xmount.c:3978-3986 | at start-up the output file of a VHD image is the image and its footer of 512 bytes |
| `VhdRoundTrip.MountedFile` | src/xmount.c:1103-1308 | after writes to its data, a mounted VHD image still ends in a footer that names its size, with a valid checksum |
| `LibraryParameters.TakeApart` | src/xmount.c:2899-2943 | the first option of a string and what follows it make up the string |
| `LibraryParameters.SplitFirst` | src/xmount.c:2899-2943 | splitting takes the first option off |
| `LibraryParameters.SplitJoin` | src/xmount.c:2888-2950 | every joined list of options is split into the same list, with or without a comma behind it |
| `LibraryParameters.SplitSound` | src/xmount.c:2888-2950 | whatever is accepted is such a list |
| `LibraryParameters.Accepted` | src/xmount.c:2888-2950 | exactly those strings are accepted |
| `LibraryParameters.Find` | src/xmount.c:2900-2901 | the search for the next separator |
| `LibraryParameters.NextOption` | src/xmount.c:2899-2943 | one turn of the loop takes the first option off the rest of the string, or finds that it is none |
| `LibraryParameters.SplitLibraryParameters` | src/xmount.c:2864-2951 | the parser terminates with the options of the string or with failure; the caller's count stays as it was for an empty string |

## Left out

- FUSE entry points, command-line parsing, library loading, VMDK descriptor and lock files, info files, logging, statistics: no hard property.
- The input libraries for aaff, ewf, aff, aff4 and raw and the morphing libraries swab and unallocated: thin wrappers, the same argument as combine, or code that does not do what it is meant to.
- VirtImage.Xmount.GetVirtImageData: does not model the return value as a C `int`, which sizes from 2^31 on do not fit, nor read errors of the cache file, because its bytes are there to be read.
- VirtImage.Xmount.SetVirtImageData: does not model the return value as a C `int`, nor seek failures; a write to the cache file fails when the medium is full, after storing what fits, and not otherwise. The sum of offset and size is unbounded, where the program computes it in 64 bits.
- VirtImage.Xmount.InitCacheFile: does not cover cache files whose block index is elsewhere than behind the header, because xmount never writes one, nor version 1 files, which the program refuses.
- VirtImage.Xmount.WriteCachedBlock: does not model a failed seek or fwrite, because the write overwrites bytes that the cache file has.
- Session.MountAfterCrash: takes every fwrite as one change of the file, in the order of the program, and a crash as falling between two of them; what the C library and the system do in between is not part of this model.
- Aewf.Handle.Read: states nothing for images with a chunk that is stored uncompressed with fewer bytes than its check looks at, because the outcome is then up to what was in the buffer before (`AewfFormat.ShortChunkDependsOnBuffer`), nor for images whose size does not fit their number of chunks, nor for a thread count of 0, with which the multi-threaded reader makes no progress.
- Aewf.Handle.ReadMT: once a thread is marked with a chunk that cannot be read, states the result of requests inside one marked chunk only; what others do is up to which marks are still there when they get to a chunk.
- Aewf.Handle.ReadFilePos: takes position 2^64 - 1 as one that cannot be sought, where the program uses it for reading on without a seek.
- Aewf.Handle.ReadChunkLegacy0: does not say what uncompress leaves in the buffer when it fails, because nothing is marked as held then. After a failed read of an uncompressed chunk it does say: the piece that was read lies over the old contents, and the old mark stays.
- Aewf.Handle.OpenSegment: does not model failures to close, open or measure a file, because those paths skip the counters; the same holds for reading a table and for memory in AewfLoadEwfTable, and for pthread_create.
- Aewf.Handle.WorkerStep: takes the check of a worker's data and its memcpy as one indivisible step each, because workers write to disjoint parts of memory.
- AewfOpen.Open: qsort is any sorting of the segments by number, and memory is always there.
- inflate, uncompress and adler32 are functions of their input, of which nothing more is known; an inflate that succeeds is taken to have filled its output buffer.
- VdiOutput.InitVirtVdiHeader: does not cover images whose header size does not fit 32 bits; UUIDs and comment texts are arbitrary values.
- VhdOutput.InitVirtVhdHeader: takes time and UUID as arbitrary values.
- Qcow.Qcow.Open: says nothing of derived sizes for cluster sizes outside 2^9 to 2^31, because the program does not check them and shifts by a negative amount have no meaning; snapshots, backing files and refcounts are ignored, as they are by the program.
- LibraryParameters.SplitLibraryParameters: does not model allocation failures, a missing string, or strings longer than 2^32 characters.
