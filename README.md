# star: a verified model of the archive engine

`star` keeps several files in one container file. The container starts with
a free-space count, then a table of 100 free-space slots, then
`ArchiveMetadata {num_files, total_size}`. After that come the records, back
to back. Each record is a `FileInfo {filename[255], file_size,
start_position, status}` header followed by `file_size` content bytes. The
engine creates containers, appends members (first fit in the free table),
finds, lists and extracts members, deletes them (status DELETED and the range
handed back to the free table) and defragments (ACTIVE records are slid
down and the file is cut).

This project models that engine in Dafny and proves properties of it. It
covers both iterations of the code, `star.c` and `mainTest.c`.

- **The container.** It is the byte sequence `image` of the class
  `Container.ArchiveFile`. `fseek` + `fwrite` is `Bytes.WriteAt`, which
  overwrites, zero-fills a gap and extends. `fread` is a slice. `ftruncate`
  is `Truncate`.
- **Structures.** Every structure is encoded as its C struct lies in memory
  (`Layout`):
  - `FileInfo` takes 268 bytes: 255 name bytes, one padding byte, three
    little-endian 32-bit ints.
  - A free slot takes 8 bytes, and so does the metadata.
  - In-memory C `int`s are unbounded integers. They are wrapped to 32 bits
    where they are stored in the file.
- **Operations.** The C functions that loop or change the file are methods
  on the `ArchiveFile` or on the in-memory 100-slot `array<FreeSpaceInfo>`.
  Each method's `ensures` ties its result to a specification function. The
  properties are proved about those functions:
  - find_file_info and list are lookups over the record chain.
  - create then find/extract returns the member.
  - delete hides the name and releases the range.
  - append's allocation is first fit.
  - The free-table merge keeps the total size, the start positions and the
    covered bytes.
  - defragment preserves order, and running it again is a no-op when the
    first run dropped no record.
- **Parameters.** Member files are `Create.Member` values: a name plus the
  bytes, or `None` when the file cannot be opened. Output files are returned
  byte sequences.
  - `Delete` takes the range released as a parameter: with the header
    (`star.c`) or content only (`mainTest.c`).
  - `Defragment` takes the metadata offset and the record base as
    parameters: (0, 8) as the code is written, (804, 812) for the layout
    create writes.

Modules, in dependency order: `Bytes`, `Layout`, `Container`, `FreeSpace`,
`Records`, `Create`, `Extract`, `Delete`, `Append`, `AppendChain`,
`AppendFindings`, `Defragment`, `DefragmentFindings`, `MarkFree`.

## Model

| member | source | states |
|---|---|---|
| Bytes.DecodeEncodeInt | star.c:30-46 | an `int` written to the file reads back as its 32-bit two's-complement wrap-around |
| Bytes.EncodeDecodeInt | star.c:30-46 | every 4 bytes are the encoding of exactly one C `int`, so a read-then-write leaves the bytes unchanged |
| Bytes.WriteAtBytes | star.c:111-147 | an `fseek`+`fwrite` replaces exactly the bytes it covers, a gap past the end reads as zeros, every other byte is kept |
| Bytes.WriteAtSplit | star.c:142-147 | two writes back to back at the cursor equal one write of both |
| Bytes.WriteAtEnd | star.c:114-115 | writing at the end of the file appends |
| Container.ArchiveFile.Write | star.c:111-147 | `fseek(SEEK_SET)` + `fwrite` sets the image to `WriteAt` of the old image |
| Container.ArchiveFile.Truncate | mainTest.c:507-508 | `ftruncate` keeps the first n bytes |
| Layout.CNameOfNameField | star.c:137-138 | the name `strcmp` reads back from a field filled by `strncpy(…, 255)` with `[254] = '\0'` is the name cut at its first NUL and at 254 bytes |
| Layout.DecodeEncodeHeader | star.c:36-41 | a `FileInfo` written with `fwrite` reads back with its ints wrapped to 32 bits |
| Layout.EncodeDecodeHeader | star.c:36-41 | every 268-byte block is the encoding of the header read from it (rewriting a header keeps its padding and the bytes after the name's NUL) |
| Layout.DecodeEncodeTable | star.c:505-514 | save_free_spaces then load_free_spaces gives the table back |
| Layout.EncodeDecodeTable | star.c:505-514 | load_free_spaces then save_free_spaces rewrites the same bytes |
| Layout.DecodeEncodeMeta | star.c:30-33 | metadata written then read gives its fields wrapped to 32 bits |
| Layout.RewriteHeaderInPlace | star.c:425-427 | rewriting a header read from the file with only its status changed keeps the length and every byte outside the four status bytes (offsets 264-267 of the header) |
| Layout.TableUntouched | star.c:136-147 | a write clear of offsets 4..804 leaves what load_free_spaces reads unchanged |
| FreeSpace.FirstEmptyFrom | star.c:517-522 | the result is the lowest slot at or after i with size 0, and every slot before it is non-empty; None when there is none |
| FreeSpace.InsertSlot | star.c:517-522 | the released range goes into the lowest empty slot and nothing else changes; with all 100 slots in use the table is unchanged |
| FreeSpace.CombineKeepsTotal | star.c:525-537 | the combining pass keeps the total of all slot sizes |
| FreeSpace.CombineKeepsStarts | star.c:525-537 | the combining pass changes no start_position |
| FreeSpace.CombineKeepsCoverage | star.c:525-537 | a byte is in a non-empty slot after the combining pass exactly when it was before |
| FreeSpace.ReleaseCoverage | star.c:515-538 | after insert_and_combine a byte is free exactly when it was free before or lies in the released range (the latter only when an empty slot held it) |
| FreeSpace.ReleaseStarts | star.c:515-538 | each start position afterwards is the old one of that slot or the released range's |
| FreeSpace.InsertAndCombineKeepBounds | star.c:515-538 | releasing a range inside [lo, hi) keeps every non-empty slot inside [lo, hi) with a non-negative size |
| FreeSpace.BoundedIsInt32 | star.c:510-514 | a table inside a container shorter than 2^31 bytes holds only C ints, so saving it stores it unwrapped |
| FreeSpace.FirstFitFrom | star.c:94-100 | the result is the lowest slot at or after i with size at least n, and every slot before it is smaller |
| FreeSpace.TakeFrontShrinks | star.c:103-110 | taking n bytes from the first-fit slot leaves that slot's range minus its first n bytes and keeps the table in bounds |
| FreeSpace.LoadFreeSpaces | star.c:505-509 | the array holds the 100 slots decoded from offset 4 |
| FreeSpace.SaveFreeSpaces | star.c:510-514 | the image is the old one with the encoded table written at offset 4 |
| FreeSpace.InsertAndCombine | star.c:515-538 | in place, the array becomes `Combine(InsertSlot(old, s))` |
| FreeSpace.InsertIntoFirstEmpty | star.c:517-522 | the insertion loop leaves `InsertSlot(old, s)` |
| FreeSpace.CombineInPlace | star.c:525-537 | the nested i/j loops leave `Combine(old)` |
| FreeSpace.MergeRowInPlace | star.c:526-536 | the inner j loop for row i leaves `MergeRow(old, i, i + 1)` |
| FreeSpace.MergeStepInPlace | star.c:527-535 | one (i, j) step in place is `MergeStep`: when slot i ends where slot j starts, i takes both sizes and j gets size 0; in the reverse case j takes both and i gets 0 |
| FreeSpace.FindFirstFit | star.c:93-100 | returns the lowest index with size ≥ n, every lower slot being smaller, or -1 when no slot has room |
| FreeSpace.TakeFromSlot | star.c:103-110 | returns the slot's old start; the slot moves its start by n and shrinks by n, is zeroed when it reaches 0, and no other slot changes |
| Records.ChainIsSerialized | star.c:228-244 | a chain of records occupies exactly the bytes of its serialized headers and contents |
| Records.ChainOfSerialized | star.c:228-244 | serialized records written from offset 812 read back as exactly those records, up to the end of the file |
| Records.ChainFrame | star.c:458-503 | a chain depends only on the bytes it occupies |
| Records.FindMatchesEntries | star.c:458-503 | on a container whose records run to its end, find_file_info answers as the lookup over its records |
| Records.LocateOverChain | star.c:477-502 | the scan reads exactly the chain's headers in order, skipping file_size bytes after each |
| Records.LocateIgnoresSurplus | star.c:477-502 | a num_files larger than the number of stored records changes nothing: the scan stops at the end of the file |
| Records.LocatePastChain | mainTest.c:132-177 | with num_files at least the records stored, find_file_info answers as the lookup over them |
| Records.LocateSkip | star.c:496-497 | past a header with another name the scan resumes at the next header with one read fewer |
| Records.LocateHit | star.c:487-494 | a header with the name asked for decides: found when not DELETED, not found when DELETED |
| Records.LocateAtEnd | star.c:479-482 | a failed header read ends the scan with "not found" |
| Records.LocateSound | star.c:477-502 | a reported record is a header of the file with exactly that name and it is never DELETED |
| Records.DeletedShadows | star.c:487-494 | a DELETED first record of a name hides every later ACTIVE record of that name |
| Records.LookupInSound | star.c:487-494 | the lookup lands on a record of the list with that name, and only on one that is not DELETED |
| Records.ChainRewriteHeader | star.c:425-427 | rewriting record k's header in place with the same file_size keeps a chain of the same records with only that header changed |
| Records.ListWalkMatchesEntries | star.c:259-316 | when each start_position is its own content offset, list's absolute seeks follow find_file_info's chain and list reports the ACTIVE names in file order |
| Records.ListPastChain | star.c:284-308 | list told to read at least the stored count reports the names of the ACTIVE records |
| Records.ListIgnoresSurplus | star.c:284-308 | extra headers to read change nothing once the chain fills the file |
| Records.FindFileInfo | star.c:458-503 | the scan loop's result is `FindSpec` of the image: the header found and its offset, or None |
| Records.ListNames | star.c:259-316 | the names reported equal `ListWalk` from offset 812 over num_files headers |
| Create.ZeroTableIsEmpty | star.c:186-198 | the zero-filled table create writes reads back as 100 empty slots |
| Create.StoredAt | star.c:203-252 | record k of a created container holds member k's bytes under a header with member k's name and size, status ACTIVE, and start_position just past the header |
| Create.StoredIsLaid | star.c:228-244 | the records create writes lie back to back, each header pointing at its own content |
| Create.StoredIsConsistent | star.c:228-244 | every header create writes names the offset of its own content |
| Create.CreateLayout | mainTest.c:213-293 | a created container holds the empty table, num_files = number of members named, total_size 0, and a chain of the stored records (up to the first member that cannot be opened) running to the end |
| Create.CreateThenFind | star.c:171-258 | create then find_file_info finds member k under its stored name unless an earlier member has the same stored name, at a header with member k's size pointing just past itself |
| Create.FindInCreated | star.c:458-503 | find_file_info on a created container answers as the lookup over the stored records |
| Create.StoredLookup | star.c:487-494 | over the stored records the lookup of member k's stored name finds record k with member k's bytes |
| Create.CreateStep | star.c:228-244 | one loop turn moves member i's header and content from the pending records to the file |
| Create.CreateArchive | star.c:171-258 | the new file's image equals `CreateImage(ms)` |
| Extract.ExtractSpec | mainTest.c:353-394 | None when find_file_info misses, otherwise exactly the file_size bytes at start_position |
| Extract.ChunksShape | mainTest.c:379-390 | the chunks concatenate to the data; each is non-empty and at most 1024 bytes; all but the last are full; there are ⌈n/1024⌉ of them |
| Extract.CreateThenExtract | mainTest.c:353-394 | a stored member whose stored name no earlier member shares is extracted intact |
| Extract.CopyContent | mainTest.c:379-390 | the copy loop outputs exactly the content and writes it as `Chunks` of it, in order |
| Extract.ExtractMember | mainTest.c:353-394 | the output equals `ExtractSpec` |
| Delete.DeleteSpec | star.c:393-455 | unchanged when the member is not found; otherwise the status rewrite followed by the table load/insert/save |
| Delete.DeletedBranchUnreachable | mainTest.c:404-414 | find_file_info never reports a DELETED header, so delete's "already deleted" branch is dead |
| Delete.ReleasedRange | star.c:432-435 | for a header pointing at its own content, star.c releases the whole record [offset, offset + 268 + size) and mainTest.c (421-424) the content alone |
| Delete.DeleteOnlyStatus | star.c:416-427 | delete writes only the found header's status field (which reads back as DELETED) and the table; every other byte and the length stay |
| Delete.LookupAfterMark | star.c:487-494 | once the first record of a name is DELETED its lookup fails, and every other name's lookup is unchanged |
| Delete.DeleteHides | star.c:393-455 | on a walkable container delete keeps the same records with the first named one DELETED; afterwards that name is not found and every other name answers as before |
| Delete.DeleteReleases | star.c:432-447 | the table saved is the loaded one with the released range inserted and merged; the freed bytes are exactly the old free bytes plus the released range when the table had an empty slot, and exactly the old free bytes when all 100 slots were in use |
| Delete.DeleteMember | star.c:393-455 | the image after the method equals `DeleteSpec` |
| Append.PlaceFirstFit | star.c:93-116 | the placement is the start of the lowest slot with room and every lower slot is too small; that slot loses exactly its first n bytes (zeroed at 0) and nothing else changes; with no room, the end of the file and the table unchanged |
| Append.PlaceIsInt32 | star.c:161 | the table append saves holds C ints when the container is shorter than 2^31 bytes |
| Append.FixOverlapTrims | star.c:118-134 | only the header 268 bytes before the placement changes, only past the metadata and when it claims content past the placement; its file_size drops by exactly the overlap |
| Append.AppendWrites | star.c:136-147 | at the placement a header reads back with the name cut to 254 bytes, the member's size, ACTIVE, start_position just past itself, followed by the content |
| Append.AppendBumpsCount | star.c:153-161 | append saves the allocation's table and num_files goes up by one, total_size kept |
| Append.BumpAndSaveEffect | star.c:153-161 | the end of append changes only the metadata (num_files + 1) and the table; the entry region and the length are kept |
| Append.Allocate | star.c:93-116 | the start and the table it leaves are `Place(old table, n, eof)` |
| Append.FixOverlapAt | star.c:118-134 | the image after the overlap fix equals `FixOverlap(old, start)` |
| Append.WriteRecord | star.c:136-147 | the header then the content written at the placement give `PlaceRecord` |
| Append.BumpCountAndSave | star.c:153-161 | the metadata rewrite then save_free_spaces give `BumpAndSave` |
| Append.AppendMember | star.c:63-167 | the image after the method equals `AppendSpec` (allocation, overlap fix, record, count, table) |
| AppendChain.LookupSnoc | star.c:487-494 | after a record is added last, every name an earlier record holds answers as before, and a new name is found at the new record |
| AppendChain.AppendFixedExtendsChain | star.c:63-167 | appending (overlap fix on the real predecessor, which never trims) with no slot of room keeps the container walkable with the new record last, consistent headers, the same table, and find_file_info answering over the extended list |
| AppendFindings.AppendRewritesTail | star.c:118-134 | when the last 268 bytes of the file decode as a header claiming bytes past the end, append as written rewrites them |
| AppendFindings.AppendTrimClobbers | star.c:118-134 | in that case the last member's stored content, when at least 268 bytes, is no longer what was stored |
| Defragment.CompactShrinks | mainTest.c:484-505 | write_index never passes read_index: the compacted records take no more bytes than the walked ones, and equally many only when all are ACTIVE |
| Defragment.CompactIsKept | mainTest.c:484-505 | record k of the result is the k-th ACTIVE record with the same content and header except start_position |
| Defragment.CompactKeepsNames | mainTest.c:484-505 | list reports the same names in the same order after compaction |
| Defragment.CompactIsLaid | mainTest.c:484-503 | the compacted records lie back to back, each start_position = write_index + 268 |
| Defragment.CompactNoop | mainTest.c:479-506 | with nothing DELETED and records already in place, compaction changes nothing |
| Defragment.RunKeepsState | mainTest.c:479-506 | every loop turn keeps write_index ≤ read_index, the written prefix equal to the compacted records so far, and every byte past read_index untouched |
| Defragment.CopyDown | mainTest.c:479-506 | one loop turn: the file, read_index and write_index become the next `Run` state |
| Defragment.Defragment | mainTest.c:465-515 | the file after the method equals `DefragImage`: the bytes before base, the compacted records, cut after them, total_size = that length, num_files kept |
| Defragment.DefragAround | mainTest.c:507-512 | the result is no longer than before; the bytes outside the metadata and the records are kept; num_files is kept and total_size is the new length |
| Defragment.DefragRecords | mainTest.c:484-512 | from base on, the result holds exactly the compacted records, up to its end |
| Defragment.DefragKeepsRecords | mainTest.c:479-512 | with every record ACTIVE and in place, defragment moves nothing and only stores the length as total_size |
| Defragment.DefragTwice | mainTest.c:465-515 | when nothing was dropped, defragmenting twice equals defragmenting once |
| Defragment.LookupCompact | mainTest.c:484-505 | after compaction a name is found exactly when some ACTIVE record had it |
| Defragment.DefragFind | mainTest.c:465-515 | find_file_info on the defragmented container (create's layout) is the lookup over the compacted records |
| Defragment.DefragList | mainTest.c:465-515 | list on the defragmented container reports the ACTIVE names, in file order, as before |
| DefragmentFindings.CreatedLegacyMeta | mainTest.c:474-477 | the metadata read at offset 0 of a created container is {0, 0}: the free-space count and an empty slot |
| DefragmentFindings.LegacyDefragWipes | mainTest.c:465-515 | defragment as written on any created container leaves only 8 bytes, and no name is found afterwards |
| DefragmentFindings.LegacyDefragLosesMember | mainTest.c:465-515 | a member found in a created container is no longer found after the as-written defragment |
| DefragmentFindings.DefragCreated | mainTest.c:465-515 | with the metadata at 804 and records from 812, defragment of a created container keeps every byte but total_size, which becomes the length |
| DefragmentFindings.DefragCreatedFinds | mainTest.c:465-515 | after that defragment find_file_info answers every name as before |
| MarkFree.FirstTouching | mainTest.c:188-203 | the result is the first slot read whose end is the range start or whose start is the range end, and no earlier slot touches; None when no whole slot touches |
| MarkFree.Grown | mainTest.c:189-197 | a slot ending at start grows at its end; otherwise its start moves to start; either way its size grows by the range size |
| MarkFree.MarkGrowsFirstTouching | mainTest.c:188-203 | when a slot touches, only that first one changes (it reads back grown) and every other byte and the length are kept |
| MarkFree.MarkAppendsSlot | mainTest.c:204-209 | when none touches, the file keeps its bytes and gains {start, size} where the scan stopped |
| MarkFree.MarkFreeSpace | mainTest.c:180-210 | the image after the scan equals `MarkSpec` |

## Left out

- The command line, `verbose_level`, `showValidOptions` and the final verbosity print (star.c:571-728, mainTest.c:813-972). They are the user interface and process-wide state.
- The printers `print_free_spaces` and `list_free_spaces`, and the `printf` tracing inside the operations. They only produce output.
- `extractAll`, `update` and the folder helpers (`extractAllToFolder`, `createFromFolderAndFile`, `archivoExisteEnCarpeta`, `eliminarCarpetaRecursiva`). They walk directories and create files. extract is modelled for one member; main.c is not part of this model.
- Failing `fopen`, `malloc` and `ftruncate` calls. The container is assumed open; an unopenable member file is `None`.
- Reads past the end of the file, where `fread` leaves the buffer as it was. These are excluded by `requires` (the record chain lies inside the file). The one exception is the failed header read that ends a scan, which is modelled.
- The uninitialised padding byte and the bytes after the name's NUL in a new `FileInfo` are written as zeros.
- C `int` overflow (undefined behaviour) in sizes and offsets. Lemmas that need stored values to read back require containers shorter than 2^31 bytes.
- The signed/unsigned mixing in `file_size + sizeof(FileInfo)` and in `prev_file_end_pos > …` (star.c:96, star.c:120). It is modelled as signed comparison of non-negative values, and a placement is always past offset 812.
- list in mainTest.c (mainTest.c:339) seeks relative to the current position. That walk is the one find_file_info does, so it is covered by Records.FindFileInfo's scan rather than separately.
- MarkFree.MarkFreeSpace models mark_free_space on the older layout it reads (slots right after the 8-byte metadata). It is declared (mainTest.c:61) but never called, so nothing composes it with the other operations.
- Defragment.Defragment keeps num_files as the code does. The free-space table is left as it was, although the ranges it describes may no longer be free after compaction.
- Container.ArchiveFile.Write states its effect as `WriteAt`; the byte-level facts are in Bytes.WriteAtBytes.
- AppendFindings.AppendTrimClobbers shows the clobbering for an append at the end of the file; clobbering after placement in a free slot is not modelled.
- Append.AppendMember placing a member in a free slot (star.c:103-110): the header and content written there are characterised (Append.AppendWrites, Append.PlaceFirstFit), but no lemma says what find_file_info or list answer afterwards. Only the end-of-file case is tied to the record chain (AppendChain.AppendFixedExtendsChain). The code reuses a slot released by delete (the whole record, star.c:433-435) and takes only 268 + file_size bytes from its front. So when the new member is smaller than the deleted record, the walk that skips file_size bytes (star.c:496-497) lands in the deleted record's leftover content and may read it as a header. The model does not promise that later records are still found or listed in that case.
- Defragment.DefragTwice holds only when the first run dropped no record. The code writes num_files back unchanged (mainTest.c:510-512), so after a record is dropped a second run walks more headers than remain and reads past the truncated end (mainTest.c:479-483). Such reads are outside the model.
- Layout.CName reads a 255-byte name field with no NUL as the whole field. The C `strcmp` (star.c:488) would go on reading into the padding byte and the ints that follow. Names written by create and append always end in a NUL within the field (star.c:137-138), so this arises only for bytes that were never a header.

## Findings

| source | as written | input that shows it | evidently intended | confidence | as-written member | corrected member |
|---|---|---|---|---|---|---|
| star.c:118-134 | the 268 bytes just before the placement are read as a header and its file_size is trimmed when it claims bytes past the placement | a container whose last member's content is at least 268 bytes and ends with bytes that decode as a header claiming bytes past the end; no free slot has room | the predecessor in the chain ends exactly at the placement, so nothing is ever trimmed and the last member keeps its bytes | not executed | AppendFindings.AppendTrimClobbers | AppendChain.AppendFixedExtendsChain |
| mainTest.c:474-477 | defragment reads the metadata at offset 0 and walks records from offset 8 | any container create wrote: the int at 0 is 0, so no record is walked and the file is cut to 8 bytes | metadata at 804 and records from 812, the layout create and append use | not executed | DefragmentFindings.LegacyDefragLosesMember | DefragmentFindings.DefragCreatedFinds |
