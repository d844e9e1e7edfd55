# Pintos indexed file system: buffer cache, inode index, path helper

This project models three sequential pieces of a Pintos file system in Dafny and proves properties of them.

- **The sector buffer cache** (`cache.c`) is modelled in `cache.dfy`, module `BufferCache`.
  - The state is a class with a 64-slot `array<Slot>` and an abstract block device (`map<Sector, seq<byte>>`).
  - It covers lookup with optional pinning, fault-in from the device and bounded slot reads and writes.
  - It covers second-chance eviction, which restarts at slot 0 and writes back a dirty victim.
  - It covers `cache_read`, `cache_write`, `write_back_all`, and one pass each of the write-behind and read-ahead workers.
  - Every operation keeps the table invariant: no sector is resident twice, invalid slots are reset, and a clean slot agrees with the device.
  - Every operation is proved against what a read of each sector returns (`Contents`).
- **The inode index** (`inode.c`) is modelled across four files:
  - `block_index.dfy` (module `BlockIndex`): the index arithmetic `bytes_to_sectors`, `b2s`, `bd_index`, `bt_index`.
  - `inode_layout.dfy` (module `InodeLayout`): the on-disk shape of a file (a record, a Block Directory and Block Tables of 128 entries), the translation `bd_byte_to_sector`, what `install_bd` writes, and what `close_bd` releases.
  - `inode_growth.dfy` (module `InodeGrowth`): the index `file_growth` builds. It fills the last table, then adds new tables laid out as `install_bd` lays them out.
  - `inode.dfy` (module `Inodes`): a `FileSystem` class whose fields are the sector store, the set of free sectors, and the open inodes keyed by their record sector. Its methods are `install_bd`, `inode_create`, `file_growth`, `close_bd`, open/reopen/close/remove, deny/allow write, and the chunked `inode_read_at` and `inode_write_at`.
  - The central invariant is `FileOk`:
    - the record and the directory agree;
    - `alloc_num = 1 + bt_num + data sectors`;
    - the index has the shape of a file of `bytes_to_sectors(length)` sectors;
    - all its sectors are distinct and none is free;
    - the tail of the last sector is zero.
  - Creation, growth and writes keep `FileOk`. Closing a removed inode gives back exactly the file's sectors.
- **`last_name`** (`filesys.c`) is modelled in `path.dfy`, module `Path`.
- `sectors.dfy` (module `Sectors`) holds the shared vocabulary: bytes, 32-bit sector numbers, the `-1` sentinel, and 512-byte sector buffers.

The inode layer is modelled as the authors evidently intended in three places, each listed under "## Findings" with the code as written modelled beside it:
- every `block_write` of the inode layer is coherent with the cache (`Cache.BlockWrite`);
- a `cache_write` keeps the bytes of the sector outside the chunk (`Cache.CacheWriteKeeping`);
- `file_growth` fills the last table from the entry after that of the last data sector, at every length.

A kernel `PANIC` that a caller can reach is modelled as a `halted` result. The contracts say exactly when it happens and what state it leaves. Nothing changes, except when `file_growth` runs out of free sectors: it panics before its release loop (inode.c:265-271), so the sectors it took stay allocated and the free set is empty. An `ASSERT`, or a panic that only a caller's mistake can reach, is a precondition.

Two of the panics modelled as written look unintended, and the contracts show when they happen:
- `inode_read_at` of a nonempty request at the end of a file whose length is a whole number of tables panics in `bd_byte_to_sector` (inode.c:112-113), because the directory entry there is -1. The empty file is such a file, so any nonempty read of it panics (`Inodes.FileSystem.ReadAt`).
- A read that stops at the end of a file whose length is a whole number of sectors queues sector -1 for read-ahead (inode.c:533-535), and the read-ahead worker panics on it in `get_bce_idx` (`BufferCache.Cache.ReadAheadPass`).

## Model

| member | source | states |
|---|---|---|
| Sectors.Zeros | pintos/src/filesys/cache.c:26 | a sector buffer of 512 zero bytes |
| Sectors.Splice | pintos/src/filesys/cache.c:99 | `memcpy` into a sector: bytes `[ofs, ofs+n)` become the buffer, every other byte is kept, the length is unchanged |
| Path.FinalComponent | pintos/src/filesys/filesys.c:54-61 | the characters after the last '/': a suffix of the input, free of '/', preceded by a '/' when shorter than the input |
| Path.LastNameOf | pintos/src/filesys/filesys.c:43-66 | the result of `last_name` is a suffix of the input, never longer, and contains no '/' when the input is longer than one character |
| Path.LastName | pintos/src/filesys/filesys.c:43-66 | the backwards scan returns exactly `LastNameOf(src)` |
| Path.NoSlashUnchanged | pintos/src/filesys/filesys.c:54-65 | a string without '/' is its own final component |
| Path.AfterLastSlash | pintos/src/filesys/filesys.c:54-61 | if `i` is the last '/', the final component is exactly `s[i+1..]` |
| Path.LastNameAfterLastSlash | pintos/src/filesys/filesys.c:52-61 | for a path longer than 1 character with a '/', the result is exactly what follows the last '/' |
| Path.LastNameWithoutSlash | pintos/src/filesys/filesys.c:54-65 | a path with no '/' comes back unchanged |
| Path.LastNameOfShort | pintos/src/filesys/filesys.c:51-65 | paths of length 0 or 1, "/" included, come back unchanged |
| Path.LastNameTrailingSlash | pintos/src/filesys/filesys.c:56-59 | a longer path ending in '/' yields the empty name |
| BlockIndex.TablesFor | pintos/src/filesys/inode.c:177 | `DIV_ROUND_UP(x, 128)` is the least count of 128-entry tables covering `x` |
| BlockIndex.BytesToSectors | pintos/src/filesys/inode.c:38-42 | `bytes_to_sectors` is the least count of 512-byte sectors covering `size` |
| BlockIndex.B2S | pintos/src/filesys/inode.c:86-89 | `b2s(b)` is at least 1 and is the 1-based number of the sector holding byte `b` |
| BlockIndex.BdIndex | pintos/src/filesys/inode.c:65-71 | `bd_index(s)` for `s >= 1` is `(s - 1) / 128`, the table of the 1-based sector number `s` |
| BlockIndex.BtIndex | pintos/src/filesys/inode.c:72-78 | `bt_index(s)` for `s >= 1` is `(s - 1) % 128`, below 128, the entry of `s` in its table |
| BlockIndex.LastSectorEntry | pintos/src/filesys/inode.c:279-291 | for a file of `n >= 1` data sectors, `bd_index(n)` is its last table and `bt_index(n) + 1` counts its sectors in that table, so the fill starts at entry `bt_index(n) + 1` |
| BlockIndex.IndexSplit | pintos/src/filesys/inode.c:65-78 | for `s >= 1`: `bd_index(s)*128 + bt_index(s) == s-1` and `bt_index(s) < 128` |
| BlockIndex.PositionIndex | pintos/src/filesys/inode.c:107-121 | byte `pos` is in table `pos/512/128`, at entry `pos/512%128` |
| BlockIndex.GrowthStartAfterLastEntry | pintos/src/filesys/inode.c:279-291 | when the length is not a multiple of 512, `b2s(length)` is the sector count, so the source's `bt_index(b2s(length))` and `bd_index(b2s(length))` equal the corrected `bt_index(bytes_to_sectors(length))` and `bd_index(bytes_to_sectors(length))`: the fill starts right after the last used entry of the last table |
| BlockIndex.GrowthStartAtSectorBoundary | pintos/src/filesys/inode.c:279-291 | when the length is a nonzero multiple of 512, `bt_index(b2s(length))` is one past the corrected start (the fill skips an entry) unless the sector count is a multiple of 128, where it is entry 0 and `bd_index(b2s(length))` names a table that does not exist |
| BlockIndex.EndOfFile | pintos/src/filesys/inode.c:495-498 | at offset `length`, the sector ordinal is in use iff `length % 512 != 0`, and its table exists iff `length % 65536 != 0` |
| BlockIndex.SameSector | pintos/src/filesys/inode.c:499-507 | bytes inside the rest of a sector share its sector number, at consecutive in-sector offsets |
| BlockIndex.ChunkEndsOnBoundary | pintos/src/filesys/inode.c:503-507 | a chunk that runs to the end of its sector ends on a sector boundary |
| BlockIndex.InChunk | pintos/src/filesys/inode.c:499-507 | a run inside one sector holds exactly the bytes between its in-sector offsets (both directions) |
| InodeLayout.BytesAt | pintos/src/filesys/inode.c:530 | a data sector read through the cache yields 512 bytes |
| InodeLayout.FileHasAppend | pintos/src/filesys/inode.c:530-545 | consecutive runs of file bytes join up, as the read loop appends chunks |
| InodeLayout.SectorSlice | pintos/src/filesys/inode.c:530 | a run inside the sector holding `pos` is the slice of that sector from `pos % 512` |
| InodeLayout.TablesFit | pintos/src/filesys/inode.c:568-571 | a file of at most `MAX_FILE_SIZE` bytes needs at most 128×128 sectors and at most 128 tables |
| InodeLayout.Translate | pintos/src/filesys/inode.c:101-128 | `bd_byte_to_sector` panics iff `pos > length` or the directory entry is -1; otherwise it returns entry `bt_index(b2s(pos))` of table `bd_index(b2s(pos))` |
| InodeLayout.TranslateInside | pintos/src/filesys/inode.c:101-128 | inside a well-formed file, every byte translates to one of its data sectors in use |
| InodeLayout.TranslateAtEnd | pintos/src/filesys/inode.c:495-498 | translating offset `length` panics iff the length is a multiple of 128 sectors (the empty file included); otherwise it gives -1 at a sector boundary, or the last data sector |
| InodeLayout.InstallTable | pintos/src/filesys/inode.c:199-213 | Block Table `k` as `install_bd` fills it: entries in use take data sectors from the allocation order, the rest are -1 |
| InodeLayout.InstallDir | pintos/src/filesys/inode.c:196-204 | the Block Directory as `install_bd` fills it: `ceil(s/128)` table sectors, then -1 |
| InodeLayout.TablesFrame | pintos/src/filesys/inode.c:199-213 | later writes to lower positions of the allocation order keep the tables already written |
| InodeLayout.InstalledEntries | pintos/src/filesys/inode.c:199-217 | every entry read back through the installed directory is the allocated sector for it, or -1 when unused |
| InodeLayout.InstalledSeparate | pintos/src/filesys/inode.c:180-217 | the record, directory, tables and data sectors `install_bd` writes are pairwise distinct |
| InodeLayout.InstalledShaped | pintos/src/filesys/inode.c:196-213 | the installed index has the shape of a file of `s` data sectors |
| InodeLayout.InstalledZero | pintos/src/filesys/inode.c:205-210 | every byte of the installed data sectors is zero |
| InodeLayout.InstalledOwns | pintos/src/filesys/inode.c:177-217 | the installed file owns only the record and the allocated sectors |
| InodeLayout.InstalledFileOk | pintos/src/filesys/inode.c:165-225 | `install_bd` leaves a well-formed file whose bytes are all zero and whose sectors are the allocated ones and the record |
| InodeLayout.TableData | pintos/src/filesys/inode.c:153-157 | the data sectors `close_bd` releases from table `k`: exactly its entries in use, in entry order |
| InodeLayout.ReleaseOrder | pintos/src/filesys/inode.c:149-161 | what `close_bd` releases for the first `k` tables holds at least one sector per table and ends with table `k - 1` itself, after its data |
| InodeLayout.ReleaseOrderLength | pintos/src/filesys/inode.c:148-163 | `close_bd` releases one sector per table plus one per data sector in use |
| InodeLayout.ReleaseOrderMembers | pintos/src/filesys/inode.c:149-159 | a sector is released by the table loop iff it is one of those tables or a data sector in use in them |
| InodeLayout.ReleasedAreOwned | pintos/src/filesys/inode.c:140-164 | `close_bd` releases exactly the sectors the file owns: tables, data, directory and record |
| InodeLayout.InstalledCovers | pintos/src/filesys/inode.c:177-213 | every sector `install_bd` allocated ends up as the directory, a table or a data sector in use |
| InodeLayout.ReleaseUndoesInstall | pintos/src/filesys/inode.c:140-225 | closing a file that `install_bd` just built releases exactly the sectors it allocated, plus the record |
| InodeLayout.TranslatePos | pintos/src/filesys/inode.c:101-128 | for `pos <= length`: the sector of that byte; -1 only at a length that is a whole number of sectors; a panic only at a length that is a whole number of tables |
| InodeLayout.FileTranslates | pintos/src/filesys/inode.c:101-128 | every well-formed file translates as `TranslatePos` states |
| InodeLayout.ChunkTarget | pintos/src/filesys/inode.c:580-589 | the sector a write chunk lands in is a data sector of the file in use, not a table, directory or record, and no other sector's bytes live there |
| InodeLayout.SameTables | pintos/src/filesys/inode.c:101-128 | disks with the same tables translate every byte alike and give the file the same sectors |
| InodeLayout.ChunkKeepsTables | pintos/src/filesys/inode.c:619 | writing a chunk into a data sector changes no table of the file |
| InodeLayout.ChunkByte | pintos/src/filesys/inode.c:619 | after a chunk is spliced into its sector, byte `p` is the chunk's byte inside the chunk and the old byte elsewhere |
| InodeLayout.ChunkBytes | pintos/src/filesys/inode.c:619 | a chunk write as the corrected `cache_write` does it (`Cache.CacheWriteKeeping`) changes exactly the file bytes of the chunk |
| InodeLayout.ChunkFileOk | pintos/src/filesys/inode.c:619 | a chunk write keeps the file well formed |
| InodeGrowth.TablesShift | pintos/src/filesys/inode.c:248-250 | `r` more sectors after `t` full tables need `t + ceil(r/128)` tables |
| InodeGrowth.TablesWithin | pintos/src/filesys/inode.c:248-250 | growth within the capacity of the existing tables adds no table |
| InodeGrowth.LastTableFill | pintos/src/filesys/inode.c:282-293 | the count of data sectors the partial fill puts into the last table: from its first free entry to its end, or fewer |
| InodeGrowth.NewTableData | pintos/src/filesys/inode.c:247-251 | the data sectors that go into new tables; together with the fill and the new tables they are exactly `add_alloc_num` |
| InodeGrowth.NewTablesTemp | pintos/src/filesys/inode.c:310-321 | the allocation list the new-table loop works down is laid out as `install_bd`'s, with room for the directory on top |
| InodeGrowth.FillTable | pintos/src/filesys/inode.c:286-293 | the filled last table: entries `first .. first+m` take sectors from the top of `temp` down, every other entry is kept |
| InodeGrowth.GrownDir | pintos/src/filesys/inode.c:314 | the grown directory keeps the old tables and lists the new ones after them |
| InodeGrowth.TakenNotOwned | pintos/src/filesys/inode.c:263-273 | the sectors growth allocates were free, so the old file owns none of them |
| InodeGrowth.OldTableKept | pintos/src/filesys/inode.c:282-321 | an old table other than a filled last one is not rewritten |
| InodeGrowth.OldDataKept | pintos/src/filesys/inode.c:282-321 | an old data sector is not rewritten |
| InodeGrowth.NewSlot | pintos/src/filesys/inode.c:287-317 | a new data sector is taken from the top `m` positions of the allocation order when it fills the last table, otherwise from below them |
| InodeGrowth.NewTableSlot | pintos/src/filesys/inode.c:314 | a new table sector is taken from below the top `m` positions |
| InodeGrowth.NewSlotsApart | pintos/src/filesys/inode.c:287-317 | different new data sectors take different positions of the allocation order |
| InodeGrowth.NewSlotNotTable | pintos/src/filesys/inode.c:310-317 | a new data sector never takes a new table's position |
| InodeGrowth.KeptTableEntry | pintos/src/filesys/inode.c:282-321 | every entry of a kept old table is as the grown index needs it |
| InodeGrowth.FilledTableEntry | pintos/src/filesys/inode.c:286-293 | every entry of the filled last table is the old entry or a zeroed sector just taken |
| InodeGrowth.FilledEntry | pintos/src/filesys/inode.c:286-293 | entry `j` of the last old table after the fill, case by case |
| InodeGrowth.NewTableAt | pintos/src/filesys/inode.c:310-321 | new table `i` is taken from the allocation order and is table `i-t` of the index `install_bd` would build for the new sectors |
| InodeGrowth.NewTableIn | pintos/src/filesys/inode.c:310-321 | table `k` installed after `t` old tables sits at directory slot `t+k` |
| InodeGrowth.NewTableCount | pintos/src/filesys/inode.c:310-321 | new table `i` is within the table count of the new-sector index |
| InodeGrowth.NewTableEntry | pintos/src/filesys/inode.c:312-319 | every entry of a new table is a zeroed sector just taken, or -1 past the new length |
| InodeGrowth.NewDataZero | pintos/src/filesys/inode.c:310-321 | every new data sector was taken from the allocation order and holds zeros |
| InodeGrowth.GrownTable | pintos/src/filesys/inode.c:310-321 | each directory slot after growth is an old table, a new table or -1 |
| InodeGrowth.GrownEntry | pintos/src/filesys/inode.c:279-321 | every entry of the grown tables is an old data sector kept, or a new one taken and zeroed |
| InodeGrowth.GrownDirShaped | pintos/src/filesys/inode.c:310-325 | the grown directory lists `ceil(n2/128)` tables of 128 entries, then -1 |
| InodeGrowth.GrownShaped | pintos/src/filesys/inode.c:279-335 | the grown index has the shape of a file of `n2` data sectors |
| InodeGrowth.GrownTablesApart | pintos/src/filesys/inode.c:310-321 | the grown directory lists distinct tables, none of them the record or the directory |
| InodeGrowth.GrownEntriesApart | pintos/src/filesys/inode.c:279-321 | no data sector of the grown file is its record, directory or a table |
| InodeGrowth.EntryNotTable | pintos/src/filesys/inode.c:279-321 | a data sector of the grown file is not one of its tables |
| InodeGrowth.EntriesApart | pintos/src/filesys/inode.c:279-321 | different data entries of the grown file are different sectors |
| InodeGrowth.GrownSeparate | pintos/src/filesys/inode.c:263-321 | all sectors of the grown file are distinct |
| InodeGrowth.GrownOwned | pintos/src/filesys/inode.c:263-321 | every sector of the grown file was the old file's or was taken by the growth |
| InodeGrowth.GrownByte | pintos/src/filesys/inode.c:282-321 | each byte of the grown file is the old byte in the old sectors and zero in the new ones |
| InodeGrowth.GrownFileOk | pintos/src/filesys/inode.c:226-339 | `file_growth` leaves a well-formed file of the new length, with the old bytes below the old length and zeros after them |
| InodeGrowth.NewTablesTempApart | pintos/src/filesys/inode.c:310-321 | the sectors left for new tables are distinct, and none of them was taken by the fill |
| InodeGrowth.LastTableApart | pintos/src/filesys/inode.c:282-301 | the last old table is not the directory and not a sector taken |
| InodeGrowth.GrowthCompleted | pintos/src/filesys/inode.c:322-335 | writing back the grown directory and record after the table work gives the disk `file_growth` leaves |
| InodeGrowth.WriteBackKeepsFill | pintos/src/filesys/inode.c:325-335 | writing back the directory and record keeps the fill and the zeroed sectors, and changes nothing else |
| InodeGrowth.WriteBackKeepsTables | pintos/src/filesys/inode.c:325-335 | writing back the directory and record keeps the new tables |
| InodeGrowth.GrowthWithoutSectors | pintos/src/filesys/inode.c:333-335 | when no sector is needed, rewriting the record with the new length is the whole growth |
| InodeGrowth.FillCount | pintos/src/filesys/inode.c:282-293 | the fill loop's trip count is `LastTableFill` |
| InodeGrowth.FillSetup | pintos/src/filesys/inode.c:274-285 | when the last used entry is not the table's last, the fill starts right after it, in the file's last table, which is apart from every sector growth writes |
| InodeGrowth.FillDone | pintos/src/filesys/inode.c:282-301 | the fill loop performs the fill of the last table and leaves `|temp| - LastTableFill` sectors |
| InodeGrowth.NoFillSetup | pintos/src/filesys/inode.c:274-282 | an empty file, or one whose last table is full, skips the fill, and the disk already is as the fill leaves it |
| InodeGrowth.NothingToFill | pintos/src/filesys/inode.c:274-282 | an empty file, or one whose last table is full, has `LastTableFill == 0` |
| InodeGrowth.GrowthTablesFrom | pintos/src/filesys/inode.c:279-321 | the fill followed by the new-table loop is the whole table work of `file_growth` |
| InodeGrowth.GrowthOutside | pintos/src/filesys/inode.c:226-339 | growth changes no sector outside the old file and the sectors taken |
| Inodes.QueuedAppend | pintos/src/filesys/inode.c:531-541 | queueing the sector of one more chunk end keeps the read-ahead queue in step with the chunk ends |
| Inodes.QueuedReadAhead | pintos/src/filesys/inode.c:531-541 | every queued read-ahead sector is the sector of the byte after some chunk that left bytes to read |
| Inodes.EndsStep | pintos/src/filesys/inode.c:499-545 | a chunk stays within one sector and the file, so no chunk end lies strictly inside it: each pass, recording its end when bytes are left, keeps every chunk end up to the read position recorded |
| Inodes.QueueStep | pintos/src/filesys/inode.c:531-545 | a pass that leaves bytes to read appends the next byte's sector and keeps the queue exactly the sectors of the chunk ends so far, -1 in it iff the read stopped at a sector-boundary end of file |
| Inodes.QueueLast | pintos/src/filesys/inode.c:531-545 | the pass that reads the last bytes of the request queues nothing and keeps the queue complete up to the new position |
| Inodes.QueuedAll | pintos/src/filesys/inode.c:531-541 | once the read reaches the end of the request or of the file, the queue holds the sector of every chunk end |
| Inodes.FileSystem.QueueNext | pintos/src/filesys/inode.c:531-541 | after a chunk, halts iff bytes are left and the next byte is a table-multiple end of file; otherwise queues exactly the next byte's sector when bytes are left, keeping the queue complete |
| Inodes.NextChunkEnd | pintos/src/filesys/inode.c:499-509 | a chunk that neither ends the request nor is empty ends at a sector boundary or at the end of the file |
| Inodes.ReadChunkBytes | pintos/src/filesys/inode.c:530 | appending the chunk read from the next byte's sector extends the bytes read by exactly the file's next bytes |
| Inodes.ChunkWithinFile | pintos/src/filesys/inode.c:619 | a chunk write changes only data sectors of the file |
| Inodes.WithinFileTrans | pintos/src/filesys/inode.c:577-624 | changes confined to the file's data sectors compose across loop passes |
| Inodes.OverwrittenMore | pintos/src/filesys/inode.c:577-624 | after one more chunk, the written run covers one chunk more of the buffer |
| Inodes.GrowthGrew | pintos/src/filesys/inode.c:226-339 | the disk `file_growth` leaves satisfies `Grew`: only length, tables and counts change, the file is well formed, old bytes are kept and new bytes are zero |
| Inodes.GrewNothing | pintos/src/filesys/inode.c:568-575 | a write inside the file grows nothing and takes no sector |
| Inodes.GrewThenWritten | pintos/src/filesys/inode.c:558-628 | growing to the end of the write and then overwriting its bytes is a complete write: the written bytes where written, the old bytes below the old length elsewhere, zeros above it |
| Inodes.FileSystem.Allocate | pintos/src/filesys/inode.c:182 | `free_map_allocate(1)` succeeds iff a sector is free, and then removes exactly that sector from the free set |
| Inodes.FileSystem.Release | pintos/src/filesys/inode.c:186 | `free_map_release(y, 1)` adds `y` to the free set and changes nothing else |
| Inodes.FileSystem.ReleaseAll | pintos/src/filesys/inode.c:185-186 | the rollback gives every sector taken so far back to the free set |
| Inodes.FileSystem.AllocateSectors | pintos/src/filesys/inode.c:180-190 | halts iff fewer than `count` sectors are free; `install_bd`'s loop (`rollBack`) then restores the free set, and `file_growth`'s loop (inode.c:263-273) leaves every free sector taken; otherwise `count` distinct free sectors are taken and removed from it |
| Inodes.FileSystem.InstallTableAt | pintos/src/filesys/inode.c:199-213 | one pass writes table `i` and its zeroed data sectors from the next positions down, and advances the countdown by `1 + entries` |
| Inodes.FileSystem.InstallTables | pintos/src/filesys/inode.c:196-213 | the outer loop writes all `ceil(s/128)` tables and data sectors, and returns the directory `InstallDir` |
| Inodes.FileSystem.InstallBd | pintos/src/filesys/inode.c:165-225 | allocates exactly `1 + ceil(s/128) + s` sectors (halting with nothing changed when too few are free), sets `bd`, `bt_num` and `alloc_num`, installs the index, and touches no sector other than the record and the ones allocated |
| Inodes.FileSystem.WriteIndex | pintos/src/filesys/inode.c:214-217 | the directory, then the record, complete the installed file, and nothing else changes |
| Inodes.FileSystem.Create | pintos/src/filesys/inode.c:346-386 | `inode_create` halts iff too few sectors are free; otherwise the record holds the length, magic number and directory flag, the file is well formed and all zero, and `alloc_num` sectors were taken from the free set |
| Inodes.FileSystem.FillLastTable | pintos/src/filesys/inode.c:282-301 | the fill loop writes the entries after `last` from the top of `temp` down, each data sector zeroed, until the table or `temp` runs out, and changes no other sector |
| Inodes.FileSystem.FillIfRoom | pintos/src/filesys/inode.c:274-307 | the fill happens only when the file is nonempty and its last used entry is not the last of its table; it leaves `|temp| - LastTableFill` sectors |
| Inodes.FileSystem.GrowIndex | pintos/src/filesys/inode.c:274-321 | the table work of `file_growth`, with the grown directory as stated by `GrownDir` and `InstallDir` |
| Inodes.FileSystem.GrowLength | pintos/src/filesys/inode.c:333-335 | with no new sector, only the record's length changes, and the file grows as `Grew` states |
| Inodes.FileSystem.GrowWithSectors | pintos/src/filesys/inode.c:274-335 | after allocating, the table work and the write-back make the file grow as `Grew` states |
| Inodes.FileSystem.FileGrowth | pintos/src/filesys/inode.c:226-339 | halts iff fewer free sectors than new tables plus new data sectors, with the disk and the open inodes unchanged and every free sector taken, since the source panics before its release loop; otherwise the inode grows as `Grew` states: the new length, table count and `alloc_num`, the old bytes kept, the new bytes zero; at every old length, multiples of 512 included, the fill starts after the entry of the last data sector |
| Inodes.FileSystem.ReleaseTableData | pintos/src/filesys/inode.c:151-157 | the inner loop of `close_bd` frees exactly table `i`'s data sectors in use, and the countdown drops by 128 or reaches 0 on the last table |
| Inodes.FileSystem.ReleaseTables | pintos/src/filesys/inode.c:149-159 | the table loop frees exactly `ReleaseOrder`: each table's data, then the table |
| Inodes.FileSystem.CloseBd | pintos/src/filesys/inode.c:140-164 | `close_bd` frees every table and data sector, then the directory and the record, and the countdown from `alloc_num - 1` ends at 0 |
| Inodes.FileSystem.Open | pintos/src/filesys/inode.c:392-429 | reopening an open sector adds an opener to the same inode; a fresh open lists one opener, no denials, not removed, the record read from disk and the directory read from disk |
| Inodes.FileSystem.Reopen | pintos/src/filesys/inode.c:433-438 | one more opener; null is ignored |
| Inodes.FileSystem.Close | pintos/src/filesys/inode.c:451-474 | one opener fewer; the last close unlists the inode and, only when it was removed, frees exactly the file's sectors; null is ignored |
| Inodes.FileSystem.Remove | pintos/src/filesys/inode.c:479-483 | only the `removed` mark changes |
| Inodes.FileSystem.DenyWrite | pintos/src/filesys/inode.c:633-637 | one more denial, still at most the openers |
| Inodes.FileSystem.AllowWrite | pintos/src/filesys/inode.c:643-648 | one denial fewer, below the openers |
| Inodes.FileSystem.ByteToSector | pintos/src/filesys/inode.c:101-128 | the sector of byte `pos`; -1 iff `pos` is the length at a sector boundary; a panic iff `pos` is the length at a table boundary |
| Inodes.FileSystem.ReadAt | pintos/src/filesys/inode.c:489-550 | halts iff a nonempty request reaches past a length that is a multiple of 128 sectors; otherwise it returns `min(size, length - offset)` file bytes from `offset` (none past the end), and the read-ahead queue holds the sector after each chunk that left bytes to read and no other sector, -1 among them iff the length is a sector boundary inside the request |
| Inodes.FileSystem.WriteChunks | pintos/src/filesys/inode.c:577-624 | on a file long enough, all bytes are written from `offset`, only the file's data sectors change, and the file stays well formed |
| Inodes.FileSystem.WriteNext | pintos/src/filesys/inode.c:579-623 | one pass writes a nonempty chunk of at most the bytes left, and the written run grows by it |
| Inodes.FileSystem.WriteChunk | pintos/src/filesys/inode.c:619 | `cache_write` of one chunk, as corrected in `Cache.CacheWriteKeeping`, overwrites exactly its bytes in the file's data sector and keeps the rest of that sector |
| Inodes.FileSystem.WriteAt | pintos/src/filesys/inode.c:558-628 | returns 0 with nothing changed while writes are denied; halts iff the write reaches past the end and beyond `MAX_FILE_SIZE` or beyond the free sectors, with the disk and the open inodes unchanged, and the free set unchanged beyond `MAX_FILE_SIZE` but empty when growth ran out of sectors; otherwise writes every byte, growing the file first (`Wrote`) |
| Inodes.FileSystem.WriteAllowed | pintos/src/filesys/inode.c:568-628 | the growth step then the write loop: halts iff `GrowthHalts`, with the free set empty unless the write ends beyond `MAX_FILE_SIZE`; otherwise the write is complete |
| Inodes.FileSystem.WriteGrown | pintos/src/filesys/inode.c:577-627 | after growth, the write loop completes the write as `Wrote` states |
| Inodes.FileSystem.GrowForWrite | pintos/src/filesys/inode.c:568-575 | a write past the end grows the file to the write's end, halting iff `GrowthHalts`: beyond `MAX_FILE_SIZE` with nothing changed, otherwise with every free sector taken; a write inside the file changes nothing |
| BufferCache.EmptySlot | pintos/src/filesys/cache.c:5-16 | the slot `init_bce` leaves is in its flushed state, holds no sector, and meets the slot invariant over any device |
| BufferCache.Flushed | pintos/src/filesys/cache.c:17-29 | after `flush_bce` the slot holds no sector, its data is zero, it is clean and unpinned, and it keeps its `sector` field |
| BufferCache.EvictSlots | pintos/src/filesys/cache.c:105-134 | the victim of `cache_evict` holds no sector afterwards and keeps its `sector` field; every other slot is unchanged except perhaps its `accessed` flag |
| BufferCache.EvictDevice | pintos/src/filesys/cache.c:119-127 | a valid dirty victim's bytes reach the device at its sector; every other sector of the device is unchanged, and no other sector is added |
| BufferCache.WriteBack | pintos/src/filesys/cache.c:182-190 | writing back the first `upto` slots keeps every sector the device had, and the last of them, if dirty, leaves its bytes at its sector |
| BufferCache.ShortWriteAtZeroLosesTail | pintos/src/filesys/cache.c:143-154 | a `cache_write` miss at offset 0 with a buffer shorter than the sector starts from zeros: whenever the byte after the buffer was not zero, the result differs from the buffer spliced into the old sector |
| BufferCache.StaleSlotShadowsBlockWrite | pintos/src/filesys/inode.c:155-161 | after `close_bd` released a sector whose dirty slot is still resident, a `block_write` of new bytes to it is not what a read through the cache sees, and the next write-back puts the old bytes back over it |
| BufferCache.DeviceRead | pintos/src/filesys/cache.c:64 | `block_read` yields 512 bytes |
| BufferCache.Find | pintos/src/filesys/cache.c:49-58 | the lookup returns the first valid slot from `from` holding `s`, or -1 iff there is none |
| BufferCache.View | pintos/src/filesys/cache.c:160-175 | a read of a sector sees 512 bytes: the resident copy, or the device's |
| BufferCache.FindSameHolders | pintos/src/filesys/cache.c:49-58 | the lookup depends only on which slots hold the sector |
| BufferCache.HolderIsFound | pintos/src/filesys/cache.c:49-58 | with no duplicates, the lookup of a valid slot's sector returns that slot |
| BufferCache.ViewFrame | pintos/src/filesys/cache.c:160-175 | what a read sees depends only on the sector's holders and their data, or on the device when none holds it |
| BufferCache.FirstTaken | pintos/src/filesys/cache.c:107-133 | the first slot from `from` that the scan takes at once: invalid, or unpinned with `accessed` clear |
| BufferCache.FirstEligible | pintos/src/filesys/cache.c:107-133 | the first slot from `from` that is not valid and pinned |
| BufferCache.Victim | pintos/src/filesys/cache.c:105-134 | the victim is never a valid pinned slot; it is the first slot taken at once in the first sweep, or after wrapping the first eligible one |
| BufferCache.SecondChance | pintos/src/filesys/cache.c:112-118 | the sweep clears `accessed` on the valid unpinned slots before `upto` and changes nothing else |
| BufferCache.UnpinnedEvictable | pintos/src/filesys/cache.c:105-134 | with no slot pinned, as between two operations, some slot is one the eviction scan can stop at, so `cache_evict` returns |
| BufferCache.VictimIsFirstTaken | pintos/src/filesys/cache.c:107-128 | a slot taken at once with none before it is the victim |
| BufferCache.SecondChanceStep | pintos/src/filesys/cache.c:112-118 | passing slot `i` extends the sweep by exactly that slot's flag update |
| BufferCache.ScanStopsAt | pintos/src/filesys/cache.c:107-133 | the scan, in its first sweep or after wrapping, stops at the victim and at no earlier slot |
| BufferCache.SweepGivesSecondChance | pintos/src/filesys/cache.c:110-118 | every slot passed before the victim is valid, and is pinned (left alone) or had `accessed` set (now cleared) |
| BufferCache.EvictedSlotIsEmpty | pintos/src/filesys/cache.c:119-128 | the returned slot is invalid, clean, unpinned and zero-filled, and keeps its `sector`; a dirty victim's bytes are on the device at its sector |
| BufferCache.EvictKeepsTable | pintos/src/filesys/cache.c:119-128 | eviction keeps the table invariant |
| BufferCache.EvictKeepsPins | pintos/src/filesys/cache.c:105-134 | eviction pins and unpins nothing |
| BufferCache.EvictViewAt | pintos/src/filesys/cache.c:119-128 | after eviction, a read of any sector sees what it saw before |
| BufferCache.EvictPreservesView | pintos/src/filesys/cache.c:105-134 | eviction keeps the invariant and every sector's contents |
| BufferCache.WriteBackEffect | pintos/src/filesys/cache.c:231-238 | each dirty slot's bytes reach the device at its sector; a sector no dirty slot holds keeps its device contents |
| BufferCache.Cleaned | pintos/src/filesys/cache.c:182-190 | the write-behind pass clears every `dirty` flag and changes nothing else |
| BufferCache.WriteBackKeepsTable | pintos/src/filesys/cache.c:182-190 | writing back the dirty slots keeps the invariant, also once their flags are cleared |
| BufferCache.WriteBackPreservesView | pintos/src/filesys/cache.c:227-241 | writing back, and then clearing `dirty`, changes no sector's contents |
| BufferCache.WriteBackViewAt | pintos/src/filesys/cache.c:231-238 | after writing back, a read of any sector sees what it saw before |
| BufferCache.LoadPreservesView | pintos/src/filesys/cache.c:60-70 | loading a non-resident sector into an invalid slot keeps the invariant and every sector's contents |
| BufferCache.EvictKeepsMiss | pintos/src/filesys/cache.c:105-134 | eviction makes no sector resident, and the victim is invalid |
| BufferCache.FlagsPreserveView | pintos/src/filesys/cache.c:83-89 | changing only `accessed`/`pinned` of a valid slot keeps the invariant and the contents |
| BufferCache.PinPreservesView | pintos/src/filesys/cache.c:53-54 | pinning a resident slot keeps the invariant and the contents |
| BufferCache.WritePreservesOthers | pintos/src/filesys/cache.c:145-158 | making slot `k` a dirty holder of `s` keeps the invariant and every other sector's contents |
| BufferCache.Cache.constructor | pintos/src/filesys/cache.c:30-43 | `bc_init`: 64 reset slots, nothing pinned, every read sees the device |
| BufferCache.Cache.GetBceIdx | pintos/src/filesys/cache.c:44-59 | halts iff the sector is -1; otherwise returns the holder's index, or -1 on a miss; pins the hit only when asked; changes nothing else |
| BufferCache.Cache.GetFromBlock | pintos/src/filesys/cache.c:60-70 | halts iff the slot is already valid or the sector is -1; otherwise the slot takes the device's bytes, `valid` and the sector, with no pin |
| BufferCache.Cache.BceRead | pintos/src/filesys/cache.c:71-92 | halts iff `ofs + size > 512`; otherwise returns `data[ofs..ofs+size)`, sets `accessed`, clears `pinned`, and keeps the bytes |
| BufferCache.Cache.BceWrite | pintos/src/filesys/cache.c:93-104 | halts iff `ofs + size > 512`; otherwise splices the buffer into the data, sets `dirty` and `accessed`, and clears `pinned` |
| BufferCache.Cache.Evict | pintos/src/filesys/cache.c:105-134 | returns `Victim`; leaves the second-chance table with the victim flushed and a dirty victim written back; keeps pins, the invariant and all contents |
| BufferCache.Cache.Scan | pintos/src/filesys/cache.c:107-133 | the wrapping loop stops at `Victim`, having cleared `accessed` on exactly the valid unpinned slots it passed |
| BufferCache.Cache.FaultIn | pintos/src/filesys/cache.c:166-171 | evict, then load: the sector becomes resident, unpinned, with every sector's contents unchanged |
| BufferCache.Cache.CacheRead | pintos/src/filesys/cache.c:160-175 | halts iff the sector is -1 or `ofs + size > 512`; otherwise returns `Contents(s)[ofs..ofs+size)`, leaves `s` resident and unpinned, pins nothing new, and keeps all contents |
| BufferCache.Cache.ClaimForRead | pintos/src/filesys/cache.c:164-172 | the slot holding `s`, pinned on a hit and faulted in on a miss, with all contents kept |
| BufferCache.Cache.CacheWrite | pintos/src/filesys/cache.c:135-159 | halts iff the sector is -1 or the write passes the sector's end; otherwise `s` reads as the old contents with the buffer spliced in (zeros around it on a miss at offset 0), and every other sector is unchanged |
| BufferCache.Cache.CacheWriteKeeping | pintos/src/filesys/cache.c:135-159 | the corrected `cache_write`, which skips the device read only for a whole-sector write: halts iff the sector is -1 or the write passes the sector's end; otherwise `s` reads as its old contents with exactly the buffer's bytes replaced, and every other sector is unchanged |
| BufferCache.Cache.WriteSlot | pintos/src/filesys/cache.c:135-159 | the body of `cache_write` with the read-skipping choice as a parameter: on a miss that skips the read, the buffer is spliced into zeros, otherwise into the old contents; every other sector is unchanged |
| BufferCache.Cache.ClaimForWrite | pintos/src/filesys/cache.c:139-156 | the slot for the write: the holder on a hit, the evicted slot claimed without a device read on a miss that skips the read, and a faulted-in slot on any other miss |
| BufferCache.Cache.BlockWrite | pintos/src/filesys/inode.c:209-217 | a `block_write` kept coherent with the cache: the device gets the bytes, a resident copy is replaced, `s` then reads as the bytes, every other sector is unchanged, and the invariant holds |
| BufferCache.Cache.WriteBehindPass | pintos/src/filesys/cache.c:182-191 | every dirty slot is written to the device and marked clean, with all contents kept |
| BufferCache.Cache.WriteBackAll | pintos/src/filesys/cache.c:227-241 | every dirty slot is written to the device; no flag or byte of the table changes |
| BufferCache.Cache.ReadAheadPass | pintos/src/filesys/cache.c:209-223 | drains the queue, halting iff it holds -1; otherwise the last queued sector is resident, nothing new is pinned, and all contents are kept |
| BufferCache.Cache.ReadAheadOne | pintos/src/filesys/cache.c:215-222 | one queued sector: halts iff it is -1; otherwise it is resident afterwards, with all contents kept |

## Left out

**Concurrency and the block device**
- The semaphores `rs`/`rws`, `read_count`, `bc_lock`, `ra_lock`, `ra_sema` and `thread_create` are not modelled, because they are concurrency. Each operation is atomic, and `read_count` is back at 0 when it returns.
- The infinite loops and `timer_sleep` of the two background threads are not modelled. One pass of each is a method (`WriteBehindPass`, `ReadAheadPass`). `make_read_ahead` is an empty stub.
- `block_read`/`block_write` are a map from sector to bytes. A sector never written reads as zeros.
- `free_map_allocate`/`free_map_release` are a set of free sectors. Which sector the allocator picks is left open.

**The inode layer's view of storage**
- The inode layer does not go through the cache model. It sees a single sector store of typed blocks: file bytes, 128-entry tables, or inode records. That store is what a read through the cache returns only when every write is coherent with the cache. The source's `cache_write` is coherent (`Cache.CacheWrite`), but its `block_write`s go to the device alone, and a stale resident slot of a recycled sector shadows them (first row of "## Findings"). The store models each `block_write` as the coherent `Cache.BlockWrite`.
- Inodes.FileSystem.Create: the file is all zero, and its tables, directory and record are as written, in the coherent store. With the source's `block_write`, a read of a data sector, table or record that was recycled while its slot stayed resident returns the old bytes, and a dirty stale slot can later overwrite the new ones on the device.
- Inodes.FileSystem.FileGrowth: the new data sectors read as zeros and the new tables as written only in the coherent store; the same stale slots shadow them as for `Create`.
- Inodes.FileSystem.GrowWithSectors: the zeroed sectors and new tables of `Grew` hold in the coherent store only, as for `FileGrowth`.
- Inodes.FileSystem.GrowForWrite: the growth it states holds in the coherent store only, as for `FileGrowth`.
- Inodes.FileSystem.WriteAt: holds in the coherent store and with the corrected `cache_write`. In the source, a chunk of fewer than 512 bytes that starts a sector that is not resident zeroes the rest of that sector (second row of "## Findings"), and a grown file's zeros can be shadowed by stale slots.
- Inodes.FileSystem.WriteAllowed and Inodes.FileSystem.WriteGrown: hold only with the coherent store and the corrected `cache_write`, as for `WriteAt`.
- Inodes.FileSystem.WriteChunk: models the corrected `cache_write`. The source's `cache_write` zeroes bytes `|chunk| .. 511` of the sector when `pos % 512 == 0`, the chunk is shorter than 512 bytes and the sector is not resident.
- Inodes.FileSystem.WriteChunks and Inodes.FileSystem.WriteNext: the bytes outside the write are kept only with the corrected `cache_write`, as for `WriteChunk`.
- The byte encoding of tables and records is not modelled.
- The order of the device writes is fixed in the method bodies (data, table, directory, record) but not stated in contracts.

**Out of scope**
- `malloc`/`calloc`/`free` failures, the list plumbing of `open_inodes`, `dump_bt` and the debug `printf`s are not modelled. They have no effect on file contents.
- `inode_init`, `inode_get_inumber` and `inode_length` are not separate members. The first only initialises the list and the cache. The other two read a field: the record sector is the handle `x`, and the length is `open[x].data.length`.
- `find_dir` and the other `filesys.c` wrappers are not part of this model.

**Preconditions and modelled limits**
- Inodes.FileSystem.FileGrowth: starts the fill at `bt_index(bytes_to_sectors(length)) + 1`, as evidently intended. At a nonzero length that is a multiple of 512 the source's start differs (third row of "## Findings"); the panics that follow from it are not modelled.
- Inodes.FileSystem.FileGrowth: the release loop after the `PANIC` at inode.c:267 is not modelled, because it never runs: the halt leaves every sector taken allocated, as the contract states.
- Inodes.FileSystem.ReadAt: excludes a read reaching past the end of a file of exactly `MAX_FILE_SIZE` bytes. There the source indexes directory entry 128, past the end of the directory.
- Inodes.FileSystem.WriteNext: the `chunk_size <= 0` break of the write loop is left out. `WriteNext` proves every chunk of a write is nonempty.
- Inodes.FileSystem.Open: requires the sector to hold an inode record. The source reads whatever the sector holds.
- Inodes.FileSystem.Close: requires the last close of a removed inode to find a well-formed file. That is what `close_bd` needs to release it.
- Inodes.FileSystem.Create: requires a length of at most `MAX_FILE_SIZE`, so the directory has room for every table.
- Inodes.FileSystem.DenyWrite and Inodes.FileSystem.AllowWrite: the source's `ASSERT`s on the counts are preconditions.
- The model does not state that different files are disjoint from each other. Each contract speaks of one file and the sectors it takes from the free set.
- `off_t` offsets and sizes are natural numbers. Negative arguments are not modelled.
- BlockIndex.BdIndex and BlockIndex.BtIndex: the panic for sector number 0 is a precondition, because every caller passes `b2s(...)`, which is at least 1.
- BufferCache.Cache.CacheRead, BufferCache.Cache.CacheWrite and BufferCache.Cache.Evict: require an evictable slot on a miss. If all 64 slots are valid and pinned, `cache_evict` never returns.
- BufferCache.Cache.Evict: the scan and the write-back of the victim are two steps (`Scan`, then the flush), as in the source's loop body.

## Findings

| source | as written | input that shows it | evidently intended | confidence | as-written member | corrected member |
|---|---|---|---|---|---|---|
| pintos/src/filesys/inode.c:155-161 | `close_bd` releases sectors but leaves their cache slots, and `install_bd` (inode.c:209-217) and `file_growth` (inode.c:292, 318-335) write zeroed data sectors, tables, directories and records with `block_write`, straight to the device | write a file's data (its slot is dirty), remove and close it, then create a file that is given the same sector: `cache_read` of that sector hits the stale slot and returns the old bytes instead of zeros, and the next write-back puts them on the device | the inode layer's writes reach what a later read through the cache returns | medium, not executed | BufferCache.StaleSlotShadowsBlockWrite | BufferCache.Cache.BlockWrite |
| pintos/src/filesys/cache.c:143-154 | on a miss at offset 0, `cache_write` claims the evicted (zeroed) slot without reading the device, even when the write is shorter than the sector | a 1024-byte file of 'a' whose sector 0 is not resident, then a 10-byte write at offset 0: bytes 10 .. 511 become 0 instead of staying 'a' | skip the device read only for a whole-sector write, as the bounce-buffer code it replaced did (inode.c:611-614) | high, not executed | BufferCache.ShortWriteAtZeroLosesTail | BufferCache.Cache.CacheWriteKeeping |
| pintos/src/filesys/inode.c:279-306 | `file_growth` starts the fill after entry `bt_index(b2s(length))` of table `bd_index(b2s(length))`; at a nonzero length that is a multiple of 512, `b2s(length)` is one more than the sector count | a 512-byte file grown to 1024 bytes: entry 1 is skipped and stays -1, and the next access to byte 512 calls `cache_write(-1)`, a panic. At 128 sectors the fill reads directory entry 1, which is -1, and panics in `get_bce_idx`. At 127 sectors (mod 128) the fill is skipped: with no new table `add_alloc_num` stays nonzero and panics; with one, entry 127 stays -1 | start the fill after entry `bt_index(bytes_to_sectors(length))` of table `bd_index(bytes_to_sectors(length))`, which is the same start whenever the length is not a multiple of 512 (`BlockIndex.GrowthStartAfterLastEntry`) | high, not executed | BlockIndex.GrowthStartAtSectorBoundary | Inodes.FileSystem.FileGrowth |
