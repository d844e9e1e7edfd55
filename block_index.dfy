/** The index arithmetic of inode.c. A file's data sectors are numbered from
    1 (`b2s`); sector number `s` lives in Block Table `bd_index(s)` of the
    Block Directory, at entry `bt_index(s)` of that table. */
module BlockIndex {
  import opened Sectors

  /** `BLOCK_ENTRY_NUM`: entries in the Block Directory and in each Block Table. */
  const EntryCount: nat := 128

  /** `MAX_FILE_SIZE`: `1 << 23` bytes. */
  const MaxFileSize: nat := 0x80_0000

  /** `INODE_MAGIC` */
  const InodeMagic: int := 0x494e4f44

  /** `DIV_ROUND_UP(x, 128)`: the Block Tables needed for `x` data sectors. */
  function TablesFor(x: nat): (r: nat)
    ensures r * EntryCount >= x
    ensures r > 0 ==> (r - 1) * EntryCount < x
  {
    (x + EntryCount - 1) / EntryCount
  }

  /** `bytes_to_sectors`: `DIV_ROUND_UP(size, 512)`. */
  function BytesToSectors(size: nat): (r: nat)
    ensures r * SectorSize >= size
    ensures r > 0 ==> (r - 1) * SectorSize < size
  {
    (size + SectorSize - 1) / SectorSize
  }

  /** `b2s`: the 1-based number of the sector holding byte `b`. */
  function B2S(b: nat): (r: nat)
    ensures r >= 1
    ensures (r - 1) * SectorSize <= b < r * SectorSize
  {
    b / SectorSize + 1
  }

  /** `bd_index`: the Block Directory entry for sector number `s`
      (sector number 0 is fatal in the source, so it is excluded here). */
  function BdIndex(s: nat): (r: nat)
    requires s >= 1
    ensures r == (s - 1) / EntryCount
  {
    (s + EntryCount - 1) / EntryCount - 1
  }

  /** `bt_index`: the Block Table entry for sector number `s`. */
  function BtIndex(s: nat): (r: nat)
    requires s >= 1
    ensures r == (s - 1) % EntryCount && r < EntryCount
  {
    (s - 1) % EntryCount
  }

  /** Directory entry and table entry together name every sector number
      exactly once: `bd_index(s) * 128 + bt_index(s) == s - 1`. */
  lemma IndexSplit(s: nat)
    requires s >= 1
    ensures BdIndex(s) * EntryCount + BtIndex(s) == s - 1
    ensures BtIndex(s) < EntryCount
    ensures BdIndex(s) == (s - 1) / EntryCount
  {
    var q, r := (s - 1) / EntryCount, (s - 1) % EntryCount;
    assert s - 1 == q * EntryCount + r;
    assert s + EntryCount - 1 == (q + 1) * EntryCount + r;
  }

  /** Byte `pos` lies in the file's data sector of ordinal `pos / 512`
      (counting from 0), which is entry `(pos / 512) % 128` of table
      `(pos / 512) / 128`. */
  lemma PositionIndex(pos: nat)
    ensures BdIndex(B2S(pos)) == pos / SectorSize / EntryCount
    ensures BtIndex(B2S(pos)) == pos / SectorSize % EntryCount
  {
    IndexSplit(B2S(pos));
  }

  /** The last data sector of a nonempty file of `n` data sectors is entry
      `bt_index(n)` of table `bd_index(n)`, its last table, and the entries
      up to and including it are the file's `n - 128 * bd_index(n)` sectors
      in that table: growth fills that table from entry `bt_index(n) + 1`. */
  lemma LastSectorEntry(n: nat)
    requires n >= 1
    ensures BdIndex(n) == TablesFor(n) - 1
    ensures BtIndex(n) + 1 == n - EntryCount * BdIndex(n)
  {
    IndexSplit(n);
  }

  /** A file that is not a whole number of sectors long ends inside its last
      data sector, so `b2s(length)` is the file's sector count and the entry
      after `bt_index(b2s(length))` is the first unused one of the last table. */
  lemma GrowthStartAfterLastEntry(length: nat)
    requires length % SectorSize != 0
    ensures BytesToSectors(length) == B2S(length)
    ensures BtIndex(B2S(length)) == (BytesToSectors(length) - 1) % EntryCount
    ensures BdIndex(B2S(length)) == TablesFor(BytesToSectors(length)) - 1
    ensures BtIndex(B2S(length)) == BtIndex(BytesToSectors(length))
    ensures BdIndex(B2S(length)) == BdIndex(BytesToSectors(length))
  {
    var n := BytesToSectors(length);
    assert n == length / SectorSize + 1;
    IndexSplit(B2S(length));
  }

  /** For a nonempty file that is a whole number of sectors long,
      `bt_index(b2s(length))` already is the first unused entry, so starting
      the fill one past it skips an entry; and when the file fills whole
      tables, `bd_index(b2s(length))` names a table that does not exist. */
  lemma GrowthStartAtSectorBoundary(length: nat)
    requires length > 0 && length % SectorSize == 0
    ensures BytesToSectors(length) == B2S(length) - 1
    ensures BtIndex(B2S(length)) == BytesToSectors(length) % EntryCount
    ensures BytesToSectors(length) % EntryCount != 0 ==>
      BtIndex(B2S(length)) == BtIndex(BytesToSectors(length)) + 1
    ensures BytesToSectors(length) % EntryCount == 0 ==>
      BdIndex(B2S(length)) == TablesFor(BytesToSectors(length))
  {
    var n := BytesToSectors(length);
    assert n == length / SectorSize;
    IndexSplit(B2S(length));
  }

  /** At the end of a file of `length` bytes: the sector ordinal
      `length / 512` is in use exactly when the length is not a whole number
      of sectors, and its table exists exactly when the length is not a whole
      number of tables (128 sectors). */
  lemma EndOfFile(length: nat)
    ensures length / SectorSize < BytesToSectors(length) <==> length % SectorSize != 0
    ensures length / SectorSize / EntryCount < TablesFor(BytesToSectors(length)) <==>
      length % (SectorSize * EntryCount) != 0
  {
    var q, n := length / SectorSize, BytesToSectors(length);
    var i := q / EntryCount;
    if length % SectorSize == 0 {
      assert n == q;
      assert length % (SectorSize * EntryCount) == (q % EntryCount) * SectorSize;
      assert q % EntryCount == 0 <==> TablesFor(n) == i;
    } else {
      assert n == q + 1;
      assert length % (SectorSize * EntryCount) == (q % EntryCount) * SectorSize + length % SectorSize;
      assert TablesFor(n) == i + 1;
    }
  }

  /** Bytes `pos .. pos + m` lie in one sector when `m` does not reach past
      the end of the sector holding `pos`. */
  lemma SameSector(pos: nat, m: nat)
    requires m < SectorSize - pos % SectorSize
    ensures (pos + m) / SectorSize == pos / SectorSize
    ensures (pos + m) % SectorSize == pos % SectorSize + m
  {
    assert pos == pos / SectorSize * SectorSize + pos % SectorSize;
    assert pos + m == pos / SectorSize * SectorSize + (pos % SectorSize + m);
  }

  /** The end of the chunk that starts at `pos` and runs to the end of its
      sector is a sector boundary. */
  lemma ChunkEndsOnBoundary(pos: nat)
    ensures (pos + (SectorSize - pos % SectorSize)) % SectorSize == 0
  {
    assert pos + (SectorSize - pos % SectorSize) == (pos / SectorSize + 1) * SectorSize;
  }

  /** A run of `m` bytes from `pos` that stays inside its sector holds
      exactly the bytes of that sector between the two in-sector offsets. */
  lemma InChunk(pos: nat, m: nat, p: nat)
    requires m <= SectorSize - pos % SectorSize
    ensures (p / SectorSize == pos / SectorSize && pos % SectorSize <= p % SectorSize < pos % SectorSize + m)
      <==> pos <= p < pos + m
  {
    assert pos == pos / SectorSize * SectorSize + pos % SectorSize;
    assert p == p / SectorSize * SectorSize + p % SectorSize;
  }
}
