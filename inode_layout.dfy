/** The on-disk shape of an inode in inode.c: a record sector, a Block
    Directory (BD) of 128 table sectors, Block Tables (BT) of 128 data
    sectors each, and the translation `bd_byte_to_sector` from a byte offset
    to the data sector holding it.

    The disk is the sector store as the inode layer sees it through the
    buffer cache, with each sector holding one of the three kinds of block
    the layer writes there. */
module InodeLayout {
  import opened Sectors
  import opened BlockIndex

  /** `struct inode_disk` without `start` (unused) and the padding. */
  datatype DiskInode = DiskInode(
    length: nat, magic: int, parent: Sector, isdir: bool,
    bd: Sector, btNum: nat, allocNum: nat)

  /** What one sector holds: file bytes, 128 sector entries (a BD or a BT),
      or an inode record. */
  datatype Block = Data(bytes: seq<byte>) | Table(entries: seq<Sector>) | Record(inode: DiskInode)

  type Disk = map<Sector, Block>

  /** Sector `y` is the same on both disks. */
  ghost predicate SameAt(d1: Disk, d2: Disk, y: Sector)
  {
    (y in d1 <==> y in d2) && (y in d1 ==> d1[y] == d2[y])
  }

  /** The entries of the table stored at `y` (none if `y` holds no table). */
  function TableAt(disk: Disk, y: Sector): seq<Sector>
  {
    if y in disk && disk[y].Table? then disk[y].entries else []
  }

  /** Entry `j` of the Block Table listed at directory entry `i`. */
  function EntryAt(disk: Disk, dir: seq<Sector>, i: nat, j: nat): Sector
  {
    if i < |dir| && j < |TableAt(disk, dir[i])| then TableAt(disk, dir[i])[j] else NoSector
  }

  predicate IsData(disk: Disk, y: Sector)
  {
    y in disk && disk[y].Data? && |disk[y].bytes| == SectorSize
  }

  /** The 512 bytes of data sector `y`. */
  function BytesAt(disk: Disk, y: Sector): (r: seq<byte>)
    ensures |r| == SectorSize
  {
    if IsData(disk, y) then disk[y].bytes else Zeros()
  }

  /** The data sector holding byte `pos` of the file whose directory is `dir`. */
  function SectorOf(disk: Disk, dir: seq<Sector>, pos: nat): Sector
  {
    var q := pos / SectorSize;
    EntryAt(disk, dir, q / EntryCount, q % EntryCount)
  }

  /** Byte `pos` of the file whose directory is `dir`. */
  function ByteAt(disk: Disk, dir: seq<Sector>, pos: nat): byte
  {
    BytesAt(disk, SectorOf(disk, dir, pos))[pos % SectorSize]
  }

  /** `bytes` are the bytes of the file whose directory is `dir`, starting
      at byte `from`. */
  ghost predicate FileHas(disk: Disk, dir: seq<Sector>, from: nat, bytes: seq<byte>)
  {
    forall k :: 0 <= k < |bytes| ==> bytes[k] == ByteAt(disk, dir, from + k)
  }

  /** Consecutive runs of file bytes join up. */
  lemma FileHasAppend(disk: Disk, dir: seq<Sector>, from: nat, a: seq<byte>, b: seq<byte>)
    requires FileHas(disk, dir, from, a) && FileHas(disk, dir, from + |a|, b)
    ensures FileHas(disk, dir, from, a + b)
  {
    forall k | 0 <= k < |a + b|
      ensures (a + b)[k] == ByteAt(disk, dir, from + k)
    {
      if k >= |a| {
        assert (a + b)[k] == b[k - |a|];
      }
    }
  }

  /** A run of bytes that stays inside the sector holding `pos` is a slice of
      that sector. */
  lemma SectorSlice(disk: Disk, dir: seq<Sector>, pos: nat, m: nat)
    requires m <= SectorSize - pos % SectorSize
    ensures FileHas(disk, dir, pos, BytesAt(disk, SectorOf(disk, dir, pos))[pos % SectorSize..pos % SectorSize + m])
  {
    var run := BytesAt(disk, SectorOf(disk, dir, pos))[pos % SectorSize..pos % SectorSize + m];
    forall k | 0 <= k < m
      ensures run[k] == ByteAt(disk, dir, pos + k)
    {
      SameSector(pos, k);
    }
  }

  /** Data sector `(i, j)` is in use by a file of `n` data sectors. */
  predicate InUse(i: nat, j: nat, n: nat)
  {
    j < EntryCount && i * EntryCount + j < n
  }

  /** The index of a file of `n` data sectors: `t = ceil(n / 128)` tables
      listed first in the directory and -1 after them; in each table the
      first entries, up to `n` in all, name data sectors and the rest are -1. */
  ghost predicate IndexShaped(disk: Disk, dir: seq<Sector>, t: nat, n: nat)
  {
    && |dir| == EntryCount
    && t == TablesFor(n) && t <= EntryCount
    && (forall i :: 0 <= i < EntryCount ==> (dir[i] == NoSector <==> t <= i))
    && (forall i :: 0 <= i < t ==> |TableAt(disk, dir[i])| == EntryCount)
    && (forall i, j :: 0 <= i < t && 0 <= j < EntryCount ==>
          (EntryAt(disk, dir, i, j) == NoSector <==> !InUse(i, j, n)))
    && (forall i, j :: 0 <= i < t && InUse(i, j, n) ==> IsData(disk, EntryAt(disk, dir, i, j)))
  }

  /** All sectors of the file are different: the record `x`, the directory
      `bd`, the tables and the data sectors. */
  ghost predicate Separate(disk: Disk, x: Sector, bd: Sector, dir: seq<Sector>, t: nat, n: nat)
    requires |dir| == EntryCount && t <= EntryCount
  {
    && x != bd
    && (forall i :: 0 <= i < t ==> dir[i] != x && dir[i] != bd)
    && (forall i, k :: 0 <= i < k < t ==> dir[i] != dir[k])
    && (forall i, j :: 0 <= i < t && InUse(i, j, n) ==>
          EntryAt(disk, dir, i, j) != x && EntryAt(disk, dir, i, j) != bd)
    && (forall i, j, k :: 0 <= i < t && InUse(i, j, n) && 0 <= k < t ==>
          EntryAt(disk, dir, i, j) != dir[k])
    && (forall i, j, k, l :: 0 <= i < t && InUse(i, j, n) && 0 <= k < t && InUse(k, l, n) && (i, j) != (k, l) ==>
          EntryAt(disk, dir, i, j) != EntryAt(disk, dir, k, l))
  }

  /** `y` is one of the file's sectors. */
  ghost predicate Owns(disk: Disk, x: Sector, bd: Sector, dir: seq<Sector>, t: nat, n: nat, y: Sector)
    requires |dir| == EntryCount && t <= EntryCount
  {
    || y == x || y == bd
    || (exists i :: 0 <= i < t && dir[i] == y)
    || (exists i, j :: 0 <= i < t && InUse(i, j, n) && EntryAt(disk, dir, i, j) == y)
  }

  /** The file recorded at sector `x` with record `d` and directory `dir` is
      well formed: the on-disk record and directory agree with `d` and `dir`,
      the allocation count is `1 + bt_num + data sectors`, the index has the
      shape above, its sectors are distinct and none is free, and every byte
      past the end of the file in its last sector is zero. */
  ghost predicate FileOk(disk: Disk, free: set<Sector>, x: Sector, d: DiskInode, dir: seq<Sector>)
  {
    var n := BytesToSectors(d.length);
    && d.length <= MaxFileSize
    && x != NoSector && d.bd != NoSector
    && x in disk && disk[x] == Record(d)
    && d.bd in disk && disk[d.bd] == Table(dir)
    && d.btNum == TablesFor(n)
    && d.allocNum == 1 + d.btNum + n
    && IndexShaped(disk, dir, d.btNum, n)
    && Separate(disk, x, d.bd, dir, d.btNum, n)
    && (forall y :: y in free ==> !Owns(disk, x, d.bd, dir, d.btNum, n, y))
    && (forall p :: d.length <= p < n * SectorSize ==> ByteAt(disk, dir, p) == 0)
  }

  /** A file of at most `MAX_FILE_SIZE` bytes needs at most 128 tables. */
  lemma TablesFit(length: nat)
    requires length <= MaxFileSize
    ensures BytesToSectors(length) <= EntryCount * EntryCount
    ensures TablesFor(BytesToSectors(length)) <= EntryCount
  {
  }

  /** `bd_byte_to_sector`: the data sector holding byte `pos`, through the
      resident directory and the table read from disk. `None` is a kernel
      panic: `pos` past the end of the file, or a -1 directory entry. A -1
      table entry is returned as it is. */
  function Translate(disk: Disk, d: DiskInode, dir: seq<Sector>, pos: nat): (r: Option<Sector>)
    requires |dir| == EntryCount
    requires pos <= d.length ==> BdIndex(B2S(pos)) < EntryCount
    ensures r.None? <==> pos > d.length || dir[pos / SectorSize / EntryCount] == NoSector
    ensures r.Some? ==> r.value == EntryAt(disk, dir, pos / SectorSize / EntryCount, pos / SectorSize % EntryCount)
  {
    PositionIndex(pos);
    var i := BdIndex(B2S(pos));
    if pos <= d.length then
      if dir[i] == NoSector then None
      else
        var bt := TableAt(disk, dir[i]);
        var j := BtIndex(B2S(pos));
        Some(if j < |bt| then bt[j] else NoSector)
    else None
  }

  /** Inside a well-formed file, every byte translates to one of its data sectors. */
  lemma TranslateInside(disk: Disk, free: set<Sector>, x: Sector, d: DiskInode, dir: seq<Sector>, pos: nat)
    requires FileOk(disk, free, x, d, dir) && pos < d.length
    ensures pos <= d.length ==> BdIndex(B2S(pos)) < EntryCount
    ensures var q := pos / SectorSize;
      && InUse(q / EntryCount, q % EntryCount, BytesToSectors(d.length))
      && Translate(disk, d, dir, pos) == Some(EntryAt(disk, dir, q / EntryCount, q % EntryCount))
      && IsData(disk, EntryAt(disk, dir, q / EntryCount, q % EntryCount))
  {
    PositionIndex(pos);
    var n := BytesToSectors(d.length);
    var q := pos / SectorSize;
    assert q < n;
    assert q / EntryCount < d.btNum;
  }

  /** Translating the offset equal to the length, as `inode_read_at` does at
      the end of a file: fatal exactly when the length is a multiple of 128
      sectors (the empty file included); otherwise the -1 entry after the last
      data sector when the length is a whole number of sectors, and the last
      data sector when it is not. */
  lemma TranslateAtEnd(disk: Disk, free: set<Sector>, x: Sector, d: DiskInode, dir: seq<Sector>)
    requires FileOk(disk, free, x, d, dir) && d.length < MaxFileSize
    ensures BdIndex(B2S(d.length)) < EntryCount
    ensures Translate(disk, d, dir, d.length).None? <==> d.length % (SectorSize * EntryCount) == 0
    ensures Translate(disk, d, dir, d.length).Some? ==>
      (Translate(disk, d, dir, d.length).value == NoSector <==> d.length % SectorSize == 0)
  {
    PositionIndex(d.length);
    EndOfFile(d.length);
    var n := BytesToSectors(d.length);
    var q := d.length / SectorSize;
    var i := q / EntryCount;
    if i < d.btNum {
      assert Translate(disk, d, dir, d.length).value == EntryAt(disk, dir, i, q % EntryCount);
      assert InUse(i, q % EntryCount, n) <==> q < n;
    }
  }

  // ---------------------------------------------------------------------------
  // The layout install_bd builds from the sectors it allocated

  predicate Distinct(xs: seq<Sector>)
  {
    forall p, r :: 0 <= p < |xs| && 0 <= r < |xs| && p != r ==> xs[p] != xs[r]
  }

  /** The sectors listed in `xs`. */
  function Elems(xs: seq<Sector>): (r: set<Sector>)
    ensures forall y :: y in r <==> y in xs
  {
    set y | y in xs
  }

  /** A list of distinct sectors has as many elements as its set. */
  lemma {:induction false} DistinctCard(xs: seq<Sector>)
    requires Distinct(xs)
    ensures |Elems(xs)| == |xs|
  {
    if xs != [] {
      var init := xs[..|xs| - 1];
      assert Distinct(init);
      DistinctCard(init);
      assert xs == init + [xs[|xs| - 1]];
      assert Elems(xs) == Elems(init) + {xs[|xs| - 1]};
    }
  }

  /** `install_bd` hands its allocated sectors out from the last one down:
      the directory first, then for each table the table sector followed by
      its data sectors. These are the positions in the allocation order. */
  function TableSlot(a: nat, k: nat): int
  {
    a - 2 - (EntryCount + 1) * k
  }

  function DataSlot(a: nat, k: nat, j: nat): int
  {
    a - 3 - (EntryCount + 1) * k - j
  }

  /** Block Table `k` as `install_bd` writes it. */
  function InstallTable(temp: seq<Sector>, s: nat, k: nat): (r: seq<Sector>)
    requires |temp| == 1 + TablesFor(s) + s && k < TablesFor(s)
    ensures |r| == EntryCount
    ensures forall j :: 0 <= j < EntryCount ==> r[j] == if InUse(k, j, s) then temp[DataSlot(|temp|, k, j)] else NoSector
  {
    seq(EntryCount, j requires 0 <= j < EntryCount =>
      if InUse(k, j, s) then temp[DataSlot(|temp|, k, j)] else NoSector)
  }

  /** The Block Directory as `install_bd` writes it. */
  function InstallDir(temp: seq<Sector>, s: nat): (r: seq<Sector>)
    requires |temp| == 1 + TablesFor(s) + s
    ensures |r| == EntryCount
    ensures forall k :: 0 <= k < EntryCount ==> r[k] == if k < TablesFor(s) then temp[TableSlot(|temp|, k)] else NoSector
  {
    seq(EntryCount, k requires 0 <= k < EntryCount =>
      if k < TablesFor(s) then temp[TableSlot(|temp|, k)] else NoSector)
  }

  /** The disk holds the record `d` at `x` and the index `install_bd` builds
      for `s` data sectors out of the allocated sectors `temp`. */
  ghost predicate Installed(disk: Disk, x: Sector, d: DiskInode, temp: seq<Sector>, s: nat)
    requires |temp| == 1 + TablesFor(s) + s && TablesFor(s) <= EntryCount
  {
    var a := |temp|;
    && d.bd == temp[a - 1] && d.btNum == TablesFor(s) && d.allocNum == a
    && x in disk && disk[x] == Record(d)
    && d.bd in disk && disk[d.bd] == Table(InstallDir(temp, s))
    && TablesInstalled(disk, temp, s)
  }

  /** The Block Tables and zeroed data sectors `install_bd` writes. */
  ghost predicate TablesInstalled(disk: Disk, temp: seq<Sector>, s: nat)
    requires |temp| == 1 + TablesFor(s) + s && TablesFor(s) <= EntryCount
  {
    TablesUpTo(disk, temp, s, TablesFor(s))
  }

  /** Block Tables `0 .. i` and their data sectors as `install_bd` writes them. */
  ghost predicate TablesUpTo(disk: Disk, temp: seq<Sector>, s: nat, i: nat)
    requires |temp| == 1 + TablesFor(s) + s && i <= TablesFor(s) <= EntryCount
  {
    forall k :: 0 <= k < i ==> TableInstalled(disk, temp, s, k)
  }

  /** Block Table `k` and its data sectors as `install_bd` writes them. */
  ghost predicate TableInstalled(disk: Disk, temp: seq<Sector>, s: nat, k: nat)
    requires |temp| == 1 + TablesFor(s) + s && k < TablesFor(s) <= EntryCount
  {
    var a := |temp|;
    && TableAt(disk, temp[TableSlot(a, k)]) == InstallTable(temp, s, k)
    && (forall j :: InUse(k, j, s) ==>
          temp[DataSlot(a, k, j)] in disk && disk[temp[DataSlot(a, k, j)]] == Data(Zeros()))
  }

  /** Writes to no sector at position `lo` or above in the allocation order
      keep the tables written from those positions. */
  lemma TablesFrame(d1: Disk, d2: Disk, temp: seq<Sector>, s: nat, i: nat, lo: nat)
    requires |temp| == 1 + TablesFor(s) + s && i <= TablesFor(s) <= EntryCount
    requires TablesUpTo(d1, temp, s, i)
    requires i == 0 || lo == 0 || lo <= TableSlot(|temp|, i - 1) - EntryCount
    requires forall p :: lo <= p < |temp| - 1 ==>
      (temp[p] in d1 <==> temp[p] in d2) && (temp[p] in d1 ==> d1[temp[p]] == d2[temp[p]])
    ensures TablesUpTo(d2, temp, s, i)
  {
    var a := |temp|;
    forall k | 0 <= k < i
      ensures TableInstalled(d2, temp, s, k)
    {
      assert TableInstalled(d1, temp, s, k);
      assert lo <= TableSlot(a, k) < a - 1;
      forall j | InUse(k, j, s)
        ensures temp[DataSlot(a, k, j)] in d2 && d2[temp[DataSlot(a, k, j)]] == Data(Zeros())
      {
        assert lo <= DataSlot(a, k, j) < a - 1;
      }
    }
  }

  /** Every entry of the installed index, read back through the directory. */
  lemma InstalledEntries(disk: Disk, x: Sector, d: DiskInode, temp: seq<Sector>, s: nat)
    requires |temp| == 1 + TablesFor(s) + s && TablesFor(s) <= EntryCount
    requires Installed(disk, x, d, temp, s)
    ensures forall k, j :: 0 <= k < TablesFor(s) && 0 <= j < EntryCount ==>
      EntryAt(disk, InstallDir(temp, s), k, j) == if InUse(k, j, s) then temp[DataSlot(|temp|, k, j)] else NoSector
    ensures forall k, j :: 0 <= k < TablesFor(s) && InUse(k, j, s) ==>
      EntryAt(disk, InstallDir(temp, s), k, j) in disk && disk[EntryAt(disk, InstallDir(temp, s), k, j)] == Data(Zeros())
    ensures forall k :: 0 <= k < TablesFor(s) ==> |TableAt(disk, InstallDir(temp, s)[k])| == EntryCount
  {
    var dir, a := InstallDir(temp, s), |temp|;
    forall k, j | 0 <= k < TablesFor(s) && 0 <= j < EntryCount
      ensures EntryAt(disk, dir, k, j) == if InUse(k, j, s) then temp[DataSlot(a, k, j)] else NoSector
      ensures InUse(k, j, s) ==> EntryAt(disk, dir, k, j) in disk && disk[EntryAt(disk, dir, k, j)] == Data(Zeros())
    {
      assert TableInstalled(disk, temp, s, k);
      assert dir[k] == temp[TableSlot(a, k)];
    }
    forall k | 0 <= k < TablesFor(s)
      ensures |TableAt(disk, dir[k])| == EntryCount
    {
      assert TableInstalled(disk, temp, s, k);
    }
  }

  /** The installed sectors sit at distinct positions of the allocation order. */
  lemma InstalledSeparate(disk: Disk, x: Sector, d: DiskInode, temp: seq<Sector>, s: nat)
    requires |temp| == 1 + TablesFor(s) + s && TablesFor(s) <= EntryCount
    requires Distinct(temp) && x !in temp
    requires Installed(disk, x, d, temp, s)
    ensures Separate(disk, x, d.bd, InstallDir(temp, s), TablesFor(s), s)
  {
    InstalledEntries(disk, x, d, temp, s);
    var dir, t, a := InstallDir(temp, s), TablesFor(s), |temp|;
    forall i, j, k, l | 0 <= i < t && InUse(i, j, s) && 0 <= k < t && InUse(k, l, s) && (i, j) != (k, l)
      ensures EntryAt(disk, dir, i, j) != EntryAt(disk, dir, k, l)
    {
      assert DataSlot(a, i, j) != DataSlot(a, k, l);
    }
    forall i, j, k | 0 <= i < t && InUse(i, j, s) && 0 <= k < t
      ensures EntryAt(disk, dir, i, j) != dir[k]
    {
      assert DataSlot(a, i, j) != TableSlot(a, k);
    }
  }

  /** The installed index has the shape of a file of `s` data sectors. */
  lemma InstalledShaped(disk: Disk, x: Sector, d: DiskInode, temp: seq<Sector>, s: nat)
    requires |temp| == 1 + TablesFor(s) + s && TablesFor(s) <= EntryCount
    requires NoSector !in temp
    requires Installed(disk, x, d, temp, s)
    ensures IndexShaped(disk, InstallDir(temp, s), TablesFor(s), s)
  {
    InstalledEntries(disk, x, d, temp, s);
  }

  /** Every byte of the installed data sectors is zero. */
  lemma InstalledZero(disk: Disk, x: Sector, d: DiskInode, temp: seq<Sector>, s: nat)
    requires |temp| == 1 + TablesFor(s) + s && TablesFor(s) <= EntryCount
    requires Installed(disk, x, d, temp, s)
    ensures forall p: nat :: p < s * SectorSize ==> ByteAt(disk, InstallDir(temp, s), p) == 0
  {
    InstalledEntries(disk, x, d, temp, s);
    forall p: nat | p < s * SectorSize
      ensures ByteAt(disk, InstallDir(temp, s), p) == 0
    {
      var q := p / SectorSize;
      assert InUse(q / EntryCount, q % EntryCount, s);
    }
  }

  /** The installed file owns the record sector and allocated sectors only. */
  lemma InstalledOwns(disk: Disk, x: Sector, d: DiskInode, temp: seq<Sector>, s: nat)
    requires |temp| == 1 + TablesFor(s) + s && TablesFor(s) <= EntryCount
    requires Installed(disk, x, d, temp, s)
    ensures forall y :: Owns(disk, x, d.bd, InstallDir(temp, s), TablesFor(s), s, y) ==> y == x || y in temp
  {
    InstalledEntries(disk, x, d, temp, s);
  }

  /** The index `install_bd` builds is a well-formed file of zero bytes whose
      sectors are exactly the allocated ones and the record's. */
  lemma InstalledFileOk(disk: Disk, free: set<Sector>, x: Sector, d: DiskInode, temp: seq<Sector>)
    requires d.length <= MaxFileSize
    requires |temp| == 1 + TablesFor(BytesToSectors(d.length)) + BytesToSectors(d.length)
    requires Distinct(temp) && x !in temp && x !in free && NoSector !in temp && x != NoSector
    requires forall p :: 0 <= p < |temp| ==> temp[p] !in free
    requires Installed(disk, x, d, temp, BytesToSectors(d.length))
    ensures FileOk(disk, free, x, d, InstallDir(temp, BytesToSectors(d.length)))
    ensures forall p: nat :: p < BytesToSectors(d.length) * SectorSize ==>
      ByteAt(disk, InstallDir(temp, BytesToSectors(d.length)), p) == 0
    ensures forall y :: Owns(disk, x, d.bd, InstallDir(temp, BytesToSectors(d.length)), d.btNum, BytesToSectors(d.length), y) ==>
      y == x || y in temp
  {
    var s := BytesToSectors(d.length);
    assert d.bd == temp[|temp| - 1];
    InstalledSeparate(disk, x, d, temp, s);
    InstalledShaped(disk, x, d, temp, s);
    InstalledZero(disk, x, d, temp, s);
    InstalledOwns(disk, x, d, temp, s);
  }

  // ---------------------------------------------------------------------------
  // The order in which close_bd releases a file's sectors

  /** The data sectors of table `k` that a file of `n` data sectors uses, in
      entry order. */
  function TableData(disk: Disk, dir: seq<Sector>, k: nat, n: nat): (r: seq<Sector>)
    ensures |r| == if n <= EntryCount * k then 0 else if n - EntryCount * k < EntryCount then n - EntryCount * k else EntryCount
    ensures forall j :: 0 <= j < |r| ==> InUse(k, j, n) && r[j] == EntryAt(disk, dir, k, j)
    ensures forall j: nat :: InUse(k, j, n) ==> j < |r|
  {
    var m := if n <= EntryCount * k then 0 else if n - EntryCount * k < EntryCount then n - EntryCount * k else EntryCount;
    seq(m, (j: int) requires 0 <= j < m => EntryAt(disk, dir, k, j))
  }

  /** What `close_bd` releases for tables `0 .. k`: each table's data
      sectors, then the table sector. */
  function ReleaseOrder(disk: Disk, dir: seq<Sector>, k: nat, n: nat): (r: seq<Sector>)
    requires k <= |dir|
    ensures k > 0 ==> |r| > 0 && r[|r| - 1] == dir[k - 1]
    ensures |r| >= k
  {
    if k == 0 then [] else ReleaseOrder(disk, dir, k - 1, n) + TableData(disk, dir, k - 1, n) + [dir[k - 1]]
  }

  /** `close_bd` releases one sector per table and one per data sector in use. */
  lemma {:induction false} ReleaseOrderLength(disk: Disk, dir: seq<Sector>, k: nat, n: nat)
    requires k <= |dir| && k <= TablesFor(n)
    ensures |ReleaseOrder(disk, dir, k, n)| == k + if n < EntryCount * k then n else EntryCount * k
  {
    if k > 0 {
      ReleaseOrderLength(disk, dir, k - 1, n);
    }
  }

  /** The sectors `close_bd` releases for tables `0 .. k` are exactly those
      tables and their data sectors in use. */
  lemma {:induction false} ReleaseOrderMembers(disk: Disk, dir: seq<Sector>, k: nat, n: nat, y: Sector)
    requires k <= |dir|
    ensures y in ReleaseOrder(disk, dir, k, n) <==>
      (exists i :: 0 <= i < k && dir[i] == y) ||
      (exists i, j :: 0 <= i < k && InUse(i, j, n) && EntryAt(disk, dir, i, j) == y)
  {
    if k > 0 {
      var last := k - 1;
      ReleaseOrderMembers(disk, dir, last, n, y);
      var td := TableData(disk, dir, last, n);
      if y in td {
        var j :| 0 <= j < |td| && td[j] == y;
        assert InUse(last, j, n) && EntryAt(disk, dir, last, j) == y;
      }
      if exists j: nat :: InUse(last, j, n) && EntryAt(disk, dir, last, j) == y {
        var j: nat :| InUse(last, j, n) && EntryAt(disk, dir, last, j) == y;
        assert td[j] == y;
      }
    }
  }

  /** `close_bd` releases exactly the sectors of the file: its tables and
      data sectors, then the directory `bd` and the record `x`. */
  lemma ReleasedAreOwned(disk: Disk, free: set<Sector>, x: Sector, d: DiskInode, dir: seq<Sector>)
    requires FileOk(disk, free, x, d, dir)
    ensures forall y :: y in ReleaseOrder(disk, dir, d.btNum, BytesToSectors(d.length)) + [d.bd, x] <==>
      Owns(disk, x, d.bd, dir, d.btNum, BytesToSectors(d.length), y)
  {
    forall y
      ensures y in ReleaseOrder(disk, dir, d.btNum, BytesToSectors(d.length)) + [d.bd, x] <==>
        Owns(disk, x, d.bd, dir, d.btNum, BytesToSectors(d.length), y)
    {
      ReleaseOrderMembers(disk, dir, d.btNum, BytesToSectors(d.length), y);
    }
  }

  /** Every sector `install_bd` allocated is the directory, a table or a data
      sector in use of the index it built. */
  lemma InstalledCovers(disk: Disk, x: Sector, d: DiskInode, temp: seq<Sector>, s: nat)
    requires |temp| == 1 + TablesFor(s) + s && TablesFor(s) <= EntryCount
    requires Installed(disk, x, d, temp, s)
    ensures forall p :: 0 <= p < |temp| ==> Owns(disk, x, d.bd, InstallDir(temp, s), TablesFor(s), s, temp[p])
  {
    InstalledEntries(disk, x, d, temp, s);
    var a, t, dir := |temp|, TablesFor(s), InstallDir(temp, s);
    forall p | 0 <= p < a
      ensures Owns(disk, x, d.bd, dir, t, s, temp[p])
    {
      if p < a - 1 {
        var off := a - 2 - p;
        var k, r := off / (EntryCount + 1), off % (EntryCount + 1);
        assert off == (EntryCount + 1) * k + r;
        if r == 0 {
          assert p == TableSlot(a, k);
          assert dir[k] == temp[p];
        } else {
          assert p == DataSlot(a, k, r - 1);
          assert InUse(k, r - 1, s);
          assert EntryAt(disk, dir, k, r - 1) == temp[p];
        }
      }
    }
  }

  /** Releasing a file `install_bd` has just built gives back exactly the
      sectors it allocated, and the record sector. */
  lemma ReleaseUndoesInstall(disk: Disk, free: set<Sector>, x: Sector, d: DiskInode, temp: seq<Sector>)
    requires d.length <= MaxFileSize
    requires |temp| == 1 + TablesFor(BytesToSectors(d.length)) + BytesToSectors(d.length)
    requires Distinct(temp) && x !in temp && x !in free && NoSector !in temp && x != NoSector
    requires forall p :: 0 <= p < |temp| ==> temp[p] !in free
    requires Installed(disk, x, d, temp, BytesToSectors(d.length))
    ensures FileOk(disk, free, x, d, InstallDir(temp, BytesToSectors(d.length)))
    ensures Elems(ReleaseOrder(disk, InstallDir(temp, BytesToSectors(d.length)), d.btNum, BytesToSectors(d.length)) + [d.bd, x])
      == Elems(temp) + {x}
  {
    var s := BytesToSectors(d.length);
    var dir := InstallDir(temp, s);
    InstalledFileOk(disk, free, x, d, temp);
    ReleasedAreOwned(disk, free, x, d, dir);
    InstalledCovers(disk, x, d, temp, s);
    var released := ReleaseOrder(disk, dir, d.btNum, s) + [d.bd, x];
    forall y | y in Elems(temp) + {x}
      ensures y in Elems(released)
    {
      if y != x {
        var p :| 0 <= p < |temp| && temp[p] == y;
        assert Owns(disk, x, d.bd, dir, d.btNum, s, temp[p]);
      }
    }
  }

  // ---------------------------------------------------------------------------
  // What the read and write paths need of the index

  /** Translation of every position of the file, up to and including its
      length: inside the file it names the data sector that holds the byte;
      at the length it is fatal exactly when the length is a multiple of 128
      sectors, and otherwise names the sector after the last byte, -1 when the
      length is a whole number of sectors. */
  ghost predicate Translates(disk: Disk, d: DiskInode, dir: seq<Sector>)
  {
    && |dir| == EntryCount && d.length <= MaxFileSize
    && (forall pos: nat {:trigger Translate(disk, d, dir, pos)} :: pos < d.length ==>
          && BdIndex(B2S(pos)) < EntryCount
          && Translate(disk, d, dir, pos) == Some(SectorOf(disk, dir, pos))
          && SectorOf(disk, dir, pos) != NoSector)
    && (d.length < MaxFileSize ==>
          && BdIndex(B2S(d.length)) < EntryCount
          && (Translate(disk, d, dir, d.length).None? <==> d.length % (SectorSize * EntryCount) == 0)
          && (Translate(disk, d, dir, d.length).Some? ==>
                && Translate(disk, d, dir, d.length).value == SectorOf(disk, dir, d.length)
                && (SectorOf(disk, dir, d.length) == NoSector <==> d.length % SectorSize == 0)))
  }

  /** What `bd_byte_to_sector` gives for a position at most the length of a
      file that translates: the sector of that byte, which is the
      no-sector mark only at a length that is a whole number of sectors; and
      no answer at all only at a length that is a whole number of tables. */
  lemma TranslatePos(disk: Disk, d: DiskInode, dir: seq<Sector>, pos: nat)
    requires Translates(disk, d, dir)
    requires pos <= d.length && (d.length == MaxFileSize ==> pos < d.length)
    ensures |dir| == EntryCount && BdIndex(B2S(pos)) < EntryCount
    ensures Translate(disk, d, dir, pos).None? <==>
      pos == d.length && d.length % (SectorSize * EntryCount) == 0
    ensures Translate(disk, d, dir, pos).Some? ==>
      && Translate(disk, d, dir, pos).value == SectorOf(disk, dir, pos)
      && (SectorOf(disk, dir, pos) == NoSector <==> pos == d.length && d.length % SectorSize == 0)
  {
  }

  /** A well-formed file translates as above. */
  lemma FileTranslates(disk: Disk, free: set<Sector>, x: Sector, d: DiskInode, dir: seq<Sector>)
    requires FileOk(disk, free, x, d, dir)
    ensures Translates(disk, d, dir)
  {
    forall pos: nat | pos < d.length
      ensures BdIndex(B2S(pos)) < EntryCount
      ensures Translate(disk, d, dir, pos) == Some(SectorOf(disk, dir, pos))
      ensures SectorOf(disk, dir, pos) != NoSector
    {
      TranslateInside(disk, free, x, d, dir, pos);
    }
    if d.length < MaxFileSize {
      TranslateAtEnd(disk, free, x, d, dir);
    }
  }

  // ---------------------------------------------------------------------------
  // Writing a chunk of file bytes into their data sector

  /** The data sector holding byte `pos` of a well-formed file is one of
      its data sectors in use, no table, no directory and no record, and
      holds no other sector's bytes of the file. */
  lemma ChunkTarget(disk: Disk, free: set<Sector>, x: Sector, d: DiskInode, dir: seq<Sector>, pos: nat)
    requires FileOk(disk, free, x, d, dir) && pos < d.length
    ensures var y := SectorOf(disk, dir, pos);
      && IsData(disk, y) && y != NoSector && y != x && y != d.bd
      && (forall i :: 0 <= i < EntryCount ==> y != dir[i])
      && Owns(disk, x, d.bd, dir, d.btNum, BytesToSectors(d.length), y)
      && (forall p: nat :: p < BytesToSectors(d.length) * SectorSize && SectorOf(disk, dir, p) == y ==>
            p / SectorSize == pos / SectorSize)
  {
    var n := BytesToSectors(d.length);
    TranslateInside(disk, free, x, d, dir, pos);
    var q := pos / SectorSize;
    var i, j := q / EntryCount, q % EntryCount;
    var y := SectorOf(disk, dir, pos);
    assert y == EntryAt(disk, dir, i, j);
    forall p: nat | p < n * SectorSize && SectorOf(disk, dir, p) == y
      ensures p / SectorSize == q
    {
      var q' := p / SectorSize;
      var i', j' := q' / EntryCount, q' % EntryCount;
      assert InUse(i', j', n);
      assert q == EntryCount * i + j && q' == EntryCount * i' + j';
    }
  }

  /** Tables that are the same on two disks give the same entries, and so
      the same sectors for every byte and the same owned sectors. */
  lemma SameTables(d1: Disk, d2: Disk, x: Sector, bd: Sector, dir: seq<Sector>, t: nat, n: nat)
    requires |dir| == EntryCount && t <= EntryCount
    requires forall i :: 0 <= i < EntryCount ==> TableAt(d1, dir[i]) == TableAt(d2, dir[i])
    ensures forall i, j :: EntryAt(d1, dir, i, j) == EntryAt(d2, dir, i, j)
    ensures forall p: nat :: SectorOf(d1, dir, p) == SectorOf(d2, dir, p)
    ensures forall y :: Owns(d1, x, bd, dir, t, n, y) <==> Owns(d2, x, bd, dir, t, n, y)
  {
    assert forall i, j :: EntryAt(d1, dir, i, j) == EntryAt(d2, dir, i, j);
  }

  /** The disk after `chunk` is written at byte `pos` of a well-formed
      file, inside one data sector whose other bytes are kept. */
  ghost predicate ChunkWrite(disk: Disk, free: set<Sector>, x: Sector, d: DiskInode, dir: seq<Sector>, pos: nat,
                             chunk: seq<byte>, disk': Disk)
  {
    && FileOk(disk, free, x, d, dir)
    && 0 < |chunk| && pos + |chunk| <= d.length && |chunk| <= SectorSize - pos % SectorSize
    && IsData(disk, SectorOf(disk, dir, pos))
    && disk' == disk[SectorOf(disk, dir, pos) :=
         Data(Splice(BytesAt(disk, SectorOf(disk, dir, pos)), pos % SectorSize, chunk))]
  }

  /** A chunk write touches no table of the file. */
  lemma ChunkKeepsTables(disk: Disk, free: set<Sector>, x: Sector, d: DiskInode, dir: seq<Sector>, pos: nat,
                         chunk: seq<byte>, disk': Disk)
    requires ChunkWrite(disk, free, x, d, dir, pos, chunk, disk')
    ensures forall i :: 0 <= i < EntryCount ==> TableAt(disk', dir[i]) == TableAt(disk, dir[i])
    ensures Owns(disk, x, d.bd, dir, d.btNum, BytesToSectors(d.length), SectorOf(disk, dir, pos))
    ensures forall z :: IsData(disk, z) ==> IsData(disk', z)
  {
    ChunkTarget(disk, free, x, d, dir, pos);
  }

  /** Byte `p` after `chunk` is spliced into the data sector `y` of byte
      `pos`, when only bytes of the sector of `pos` live in `y`. */
  lemma ChunkByte(disk: Disk, dir: seq<Sector>, pos: nat, chunk: seq<byte>, disk': Disk, p: nat)
    requires |chunk| <= SectorSize - pos % SectorSize
    requires IsData(disk, SectorOf(disk, dir, pos))
    requires disk' == disk[SectorOf(disk, dir, pos) :=
      Data(Splice(BytesAt(disk, SectorOf(disk, dir, pos)), pos % SectorSize, chunk))]
    requires SectorOf(disk', dir, p) == SectorOf(disk, dir, p)
    requires SectorOf(disk, dir, p) == SectorOf(disk, dir, pos) ==> p / SectorSize == pos / SectorSize
    ensures ByteAt(disk', dir, p) == if pos <= p < pos + |chunk| then chunk[p - pos] else ByteAt(disk, dir, p)
  {
    var y := SectorOf(disk, dir, pos);
    InChunk(pos, |chunk|, p);
    if SectorOf(disk, dir, p) == y && pos <= p < pos + |chunk| {
      var k := p % SectorSize - pos % SectorSize;
      assert Splice(BytesAt(disk, y), pos % SectorSize, chunk)[p % SectorSize] == chunk[k];
    }
  }

  /** A chunk write changes exactly the bytes of the chunk. */
  lemma ChunkBytes(disk: Disk, free: set<Sector>, x: Sector, d: DiskInode, dir: seq<Sector>, pos: nat,
                   chunk: seq<byte>, disk': Disk)
    requires ChunkWrite(disk, free, x, d, dir, pos, chunk, disk')
    ensures forall p: nat :: p < BytesToSectors(d.length) * SectorSize ==>
      ByteAt(disk', dir, p) == if pos <= p < pos + |chunk| then chunk[p - pos] else ByteAt(disk, dir, p)
  {
    var n := BytesToSectors(d.length);
    ChunkTarget(disk, free, x, d, dir, pos);
    ChunkKeepsTables(disk, free, x, d, dir, pos, chunk, disk');
    SameTables(disk', disk, x, d.bd, dir, d.btNum, n);
    forall p: nat | p < n * SectorSize
      ensures ByteAt(disk', dir, p) == if pos <= p < pos + |chunk| then chunk[p - pos] else ByteAt(disk, dir, p)
    {
      ChunkByte(disk, dir, pos, chunk, disk', p);
    }
  }

  /** A chunk write keeps the file well formed. */
  lemma ChunkFileOk(disk: Disk, free: set<Sector>, x: Sector, d: DiskInode, dir: seq<Sector>, pos: nat,
                    chunk: seq<byte>, disk': Disk)
    requires ChunkWrite(disk, free, x, d, dir, pos, chunk, disk')
    ensures FileOk(disk', free, x, d, dir)
  {
    var n := BytesToSectors(d.length);
    ChunkTarget(disk, free, x, d, dir, pos);
    ChunkKeepsTables(disk, free, x, d, dir, pos, chunk, disk');
    SameTables(disk', disk, x, d.bd, dir, d.btNum, n);
    ChunkBytes(disk, free, x, d, dir, pos, chunk, disk');
    assert disk'[x] == disk[x] && disk'[d.bd] == disk[d.bd];
    assert IndexShaped(disk', dir, d.btNum, n);
    assert Separate(disk', x, d.bd, dir, d.btNum, n);
  }
}
