/** The index `file_growth` of inode.c builds when a file of `n` data
    sectors grows to `n2`. The sectors it allocates are handed out from the
    last one down: first into the free entries of the last Block Table, then,
    table by table, into new Block Tables laid out exactly as `install_bd`
    lays out a fresh index. */
module InodeGrowth {
  import opened Sectors
  import opened BlockIndex
  import opened InodeLayout

  /** `r` more data sectors after `t` full tables need `t` plus the tables of `r`. */
  lemma TablesShift(r: nat, t: nat)
    ensures TablesFor(r + EntryCount * t) == TablesFor(r) + t
  {
  }

  /** Up to the capacity of its tables, a file keeps its table count. */
  lemma TablesWithin(n: nat, n2: nat)
    requires n <= n2 <= EntryCount * TablesFor(n)
    ensures TablesFor(n2) == TablesFor(n)
  {
  }

  /** The data sectors that go into the last Block Table: from its first
      free entry to its end, or fewer when the file ends sooner. */
  function LastTableFill(n: nat, n2: nat): (r: nat)
    requires n <= n2
    ensures n + r <= n2 && n + r <= EntryCount * TablesFor(n)
    ensures n + r == n2 || n + r == EntryCount * TablesFor(n)
  {
    (if n2 < EntryCount * TablesFor(n) then n2 else EntryCount * TablesFor(n)) - n
  }

  /** The data sectors that go into new Block Tables. With the fill of the
      last table they account for exactly the `add_alloc_num` sectors
      `file_growth` allocates. */
  function NewTableData(n: nat, n2: nat): (r: nat)
    requires n <= n2
    ensures TablesFor(n) + TablesFor(r) == TablesFor(n2)
    ensures TablesFor(r) + r == (TablesFor(n2) - TablesFor(n)) + (n2 - n) - LastTableFill(n, n2)
    ensures r > 0 ==> n + LastTableFill(n, n2) == EntryCount * TablesFor(n) && r == n2 - EntryCount * TablesFor(n)
  {
    var t := TablesFor(n);
    if n2 > EntryCount * t then
      TablesShift(n2 - EntryCount * t, t);
      n2 - EntryCount * t
    else
      TablesWithin(n, n2);
      0
  }

  /** The allocation list the new-table loop of `file_growth` works down: the
      sectors the fill of the last table left, with the directory sector `bd`
      on top in the place `install_bd` keeps for it (the loop never takes
      that one). */
  function NewTablesTemp(temp: seq<Sector>, m: nat, bd: Sector): (r: seq<Sector>)
    requires m <= |temp|
    ensures |r| == |temp| - m + 1 && r[|r| - 1] == bd
    ensures forall p :: 0 <= p < |temp| - m ==> r[p] == temp[p]
  {
    temp[..|temp| - m] + [bd]
  }

  /** The last Block Table after its entries `first .. first + m` took the
      sectors from the top of `temp` down. */
  function FillTable(bt: seq<Sector>, temp: seq<Sector>, first: nat, m: nat): (r: seq<Sector>)
    requires |bt| == EntryCount && first + m <= EntryCount && m <= |temp|
    ensures |r| == EntryCount
    ensures forall j :: 0 <= j < EntryCount ==>
      r[j] == if first <= j < first + m then temp[|temp| - 1 - (j - first)] else bt[j]
  {
    seq(EntryCount, j requires 0 <= j < EntryCount =>
      if first <= j < first + m then temp[|temp| - 1 - (j - first)] else bt[j])
  }

  /** The Block Directory after growth: the old tables, then the new ones. */
  function GrownDir(dir: seq<Sector>, t: nat, added: seq<Sector>): (r: seq<Sector>)
    requires |dir| == EntryCount && |added| == EntryCount && t <= EntryCount
    ensures |r| == EntryCount
    ensures forall i :: 0 <= i < EntryCount ==> r[i] == if i < t then dir[i] else added[i - t]
  {
    dir[..t] + added[..EntryCount - t]
  }

  /** The position in the allocation order of the sector that becomes the
      new entry `j` of table `i`: the fill of the last table takes them from
      the top, the new tables as `install_bd` would from what is left. */
  function GrowSlot(a: nat, m: nat, n: nat, t: nat, i: nat, j: nat): int
  {
    var q := EntryCount * i + j;
    if q < n + m then a - 1 - (q - n) else a - m - 2 - (EntryCount + 1) * (i - t) - j
  }

  /** The position in the allocation order of new table `i`. */
  function GrowTableSlot(a: nat, m: nat, t: nat, i: nat): int
  {
    a - m - 1 - (EntryCount + 1) * (i - t)
  }

  /** What `file_growth` starts from: the well-formed file recorded at `x`,
      growing to `n2` data sectors, and the distinct free sectors it took,
      as many as the new tables and data sectors. */
  ghost predicate GrowthFrom(disk0: Disk, free0: set<Sector>, x: Sector, d: DiskInode, dir: seq<Sector>,
                             temp: seq<Sector>, n2: nat)
  {
    var n := BytesToSectors(d.length);
    && FileOk(disk0, free0, x, d, dir)
    && n <= n2 <= EntryCount * EntryCount
    && |temp| == (TablesFor(n2) - d.btNum) + (n2 - n)
    && Distinct(temp) && NoSector !in temp
    && (forall p :: 0 <= p < |temp| ==> temp[p] in free0)
  }

  /** The disk after `file_growth`: the last table filled, the new tables
      and every new data sector (as zeros) written, the grown directory at
      `bd` and the grown record `d2` at `x`; every other sector as before. */
  ghost predicate GrowthWritten(disk: Disk, disk0: Disk, free0: set<Sector>, x: Sector, d: DiskInode, dir: seq<Sector>,
                                temp: seq<Sector>, d2: DiskInode, dir2: seq<Sector>)
  {
    var n, n2 := BytesToSectors(d.length), BytesToSectors(d2.length);
    && d.length <= d2.length <= MaxFileSize
    && GrowthFrom(disk0, free0, x, d, dir, temp, n2)
    && var t, a, m, s2 := d.btNum, |temp|, LastTableFill(n, n2), NewTableData(n, n2);
       var temp2 := NewTablesTemp(temp, m, d.bd);
       && (m > 0 ==>
             TableAt(disk, dir[t - 1]) == FillTable(TableAt(disk0, dir[t - 1]), temp, n - EntryCount * (t - 1), m))
       && (forall p :: a - m <= p < a ==> temp[p] in disk && disk[temp[p]] == Data(Zeros()))
       && TablesInstalled(disk, temp2, s2)
       && dir2 == GrownDir(dir, t, InstallDir(temp2, s2))
       && d2 == d.(length := d2.length, btNum := TablesFor(n2), allocNum := d.allocNum + a)
       && x in disk && disk[x] == Record(d2)
       && d.bd in disk && disk[d.bd] == Table(dir2)
       && (forall y :: y !in temp && y != x && y != d.bd && (m > 0 ==> y != dir[t - 1]) ==> SameAt(disk, disk0, y))
  }

  /** The sector at position `p` of the allocation order (`-1` off its ends). */
  function Taken(temp: seq<Sector>, p: int): Sector
  {
    if 0 <= p < |temp| then temp[p] else NoSector
  }

  /** The sectors growth takes were free, so the old file owns none of them. */
  lemma TakenNotOwned(disk0: Disk, free0: set<Sector>, x: Sector, d: DiskInode, dir: seq<Sector>,
                      temp: seq<Sector>, n2: nat, y: Sector)
    requires GrowthFrom(disk0, free0, x, d, dir, temp, n2)
    requires Owns(disk0, x, d.bd, dir, d.btNum, BytesToSectors(d.length), y)
    ensures y !in temp
  {
  }

  /** A table of the old file other than a filled last one is not written. */
  lemma OldTableKept(disk: Disk, disk0: Disk, free0: set<Sector>, x: Sector, d: DiskInode, dir: seq<Sector>,
                     temp: seq<Sector>, d2: DiskInode, dir2: seq<Sector>, i: nat)
    requires GrowthWritten(disk, disk0, free0, x, d, dir, temp, d2, dir2)
    requires i < d.btNum
    requires LastTableFill(BytesToSectors(d.length), BytesToSectors(d2.length)) > 0 ==> i != d.btNum - 1
    ensures SameAt(disk, disk0, dir[i])
  {
    var n, t := BytesToSectors(d.length), d.btNum;
    assert Owns(disk0, x, d.bd, dir, t, n, dir[i]);
    TakenNotOwned(disk0, free0, x, d, dir, temp, BytesToSectors(d2.length), dir[i]);
  }

  /** An old data sector is not written. */
  lemma OldDataKept(disk: Disk, disk0: Disk, free0: set<Sector>, x: Sector, d: DiskInode, dir: seq<Sector>,
                    temp: seq<Sector>, d2: DiskInode, dir2: seq<Sector>, i: nat, j: nat)
    requires GrowthWritten(disk, disk0, free0, x, d, dir, temp, d2, dir2)
    requires i < d.btNum && InUse(i, j, BytesToSectors(d.length))
    ensures SameAt(disk, disk0, EntryAt(disk0, dir, i, j))
  {
    var n, t := BytesToSectors(d.length), d.btNum;
    var y := EntryAt(disk0, dir, i, j);
    assert Owns(disk0, x, d.bd, dir, t, n, y);
    TakenNotOwned(disk0, free0, x, d, dir, temp, BytesToSectors(d2.length), y);
    if t > 0 {
      assert y != dir[t - 1];
    }
  }

  /** Entry `j` of table `i` of the grown file: -1 past its `n2` data
      sectors, the old entry inside its old `n`, and otherwise the sector
      taken for it. */
  function GrowEntry(disk0: Disk, dir: seq<Sector>, temp: seq<Sector>, n: nat, n2: nat, t: nat, i: nat, j: nat): Sector
    requires n <= n2
  {
    if !InUse(i, j, n2) then NoSector
    else if InUse(i, j, n) then EntryAt(disk0, dir, i, j)
    else Taken(temp, GrowSlot(|temp|, LastTableFill(n, n2), n, t, i, j))
  }

  /** A new data sector (`i`, `j`) is taken from the allocation order: from
      its top `m` positions when it fills the last old table, otherwise from
      below them, in a new table. */
  lemma NewSlot(n: nat, n2: nat, t: nat, a: nat, i: nat, j: nat)
    requires t == TablesFor(n) && n <= n2 && a == (TablesFor(n2) - t) + (n2 - n)
    requires InUse(i, j, n2) && !InUse(i, j, n)
    ensures var m := LastTableFill(n, n2);
      && 0 <= GrowSlot(a, m, n, t, i, j) < a
      && (i < t <==> EntryCount * i + j < n + m)
      && (i < t ==> i == t - 1 && a - m <= GrowSlot(a, m, n, t, i, j))
      && (t <= i ==> i < TablesFor(n2) && GrowSlot(a, m, n, t, i, j) < a - m - 1)
  {
    var m, s2 := LastTableFill(n, n2), NewTableData(n, n2);
    var q := EntryCount * i + j;
    if q >= n + m {
      assert n + m == EntryCount * t;
      var k := i - t;
      assert EntryCount * k + j < s2;
      assert k < TablesFor(s2);
    }
  }

  /** New table `i` is taken from below the top `m` positions. */
  lemma NewTableSlot(n: nat, n2: nat, t: nat, a: nat, i: nat)
    requires t == TablesFor(n) && n <= n2 && a == (TablesFor(n2) - t) + (n2 - n)
    requires t <= i < TablesFor(n2)
    ensures 0 <= GrowTableSlot(a, LastTableFill(n, n2), t, i) < a - LastTableFill(n, n2)
  {
    var m, s2 := LastTableFill(n, n2), NewTableData(n, n2);
    var k := i - t;
    assert k < TablesFor(s2);
    assert EntryCount * k < s2;
  }

  /** Different new data sectors take different positions. */
  lemma NewSlotsApart(n: nat, n2: nat, t: nat, a: nat, i: nat, j: nat, k: nat, l: nat)
    requires t == TablesFor(n) && n <= n2 && a == (TablesFor(n2) - t) + (n2 - n)
    requires InUse(i, j, n2) && !InUse(i, j, n) && InUse(k, l, n2) && !InUse(k, l, n) && (i, j) != (k, l)
    ensures GrowSlot(a, LastTableFill(n, n2), n, t, i, j) != GrowSlot(a, LastTableFill(n, n2), n, t, k, l)
  {
    NewSlot(n, n2, t, a, i, j);
    NewSlot(n, n2, t, a, k, l);
  }

  /** A new data sector never takes the position of a new table. */
  lemma NewSlotNotTable(n: nat, n2: nat, t: nat, a: nat, i: nat, j: nat, k: nat)
    requires t == TablesFor(n) && n <= n2 && a == (TablesFor(n2) - t) + (n2 - n)
    requires InUse(i, j, n2) && !InUse(i, j, n) && t <= k < TablesFor(n2)
    ensures GrowSlot(a, LastTableFill(n, n2), n, t, i, j) != GrowTableSlot(a, LastTableFill(n, n2), t, k)
  {
    NewSlot(n, n2, t, a, i, j);
  }

  /** Entry `j` of table `i` of the grown directory: an old data sector,
      kept as it was, or a new one taken from the allocation order and
      zeroed. */
  ghost predicate EntryGrown(disk: Disk, disk0: Disk, dir: seq<Sector>, temp: seq<Sector>, n: nat, n2: nat, t: nat,
                             dir2: seq<Sector>, i: nat, j: nat)
    requires n <= n2
  {
    var g := GrowSlot(|temp|, LastTableFill(n, n2), n, t, i, j);
    && EntryAt(disk, dir2, i, j) == GrowEntry(disk0, dir, temp, n, n2, t, i, j)
    && (InUse(i, j, n) ==> i < t && SameAt(disk, disk0, EntryAt(disk0, dir, i, j)))
    && (InUse(i, j, n2) && !InUse(i, j, n) ==>
          && 0 <= g < |temp| && EntryAt(disk, dir2, i, j) == temp[g]
          && temp[g] in disk && disk[temp[g]] == Data(Zeros()))
  }

  /** Entry `j` of a kept old table. */
  lemma KeptTableEntry(disk: Disk, disk0: Disk, free0: set<Sector>, x: Sector, d: DiskInode, dir: seq<Sector>,
                       temp: seq<Sector>, d2: DiskInode, dir2: seq<Sector>, i: nat, j: nat)
    requires GrowthWritten(disk, disk0, free0, x, d, dir, temp, d2, dir2)
    requires i < d.btNum && j < EntryCount
    requires LastTableFill(BytesToSectors(d.length), BytesToSectors(d2.length)) > 0 ==> i != d.btNum - 1
    ensures EntryAt(disk, dir2, i, j) ==
      GrowEntry(disk0, dir, temp, BytesToSectors(d.length), BytesToSectors(d2.length), d.btNum, i, j)
    ensures |TableAt(disk, dir2[i])| == EntryCount
  {
    var n, n2, t := BytesToSectors(d.length), BytesToSectors(d2.length), d.btNum;
    OldTableKept(disk, disk0, free0, x, d, dir, temp, d2, dir2, i);
    assert dir2[i] == dir[i];
    assert TableAt(disk, dir[i]) == TableAt(disk0, dir[i]);
    assert InUse(i, j, n2) <==> InUse(i, j, n);
  }

  /** Entry `j` of the filled last table. */
  lemma FilledTableEntry(disk: Disk, disk0: Disk, free0: set<Sector>, x: Sector, d: DiskInode, dir: seq<Sector>,
                         temp: seq<Sector>, d2: DiskInode, dir2: seq<Sector>, j: nat)
    requires GrowthWritten(disk, disk0, free0, x, d, dir, temp, d2, dir2)
    requires LastTableFill(BytesToSectors(d.length), BytesToSectors(d2.length)) > 0 && j < EntryCount
    ensures d.btNum > 0
    ensures EntryAt(disk, dir2, d.btNum - 1, j) ==
      GrowEntry(disk0, dir, temp, BytesToSectors(d.length), BytesToSectors(d2.length), d.btNum, d.btNum - 1, j)
    ensures |TableAt(disk, dir2[d.btNum - 1])| == EntryCount
  {
    var n, n2, t := BytesToSectors(d.length), BytesToSectors(d2.length), d.btNum;
    FilledEntry(disk, disk0, dir, temp, n, n2, t, dir2, j);
  }

  /** Entry `j` of the last old table `t - 1` after the fill. */
  lemma FilledEntry(disk: Disk, disk0: Disk, dir: seq<Sector>, temp: seq<Sector>, n: nat, n2: nat, t: nat,
                    dir2: seq<Sector>, j: nat)
    requires t == TablesFor(n) && n <= n2 && |temp| == (TablesFor(n2) - t) + (n2 - n)
    requires LastTableFill(n, n2) > 0 && j < EntryCount && t > 0
    requires |dir| == EntryCount && t <= EntryCount && |TableAt(disk0, dir[t - 1])| == EntryCount
    requires TableAt(disk, dir[t - 1]) ==
      FillTable(TableAt(disk0, dir[t - 1]), temp, n - EntryCount * (t - 1), LastTableFill(n, n2))
    requires |dir2| == EntryCount && dir2[t - 1] == dir[t - 1]
    requires !InUse(t - 1, j, n) ==> EntryAt(disk0, dir, t - 1, j) == NoSector
    ensures EntryAt(disk, dir2, t - 1, j) == GrowEntry(disk0, dir, temp, n, n2, t, t - 1, j)
    ensures |TableAt(disk, dir2[t - 1])| == EntryCount
  {
    var a, m := |temp|, LastTableFill(n, n2);
    var first := n - EntryCount * (t - 1);
    var bt0 := TableAt(disk0, dir[t - 1]);
    var e := FillTable(bt0, temp, first, m)[j];
    assert EntryAt(disk, dir2, t - 1, j) == e;
    if j < first {
      assert InUse(t - 1, j, n) && e == bt0[j];
    } else if j < first + m {
      assert InUse(t - 1, j, n2) && !InUse(t - 1, j, n);
      assert GrowSlot(a, m, n, t, t - 1, j) == a - 1 - (j - first);
    } else {
      assert !InUse(t - 1, j, n2) && e == bt0[j] == EntryAt(disk0, dir, t - 1, j);
    }
  }

  /** New table `i` of the grown file, `t` its old table count: taken from
      the allocation order and written as `install_bd` writes its tables. */
  lemma NewTableAt(disk: Disk, dir: seq<Sector>, temp: seq<Sector>, bd: Sector, n: nat, n2: nat, t: nat,
                   dir2: seq<Sector>, i: nat)
    requires t == TablesFor(n) && n <= n2 <= EntryCount * EntryCount && |temp| == (TablesFor(n2) - t) + (n2 - n)
    requires |dir| == EntryCount && t <= i < TablesFor(n2)
    requires var temp2, s2 := NewTablesTemp(temp, LastTableFill(n, n2), bd), NewTableData(n, n2);
      && TablesInstalled(disk, temp2, s2) && dir2 == GrownDir(dir, t, InstallDir(temp2, s2))
    ensures var m, s2 := LastTableFill(n, n2), NewTableData(n, n2);
      && i - t < TablesFor(s2) <= EntryCount
      && |temp| - m + 1 == 1 + TablesFor(s2) + s2
      && dir2[i] == Taken(temp, GrowTableSlot(|temp|, m, t, i))
      && TableAt(disk, dir2[i]) == InstallTable(NewTablesTemp(temp, m, bd), s2, i - t)
  {
    var a, m, s2 := |temp|, LastTableFill(n, n2), NewTableData(n, n2);
    NewTableCount(n, n2, t, a, i);
    NewTableSlot(n, n2, t, a, i);
    NewTableIn(disk, NewTablesTemp(temp, m, bd), s2, dir, t, dir2, i - t);
  }

  /** Table `k` of the index installed after `t` old tables. */
  lemma NewTableIn(disk: Disk, temp2: seq<Sector>, s2: nat, dir: seq<Sector>, t: nat, dir2: seq<Sector>, k: nat)
    requires |temp2| == 1 + TablesFor(s2) + s2 && k < TablesFor(s2) <= EntryCount
    requires |dir| == EntryCount && t + k < EntryCount
    requires TablesInstalled(disk, temp2, s2) && dir2 == GrownDir(dir, t, InstallDir(temp2, s2))
    ensures dir2[t + k] == temp2[TableSlot(|temp2|, k)]
    ensures TableAt(disk, dir2[t + k]) == InstallTable(temp2, s2, k)
  {
    assert dir2[t + k] == InstallDir(temp2, s2)[k];
    assert TableInstalled(disk, temp2, s2, k);
  }

  /** New table `i` is table `i - t` of the index `install_bd` would build
      for the new data sectors alone. */
  lemma NewTableCount(n: nat, n2: nat, t: nat, a: nat, i: nat)
    requires t == TablesFor(n) && n <= n2 && a == (TablesFor(n2) - t) + (n2 - n)
    requires t <= i < TablesFor(n2) <= EntryCount
    ensures var m, s2 := LastTableFill(n, n2), NewTableData(n, n2);
      && i - t < TablesFor(s2) <= EntryCount
      && a - m + 1 == 1 + TablesFor(s2) + s2
      && TableSlot(a - m + 1, i - t) == GrowTableSlot(a, m, t, i)
  {
  }

  /** Entry `j` of new table `i`. */
  lemma NewTableEntry(disk: Disk, disk0: Disk, dir: seq<Sector>, temp: seq<Sector>, bd: Sector,
                      n: nat, n2: nat, t: nat, dir2: seq<Sector>, i: nat, j: nat)
    requires t == TablesFor(n) && n <= n2 && |temp| == (TablesFor(n2) - t) + (n2 - n)
    requires t <= i < TablesFor(n2) <= EntryCount && j < EntryCount && |dir2| == EntryCount
    requires TableAt(disk, dir2[i]) == InstallTable(NewTablesTemp(temp, LastTableFill(n, n2), bd), NewTableData(n, n2), i - t)
    ensures EntryAt(disk, dir2, i, j) == GrowEntry(disk0, dir, temp, n, n2, t, i, j)
  {
    var a, m, s2 := |temp|, LastTableFill(n, n2), NewTableData(n, n2);
    var k := i - t;
    assert InUse(k, j, s2) <==> InUse(i, j, n2);
    if InUse(k, j, s2) {
      assert DataSlot(a - m + 1, k, j) == GrowSlot(a, m, n, t, i, j);
    }
  }

  /** A new data sector of the grown file was taken from the allocation
      order and holds zeros. */
  lemma NewDataZero(disk: Disk, disk0: Disk, free0: set<Sector>, x: Sector, d: DiskInode, dir: seq<Sector>,
                    temp: seq<Sector>, d2: DiskInode, dir2: seq<Sector>, i: nat, j: nat)
    requires GrowthWritten(disk, disk0, free0, x, d, dir, temp, d2, dir2)
    requires InUse(i, j, BytesToSectors(d2.length)) && !InUse(i, j, BytesToSectors(d.length))
    ensures var g := GrowSlot(|temp|, LastTableFill(BytesToSectors(d.length), BytesToSectors(d2.length)), BytesToSectors(d.length), d.btNum, i, j);
      0 <= g < |temp| && temp[g] in disk && disk[temp[g]] == Data(Zeros())
  {
    var n, n2, t, a := BytesToSectors(d.length), BytesToSectors(d2.length), d.btNum, |temp|;
    var m, s2 := LastTableFill(n, n2), NewTableData(n, n2);
    NewSlot(n, n2, t, a, i, j);
    if t <= i {
      var temp2 := NewTablesTemp(temp, m, d.bd);
      var k := i - t;
      assert TableInstalled(disk, temp2, s2, k);
      assert InUse(k, j, s2);
      assert DataSlot(|temp2|, k, j) == GrowSlot(a, m, n, t, i, j);
    }
  }

  /** Table `i` of the grown directory: an old table, a new one taken from
      the allocation order, or -1. */
  lemma GrownTable(disk: Disk, disk0: Disk, free0: set<Sector>, x: Sector, d: DiskInode, dir: seq<Sector>,
                   temp: seq<Sector>, d2: DiskInode, dir2: seq<Sector>, i: nat)
    requires GrowthWritten(disk, disk0, free0, x, d, dir, temp, d2, dir2)
    requires i < EntryCount
    ensures var n, n2, t := BytesToSectors(d.length), BytesToSectors(d2.length), d.btNum;
      var m := LastTableFill(n, n2);
      && t <= d2.btNum <= EntryCount
      && (i < t ==> dir2[i] == dir[i])
      && (t <= i < d2.btNum ==>
            && 0 <= GrowTableSlot(|temp|, m, t, i) < |temp|
            && dir2[i] == temp[GrowTableSlot(|temp|, m, t, i)])
      && (d2.btNum <= i ==> dir2[i] == NoSector)
      && (i < d2.btNum ==> |TableAt(disk, dir2[i])| == EntryCount)
  {
    var n, n2, t := BytesToSectors(d.length), BytesToSectors(d2.length), d.btNum;
    var m, s2 := LastTableFill(n, n2), NewTableData(n, n2);
    if t <= i < d2.btNum {
      NewTableSlot(n, n2, t, |temp|, i);
      NewTableAt(disk, dir, temp, d.bd, n, n2, t, dir2, i);
    } else if i < t {
      if m > 0 && i == t - 1 {
        FilledTableEntry(disk, disk0, free0, x, d, dir, temp, d2, dir2, 0);
      } else {
        KeptTableEntry(disk, disk0, free0, x, d, dir, temp, d2, dir2, i, 0);
      }
    } else {
      assert i - t >= TablesFor(s2);
    }
  }

  /** Every entry of the grown directory's tables is as `EntryGrown` says. */
  lemma GrownEntry(disk: Disk, disk0: Disk, free0: set<Sector>, x: Sector, d: DiskInode, dir: seq<Sector>,
                   temp: seq<Sector>, d2: DiskInode, dir2: seq<Sector>, i: nat, j: nat)
    requires GrowthWritten(disk, disk0, free0, x, d, dir, temp, d2, dir2)
    requires i < d2.btNum && j < EntryCount
    ensures EntryGrown(disk, disk0, dir, temp, BytesToSectors(d.length), BytesToSectors(d2.length), d.btNum, dir2, i, j)
  {
    var n, n2, t := BytesToSectors(d.length), BytesToSectors(d2.length), d.btNum;
    if t <= i {
      NewTableAt(disk, dir, temp, d.bd, n, n2, t, dir2, i);
      NewTableEntry(disk, disk0, dir, temp, d.bd, n, n2, t, dir2, i, j);
    } else if LastTableFill(n, n2) > 0 && i == t - 1 {
      FilledTableEntry(disk, disk0, free0, x, d, dir, temp, d2, dir2, j);
    } else {
      KeptTableEntry(disk, disk0, free0, x, d, dir, temp, d2, dir2, i, j);
    }
    if InUse(i, j, n) {
      OldDataKept(disk, disk0, free0, x, d, dir, temp, d2, dir2, i, j);
    } else if InUse(i, j, n2) {
      NewDataZero(disk, disk0, free0, x, d, dir, temp, d2, dir2, i, j);
    }
  }

  /** The grown directory lists the `t2` tables of a file of `n2` data
      sectors, each of 128 entries. */
  lemma GrownDirShaped(disk: Disk, disk0: Disk, free0: set<Sector>, x: Sector, d: DiskInode, dir: seq<Sector>,
                       temp: seq<Sector>, d2: DiskInode, dir2: seq<Sector>)
    requires GrowthWritten(disk, disk0, free0, x, d, dir, temp, d2, dir2)
    ensures |dir2| == EntryCount && d2.btNum <= EntryCount
    ensures forall i :: 0 <= i < EntryCount ==> (dir2[i] == NoSector <==> d2.btNum <= i)
    ensures forall i :: 0 <= i < d2.btNum ==> |TableAt(disk, dir2[i])| == EntryCount
  {
    GrownTable(disk, disk0, free0, x, d, dir, temp, d2, dir2, 0);
    forall i | 0 <= i < EntryCount
      ensures dir2[i] == NoSector <==> d2.btNum <= i
      ensures i < d2.btNum ==> |TableAt(disk, dir2[i])| == EntryCount
    {
      GrownTable(disk, disk0, free0, x, d, dir, temp, d2, dir2, i);
    }
  }

  /** The grown index has the shape of a file of `n2` data sectors. */
  lemma GrownShaped(disk: Disk, disk0: Disk, free0: set<Sector>, x: Sector, d: DiskInode, dir: seq<Sector>,
                    temp: seq<Sector>, d2: DiskInode, dir2: seq<Sector>)
    requires GrowthWritten(disk, disk0, free0, x, d, dir, temp, d2, dir2)
    ensures IndexShaped(disk, dir2, d2.btNum, BytesToSectors(d2.length))
  {
    var n, n2, t2 := BytesToSectors(d.length), BytesToSectors(d2.length), d2.btNum;
    GrownDirShaped(disk, disk0, free0, x, d, dir, temp, d2, dir2);
    forall i, j | 0 <= i < t2 && 0 <= j < EntryCount
      ensures EntryAt(disk, dir2, i, j) == NoSector <==> !InUse(i, j, n2)
      ensures InUse(i, j, n2) ==> IsData(disk, EntryAt(disk, dir2, i, j))
    {
      GrownEntry(disk, disk0, free0, x, d, dir, temp, d2, dir2, i, j);
      if InUse(i, j, n) {
        assert IsData(disk0, EntryAt(disk0, dir, i, j));
      }
    }
  }

  /** The grown directory lists distinct tables, none of them the record or
      the directory. */
  lemma GrownTablesApart(disk: Disk, disk0: Disk, free0: set<Sector>, x: Sector, d: DiskInode, dir: seq<Sector>,
                         temp: seq<Sector>, d2: DiskInode, dir2: seq<Sector>)
    requires GrowthWritten(disk, disk0, free0, x, d, dir, temp, d2, dir2)
    ensures d.btNum <= d2.btNum <= EntryCount && |dir2| == EntryCount
    ensures forall i :: 0 <= i < d2.btNum ==> dir2[i] != x && dir2[i] != d.bd
    ensures forall i, k :: 0 <= i < k < d2.btNum ==> dir2[i] != dir2[k]
  {
    var n, n2, t, t2, a := BytesToSectors(d.length), BytesToSectors(d2.length), d.btNum, d2.btNum, |temp|;
    var m := LastTableFill(n, n2);
    GrownTable(disk, disk0, free0, x, d, dir, temp, d2, dir2, 0);
    TakenNotOwned(disk0, free0, x, d, dir, temp, n2, x);
    TakenNotOwned(disk0, free0, x, d, dir, temp, n2, d.bd);
    forall i | 0 <= i < t2
      ensures dir2[i] != x && dir2[i] != d.bd
    {
      GrownTable(disk, disk0, free0, x, d, dir, temp, d2, dir2, i);
    }
    forall i, k | 0 <= i < k < t2
      ensures dir2[i] != dir2[k]
    {
      GrownTable(disk, disk0, free0, x, d, dir, temp, d2, dir2, i);
      GrownTable(disk, disk0, free0, x, d, dir, temp, d2, dir2, k);
      if i < t && t <= k {
        assert Owns(disk0, x, d.bd, dir, t, n, dir[i]);
        TakenNotOwned(disk0, free0, x, d, dir, temp, n2, dir[i]);
      }
    }
  }

  /** No data sector of the grown file is its record, its directory or one
      of its tables. */
  lemma GrownEntriesApart(disk: Disk, disk0: Disk, free0: set<Sector>, x: Sector, d: DiskInode, dir: seq<Sector>,
                          temp: seq<Sector>, d2: DiskInode, dir2: seq<Sector>)
    requires GrowthWritten(disk, disk0, free0, x, d, dir, temp, d2, dir2)
    ensures d2.btNum <= EntryCount && |dir2| == EntryCount
    ensures forall i, j :: 0 <= i < d2.btNum && InUse(i, j, BytesToSectors(d2.length)) ==>
      EntryAt(disk, dir2, i, j) != x && EntryAt(disk, dir2, i, j) != d.bd
    ensures forall i, j, k :: 0 <= i < d2.btNum && InUse(i, j, BytesToSectors(d2.length)) && 0 <= k < d2.btNum ==>
      EntryAt(disk, dir2, i, j) != dir2[k]
  {
    var n, n2, t, t2, a := BytesToSectors(d.length), BytesToSectors(d2.length), d.btNum, d2.btNum, |temp|;
    GrownTable(disk, disk0, free0, x, d, dir, temp, d2, dir2, 0);
    TakenNotOwned(disk0, free0, x, d, dir, temp, n2, x);
    TakenNotOwned(disk0, free0, x, d, dir, temp, n2, d.bd);
    forall i, j | 0 <= i < t2 && InUse(i, j, n2)
      ensures EntryAt(disk, dir2, i, j) != x && EntryAt(disk, dir2, i, j) != d.bd
    {
      GrownEntry(disk, disk0, free0, x, d, dir, temp, d2, dir2, i, j);
    }
    forall i, j, k | 0 <= i < t2 && InUse(i, j, n2) && 0 <= k < t2
      ensures EntryAt(disk, dir2, i, j) != dir2[k]
    {
      EntryNotTable(disk, disk0, free0, x, d, dir, temp, d2, dir2, i, j, k);
    }
  }

  /** Data sector (`i`, `j`) of the grown file is not its table `k`. */
  lemma EntryNotTable(disk: Disk, disk0: Disk, free0: set<Sector>, x: Sector, d: DiskInode, dir: seq<Sector>,
                      temp: seq<Sector>, d2: DiskInode, dir2: seq<Sector>, i: nat, j: nat, k: nat)
    requires GrowthWritten(disk, disk0, free0, x, d, dir, temp, d2, dir2)
    requires i < d2.btNum && InUse(i, j, BytesToSectors(d2.length)) && k < d2.btNum
    ensures EntryAt(disk, dir2, i, j) != dir2[k]
  {
    var n, n2, t, a := BytesToSectors(d.length), BytesToSectors(d2.length), d.btNum, |temp|;
    GrownEntry(disk, disk0, free0, x, d, dir, temp, d2, dir2, i, j);
    GrownTable(disk, disk0, free0, x, d, dir, temp, d2, dir2, k);
    var y := EntryAt(disk, dir2, i, j);
    if InUse(i, j, n) {
      if k < t {
        assert y == EntryAt(disk0, dir, i, j);
      } else {
        assert Owns(disk0, x, d.bd, dir, t, n, y);
        TakenNotOwned(disk0, free0, x, d, dir, temp, n2, y);
      }
    } else if k < t {
      assert Owns(disk0, x, d.bd, dir, t, n, dir[k]);
      TakenNotOwned(disk0, free0, x, d, dir, temp, n2, dir[k]);
    } else {
      NewSlotNotTable(n, n2, t, a, i, j, k);
    }
  }

  /** Different data sectors of the grown file are different sectors. */
  lemma EntriesApart(disk: Disk, disk0: Disk, free0: set<Sector>, x: Sector, d: DiskInode, dir: seq<Sector>,
                     temp: seq<Sector>, d2: DiskInode, dir2: seq<Sector>, i: nat, j: nat, k: nat, l: nat)
    requires GrowthWritten(disk, disk0, free0, x, d, dir, temp, d2, dir2)
    requires i < d2.btNum && InUse(i, j, BytesToSectors(d2.length))
    requires k < d2.btNum && InUse(k, l, BytesToSectors(d2.length)) && (i, j) != (k, l)
    ensures EntryAt(disk, dir2, i, j) != EntryAt(disk, dir2, k, l)
  {
    var n, n2, t, a := BytesToSectors(d.length), BytesToSectors(d2.length), d.btNum, |temp|;
    GrownEntry(disk, disk0, free0, x, d, dir, temp, d2, dir2, i, j);
    GrownEntry(disk, disk0, free0, x, d, dir, temp, d2, dir2, k, l);
    var y, z := EntryAt(disk, dir2, i, j), EntryAt(disk, dir2, k, l);
    if InUse(i, j, n) && InUse(k, l, n) {
      assert y == EntryAt(disk0, dir, i, j) && z == EntryAt(disk0, dir, k, l);
    } else if InUse(i, j, n) {
      assert Owns(disk0, x, d.bd, dir, t, n, y);
      TakenNotOwned(disk0, free0, x, d, dir, temp, n2, y);
    } else if InUse(k, l, n) {
      assert Owns(disk0, x, d.bd, dir, t, n, z);
      TakenNotOwned(disk0, free0, x, d, dir, temp, n2, z);
    } else {
      NewSlotsApart(n, n2, t, a, i, j, k, l);
    }
  }

  /** The sectors of the grown file are all different. */
  lemma GrownSeparate(disk: Disk, disk0: Disk, free0: set<Sector>, x: Sector, d: DiskInode, dir: seq<Sector>,
                      temp: seq<Sector>, d2: DiskInode, dir2: seq<Sector>)
    requires GrowthWritten(disk, disk0, free0, x, d, dir, temp, d2, dir2)
    ensures d2.btNum <= EntryCount && |dir2| == EntryCount
    ensures Separate(disk, x, d.bd, dir2, d2.btNum, BytesToSectors(d2.length))
  {
    var n2, t2 := BytesToSectors(d2.length), d2.btNum;
    GrownTablesApart(disk, disk0, free0, x, d, dir, temp, d2, dir2);
    GrownEntriesApart(disk, disk0, free0, x, d, dir, temp, d2, dir2);
    forall i, j, k, l | 0 <= i < t2 && InUse(i, j, n2) && 0 <= k < t2 && InUse(k, l, n2) && (i, j) != (k, l)
      ensures EntryAt(disk, dir2, i, j) != EntryAt(disk, dir2, k, l)
    {
      EntriesApart(disk, disk0, free0, x, d, dir, temp, d2, dir2, i, j, k, l);
    }
  }

  /** Every sector of the grown file was a sector of the old file or was
      taken by the growth. */
  lemma GrownOwned(disk: Disk, disk0: Disk, free0: set<Sector>, x: Sector, d: DiskInode, dir: seq<Sector>,
                   temp: seq<Sector>, d2: DiskInode, dir2: seq<Sector>, y: Sector)
    requires GrowthWritten(disk, disk0, free0, x, d, dir, temp, d2, dir2)
    requires d2.btNum <= EntryCount && |dir2| == EntryCount
    requires Owns(disk, x, d.bd, dir2, d2.btNum, BytesToSectors(d2.length), y)
    ensures Owns(disk0, x, d.bd, dir, d.btNum, BytesToSectors(d.length), y) || y in temp
  {
    var n, n2, t, t2 := BytesToSectors(d.length), BytesToSectors(d2.length), d.btNum, d2.btNum;
    if exists i :: 0 <= i < t2 && dir2[i] == y {
      var i :| 0 <= i < t2 && dir2[i] == y;
      GrownTable(disk, disk0, free0, x, d, dir, temp, d2, dir2, i);
    } else if exists i, j :: 0 <= i < t2 && InUse(i, j, n2) && EntryAt(disk, dir2, i, j) == y {
      var i, j :| 0 <= i < t2 && InUse(i, j, n2) && EntryAt(disk, dir2, i, j) == y;
      GrownEntry(disk, disk0, free0, x, d, dir, temp, d2, dir2, i, j);
    }
  }

  /** Byte `p` of the grown file: the old byte inside the old sectors, zero
      in the new ones. */
  lemma GrownByte(disk: Disk, disk0: Disk, free0: set<Sector>, x: Sector, d: DiskInode, dir: seq<Sector>,
                  temp: seq<Sector>, d2: DiskInode, dir2: seq<Sector>, p: nat)
    requires GrowthWritten(disk, disk0, free0, x, d, dir, temp, d2, dir2)
    requires p < BytesToSectors(d2.length) * SectorSize
    ensures ByteAt(disk, dir2, p) == if p < BytesToSectors(d.length) * SectorSize then ByteAt(disk0, dir, p) else 0
  {
    var n, n2 := BytesToSectors(d.length), BytesToSectors(d2.length);
    var q := p / SectorSize;
    var i, j := q / EntryCount, q % EntryCount;
    assert InUse(i, j, n2);
    GrownEntry(disk, disk0, free0, x, d, dir, temp, d2, dir2, i, j);
    assert InUse(i, j, n) <==> p < n * SectorSize;
  }

  /** `file_growth` leaves a well-formed file of the new length whose
      sectors are the old ones and those it took from the free map; its
      bytes are the old bytes up to the old length and zeros after. */
  lemma GrownFileOk(disk: Disk, disk0: Disk, free0: set<Sector>, x: Sector, d: DiskInode, dir: seq<Sector>,
                    temp: seq<Sector>, d2: DiskInode, dir2: seq<Sector>)
    requires GrowthWritten(disk, disk0, free0, x, d, dir, temp, d2, dir2)
    ensures FileOk(disk, free0 - Elems(temp), x, d2, dir2)
    ensures forall p: nat :: p < d.length ==> ByteAt(disk, dir2, p) == ByteAt(disk0, dir, p)
    ensures forall p: nat :: d.length <= p < d2.length ==> ByteAt(disk, dir2, p) == 0
  {
    var n, n2, t, t2 := BytesToSectors(d.length), BytesToSectors(d2.length), d.btNum, d2.btNum;
    GrownShaped(disk, disk0, free0, x, d, dir, temp, d2, dir2);
    GrownSeparate(disk, disk0, free0, x, d, dir, temp, d2, dir2);
    forall y | y in free0 - Elems(temp)
      ensures !Owns(disk, x, d.bd, dir2, t2, n2, y)
    {
      if Owns(disk, x, d.bd, dir2, t2, n2, y) {
        GrownOwned(disk, disk0, free0, x, d, dir, temp, d2, dir2, y);
      }
    }
    forall p: nat | p < n2 * SectorSize
      ensures ByteAt(disk, dir2, p) == if p < n * SectorSize then ByteAt(disk0, dir, p) else 0
    {
      GrownByte(disk, disk0, free0, x, d, dir, temp, d2, dir2, p);
    }
  }

  // ---------------------------------------------------------------------------
  // Assembling the disk `file_growth` leaves

  /** The disk after the table work of `file_growth`, before the directory
      and the record are written back. */
  ghost predicate GrowthTables(disk: Disk, disk0: Disk, free0: set<Sector>, x: Sector, d: DiskInode, dir: seq<Sector>,
                               temp: seq<Sector>, n2: nat)
  {
    var n := BytesToSectors(d.length);
    && GrowthFrom(disk0, free0, x, d, dir, temp, n2)
    && LastFilled(disk, disk0, free0, x, d, dir, temp, n2)
    && TablesInstalled(disk, NewTablesTemp(temp, LastTableFill(n, n2), d.bd), NewTableData(n, n2))
  }

  /** The disk after the fill of the last table: its free entries, as many
      as `LastTableFill` counts, hold the sectors from the top of the
      allocation order down, each written as zeros; every sector outside the
      allocation order and the last table is as before. */
  ghost predicate LastFilled(disk: Disk, disk0: Disk, free0: set<Sector>, x: Sector, d: DiskInode, dir: seq<Sector>,
                             temp: seq<Sector>, n2: nat)
    requires GrowthFrom(disk0, free0, x, d, dir, temp, n2)
  {
    var n, t, a := BytesToSectors(d.length), d.btNum, |temp|;
    var m := LastTableFill(n, n2);
    && (m > 0 ==>
          TableAt(disk, dir[t - 1]) == FillTable(TableAt(disk0, dir[t - 1]), temp, n - EntryCount * (t - 1), m))
    && (forall p :: a - m <= p < a ==> temp[p] in disk && disk[temp[p]] == Data(Zeros()))
    && (forall y :: y !in temp && (m > 0 ==> y != dir[t - 1]) ==> SameAt(disk, disk0, y))
  }

  /** The sectors left for the new tables, with `bd` on top, are distinct,
      and none of the sectors the fill took is among them. */
  lemma NewTablesTempApart(temp: seq<Sector>, m: nat, bd: Sector)
    requires Distinct(temp) && bd !in temp && m <= |temp|
    ensures Distinct(NewTablesTemp(temp, m, bd))
    ensures forall p :: |temp| - m <= p < |temp| ==> temp[p] !in NewTablesTemp(temp, m, bd)
    ensures forall y :: y in NewTablesTemp(temp, m, bd) ==> y == bd || y in temp
  {
    var temp2 := NewTablesTemp(temp, m, bd);
    forall y | y in temp2
      ensures y == bd || y in temp
    {
      var r :| 0 <= r < |temp2| && temp2[r] == y;
      if r < |temp2| - 1 {
        assert temp[r] == y;
      }
    }
  }

  /** The last old table is none of the sectors taken and not the directory. */
  lemma LastTableApart(disk0: Disk, free0: set<Sector>, x: Sector, d: DiskInode, dir: seq<Sector>,
                       temp: seq<Sector>, n2: nat)
    requires GrowthFrom(disk0, free0, x, d, dir, temp, n2) && d.btNum > 0
    ensures dir[d.btNum - 1] !in temp && dir[d.btNum - 1] != d.bd && dir[d.btNum - 1] != x
    ensures x !in temp && d.bd !in temp
  {
    var n, t := BytesToSectors(d.length), d.btNum;
    assert Owns(disk0, x, d.bd, dir, t, n, dir[t - 1]);
    TakenNotOwned(disk0, free0, x, d, dir, temp, n2, dir[t - 1]);
    TakenNotOwned(disk0, free0, x, d, dir, temp, n2, x);
    TakenNotOwned(disk0, free0, x, d, dir, temp, n2, d.bd);
  }

  /** Writing the grown directory at `bd` and the grown record at `x` after
      the table work completes the disk `file_growth` leaves. */
  lemma GrowthCompleted(disk: Disk, disk1: Disk, disk0: Disk, free0: set<Sector>, x: Sector, d: DiskInode,
                        dir: seq<Sector>, temp: seq<Sector>, d2: DiskInode, dir2: seq<Sector>)
    requires d.length <= d2.length <= MaxFileSize
    requires GrowthTables(disk1, disk0, free0, x, d, dir, temp, BytesToSectors(d2.length))
    requires var n, n2 := BytesToSectors(d.length), BytesToSectors(d2.length);
      dir2 == GrownDir(dir, d.btNum, InstallDir(NewTablesTemp(temp, LastTableFill(n, n2), d.bd), NewTableData(n, n2)))
    requires d2 == d.(length := d2.length, btNum := TablesFor(BytesToSectors(d2.length)), allocNum := d.allocNum + |temp|)
    requires disk == disk1[d.bd := Table(dir2)][x := Record(d2)]
    ensures GrowthWritten(disk, disk0, free0, x, d, dir, temp, d2, dir2)
  {
    var n, n2, t := BytesToSectors(d.length), BytesToSectors(d2.length), d.btNum;
    var m, s2 := LastTableFill(n, n2), NewTableData(n, n2);
    TakenNotOwned(disk0, free0, x, d, dir, temp, n2, x);
    TakenNotOwned(disk0, free0, x, d, dir, temp, n2, d.bd);
    WriteBackKeepsFill(disk, disk1, disk0, free0, x, d, dir, temp, n2, d2, dir2);
    WriteBackKeepsTables(disk, disk1, temp, m, s2, d.bd, x, dir2, d2);
  }

  /** Writing the directory and the record keeps the fill of the last table
      and the zeroed data sectors, and changes nothing else. */
  lemma WriteBackKeepsFill(disk: Disk, disk1: Disk, disk0: Disk, free0: set<Sector>, x: Sector, d: DiskInode,
                           dir: seq<Sector>, temp: seq<Sector>, n2: nat, d2: DiskInode, dir2: seq<Sector>)
    requires GrowthFrom(disk0, free0, x, d, dir, temp, n2)
    requires LastFilled(disk1, disk0, free0, x, d, dir, temp, n2)
    requires disk == disk1[d.bd := Table(dir2)][x := Record(d2)]
    ensures var n, t, a := BytesToSectors(d.length), d.btNum, |temp|;
      var m := LastTableFill(n, n2);
      && (m > 0 ==>
            TableAt(disk, dir[t - 1]) == FillTable(TableAt(disk0, dir[t - 1]), temp, n - EntryCount * (t - 1), m))
      && (forall p :: a - m <= p < a ==> temp[p] in disk && disk[temp[p]] == Data(Zeros()))
      && (forall y :: y !in temp && y != x && y != d.bd && (m > 0 ==> y != dir[t - 1]) ==> SameAt(disk, disk0, y))
  {
    TakenNotOwned(disk0, free0, x, d, dir, temp, n2, x);
    TakenNotOwned(disk0, free0, x, d, dir, temp, n2, d.bd);
    if d.btNum > 0 {
      LastTableApart(disk0, free0, x, d, dir, temp, n2);
    }
  }

  /** Writing the directory and the record, neither of them a sector taken,
      keeps the new tables. */
  lemma WriteBackKeepsTables(disk: Disk, disk1: Disk, temp: seq<Sector>, m: nat, s2: nat, bd: Sector, x: Sector,
                             dir2: seq<Sector>, d2: DiskInode)
    requires m <= |temp| && |temp| - m == TablesFor(s2) + s2 && TablesFor(s2) <= EntryCount
    requires bd !in temp && x !in temp
    requires TablesInstalled(disk1, NewTablesTemp(temp, m, bd), s2)
    requires disk == disk1[bd := Table(dir2)][x := Record(d2)]
    ensures TablesInstalled(disk, NewTablesTemp(temp, m, bd), s2)
  {
    TablesFrame(disk1, disk, NewTablesTemp(temp, m, bd), s2, TablesFor(s2), 0);
  }

  /** When growth needs no new sector, rewriting the record with the new
      length is the whole of it. */
  lemma GrowthWithoutSectors(disk: Disk, disk0: Disk, free0: set<Sector>, x: Sector, d: DiskInode,
                             dir: seq<Sector>, d2: DiskInode)
    requires FileOk(disk0, free0, x, d, dir)
    requires d.length <= d2.length <= MaxFileSize
    requires BytesToSectors(d2.length) == BytesToSectors(d.length)
    requires d2 == d.(length := d2.length) && disk == disk0[x := Record(d2)]
    ensures GrowthWritten(disk, disk0, free0, x, d, dir, [], d2, dir)
  {
    var n, t := BytesToSectors(d.length), d.btNum;
    var added := InstallDir(NewTablesTemp([], 0, d.bd), 0);
    assert dir == GrownDir(dir, t, added);
  }

  /** The fill loop of `file_growth` starts after entry `last`, the one of
      the old last data sector, and runs until the table or the allocated
      sectors run out: that is the fill of the last table. */
  lemma FillCount(n: nat, n2: nat, a: nat, last: nat)
    requires 0 < n <= n2 && a == (TablesFor(n2) - TablesFor(n)) + (n2 - n)
    requires last == (n - 1) % EntryCount && last != EntryCount - 1
    ensures last + 1 == n - EntryCount * (TablesFor(n) - 1)
    ensures LastTableFill(n, n2) == if EntryCount - 1 - last < a then EntryCount - 1 - last else a
  {
    var t := TablesFor(n);
    assert n - 1 == EntryCount * ((n - 1) / EntryCount) + last;
    assert t - 1 == (n - 1) / EntryCount;
    var s2 := NewTableData(n, n2);
  }

  /** When the entry of the last data sector of a non-empty file is not the
      last of its table, the fill starts right after it, in the file's last
      table, which is a table apart from everything growth writes. */
  lemma FillSetup(disk0: Disk, free0: set<Sector>, x: Sector, d: DiskInode, dir: seq<Sector>,
                  temp: seq<Sector>, n2: nat)
    requires GrowthFrom(disk0, free0, x, d, dir, temp, n2)
    requires d.length != 0 && BtIndex(BytesToSectors(d.length)) != EntryCount - 1
    ensures var n, t := BytesToSectors(d.length), d.btNum; var last := BtIndex(n);
      && 0 < t <= EntryCount && |dir| == EntryCount && BdIndex(n) == t - 1
      && last < EntryCount - 1 && last + 1 == n - EntryCount * (t - 1)
      && |TableAt(disk0, dir[t - 1])| == EntryCount && dir[t - 1] !in temp
      && LastTableFill(n, n2) == if EntryCount - 1 - last < |temp| then EntryCount - 1 - last else |temp|
  {
    var n := BytesToSectors(d.length);
    LastSectorEntry(n);
    LastTableApart(disk0, free0, x, d, dir, temp, n2);
    FillCount(n, n2, |temp|, BtIndex(n));
  }

  /** The fill loop of `file_growth`, run on the last table after entry
      `last` with the allocated sectors `temp`, performs the fill of the
      last table and keeps `alloc` sectors for new tables. */
  lemma FillDone(disk: Disk, disk0: Disk, free0: set<Sector>, x: Sector, d: DiskInode, dir: seq<Sector>,
                 temp: seq<Sector>, n2: nat, table: Sector, last: nat, alloc: nat)
    requires GrowthFrom(disk0, free0, x, d, dir, temp, n2)
    requires d.length != 0 && last == BtIndex(BytesToSectors(d.length)) && last != EntryCount - 1
    requires 0 < d.btNum <= |dir| && table == dir[d.btNum - 1] && alloc <= |temp|
    requires |temp| - alloc == if EntryCount - 1 - last < |temp| then EntryCount - 1 - last else |temp|
    requires |TableAt(disk0, table)| == EntryCount && last + 1 + (|temp| - alloc) <= EntryCount
    requires TableAt(disk, table) == FillTable(TableAt(disk0, table), temp, last + 1, |temp| - alloc)
    requires forall p :: alloc <= p < |temp| ==> temp[p] in disk && disk[temp[p]] == Data(Zeros())
    requires forall y :: y !in temp && y != table ==> SameAt(disk, disk0, y)
    ensures alloc == |temp| - LastTableFill(BytesToSectors(d.length), n2)
    ensures LastFilled(disk, disk0, free0, x, d, dir, temp, n2)
  {
    FillSetup(disk0, free0, x, d, dir, temp, n2);
  }

  /** An empty file, or one whose last table is full, has nothing to fill,
      as `file_growth` finds it. */
  lemma NoFillSetup(disk0: Disk, free0: set<Sector>, x: Sector, d: DiskInode, dir: seq<Sector>,
                    temp: seq<Sector>, n2: nat)
    requires GrowthFrom(disk0, free0, x, d, dir, temp, n2)
    requires d.length == 0 || BtIndex(BytesToSectors(d.length)) == EntryCount - 1
    ensures LastTableFill(BytesToSectors(d.length), n2) == 0
    ensures LastFilled(disk0, disk0, free0, x, d, dir, temp, n2)
  {
    NothingToFill(BytesToSectors(d.length), n2);
  }

  /** An empty file, or one whose last table is full, has nothing to fill. */
  lemma NothingToFill(n: nat, n2: nat)
    requires n <= n2
    requires n == 0 || (n - 1) % EntryCount == EntryCount - 1
    ensures LastTableFill(n, n2) == 0
  {
    if n > 0 {
      assert n - 1 == EntryCount * ((n - 1) / EntryCount) + EntryCount - 1;
      assert TablesFor(n) == (n - 1) / EntryCount + 1;
    }
  }

  /** The fill of the last table (from `disk0` to `disk1`) followed by the
      new tables (from `disk1` to `disk`) is the table work of `file_growth`. */
  lemma GrowthTablesFrom(disk: Disk, disk1: Disk, disk0: Disk, free0: set<Sector>, x: Sector, d: DiskInode,
                         dir: seq<Sector>, temp: seq<Sector>, n2: nat)
    requires GrowthFrom(disk0, free0, x, d, dir, temp, n2)
    requires LastFilled(disk1, disk0, free0, x, d, dir, temp, n2)
    requires var n, m := BytesToSectors(d.length), LastTableFill(BytesToSectors(d.length), n2);
      var temp2 := NewTablesTemp(temp, m, d.bd);
      && TablesInstalled(disk, temp2, NewTableData(n, n2))
      && (forall y :: y !in temp2 ==> SameAt(disk, disk1, y))
      && SameAt(disk, disk1, d.bd)
    ensures GrowthTables(disk, disk0, free0, x, d, dir, temp, n2)
  {
    var n, t, a := BytesToSectors(d.length), d.btNum, |temp|;
    var m := LastTableFill(n, n2);
    var temp2 := NewTablesTemp(temp, m, d.bd);
    TakenNotOwned(disk0, free0, x, d, dir, temp, n2, d.bd);
    NewTablesTempApart(temp, m, d.bd);
    if m > 0 {
      LastTableApart(disk0, free0, x, d, dir, temp, n2);
      assert SameAt(disk, disk1, dir[t - 1]);
    }
  }

  /** Growth changes no sector outside the old file and the sectors taken. */
  lemma GrowthOutside(disk: Disk, disk0: Disk, free0: set<Sector>, x: Sector, d: DiskInode, dir: seq<Sector>,
                      temp: seq<Sector>, d2: DiskInode, dir2: seq<Sector>)
    requires GrowthWritten(disk, disk0, free0, x, d, dir, temp, d2, dir2)
    ensures |dir| == EntryCount && d.btNum <= EntryCount
    ensures forall y :: y !in temp && !Owns(disk0, x, d.bd, dir, d.btNum, BytesToSectors(d.length), y) ==>
      SameAt(disk, disk0, y)
  {
    var n, t := BytesToSectors(d.length), d.btNum;
    if t > 0 {
      assert Owns(disk0, x, d.bd, dir, t, n, dir[t - 1]);
    }
  }
}
