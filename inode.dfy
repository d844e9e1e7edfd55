/** The inode layer of inode.c: creating a file's index (`install_bd`),
    growing it (`file_growth`), releasing it (`close_bd`), the list of open
    inodes, and reading and writing file bytes through the index.

    The file system state is the typed disk of `InodeLayout`, the set of free
    sectors the free map hands out, and the open inodes keyed by their record
    sector (`open_inodes` never holds two inodes for one sector, so the
    sector is the handle). */
module Inodes {
  import opened Sectors
  import opened BlockIndex
  import opened InodeLayout
  import opened InodeGrowth

  /** `struct inode`. The in-memory copies of `bd`, `bt_num`, `alloc_num`,
      `parent` and `isdir` always equal the fields of `data`, so they are kept
      once, in `data`; `dir` is the Block Directory cached in memory. */
  datatype Inode = Inode(openCnt: nat, removed: bool, denyWriteCnt: nat, data: DiskInode, dir: seq<Sector>)

  /** A finite set is at least as large as each of its subsets. */
  lemma SubsetCard(a: set<Sector>, b: set<Sector>)
    requires a <= b
    ensures |a| <= |b|
  {
    assert b == a + (b - a);
  }

  /** A set that loses all its elements by removing a subset was that subset. */
  lemma Exhausted(a: set<Sector>, b: set<Sector>)
    requires b <= a && a - b == {}
    ensures a == b
  {
    assert a == b + (a - b);
  }

  /** Taking one more free sector `y` after the distinct sectors `temp`
      taken from `free0` keeps them distinct and taken from `free0`. */
  lemma TakeOne(free0: set<Sector>, temp: seq<Sector>, y: Sector)
    requires Distinct(temp) && NoSector !in temp && Elems(temp) <= free0
    requires y != NoSector && y in free0 - Elems(temp)
    ensures Distinct(temp + [y]) && NoSector !in temp + [y] && Elems(temp + [y]) <= free0
    ensures free0 - Elems(temp) - {y} == free0 - Elems(temp + [y])
  {
    assert Elems(temp + [y]) == Elems(temp) + {y};
  }

  /** `p` ends a chunk of a read of `size` bytes from `offset` in a file of
      `length` bytes, and bytes of the request are left after it. */
  predicate ChunkEnd(length: nat, offset: nat, size: nat, p: nat)
  {
    offset < p < offset + size && p <= length && (p % SectorSize == 0 || p == length)
  }

  /** `e` is the sector of a chunk end, as `inode_read_at` queues for read-ahead. */
  ghost predicate ReadAheadOf(disk: Disk, dir: seq<Sector>, length: nat, offset: nat, size: nat, e: Sector)
  {
    exists p: nat :: ChunkEnd(length, offset, size, p) && e == SectorOf(disk, dir, p)
  }

  /** `queue` holds the sectors of the chunk ends `ps`, in order. */
  ghost predicate Queued(disk: Disk, dir: seq<Sector>, length: nat, offset: nat, size: nat,
                         ps: seq<nat>, queue: seq<Sector>)
  {
    && |ps| == |queue|
    && forall k :: 0 <= k < |ps| ==> ChunkEnd(length, offset, size, ps[k]) && queue[k] == SectorOf(disk, dir, ps[k])
  }

  /** Queueing the sector of one more chunk end keeps `Queued`. */
  lemma QueuedAppend(disk: Disk, dir: seq<Sector>, length: nat, offset: nat, size: nat,
                     ps: seq<nat>, queue: seq<Sector>, p: nat)
    requires Queued(disk, dir, length, offset, size, ps, queue)
    requires ChunkEnd(length, offset, size, p)
    ensures Queued(disk, dir, length, offset, size, ps + [p], queue + [SectorOf(disk, dir, p)])
  {
  }

  /** Every queued sector is the sector of some chunk end. */
  lemma QueuedReadAhead(disk: Disk, dir: seq<Sector>, length: nat, offset: nat, size: nat,
                        ps: seq<nat>, queue: seq<Sector>)
    requires Queued(disk, dir, length, offset, size, ps, queue)
    ensures forall k :: 0 <= k < |queue| ==> ReadAheadOf(disk, dir, length, offset, size, queue[k])
  {
    forall k | 0 <= k < |queue|
      ensures ReadAheadOf(disk, dir, length, offset, size, queue[k])
    {
      assert ChunkEnd(length, offset, size, ps[k]) && queue[k] == SectorOf(disk, dir, ps[k]);
    }
  }

  /** `ps` holds every chunk end up to byte `upto`. */
  predicate EndsTo(length: nat, offset: nat, size: nat, upto: nat, ps: seq<nat>)
  {
    forall p: nat :: ChunkEnd(length, offset, size, p) && p <= upto ==> p in ps
  }

  /** A chunk stays inside one sector and inside the file, so no chunk end
      lies strictly inside it: reading it, and recording its end when bytes
      of the request are left, keeps every chunk end so far recorded. */
  lemma EndsStep(length: nat, offset: nat, size: nat, ofs: nat, sz: nat, chunk: nat, ps: seq<nat>)
    requires EndsTo(length, offset, size, ofs, ps)
    requires offset <= ofs && ofs + sz == offset + size && 0 < chunk <= sz
    requires chunk <= length - ofs && chunk <= SectorSize - ofs % SectorSize
    ensures chunk < sz ==> EndsTo(length, offset, size, ofs + chunk, ps + [ofs + chunk])
    ensures chunk == sz ==> EndsTo(length, offset, size, ofs + chunk, ps)
  {
    var ps' := if chunk < sz then ps + [ofs + chunk] else ps;
    forall p: nat | ChunkEnd(length, offset, size, p) && p <= ofs + chunk
      ensures p in ps'
    {
      if ofs < p < ofs + chunk {
        InChunk(ofs, chunk, p);
      } else if p == ofs + chunk {
        assert ps'[|ps'| - 1] == p;
      } else {
        assert p in ps;
      }
    }
  }

  /** The read-ahead queue after reading up to byte `ofs`, with `sz` bytes
      of the request left: it holds -1 exactly when the read stopped at a
      sector-boundary end of file with bytes left, it lists the sectors of
      the chunk ends `ps`, and every chunk end so far is among them. */
  ghost predicate QueueState(disk: Disk, dir: seq<Sector>, length: nat, offset: nat, size: nat,
                             ofs: nat, sz: int, ps: seq<nat>, queue: seq<Sector>)
  {
    && (NoSector in queue <==> offset < ofs == length && length % SectorSize == 0 && sz > 0)
    && Queued(disk, dir, length, offset, size, ps, queue)
    && EndsTo(length, offset, size, ofs, ps)
  }

  /** A pass of the read loop that leaves bytes of the request keeps
      `QueueState` by queueing the sector of the byte after its chunk. */
  lemma QueueStep(disk: Disk, dir: seq<Sector>, length: nat, offset: nat, size: nat,
                  ofs: nat, sz: nat, chunk: nat, ps: seq<nat>, queue: seq<Sector>)
    requires QueueState(disk, dir, length, offset, size, ofs, sz, ps, queue)
    requires offset <= ofs < length && ofs + sz == offset + size && 0 < chunk < sz
    requires chunk <= length - ofs && chunk <= SectorSize - ofs % SectorSize
    requires chunk == length - ofs || chunk == SectorSize - ofs % SectorSize
    requires SectorOf(disk, dir, ofs + chunk) == NoSector <==> ofs + chunk == length && length % SectorSize == 0
    ensures QueueState(disk, dir, length, offset, size, ofs + chunk, sz - chunk,
                       ps + [ofs + chunk], queue + [SectorOf(disk, dir, ofs + chunk)])
  {
    var p, e := ofs + chunk, SectorOf(disk, dir, ofs + chunk);
    assert NoSector in queue + [e] <==> e == NoSector by {
      assert NoSector !in queue;
    }
    assert EndsTo(length, offset, size, p, ps + [p]) by {
      EndsStep(length, offset, size, ofs, sz, chunk, ps);
    }
    assert Queued(disk, dir, length, offset, size, ps + [p], queue + [e]) by {
      NextChunkEnd(length, offset, size, ofs, sz, SectorSize - ofs % SectorSize, chunk, p);
      QueuedAppend(disk, dir, length, offset, size, ps, queue, p);
    }
  }

  /** The pass of the read loop that reads the last bytes of the request
      queues nothing and keeps `QueueState`. */
  lemma QueueLast(disk: Disk, dir: seq<Sector>, length: nat, offset: nat, size: nat,
                  ofs: nat, sz: nat, ps: seq<nat>, queue: seq<Sector>)
    requires QueueState(disk, dir, length, offset, size, ofs, sz, ps, queue)
    requires offset <= ofs < length && ofs + sz == offset + size && 0 < sz
    requires sz <= length - ofs && sz <= SectorSize - ofs % SectorSize
    ensures QueueState(disk, dir, length, offset, size, ofs + sz, 0, ps, queue)
  {
    assert NoSector !in queue;
    EndsStep(length, offset, size, ofs, sz, sz, ps);
  }

  /** Once the read has reached the end of the request or of the file, no
      chunk end lies beyond it, so the queue holds the sector of every
      chunk end. */
  lemma QueuedAll(disk: Disk, dir: seq<Sector>, length: nat, offset: nat, size: nat,
                  ofs: nat, ps: seq<nat>, queue: seq<Sector>)
    requires Queued(disk, dir, length, offset, size, ps, queue)
    requires EndsTo(length, offset, size, ofs, ps)
    requires ofs >= offset + size || ofs >= length
    ensures forall p: nat :: ChunkEnd(length, offset, size, p) ==> SectorOf(disk, dir, p) in queue
  {
    forall p: nat | ChunkEnd(length, offset, size, p)
      ensures SectorOf(disk, dir, p) in queue
    {
      assert p in ps;
      var k :| 0 <= k < |ps| && ps[k] == p;
      assert queue[k] == SectorOf(disk, dir, p);
    }
  }

  /** A chunk that neither exhausts the request nor is empty ends at a
      sector boundary or at the end of the file. */
  lemma NextChunkEnd(length: nat, offset: nat, size: nat, ofs: nat, sz: int, sectorLeft: int, chunk: int, p: nat)
    requires offset <= ofs <= length && ofs + sz == offset + size
    requires sectorLeft == SectorSize - ofs % SectorSize
    requires chunk == length - ofs || chunk == sectorLeft
    requires 0 < chunk <= length - ofs && chunk < sz && p == ofs + chunk
    ensures ChunkEnd(length, offset, size, p)
  {
    if chunk != length - ofs {
      ChunkEndsOnBoundary(ofs);
    }
  }

  /** Appending the chunk read from the sector of the next byte extends the
      bytes read so far by that chunk. */
  lemma ReadChunkBytes(disk: Disk, dir: seq<Sector>, offset: nat, buf: seq<byte>,
                       sector: Sector, sectorOfs: nat, chunk: nat)
    requires FileHas(disk, dir, offset, buf)
    requires sector == SectorOf(disk, dir, offset + |buf|)
    requires sectorOfs == (offset + |buf|) % SectorSize && chunk <= SectorSize - sectorOfs
    ensures FileHas(disk, dir, offset, buf + BytesAt(disk, sector)[sectorOfs..sectorOfs + chunk])
  {
    SectorSlice(disk, dir, offset + |buf|, chunk);
    FileHasAppend(disk, dir, offset, buf, BytesAt(disk, sector)[sectorOfs..sectorOfs + chunk]);
  }


  /** Below byte `limit`, the file with directory `dir` reads `bytes` from
      `offset` on and, everywhere else, what it read on `disk0`. */
  ghost predicate Overwritten(disk: Disk, disk0: Disk, dir: seq<Sector>, limit: nat, offset: nat, bytes: seq<byte>)
  {
    forall p: nat :: p < limit ==>
      ByteAt(disk, dir, p) == if offset <= p < offset + |bytes| then bytes[p - offset] else ByteAt(disk0, dir, p)
  }

  /** From `disk0` to `disk` only the data sectors of the file recorded at
      `x` changed: its tables and every sector it does not own are as they
      were. */
  ghost predicate WithinFile(disk: Disk, disk0: Disk, x: Sector, d: DiskInode, dir: seq<Sector>)
  {
    && |dir| == EntryCount && d.btNum <= EntryCount
    && (forall i :: 0 <= i < EntryCount ==> TableAt(disk, dir[i]) == TableAt(disk0, dir[i]))
    && (forall y :: !Owns(disk0, x, d.bd, dir, d.btNum, BytesToSectors(d.length), y) ==> SameAt(disk, disk0, y))
  }

  /** Splicing a chunk into the file's data sector keeps the change within
      the file. */
  lemma ChunkWithinFile(disk: Disk, disk0: Disk, free: set<Sector>, x: Sector, d: DiskInode, dir: seq<Sector>,
                        pos: nat, chunk: seq<byte>)
    requires ChunkWrite(disk0, free, x, d, dir, pos, chunk, disk)
    ensures WithinFile(disk, disk0, x, d, dir)
  {
    ChunkKeepsTables(disk0, free, x, d, dir, pos, chunk, disk);
    var y0 := SectorOf(disk0, dir, pos);
    forall y | !Owns(disk0, x, d.bd, dir, d.btNum, BytesToSectors(d.length), y)
      ensures SameAt(disk, disk0, y)
    {
      assert y != y0;
    }
  }

  /** Changes within the file's data sectors add up. */
  lemma WithinFileTrans(disk2: Disk, disk1: Disk, disk0: Disk, x: Sector, d: DiskInode, dir: seq<Sector>)
    requires WithinFile(disk2, disk1, x, d, dir) && WithinFile(disk1, disk0, x, d, dir)
    ensures WithinFile(disk2, disk0, x, d, dir)
  {
    SameTables(disk1, disk0, x, d.bd, dir, d.btNum, BytesToSectors(d.length));
  }

  /** Writing the next `c` bytes of `bytes` after its first `w` extends the
      overwritten run by them. */
  lemma OverwrittenMore(disk2: Disk, disk1: Disk, disk0: Disk, dir: seq<Sector>, limit: nat, offset: nat,
                        bytes: seq<byte>, w: nat, c: nat, pos: nat)
    requires w + c <= |bytes| && pos == offset + w
    requires Overwritten(disk1, disk0, dir, limit, offset, bytes[..w])
    requires Overwritten(disk2, disk1, dir, limit, pos, bytes[w..w + c])
    ensures Overwritten(disk2, disk0, dir, limit, offset, bytes[..w + c])
  {
    forall p: nat | p < limit
      ensures ByteAt(disk2, dir, p) ==
        if offset <= p < offset + w + c then bytes[..w + c][p - offset] else ByteAt(disk0, dir, p)
    {
      if offset + w <= p < offset + w + c {
        assert bytes[w..w + c][p - offset - w] == bytes[..w + c][p - offset];
      }
    }
  }

  /** Growing the file of record `d` to `end` bytes with `available` free
      sectors halts the kernel: the file is shorter than `end`, and `end` is
      beyond `MAX_FILE_SIZE` or the free map has fewer sectors than the new
      tables and data sectors need. */
  predicate GrowthHalts(d: DiskInode, end: nat, available: nat)
  {
    var n, n2 := BytesToSectors(d.length), BytesToSectors(end);
    && d.length < end
    && (MaxFileSize < end || available < (TablesFor(n2) - d.btNum) + (n2 - n))
  }

  /** The open inode `ino` of the file recorded at `x` grew to `size` bytes
      as `ino2`, taking the sectors `taken` from the free map `free0` (which
      became `free`), from disk `disk0` to disk `disk`: only the length, the
      table count, the allocation count and the directory changed; the file
      is well formed, keeps its bytes below its old length and reads as
      zeros from there to `size`; and no sector outside the old file and the
      sectors taken changed. */
  ghost predicate Grew(disk: Disk, free: set<Sector>, disk0: Disk, free0: set<Sector>, x: Sector,
                       ino: Inode, ino2: Inode, size: nat, taken: seq<Sector>)
  {
    var d, n2 := ino.data, BytesToSectors(size);
    && |ino.dir| == EntryCount && d.btNum <= EntryCount
    && ino2 == ino.(data := d.(length := size, btNum := TablesFor(n2), allocNum := d.allocNum + |taken|), dir := ino2.dir)
    && |taken| == (TablesFor(n2) - d.btNum) + (n2 - BytesToSectors(d.length))
    && Elems(taken) <= free0 && free == free0 - Elems(taken)
    && FileOk(disk, free, x, ino2.data, ino2.dir)
    && (forall p: nat :: p < d.length ==> ByteAt(disk, ino2.dir, p) == ByteAt(disk0, ino.dir, p))
    && (forall p: nat :: d.length <= p < size ==> ByteAt(disk, ino2.dir, p) == 0)
    && (forall y :: y !in taken && !Owns(disk0, x, d.bd, ino.dir, d.btNum, BytesToSectors(d.length), y) ==>
          SameAt(disk, disk0, y))
    && (forall y :: Owns(disk, x, d.bd, ino2.dir, ino2.data.btNum, n2, y) ==>
          y in taken || Owns(disk0, x, d.bd, ino.dir, d.btNum, BytesToSectors(d.length), y))
  }

  /** The disk `file_growth` leaves is growth as `Grew` states it. */
  lemma GrowthGrew(disk: Disk, disk0: Disk, free0: set<Sector>, x: Sector, ino: Inode, temp: seq<Sector>,
                   d2: DiskInode, dir2: seq<Sector>)
    requires GrowthWritten(disk, disk0, free0, x, ino.data, ino.dir, temp, d2, dir2)
    ensures Grew(disk, free0 - Elems(temp), disk0, free0, x, ino, ino.(data := d2, dir := dir2), d2.length, temp)
  {
    GrownFileOk(disk, disk0, free0, x, ino.data, ino.dir, temp, d2, dir2);
    GrowthOutside(disk, disk0, free0, x, ino.data, ino.dir, temp, d2, dir2);
    forall y | Owns(disk, x, ino.data.bd, dir2, d2.btNum, BytesToSectors(d2.length), y)
      ensures y in temp || Owns(disk0, x, ino.data.bd, ino.dir, ino.data.btNum, BytesToSectors(ino.data.length), y)
    {
      GrownOwned(disk, disk0, free0, x, ino.data, ino.dir, temp, d2, dir2, y);
    }
  }

  /** A file that needs no growth has grown to its own length, taking nothing. */
  lemma GrewNothing(disk: Disk, free: set<Sector>, x: Sector, ino: Inode)
    requires FileOk(disk, free, x, ino.data, ino.dir)
    ensures Grew(disk, free, disk, free, x, ino, ino, ino.data.length, [])
  {
    assert Elems([]) == {};
  }

  /** `bytes` were written at `offset` into the open inode `ino` of the
      file recorded at `x`, which became `ino2`, taking the sectors `taken`
      from the free map `free0` (which became `free`), from disk `disk0` to
      disk `disk`: the file grew to the end of the write if it was shorter,
      only its length, table count, allocation count and directory changed,
      it is well formed, it reads the written bytes where they were written,
      its old bytes below its old length elsewhere and zeros above that; and
      no sector outside the old file and the sectors taken changed. */
  ghost predicate Wrote(disk: Disk, free: set<Sector>, disk0: Disk, free0: set<Sector>, x: Sector,
                        ino: Inode, ino2: Inode, offset: nat, bytes: seq<byte>, taken: seq<Sector>)
  {
    var d, end := ino.data, offset + |bytes|;
    var size := if end > d.length then end else d.length;
    && |ino.dir| == EntryCount && d.btNum <= EntryCount
    && ino2 == ino.(data := ino2.data, dir := ino2.dir)
    && ino2.data == d.(length := size, btNum := ino2.data.btNum, allocNum := ino2.data.allocNum)
    && Elems(taken) <= free0 && free == free0 - Elems(taken)
    && FileOk(disk, free, x, ino2.data, ino2.dir)
    && (forall p: nat :: p < size ==>
          ByteAt(disk, ino2.dir, p) == if offset <= p < end then bytes[p - offset]
            else if p < d.length then ByteAt(disk0, ino.dir, p) else 0)
    && (forall y :: y !in taken && !Owns(disk0, x, d.bd, ino.dir, d.btNum, BytesToSectors(d.length), y) ==>
          SameAt(disk, disk0, y))
  }

  /** Growing the file to the end of a write (or keeping it, when it is
      long enough) and then overwriting the bytes of the write is a write. */
  lemma GrewThenWritten(disk: Disk, disk1: Disk, free: set<Sector>, disk0: Disk, free0: set<Sector>, x: Sector,
                        ino: Inode, ino2: Inode, taken: seq<Sector>, offset: nat, bytes: seq<byte>)
    requires var L, end := ino.data.length, offset + |bytes|;
      Grew(disk1, free, disk0, free0, x, ino, ino2, if end > L then end else L, taken)
    requires FileOk(disk, free, x, ino2.data, ino2.dir)
    requires WithinFile(disk, disk1, x, ino2.data, ino2.dir)
    requires Overwritten(disk, disk1, ino2.dir, BytesToSectors(ino2.data.length) * SectorSize, offset, bytes)
    ensures Wrote(disk, free, disk0, free0, x, ino, ino2, offset, bytes, taken)
  {
    var d, d2 := ino.data, ino2.data;
    forall y | y !in taken && !Owns(disk0, x, d.bd, ino.dir, d.btNum, BytesToSectors(d.length), y)
      ensures SameAt(disk, disk0, y)
    {
      assert !Owns(disk1, x, d2.bd, ino2.dir, d2.btNum, BytesToSectors(d2.length), y);
    }
  }

  class FileSystem {
    var disk: Disk
    var free: set<Sector>
    var open: map<Sector, Inode>

    /** The free map never hands out the -1 sentinel, and every listed inode
        has at least one opener. */
    ghost predicate Valid()
      reads this
    {
      && NoSector !in free
      && (forall x :: x in open ==> open[x].openCnt > 0)
    }

    /** `free_map_allocate(1, &y)`: takes one free sector, if there is one. */
    method Allocate() returns (ok: bool, y: Sector)
      requires Valid()
      modifies this
      ensures Valid() && disk == old(disk) && open == old(open)
      ensures ok <==> old(free) != {}
      ensures ok ==> y in old(free) && free == old(free) - {y} && y != NoSector
      ensures !ok ==> free == old(free)
    {
      if free == {} {
        return false, 0;
      }
      y :| y in free;
      free := free - {y};
      ok := true;
    }

    /** `free_map_release(y, 1)`. */
    method Release(y: Sector)
      requires Valid() && y != NoSector
      modifies this
      ensures Valid() && disk == old(disk) && open == old(open)
      ensures free == old(free) + {y}
    {
      free := free + {y};
    }

    /** The roll-back of `install_bd`: the sectors taken so far released
        from the last one down. */
    method ReleaseAll(temp: seq<Sector>)
      requires Valid() && NoSector !in temp
      modifies this
      ensures Valid() && disk == old(disk) && open == old(open)
      ensures free == old(free) + Elems(temp)
    {
      var k := |temp|;
      while k > 0
        invariant 0 <= k <= |temp|
        invariant Valid() && free == old(free) + Elems(temp[k..])
        invariant disk == old(disk) && open == old(open)
      {
        k := k - 1;
        assert Elems(temp[k..]) == Elems(temp[k + 1..]) + {temp[k]};
        Release(temp[k]);
      }
      assert temp[0..] == temp;
    }

    /** The allocation loop of `install_bd` and `file_growth`: `count`
        sectors taken one by one; when the free map runs dry the kernel
        halts. `install_bd` (`rollBack`) first releases the ones taken in
        reverse order; `file_growth` halts before its release loop, so
        every free sector stays taken. */
    method AllocateSectors(count: nat, rollBack: bool) returns (temp: seq<Sector>, halted: bool)
      requires Valid()
      modifies this
      ensures Valid() && disk == old(disk) && open == old(open)
      ensures halted <==> |old(free)| < count
      ensures halted && rollBack ==> free == old(free)
      ensures halted && !rollBack ==> free == {} && Elems(temp) == old(free)
      ensures !halted ==> && |temp| == count && Distinct(temp) && NoSector !in temp
                          && Elems(temp) <= old(free) && free == old(free) - Elems(temp)
    {
      temp := [];
      while |temp| < count
        invariant |temp| <= count
        invariant Valid() && Distinct(temp) && NoSector !in temp
        invariant Elems(temp) <= old(free) && free == old(free) - Elems(temp)
        invariant disk == old(disk) && open == old(open)
      {
        var ok, y := Allocate();
        if !ok {
          Exhausted(old(free), Elems(temp));
          DistinctCard(temp);
          if rollBack {
            ReleaseAll(temp);
          }
          return temp, true;
        }
        TakeOne(old(free), temp, y);
        temp := temp + [y];
      }
      DistinctCard(temp);
      SubsetCard(Elems(temp), old(free));
      halted := false;
    }

    /** One pass of the outer loop of `install_bd`: Block Table `i` takes the
        next sector down from `alloc`, and its entries the ones after it,
        each data sector written as zeros; the table is written last. */
    method InstallTableAt(temp: seq<Sector>, s: nat, i: nat, alloc: nat) returns (alloc': nat)
      requires |temp| == 1 + TablesFor(s) + s && TablesFor(s) <= EntryCount
      requires Distinct(temp) && i < TablesFor(s)
      requires alloc == (TablesFor(s) - i) + (s - EntryCount * i)
      modifies this
      ensures free == old(free) && open == old(open)
      ensures alloc' == if i + 1 < TablesFor(s) then alloc - 1 - EntryCount else 0
      ensures TableInstalled(disk, temp, s, i)
      ensures forall y :: y !in temp ==> SameAt(disk, old(disk), y)
      ensures forall p :: alloc <= p < |temp| ==> SameAt(disk, old(disk), temp[p])
    {
      var t := TablesFor(s);
      ghost var a := |temp|;
      var bt: seq<Sector> := seq(EntryCount, _ => NoSector);
      alloc' := alloc - 1;
      var table := temp[alloc'];
      var j := 0;
      while j < EntryCount && alloc' > 0
        invariant 0 <= j <= EntryCount && EntryCount * i + j <= s
        invariant alloc' == (t - i - 1) + (s - EntryCount * i - j)
        invariant |bt| == EntryCount
        invariant forall l :: 0 <= l < EntryCount ==> bt[l] == if l < j then temp[DataSlot(a, i, l)] else NoSector
        invariant forall l :: 0 <= l < j ==>
          temp[DataSlot(a, i, l)] in disk && disk[temp[DataSlot(a, i, l)]] == Data(Zeros())
        invariant forall y :: y !in temp ==> SameAt(disk, old(disk), y)
        invariant forall p :: alloc <= p < |temp| ==> SameAt(disk, old(disk), temp[p])
        invariant free == old(free) && open == old(open)
      {
        alloc' := alloc' - 1;
        bt := bt[j := temp[alloc']];
        disk := disk[temp[alloc'] := Data(Zeros())];
        j := j + 1;
      }
      assert bt == InstallTable(temp, s, i);
      disk := disk[table := Table(bt)];
    }

    /** The outer loop of `install_bd`: Block Tables `0 .. ceil(s / 128)`
        installed from the allocation order `temp` down, giving the Block
        Directory. */
    method InstallTables(temp: seq<Sector>, s: nat) returns (dir: seq<Sector>)
      requires |temp| == 1 + TablesFor(s) + s && TablesFor(s) <= EntryCount && Distinct(temp)
      modifies this
      ensures free == old(free) && open == old(open)
      ensures dir == InstallDir(temp, s)
      ensures TablesInstalled(disk, temp, s)
      ensures forall y :: y !in temp ==> SameAt(disk, old(disk), y)
      ensures SameAt(disk, old(disk), temp[|temp| - 1])
    {
      var t := TablesFor(s);
      ghost var a := |temp|;
      var alloc := |temp| - 1;
      dir := seq(EntryCount, _ => NoSector);
      var i := 0;
      while i < t
        invariant 0 <= i <= t
        invariant alloc == if i < t then (t - i) + (s - EntryCount * i) else 0
        invariant |dir| == EntryCount
        invariant forall k :: 0 <= k < EntryCount ==> dir[k] == if k < i then temp[TableSlot(a, k)] else NoSector
        invariant TablesUpTo(disk, temp, s, i)
        invariant forall y :: y !in temp ==> SameAt(disk, old(disk), y)
        invariant SameAt(disk, old(disk), temp[a - 1])
        invariant free == old(free) && open == old(open)
      {
        dir := dir[i := temp[alloc - 1]];
        ghost var before := disk;
        ghost var lo := alloc;
        alloc := InstallTableAt(temp, s, i, alloc);
        TablesFrame(before, disk, temp, s, i, lo);
        i := i + 1;
      }
      assert alloc == 0;
      assert dir == InstallDir(temp, s);
    }

    /** `install_bd(sector, di, s)`: allocates `1 + ceil(s / 128) + s`
        sectors (halting when the free map runs dry), then writes from the
        last allocated sector down: the zeroed data sectors and the Block
        Tables, then the Block Directory and the record `d` at `sector`.
        `taken` is the allocation order. */
    method InstallBd(sector: Sector, di: DiskInode, s: nat) returns (d: DiskInode, halted: bool, ghost taken: seq<Sector>)
      requires Valid() && sector !in free
      requires TablesFor(s) <= EntryCount
      modifies this
      ensures Valid() && open == old(open)
      ensures halted <==> |old(free)| < 1 + TablesFor(s) + s
      ensures halted ==> free == old(free) && disk == old(disk)
      ensures !halted ==> && |taken| == 1 + TablesFor(s) + s
                          && Distinct(taken) && NoSector !in taken && sector !in taken
                          && Elems(taken) <= old(free) && free == old(free) - Elems(taken)
                          && d == di.(bd := taken[|taken| - 1], btNum := TablesFor(s), allocNum := |taken|)
                          && Installed(disk, sector, d, taken, s)
      ensures !halted ==> forall y :: y != sector && y !in taken ==> SameAt(disk, old(disk), y)
    {
      var t := TablesFor(s);
      var alloc := 1 + t + s;
      var temp;
      temp, halted := AllocateSectors(alloc, true);
      if halted {
        return di, true, temp;
      }
      alloc := alloc - 1;
      d := di.(bd := temp[alloc], btNum := t, allocNum := alloc + 1);
      var dir := InstallTables(temp, s);
      ghost var tables := disk;
      WriteIndex(sector, d, dir, temp, s);
      forall y | y != sector && y !in temp
        ensures SameAt(disk, old(disk), y)
      {
        assert SameAt(tables, old(disk), y) && y != d.bd;
        assert SameAt(disk, tables, y);
      }
      taken := temp;
    }

    /** The last two writes of `install_bd`: the Block Directory `dir` at
        `d.bd`, then the record `d` at `sector`, after the tables. */
    method WriteIndex(sector: Sector, d: DiskInode, dir: seq<Sector>, ghost temp: seq<Sector>, ghost s: nat)
      requires |temp| == 1 + TablesFor(s) + s && TablesFor(s) <= EntryCount && Distinct(temp) && sector !in temp
      requires d.bd == temp[|temp| - 1] && d.btNum == TablesFor(s) && d.allocNum == |temp|
      requires dir == InstallDir(temp, s) && TablesInstalled(disk, temp, s)
      modifies this
      ensures free == old(free) && open == old(open)
      ensures Installed(disk, sector, d, temp, s)
      ensures forall y :: y != sector && y != d.bd ==> SameAt(disk, old(disk), y)
    {
      disk := disk[d.bd := Table(dir)];
      disk := disk[sector := Record(d)];
      TablesFrame(old(disk), disk, temp, s, TablesFor(s), 0);
    }

    /** `inode_create(sector, length, isdir)`: a zeroed record with the
        length, the magic number and the directory flag, completed and
        written by `install_bd` with an index of `bytes_to_sectors(length)`
        zeroed data sectors. */
    method Create(sector: Sector, length: nat, isdir: bool) returns (halted: bool)
      requires Valid() && sector != NoSector && sector !in free && length <= MaxFileSize
      modifies this
      ensures Valid() && open == old(open)
      ensures halted <==> |old(free)| < 1 + TablesFor(BytesToSectors(length)) + BytesToSectors(length)
      ensures halted ==> free == old(free) && disk == old(disk)
      ensures !halted ==> sector in disk && disk[sector].Record?
      ensures !halted ==>
        var d := disk[sector].inode;
        var dir := TableAt(disk, d.bd);
        && d.length == length && d.magic == InodeMagic && d.isdir == isdir && d.parent == 0
        && FileOk(disk, free, sector, d, dir)
        && (forall p: nat :: p < length ==> ByteAt(disk, dir, p) == 0)
        && free <= old(free) && |old(free) - free| == d.allocNum
        && (forall y :: Owns(disk, sector, d.bd, dir, d.btNum, BytesToSectors(length), y) ==>
              y == sector || y in old(free) - free)
      ensures !halted ==> forall y :: y != sector && y !in old(free) ==> SameAt(disk, old(disk), y)
    {
      var n := BytesToSectors(length);
      TablesFit(length);
      var di := DiskInode(length, InodeMagic, 0, isdir, 0, 0, 0);
      var d;
      ghost var taken;
      d, halted, taken := InstallBd(sector, di, n);
      if !halted {
        InstalledFileOk(disk, free, sector, d, taken);
        DistinctCard(taken);
        assert old(free) - free == Elems(taken);
      }
    }

    /** The partial fill of `file_growth`: the entries of the last Block
        Table at `table` after entry `last` take sectors from the top of
        `temp` down, each written as zeros, until the table or `temp` runs
        out; the table is written back last. Returns the count of sectors
        left in `temp`. */
    method FillLastTable(temp: seq<Sector>, table: Sector, last: nat) returns (alloc: nat)
      requires last < EntryCount - 1 && |TableAt(disk, table)| == EntryCount && table !in temp
      modifies this
      ensures free == old(free) && open == old(open)
      ensures alloc <= |temp|
      ensures |temp| - alloc == if EntryCount - 1 - last < |temp| then EntryCount - 1 - last else |temp|
      ensures TableAt(disk, table) == FillTable(TableAt(old(disk), table), temp, last + 1, |temp| - alloc)
      ensures forall p :: alloc <= p < |temp| ==> temp[p] in disk && disk[temp[p]] == Data(Zeros())
      ensures forall y :: y !in temp && y != table ==> SameAt(disk, old(disk), y)
    {
      var bt := TableAt(disk, table);
      ghost var bt0 := bt;
      alloc := |temp|;
      var i := 0;
      while last + i < EntryCount - 1 && alloc > 0
        invariant last + i <= EntryCount - 1 && alloc == |temp| - i
        invariant |bt| == EntryCount
        invariant forall j :: 0 <= j < EntryCount ==>
          bt[j] == if last + 1 <= j < last + 1 + i then temp[|temp| - 1 - (j - last - 1)] else bt0[j]
        invariant forall p :: alloc <= p < |temp| ==> temp[p] in disk && disk[temp[p]] == Data(Zeros())
        invariant forall y :: y !in temp ==> SameAt(disk, old(disk), y)
        invariant free == old(free) && open == old(open)
      {
        i := i + 1;
        alloc := alloc - 1;
        bt := bt[last + i := temp[alloc]];
        disk := disk[temp[alloc] := Data(Zeros())];
      }
      assert bt == FillTable(bt0, temp, last + 1, i);
      disk := disk[table := Table(bt)];
    }

    /** The first step of `file_growth` after allocating: when the file is
        not empty and the entry of its last data sector is not the last of
        its table, the rest of that table is filled. Returns the count of
        allocated sectors left for new tables. */
    method FillIfRoom(ghost free0: set<Sector>, x: Sector, d: DiskInode, dir: seq<Sector>, temp: seq<Sector>, n2: nat)
      returns (alloc: nat)
      requires GrowthFrom(disk, free0, x, d, dir, temp, n2)
      modifies this
      ensures free == old(free) && open == old(open)
      ensures alloc == |temp| - LastTableFill(BytesToSectors(d.length), n2)
      ensures LastFilled(disk, old(disk), free0, x, d, dir, temp, n2)
    {
      alloc := |temp|;
      if d.length != 0 {
        var last := BtIndex(BytesToSectors(d.length));
        if last != EntryCount - 1 {
          FillSetup(disk, free0, x, d, dir, temp, n2);
          var table := dir[BdIndex(BytesToSectors(d.length))];
          ghost var disk0 := disk;
          alloc := FillLastTable(temp, table, last);
          FillDone(disk, disk0, free0, x, d, dir, temp, n2, table, last, alloc);
          return;
        }
      }
      NoFillSetup(disk, free0, x, d, dir, temp, n2);
    }

    /** The table work of `file_growth` for the file recorded at `x` growing
        to `n2` data sectors with the sectors `temp` it allocated: the fill
        of the last table when the file is not empty and that table has a
        free entry, then the new tables laid out as `install_bd` lays them
        out, listed in the directory after the old ones. */
    method GrowIndex(ghost free0: set<Sector>, x: Sector, d: DiskInode, dir: seq<Sector>, temp: seq<Sector>, n2: nat)
      returns (dir2: seq<Sector>)
      requires GrowthFrom(disk, free0, x, d, dir, temp, n2)
      modifies this
      ensures free == old(free) && open == old(open)
      ensures GrowthTables(disk, old(disk), free0, x, d, dir, temp, n2)
      ensures var n := BytesToSectors(d.length);
        dir2 == GrownDir(dir, d.btNum, InstallDir(NewTablesTemp(temp, LastTableFill(n, n2), d.bd), NewTableData(n, n2)))
    {
      var n := BytesToSectors(d.length);
      ghost var before := disk;
      var alloc := FillIfRoom(free0, x, d, dir, temp, n2);
      var m := |temp| - alloc;
      ghost var filled := disk;
      var s2 := NewTableData(n, n2);
      TakenNotOwned(before, free0, x, d, dir, temp, n2, d.bd);
      NewTablesTempApart(temp, m, d.bd);
      var added := InstallTables(NewTablesTemp(temp, m, d.bd), s2);
      GrowthTablesFrom(disk, filled, before, free0, x, d, dir, temp, n2);
      dir2 := GrownDir(dir, d.btNum, added);
    }

    /** The path of `file_growth` that needs no new sector: only the length
        in the record changes. */
    method GrowLength(x: Sector, size: nat)
      requires Valid() && x in open
      requires FileOk(disk, free, x, open[x].data, open[x].dir)
      requires open[x].data.length < size <= MaxFileSize
      requires BytesToSectors(size) == BytesToSectors(open[x].data.length)
      modifies this
      ensures Valid() && free == old(free) && x in open && open == old(open)[x := open[x]]
      ensures Grew(disk, free, old(disk), old(free), x, old(open[x]), open[x], size, [])
    {
      var ino := open[x];
      var d2 := ino.data.(length := size);
      ghost var disk0 := disk;
      disk := disk[x := Record(d2)];
      open := open[x := ino.(data := d2)];
      GrowthWithoutSectors(disk, disk0, free, x, ino.data, ino.dir, d2);
      GrowthGrew(disk, disk0, free, x, ino, [], d2, ino.dir);
    }

    /** The path of `file_growth` after the sectors `temp` were allocated
        from `free0`: the table work, then the directory and the record
        written back. */
    method GrowWithSectors(ghost free0: set<Sector>, x: Sector, temp: seq<Sector>, size: nat)
      requires Valid() && x in open && open[x].data.length <= size <= MaxFileSize
      requires GrowthFrom(disk, free0, x, open[x].data, open[x].dir, temp, BytesToSectors(size))
      requires free == free0 - Elems(temp)
      modifies this
      ensures Valid() && free == old(free) && x in open && open == old(open)[x := open[x]]
      ensures Grew(disk, free, old(disk), free0, x, old(open[x]), open[x], size, temp)
    {
      var ino := open[x];
      var d, dir := ino.data, ino.dir;
      var n2 := BytesToSectors(size);
      ghost var disk0 := disk;
      var dir2 := GrowIndex(free0, x, d, dir, temp, n2);
      ghost var tables := disk;
      disk := disk[d.bd := Table(dir2)];
      var d2 := d.(btNum := TablesFor(n2), allocNum := d.allocNum + |temp|, length := size);
      disk := disk[x := Record(d2)];
      open := open[x := ino.(data := d2, dir := dir2)];
      GrowthCompleted(disk, tables, disk0, free0, x, d, dir, temp, d2, dir2);
      GrowthGrew(disk, disk0, free0, x, ino, temp, d2, dir2);
    }

    /** `file_growth(inode, size)` for the open inode recorded at `x`:
        allocates one sector per new table and per new data sector (the
        allocation failing is a kernel panic that leaves the sectors taken
        allocated), fills the last table from the entry after that of the
        last data sector, `bt_index(bytes_to_sectors(length))`, adds new
        tables, writes back the directory, and records the new length, table
        count and allocation count. When no sector is needed only the length
        changes. */
    method FileGrowth(x: Sector, size: nat) returns (halted: bool, ghost taken: seq<Sector>)
      requires Valid() && x in open
      requires FileOk(disk, free, x, open[x].data, open[x].dir)
      requires open[x].data.length < size <= MaxFileSize
      modifies this
      ensures Valid()
      ensures var d := old(open[x].data);
        var n, n2 := BytesToSectors(d.length), BytesToSectors(size);
        halted <==> |old(free)| < (TablesFor(n2) - d.btNum) + (n2 - n)
      ensures halted ==> disk == old(disk) && open == old(open) && free == {} && Elems(taken) == old(free)
      ensures !halted ==> x in open && open == old(open)[x := open[x]]
      ensures !halted ==> Grew(disk, free, old(disk), old(free), x, old(open[x]), open[x], size, taken)
    {
      var d := open[x].data;
      var n, n2 := BytesToSectors(d.length), BytesToSectors(size);
      TablesFit(size);
      var newBt := TablesFor(n2);
      ghost var s2 := NewTableData(n, n2);
      var addAlloc := (newBt - d.btNum) + (n2 - n);
      if addAlloc == 0 {
        GrowLength(x, size);
        return false, [];
      }
      ghost var free0 := free;
      var temp;
      temp, halted := AllocateSectors(addAlloc, false);
      if halted {
        return true, temp;
      }
      GrowWithSectors(free0, x, temp, size);
      taken := temp;
    }

    /** The entry loop of `close_bd` for table `i`: its data sectors
        released in entry order while the count of sectors left lasts. */
    method ReleaseTableData(dir: seq<Sector>, t: nat, n: nat, i: nat, alloc: nat) returns (alloc': nat)
      requires Valid() && t == TablesFor(n) && i < t <= EntryCount && |dir| == EntryCount
      requires alloc == (t - i - 1) + (n - EntryCount * i)
      requires forall j :: InUse(i, j, n) ==> EntryAt(disk, dir, i, j) != NoSector
      modifies this
      ensures Valid() && disk == old(disk) && open == old(open)
      ensures alloc' == if i + 1 < t then alloc - EntryCount else 0
      ensures free == old(free) + Elems(TableData(disk, dir, i, n))
    {
      ghost var data := TableData(disk, dir, i, n);
      var bt := TableAt(disk, dir[i]);
      alloc' := alloc;
      var j := 0;
      while j < EntryCount && alloc' > 0
        invariant 0 <= j <= EntryCount && EntryCount * i + j <= n
        invariant alloc' == (t - i - 1) + (n - EntryCount * i - j)
        invariant Valid() && free == old(free) + Elems(data[..j])
        invariant disk == old(disk) && open == old(open)
      {
        assert InUse(i, j, n);
        var y := EntryAt(disk, dir, i, j);
        Release(y);
        assert Elems(data[..j + 1]) == Elems(data[..j]) + {y};
        alloc' := alloc' - 1;
        j := j + 1;
      }
      assert data[..j] == data;
    }

    /** The table loop of `close_bd`: for each table, one sector off the
        count, then its data sectors, then the table sector. */
    method ReleaseTables(dir: seq<Sector>, t: nat, n: nat) returns (ghost released: seq<Sector>)
      requires Valid() && t == TablesFor(n) && t <= EntryCount && |dir| == EntryCount
      requires forall i :: 0 <= i < t ==> dir[i] != NoSector
      requires forall i, j :: 0 <= i < t && InUse(i, j, n) ==> EntryAt(disk, dir, i, j) != NoSector
      modifies this
      ensures Valid() && disk == old(disk) && open == old(open)
      ensures released == ReleaseOrder(disk, dir, t, n)
      ensures free == old(free) + Elems(released)
    {
      var alloc := t + n;
      released := [];
      var i := 0;
      while i < t
        invariant 0 <= i <= t
        invariant alloc == if i < t then (t - i) + (n - EntryCount * i) else 0
        invariant released == ReleaseOrder(disk, dir, i, n)
        invariant Valid() && free == old(free) + Elems(released)
        invariant disk == old(disk) && open == old(open)
      {
        alloc := alloc - 1;
        alloc := ReleaseTableData(dir, t, n, i, alloc);
        ghost var data := TableData(disk, dir, i, n);
        assert Elems(released + data) == Elems(released) + Elems(data);
        Release(dir[i]);
        assert Elems(released + data + [dir[i]]) == Elems(released + data) + {dir[i]};
        released := released + data + [dir[i]];
        i := i + 1;
      }
    }

    /** `close_bd`: releases every data sector and table of the file, table
        by table (reading each table back), then the directory and the
        record sector; the count of sectors left, starting from
        `alloc_num - 1`, ends at zero. */
    method CloseBd(x: Sector, d: DiskInode, dir: seq<Sector>) returns (ghost released: seq<Sector>)
      requires Valid() && FileOk(disk, free, x, d, dir)
      modifies this
      ensures Valid() && disk == old(disk) && open == old(open)
      ensures released == ReleaseOrder(disk, dir, d.btNum, BytesToSectors(d.length)) + [d.bd, x]
      ensures free == old(free) + Elems(released)
    {
      var n := BytesToSectors(d.length);
      released := ReleaseTables(dir, d.btNum, n);
      Release(d.bd);
      Release(x);
      assert Elems(released + [d.bd, x]) == Elems(released) + {d.bd, x};
      released := released + [d.bd, x];
    }

    // -------------------------------------------------------------------------
    // The list of open inodes

    /** `inode_open(sector)`: an inode already open for `x` gains an opener;
        otherwise a new one is listed with one opener, no write denials, not
        removed, and its record and Block Directory read from disk. */
    method Open(x: Sector)
      requires Valid() && x in disk && disk[x].Record?
      modifies this
      ensures Valid() && disk == old(disk) && free == old(free)
      ensures x in old(open) ==> open == old(open)[x := old(open)[x].(openCnt := old(open)[x].openCnt + 1)]
      ensures x !in old(open) ==>
        open == old(open)[x := Inode(1, false, 0, disk[x].inode, TableAt(disk, disk[x].inode.bd))]
      ensures x !in old(open) ==> forall dir :: FileOk(disk, free, x, disk[x].inode, dir) ==> open[x].dir == dir
    {
      if x in open {
        Reopen(Some(x));
        return;
      }
      var d := disk[x].inode;
      open := open[x := Inode(1, false, 0, d, TableAt(disk, d.bd))];
    }

    /** `inode_reopen(inode)`: one more opener; a null inode is ignored. */
    method Reopen(h: Option<Sector>)
      requires Valid() && (h.Some? ==> h.value in open)
      modifies this
      ensures Valid() && disk == old(disk) && free == old(free)
      ensures h.None? ==> open == old(open)
      ensures h.Some? ==> open == old(open)[h.value := old(open)[h.value].(openCnt := old(open)[h.value].openCnt + 1)]
    {
      if h.Some? {
        var ino := open[h.value];
        open := open[h.value := ino.(openCnt := ino.openCnt + 1)];
      }
    }

    /** `inode_close(inode)`: one opener fewer; the last one takes the inode
        off the list and, when it was removed, releases all of the file's
        sectors through `close_bd`. A null inode is ignored. */
    method Close(h: Option<Sector>) returns (ghost released: seq<Sector>)
      requires Valid() && (h.Some? ==> h.value in open)
      requires h.Some? && open[h.value].openCnt == 1 && open[h.value].removed ==>
        FileOk(disk, free, h.value, open[h.value].data, open[h.value].dir)
      modifies this
      ensures Valid() && disk == old(disk)
      ensures h.None? ==> open == old(open) && free == old(free)
      ensures h.Some? && old(open)[h.value].openCnt > 1 ==>
        (free == old(free) && open == old(open)[h.value := old(open)[h.value].(openCnt := old(open)[h.value].openCnt - 1)])
      ensures h.Some? && old(open)[h.value].openCnt == 1 ==> open == old(open) - {h.value}
      ensures h.Some? && old(open)[h.value].openCnt == 1 && !old(open)[h.value].removed ==> free == old(free)
      ensures h.Some? && old(open)[h.value].openCnt == 1 && old(open)[h.value].removed ==>
        var ino := old(open)[h.value];
        && released == ReleaseOrder(disk, ino.dir, ino.data.btNum, BytesToSectors(ino.data.length)) + [ino.data.bd, h.value]
        && free == old(free) + Elems(released)
    {
      released := [];
      if h.None? {
        return;
      }
      var x := h.value;
      var ino := open[x];
      if ino.openCnt - 1 == 0 {
        open := open - {x};
        if ino.removed {
          released := CloseBd(x, ino.data, ino.dir);
        }
      } else {
        open := open[x := ino.(openCnt := ino.openCnt - 1)];
      }
    }

    /** `inode_remove(inode)`: marks the inode to be released at its last close. */
    method Remove(x: Sector)
      requires Valid() && x in open
      modifies this
      ensures Valid() && disk == old(disk) && free == old(free)
      ensures open == old(open)[x := old(open)[x].(removed := true)]
    {
      open := open[x := open[x].(removed := true)];
    }

    /** `inode_deny_write(inode)`: one more denial, never more denials than
        openers. */
    method DenyWrite(x: Sector)
      requires Valid() && x in open && open[x].denyWriteCnt < open[x].openCnt
      modifies this
      ensures Valid() && disk == old(disk) && free == old(free)
      ensures open == old(open)[x := old(open)[x].(denyWriteCnt := old(open)[x].denyWriteCnt + 1)]
      ensures open[x].denyWriteCnt <= open[x].openCnt
    {
      open := open[x := open[x].(denyWriteCnt := open[x].denyWriteCnt + 1)];
    }

    /** `inode_allow_write(inode)`: one denial fewer; there must be one, and no
        more than there are openers. */
    method AllowWrite(x: Sector)
      requires Valid() && x in open && 0 < open[x].denyWriteCnt <= open[x].openCnt
      modifies this
      ensures Valid() && disk == old(disk) && free == old(free)
      ensures open == old(open)[x := old(open)[x].(denyWriteCnt := old(open)[x].denyWriteCnt - 1)]
      ensures open[x].denyWriteCnt < open[x].openCnt
    {
      open := open[x := open[x].(denyWriteCnt := open[x].denyWriteCnt - 1)];
    }

    // -------------------------------------------------------------------------
    // Reading and writing file bytes

    /** `bd_byte_to_sector` on a file that translates, for a position the
        read path asks about: the sector of that byte, the no-sector mark at
        a length that is a whole number of sectors, and a panic (`None`) at
        a length that is a whole number of tables. */
    method ByteToSector(d: DiskInode, dir: seq<Sector>, pos: nat) returns (r: Option<Sector>)
      requires Translates(disk, d, dir)
      requires pos <= d.length && (d.length == MaxFileSize ==> pos < d.length)
      ensures r.None? <==> pos == d.length && d.length % (SectorSize * EntryCount) == 0
      ensures r.Some? ==> r.value == SectorOf(disk, dir, pos)
      ensures r.Some? ==> (r.value == NoSector <==> pos == d.length && d.length % SectorSize == 0)
    {
      TranslatePos(disk, d, dir, pos);
      r := Translate(disk, d, dir, pos);
    }

    /** The read-ahead step of `inode_read_at` after a chunk of `chunk`
        bytes read from byte `ofs`: when bytes of the request are left, it
        translates the next byte, which is fatal when the directory entry
        there is -1, and queues its sector. */
    method QueueNext(d: DiskInode, dir: seq<Sector>, offset: nat, size: nat, ofs: nat, sz: nat, chunk: nat,
                     ghost ps: seq<nat>, queue: seq<Sector>)
      returns (queue': seq<Sector>, ghost ps': seq<nat>, halted: bool)
      requires Translates(disk, d, dir)
      requires d.length == MaxFileSize ==> !(offset <= MaxFileSize < offset + size)
      requires QueueState(disk, dir, d.length, offset, size, ofs, sz, ps, queue)
      requires offset <= ofs < d.length && ofs + sz == offset + size && 0 < chunk <= sz
      requires chunk <= d.length - ofs && chunk <= SectorSize - ofs % SectorSize
      requires chunk == sz || chunk == d.length - ofs || chunk == SectorSize - ofs % SectorSize
      ensures halted <==> chunk < sz && ofs + chunk == d.length && d.length % (SectorSize * EntryCount) == 0
      ensures !halted ==> QueueState(disk, dir, d.length, offset, size, ofs + chunk, sz - chunk, ps', queue')
    {
      queue', ps', halted := queue, ps, false;
      if sz - chunk > 0 {
        var p: nat := ofs + chunk;
        var next := ByteToSector(d, dir, p);
        if next.None? {
          halted := true;
          return;
        }
        QueueStep(disk, dir, d.length, offset, size, ofs, sz, chunk, ps, queue);
        queue', ps' := queue + [next.value], ps + [p];
      } else {
        QueueLast(disk, dir, d.length, offset, size, ofs, sz, ps, queue);
      }
    }

    /** `inode_read_at(inode, size, offset)`: copies the file's bytes from
        `offset` on, chunk by chunk, each chunk inside one sector and clamped
        to the bytes left in the file and in the request; every chunk that
        leaves bytes to read queues the sector of the next byte for read-ahead.
        Each pass first translates `offset`, also when it equals the length,
        which is fatal when the directory entry there is -1. */
    method ReadAt(x: Sector, size: nat, offset: nat) returns (buf: seq<byte>, queue: seq<Sector>, halted: bool)
      requires Valid() && x in open && Translates(disk, open[x].data, open[x].dir)
      requires open[x].data.length == MaxFileSize ==> !(offset <= MaxFileSize < offset + size)
      ensures var L := open[x].data.length;
        halted <==> size > 0 && offset <= L < offset + size && L % (SectorSize * EntryCount) == 0
      ensures !halted ==> var L := open[x].data.length;
        |buf| == if offset > L then 0 else if size < L - offset then size else L - offset
      ensures !halted ==> FileHas(disk, open[x].dir, offset, buf)
      ensures !halted ==> var L := open[x].data.length;
        NoSector in queue <==> offset < L < offset + size && L % SectorSize == 0
      ensures !halted ==> forall k :: 0 <= k < |queue| ==>
        ReadAheadOf(disk, open[x].dir, open[x].data.length, offset, size, queue[k])
      ensures !halted ==> forall p: nat :: ChunkEnd(open[x].data.length, offset, size, p) ==>
        SectorOf(disk, open[x].dir, p) in queue
    {
      var d, dir := open[x].data, open[x].dir;
      var L := d.length;
      var sz: int := size;
      var ofs := offset;
      buf, queue, halted := [], [], false;
      ghost var ps: seq<nat> := [];
      while sz > 0 && ofs <= L
        invariant ofs == offset + |buf| && sz == size - |buf| && sz >= 0
        invariant |buf| > 0 ==> ofs <= L
        invariant FileHas(disk, dir, offset, buf)
        invariant QueueState(disk, dir, L, offset, size, ofs, sz, ps, queue)
        decreases sz
      {
        var sector := ByteToSector(d, dir, ofs);
        if sector.None? {
          halted := true;
          return;
        }
        var sectorOfs := ofs % SectorSize;
        var inodeLeft := L - ofs;
        var sectorLeft := SectorSize - sectorOfs;
        var minLeft := if inodeLeft < sectorLeft then inodeLeft else sectorLeft;
        var chunk := if sz < minLeft then sz else minLeft;
        if chunk <= 0 {
          break;
        }
        ReadChunkBytes(disk, dir, offset, buf, sector.value, sectorOfs, chunk);
        buf := buf + BytesAt(disk, sector.value)[sectorOfs..sectorOfs + chunk];
        queue, ps, halted := QueueNext(d, dir, offset, size, ofs, sz, chunk, ps, queue);
        if halted {
          return;
        }
        sz := sz - chunk;
        ofs := ofs + chunk;
      }
      QueuedReadAhead(disk, dir, L, offset, size, ps, queue);
      QueuedAll(disk, dir, L, offset, size, ofs, ps, queue);
    }

    /** The write loop of `inode_write_at` on a file already long enough:
        each pass writes the bytes left, clamped to the end of the file and
        to the sector of the next byte, into that sector (through the
        buffer cache, here straight into the sector's contents). Only data
        sectors of the file change, and exactly the bytes written. */
    method WriteChunks(x: Sector, bytes: seq<byte>, offset: nat) returns (written: nat)
      requires x in open && FileOk(disk, free, x, open[x].data, open[x].dir)
      requires offset + |bytes| <= open[x].data.length
      modifies this
      ensures free == old(free) && open == old(open) && written == |bytes|
      ensures FileOk(disk, free, x, open[x].data, open[x].dir)
      ensures WithinFile(disk, old(disk), x, open[x].data, open[x].dir)
      ensures Overwritten(disk, old(disk), open[x].dir, BytesToSectors(open[x].data.length) * SectorSize, offset, bytes)
    {
      var d, dir := open[x].data, open[x].dir;
      var sz: int := |bytes|;
      var ofs := offset;
      written := 0;
      while sz > 0
        invariant written <= |bytes| && ofs == offset + written && sz == |bytes| - written
        invariant open == old(open) && free == old(free)
        invariant FileOk(disk, free, x, d, dir)
        invariant WithinFile(disk, old(disk), x, d, dir)
        invariant Overwritten(disk, old(disk), dir, BytesToSectors(d.length) * SectorSize, offset, bytes[..written])
        decreases sz
      {
        var chunk := WriteNext(x, d, dir, bytes, offset, written, sz, ofs, old(disk));
        sz := sz - chunk;
        ofs := ofs + chunk;
        written := written + chunk;
      }
      assert bytes[..written] == bytes;
    }

    /** The body of the write loop: the chunk from `ofs`, `sz` bytes still
        to write, is the least of what is left of the file, of the sector
        and of the bytes; it is written and its size returned. */
    method WriteNext(x: Sector, d: DiskInode, dir: seq<Sector>, bytes: seq<byte>, offset: nat, written: nat,
                     sz: int, ofs: nat, ghost disk0: Disk)
      returns (chunk: nat)
      requires written < |bytes| && sz == |bytes| - written && ofs == offset + written
      requires offset + |bytes| <= d.length
      requires FileOk(disk, free, x, d, dir) && WithinFile(disk, disk0, x, d, dir)
      requires Overwritten(disk, disk0, dir, BytesToSectors(d.length) * SectorSize, offset, bytes[..written])
      modifies this
      ensures free == old(free) && open == old(open)
      ensures 0 < chunk <= sz
      ensures FileOk(disk, free, x, d, dir) && WithinFile(disk, disk0, x, d, dir)
      ensures Overwritten(disk, disk0, dir, BytesToSectors(d.length) * SectorSize, offset, bytes[..written + chunk])
    {
      var n := BytesToSectors(d.length);
      var sectorOfs := ofs % SectorSize;
      var inodeLeft := d.length - ofs;
      var sectorLeft := SectorSize - sectorOfs;
      var minLeft := if inodeLeft < sectorLeft then inodeLeft else sectorLeft;
      chunk := if sz < minLeft then sz else minLeft;
      ghost var disk1 := disk;
      WriteChunk(x, d, dir, ofs, bytes[written..written + chunk]);
      OverwrittenMore(disk, disk1, disk0, dir, n * SectorSize, offset, bytes, written, chunk, ofs);
      WithinFileTrans(disk, disk1, disk0, x, d, dir);
    }

    /** One pass of the write loop: `cache_write` of `chunk` at the offset of
        byte `pos` in its sector, with the rest of the sector kept, as the
        corrected `Cache.CacheWriteKeeping` does (the cache as written zeroes
        it when the sector is not resident and `pos` starts the sector). */
    method WriteChunk(x: Sector, d: DiskInode, dir: seq<Sector>, pos: nat, chunk: seq<byte>)
      requires FileOk(disk, free, x, d, dir)
      requires 0 < |chunk| && pos + |chunk| <= d.length && |chunk| <= SectorSize - pos % SectorSize
      modifies this
      ensures free == old(free) && open == old(open)
      ensures FileOk(disk, free, x, d, dir)
      ensures WithinFile(disk, old(disk), x, d, dir)
      ensures Overwritten(disk, old(disk), dir, BytesToSectors(d.length) * SectorSize, pos, chunk)
    {
      FileTranslates(disk, free, x, d, dir);
      var sector := ByteToSector(d, dir, pos);
      ChunkTarget(disk, free, x, d, dir, pos);
      ghost var disk0 := disk;
      disk := disk[sector.value := Data(Splice(BytesAt(disk, sector.value), pos % SectorSize, chunk))];
      ChunkWithinFile(disk, disk0, free, x, d, dir, pos, chunk);
      ChunkBytes(disk0, free, x, d, dir, pos, chunk, disk);
      ChunkFileOk(disk0, free, x, d, dir, pos, chunk, disk);
    }

    /** `inode_write_at(inode, buffer, size, offset)` for the open inode
        recorded at `x`: writes nothing while writes are denied; a write
        past the end of the file first grows it to `offset + size` bytes,
        which is fatal beyond `MAX_FILE_SIZE` or when the free map runs out;
        then all of `bytes` are written from `offset` on. */
    method WriteAt(x: Sector, bytes: seq<byte>, offset: nat) returns (written: nat, halted: bool, ghost taken: seq<Sector>)
      requires Valid() && x in open
      requires FileOk(disk, free, x, open[x].data, open[x].dir)
      modifies this
      ensures Valid()
      ensures var ino, end := old(open[x]), offset + |bytes|;
        var n, n2 := BytesToSectors(ino.data.length), BytesToSectors(end);
        halted <==> && ino.denyWriteCnt == 0 && ino.data.length < end
                    && (MaxFileSize < end || |old(free)| < (TablesFor(n2) - ino.data.btNum) + (n2 - n))
      ensures halted ==> disk == old(disk) && open == old(open)
      ensures halted ==> free == if offset + |bytes| <= MaxFileSize then {} else old(free)
      ensures old(open[x].denyWriteCnt) > 0 ==>
        written == 0 && disk == old(disk) && free == old(free) && open == old(open)
      ensures offset + |bytes| <= old(open[x].data.length) ==> taken == [] && free == old(free)
      ensures !halted && old(open[x].denyWriteCnt) == 0 ==>
        && written == |bytes| && x in open && open == old(open)[x := open[x]]
        && Wrote(disk, free, old(disk), old(free), x, old(open[x]), open[x], offset, bytes, taken)
    {
      if open[x].denyWriteCnt > 0 {
        return 0, false, [];
      }
      written, halted, taken := WriteAllowed(x, bytes, offset);
    }

    /** `inode_write_at` once writes are allowed: the growth step, then the
        write loop. */
    method WriteAllowed(x: Sector, bytes: seq<byte>, offset: nat) returns (written: nat, halted: bool, ghost taken: seq<Sector>)
      requires Valid() && x in open
      requires FileOk(disk, free, x, open[x].data, open[x].dir)
      modifies this
      ensures Valid()
      ensures halted <==> GrowthHalts(old(open[x].data), offset + |bytes|, |old(free)|)
      ensures halted ==> disk == old(disk) && open == old(open)
      ensures halted ==> free == if offset + |bytes| <= MaxFileSize then {} else old(free)
      ensures offset + |bytes| <= old(open[x].data.length) ==> taken == [] && free == old(free)
      ensures !halted ==>
        && written == |bytes| && x in open && open == old(open)[x := open[x]]
        && Wrote(disk, free, old(disk), old(free), x, old(open[x]), open[x], offset, bytes, taken)
    {
      ghost var disk0, free0, ino := disk, free, open[x];
      var end := offset + |bytes|;
      halted, taken := GrowForWrite(x, end, disk0, free0, ino);
      if halted {
        return 0, true, taken;
      }
      written := WriteGrown(x, bytes, offset, end, disk0, free0, ino, taken);
    }

    /** The write loop of `inode_write_at` after the growth step, which took
        `taken` and left the file at least as long as the write. */
    method WriteGrown(x: Sector, bytes: seq<byte>, offset: nat, end: nat, ghost disk0: Disk, ghost free0: set<Sector>,
                      ghost ino: Inode, ghost taken: seq<Sector>) returns (written: nat)
      requires x in open && end == offset + |bytes|
      requires Grew(disk, free, disk0, free0, x, ino, open[x], if end > ino.data.length then end else ino.data.length, taken)
      modifies this
      ensures free == old(free) && open == old(open) && written == |bytes|
      ensures Wrote(disk, free, disk0, free0, x, ino, open[x], offset, bytes, taken)
    {
      written := WriteChunks(x, bytes, offset);
      GrewThenWritten(disk, old(disk), free, disk0, free0, x, ino, open[x], taken, offset, bytes);
    }

    /** The growth step of `inode_write_at`: a write ending at `end` past
        the end of the file grows it to `end` bytes, which is fatal beyond
        `MAX_FILE_SIZE` or when the free map runs out; otherwise nothing
        changes. */
    method GrowForWrite(x: Sector, end: nat, ghost disk0: Disk, ghost free0: set<Sector>, ghost ino: Inode)
      returns (halted: bool, ghost taken: seq<Sector>)
      requires Valid() && x in open && ino == open[x] && disk0 == disk && free0 == free
      requires FileOk(disk, free, x, ino.data, ino.dir)
      modifies this
      ensures Valid()
      ensures halted <==> GrowthHalts(ino.data, end, |free0|)
      ensures halted ==> disk == disk0 && open == old(open)
      ensures halted ==> free == if end <= MaxFileSize then {} else free0
      ensures end <= ino.data.length ==> !halted && taken == [] && free == free0
      ensures !halted ==> x in open && open == old(open)[x := open[x]]
      ensures !halted ==>
        Grew(disk, free, disk0, free0, x, ino, open[x], if end > ino.data.length then end else ino.data.length, taken)
    {
      if end > open[x].data.length {
        if end > MaxFileSize {
          return true, [];
        }
        halted, taken := FileGrowth(x, end);
      } else {
        GrewNothing(disk, free, x, open[x]);
        halted, taken := false, [];
      }
    }
  }
}
