/** The sector buffer cache of cache.c: 64 slots, lookup by sector, fault-in
    from the device, second-chance eviction restarting at slot 0, bounded slot
    transfers, and the flush passes of the background workers.

    Every operation is atomic here: the semaphores `rs`/`rws`, `read_count`
    and the locks are not modelled, and `read_count` is back at its starting
    value (0) when an operation returns. The block device is the map `device`;
    a sector never written reads as zeros. */
module BufferCache {
  import opened Sectors

  const SlotCount: nat := 64

  /** One `struct bce` (cache.h): 512 data bytes, four flags and a sector. */
  datatype Slot = Slot(data: seq<byte>, valid: bool, dirty: bool, accessed: bool, pinned: bool, sector: Sector)

  /** The block device: the contents written to each sector. */
  type Device = map<Sector, seq<byte>>

  /** The slot `init_bce` produces: a slot in its flushed state, holding no
      sector, that meets the slot invariant over any device. */
  function EmptySlot(): (b: Slot)
    ensures b == Flushed(b) && forall s :: !Holds(b, s)
    ensures forall dev :: DeviceOk(dev) ==> SlotOk(b, dev)
  {
    Slot(Zeros(), false, false, false, false, 0)
  }

  /** `flush_bce`: the slot no longer holds any sector and its data is
      zeroed, but `sector` is left as it was. */
  function Flushed(b: Slot): (r: Slot)
    ensures forall s :: !Holds(r, s)
    ensures r.data == Zeros() && !r.dirty && !r.pinned && r.sector == b.sector
  {
    b.(data := Zeros(), valid := false, dirty := false, accessed := false, pinned := false)
  }

  predicate DeviceOk(dev: Device)
  {
    forall s :: s in dev ==> |dev[s]| == SectorSize
  }

  /** `block_read`: a sector never written reads as zeros. */
  function DeviceRead(dev: Device, s: Sector): (r: seq<byte>)
    requires DeviceOk(dev)
    ensures |r| == SectorSize
  {
    if s in dev then dev[s] else Zeros()
  }

  /** Slot `b` holds sector `s`. */
  predicate Holds(b: Slot, s: Sector)
  {
    b.valid && b.sector == s
  }

  /** The slot invariant: an invalid slot is in its flushed state, no slot
      names the sentinel sector, and a clean valid slot agrees with the device. */
  predicate SlotOk(b: Slot, dev: Device)
    requires DeviceOk(dev)
  {
    && |b.data| == SectorSize
    && b.sector != NoSector
    && (!b.valid ==> b == Flushed(b))
    && (b.valid && !b.dirty ==> b.data == DeviceRead(dev, b.sector))
  }

  /** No sector is resident in two valid slots. */
  predicate NoDuplicates(ss: seq<Slot>)
  {
    forall k, m :: 0 <= k < m < |ss| && ss[k].valid && ss[m].valid ==> ss[k].sector != ss[m].sector
  }

  predicate TableOk(ss: seq<Slot>, dev: Device)
  {
    && |ss| == SlotCount
    && DeviceOk(dev)
    && (forall k :: 0 <= k < |ss| ==> SlotOk(ss[k], dev))
    && NoDuplicates(ss)
  }

  // ---------------------------------------------------------------------------
  // Lookup (get_bce_idx)

  /** The first slot at or after `from` that holds `s`, or -1. */
  function Find(ss: seq<Slot>, s: Sector, from: nat): (r: int)
    requires from <= |ss|
    ensures r == -1 || (from <= r < |ss| && Holds(ss[r], s))
    ensures r == -1 ==> forall k :: from <= k < |ss| ==> !Holds(ss[k], s)
    ensures r != -1 ==> forall k :: from <= k < r ==> !Holds(ss[k], s)
    decreases |ss| - from
  {
    if from == |ss| then -1
    else if Holds(ss[from], s) then from
    else Find(ss, s, from + 1)
  }

  /** What `get_bce_idx` returns: the index of the slot holding `s`, or -1. */
  function IndexOf(ss: seq<Slot>, s: Sector): int
  {
    Find(ss, s, 0)
  }

  /** The bytes a read of sector `s` sees: the resident copy if there is one,
      otherwise the device's. */
  function View(ss: seq<Slot>, dev: Device, s: Sector): (r: seq<byte>)
    requires TableOk(ss, dev)
    ensures |r| == SectorSize
  {
    var k := IndexOf(ss, s);
    if k >= 0 then ss[k].data else DeviceRead(dev, s)
  }

  /** Two tables with the same holders of `s` give the same lookup answer. */
  lemma {:induction false} FindSameHolders(ss: seq<Slot>, ss2: seq<Slot>, s: Sector, from: nat)
    requires from <= |ss| == |ss2|
    requires forall k :: from <= k < |ss| ==> Holds(ss[k], s) == Holds(ss2[k], s)
    ensures Find(ss2, s, from) == Find(ss, s, from)
    decreases |ss| - from
  {
    if from < |ss| {
      FindSameHolders(ss, ss2, s, from + 1);
    }
  }

  /** With no duplicates, the lookup finds exactly the slot that holds the sector. */
  lemma HolderIsFound(ss: seq<Slot>, k: nat)
    requires NoDuplicates(ss) && k < |ss| && ss[k].valid
    ensures IndexOf(ss, ss[k].sector) == k
  {
  }

  /** `View` only depends on which slots hold `s`, their data, and (when none
      does) the device's copy of `s`. */
  lemma ViewFrame(ss: seq<Slot>, dev: Device, ss2: seq<Slot>, dev2: Device, s: Sector)
    requires TableOk(ss, dev) && TableOk(ss2, dev2)
    requires forall k :: 0 <= k < SlotCount ==> Holds(ss[k], s) == Holds(ss2[k], s)
    requires forall k :: 0 <= k < SlotCount && Holds(ss[k], s) ==> ss2[k].data == ss[k].data
    requires IndexOf(ss, s) < 0 ==> DeviceRead(dev2, s) == DeviceRead(dev, s)
    ensures View(ss2, dev2, s) == View(ss, dev, s)
  {
    FindSameHolders(ss, ss2, s, 0);
  }

  /** Two cache states in which a read of any sector returns the same bytes. */
  predicate SameContents(ss: seq<Slot>, dev: Device, ss2: seq<Slot>, dev2: Device)
  {
    TableOk(ss, dev) && TableOk(ss2, dev2) && forall t :: View(ss2, dev2, t) == View(ss, dev, t)
  }

  lemma SameContentsTrans(ss: seq<Slot>, dev: Device, ss2: seq<Slot>, dev2: Device, ss3: seq<Slot>, dev3: Device)
    requires SameContents(ss, dev, ss2, dev2) && SameContents(ss2, dev2, ss3, dev3)
    ensures SameContents(ss, dev, ss3, dev3)
  {
  }

  // ---------------------------------------------------------------------------
  // Eviction (cache_evict)

  /** The scan may stop at this slot: it is not a valid pinned slot. */
  predicate Eligible(b: Slot)
  {
    !b.valid || !b.pinned
  }

  /** The scan takes this slot the first time it reaches it. */
  predicate TakenAtOnce(b: Slot)
  {
    !b.valid || (!b.pinned && !b.accessed)
  }

  /** Some slot can be evicted; without one `cache_evict` loops forever. */
  predicate Evictable(ss: seq<Slot>)
  {
    exists k :: 0 <= k < |ss| && Eligible(ss[k])
  }

  function FirstTaken(ss: seq<Slot>, from: nat): (r: nat)
    requires from <= |ss|
    ensures from <= r <= |ss|
    ensures r < |ss| ==> TakenAtOnce(ss[r])
    ensures forall k :: from <= k < r ==> !TakenAtOnce(ss[k])
    decreases |ss| - from
  {
    if from == |ss| then from
    else if TakenAtOnce(ss[from]) then from
    else FirstTaken(ss, from + 1)
  }

  function FirstEligible(ss: seq<Slot>, from: nat): (r: nat)
    requires from <= |ss|
    ensures from <= r <= |ss|
    ensures r < |ss| ==> Eligible(ss[r])
    ensures forall k :: from <= k < r ==> !Eligible(ss[k])
    decreases |ss| - from
  {
    if from == |ss| then from
    else if Eligible(ss[from]) then from
    else FirstEligible(ss, from + 1)
  }

  /** The first sweep from slot 0 finds nothing to take at once, so the scan
      wraps around to slot 0 again. */
  predicate Wraps(ss: seq<Slot>)
  {
    FirstTaken(ss, 0) == |ss|
  }

  /** The slot `cache_evict` returns. */
  function Victim(ss: seq<Slot>): (v: nat)
    requires Evictable(ss)
    ensures v < |ss| && Eligible(ss[v])
    ensures !Wraps(ss) ==> TakenAtOnce(ss[v]) && forall k :: 0 <= k < v ==> !TakenAtOnce(ss[k])
    ensures Wraps(ss) ==> forall k :: 0 <= k < v ==> !Eligible(ss[k])
  {
    var f := FirstTaken(ss, 0);
    if f < |ss| then f else FirstEligible(ss, 0)
  }

  /** The second-chance sweep: every valid unpinned slot before `upto` has its
      `accessed` flag cleared; nothing else changes. */
  function SecondChance(ss: seq<Slot>, upto: nat): (r: seq<Slot>)
    ensures |r| == |ss|
    ensures forall k :: 0 <= k < |ss| ==>
      r[k] == if k < upto && ss[k].valid && !ss[k].pinned then ss[k].(accessed := false) else ss[k]
  {
    seq(|ss|, k requires 0 <= k < |ss| =>
      if k < upto && ss[k].valid && !ss[k].pinned then ss[k].(accessed := false) else ss[k])
  }

  /** The slot table after `cache_evict`. */
  function EvictSlots(ss: seq<Slot>): (r: seq<Slot>)
    requires Evictable(ss)
    ensures |r| == |ss| && forall s :: !Holds(r[Victim(ss)], s)
    ensures r[Victim(ss)].sector == ss[Victim(ss)].sector
    ensures forall k :: 0 <= k < |ss| && k != Victim(ss) ==> r[k].(accessed := ss[k].accessed) == ss[k]
  {
    var v := Victim(ss);
    var scanned := SecondChance(ss, if Wraps(ss) then |ss| else v);
    if ss[v].valid then scanned[v := Flushed(ss[v])] else scanned
  }

  /** The device after `cache_evict`: a dirty victim is written back at its sector. */
  function EvictDevice(ss: seq<Slot>, dev: Device): (r: Device)
    requires Evictable(ss)
    ensures var b := ss[Victim(ss)]; b.valid && b.dirty ==> b.sector in r && r[b.sector] == b.data
    ensures var b := ss[Victim(ss)];
      forall s :: s in dev && !(b.valid && b.dirty && s == b.sector) ==> s in r && r[s] == dev[s]
    ensures forall s :: s in r && s !in dev ==> s == ss[Victim(ss)].sector
  {
    var v := Victim(ss);
    if ss[v].valid && ss[v].dirty then dev[ss[v].sector := ss[v].data] else dev
  }

  /** A table with no pinned slot, as between two operations (`Idle`), always
      has a slot the eviction scan can stop at. */
  lemma UnpinnedEvictable(ss: seq<Slot>)
    requires |ss| > 0 && forall k :: 0 <= k < |ss| ==> !ss[k].pinned
    ensures Evictable(ss)
  {
    assert Eligible(ss[0]);
  }

  /** The scan takes the first slot it reaches that is invalid, or unpinned
      with `accessed` clear. */
  lemma VictimIsFirstTaken(ss: seq<Slot>, j: nat)
    requires j < |ss| && TakenAtOnce(ss[j])
    requires forall k :: 0 <= k < j ==> !TakenAtOnce(ss[k])
    ensures Evictable(ss) && Victim(ss) == j
  {
    assert Eligible(ss[j]);
  }

  /** The sweep passing slot `i` clears its `accessed` flag if it is valid
      and unpinned. */
  lemma SecondChanceStep(ss: seq<Slot>, i: nat)
    requires i < |ss|
    ensures SecondChance(ss, i + 1) ==
      SecondChance(ss, i)[i := if ss[i].valid && !ss[i].pinned then ss[i].(accessed := false) else ss[i]]
  {
  }

  /** The scan, in its first sweep or after wrapping around, stops at the
      victim. */
  lemma ScanStopsAt(ss: seq<Slot>, i: nat, wrapped: bool)
    requires i < |ss|
    requires !wrapped ==> TakenAtOnce(ss[i]) && forall k :: 0 <= k < i ==> !TakenAtOnce(ss[k])
    requires wrapped ==> Wraps(ss) && Eligible(ss[i]) && forall k :: 0 <= k < i ==> !Eligible(ss[k])
    ensures Evictable(ss) && Victim(ss) == i && Wraps(ss) == wrapped
  {
    if !wrapped {
      VictimIsFirstTaken(ss, i);
    } else {
      assert Eligible(ss[i]);
    }
  }

  /** Every slot the sweep passes over before the victim is valid, and is
      either pinned (left alone) or had `accessed` set (now cleared). */
  lemma SweepGivesSecondChance(ss: seq<Slot>, k: nat)
    requires Evictable(ss) && k < Victim(ss)
    ensures ss[k].valid
    ensures ss[k].pinned ==> EvictSlots(ss)[k] == ss[k]
    ensures !ss[k].pinned ==> ss[k].accessed && EvictSlots(ss)[k] == ss[k].(accessed := false)
  {
    assert !TakenAtOnce(ss[k]) by {
      if Wraps(ss) { assert FirstTaken(ss, 0) == |ss|; }
    }
  }

  /** The returned slot is invalid, clean, unpinned and zero-filled, and keeps
      its old `sector`; a dirty victim's bytes went to the device first. */
  lemma EvictedSlotIsEmpty(ss: seq<Slot>, dev: Device)
    requires TableOk(ss, dev) && Evictable(ss)
    ensures var v := Victim(ss); var b := EvictSlots(ss)[v];
      && !b.valid && !b.dirty && !b.accessed && !b.pinned
      && b.data == Zeros() && b.sector == ss[v].sector
    ensures var v := Victim(ss);
      ss[v].valid && ss[v].dirty ==> EvictDevice(ss, dev)[ss[v].sector] == ss[v].data
    ensures var v := Victim(ss);
      !(ss[v].valid && ss[v].dirty) ==> EvictDevice(ss, dev) == dev
  {
    var v := Victim(ss);
    assert SlotOk(ss[v], dev);
  }

  /** Eviction keeps the table invariant: the victim is flushed, and a
      dirty victim's bytes go to its sector, which no other slot holds. */
  lemma EvictKeepsTable(ss: seq<Slot>, dev: Device)
    requires TableOk(ss, dev) && Evictable(ss)
    ensures TableOk(EvictSlots(ss), EvictDevice(ss, dev))
  {
    var v := Victim(ss);
    var ss2, dev2 := EvictSlots(ss), EvictDevice(ss, dev);
    assert DeviceOk(dev2);
    forall k | 0 <= k < |ss|
      ensures SlotOk(ss2[k], dev2)
    {
      assert SlotOk(ss[k], dev);
      if k != v && ss[k].valid && ss[v].valid {
        assert ss[k].sector != ss[v].sector;
      }
    }
    assert NoDuplicates(ss2);
  }

  /** Eviction pins and unpins nothing. */
  lemma EvictKeepsPins(ss: seq<Slot>)
    requires Evictable(ss)
    ensures |EvictSlots(ss)| == |ss|
    ensures forall k :: 0 <= k < |ss| ==> EvictSlots(ss)[k].pinned == ss[k].pinned
  {
    assert !Flushed(ss[Victim(ss)]).pinned;
  }

  /** After eviction a read of `s` sees what it saw before. */
  lemma EvictViewAt(ss: seq<Slot>, dev: Device, s: Sector)
    requires TableOk(ss, dev) && Evictable(ss) && TableOk(EvictSlots(ss), EvictDevice(ss, dev))
    ensures View(EvictSlots(ss), EvictDevice(ss, dev), s) == View(ss, dev, s)
  {
    var v := Victim(ss);
    var ss2, dev2 := EvictSlots(ss), EvictDevice(ss, dev);
    if ss[v].valid && s == ss[v].sector {
      HolderIsFound(ss, v);
      assert SlotOk(ss[v], dev);
      forall k | 0 <= k < SlotCount
        ensures !Holds(ss2[k], s)
      {
        if k != v && Holds(ss[k], s) {
          assert false;
        }
      }
      FindSameHolders(ss2, ss2, s, 0);
      assert IndexOf(ss2, s) < 0;
    } else {
      ViewFrame(ss, dev, ss2, dev2, s);
    }
  }

  /** Eviction keeps the table invariant and changes no sector's contents as
      reads see them: the victim's bytes are on the device afterwards. */
  lemma EvictPreservesView(ss: seq<Slot>, dev: Device)
    requires TableOk(ss, dev) && Evictable(ss)
    ensures SameContents(ss, dev, EvictSlots(ss), EvictDevice(ss, dev))
  {
    EvictKeepsTable(ss, dev);
    forall s
      ensures View(EvictSlots(ss), EvictDevice(ss, dev), s) == View(ss, dev, s)
    {
      EvictViewAt(ss, dev, s);
    }
  }

  // ---------------------------------------------------------------------------
  // Write-back (write_back_all, thread_func_write_behind)

  /** The device after writing the dirty slots among the first `upto` to their
      sectors, in slot order. */
  function WriteBack(ss: seq<Slot>, dev: Device, upto: nat): (r: Device)
    requires upto <= |ss|
    ensures dev.Keys <= r.Keys
    ensures upto > 0 && ss[upto - 1].dirty ==> ss[upto - 1].sector in r && r[ss[upto - 1].sector] == ss[upto - 1].data
    decreases upto
  {
    if upto == 0 then dev
    else
      var d := WriteBack(ss, dev, upto - 1);
      if ss[upto - 1].dirty then d[ss[upto - 1].sector := ss[upto - 1].data] else d
  }

  /** Each dirty slot's bytes reach the device at its sector; a sector no
      dirty slot holds keeps its device contents. */
  lemma {:induction false} WriteBackEffect(ss: seq<Slot>, dev: Device, upto: nat)
    requires TableOk(ss, dev) && upto <= |ss|
    ensures DeviceOk(WriteBack(ss, dev, upto))
    ensures forall k :: 0 <= k < upto && ss[k].dirty ==>
      ss[k].sector in WriteBack(ss, dev, upto) && WriteBack(ss, dev, upto)[ss[k].sector] == ss[k].data
    ensures forall s :: (forall k :: 0 <= k < upto && ss[k].dirty ==> ss[k].sector != s) ==>
      DeviceRead(WriteBack(ss, dev, upto), s) == DeviceRead(dev, s)
    decreases upto
  {
    if upto > 0 {
      WriteBackEffect(ss, dev, upto - 1);
      var last := ss[upto - 1];
      if last.dirty {
        assert SlotOk(last, dev);
        forall k | 0 <= k < upto - 1 && ss[k].dirty
          ensures ss[k].sector != last.sector
        {
          assert SlotOk(ss[k], dev);
        }
      }
    }
  }

  /** The table `thread_func_write_behind` leaves: every `dirty` flag cleared. */
  function Cleaned(ss: seq<Slot>): (r: seq<Slot>)
    ensures |r| == |ss|
    ensures forall k :: 0 <= k < |ss| ==> r[k] == ss[k].(dirty := false)
  {
    seq(|ss|, k requires 0 <= k < |ss| => ss[k].(dirty := false))
  }

  /** Writing back every dirty slot keeps the table invariant, also once the
      `dirty` flags are cleared. */
  lemma WriteBackKeepsTable(ss: seq<Slot>, dev: Device)
    requires TableOk(ss, dev)
    ensures TableOk(ss, WriteBack(ss, dev, SlotCount))
    ensures TableOk(Cleaned(ss), WriteBack(ss, dev, SlotCount))
  {
    var dev2 := WriteBack(ss, dev, SlotCount);
    WriteBackEffect(ss, dev, SlotCount);
    forall k | 0 <= k < SlotCount
      ensures SlotOk(ss[k], dev2) && SlotOk(Cleaned(ss)[k], dev2)
    {
      assert SlotOk(ss[k], dev);
      if ss[k].valid && !ss[k].dirty {
        forall m | 0 <= m < SlotCount && ss[m].dirty
          ensures ss[m].sector != ss[k].sector
        {
          assert SlotOk(ss[m], dev);
        }
      }
    }
  }

  /** Writing back every dirty slot changes no sector's contents as reads see
      them, and neither does clearing the `dirty` flags afterwards. */
  lemma WriteBackPreservesView(ss: seq<Slot>, dev: Device)
    requires TableOk(ss, dev)
    ensures SameContents(ss, dev, ss, WriteBack(ss, dev, SlotCount))
    ensures SameContents(ss, dev, Cleaned(ss), WriteBack(ss, dev, SlotCount))
  {
    var dev2 := WriteBack(ss, dev, SlotCount);
    WriteBackKeepsTable(ss, dev);
    WriteBackEffect(ss, dev, SlotCount);
    forall s
      ensures View(ss, dev2, s) == View(ss, dev, s)
      ensures View(Cleaned(ss), dev2, s) == View(ss, dev, s)
    {
      WriteBackViewAt(ss, dev, s);
    }
  }

  lemma WriteBackViewAt(ss: seq<Slot>, dev: Device, s: Sector)
    requires TableOk(ss, dev)
    requires TableOk(ss, WriteBack(ss, dev, SlotCount)) && TableOk(Cleaned(ss), WriteBack(ss, dev, SlotCount))
    ensures View(ss, WriteBack(ss, dev, SlotCount), s) == View(ss, dev, s)
    ensures View(Cleaned(ss), WriteBack(ss, dev, SlotCount), s) == View(ss, dev, s)
  {
    var dev2 := WriteBack(ss, dev, SlotCount);
    WriteBackEffect(ss, dev, SlotCount);
    forall m | 0 <= m < SlotCount && ss[m].dirty
      ensures IndexOf(ss, s) < 0 ==> ss[m].sector != s
    {
      assert SlotOk(ss[m], dev);
    }
    ViewFrame(ss, dev, ss, dev2, s);
    ViewFrame(ss, dev, Cleaned(ss), dev2, s);
  }

  // ---------------------------------------------------------------------------
  // Writes that skip the device read, and device writes beside the cache

  /** A write covering a whole sector leaves the same bytes whatever the
      sector held before. */
  lemma WholeSplice(a: seq<byte>, b: seq<byte>, buf: seq<byte>)
    requires |a| == |b| == |buf|
    ensures Splice(a, 0, buf) == Splice(b, 0, buf) == buf
  {
  }

  /** `cache_write` as written, on a miss at offset 0 with a buffer shorter
      than the sector, starts from zeros rather than from the sector's bytes:
      whenever the byte right after the buffer was not zero, the sector
      differs from the intended splice of `buf` into its old contents. */
  lemma ShortWriteAtZeroLosesTail(before: seq<byte>, buf: seq<byte>)
    requires |before| == SectorSize && |buf| < SectorSize && before[|buf|] != 0
    ensures Splice(Zeros(), 0, buf) != Splice(before, 0, buf)
  {
    assert Splice(Zeros(), 0, buf)[|buf|] == 0;
    assert Splice(before, 0, buf)[|buf|] == before[|buf|];
  }

  /** A `block_write` of `data` to sector `s` that goes to the device alone,
      as inode.c writes new tables, zeroed data sectors and inode records,
      while a dirty slot of a released `s` is still resident: a read through
      the cache still sees the slot's old bytes, and the next write-back
      puts them over `data` on the device. */
  lemma StaleSlotShadowsBlockWrite(ss: seq<Slot>, dev: Device, s: Sector, data: seq<byte>)
    requires TableOk(ss, dev) && |data| == SectorSize
    requires IndexOf(ss, s) >= 0 && ss[IndexOf(ss, s)].dirty && ss[IndexOf(ss, s)].data != data
    ensures TableOk(ss, dev[s := data])
    ensures View(ss, dev[s := data], s) != data
    ensures s in WriteBack(ss, dev[s := data], |ss|) && WriteBack(ss, dev[s := data], |ss|)[s] != data
  {
    var k, dev2 := IndexOf(ss, s), dev[s := data];
    forall j | 0 <= j < |ss|
      ensures SlotOk(ss[j], dev2)
    {
      assert SlotOk(ss[j], dev);
      if ss[j].valid && ss[j].sector == s {
        HolderIsFound(ss, j);
      }
    }
    assert TableOk(ss, dev2);
    HolderIsFound(ss, k);
    WriteBackEffect(ss, dev2, |ss|);
  }

  // ---------------------------------------------------------------------------
  // The cache object

  class Cache {
    /** `buffer_cache[64]` */
    var slots: array<Slot>
    /** the block device behind the cache */
    var device: Device

    ghost predicate Valid()
      reads this, slots
    {
      TableOk(slots[..], device)
    }

    /** No slot is pinned (the state between two operations). */
    ghost predicate Idle()
      reads this, slots
    {
      forall k :: 0 <= k < slots.Length ==> !slots[k].pinned
    }

    /** What a read of sector `s` returns. */
    ghost function Contents(s: Sector): seq<byte>
      reads this, slots
      requires Valid()
    {
      View(slots[..], device, s)
    }

    /** `bc_init` (the slot loop; the threads it starts are separate methods here). */
    constructor (dev: Device)
      requires DeviceOk(dev)
      ensures Valid() && Idle() && fresh(slots) && device == dev
      ensures forall k :: 0 <= k < SlotCount ==> slots[k] == EmptySlot()
      ensures forall s :: Contents(s) == DeviceRead(dev, s)
    {
      var a := new Slot[SlotCount];
      for i := 0 to SlotCount
        invariant forall k :: 0 <= k < i ==> a[k] == EmptySlot()
      {
        a[i] := EmptySlot();
      }
      slots := a;
      device := dev;
      new;
      forall s
        ensures Contents(s) == DeviceRead(dev, s)
      {
        assert IndexOf(slots[..], s) < 0;
      }
    }

    /** `get_bce_idx`: the slot holding `s` (pinned when `pin`), or -1; the
        sentinel sector halts the kernel. */
    method GetBceIdx(s: Sector, pin: bool) returns (idx: int, halted: bool)
      requires slots.Length == SlotCount
      modifies slots
      ensures halted <==> s == NoSector
      ensures halted ==> slots[..] == old(slots[..])
      ensures !halted ==> idx == IndexOf(old(slots[..]), s)
      ensures !halted ==> (slots[..] ==
        if pin && idx >= 0 then old(slots[..])[idx := old(slots[idx]).(pinned := true)] else old(slots[..]))
    {
      if s == NoSector {
        return -1, true;
      }
      halted := false;
      var i := 0;
      while i < SlotCount
        invariant 0 <= i <= SlotCount
        invariant forall k :: 0 <= k < i ==> !Holds(slots[k], s)
        invariant slots[..] == old(slots[..])
      {
        if slots[i].valid && slots[i].sector == s {
          if pin {
            slots[i] := slots[i].(pinned := true);
          }
          return i, false;
        }
        i := i + 1;
      }
      idx := -1;
    }

    /** `get_from_block`: load sector `s` into slot `idx`; a slot that is
        already valid, or the sentinel sector, halts the kernel. */
    method GetFromBlock(s: Sector, idx: nat) returns (halted: bool)
      requires Valid() && idx < SlotCount
      modifies slots
      ensures halted <==> old(slots[idx].valid) || s == NoSector
      ensures !halted ==> (slots[..] ==
        old(slots[..])[idx := old(slots[idx]).(data := DeviceRead(device, s), valid := true, sector := s)])
    {
      if slots[idx].valid {
        return true;
      }
      var bytes := DeviceRead(device, s);
      slots[idx] := slots[idx].(data := bytes, valid := true);
      if s == NoSector {
        return true;
      }
      slots[idx] := slots[idx].(sector := s);
      halted := false;
    }

    /** `bce_read`: `size` bytes from offset `ofs` of slot `idx`. */
    method BceRead(idx: nat, ofs: nat, size: nat) returns (buf: seq<byte>, halted: bool)
      requires slots.Length == SlotCount && idx < SlotCount && |slots[idx].data| == SectorSize
      modifies slots
      ensures halted <==> ofs + size > SectorSize
      ensures halted ==> slots[..] == old(slots[..])
      ensures !halted ==> buf == old(slots[idx].data)[ofs..ofs + size]
      ensures !halted ==> slots[..] == old(slots[..])[idx := old(slots[idx]).(accessed := true, pinned := false)]
    {
      if SectorSize < ofs + size {
        return [], true;
      }
      halted := false;
      buf := slots[idx].data[ofs..ofs + size];
      slots[idx] := slots[idx].(accessed := true);
      // the last reader leaves: read_count is back to 0
      slots[idx] := slots[idx].(pinned := false);
    }

    /** `bce_write`: `buf` copied to offset `ofs` of slot `idx`. */
    method BceWrite(idx: nat, buf: seq<byte>, ofs: nat) returns (halted: bool)
      requires slots.Length == SlotCount && idx < SlotCount && |slots[idx].data| == SectorSize
      modifies slots
      ensures halted <==> ofs + |buf| > SectorSize
      ensures halted ==> slots[..] == old(slots[..])
      ensures !halted ==> slots[..] == old(slots[..])[idx :=
        old(slots[idx]).(data := Splice(old(slots[idx].data), ofs, buf), dirty := true, accessed := true, pinned := false)]
    {
      if SectorSize < ofs + |buf| {
        return true;
      }
      halted := false;
      slots[idx] := slots[idx].(data := Splice(slots[idx].data, ofs, buf));
      slots[idx] := slots[idx].(dirty := true, accessed := true, pinned := false);
    }

    /** `cache_evict`: scan from slot 0, wrapping around, giving accessed
        slots a second chance; write a dirty victim back and reset it. */
    method Evict() returns (victim: nat)
      requires Valid() && Evictable(slots[..])
      modifies this, slots
      ensures slots == old(slots)
      ensures victim == Victim(old(slots[..]))
      ensures slots[..] == EvictSlots(old(slots[..]))
      ensures device == EvictDevice(old(slots[..]), old(device))
      ensures forall k :: 0 <= k < SlotCount ==> slots[k].pinned == old(slots[k].pinned)
      ensures Valid() && SameContents(old(slots[..]), old(device), slots[..], device)
    {
      ghost var ss := slots[..];
      EvictPreservesView(ss, device);
      EvictKeepsPins(ss);
      victim := Scan();
      if slots[victim].valid {
        if slots[victim].dirty {
          device := device[slots[victim].sector := slots[victim].data];
        }
        slots[victim] := Flushed(slots[victim]);
      }
    }

    /** The scan loop of `cache_evict`: from slot 0, wrapping around, it
        clears the `accessed` flag of each valid unpinned slot it passes and
        stops at the first slot that is invalid, or unpinned with `accessed`
        clear. */
    method Scan() returns (victim: nat)
      requires slots.Length == SlotCount && Evictable(slots[..])
      modifies slots
      ensures victim == Victim(old(slots[..]))
      ensures slots[..] == SecondChance(old(slots[..]), if Wraps(old(slots[..])) then SlotCount else victim)
      ensures slots[victim].valid ==> slots[victim] == old(slots[victim]).(accessed := false)
      ensures !slots[victim].valid ==> slots[victim] == old(slots[victim])
    {
      ghost var ss := slots[..];
      var i := 0;
      ghost var wrapped := false;
      while true
        invariant 0 <= i < SlotCount
        invariant !wrapped ==> forall k :: 0 <= k < i ==> !TakenAtOnce(ss[k])
        invariant !wrapped ==> slots[..] == SecondChance(ss, i)
        invariant wrapped ==> Wraps(ss) && slots[..] == SecondChance(ss, SlotCount)
        invariant wrapped ==> forall k :: 0 <= k < i ==> !Eligible(ss[k])
        decreases (if wrapped then 0 else SlotCount) + SlotCount - i
      {
        if !slots[i].valid || (!slots[i].pinned && !slots[i].accessed) {
          ScanStopsAt(ss, i, wrapped);
          return i;
        }
        if !slots[i].pinned {
          slots[i] := slots[i].(accessed := false);
        }
        if !wrapped {
          SecondChanceStep(ss, i);
        }
        i := i + 1;
        if i == SlotCount {
          i := 0;
          wrapped := true;
        }
      }
    }

    /** The miss path shared by `cache_read`, `cache_write` and the read-ahead
        worker: `cache_evict` followed by `get_from_block` into the victim. */
    method FaultIn(s: Sector) returns (idx: nat)
      requires Valid() && Evictable(slots[..])
      requires s != NoSector && IndexOf(slots[..], s) < 0
      modifies this, slots
      ensures slots == old(slots)
      ensures Valid() && SameContents(old(slots[..]), old(device), slots[..], device)
      ensures idx < SlotCount && IndexOf(slots[..], s) == idx && !slots[idx].pinned
      ensures forall k :: 0 <= k < SlotCount ==> slots[k].pinned == old(slots[k].pinned)
    {
      ghost var ss0, dev0 := slots[..], device;
      idx := Evict();
      assert SlotOk(ss0[idx], dev0);
      ghost var evicted := slots[..];
      var halted := GetFromBlock(s, idx);
      assert !halted;
      LoadPreservesView(evicted, device, idx, s);
      SameContentsTrans(ss0, dev0, evicted, device, slots[..], device);
      HolderIsFound(slots[..], idx);
    }

    /** `cache_read`: `size` bytes of sector `s` from offset `ofs`, faulting
        the sector in (after evicting a slot) when it is not resident. */
    method CacheRead(s: Sector, ofs: nat, size: nat) returns (buf: seq<byte>, halted: bool)
      requires Valid()
      requires s == NoSector || IndexOf(slots[..], s) >= 0 || Evictable(slots[..])
      modifies this, slots
      ensures slots == old(slots)
      ensures halted <==> s == NoSector || ofs + size > SectorSize
      ensures !halted ==> Valid() && buf == old(Contents(s))[ofs..ofs + size]
      ensures !halted ==> SameContents(old(slots[..]), old(device), slots[..], device)
      ensures !halted ==> IndexOf(slots[..], s) >= 0 && !slots[IndexOf(slots[..], s)].pinned
      ensures !halted ==> forall k :: 0 <= k < SlotCount && slots[k].pinned ==> old(slots[k].pinned)
    {
      ghost var ss0, dev0 := slots[..], device;
      var idx;
      idx, halted := ClaimForRead(s);
      if halted {
        return [], true;
      }
      ghost var loaded := slots[..];
      assert View(loaded, device, s) == View(ss0, dev0, s);
      buf, halted := BceRead(idx, ofs, size);
      if !halted {
        FlagsPreserveView(loaded, device, idx, slots[idx]);
        assert slots[..] == loaded[idx := slots[idx]];
        SameContentsTrans(ss0, dev0, loaded, device, slots[..], device);
        HolderIsFound(slots[..], idx);
        forall k | 0 <= k < SlotCount && slots[k].pinned
          ensures old(slots[k].pinned)
        {
          assert k != idx && slots[k] == loaded[k];
        }
      }
    }

    /** The first half of `cache_read`: the slot holding `s`, pinned on a
        hit, faulted in on a miss. */
    method ClaimForRead(s: Sector) returns (idx: int, halted: bool)
      requires Valid()
      requires s == NoSector || IndexOf(slots[..], s) >= 0 || Evictable(slots[..])
      modifies this, slots
      ensures slots == old(slots)
      ensures halted <==> s == NoSector
      ensures !halted ==> Valid() && SameContents(old(slots[..]), old(device), slots[..], device)
      ensures !halted ==> 0 <= idx < SlotCount && IndexOf(slots[..], s) == idx
      ensures !halted ==> slots[idx].valid && slots[idx].sector == s && |slots[idx].data| == SectorSize
      ensures !halted ==> forall k :: 0 <= k < SlotCount && k != idx && slots[k].pinned ==> old(slots[k].pinned)
    {
      ghost var ss0 := slots[..];
      idx, halted := GetBceIdx(s, true);
      if halted {
        return;
      }
      if idx == -1 {
        idx := FaultIn(s);
      } else {
        PinPreservesView(ss0, device, idx);
        HolderIsFound(slots[..], idx);
      }
      assert SlotOk(slots[idx], device);
    }

    /** `cache_write`: `buf` written into sector `s` at offset `ofs`. On a miss
        at offset 0 the device is not read, so the rest of the sector is zero,
        even when `buf` is shorter than the sector. */
    method CacheWrite(s: Sector, buf: seq<byte>, ofs: nat) returns (halted: bool)
      requires Valid()
      requires s == NoSector || IndexOf(slots[..], s) >= 0 || Evictable(slots[..])
      modifies this, slots
      ensures slots == old(slots)
      ensures halted <==> s == NoSector || ofs + |buf| > SectorSize
      ensures !halted ==> Valid()
      ensures !halted ==> (Contents(s) ==
        Splice(if old(IndexOf(slots[..], s)) < 0 && ofs == 0 then Zeros() else old(Contents(s)), ofs, buf))
      ensures !halted ==> forall t :: t != s ==> Contents(t) == old(Contents(t))
      ensures !halted ==> IndexOf(slots[..], s) >= 0 && !slots[IndexOf(slots[..], s)].pinned
      ensures !halted ==> forall k :: 0 <= k < SlotCount && slots[k].pinned ==> old(slots[k].pinned)
    {
      halted := WriteSlot(s, buf, ofs, ofs == 0);
    }

    /** `cache_write` as evidently intended: the device read is skipped on a
        miss only when `buf` covers the whole sector, so the write changes
        exactly the bytes `ofs .. ofs + |buf|` of sector `s`. */
    method CacheWriteKeeping(s: Sector, buf: seq<byte>, ofs: nat) returns (halted: bool)
      requires Valid()
      requires s == NoSector || IndexOf(slots[..], s) >= 0 || Evictable(slots[..])
      modifies this, slots
      ensures slots == old(slots)
      ensures halted <==> s == NoSector || ofs + |buf| > SectorSize
      ensures !halted ==> Valid()
      ensures !halted ==> Contents(s) == Splice(old(Contents(s)), ofs, buf)
      ensures !halted ==> forall t :: t != s ==> Contents(t) == old(Contents(t))
      ensures !halted ==> IndexOf(slots[..], s) >= 0 && !slots[IndexOf(slots[..], s)].pinned
    {
      ghost var before := Contents(s);
      halted := WriteSlot(s, buf, ofs, ofs == 0 && |buf| == SectorSize);
      if !halted && ofs == 0 && |buf| == SectorSize {
        WholeSplice(Zeros(), before, buf);
      }
    }

    /** The body of `cache_write`, with the choice to skip the device read on
        a miss made by `skipRead`. */
    method WriteSlot(s: Sector, buf: seq<byte>, ofs: nat, skipRead: bool) returns (halted: bool)
      requires Valid()
      requires s == NoSector || IndexOf(slots[..], s) >= 0 || Evictable(slots[..])
      modifies this, slots
      ensures slots == old(slots)
      ensures halted <==> s == NoSector || ofs + |buf| > SectorSize
      ensures !halted ==> Valid()
      ensures !halted ==> (Contents(s) ==
        Splice(if old(IndexOf(slots[..], s)) < 0 && skipRead then Zeros() else old(Contents(s)), ofs, buf))
      ensures !halted ==> forall t :: t != s ==> Contents(t) == old(Contents(t))
      ensures !halted ==> IndexOf(slots[..], s) >= 0 && !slots[IndexOf(slots[..], s)].pinned
      ensures !halted ==> forall k :: 0 <= k < SlotCount && slots[k].pinned ==> old(slots[k].pinned)
    {
      var idx;
      ghost var ready;
      idx, halted, ready := ClaimForWrite(s, skipRead);
      if halted {
        return true;
      }
      ghost var claimed := slots[..];
      halted := BceWrite(idx, buf, ofs);
      if !halted {
        WritePreservesOthers(ready, device, idx, s, slots[idx]);
        assert slots[..] == ready[idx := slots[idx]];
        HolderIsFound(slots[..], idx);
        forall k | 0 <= k < SlotCount && slots[k].pinned
          ensures old(slots[k].pinned)
        {
          assert k != idx && slots[k] == claimed[k] == ready[k];
        }
      }
    }

    /** `block_write` of `data` to sector `s` kept coherent with the cache,
        as the inode layer's writes of new tables, zeroed data sectors and
        records need: the device gets `data` and a resident copy of `s` is
        replaced by it, so a read through the cache sees `data`. */
    method BlockWrite(s: Sector, data: seq<byte>)
      requires Valid() && |data| == SectorSize
      modifies this, slots
      ensures Valid() && slots == old(slots) && device == old(device)[s := data]
      ensures Contents(s) == data
      ensures forall t :: t != s ==> Contents(t) == old(Contents(t))
    {
      ghost var ss0, dev0 := slots[..], device;
      var k := IndexOf(slots[..], s);
      device := device[s := data];
      if k >= 0 {
        slots[k] := slots[k].(data := data, dirty := false);
      }
      forall j | 0 <= j < SlotCount
        ensures SlotOk(slots[j], device)
      {
        assert SlotOk(ss0[j], dev0);
        if ss0[j].valid && ss0[j].sector == s {
          HolderIsFound(ss0, j);
        }
      }
      assert forall j :: 0 <= j < SlotCount ==> slots[j].valid == ss0[j].valid && slots[j].sector == ss0[j].sector;
      forall t
        ensures View(slots[..], device, t) == if t == s then data else View(ss0, dev0, t)
      {
        if t == s {
          FindSameHolders(ss0, slots[..], s, 0);
        } else {
          ViewFrame(ss0, dev0, slots[..], device, t);
        }
      }
    }

    /** The first half of `cache_write`: the slot that will take the bytes,
        pinned. On a hit it is the holder of `s`; on a miss with `skipRead`
        it is the evicted slot, claimed for `s` without reading the device; on
        any other miss it is faulted in. `ready` is the table just before the
        claim, the slot then either holding `s` or invalid with `s` absent. */
    method ClaimForWrite(s: Sector, skipRead: bool) returns (idx: int, halted: bool, ghost ready: seq<Slot>)
      requires Valid()
      requires s == NoSector || IndexOf(slots[..], s) >= 0 || Evictable(slots[..])
      modifies this, slots
      ensures slots == old(slots)
      ensures halted <==> s == NoSector
      ensures !halted ==> 0 <= idx < SlotCount && |ready| == SlotCount
      ensures !halted ==> SameContents(old(slots[..]), old(device), ready, device)
      ensures !halted ==> if ready[idx].valid then ready[idx].sector == s else IndexOf(ready, s) < 0
      ensures !halted ==> slots[..] == ready[idx := slots[idx]] && |slots[idx].data| == SectorSize
      ensures !halted ==> slots[idx].valid && slots[idx].sector == s
      ensures !halted ==>
        slots[idx].data == if old(IndexOf(slots[..], s)) < 0 && skipRead then Zeros() else old(Contents(s))
      ensures !halted ==> forall k :: 0 <= k < SlotCount && k != idx && ready[k].pinned ==> old(slots[k].pinned)
    {
      idx, halted := GetBceIdx(s, true);
      ready := slots[..];
      if halted {
        return;
      }
      ghost var ss0, dev0 := old(slots[..]), old(device);
      if idx == -1 {
        if !skipRead {
          idx := FaultIn(s);
          ready := slots[..];
          HolderIsFound(ready, idx);
        } else {
          idx := Evict();
          ready := slots[..];
          EvictKeepsMiss(ss0, dev0, s);
          // the source halts here when the slot's old sector is the sentinel
          assert slots[idx].sector != NoSector;
          slots[idx] := slots[idx].(valid := true, sector := s, pinned := true);
        }
      } else {
        PinPreservesView(ss0, device, idx);
        ready := slots[..];
        HolderIsFound(ready, idx);
      }
    }

    /** One pass of `thread_func_write_behind`: every dirty slot is written to
        the device at its sector and marked clean. */
    method WriteBehindPass()
      requires Valid()
      modifies this, slots
      ensures slots == old(slots)
      ensures slots[..] == Cleaned(old(slots[..]))
      ensures device == WriteBack(old(slots[..]), old(device), SlotCount)
      ensures Valid() && SameContents(old(slots[..]), old(device), slots[..], device)
    {
      ghost var ss := slots[..];
      for i := 0 to SlotCount
        invariant slots == old(slots)
        invariant device == WriteBack(ss, old(device), i)
        invariant forall k :: 0 <= k < SlotCount ==> slots[k] == if k < i then ss[k].(dirty := false) else ss[k]
      {
        if slots[i].dirty {
          device := device[slots[i].sector := slots[i].data];
          slots[i] := slots[i].(dirty := false);
        }
      }
      assert slots[..] == Cleaned(ss);
      WriteBackPreservesView(ss, old(device));
    }

    /** `write_back_all`: every dirty slot is written to the device at its
        sector; no flag and no byte of the table changes (`dirty` stays set). */
    method WriteBackAll()
      requires Valid()
      modifies this
      ensures slots == old(slots) && slots[..] == old(slots[..])
      ensures device == WriteBack(old(slots[..]), old(device), SlotCount)
      ensures Valid() && SameContents(old(slots[..]), old(device), slots[..], device)
    {
      ghost var ss := slots[..];
      for i := 0 to SlotCount
        invariant slots == old(slots) && slots[..] == ss
        invariant device == WriteBack(ss, old(device), i)
      {
        assert slots[i] == ss[i];
        if slots[i].dirty {
          device := device[slots[i].sector := slots[i].data];
        }
      }
      WriteBackPreservesView(ss, old(device));
    }

    /** One pass of `thread_func_read_ahead`: drain the queue, faulting in
        (unpinned) each queued sector that is not resident. The worker runs
        between operations, when no slot is pinned, so an evictable slot is
        there whether or not the queued sectors are resident
        (`UnpinnedEvictable`); the precondition asks for no more. */
    method ReadAheadPass(queue: seq<Sector>) returns (halted: bool)
      requires Valid() && Evictable(slots[..])
      modifies this, slots
      ensures slots == old(slots)
      ensures halted <==> NoSector in queue
      ensures !halted ==> Valid() && Evictable(slots[..])
      ensures !halted ==> SameContents(old(slots[..]), old(device), slots[..], device)
      ensures !halted ==> forall k :: 0 <= k < SlotCount && slots[k].pinned ==> old(slots[k].pinned)
      ensures !halted && queue != [] ==> IndexOf(slots[..], queue[|queue| - 1]) >= 0
    {
      ghost var ss0, dev0 := slots[..], device;
      halted := false;
      var i := 0;
      while i < |queue|
        invariant 0 <= i <= |queue|
        invariant slots == old(slots)
        invariant Valid() && Evictable(slots[..])
        invariant NoSector !in queue[..i]
        invariant SameContents(ss0, dev0, slots[..], device)
        invariant forall k :: 0 <= k < SlotCount && slots[k].pinned ==> old(slots[k].pinned)
        invariant i > 0 ==> IndexOf(slots[..], queue[i - 1]) >= 0
      {
        ghost var step, stepDev := slots[..], device;
        halted := ReadAheadOne(queue[i]);
        if halted {
          assert queue[i] in queue;
          return;
        }
        SameContentsTrans(ss0, dev0, step, stepDev, slots[..], device);
        assert queue[..i + 1] == queue[..i] + [queue[i]];
        i := i + 1;
      }
      assert queue[..i] == queue;
    }

    /** One sector of the read-ahead worker: `get_bce_idx`, and on a miss
        the sector is faulted in. An evictable slot is required on a hit too,
        because the pass keeps it for the next sector. */
    method ReadAheadOne(s: Sector) returns (halted: bool)
      requires Valid() && Evictable(slots[..])
      modifies this, slots
      ensures slots == old(slots)
      ensures halted <==> s == NoSector
      ensures !halted ==> Valid() && Evictable(slots[..])
      ensures !halted ==> SameContents(old(slots[..]), old(device), slots[..], device)
      ensures !halted ==> forall k :: 0 <= k < SlotCount && slots[k].pinned ==> old(slots[k].pinned)
      ensures !halted ==> IndexOf(slots[..], s) >= 0
    {
      var idx;
      idx, halted := GetBceIdx(s, false);
      if halted {
        return;
      }
      if idx == -1 {
        idx := FaultIn(s);
        assert Eligible(slots[idx]);
      } else {
        HolderIsFound(slots[..], idx);
      }
    }
  }

  // ---------------------------------------------------------------------------
  // Frame lemmas for the steps of cache_read / cache_write

  /** Loading a non-resident sector into an invalid slot keeps the invariant
      and every sector's contents. */
  lemma LoadPreservesView(ss: seq<Slot>, dev: Device, v: nat, s: Sector)
    requires TableOk(ss, dev) && v < SlotCount && !ss[v].valid
    requires IndexOf(ss, s) < 0 && s != NoSector
    ensures SameContents(ss, dev, ss[v := ss[v].(data := DeviceRead(dev, s), valid := true, sector := s)], dev)
  {
    var ss2 := ss[v := ss[v].(data := DeviceRead(dev, s), valid := true, sector := s)];
    assert TableOk(ss2, dev);
    forall t
      ensures View(ss2, dev, t) == View(ss, dev, t)
    {
      if t == s {
        HolderIsFound(ss2, v);
      } else {
        ViewFrame(ss, dev, ss2, dev, t);
      }
    }
  }

  /** Eviction makes no sector resident: a sector missing before is still
      missing, and the victim slot is invalid. */
  lemma EvictKeepsMiss(ss: seq<Slot>, dev: Device, s: Sector)
    requires TableOk(ss, dev) && Evictable(ss) && IndexOf(ss, s) < 0
    ensures IndexOf(EvictSlots(ss), s) < 0
    ensures !EvictSlots(ss)[Victim(ss)].valid
  {
    assert SlotOk(ss[Victim(ss)], dev);
    FindSameHolders(ss, EvictSlots(ss), s, 0);
  }

  /** Changing only the `accessed`/`pinned` flags of a valid slot keeps the
      invariant and every sector's contents. */
  lemma FlagsPreserveView(ss: seq<Slot>, dev: Device, k: nat, b: Slot)
    requires TableOk(ss, dev) && k < SlotCount && ss[k].valid
    requires b == ss[k].(accessed := b.accessed, pinned := b.pinned)
    ensures SameContents(ss, dev, ss[k := b], dev)
  {
    forall t
      ensures View(ss[k := b], dev, t) == View(ss, dev, t)
    {
      ViewFrame(ss, dev, ss[k := b], dev, t);
    }
  }

  /** Pinning a resident slot changes neither the invariant nor any contents. */
  lemma PinPreservesView(ss: seq<Slot>, dev: Device, k: nat)
    requires TableOk(ss, dev) && k < SlotCount && ss[k].valid
    ensures SameContents(ss, dev, ss[k := ss[k].(pinned := true)], dev)
  {
    FlagsPreserveView(ss, dev, k, ss[k].(pinned := true));
  }

  /** Making slot `k` a dirty holder of `s`, where `k` already holds `s` or
      is invalid while `s` is not resident, keeps the invariant and every
      other sector's contents. */
  lemma WritePreservesOthers(ss: seq<Slot>, dev: Device, k: nat, s: Sector, b: Slot)
    requires TableOk(ss, dev) && k < SlotCount && s != NoSector
    requires if ss[k].valid then ss[k].sector == s else IndexOf(ss, s) < 0
    requires b.valid && b.dirty && b.sector == s && |b.data| == SectorSize
    ensures TableOk(ss[k := b], dev)
    ensures forall t :: t != s ==> View(ss[k := b], dev, t) == View(ss, dev, t)
    ensures View(ss[k := b], dev, s) == b.data
  {
    var ss2 := ss[k := b];
    if ss[k].valid {
      HolderIsFound(ss, k);
    }
    assert SlotOk(b, dev);
    assert TableOk(ss2, dev);
    HolderIsFound(ss2, k);
    forall t | t != s
      ensures View(ss2, dev, t) == View(ss, dev, t)
    {
      ViewFrame(ss, dev, ss2, dev, t);
    }
  }
}
