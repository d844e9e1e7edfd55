/** Sector-level vocabulary shared by the buffer cache and the inode layer:
    bytes, 32-bit sector numbers with the all-ones "no sector" sentinel, and
    the 512-byte sector buffer. */
module Sectors {

  newtype byte = x: int | 0 <= x < 256

  /** `block_sector_t` is an unsigned 32-bit number. */
  type Sector = x: int | 0 <= x < 0x1_0000_0000

  /** The sentinel `-1` of the source, as an unsigned 32-bit value. */
  const NoSector: Sector := 0xFFFF_FFFF

  const SectorSize: nat := 512

  /** A sector buffer of zero bytes (the `memset`/`calloc`/`static zeros` of the source). */
  function Zeros(): (z: seq<byte>)
    ensures |z| == SectorSize
    ensures forall k :: 0 <= k < |z| ==> z[k] == 0
  {
    seq(SectorSize, _ => 0)
  }

  /** `memcpy(&data[ofs], buf, |buf|)`: the bytes `[ofs, ofs + |buf|)` of `data`
      replaced by `buf`, every other byte kept. */
  function Splice(data: seq<byte>, ofs: nat, buf: seq<byte>): (r: seq<byte>)
    requires ofs + |buf| <= |data|
    ensures |r| == |data|
    ensures r[ofs..ofs + |buf|] == buf
    ensures forall k :: 0 <= k < |r| && !(ofs <= k < ofs + |buf|) ==> r[k] == data[k]
  {
    data[..ofs] + buf + data[ofs + |buf|..]
  }

  datatype Option<T> = None | Some(value: T)
}
