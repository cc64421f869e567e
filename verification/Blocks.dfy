/** Device blocks of BLOCKSIZ bytes, and the zone numbers stored in them (get_zone in fs/util.c). */
module Blocks {

  const BlockSize: nat := 1024
  /** NR_INDIRECTS: zone numbers per block */
  const ZonesPerBlock: nat := 256

  type byte = x: int | 0 <= x < 256
  /** zone_t is a 32-bit unsigned number. */
  type zone = x: int | 0 <= x < 0x1_0000_0000
  type Block = b: seq<byte> | |b| == 1024 witness seq(1024, _ => 0)

  /** A block after memset(b_data, 0, BLOCKSIZ). */
  function ZeroBlock(): Block {
    seq(1024, _ => 0)
  }

  /** ((zone_t *)data)[i], stored low byte first. */
  function ZoneAt(b: Block, i: nat): zone
    requires i < ZonesPerBlock
  {
    (b[4 * i] as int) + 0x100 * (b[4 * i + 1] as int) + 0x1_0000 * (b[4 * i + 2] as int) +
      0x100_0000 * (b[4 * i + 3] as int)
  }

  /** ((zone_t *)data)[i] = z */
  function PutZone(b: Block, i: nat, z: zone): Block
    requires i < ZonesPerBlock
  {
    b[4 * i := z % 0x100][4 * i + 1 := z / 0x100 % 0x100]
      [4 * i + 2 := z / 0x1_0000 % 0x100][4 * i + 3 := z / 0x100_0000]
  }

  /** Storing one zone number changes that entry of the block and no other. */
  lemma ZoneAtPutZone(b: Block, i: nat, z: zone, j: nat)
    requires i < ZonesPerBlock && j < ZonesPerBlock
    ensures ZoneAt(PutZone(b, i, z), j) == if j == i then z else ZoneAt(b, j)
  {
    var b' := PutZone(b, i, z);
    if j == i {
      assert b'[4 * i] == z % 0x100;
      assert b'[4 * i + 1] == z / 0x100 % 0x100;
      assert b'[4 * i + 2] == z / 0x1_0000 % 0x100;
      assert b'[4 * i + 3] == z / 0x100_0000;
      assert z / 0x1_0000 == (z / 0x100) / 0x100 && z / 0x100_0000 == (z / 0x1_0000) / 0x100;
    }
  }

  /** A zone number is stored in the four bytes of its entry, low byte first, and in no others. */
  lemma LowByteFirst(b: Block, i: nat, z: zone)
    requires i < ZonesPerBlock
    ensures
      var b' := PutZone(b, i, z);
      && z == (b'[4 * i] as int) + 0x100 * (b'[4 * i + 1] as int) + 0x1_0000 * (b'[4 * i + 2] as int) +
           0x100_0000 * (b'[4 * i + 3] as int)
      && forall k :: 0 <= k < 1024 && !(4 * i <= k < 4 * i + 4) ==> b'[k] == b[k]
  {
    ZoneAtPutZone(b, i, z, i);
  }

  /** memcpy(&b_data[off], data, |data|) */
  function Overwrite(b: Block, off: nat, data: seq<byte>): Block
    requires off + |data| <= BlockSize
  {
    b[..off] + data + b[off + |data|..]
  }

  /** data in place of the bytes of s from pos on. */
  function Splice(s: seq<byte>, pos: nat, data: seq<byte>): (r: seq<byte>)
    requires pos + |data| <= |s|
    ensures |r| == |s|
  {
    s[..pos] + data + s[pos + |data|..]
  }
}
