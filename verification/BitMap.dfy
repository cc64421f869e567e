/**
 The inode and zone bitmaps of fs/super.c with their search hints: bitalloc, bitfree and
 get_free_bits_nr. One object stands for either map: its bits, its largest usable bit
 (s_ninodes, or s_zones - s_fdzone), the offset from bits to numbers (0, or s_fdzone - 1)
 and its hint (s_isearch or s_zsearch). A 32-bit word is its 32 bits, lowest first.
 */
module BitMap {

  const BitsPerBlock: nat := 8192
  const WordBits: nat := 32
  const NoBit: nat := 0

  predicate FullWord(bits: seq<bool>, k: nat)
    requires k + WordBits <= |bits|
  {
    forall j :: k <= j < k + WordBits ==> bits[j]
  }

  ghost predicate SetBelow(bits: seq<bool>, n: nat) {
    forall b :: 0 <= b < n && b < |bits| ==> bits[b]
  }

  /** How many of the first n bits are clear. */
  ghost function ClearCount(bits: seq<bool>, n: nat): nat
    requires n <= |bits|
  {
    if n == 0 then 0 else ClearCount(bits, n - 1) + (if bits[n - 1] then 0 else 1)
  }

  /** Setting a clear bit lowers the count by one, clearing a set bit raises it by one. */
  lemma {:induction false} ClearCountUpdate(bits: seq<bool>, b: nat, v: bool, n: nat)
    requires b < |bits| && n <= |bits|
    ensures
      ClearCount(bits[b := v], n) ==
      ClearCount(bits, n) + (if b < n then (if bits[b] then 1 else 0) - (if v then 1 else 0) else 0)
  {
    if n > 0 {
      ClearCountUpdate(bits, b, v, n - 1);
    }
  }

  lemma {:induction false} ClearCountZero(bits: seq<bool>, n: nat)
    requires n <= |bits|
    ensures ClearCount(bits, n) == 0 <==> SetBelow(bits, n)
  {
    if n > 0 {
      ClearCountZero(bits, n - 1);
    }
  }

  class BitMap {
    const maxBit: nat
    const base: nat
    const readOnly: bool
    var bits: seq<bool>
    var search: nat

    /** On-disk layout (whole blocks, bit 0 reserved) and the promise of the hint. */
    ghost predicate Valid()
      reads this
    {
      && |bits| % 8192 == 0 && 0 < maxBit < |bits|
      && bits[0]
      && SetBelow(bits, search)
    }

    ghost function Free(): nat
      reads this
      requires Valid()
    {
      ClearCount(bits, maxBit + 1)
    }

    /** A freshly read super block: the hint is 0. */
    constructor (bits: seq<bool>, maxBit: nat, base: nat, readOnly: bool)
      requires |bits| % 8192 == 0 && 0 < maxBit < |bits| && bits[0]
      ensures Valid() && this.bits == bits && this.maxBit == maxBit && this.base == base && this.readOnly == readOnly
      ensures search == 0
    {
      this.bits, this.maxBit, this.base, this.readOnly := bits, maxBit, base, readOnly;
      search := 0;
    }

    /** The lowest clear bit of block, if it has one: the word loop, then the bit loop. */
    method ScanBlock(block: nat) returns (found: bool, bit: nat)
      requires Valid() && (block + 1) * 8192 <= |bits|
      ensures found ==> block * 8192 <= bit < (block + 1) * 8192 && !bits[bit]
      ensures forall b :: block * 8192 <= b < (if found then bit else (block + 1) * 8192) ==> bits[b]
    {
      var start := block * 8192;
      var i := 0;
      while i < BitsPerBlock / 32 && FullWord(bits, start + i * 32)
        invariant 0 <= i <= BitsPerBlock / 32
        invariant forall b :: start <= b < start + i * 32 ==> bits[b]
      {
        i := i + 1;
      }
      if i >= BitsPerBlock / 32 {
        return false, 0;
      }
      var word := start + i * 32;
      var j := 0;
      while bits[word + j]
        invariant 0 <= j < WordBits
        invariant forall b :: start <= b < word + j ==> bits[b]
        decreases WordBits - j
      {
        assert exists b :: word <= b < word + WordBits && !bits[b];
        j := j + 1;
      }
      return true, word + j;
    }

    /**
     bitalloc: sets the lowest clear bit of the whole map, although the scan starts at the
     hint's block; returns NOBIT exactly when no usable bit is clear.
     */
    method Alloc() returns (r: nat)
      requires Valid()
      modifies this
      ensures Valid()
      ensures r == NoBit <==> readOnly || old(Free()) == 0
      ensures r == NoBit ==> bits == old(bits) && search == old(search)
      ensures r != NoBit ==>
        && base < r <= base + maxBit
        && !old(bits)[r - base] && SetBelow(old(bits), r - base)
        && bits == old(bits)[r - base := true] && search == r - base + 1
        && Free() == old(Free()) - 1
    {
      ClearCountZero(bits, maxBit + 1);
      if readOnly {
        return NoBit;
      }
      var fromBit := if search > maxBit then 1 else search;
      var block := fromBit / 8192;
      while block < |bits| / 8192
        invariant 0 <= block <= |bits| / 8192
        invariant bits == old(bits) && search == old(search)
        invariant SetBelow(bits, block * 8192)
      {
        var found, bit := ScanBlock(block);
        if found {
          if bit > maxBit {
            return NoBit;
          }
          ClearCountUpdate(bits, bit, true, maxBit + 1);
          bits := bits[bit := true];
          search := bit + 1;
          return bit + base;
        }
        block := block + 1;
      }
      r := NoBit;
    }

    /** Whether bitfree clears the bit of number r: the largest usable bit is refused. */
    predicate Accepts(r: nat) {
      !readOnly && base <= r < base + maxBit
    }

    /**
     bitfree: clears one bit. The hint is compared with, and lowered to, the bit's position
     within its block, which is never above the bit itself.
     */
    method Release(r: nat)
      requires Valid() && r != base
      modifies this
      ensures Valid()
      ensures bits == if Accepts(r) then old(bits)[r - base := false] else old(bits)
      ensures
        search == if Accepts(r) && (r - base) % 8192 < old(search) then (r - base) % 8192 else old(search)
      ensures Free() == old(Free()) + if Accepts(r) && old(bits)[r - base] then 1 else 0
    {
      if readOnly {
        return;
      }
      if r < base || r - base > maxBit - 1 {
        return;
      }
      var bit := r - base;
      ClearCountUpdate(bits, bit, false, maxBit + 1);
      bits := bits[bit := false];
      bit := bit % 8192;
      if bit < search {
        search := bit;
      }
    }

    /** get_zero_bits on the word at position k: clear bits among its lowest n. */
    method ZeroBits(k: nat, n: nat) returns (count: nat)
      requires Valid() && n <= WordBits && k + n <= |bits|
      ensures count == ClearCount(bits, k + n) - ClearCount(bits, k)
    {
      count := 0;
      for i := 0 to n
        invariant count == ClearCount(bits, k + i) - ClearCount(bits, k)
      {
        if !bits[k + i] {
          count := count + 1;
        }
      }
    }

    /** get_free_bits_nr: the block and word loops count exactly the clear usable bits. */
    method CountFree() returns (count: nat)
      requires Valid()
      ensures count == Free()
    {
      count := 0;
      var bit, block := 0, 0;
      while block < |bits| / 8192 && bit <= maxBit
        invariant 0 <= block <= |bits| / 8192
        invariant bit <= maxBit ==> bit == block * 8192
        invariant bit <= maxBit + 1
        invariant count == ClearCount(bits, bit)
      {
        var i := 0;
        while i < BitsPerBlock / 32 && bit <= maxBit
          invariant 0 <= i <= BitsPerBlock / 32
          invariant bit <= maxBit ==> bit == block * 8192 + i * 32
          invariant bit <= maxBit + 1
          invariant count == ClearCount(bits, bit)
        {
          var bitNum := if bit + WordBits > maxBit then maxBit - bit + 1 else WordBits;
          var c := ZeroBits(bit, bitNum);
          count := count + c;
          bit := bit + bitNum;
          i := i + 1;
        }
        block := block + 1;
      }
    }
  }
}
