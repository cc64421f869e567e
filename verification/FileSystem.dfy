/**
 Files on one device: minode (fs/util.c), the regular-file paths of do_read and do_write
 (fs/read.c, fs/write.c) and truncate (fs/link.c), over the zone trees and the zone bitmap.
 The device is seen through the buffer cache, as its logical blocks; transfers do not fail.
 */
module FileSystem {
  import opened Blocks
  import opened Sequences
  import opened ZoneTree
  import opened ZoneNeeds
  import BitMap

  /** do_write's return value: the count, or -EFBIG, or -EIO. */
  datatype WriteResult = Wrote(count: nat) | FileTooBig | IoError

  /** How many bytes of data a write at pos took, by its result and the new position. */
  function Taken(r: WriteResult, pos: nat, newPos: nat): nat {
    match r
    case Wrote(count) => count
    case FileTooBig => if pos < FileSizeMax then FileSizeMax - pos else 0
    case IoError => if pos < newPos then newPos - pos else 0
  }

  /** The state that a truncation starts from. */
  datatype Before = Before(vol: Volume, owner: Owners, lost: set<nat>)

  class FileSystem {
    const zmap: BitMap.BitMap
    var vol: Volume
    /** The slot that refers to each zone in use. */
    ghost var owner: Owners
    /** Zones marked in the bitmap that no slot refers to: refused by bitfree. */
    ghost var lost: set<nat>

    ghost predicate Tree()
      reads this, zmap
    {
      && zmap.Valid() && !zmap.readOnly
      && |vol.blocks| == zmap.base + zmap.maxBit + 1 <= 0x1_0000_0000
      && Owned(vol, owner)
      && (forall z :: z in owner ==> zmap.base < z)
      && (forall z :: z in lost ==> z == |vol.blocks| - 1 && z !in owner)
    }

    /** Zone conservation: the bits set are those of zones in use, lost zones, and zones just allocated. */
    ghost predicate Accounts(held: set<nat>)
      reads this, zmap
    {
      && (forall z :: z in held ==> z !in owner && z !in lost)
      && (forall z :: zmap.base < z < |vol.blocks| && z - zmap.base < |zmap.bits| ==>
            (zmap.bits[z - zmap.base] <==> z in owner || z in lost || z in held))
    }

    ghost predicate Valid()
      reads this, zmap
    {
      Tree() && Accounts({}) && Sized(vol, owner) && ZeroTail(vol)
    }

    /** A device with n newly allocated inodes (ialloc) and every usable zone free. */
    constructor (zmap: BitMap.BitMap, blocks: seq<Block>, n: nat)
      requires zmap.Valid() && !zmap.readOnly
      requires |blocks| == zmap.base + zmap.maxBit + 1 <= 0x1_0000_0000
      requires forall b :: 0 < b <= zmap.maxBit ==> !zmap.bits[b]
      ensures Valid() && this.zmap == zmap && |vol.files| == n && owner == map[] && lost == {}
      ensures forall f :: 0 <= f < n ==> vol.files[f].size == 0
    {
      this.zmap := zmap;
      vol := Volume(seq(n, _ => Inode(seq(10, _ => NoZone), 0)), blocks);
      owner := map[];
      lost := {};
      new;
      forall f: nat, s: Slot ensures Ref(vol, f, s) == NoZone {
        EmptyRef(vol, f, s);
      }
    }

    /** bitalloc on the zone map: a zone that is in no tree. */
    method TakeZone(ghost held: set<nat>) returns (z: zone)
      requires Tree() && Accounts(held)
      modifies zmap
      ensures Tree()
      ensures z == NoZone <==> old(zmap.Free()) == 0
      ensures zmap.Free() == old(zmap.Free()) - if z == NoZone then 0 else 1
      ensures z == NoZone ==> Accounts(held)
      ensures z != NoZone ==>
        zmap.base < z < |vol.blocks| && z !in held && z !in owner && z !in lost && Accounts(held + {z as nat})
    {
      z := zmap.Alloc();
    }

    /** Blanks the block of a zone and makes it a table by storing it in an empty slot. */
    method NewTable(f: nat, s: Slot, z: zone, ghost held: set<nat>)
      requires Tree() && Accounts(held + {z as nat})
      requires HasTable(vol, f, s) && s.IsTable() && Ref(vol, f, s) == NoZone
      requires zmap.base < z < |vol.blocks| && z !in held
      modifies this`vol, this`owner
      ensures Tree() && Accounts(held)
      ensures Sizes(vol) == Sizes(old(vol)) && DataKept(old(vol), vol, old(owner), held)
      ensures owner == old(owner)[z := Owner(f, s)]
    {
      AdoptTable(vol, owner, f, s, z, held);
      vol := StoreTable(vol, f, s, z);
      owner := owner[z := Owner(f, s)];
    }

    /** Stores a data zone in an empty data slot. */
    method StoreData(f: nat, s: Slot, z: zone, ghost held: set<nat>)
      requires Tree() && Accounts(held + {z as nat})
      requires HasTable(vol, f, s) && !s.IsTable() && Ref(vol, f, s) == NoZone
      requires zmap.base < z < |vol.blocks| && z !in held
      modifies this`vol, this`owner
      ensures Tree() && Accounts(held)
      ensures Sizes(vol) == Sizes(old(vol)) && DataKept(old(vol), vol, old(owner), held + {z as nat})
      ensures owner == old(owner)[z := Owner(f, s)]
    {
      AdoptData(vol, owner, f, s, z, held + {z as nat});
      vol := Store(vol, f, s, z);
      owner := owner[z := Owner(f, s)];
    }

    /** Makes sure slot s holds a table, allocating one when it is empty. */
    method NeedTable(f: nat, s: Slot, ghost held: set<nat>) returns (ok: bool)
      requires Tree() && Accounts(held) && HasTable(vol, f, s) && s.IsTable()
      modifies this`vol, this`owner, zmap
      ensures Tree() && Accounts(held)
      ensures Sizes(vol) == Sizes(old(vol)) && DataKept(old(vol), vol, old(owner), held)
      ensures forall y :: y in old(owner) ==> y in owner && owner[y] == old(owner)[y]
      ensures forall y :: y in owner && y !in old(owner) ==> ok && owner[y] == Owner(f, s)
      ensures ok ==> !Unmapped(owner, f, s)
      ensures
        var need := if Ref(old(vol), f, s) == NoZone then 1 else 0;
        && (ok <==> need <= old(zmap.Free())) && zmap.Free() == (if ok then old(zmap.Free()) - need else 0)
        && (need == 0 ==> vol == old(vol) && owner == old(owner))
    {
      UnmappedIff(vol, owner, f, s);
      if Ref(vol, f, s) == NoZone {
        var t := TakeZone(held);
        if t == NoZone {
          return false;
        }
        NewTable(f, s, t, held);
      }
      ok := true;
    }

    /** The three levels of minode: none, one or two tables lead to a data slot. */
    method NeedTables(f: nat, s: Slot, ghost held: set<nat>) returns (ok: bool)
      requires Tree() && Accounts(held) && f < |vol.files| && !s.IsTable()
      modifies this`vol, this`owner, zmap
      ensures Tree() && Accounts(held)
      ensures Sizes(vol) == Sizes(old(vol)) && DataKept(old(vol), vol, old(owner), held)
      ensures TablesAdded(old(owner), owner, f, s, ok)
      ensures ok ==> s.Top? || !Unmapped(owner, f, Parent(s))
      ensures
        var need := TableNeed(old(vol), f, s);
        (ok <==> need <= old(zmap.Free())) && zmap.Free() == if ok then old(zmap.Free()) - need else 0
      ensures s.Leaf2? && old(zmap.Free()) > 0 ==> !Unmapped(owner, f, Double)
    {
      match s
      case Top(_) =>
        ok := true;
      case Leaf1(_) =>
        ok := NeedTable(f, Single, held);
      case Leaf2(k, _) =>
        ok := NeedDouble(f, k, held);
    }

    method NeedDouble(f: nat, k: nat, ghost held: set<nat>) returns (ok: bool)
      requires Tree() && Accounts(held) && f < |vol.files| && k < ZonesPerBlock
      modifies this`vol, this`owner, zmap
      ensures Tree() && Accounts(held)
      ensures Sizes(vol) == Sizes(old(vol)) && DataKept(old(vol), vol, old(owner), held)
      ensures forall y :: y in old(owner) ==> y in owner && owner[y] == old(owner)[y]
      ensures forall y :: y in owner && y !in old(owner) ==>
        owner[y].file == f && (owner[y].slot == Double || (ok && owner[y].slot == Mid(k)))
      ensures ok ==> !Unmapped(owner, f, Mid(k))
      ensures
        var double := if Ref(old(vol), f, Double) == NoZone then 1 else 0;
        var need := double + if Ref(old(vol), f, Mid(k)) == NoZone then 1 else 0;
        (ok <==> need <= old(zmap.Free())) && zmap.Free() == if ok then old(zmap.Free()) - need else 0
      ensures old(zmap.Free()) > 0 ==> !Unmapped(owner, f, Double)
    {
      hide Owned, Accounts;
      UnmappedIff(vol, owner, f, Mid(k));
      NothingUnderMissing(vol, f, k);
      ok := NeedTable(f, Double, held);
      UnmappedIff(vol, owner, f, Mid(k));
      if ok {
        UnmappedIff(vol, owner, f, Double);
        RefOwned(vol, owner, f, Double);
        ok := NeedTable(f, Mid(k), held);
      }
    }

    /** Stores z in data slot s after making sure of the tables above it. */
    method MapSlot(f: nat, s: Slot, z: zone, ghost held: set<nat>) returns (ok: bool)
      requires Tree() && Accounts(held + {z as nat}) && f < |vol.files| && !s.IsTable()
      requires zmap.base < z < |vol.blocks| && z !in held && Unmapped(owner, f, s)
      modifies this`vol, this`owner, zmap
      ensures Tree() && Accounts(if ok then held else held + {z as nat})
      ensures Sizes(vol) == Sizes(old(vol)) && DataKept(old(vol), vol, old(owner), held + {z as nat})
      ensures Grown(old(owner), owner, f, s, z, ok)
      ensures
        var need := TableNeed(old(vol), f, s);
        (ok <==> need <= old(zmap.Free())) && zmap.Free() == if ok then old(zmap.Free()) - need else 0
      ensures s.Leaf2? && old(zmap.Free()) > 0 ==> !Unmapped(owner, f, Double)
    {
      hide Owned, TableNeed, Above, Ref, Unmapped;
      ghost var owner0 := owner;
      ok := NeedTables(f, s, held + {z as nat});
      if ok {
        ReadyToStore(vol, owner0, owner, f, s, z);
        StillMapped(owner, owner[z := Owner(f, s)], f, Double);
        StoreData(f, s, z, held);
      }
    }

    /**
     minode: maps block n of file f to zone z, allocating the tables on the way. It can fail
     only for want of zones, and then at most an empty double indirect table has been added.
     */
    method Minode(f: nat, n: nat, z: zone, ghost held: set<nat>) returns (ok: bool)
      requires Tree() && Accounts(held + {z as nat}) && f < |vol.files| && n < MaxBlocks
      requires zmap.base < z < |vol.blocks| && z !in held
      requires Lookup(vol, f, n) == NoZone
      modifies this`vol, this`owner, zmap
      ensures Tree() && Accounts(if ok then held else held + {z as nat})
      ensures Sizes(vol) == Sizes(old(vol)) && DataKept(old(vol), vol, old(owner), held + {z as nat})
      ensures Grown(old(owner), owner, f, SlotOf(n), z, ok)
      ensures LensAfter(old(vol), vol, f, n, z, ok)
      ensures ok ==> PathFilled(old(vol), vol, f, n)
      ensures
        var need := TableNeed(old(vol), f, SlotOf(n));
        (ok <==> need <= old(zmap.Free())) && zmap.Free() == if ok then old(zmap.Free()) - need else 0
      ensures n >= 263 && old(zmap.Free()) > 0 ==> !Unmapped(owner, f, Double)
    {
      hide PathFilled, LensAfter, Owned, DataKept;
      UnmappedIff(vol, owner, f, SlotOf(n));
      ok := MapSlot(f, SlotOf(n), z, held);
      GrownLensAll(old(vol), old(owner), vol, owner, f, n, z, ok);
      if ok {
        GrownFills(old(vol), old(owner), vol, owner, f, n, z);
      }
    }

    /** bitfree on a zone just allocated. The last zone of the device is refused, and lost. */
    method GiveBack(z: zone)
      requires Tree() && Accounts({z as nat}) && zmap.base < z < |vol.blocks|
      modifies zmap, this`lost
      ensures Tree() && Accounts({})
      ensures lost == old(lost) + if z == |vol.blocks| - 1 then {z as nat} else {}
      ensures zmap.Free() == old(zmap.Free()) + if z == |vol.blocks| - 1 then 0 else 1
    {
      zmap.Release(z);
      if !zmap.Accepts(z) {
        lost := lost + {z as nat};
      }
    }

    /** The zone for block n of file f, and what the block holds: found by bmap, or allocated and mapped. */
    method MapForWrite(f: nat, n: nat, off: nat) returns (ok: bool, z: zone, b: Block)
      requires Tree() && Accounts({}) && f < |vol.files| && n < MaxBlocks && off < BlockSize
      modifies this`vol, this`owner, this`lost, zmap
      ensures Tree() && Accounts({}) && Sizes(vol) == Sizes(old(vol))
      ensures DataKept(old(vol), vol, old(owner), {})
      ensures GrownTo(old(owner), owner, f, n, ok)
      ensures LensAfter(old(vol), vol, f, n, z, ok)
      ensures ok ==> z in owner && owner[z] == Owner(f, SlotOf(n)) && b == BlockAt(old(vol), f, n)
      ensures ok ==> PathFilled(old(vol), vol, f, n)
      ensures ok <==> BlockNeed(old(vol), f, 0, 0, n) <= old(zmap.Free())
      ensures ok ==> zmap.Free() == old(zmap.Free()) - BlockNeed(old(vol), f, 0, 0, n)
      ensures !ok && n >= 263 && old(zmap.Free()) > 1 ==> !Unmapped(owner, f, Double)
    {
      hide PathFilled, BlockNeed, Bmap;
      BlockNeedIs(vol, f, n);
      BmapInBlock(vol, f, n, off);
      z, b := Bmap(vol.files[f], vol.blocks, n * 1024 + off), ZeroBlock();
      RefOwned(vol, owner, f, SlotOf(n));
      if z != NoZone {
        AlreadyFilled(vol, f, n);
        return true, z, vol.blocks[z];
      }
      z := TakeZone({});
      if z == NoZone {
        return false, z, b;
      }
      ok := Minode(f, n, z, {});
      GrownIsGrownTo(old(owner), owner, f, n, z, ok);
      if !ok {
        GiveBack(z);
      }
    }

    /** Copies bytes into one block of a file, mapping the block if need be. */
    method WriteBlock(f: nat, n: nat, off: nat, chunk: seq<byte>) returns (ok: bool)
      requires Valid() && f < |vol.files| && n < MaxBlocks && off + |chunk| <= BlockSize && chunk != []
      modifies this`vol, this`owner, this`lost, zmap
      ensures Valid()
      ensures ok ==> BytesAfter(old(vol), vol, f, n * 1024 + off, chunk)
      ensures ok ==> Sizes(vol) == Sizes(old(vol))[f := Max(Sizes(old(vol))[f], n * 1024 + off + |chunk|)]
      ensures !ok ==> BytesAfter(old(vol), vol, f, 0, []) && Sizes(vol) == Sizes(old(vol))
      ensures ok ==> PathFilled(old(vol), vol, f, n)
      ensures ok <==> BlockNeed(old(vol), f, 0, 0, n) <= old(zmap.Free())
      ensures ok ==> zmap.Free() == old(zmap.Free()) - BlockNeed(old(vol), f, 0, 0, n)
      ensures !ok && n >= 263 && old(zmap.Free()) > 1 ==> !Unmapped(owner, f, Double)
    {
      hide Owned, DataKept, GrownTo, LensAfter, BytesAfter, Sized, ZeroTail, PathFilled, BlockNeed, SameRefs;
      var z, b;
      ok, z, b := MapForWrite(f, n, off);
      if ok {
        ghost var v1 := vol;
        vol := CopyChunk(old(vol), old(owner), vol, owner, f, n, z, b, off, chunk);
        SameRefsFilled(old(vol), v1, vol, f, n);
      } else {
        NothingWritten(old(vol), old(owner), vol, owner, f, n, z);
      }
    }

    /**
     What errout of do_write does to the size: the file reaches up to the position, even if nothing
     was written there.
     */
    method StretchTo(f: nat, pos: nat)
      requires Valid() && f < |vol.files| && pos <= FileSizeMax
      modifies this`vol
      ensures Valid()
      ensures BytesAfter(old(vol), vol, f, 0, []) && Sizes(vol) == Sizes(old(vol))[f := Max(Sizes(old(vol))[f], pos)]
    {
      ghost var v := vol;
      var size := Max(vol.files[f].size, pos);
      ResizeKeeps(vol, owner, f, size);
      vol := Resize(vol, f, size);
      SameBlocksSameBytes(v, vol, f);
      ZeroTailAfter(v, vol, f, 0, [], size);
      SizedAfter(v, owner, vol, owner, f, 0, false, size);
    }

    /** do_read on a regular file: the bytes from the position up to the count or the file's end. */
    method DoRead(f: nat, pos: nat, count: nat) returns (data: seq<byte>, newPos: nat)
      requires Valid() && f < |vol.files|
      ensures newPos == pos + |data|
      ensures |data| == if pos < vol.files[f].size then Min(count, vol.files[f].size - pos) else 0
      ensures data == [] || data == Contents(vol)[f][pos..pos + |data|]
    {
      data, newPos := ReadBytes(vol, owner, f, pos, count);
    }

    /**
     One pass of do_write's copying: at most the rest of the block that the position is in.
     It fails exactly if the block needs more zones than are free.
     */
    method WritePiece(f: nat, pos: nat, data: seq<byte>, done: nat, ghost v: Volume) returns (ok: bool, done': nat)
      requires Valid() && f < |vol.files| && pos + done < FileSizeMax && done < |data|
      requires Written(v, vol, f, pos, data, done)
      modifies this`vol, this`owner, this`lost, zmap
      ensures Valid() && Written(v, vol, f, pos, data, done')
      ensures done' == if ok then done + PieceLength(pos, done, |data|) else done
      ensures
        var n := (pos + done) / 1024;
        && (ok ==> PathFilled(old(vol), vol, f, n) && zmap.Free() == old(zmap.Free()) - BlockNeed(old(vol), f, 0, 0, n))
        && (ok <==> BlockNeed(old(vol), f, 0, 0, n) <= old(zmap.Free()))
        && (!ok && n >= 263 && old(zmap.Free()) > 1 ==> !Unmapped(owner, f, Double))
    {
      hide PathFilled, BlockNeed, Owned, Sized, ZeroTail;
      var n, off := Locate(pos + done);
      var writing := Min(1024 - off, |data| - done);
      ghost var v1 := vol;
      ok := WriteBlock(f, n, off, data[done..done + writing]);
      done' := done;
      if ok {
        PieceWritten(v, v1, vol, f, pos, data, done, writing);
        done' := done + writing;
      } else {
        EmptyBytesAfter(v1, vol, f, 0);
      }
    }

    /**
     The copying of do_write: a partial first block, then whole blocks, then a partial last
     block, until all is written, the size limit is reached, or zones run out, which they do
     exactly if the blocks need more than were free; then the first one that went wanting is at
     the position reached.
     */
    method WritePieces(f: nat, pos: nat, data: seq<byte>) returns (done: nat, ok: bool)
      requires Valid() && f < |vol.files|
      modifies this`vol, this`owner, this`lost, zmap
      ensures Valid() && Written(old(vol), vol, f, pos, data, done)
      ensures ok && done < |data| ==> pos + done >= FileSizeMax
      ensures !ok ==> done < |data| && pos + done < FileSizeMax
      ensures ok <==> WriteNeed(old(vol), f, pos, |data|) <= old(zmap.Free())
      ensures ok ==> zmap.Free() == old(zmap.Free()) - WriteNeed(old(vol), f, pos, |data|)
      ensures !ok ==>
        var n := (pos + done) / 1024;
        && Need(old(vol), f, pos / 1024, n) <= old(zmap.Free()) < Need(old(vol), f, pos / 1024, n + 1)
        && (n >= 263 && old(zmap.Free()) > 1 + Need(old(vol), f, pos / 1024, n) ==> !Unmapped(owner, f, Double))
    {
      hide Spent, PathFilled, BlockNeed, Need, Owned, Sized, ZeroTail;
      hide Accounts, BlockEnd, AtBlock, PieceLength, WriteNeed;
      done, ok := 0, true;
      ghost var free0, v0 := zmap.Free(), vol;
      ghost var n: nat := pos / 1024;
      AtStart(pos, |data|);
      if pos < FileSizeMax {
        SpentNothing(vol, free0, f, n);
      }
      while ok && done < |data| && pos + done < FileSizeMax
        invariant Valid() && Written(v0, vol, f, pos, data, done)
        invariant AtBlock(pos, done, |data|, n)
        invariant !ok ==> done < |data| && pos + done < FileSizeMax
        invariant pos >= FileSizeMax ==> done == 0 && ok && zmap.Free() == free0
        invariant ok && pos < FileSizeMax ==> Spent(v0, free0, f, pos / 1024, n, vol, zmap.Free())
        invariant !ok ==>
          && n == (pos + done) / 1024 < MaxBlocks
          && Need(v0, f, pos / 1024, n) <= free0 < Need(v0, f, pos / 1024, n + 1)
          && (n >= 263 && free0 > 1 + Need(v0, f, pos / 1024, n) ==> !Unmapped(owner, f, Double))
        decreases ok, |data| - done
      {
        ghost var v1, free1 := vol, zmap.Free();
        AtNext(pos, done, |data|, n);
        SpentBound(v0, free0, f, pos / 1024, n, v1, free1);
        SpentMore(v0, free0, f, pos / 1024, n, v1, free1, v1, free1 - BlockNeed(v1, f, 0, 0, n));
        ok, done := WritePiece(f, pos, data, done, v0);
        if ok {
          SpentMore(v0, free0, f, pos / 1024, n, v1, free1, vol, zmap.Free());
          n := n + 1;
        }
      }
      WriteEnd(v0, free0, f, pos, |data|, done, n, ok, vol, zmap.Free());
    }

    /**
     do_write on a regular file, as a write to an array of bytes. An error also leaves an array
     write behind, of the bytes that were written: for want of zones the file is even stretched
     with zeros up to the position, and past the size limit the file position stays put. Zones
     are wanting exactly if fewer are free than the blocks of the write and the tables above
     them need. A double indirect table got on the way to a block that fails stays.
     */
    method DoWrite(f: nat, pos: nat, data: seq<byte>) returns (r: WriteResult, newPos: nat)
      requires Valid() && f < |vol.files|
      modifies this`vol, this`owner, this`lost, zmap
      ensures Valid()
      ensures r.IoError? <==> old(zmap.Free()) < WriteNeed(old(vol), f, pos, |data|)
      ensures !r.IoError? ==> (r.FileTooBig? <==> data != [] && pos + |data| > FileSizeMax)
      ensures !r.IoError? ==> zmap.Free() == old(zmap.Free()) - WriteNeed(old(vol), f, pos, |data|)
      ensures r.Wrote? ==> r.count == |data| && newPos == pos + |data|
      ensures r.FileTooBig? ==> newPos == pos
      ensures r.IoError? ==> pos <= newPos < pos + |data| && newPos < FileSizeMax
      ensures r.IoError? ==>
        var n := newPos / 1024;
        && Need(old(vol), f, pos / 1024, n) <= old(zmap.Free()) < Need(old(vol), f, pos / 1024, n + 1)
        && (n >= 263 && old(zmap.Free()) > 1 + Need(old(vol), f, pos / 1024, n) ==> !Unmapped(owner, f, Double))
      ensures
        var k := Taken(r, pos, newPos);
        && k <= |data|
        && Contents(vol) ==
           if k == 0 && !r.IoError? then Contents(old(vol))
           else Contents(old(vol))[f := ArrayWrite(Contents(old(vol))[f], pos, data[..k])]
    {
      hide WriteNeed, Need, Owned, Sized, ZeroTail, Accounts, Unmapped;
      var done, ok := WritePieces(f, pos, data);
      newPos := pos + done;
      if ok {
        WrittenContents(old(vol), vol, f, pos, data, done);
        if done == |data| {
          r := Wrote(done);
        } else {
          r, newPos := FileTooBig, pos;
        }
      } else {
        ghost var v1 := vol;
        StretchTo(f, newPos);
        StretchedContents(old(vol), v1, vol, f, pos, data, done);
        r := IoError;
      }
    }

    /** NOZONE in a slot: its zone is in no tree any more. */
    method Detach(f: nat, s: Slot) returns (z: zone)
      requires Tree() && Accounts({}) && HasTable(vol, f, s) && (s.IsTable() ==> Childless(vol, f, s))
      requires Ref(vol, f, s) != NoZone
      modifies this`vol, this`owner
      ensures z == Ref(old(vol), f, s) && zmap.base < z < |vol.blocks|
      ensures Tree() && Accounts({z as nat})
      ensures Sizes(vol) == Sizes(old(vol)) && DataKept(old(vol), vol, old(owner), {})
      ensures owner == old(owner) - {z as nat}
    {
      hide Childless, Owned;
      z := Ref(vol, f, s);
      RefOwned(vol, owner, f, s);
      EmptySlot(vol, owner, f, s);
      vol := Store(vol, f, s, NoZone);
      owner := owner - {z as nat};
    }

    /** Truncation of file f in progress: the slots in done are empty, and the zones in freed were freed, each once. */
    ghost predicate Clearing(before: Before, f: nat, done: iset<Slot>, freed: seq<nat>)
      reads this, zmap
    {
      && Tree() && Accounts({})
      && Emptied(before.owner, owner, f, done, freed) && OthersKept(before.vol, vol, before.owner, f)
      && LostAfter(before.lost, lost, |vol.blocks| - 1, freed) && f < |vol.files|
    }

    /** Empties a slot and frees its zone, if it has one. */
    method FreeSlot(f: nat, s: Slot, ghost before: Before, ghost done: iset<Slot>, ghost freed: seq<nat>)
      returns (ghost freed': seq<nat>)
      requires Clearing(before, f, done, freed)
      requires HasTable(vol, f, s) && (s.IsTable() ==> Childless(vol, f, s))
      modifies this`vol, this`owner, this`lost, zmap
      ensures Clearing(before, f, done + iset{s}, freed')
    {
      hide Emptied, OthersKept, DataKept, Childless, Owned, HasTable, Ref;
      UnmappedIff(vol, owner, f, s);
      RefOwned(vol, owner, f, s);
      OwnerUnique(vol, owner, f, s);
      EmptiedOneMore(before.owner, owner, f, done, freed, s, Ref(vol, f, s));
      freed' := freed;
      if Ref(vol, f, s) != NoZone {
        ghost var v1, owner1 := vol, owner;
        var z := Detach(f, s);
        OthersStillKept(before.vol, v1, vol, before.owner, owner1, f, done, freed);
        GiveBack(z);
        freed' := freed + [z];
      }
    }

    /** inval_block on the zone of a data slot: what the cache held of it is dropped, and its block may be anything. */
    method Invalidate(f: nat, s: Slot, ghost before: Before, ghost done: iset<Slot>, ghost freed: seq<nat>)
      requires Clearing(before, f, done, freed) && HasTable(vol, f, s) && !s.IsTable()
      modifies this`vol
      ensures Clearing(before, f, done, freed) && HasTable(vol, f, s)
    {
      hide Emptied, OthersKept, LostAfter;
      var z := Ref(vol, f, s);
      RefOwned(vol, owner, f, s);
      if z != NoZone {
        var stale: Block :| true;
        RewriteData(vol, owner, z, stale);
        OthersKeptByRewrite(before.vol, vol, before.owner, owner, f, done, freed, z, stale);
        assert !s.Top? ==> Ref(vol.(blocks := vol.blocks[z := stale]), f, Parent(s)) == Ref(vol, f, Parent(s));
        vol := vol.(blocks := vol.blocks[z := stale]);
      }
    }

    /** freezones: frees every data zone in the table of slot t. */
    method FreeZones(f: nat, t: Slot, ghost tz: nat, ghost before: Before, ghost done: iset<Slot>,
        ghost freed: seq<nat>)
      returns (ghost freed': seq<nat>)
      requires Clearing(before, f, done, freed) && t.IsTable() && t != Double
      requires tz in before.owner && before.owner[tz] == Owner(f, t) && t !in done
      modifies this`vol, this`owner, this`lost, zmap
      ensures Clearing(before, f, done + Entries(t, ZonesPerBlock), freed')
    {
      hide Emptied, OthersKept, Childless, LostAfter, Owned;
      freed' := freed;
      assert done + Entries(t, 0) == done;
      for i := 0 to ZonesPerBlock
        invariant Clearing(before, f, done + Entries(t, i), freed')
      {
        StillThere(vol, before.owner, owner, f, done + Entries(t, i), freed', t, tz);
        Invalidate(f, Entry(t, i), before, done + Entries(t, i), freed');
        freed' := FreeSlot(f, Entry(t, i), before, done + Entries(t, i), freed');
        assert done + Entries(t, i) + iset{Entry(t, i)} == done + Entries(t, i + 1) by {
          EntriesNext(t, i);
        }
      }
    }

    /** The table of slot t, if there is one: freezones on its entries, then its own zone. */
    method FreeTable(f: nat, t: Slot, ghost before: Before, ghost done: iset<Slot>, ghost freed: seq<nat>)
      returns (ghost freed': seq<nat>)
      requires Clearing(before, f, done, freed) && t.IsTable() && t != Double && t !in done && HasTable(vol, f, t)
      modifies this`vol, this`owner, this`lost, zmap
      ensures Clearing(before, f, done + Entries(t, ZonesPerBlock) + iset{t}, freed')
    {
      hide Emptied, OthersKept, Childless, LostAfter, Owned;
      freed' := freed;
      ghost var done1 := done + Entries(t, ZonesPerBlock);
      if Ref(vol, f, t) != NoZone {
        ghost var tz: nat := Ref(vol, f, t);
        OwnerBefore(vol, before.owner, owner, f, done, freed, t);
        freed' := FreeZones(f, t, tz, before, done, freed);
        StillThere(vol, before.owner, owner, f, done1, freed', t, tz);
        NowChildless(vol, before.owner, owner, f, done1, freed', t);
        TableStays(vol, owner, f, t);
        freed' := FreeSlot(f, t, before, done1, freed');
      } else {
        EmptiedAnyway(vol, before.owner, owner, f, done, freed, done1 + iset{t});
      }
    }

    /** The double indirect table, if there is one: its second-level tables, then its own zone. */
    method FreeDouble(f: nat, ghost before: Before, ghost done: iset<Slot>, ghost freed: seq<nat>)
      returns (ghost freed': seq<nat>)
      requires Clearing(before, f, done, freed) && f < |vol.files|
      requires forall s :: s in done ==> s != Double && !s.Mid?
      modifies this`vol, this`owner, this`lost, zmap
      ensures Clearing(before, f, done + Subtrees(ZonesPerBlock) + iset{Double}, freed')
    {
      hide Emptied, OthersKept, Childless, LostAfter, Owned;
      freed' := freed;
      if Ref(vol, f, Double) != NoZone {
        ghost var tz: nat := Ref(vol, f, Double);
        OwnerBefore(vol, before.owner, owner, f, done, freed, Double);
        assert done + Subtrees(0) == done;
        for k := 0 to ZonesPerBlock
          invariant Clearing(before, f, done + Subtrees(k), freed')
        {
          ghost var done1 := done + Subtrees(k);
          StillThere(vol, before.owner, owner, f, done1, freed', Double, tz);
          freed' := FreeTable(f, Mid(k), before, done1, freed');
          SubtreesNext(k);
          assert done1 + Entries(Mid(k), ZonesPerBlock) + iset{Mid(k)} == done + Subtrees(k + 1);
        }
        ghost var done2 := done + Subtrees(ZonesPerBlock);
        StillThere(vol, before.owner, owner, f, done2, freed', Double, tz);
        NowChildless(vol, before.owner, owner, f, done2, freed', Double);
        freed' := FreeSlot(f, Double, before, done2, freed');
      } else {
        NothingUnderDouble(vol, f);
        EmptiedAnyway(vol, before.owner, owner, f, done, freed, done + Subtrees(ZonesPerBlock) + iset{Double});
      }
    }

    /** The zones in the inode that hold bytes. */
    method FreeDirect(f: nat, ghost before: Before) returns (ghost freed: seq<nat>)
      requires Clearing(before, f, iset{}, [])
      modifies this`vol, this`owner, this`lost, zmap
      ensures Clearing(before, f, TopSlots(Direct), freed)
    {
      hide Emptied, OthersKept, Childless, LostAfter, Owned;
      freed := [];
      assert TopSlots(0) == iset{};
      for i := 0 to Direct
        invariant Clearing(before, f, TopSlots(i), freed)
      {
        freed := FreeSlot(f, Top(i), before, TopSlots(i), freed);
        assert TopSlots(i) + iset{Top(i)} == TopSlots(i + 1);
      }
    }

    /** truncate up to its end, where the size is reset: what the file is too short for is not looked at. */
    method FreeTree(f: nat, size: nat, ghost before: Before) returns (ghost freed: seq<nat>)
      requires Clearing(before, f, iset{}, [])
      requires Sized(before.vol, before.owner) && f < |before.vol.files| && Sizes(before.vol)[f] == size > 0
      modifies this`vol, this`owner, this`lost, zmap
      ensures Clearing(before, f, Truncated(size), freed)
    {
      hide Emptied, OthersKept, Childless, LostAfter, Owned, Sized;
      freed := FreeDirect(f, before);
      ghost var done := TopSlots(Direct);
      if size > Direct * 1024 {
        freed := FreeTable(f, Single, before, done, freed);
        done := done + Entries(Single, ZonesPerBlock) + iset{Single};
        if size > (Direct + ZonesPerBlock) * 1024 {
          freed := FreeDouble(f, before, done, freed);
          done := done + Subtrees(ZonesPerBlock) + iset{Double};
        }
      }
      RestEmpty(before.vol, before.owner, vol, owner, f, done, freed);
    }

    /**
     truncate: the file is empty and its zones are free again, each freed once; other files are
     untouched. The double indirect table of a file of at most 263 blocks stays in use, though,
     until the file has grown beyond them and is truncated again.
     */
    method Truncate(f: nat) returns (ghost freed: seq<nat>)
      requires Valid() && f < |vol.files|
      modifies this`vol, this`owner, this`lost, zmap
      ensures Valid()
      ensures Contents(vol) == Contents(old(vol))[f := []]
      ensures Emptied(old(owner), owner, f, Truncated(Sizes(old(vol))[f]), freed)
      ensures LostAfter(old(lost), lost, |vol.blocks| - 1, freed)
    {
      var size := vol.files[f].size;
      ghost var before := Before(vol, owner, lost);
      if size > 0 {
        freed := FreeTree(f, size, before);
        TruncatedContents(before.vol, before.owner, vol, owner, f, freed);
        vol := Resize(vol, f, 0);
      } else {
        freed := [];
        RestEmpty(vol, owner, vol, owner, f, iset{}, []);
      }
    }
  }

  /** The bytes of a write that go in the block of the position. */
  function PieceLength(pos: nat, done: nat, len: nat): nat
    requires done <= len
  {
    Min(1024 - (pos + done) % 1024, len - done)
  }

  /** The blocks up to n are done when done of len bytes at pos are. */
  ghost predicate AtBlock(pos: nat, done: nat, len: nat, n: nat) {
    && n == BlockEnd(pos, done) && pos / 1024 <= n && (0 < done < len ==> (pos + done) % 1024 == 0)
    && (pos < FileSizeMax ==> pos + done <= FileSizeMax && n <= MaxBlocks)
  }

  lemma AtStart(pos: nat, len: nat)
    ensures AtBlock(pos, 0, len, pos / 1024)
  {
  }

  lemma AtNext(pos: nat, done: nat, len: nat, n: nat)
    requires AtBlock(pos, done, len, n) && done < len && pos + done < FileSizeMax
    ensures n == (pos + done) / 1024 && pos / 1024 <= n < MaxBlocks
    ensures 0 < PieceLength(pos, done, len) <= len - done
    ensures AtBlock(pos, done + PieceLength(pos, done, len), len, n + 1)
  {
  }

  lemma SpentBound(v: Volume, free0: nat, f: nat, n: nat, m: nat, v': Volume, free: nat)
    requires Spent(v, free0, f, n, m, v', free)
    ensures m <= MaxBlocks && Need(v, f, n, m) == free0 - free <= free0
  {
  }

  /** The whole write's need against what was free at its start. */
  lemma WriteEnd(v: Volume, free0: nat, f: nat, pos: nat, len: nat, done: nat, n: nat, ok: bool, v': Volume, free: nat)
    requires done <= len && AtBlock(pos, done, len, n)
    requires !ok ==> done < len && n == (pos + done) / 1024 < MaxBlocks && free0 < Need(v, f, pos / 1024, n + 1)
    requires ok ==> done == len || pos + done >= FileSizeMax
    requires ok && pos < FileSizeMax ==> Spent(v, free0, f, pos / 1024, n, v', free)
    requires pos >= FileSizeMax ==> done == 0 && ok && free == free0
    ensures ok <==> WriteNeed(v, f, pos, len) <= free0
    ensures ok ==> free == free0 - WriteNeed(v, f, pos, len)
  {
    hide Need, Spent;
    var end := Min(BlockEnd(pos, len), MaxBlocks);
    if !ok {
      EndBeyond(pos, done, len);
      NeedMonotone(v, f, pos / 1024, (pos + done) / 1024 + 1, end);
    } else if pos < FileSizeMax {
      EndReached(pos, done, len);
      SpentBound(v, free0, f, pos / 1024, end, v', free);
    } else {
      NoNeed(v, f, pos / 1024, end);
    }
  }

  lemma NoNeed(v: Volume, f: nat, n: nat, m: nat)
    requires m <= n && m <= MaxBlocks
    ensures Need(v, f, n, m) == 0
  {
  }

  lemma EndBeyond(pos: nat, done: nat, len: nat)
    requires done < len && (pos + done) / 1024 < MaxBlocks
    ensures (pos + done) / 1024 + 1 <= Min(BlockEnd(pos, len), MaxBlocks)
  {
  }

  lemma EndReached(pos: nat, done: nat, len: nat)
    requires done <= len && pos < FileSizeMax && pos + done <= FileSizeMax && (done == len || pos + done == FileSizeMax)
    ensures BlockEnd(pos, done) == Min(BlockEnd(pos, len), MaxBlocks)
  {
  }

  lemma StillMapped(owner: Owners, owner': Owners, f: nat, s: Slot)
    requires forall y :: y in owner ==> y in owner' && (owner'[y] == owner[y] || owner[y] != Owner(f, s))
    ensures !Unmapped(owner, f, s) ==> !Unmapped(owner', f, s)
  {
  }

  lemma NothingUnderMissing(v: Volume, f: nat, k: nat)
    requires k < ZonesPerBlock
    ensures Ref(v, f, Double) == NoZone ==> Ref(v, f, Mid(k)) == NoZone
  {
  }

  lemma {:induction false} EmptyRef(v: Volume, f: nat, s: Slot)
    requires forall f', i :: 0 <= f' < |v.files| && 0 <= i < 10 ==> v.files[f'].zones[i] == NoZone
    ensures Ref(v, f, s) == NoZone
    decreases s.Level()
  {
    if !s.Top? {
      EmptyRef(v, f, Parent(s));
    }
  }
}
