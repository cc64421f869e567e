/**
 The zone trees of a Minix V2 file system (fs/util.c): an inode has seven direct zones, one
 single indirect and one double indirect table. Every place that can hold a zone number is a
 slot; a slot refers to a zone or, with NOZONE, to none.
 */
module ZoneTree {
  import opened Blocks
  import opened Sequences

  const NoZone: nat := 0
  /** NR_DZONES */
  const Direct: nat := 7
  /** Blocks a file can have, 7 + 256 + 256 * 256; FILESIZE_MAX is this many blocks of bytes. */
  const MaxBlocks: nat := 65799
  const FileSizeMax: nat := 67378176

  /** i_zone and i_size */
  datatype InodeRecord = Inode(zones: seq<zone>, size: nat)

  /** Ten zone numbers, the last one (a triple indirect table) unused. */
  type Inode = i: InodeRecord | |i.zones| == 10 && i.zones[9] == NoZone && i.size <= FileSizeMax
    witness Inode(seq(10, _ => NoZone), 0)

  /** The inodes and the logical blocks of one device. */
  datatype Volume = Volume(files: seq<Inode>, blocks: seq<Block>)

  datatype Place =
    | Top(i: nat)                // i_zone[i]
    | Leaf1(j: nat)              // entry j of the single indirect table
    | Mid(k: nat)                // entry k of the double indirect table
    | Leaf2(k: nat, j: nat)      // entry j of the k-th second-level table
  {
    predicate InTree() {
      match this
      case Top(i) => i < Direct + 2
      case Leaf1(j) => j < ZonesPerBlock
      case Mid(k) => k < ZonesPerBlock
      case Leaf2(k, j) => k < ZonesPerBlock && j < ZonesPerBlock
    }

    /** The zone in this slot holds zone numbers rather than file bytes. */
    predicate IsTable() {
      (Top? && i >= Direct) || Mid?
    }

    function Level(): nat {
      if Top? then 0 else if Leaf2? then 2 else 1
    }
  }

  type Slot = s: Place | s.InTree() witness Top(0)

  const Single: Slot := Top(Direct)
  const Double: Slot := Top(Direct + 1)

  /** The slot of the table that slot s is an entry of. */
  function Parent(s: Slot): (p: Slot)
    requires !s.Top?
    ensures p.IsTable() && p.Level() < s.Level()
  {
    match s
    case Leaf1(_) => Single
    case Mid(_) => Double
    case Leaf2(k, _) => Mid(k)
  }

  /** Which entry of its table slot s is. */
  function Index(s: Slot): (i: nat)
    requires !s.Top?
    ensures i < ZonesPerBlock
  {
    if s.Mid? then s.k else s.j
  }

  /** The zone number in slot s of file f. */
  function Ref(v: Volume, f: nat, s: Slot): zone
    decreases s.Level()
  {
    if f >= |v.files| then NoZone
    else if s.Top? then v.files[f].zones[s.i]
    else
      var table := Ref(v, f, Parent(s));
      if table == NoZone || table >= |v.blocks| then NoZone else ZoneAt(v.blocks[table], Index(s))
  }

  /** The slot that maps block n of a file. */
  function SlotOf(n: nat): (s: Slot)
    requires n < MaxBlocks
    ensures !s.IsTable()
  {
    if n < Direct then Top(n)
    else if n - Direct < ZonesPerBlock then Leaf1(n - Direct)
    else
      var excess := n - Direct - ZonesPerBlock;
      Leaf2(excess / 256, excess % 256)
  }

  /** The smallest block that a zone in slot s can serve; for a data slot, the block it maps. */
  function Least(s: Slot): nat {
    match s
    case Top(i) => if i <= Direct then i else Direct + ZonesPerBlock
    case Leaf1(j) => Direct + j
    case Mid(_) => Direct + ZonesPerBlock
    case Leaf2(k, j) => Direct + ZonesPerBlock + k * 256 + j
  }

  /** Distinct blocks have distinct slots. */
  lemma SlotRoundTrip(n: nat)
    requires n < MaxBlocks
    ensures Least(SlotOf(n)) == n
  {
  }

  /** Every data slot maps a block. */
  lemma BlockRoundTrip(s: Slot)
    requires !s.IsTable()
    ensures Least(s) < MaxBlocks && SlotOf(Least(s)) == s
  {
    if s.Leaf2? {
      var excess := Least(s) - Direct - ZonesPerBlock;
      assert excess == s.k * 256 + s.j;
      assert excess / 256 == s.k && excess % 256 == s.j;
    }
  }

  /**
   The slots of consecutive blocks: the seven of the inode, the entries of the single indirect table
   in turn, then those of each second-level table in turn, one table after the other.
   */
  lemma SlotNext(n: nat)
    requires n + 1 < MaxBlocks
    ensures
      var s, t := SlotOf(n), SlotOf(n + 1);
      if n < 7 then s == Top(n) && (n == 6 ==> t == Leaf1(0))
      else if n < 263 then
        s.Leaf1? && Parent(s) == Single && if n == 262 then t == Leaf2(0, 0) else t == Leaf1(s.j + 1)
      else
        s.Leaf2? && t == if (n - 263) % 256 == 255 then Leaf2(s.k + 1, 0) else Leaf2(s.k, s.j + 1)
  {
    if n >= 263 {
      DivNext(n - 263);
    }
  }

  lemma DivNext(x: nat)
    ensures
      if x % 256 == 255 then (x + 1) / 256 == x / 256 + 1 && (x + 1) % 256 == 0
      else (x + 1) / 256 == x / 256 && (x + 1) % 256 == x % 256 + 1
  {
  }

  /**
   bmap: the zone that holds a byte position, or NOBLOCK. Zones are blocks, because sread
   refuses a super block with s_lzsize other than 0.
   */
  function Bmap(ino: Inode, blocks: seq<Block>, pos: nat): zone
    requires pos < FileSizeMax
  {
    var zonePos := pos / 1024;
    if zonePos < Direct then ino.zones[zonePos]
    else
      var excess := zonePos - Direct;
      if excess < ZonesPerBlock then
        var table := ino.zones[Direct];
        if table == NoZone || table >= |blocks| then NoZone else ZoneAt(blocks[table], excess)
      else
        var double := ino.zones[Direct + 1];
        if double == NoZone || double >= |blocks| then NoZone
        else
          var excess' := excess - ZonesPerBlock;
          var table := ZoneAt(blocks[double], excess' / 256);
          if table == NoZone || table >= |blocks| then NoZone else ZoneAt(blocks[table], excess' % 256)
  }

  /**
   What bmap reads: zone j of the inode, entry j of the single indirect table, and entry j of the
   table in entry k of the double indirect one, for the blocks of the file one after the other.
   */
  lemma BmapLevels(ino: Inode, blocks: seq<Block>, k: nat, j: nat, off: nat)
    requires k < 256 && j < 256 && off < 1024
    ensures j < 7 ==> Bmap(ino, blocks, j * 1024 + off) == ino.zones[j]
    ensures
      var table := ino.zones[7];
      Bmap(ino, blocks, (7 + j) * 1024 + off) ==
      if 0 < table < |blocks| then ZoneAt(blocks[table], j) else NoZone
    ensures
      var double := ino.zones[8];
      var table := if 0 < double < |blocks| then ZoneAt(blocks[double], k) else NoZone;
      Bmap(ino, blocks, (263 + k * 256 + j) * 1024 + off) ==
      if 0 < table < |blocks| then ZoneAt(blocks[table], j) else NoZone
  {
    hide ZoneAt;
    BlockOf(j, off);
    BlockOf(7 + j, off);
    BlockOf(263 + k * 256 + j, off);
    assert (k * 256 + j) / 256 == k && (k * 256 + j) % 256 == j;
  }

  lemma BlockOf(n: nat, off: nat)
    requires off < 1024
    ensures (n * 1024 + off) / 1024 == n
  {
  }

  /** The zone of block n of file f. */
  function Lookup(v: Volume, f: nat, n: nat): zone
    requires n < MaxBlocks
  {
    Ref(v, f, SlotOf(n))
  }

  /** bmap reads the slot of the position's block. */
  lemma BmapIsLookup(v: Volume, f: nat, pos: nat)
    requires f < |v.files| && pos < FileSizeMax
    ensures Bmap(v.files[f], v.blocks, pos) == Lookup(v, f, pos / 1024)
  {
    var s := SlotOf(pos / 1024);
    if s.Leaf2? {
      assert Ref(v, f, Parent(s)) ==
             var double := v.files[f].zones[Direct + 1];
             if double == NoZone || double >= |v.blocks| then NoZone else ZoneAt(v.blocks[double], s.k);
    }
  }

  lemma BmapInBlock(v: Volume, f: nat, n: nat, off: nat)
    requires f < |v.files| && n < MaxBlocks && off < BlockSize
    ensures n * 1024 + off < FileSizeMax && Bmap(v.files[f], v.blocks, n * 1024 + off) == Lookup(v, f, n)
  {
    hide Bmap, Lookup;
    assert (n * 1024 + off) / 1024 == n;
    BmapIsLookup(v, f, n * 1024 + off);
  }

  /** The table that holds slot s exists, so s can be stored to. */
  ghost predicate HasTable(v: Volume, f: nat, s: Slot) {
    f < |v.files| && (s.Top? || 0 < Ref(v, f, Parent(s)) < |v.blocks|)
  }

  /** The volume after storing z in slot s of file f. */
  function Store(v: Volume, f: nat, s: Slot, z: zone): (v': Volume)
    requires HasTable(v, f, s)
    ensures |v'.files| == |v.files| && |v'.blocks| == |v.blocks|
  {
    if s.Top? then v.(files := v.files[f := v.files[f].(zones := v.files[f].zones[s.i := z])])
    else
      var table := Ref(v, f, Parent(s));
      v.(blocks := v.blocks[table := PutZone(v.blocks[table], Index(s), z)])
  }

  // Who owns each zone.

  datatype Owner = Owner(file: nat, slot: Slot)
  type Owners = map<nat, Owner>

  /** Each zone that some slot refers to is owned by that slot. */
  ghost predicate RefsOwned(v: Volume, owner: Owners) {
    forall f: nat, s: Slot :: Ref(v, f, s) != NoZone ==> Ref(v, f, s) in owner && owner[Ref(v, f, s)] == Owner(f, s)
  }

  /** Owned zones are inside the device, and their owners refer to them. */
  ghost predicate OwnersRefer(v: Volume, owner: Owners) {
    && (forall z :: z in owner ==> 0 < z < |v.blocks|)
    && (forall z {:trigger Ref(v, owner[z].file, owner[z].slot)} :: z in owner ==>
      Ref(v, owner[z].file, owner[z].slot) == z)
  }

  /** No zone is referred to twice, and the owned zones are exactly those referred to. */
  ghost predicate Owned(v: Volume, owner: Owners) {
    RefsOwned(v, owner) && OwnersRefer(v, owner)
  }

  lemma RefOwned(v: Volume, owner: Owners, f: nat, s: Slot)
    requires Owned(v, owner)
    ensures var z := Ref(v, f, s); z == NoZone || (z in owner && owner[z] == Owner(f, s) && 0 < z < |v.blocks|)
  {
  }

  lemma OwnerRefers(v: Volume, owner: Owners, z: nat)
    requires Owned(v, owner) && z in owner
    ensures Ref(v, owner[z].file, owner[z].slot) == z
  {
  }

  /** Rewriting a block that is no table leaves every slot as it was. */
  lemma {:induction false} RewriteRef(v: Volume, owner: Owners, z: nat, b: Block, f: nat, s: Slot)
    requires Owned(v, owner) && z < |v.blocks| && (z in owner ==> !owner[z].slot.IsTable())
    ensures Ref(v.(blocks := v.blocks[z := b]), f, s) == Ref(v, f, s)
    decreases s.Level()
  {
    if !s.Top? {
      RewriteRef(v, owner, z, b, f, Parent(s));
      RefOwned(v, owner, f, Parent(s));
    }
  }

  ghost predicate SameRefs(v: Volume, v': Volume) {
    forall f: nat, s: Slot :: Ref(v', f, s) == Ref(v, f, s)
  }

  lemma RewriteData(v: Volume, owner: Owners, z: nat, b: Block)
    requires Owned(v, owner) && z < |v.blocks| && (z in owner ==> !owner[z].slot.IsTable())
    ensures SameRefs(v, v.(blocks := v.blocks[z := b])) && Owned(v.(blocks := v.blocks[z := b]), owner)
  {
    var v' := v.(blocks := v.blocks[z := b]);
    forall f: nat, s: Slot ensures Ref(v', f, s) == Ref(v, f, s) {
      RewriteRef(v, owner, z, b, f, s);
    }
    OwnedSameRefs(v, v', owner);
  }

  lemma OwnedSameRefs(v: Volume, v': Volume, owner: Owners)
    requires Owned(v, owner) && SameRefs(v, v') && |v'.blocks| == |v.blocks|
    ensures Owned(v', owner)
  {
    forall z | z in owner ensures Ref(v', owner[z].file, owner[z].slot) == z {
      OwnerRefers(v, owner, z);
    }
  }

  /** Every entry of the table in slot s of file f is empty. */
  ghost predicate Childless(v: Volume, f: nat, s: Slot) {
    forall c: Slot :: !c.Top? && Parent(c) == s ==> Ref(v, f, c) == NoZone
  }

  /** What storing z in slot s of file f requires: the slot's table exists, and a new table is blank. */
  ghost predicate CanStore(v: Volume, owner: Owners, f: nat, s: Slot, z: zone) {
    && Owned(v, owner) && HasTable(v, f, s) && z !in owner
    && (s.IsTable() ==> Childless(v, f, s) && (z == NoZone || (z < |v.blocks| && v.blocks[z] == ZeroBlock())))
  }

  /** Storing in one slot changes that slot and no other slot of any file. */
  lemma {:induction false} StoreRef(v: Volume, owner: Owners, f: nat, s: Slot, z: zone, f': nat, s': Slot)
    requires CanStore(v, owner, f, s, z)
    ensures Ref(Store(v, f, s, z), f', s') == if f' == f && s' == s then z else Ref(v, f', s')
    decreases s'.Level()
  {
    if !s'.Top? {
      StoreRef(v, owner, f, s, z, f', Parent(s'));
      RefOwned(v, owner, f', Parent(s'));
      ZeroBlockHasNoZones(Index(s'));
      if !s.Top? {
        var table := Ref(v, f, Parent(s));
        RefOwned(v, owner, f, Parent(s));
        ZoneAtPutZone(v.blocks[table], Index(s), z, Index(s'));
      }
    }
  }

  lemma ZeroBlockHasNoZones(j: nat)
    requires j < ZonesPerBlock
    ensures ZoneAt(ZeroBlock(), j) == NoZone
  {
  }

  /** Who owns what after z replaces gone in slot s of file f. */
  ghost function OwnersAfter(owner: Owners, f: nat, s: Slot, gone: zone, z: zone): Owners {
    var rest := owner - {gone as nat};
    if z == NoZone then rest else rest[z := Owner(f, s)]
  }

  lemma RefsOwnedAfterStore(v: Volume, owner: Owners, f: nat, s: Slot, z: zone)
    requires CanStore(v, owner, f, s, z)
    ensures RefsOwned(Store(v, f, s, z), OwnersAfter(owner, f, s, Ref(v, f, s), z))
  {
    var v', owner' := Store(v, f, s, z), OwnersAfter(owner, f, s, Ref(v, f, s), z);
    forall f': nat, s': Slot | Ref(v', f', s') != NoZone
      ensures Ref(v', f', s') in owner' && owner'[Ref(v', f', s')] == Owner(f', s')
    {
      StoreRef(v, owner, f, s, z, f', s');
      RefOwned(v, owner, f, s);
      RefOwned(v, owner, f', s');
    }
  }

  lemma OwnersReferAfterStore(v: Volume, owner: Owners, f: nat, s: Slot, z: zone)
    requires CanStore(v, owner, f, s, z) && z < |v.blocks|
    ensures OwnersRefer(Store(v, f, s, z), OwnersAfter(owner, f, s, Ref(v, f, s), z))
  {
    var v', owner' := Store(v, f, s, z), OwnersAfter(owner, f, s, Ref(v, f, s), z);
    forall y | y in owner' ensures Ref(v', owner'[y].file, owner'[y].slot) == y {
      StoreRef(v, owner, f, s, z, owner'[y].file, owner'[y].slot);
      if y in owner {
        OwnerRefers(v, owner, y);
      }
    }
  }

  /** Storing z in a slot takes the slot's old zone from it and gives it z. */
  lemma OwnedAfterStore(v: Volume, owner: Owners, f: nat, s: Slot, z: zone)
    requires CanStore(v, owner, f, s, z) && z < |v.blocks|
    ensures Owned(Store(v, f, s, z), OwnersAfter(owner, f, s, Ref(v, f, s), z))
  {
    RefsOwnedAfterStore(v, owner, f, s, z);
    OwnersReferAfterStore(v, owner, f, s, z);
  }

  /** No zone is owned by slot s of file f. */
  ghost predicate Unmapped(owner: Owners, f: nat, s: Slot) {
    forall z :: z in owner ==> owner[z] != Owner(f, s)
  }

  lemma UnmappedIff(v: Volume, owner: Owners, f: nat, s: Slot)
    requires Owned(v, owner)
    ensures Unmapped(owner, f, s) <==> Ref(v, f, s) == NoZone
  {
    RefOwned(v, owner, f, s);
    if z :| z in owner && owner[z] == Owner(f, s) {
      OwnerRefers(v, owner, z);
    }
  }

  /** Blocks that hold file bytes, and blocks of zones not yet in a tree, are the same. */
  ghost predicate DataKept(v: Volume, v': Volume, owner: Owners, held: set<nat>) {
    && |v'.blocks| == |v.blocks|
    && (forall z :: 0 <= z < |v.blocks| && ((z in owner && !owner[z].slot.IsTable()) || z in held) ==>
      v'.blocks[z] == v.blocks[z])
  }

  ghost predicate Outside(held: set<nat>, owner: Owners) {
    forall z :: z in held ==> z !in owner
  }

  /** The size of each file. */
  ghost function Sizes(v: Volume): (r: seq<nat>)
    ensures |r| == |v.files| && forall f :: 0 <= f < |r| ==> r[f] == v.files[f].size
  {
    seq(|v.files|, f requires 0 <= f < |v.files| => v.files[f].size)
  }

  /** Storing in a slot rewrites at most the block of the slot's own table. */
  lemma StoreKeepsData(v: Volume, owner: Owners, f: nat, s: Slot, z: zone, held: set<nat>)
    requires Owned(v, owner) && HasTable(v, f, s) && Outside(held, owner)
    ensures DataKept(v, Store(v, f, s, z), owner, held)
  {
    if !s.Top? {
      RefOwned(v, owner, f, Parent(s));
    }
  }

  /** The volume after the block of zone z is blanked and z is stored in a table slot. */
  function StoreTable(v: Volume, f: nat, s: Slot, z: zone): (v': Volume)
    requires z < |v.blocks| && HasTable(v, f, s)
    requires HasTable(v.(blocks := v.blocks[z := ZeroBlock()]), f, s)
    ensures |v'.files| == |v.files| && |v'.blocks| == |v.blocks|
  {
    Store(v.(blocks := v.blocks[z := ZeroBlock()]), f, s, z)
  }

  /** A zone nobody owns can become a blank table in any empty table slot whose own table exists. */
  lemma AdoptTable(v: Volume, owner: Owners, f: nat, s: Slot, z: zone, held: set<nat>)
    requires Owned(v, owner) && HasTable(v, f, s) && s.IsTable() && Ref(v, f, s) == NoZone
    requires 0 < z < |v.blocks| && z !in owner && z !in held && Outside(held, owner)
    ensures HasTable(v.(blocks := v.blocks[z := ZeroBlock()]), f, s)
    ensures
      var v' := StoreTable(v, f, s, z);
      Owned(v', owner[z := Owner(f, s)]) && DataKept(v, v', owner, held) && Sizes(v') == Sizes(v)
  {
    var v1 := v.(blocks := v.blocks[z := ZeroBlock()]);
    RewriteData(v, owner, z, ZeroBlock());
    assert Ref(v1, f, s) == NoZone;
    if !s.Top? {
      assert Ref(v1, f, Parent(s)) == Ref(v, f, Parent(s));
    }
    OwnedAfterStore(v1, owner, f, s, z);
    assert NoZone !in owner;
    assert OwnersAfter(owner, f, s, NoZone, z) == owner[z := Owner(f, s)];
    StoreKeepsData(v1, owner, f, s, z, held);
  }

  /** A zone nobody owns can be stored in any empty data slot whose table exists. */
  lemma AdoptData(v: Volume, owner: Owners, f: nat, s: Slot, z: zone, held: set<nat>)
    requires Owned(v, owner) && HasTable(v, f, s) && !s.IsTable() && Ref(v, f, s) == NoZone
    requires 0 < z < |v.blocks| && z !in owner && Outside(held, owner)
    ensures
      var v' := Store(v, f, s, z);
      Owned(v', owner[z := Owner(f, s)]) && DataKept(v, v', owner, held) && Sizes(v') == Sizes(v)
  {
    OwnedAfterStore(v, owner, f, s, z);
    assert NoZone !in owner;
    assert OwnersAfter(owner, f, s, NoZone, z) == owner[z := Owner(f, s)];
    StoreKeepsData(v, owner, f, s, z, held);
  }

  /** Slot t holds a table on the way to data slot s. */
  predicate Above(t: Slot, s: Slot) {
    !s.Top? && (t == Parent(s) || (s.Leaf2? && t == Double))
  }

  /** Owners kept, and new ones only for tables above slot s of file f; when not ok, at most Double. */
  ghost predicate TablesAdded(owner: Owners, owner': Owners, f: nat, s: Slot, ok: bool) {
    && (forall y :: y in owner ==> y in owner' && owner'[y] == owner[y])
    && (forall y :: y in owner' && y !in owner ==>
          owner'[y].file == f && Above(owner'[y].slot, s) && (ok || owner'[y].slot == Double))
  }

  /** Owners kept, plus new ones for file f: data slot s for z if ok, and tables above it. */
  ghost predicate Grown(owner: Owners, owner': Owners, f: nat, s: Slot, z: zone, ok: bool) {
    && (forall y :: y in owner ==> y in owner' && owner'[y] == owner[y])
    && (ok ==> z in owner' && owner'[z] == Owner(f, s))
    && (forall y :: y in owner' && y !in owner ==>
          && owner'[y].file == f
          && (y == z ==> ok)
          && (y != z ==> Above(owner'[y].slot, s) && (ok || owner'[y].slot == Double)))
  }

  /** Once the tables above an empty data slot are there, z can be stored in it and completes the growth. */
  lemma ReadyToStore(v: Volume, owner: Owners, owner': Owners, f: nat, s: Slot, z: zone)
    requires Owned(v, owner') && f < |v.files| && !s.IsTable() && TablesAdded(owner, owner', f, s, true) && z !in owner'
    requires Unmapped(owner, f, s) && (s.Top? || !Unmapped(owner', f, Parent(s)))
    ensures HasTable(v, f, s) && Ref(v, f, s) == NoZone
    ensures Grown(owner, owner'[z := Owner(f, s)], f, s, z, true)
  {
    hide Owned;
    UnmappedIff(v, owner', f, s);
    if !s.Top? {
      UnmappedIff(v, owner', f, Parent(s));
      RefOwned(v, owner', f, Parent(s));
    }
  }

  /** The lens law: growing the tree of f for block n maps that block to z and no other block of any file anew. */
  lemma GrownLens(v: Volume, owner: Owners, v': Volume, owner': Owners, f: nat, n: nat, z: zone, ok: bool, f': nat,
      m: nat)
    requires Owned(v, owner) && Owned(v', owner') && n < MaxBlocks && m < MaxBlocks
    requires Grown(owner, owner', f, SlotOf(n), z, ok) && z !in owner
    ensures Lookup(v', f', m) == if ok && f' == f && m == n then z else Lookup(v, f', m)
  {
    SlotRoundTrip(m);
    SlotRoundTrip(n);
    UnmappedIff(v, owner, f', SlotOf(m));
    UnmappedIff(v', owner', f', SlotOf(m));
    RefOwned(v', owner', f', SlotOf(m));
    RefOwned(v, owner, f', SlotOf(m));
    if ok {
      OwnerRefers(v', owner', z);
    }
  }

  /** Block n of file f is mapped to z if ok, and every other block of every file as before. */
  ghost predicate LensAfter(v: Volume, v': Volume, f: nat, n: nat, z: zone, ok: bool) {
    forall f': nat, m: nat :: m < MaxBlocks ==>
      Lookup(v', f', m) == if ok && f' == f && m == n then z else Lookup(v, f', m)
  }

  lemma GrownLensAll(v: Volume, owner: Owners, v': Volume, owner': Owners, f: nat, n: nat, z: zone, ok: bool)
    requires Owned(v, owner) && Owned(v', owner') && n < MaxBlocks
    requires Grown(owner, owner', f, SlotOf(n), z, ok) && z !in owner
    ensures LensAfter(v, v', f, n, z, ok)
  {
    forall f': nat, m: nat | m < MaxBlocks
      ensures Lookup(v', f', m) == if ok && f' == f && m == n then z else Lookup(v, f', m)
    {
      GrownLens(v, owner, v', owner', f, n, z, ok, f', m);
    }
  }

  /** Block n of a file: a block that is not mapped reads as zeros. */
  function BlockAt(v: Volume, f: nat, n: nat): Block
    requires n < MaxBlocks
  {
    var z := Lookup(v, f, n);
    if z == NoZone || z >= |v.blocks| then ZeroBlock() else v.blocks[z]
  }

  /** Block n of file f reads as b, and every other block of every file as before. */
  ghost predicate BlocksAfter(v: Volume, v': Volume, f: nat, n: nat, b: Block) {
    forall f': nat, m: nat :: m < MaxBlocks ==>
      BlockAt(v', f', m) == if f' == f && m == n then b else BlockAt(v, f', m)
  }

  /** Block n of file f gets mapped to z, or was already; then b is put in zone z. */
  lemma BlockAfterWrite(v: Volume, owner: Owners, v': Volume, owner': Owners, f: nat, n: nat, z: zone, b: Block,
      f': nat, m: nat)
    requires Owned(v, owner) && Owned(v', owner') && n < MaxBlocks && m < MaxBlocks
    requires LensAfter(v, v', f, n, z, true) && DataKept(v, v', owner, {})
    requires z in owner' && owner'[z] == Owner(f, SlotOf(n))
    ensures
      BlockAt(v'.(blocks := v'.blocks[z := b]), f', m) == if f' == f && m == n then b else BlockAt(v, f', m)
  {
    RewriteRef(v', owner', z, b, f', SlotOf(m));
    RefOwned(v', owner', f', SlotOf(m));
    RefOwned(v, owner, f', SlotOf(m));
    SlotRoundTrip(m);
    SlotRoundTrip(n);
    var v'' := v'.(blocks := v'.blocks[z := b]);
    assert Lookup(v'', f', m) == Lookup(v', f', m) == if f' == f && m == n then z else Lookup(v, f', m);
    if f' != f || m != n {
      assert Lookup(v, f', m) != z;
    }
  }

  lemma BlocksAfterWrite(v: Volume, owner: Owners, v': Volume, owner': Owners, f: nat, n: nat, z: zone, b: Block)
    requires Owned(v, owner) && Owned(v', owner') && n < MaxBlocks
    requires LensAfter(v, v', f, n, z, true) && DataKept(v, v', owner, {})
    requires z in owner' && owner'[z] == Owner(f, SlotOf(n))
    ensures BlocksAfter(v, v'.(blocks := v'.blocks[z := b]), f, n, b)
  {
    var v'' := v'.(blocks := v'.blocks[z := b]);
    forall f': nat, m: nat | m < MaxBlocks
      ensures BlockAt(v'', f', m) == if f' == f && m == n then b else BlockAt(v, f', m)
    {
      BlockAfterWrite(v, owner, v', owner', f, n, z, b, f', m);
    }
  }

  /** Mapped blocks begin below the file's size. */
  ghost predicate Sized(v: Volume, owner: Owners) {
    forall z :: z in owner && owner[z].file < |v.files| && owner[z].slot != Double ==>
      Least(owner[z].slot) * 1024 < Sizes(v)[owner[z].file]
  }

  /** All the bytes a file could have, those beyond its end included. */
  ghost function FileBytes(v: Volume, f: nat): (r: seq<byte>)
    ensures |r| == FileSizeMax
  {
    seq(FileSizeMax, i requires 0 <= i < FileSizeMax => BlockAt(v, f, i / 1024)[i % 1024])
  }

  /** The bytes of each file. */
  ghost function AllBytes(v: Volume): (r: seq<seq<byte>>)
    ensures |r| == |v.files| && forall f :: 0 <= f < |r| ==> r[f] == FileBytes(v, f)
  {
    seq(|v.files|, f requires 0 <= f < |v.files| => FileBytes(v, f))
  }

  /** Bytes at and after a file's size are zero. */
  ghost predicate ZeroTail(v: Volume) {
    forall f: nat, i: nat :: f < |v.files| && Sizes(v)[f] <= i < FileSizeMax ==> AllBytes(v)[f][i] == 0
  }

  /** Splicing two runs one after the other splices their concatenation. */
  lemma SpliceTwice(s: seq<byte>, pos: nat, a: seq<byte>, b: seq<byte>)
    requires pos + |a| + |b| <= |s|
    ensures Splice(Splice(s, pos, a), pos + |a|, b) == Splice(s, pos, a + b)
  {
  }

  /** Every byte of every file is as before, except that data now stands at pos in file f. */
  ghost predicate BytesAfter(v: Volume, v': Volume, f: nat, pos: nat, data: seq<byte>) {
    && f < |v.files| && pos + |data| <= FileSizeMax
    && AllBytes(v') == AllBytes(v)[f := Splice(FileBytes(v, f), pos, data)]
  }

  /** Overwriting part of a block changes the bytes of that part and no others. */
  lemma BytesAfterBlock(v: Volume, v': Volume, f: nat, n: nat, off: nat, chunk: seq<byte>)
    requires f < |v.files| && |v'.files| == |v.files| && n < MaxBlocks && off + |chunk| <= 1024
    requires BlocksAfter(v, v', f, n, Overwrite(BlockAt(v, f, n), off, chunk))
    ensures BytesAfter(v, v', f, n * 1024 + off, chunk)
  {
    hide BlocksAfter, BlockAt, Overwrite, Splice;
    var pos := n * 1024 + off;
    forall f' | 0 <= f' < |v.files|
      ensures FileBytes(v', f') == if f' == f then Splice(FileBytes(v, f'), pos, chunk) else FileBytes(v, f')
    {
      forall i | 0 <= i < FileSizeMax
        ensures FileBytes(v', f')[i] == if f' == f then Splice(FileBytes(v, f'), pos, chunk)[i] else FileBytes(v, f')[i]
      {
        ByteAfterBlock(v, v', f, n, off, chunk, f', i);
      }
    }
  }

  lemma ByteAfterBlock(v: Volume, v': Volume, f: nat, n: nat, off: nat, chunk: seq<byte>, f': nat, i: nat)
    requires n < MaxBlocks && off + |chunk| <= 1024 && i < FileSizeMax
    requires BlocksAfter(v, v', f, n, Overwrite(BlockAt(v, f, n), off, chunk))
    ensures
      FileBytes(v', f')[i] == if f' == f then Splice(FileBytes(v, f'), n * 1024 + off, chunk)[i]
        else FileBytes(v, f')[i]
  {
    var m := i / 1024;
    assert i == m * 1024 + i % 1024;
    assert BlockAt(v', f', m) ==
      if f' == f && m == n then Overwrite(BlockAt(v, f, n), off, chunk) else BlockAt(v, f', m);
  }

  /** Writing two runs of bytes one after the other writes their concatenation. */
  lemma BytesAfterTwice(v: Volume, v1: Volume, v2: Volume, f: nat, pos: nat, a: seq<byte>, b: seq<byte>)
    requires BytesAfter(v, v1, f, pos, a) && BytesAfter(v1, v2, f, pos + |a|, b)
    ensures BytesAfter(v, v2, f, pos, a + b)
  {
    SpliceTwice(FileBytes(v, f), pos, a, b);
    assert AllBytes(v1)[f] == FileBytes(v1, f);
  }

  lemma ZeroTailAfter(v: Volume, v': Volume, f: nat, pos: nat, data: seq<byte>, size: nat)
    requires ZeroTail(v) && BytesAfter(v, v', f, pos, data) && Sizes(v') == Sizes(v)[f := size]
    requires Sizes(v)[f] <= size && (data != [] ==> pos + |data| <= size)
    ensures ZeroTail(v')
  {
    forall f': nat, i: nat | f' < |v'.files| && Sizes(v')[f'] <= i < FileSizeMax ensures AllBytes(v')[f'][i] == 0 {
      assert AllBytes(v)[f'][i] == 0;
      if f' == f {
        SpliceBeyond(FileBytes(v, f), pos, data, i);
      }
    }
  }

  lemma SpliceBeyond(s: seq<byte>, pos: nat, data: seq<byte>, i: nat)
    requires pos + |data| <= |s| && i < |s| && (data != [] ==> pos + |data| <= i)
    ensures Splice(s, pos, data)[i] == s[i]
  {
  }

  /** Owners kept, and new ones only for file f: tables and data up to block n if ok, else at most Double. */
  ghost predicate GrownTo(owner: Owners, owner': Owners, f: nat, n: nat, ok: bool) {
    && (forall y :: y in owner ==> y in owner' && owner'[y] == owner[y])
    && (forall y :: y in owner' && y !in owner ==>
          owner'[y].file == f && (owner'[y].slot != Double ==> ok && Least(owner'[y].slot) <= n))
  }

  lemma GrownIsGrownTo(owner: Owners, owner': Owners, f: nat, n: nat, z: zone, ok: bool)
    requires n < MaxBlocks && z !in owner && Grown(owner, owner', f, SlotOf(n), z, ok)
    ensures GrownTo(owner, owner', f, n, ok)
  {
    SlotRoundTrip(n);
  }

  lemma SizedAfter(v: Volume, owner: Owners, v': Volume, owner': Owners, f: nat, n: nat, ok: bool, size: nat)
    requires f < |v.files| && Sized(v, owner) && GrownTo(owner, owner', f, n, ok) && Sizes(v') == Sizes(v)[f := size]
    requires Sizes(v)[f] <= size && (ok ==> n * 1024 < size)
    ensures Sized(v', owner')
  {
  }

  /** The volume with another size for file f. */
  function Resize(v: Volume, f: nat, size: nat): (v': Volume)
    requires f < |v.files| && size <= FileSizeMax
    ensures Sizes(v') == Sizes(v)[f := size] && v'.blocks == v.blocks
  {
    v.(files := v.files[f := v.files[f].(size := size)])
  }

  lemma {:induction false} ResizeRef(v: Volume, f: nat, size: nat, f': nat, s: Slot)
    requires f < |v.files| && size <= FileSizeMax
    ensures Ref(Resize(v, f, size), f', s) == Ref(v, f', s)
    decreases s.Level()
  {
    if !s.Top? {
      ResizeRef(v, f, size, f', Parent(s));
    }
  }

  /** A file's size has no part in its tree. */
  lemma ResizeKeeps(v: Volume, owner: Owners, f: nat, size: nat)
    requires Owned(v, owner) && f < |v.files| && size <= FileSizeMax
    ensures Owned(Resize(v, f, size), owner)
    ensures forall f': nat, m: nat :: m < MaxBlocks ==> BlockAt(Resize(v, f, size), f', m) == BlockAt(v, f', m)
  {
    forall f': nat, s: Slot ensures Ref(Resize(v, f, size), f', s) == Ref(v, f', s) {
      ResizeRef(v, f, size, f', s);
    }
    OwnedSameRefs(v, Resize(v, f, size), owner);
  }

  lemma ResizedRefs(v: Volume, v1: Volume, v2: Volume, f: nat, size: nat)
    requires SameRefs(v, v1) && f < |v1.files| && size <= FileSizeMax && v2 == Resize(v1, f, size)
    ensures SameRefs(v, v2)
  {
    hide Ref, Resize;
    forall f': nat, s: Slot ensures Ref(v2, f', s) == Ref(v, f', s) {
      ResizeRef(v1, f, size, f', s);
    }
  }

  /** Writes a whole block of f through the zone z that v' maps it to, and sets the file's size. */
  method PutBlock(ghost v: Volume, ghost owner: Owners, v': Volume, ghost owner': Owners,
      f: nat, n: nat, z: zone, b: Block, size: nat) returns (v'': Volume)
    requires Owned(v, owner) && Owned(v', owner') && n < MaxBlocks && f < |v'.files| && Sizes(v') == Sizes(v)
    requires size <= FileSizeMax
    requires LensAfter(v, v', f, n, z, true) && DataKept(v, v', owner, {})
    requires z in owner' && owner'[z] == Owner(f, SlotOf(n))
    ensures Owned(v'', owner') && |v''.blocks| == |v'.blocks|
    ensures BlocksAfter(v, v'', f, n, b) && Sizes(v'') == Sizes(v)[f := size] && SameRefs(v', v'')
  {
    var v1 := v'.(blocks := v'.blocks[z := b]);
    BlocksAfterWrite(v, owner, v', owner', f, n, z, b);
    RewriteData(v', owner', z, b);
    ResizeKeeps(v1, owner', f, size);
    v'' := Resize(v1, f, size);
    ResizedRefs(v', v1, v'', f, size);
    BlocksAfterSame(v, v1, v'', f, n, b);
  }

  /**
   The block of f is mapped to z in v'; copying the chunk over what the block read as then
   changes just the bytes it covers, and the file grows over them.
   */
  method CopyChunk(ghost v: Volume, ghost owner: Owners, v': Volume, ghost owner': Owners,
      f: nat, n: nat, z: zone, b: Block, off: nat, chunk: seq<byte>) returns (v'': Volume)
    requires Owned(v, owner) && Owned(v', owner') && n < MaxBlocks && f < |v'.files| && Sizes(v') == Sizes(v)
    requires off + |chunk| <= BlockSize && chunk != [] && b == BlockAt(v, f, n)
    requires LensAfter(v, v', f, n, z, true) && DataKept(v, v', owner, {}) && GrownTo(owner, owner', f, n, true)
    requires z in owner' && owner'[z] == Owner(f, SlotOf(n))
    requires Sized(v, owner) && ZeroTail(v)
    ensures Owned(v'', owner') && |v''.blocks| == |v'.blocks|
    ensures BytesAfter(v, v'', f, n * 1024 + off, chunk)
    ensures Sizes(v'') == Sizes(v)[f := Max(Sizes(v)[f], n * 1024 + off + |chunk|)]
    ensures Sized(v'', owner') && ZeroTail(v'') && SameRefs(v', v'')
  {
    hide Owned, LensAfter, DataKept, GrownTo, Sized, ZeroTail, BlocksAfter, SameRefs, BytesAfter;
    var size := Max(v'.files[f].size, n * 1024 + off + |chunk|);
    v'' := PutBlock(v, owner, v', owner', f, n, z, Overwrite(b, off, chunk), size);
    BytesAfterBlock(v, v'', f, n, off, chunk);
    ZeroTailAfter(v, v'', f, n * 1024 + off, chunk, size);
    SizedAfter(v, owner, v'', owner', f, n, true, size);
  }

  lemma BlocksAfterSame(v: Volume, v1: Volume, v2: Volume, f: nat, n: nat, b: Block)
    requires BlocksAfter(v, v1, f, n, b)
    requires forall f': nat, m: nat :: m < MaxBlocks ==> BlockAt(v2, f', m) == BlockAt(v1, f', m)
    ensures BlocksAfter(v, v2, f, n, b)
  {
  }

  /** With no block mapped anew and no block of file bytes touched, every byte is as before. */
  lemma NothingWritten(v: Volume, owner: Owners, v': Volume, owner': Owners, f: nat, n: nat, z: zone)
    requires Owned(v, owner) && f < |v.files| && Sizes(v') == Sizes(v)
    requires LensAfter(v, v', f, n, z, false) && DataKept(v, v', owner, {}) && GrownTo(owner, owner', f, n, false)
    requires Sized(v, owner) && ZeroTail(v)
    ensures BytesAfter(v, v', f, 0, []) && Sized(v', owner') && ZeroTail(v')
  {
    forall f': nat, m: nat | m < MaxBlocks ensures BlockAt(v', f', m) == BlockAt(v, f', m) {
      RefOwned(v, owner, f', SlotOf(m));
      assert Lookup(v', f', m) == Lookup(v, f', m);
    }
    SameBlocksSameBytes(v, v', f);
    ZeroTailAfter(v, v', f, 0, [], v.files[f].size);
    SizedAfter(v, owner, v', owner', f, n, false, v.files[f].size);
  }

  function Max(a: nat, b: nat): nat {
    if a < b then b else a
  }

  lemma SameBlocksSameBytes(v: Volume, v': Volume, f: nat)
    requires f < |v.files| && |v'.files| == |v.files|
    requires forall f': nat, m: nat :: m < MaxBlocks ==> BlockAt(v', f', m) == BlockAt(v, f', m)
    ensures BytesAfter(v, v', f, 0, [])
  {
    forall f' | 0 <= f' < |v.files| ensures AllBytes(v')[f'] == AllBytes(v)[f'] {
      assert FileBytes(v', f') == FileBytes(v, f');
    }
    assert Splice(FileBytes(v, f), 0, []) == FileBytes(v, f);
  }

  /** The block and the offset within it of a byte position. */
  method Locate(pos: nat) returns (n: nat, off: nat)
    requires pos < FileSizeMax
    ensures pos == n * 1024 + off && off < BlockSize && n < MaxBlocks && off == pos % 1024
  {
    n, off := pos / 1024, pos % 1024;
  }

  /** The first done bytes of data stand at pos in file f, which has grown over them. */
  ghost predicate Written(v: Volume, v': Volume, f: nat, pos: nat, data: seq<byte>, done: nat) {
    && f < |v.files| && done <= |data|
    && if done == 0 then AllBytes(v') == AllBytes(v) && Sizes(v') == Sizes(v)
       else BytesAfter(v, v', f, pos, data[..done]) && Sizes(v') == Sizes(v)[f := Max(Sizes(v)[f], pos + done)]
  }

  lemma EmptyBytesAfter(v: Volume, v': Volume, f: nat, pos: nat)
    requires f < |v.files| && pos <= FileSizeMax
    ensures BytesAfter(v, v', f, pos, []) <==> AllBytes(v') == AllBytes(v)
  {
    assert Splice(FileBytes(v, f), pos, []) == FileBytes(v, f) == AllBytes(v)[f];
  }

  /** One more piece of data written after the first done bytes of it. */
  lemma PieceWritten(v: Volume, v1: Volume, v2: Volume, f: nat, pos: nat, data: seq<byte>, done: nat, len: nat)
    requires done + len <= |data| && 0 < len && Written(v, v1, f, pos, data, done)
    requires BytesAfter(v1, v2, f, pos + done, data[done..done + len])
    requires Sizes(v2) == Sizes(v1)[f := Max(Sizes(v1)[f], pos + done + len)]
    ensures Written(v, v2, f, pos, data, done + len)
  {
    assert data[..done] + data[done..done + len] == data[..done + len];
    if done == 0 {
      assert AllBytes(v)[f] == FileBytes(v, f) && AllBytes(v1)[f] == FileBytes(v1, f);
    } else {
      BytesAfterTwice(v, v1, v2, f, pos, data[..done], data[done..done + len]);
    }
  }

  // A file as an array of bytes.

  /** The bytes of each file up to its size. */
  ghost function Contents(v: Volume): (r: seq<seq<byte>>)
    ensures |r| == |v.files| && forall f :: 0 <= f < |r| ==> r[f] == AllBytes(v)[f][..Sizes(v)[f]]
  {
    seq(|v.files|, f requires 0 <= f < |v.files| => AllBytes(v)[f][..v.files[f].size])
  }

  /** An array of bytes after data is written at pos; a gap before pos is filled with zeros. */
  ghost function ArrayWrite(a: seq<byte>, pos: nat, data: seq<byte>): seq<byte> {
    var padded := if |a| < pos + |data| then a + seq(pos + |data| - |a|, _ => 0) else a;
    Splice(padded, pos, data)
  }

  /** A spliced file that has grown over the splice is an array write. */
  lemma ContentAfterWrite(v: Volume, v': Volume, f: nat, pos: nat, data: seq<byte>)
    requires ZeroTail(v) && BytesAfter(v, v', f, pos, data)
    requires Sizes(v') == Sizes(v)[f := Max(Sizes(v)[f], pos + |data|)]
    ensures Contents(v') == Contents(v)[f := ArrayWrite(Contents(v)[f], pos, data)]
  {
    assert |Sizes(v')| == |Sizes(v)|;
    var all, size := FileBytes(v, f), Sizes(v)[f];
    assert AllBytes(v')[f] == Splice(all, pos, data);
    ZeroBeyond(v, f, Max(size, pos + |data|));
    SplicePrefix(all, size, pos, data);
    forall f' | 0 <= f' < |v.files| && f' != f ensures Contents(v')[f'] == Contents(v)[f'] {
      assert AllBytes(v')[f'] == AllBytes(v)[f'] && Sizes(v')[f'] == Sizes(v)[f'];
    }
  }

  lemma ZeroBeyond(v: Volume, f: nat, n: nat)
    requires ZeroTail(v) && f < |v.files| && Sizes(v)[f] <= n <= FileSizeMax
    ensures FileBytes(v, f)[..n] == Contents(v)[f] + seq(n - Sizes(v)[f], _ => 0)
  {
    forall i | Sizes(v)[f] <= i < n ensures FileBytes(v, f)[i] == 0 {
      assert AllBytes(v)[f][i] == 0;
    }
  }

  /** Cutting a spliced array at its grown size is splicing the array cut at that size. */
  lemma SplicePrefix(all: seq<byte>, size: nat, pos: nat, data: seq<byte>)
    requires size <= |all| && pos + |data| <= |all|
    ensures Splice(all, pos, data)[..Max(size, pos + |data|)] == Splice(all[..Max(size, pos + |data|)], pos, data)
  {
  }

  lemma SameContents(v: Volume, v': Volume)
    requires AllBytes(v') == AllBytes(v) && Sizes(v') == Sizes(v)
    ensures Contents(v') == Contents(v)
  {
    assert |Sizes(v')| == |Sizes(v)|;
    forall f | 0 <= f < |v.files| ensures Contents(v')[f] == Contents(v)[f] {
      assert AllBytes(v')[f] == AllBytes(v)[f] && Sizes(v')[f] == Sizes(v)[f];
    }
  }

  lemma WrittenContents(v: Volume, v': Volume, f: nat, pos: nat, data: seq<byte>, done: nat)
    requires Written(v, v', f, pos, data, done) && ZeroTail(v)
    ensures Contents(v') == if done == 0 then Contents(v)
      else Contents(v)[f := ArrayWrite(Contents(v)[f], pos, data[..done])]
  {
    if done == 0 {
      SameContents(v, v');
    } else {
      ContentAfterWrite(v, v', f, pos, data[..done]);
    }
  }

  lemma StretchedContents(v: Volume, v1: Volume, v2: Volume, f: nat, pos: nat, data: seq<byte>, done: nat)
    requires Written(v, v1, f, pos, data, done) && ZeroTail(v) && pos + done <= FileSizeMax
    requires BytesAfter(v1, v2, f, 0, []) && Sizes(v2) == Sizes(v1)[f := Max(Sizes(v1)[f], pos + done)]
    ensures Contents(v2) == Contents(v)[f := ArrayWrite(Contents(v)[f], pos, data[..done])]
  {
    EmptyBytesAfter(v1, v2, f, 0);
    if done == 0 {
      EmptyBytesAfter(v, v2, f, pos);
      assert data[..0] == [];
    }
    ContentAfterWrite(v, v2, f, pos, data[..done]);
  }

  /** Part of one block, read as part of its file. */
  lemma BlockBytes(v: Volume, f: nat, n: nat, off: nat, len: nat)
    requires n < MaxBlocks && off + len <= BlockSize
    ensures BlockAt(v, f, n)[off..off + len] == FileBytes(v, f)[n * 1024 + off..n * 1024 + off + len]
  {
    var all := FileBytes(v, f);
    var part := all[n * 1024 + off..n * 1024 + off + len];
    forall j | 0 <= j < len ensures BlockAt(v, f, n)[off..off + len][j] == part[j] {
      assert (n * 1024 + off + j) / 1024 == n && (n * 1024 + off + j) % 1024 == off + j;
      assert part[j] == all[n * 1024 + off + j];
    }
  }

  /** One block's worth of do_read: the mapped block's bytes, or zeros for a hole. */
  method ReadBlock(v: Volume, ghost owner: Owners, f: nat, n: nat, off: nat, len: nat) returns (data: seq<byte>)
    requires Owned(v, owner) && f < |v.files| && n < MaxBlocks && off < BlockSize && off + len <= BlockSize
    ensures data == FileBytes(v, f)[n * 1024 + off..n * 1024 + off + len]
  {
    hide Bmap;
    BmapInBlock(v, f, n, off);
    var z := Bmap(v.files[f], v.blocks, n * 1024 + off);
    RefOwned(v, owner, f, SlotOf(n));
    BlockBytes(v, f, n, off, len);
    if z == NoZone {
      data := ZeroBlock()[off..off + len];
    } else {
      data := v.blocks[z][off..off + len];
    }
  }

  /** At most room bytes of the block that position at is in, up to the file's end. */
  method ReadPiece(v: Volume, ghost owner: Owners, f: nat, at: nat, room: nat, size: nat) returns (chunk: seq<byte>)
    requires Owned(v, owner) && f < |v.files| && at < size <= FileSizeMax && 0 < room && at % 1024 + room <= 1024
    ensures |chunk| == Min(room, size - at) && chunk == FileBytes(v, f)[at..at + |chunk|]
    ensures |chunk| == room && at % 1024 + room == 1024 ==> (at + room) % 1024 == 0
  {
    hide Owned, FileBytes;
    var n, off := Locate(at);
    chunk := ReadBlock(v, owner, f, n, off, Min(room, size - at));
  }

  /** The bytes from pos to newPos are read; there are more to come only at the end of a block. */
  ghost predicate ReadSoFar(all: seq<byte>, pos: nat, data: seq<byte>, newPos: nat, size: nat, count: nat) {
    && newPos == pos + |data| && |data| <= count
    && (data == [] || (newPos <= size && newPos <= |all| && data == all[pos..newPos]))
    && (|data| < count && newPos < size ==> newPos % 1024 == 0)
  }

  lemma ReadNext(all: seq<byte>, pos: nat, data: seq<byte>, newPos: nat, size: nat, count: nat, chunk: seq<byte>)
    requires ReadSoFar(all, pos, data, newPos, size, count) && |data| < count && newPos < size <= |all|
    requires |chunk| == Min(Min(1024, count - |data|), size - newPos) && chunk == all[newPos..newPos + |chunk|]
    requires |chunk| == 1024 ==> (newPos + |chunk|) % 1024 == 0
    ensures ReadSoFar(all, pos, data + chunk, newPos + |chunk|, size, count)
  {
    if data == [] {
      assert data + chunk == chunk;
    } else {
      assert data + chunk == all[pos..newPos + |chunk|];
    }
  }

  /** The loops of do_read: a partial first block, then whole blocks, then a partial last block. */
  method ReadBytes(v: Volume, ghost owner: Owners, f: nat, pos: nat, count: nat) returns (data: seq<byte>, newPos: nat)
    requires Owned(v, owner) && f < |v.files|
    ensures newPos == pos + |data|
    ensures |data| == if pos < v.files[f].size then Min(count, v.files[f].size - pos) else 0
    ensures data == [] || data == FileBytes(v, f)[pos..newPos]
  {
    hide Owned, FileBytes;
    data, newPos := [], pos;
    if count == 0 {
      return;
    }
    var size := v.files[f].size;
    var inBlock := newPos % 1024;
    if inBlock != 0 {
      if newPos >= size {
        return;
      }
      data := ReadPiece(v, owner, f, newPos, Min(1024 - inBlock, count), size);
      newPos := newPos + |data|;
    }
    while |data| < count && newPos < size
      invariant ReadSoFar(FileBytes(v, f), pos, data, newPos, size, count)
    {
      var chunk := ReadPiece(v, owner, f, newPos, Min(1024, count - |data|), size);
      ReadNext(FileBytes(v, f), pos, data, newPos, size, count, chunk);
      data := data + chunk;
      newPos := newPos + |chunk|;
    }
  }

  // Taking a tree apart.

  /** Slot number i in the table of slot t. */
  function Entry(t: Slot, i: nat): (c: Slot)
    requires t.IsTable() && i < ZonesPerBlock
    ensures !c.Top? && Parent(c) == t && Index(c) == i
  {
    if t == Single then Leaf1(i) else if t == Double then Mid(i) else Leaf2(t.k, i)
  }

  lemma EntryOfIndex(c: Slot)
    requires !c.Top?
    ensures Entry(Parent(c), Index(c)) == c
  {
  }

  /** The first n entries of the table of slot t. */
  ghost function Entries(t: Slot, n: nat): iset<Slot> {
    iset s: Slot | !s.Top? && Parent(s) == t && Index(s) < n
  }

  lemma EntriesNext(t: Slot, n: nat)
    requires t.IsTable() && n < ZonesPerBlock
    ensures Entries(t, n + 1) == Entries(t, n) + iset{Entry(t, n)}
  {
    forall s | s in Entries(t, n + 1) && s !in Entries(t, n) ensures s == Entry(t, n) {
      EntryOfIndex(s);
    }
  }

  /** The first n second-level tables and their entries. */
  ghost function Subtrees(n: nat): iset<Slot> {
    iset s: Slot | (s.Mid? || s.Leaf2?) && s.k < n
  }

  lemma SubtreesNext(n: nat)
    requires n < ZonesPerBlock
    ensures Subtrees(n + 1) == Subtrees(n) + Entries(Mid(n), ZonesPerBlock) + iset{Mid(n)}
  {
  }

  ghost function TopSlots(n: nat): iset<Slot> {
    iset s: Slot | s.Top? && s.i < n
  }

  /** The slots that truncate empties: with a file no longer than 263 blocks, not the double indirect one. */
  ghost function Truncated(size: nat): iset<Slot> {
    iset s: Slot | s.InTree() && (s != Double || size > 263 * 1024)
  }

  /** What owner becomes once the slots in done of file f are emptied; freed lists their zones, each once. */
  ghost predicate Emptied(owner: Owners, owner': Owners, f: nat, done: iset<Slot>, freed: seq<nat>) {
    && (forall y :: y in owner' <==> y in owner && !(owner[y].file == f && owner[y].slot in done))
    && (forall y :: y in owner' ==> owner'[y] == owner[y])
    && (forall y :: y in freed <==> y in owner && y !in owner')
    && (forall i, j :: 0 <= i < j < |freed| ==> freed[i] != freed[j])
  }

  lemma EmptiedOneMore(owner: Owners, owner': Owners, f: nat, done: iset<Slot>, freed: seq<nat>, s: Slot, z: zone)
    requires Emptied(owner, owner', f, done, freed)
    requires if z == NoZone then Unmapped(owner', f, s) else z in owner' && owner'[z] == Owner(f, s)
    requires forall y :: y in owner' && owner'[y] == Owner(f, s) ==> y == z
    ensures
      var owner'' := if z == NoZone then owner' else owner' - {z as nat};
      Emptied(owner, owner'', f, done + iset{s}, if z == NoZone then freed else freed + [z])
  {
  }

  /** Blocks of bytes of files other than f are the same. */
  ghost predicate OthersKept(v: Volume, v': Volume, owner: Owners, f: nat) {
    && |v'.blocks| == |v.blocks| && Sizes(v') == Sizes(v)
    && (forall y :: y in owner && owner[y].file != f && !owner[y].slot.IsTable() && y < |v.blocks| ==>
      v'.blocks[y] == v.blocks[y])
  }

  lemma OthersStillKept(v: Volume, v1: Volume, v2: Volume, owner: Owners, owner1: Owners, f: nat, done: iset<Slot>,
      freed: seq<nat>)
    requires OthersKept(v, v1, owner, f) && Emptied(owner, owner1, f, done, freed)
    requires DataKept(v1, v2, owner1, {}) && Sizes(v2) == Sizes(v1)
    ensures OthersKept(v, v2, owner, f)
  {
  }

  /** Emptying a slot whose zone is no table with entries. */
  lemma EmptySlot(v: Volume, owner: Owners, f: nat, s: Slot)
    requires Owned(v, owner) && HasTable(v, f, s) && Ref(v, f, s) != NoZone && (s.IsTable() ==> Childless(v, f, s))
    ensures
      var v' := Store(v, f, s, NoZone);
      Owned(v', owner - {Ref(v, f, s) as nat}) && DataKept(v, v', owner, {}) && Sizes(v') == Sizes(v)
  {
    assert NoZone !in owner;
    OwnedAfterStore(v, owner, f, s, NoZone);
    StoreKeepsData(v, owner, f, s, NoZone, {});
  }

  /** A slot not yet emptied still holds its zone. */
  lemma StillThere(v: Volume, owner: Owners, owner': Owners, f: nat, done: iset<Slot>, freed: seq<nat>, t: Slot, z: nat)
    requires Owned(v, owner') && Emptied(owner, owner', f, done, freed)
    requires z in owner && owner[z] == Owner(f, t) && t !in done
    ensures Ref(v, f, t) == z && 0 < z < |v.blocks| && f < |v.files|
  {
    OwnerRefers(v, owner', z);
  }

  lemma OwnerBefore(v: Volume, owner: Owners, owner': Owners, f: nat, done: iset<Slot>, freed: seq<nat>, t: Slot)
    requires Owned(v, owner') && Emptied(owner, owner', f, done, freed) && Ref(v, f, t) != NoZone
    ensures var tz := Ref(v, f, t) as nat; tz in owner && owner[tz] == Owner(f, t)
  {
    RefOwned(v, owner', f, t);
  }

  /** The slot of an existing table can be stored to. */
  lemma TableStays(v: Volume, owner: Owners, f: nat, t: Slot)
    requires Owned(v, owner) && Ref(v, f, t) != NoZone
    ensures HasTable(v, f, t)
  {
    if !t.Top? {
      RefOwned(v, owner, f, Parent(t));
    }
  }

  /** A slot already emptied is empty. */
  lemma NowEmpty(v: Volume, owner: Owners, owner': Owners, f: nat, done: iset<Slot>, freed: seq<nat>, s: Slot)
    requires Owned(v, owner') && Emptied(owner, owner', f, done, freed) && s in done
    ensures Ref(v, f, s) == NoZone
  {
    RefOwned(v, owner', f, s);
  }

  lemma NowChildless(v: Volume, owner: Owners, owner': Owners, f: nat, done: iset<Slot>, freed: seq<nat>, t: Slot)
    requires Owned(v, owner') && Emptied(owner, owner', f, done, freed) && t.IsTable()
    requires Entries(t, ZonesPerBlock) <= done
    ensures Childless(v, f, t)
  {
    forall c: Slot | !c.Top? && Parent(c) == t ensures Ref(v, f, c) == NoZone {
      assert c in Entries(t, ZonesPerBlock);
      NowEmpty(v, owner, owner', f, done, freed, c);
    }
  }

  /** Slots that are empty anyway can be counted as emptied. */
  lemma EmptiedAnyway(v: Volume, owner: Owners, owner': Owners, f: nat, done: iset<Slot>, freed: seq<nat>,
      done': iset<Slot>)
    requires Owned(v, owner') && Emptied(owner, owner', f, done, freed) && done <= done'
    requires forall s: Slot :: s in done' && s !in done ==> Ref(v, f, s) == NoZone
    ensures Emptied(owner, owner', f, done', freed)
  {
    forall z | z in owner' && owner'[z].file == f ensures owner'[z].slot !in done' {
      OwnerRefers(v, owner', z);
    }
  }

  /** Rewriting a block of bytes of f leaves the blocks of other files. */
  lemma OthersKeptByRewrite(v: Volume, v1: Volume, owner: Owners, owner1: Owners, f: nat, done: iset<Slot>,
      freed: seq<nat>, z: nat, b: Block)
    requires OthersKept(v, v1, owner, f) && Emptied(owner, owner1, f, done, freed)
    requires z < |v1.blocks| && z in owner1 && owner1[z].file == f
    ensures OthersKept(v, v1.(blocks := v1.blocks[z := b]), owner, f)
  {
  }

  /** The owner of a slot's zone is unique. */
  lemma OwnerUnique(v: Volume, owner: Owners, f: nat, s: Slot)
    requires Owned(v, owner)
    ensures forall y :: y in owner && owner[y] == Owner(f, s) ==> y == Ref(v, f, s)
  {
    forall y | y in owner && owner[y] == Owner(f, s) ensures y == Ref(v, f, s) {
      OwnerRefers(v, owner, y);
    }
  }

  /** The last zone of the device is lost once freed; freeing loses no other. */
  ghost predicate LostAfter(lost: set<nat>, lost': set<nat>, last: int, freed: seq<nat>) {
    forall z :: z in lost' <==> z in lost || (z == last && z in freed)
  }


  /** A slot under an empty table slot is empty. */
  lemma NothingUnder(v: Volume, f: nat, t: Slot, s: Slot)
    requires Ref(v, f, t) == NoZone && !s.Top?
    requires Parent(s) == t || (!Parent(s).Top? && Parent(Parent(s)) == t)
    ensures Ref(v, f, s) == NoZone
  {
  }

  lemma NothingUnderDouble(v: Volume, f: nat)
    requires Ref(v, f, Double) == NoZone
    ensures forall s: Slot :: s in Subtrees(ZonesPerBlock) ==> Ref(v, f, s) == NoZone
  {
    forall s: Slot | s in Subtrees(ZonesPerBlock) ensures Ref(v, f, s) == NoZone {
      NothingUnder(v, f, Double, s);
    }
  }

  /** What truncate does not look at, because the file is too short for it, was empty anyway. */
  lemma RestEmpty(v: Volume, owner: Owners, v': Volume, owner': Owners, f: nat, done: iset<Slot>, freed: seq<nat>)
    requires Sized(v, owner) && f < |v.files| && Owned(v', owner') && Emptied(owner, owner', f, done, freed)
    requires done <= Truncated(Sizes(v)[f])
    requires forall s: Slot :: s.InTree() && s != Double && s !in done ==> Sizes(v)[f] <= Least(s) * 1024
    requires Sizes(v)[f] > 263 * 1024 ==> Double in done
    ensures Emptied(owner, owner', f, Truncated(Sizes(v)[f]), freed)
  {
    forall s: Slot | s in Truncated(Sizes(v)[f]) && s !in done ensures Ref(v', f, s) == NoZone {
      RefOwned(v', owner', f, s);
    }
    EmptiedAnyway(v', owner, owner', f, done, freed, Truncated(Sizes(v)[f]));
  }

  /** The file with no slot left reads as zeros, and the other files as before. */
  lemma BlockAfterTruncate(v: Volume, owner: Owners, v': Volume, owner': Owners, f: nat, done: iset<Slot>,
      freed: seq<nat>, f': nat, m: nat)
    requires Owned(v, owner) && Owned(v', owner') && Emptied(owner, owner', f, done, freed)
    requires OthersKept(v, v', owner, f)
    requires m < MaxBlocks && (f' == f ==> SlotOf(m) in done)
    ensures BlockAt(v', f', m) == if f' == f then ZeroBlock() else BlockAt(v, f', m)
  {
    var s := SlotOf(m);
    if f' == f {
      NowEmpty(v', owner, owner', f, done, freed, s);
    } else {
      RefOwned(v, owner, f', s);
      RefOwned(v', owner', f', s);
      if Ref(v, f', s) != NoZone {
        OwnerRefers(v', owner', Ref(v, f', s));
      } else if Ref(v', f', s) != NoZone {
        OwnerRefers(v, owner, Ref(v', f', s));
      }
    }
  }

  lemma TruncatedBytes(v: Volume, owner: Owners, v': Volume, owner': Owners, f: nat, done: iset<Slot>, freed: seq<nat>)
    requires Owned(v, owner) && Owned(v', owner') && Emptied(owner, owner', f, done, freed)
    requires OthersKept(v, v', owner, f)
    requires f < |v.files| && forall m :: 0 <= m < MaxBlocks ==> SlotOf(m) in done
    ensures AllBytes(v') == AllBytes(v)[f := FileBytes(v', f)]
    ensures forall i :: 0 <= i < FileSizeMax ==> FileBytes(v', f)[i] == 0
  {
    forall f': nat, m: nat | m < MaxBlocks
      ensures BlockAt(v', f', m) == if f' == f then ZeroBlock() else BlockAt(v, f', m)
    {
      BlockAfterTruncate(v, owner, v', owner', f, done, freed, f', m);
    }
    forall f': nat | f' != f ensures FileBytes(v', f') == FileBytes(v, f') {
    }
  }

  /** What truncate leaves, once the size is set to zero. */
  lemma TruncatedContents(v: Volume, owner: Owners, v1: Volume, owner': Owners, f: nat, freed: seq<nat>)
    requires Owned(v, owner) && Owned(v1, owner') && Sized(v, owner) && ZeroTail(v)
    requires f < |v.files| && Emptied(owner, owner', f, Truncated(Sizes(v)[f]), freed) && OthersKept(v, v1, owner, f)
    ensures
      var v' := Resize(v1, f, 0);
      Owned(v', owner') && Sized(v', owner') && ZeroTail(v') && Contents(v') == Contents(v)[f := []]
  {
    var v' := Resize(v1, f, 0);
    forall m | 0 <= m < MaxBlocks ensures SlotOf(m) in Truncated(Sizes(v)[f]) {
    }
    TruncatedBytes(v, owner, v1, owner', f, Truncated(Sizes(v)[f]), freed);
    ResizeKeeps(v1, owner', f, 0);
    SameBlocksSameBytes(v1, v', f);
    EmptyBytesAfter(v1, v', f, 0);
    forall f': nat | f' < |v.files| ensures Contents(v')[f'] == Contents(v)[f := []][f'] {
    }
  }
}
