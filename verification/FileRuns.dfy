/**
 Whole runs of reads, writes and truncations on one device, against files as plain arrays of
 bytes, and the conservation of zones.
 */
module FileRuns {
  import opened Blocks
  import opened Sequences
  import opened ZoneTree
  import opened ZoneNeeds
  import opened FileSystem
  import BitMap

  datatype Op =
    | Write(f: nat, pos: nat, data: seq<byte>)
    | Read(f: nat, pos: nat, count: nat)
    | Truncate(f: nat)

  datatype Outcome = WriteOutcome(result: WriteResult, newPos: nat) | ReadOutcome(data: seq<byte>) | TruncateOutcome

  type Files = seq<seq<byte>>

  ghost function ArrayRead(a: seq<byte>, pos: nat, count: nat): seq<byte> {
    if pos < |a| then a[pos..pos + Min(count, |a| - pos)] else []
  }

  /** The files as arrays of bytes, the volume they are on, and the number of zones free. */
  datatype Snapshot = Snapshot(files: Files, vol: Volume, free: nat)

  ghost function Now(fs: FileSystem): Snapshot
    requires fs.Valid()
    reads fs, fs.zmap
  {
    Snapshot(Contents(fs.vol), fs.vol, fs.zmap.Free())
  }

  /**
   What an operation answers and leaves behind when a file is an array of bytes: a write fails
   for want of zones exactly if fewer are free than it needs, and else only past the size limit.
   */
  ghost predicate ArrayStep(s: Snapshot, op: Op, r: Outcome, s': Snapshot) {
    op.f < |s.files| &&
    match op
    case Write(f, pos, data) =>
      var need := WriteNeed(s.vol, f, pos, |data|);
      && r.WriteOutcome?
      && (r.result.IoError? <==> s.free < need)
      && (!r.result.IoError? ==> s'.free == s.free - need)
      && (!r.result.IoError? ==> (r.result.FileTooBig? <==> data != [] && pos + |data| > FileSizeMax))
      && (r.result.Wrote? ==> r.result.count == |data| && r.newPos == pos + |data|)
      && (r.result.FileTooBig? ==> r.newPos == pos)
      && (r.result.IoError? ==> pos <= r.newPos < pos + |data|)
      && var k := Taken(r.result, pos, r.newPos);
         && k <= |data|
         && s'.files == if k == 0 && !r.result.IoError? then s.files
           else s.files[f := ArrayWrite(s.files[f], pos, data[..k])]
    case Read(f, pos, count) => r.ReadOutcome? && r.data == ArrayRead(s.files[f], pos, count) && s' == s
    case Truncate(f) => r.TruncateOutcome? && s'.files == s.files[f := []] && s'.free >= s.free
  }

  /** A run of operations on arrays: states[i] is what operation i starts from. */
  ghost predicate ArrayRun(states: seq<Snapshot>, ops: seq<Op>, outcomes: seq<Outcome>) {
    && |states| == |ops| + 1 == |outcomes| + 1
    && forall i :: 0 <= i < |ops| ==> ArrayStep(states[i], ops[i], outcomes[i], states[i + 1])
  }

  lemma ArrayRunNext(states: seq<Snapshot>, ops: seq<Op>, outcomes: seq<Outcome>, op: Op, r: Outcome, s: Snapshot)
    requires ArrayRun(states, ops, outcomes) && ArrayStep(states[|ops|], op, r, s)
    ensures ArrayRun(states + [s], ops + [op], outcomes + [r])
  {
    hide ArrayStep;
  }

  lemma ReadAfterWrite(a: seq<byte>, pos: nat, data: seq<byte>)
    ensures ArrayRead(ArrayWrite(a, pos, data), pos, |data|) == data
  {
    var w := ArrayWrite(a, pos, data);
    if data != [] {
      assert pos < |w|;
      assert w[pos..pos + |data|] == data;
    }
  }

  /** Zones of a tree that truncation has freed are free again, but for the last zone of the device. */
  lemma TruncateFrees(owner: Owners, owner': Owners, f: nat, done: iset<Slot>, freed: seq<nat>, lost: set<nat>,
      lost': set<nat>, last: int)
    requires Emptied(owner, owner', f, done, freed) && LostAfter(lost, lost', last, freed)
    requires forall z :: z in lost ==> z !in owner
    ensures |owner'| + |lost'| <= |owner| + |lost|
  {
    hide Emptied;
    EmptiedKeys(owner, owner', f, done, freed);
    assert owner'.Keys <= owner.Keys;
    SubsetCount(owner'.Keys, owner.Keys);
    if last >= 0 && last in lost' && last !in lost {
      var z: nat := last;
      assert z in owner.Keys && z !in owner'.Keys;
      SubsetCount(owner'.Keys, owner.Keys - {z});
      assert lost' == lost + {z};
    } else {
      assert lost' == lost;
    }
  }

  lemma EmptiedKeys(owner: Owners, owner': Owners, f: nat, done: iset<Slot>, freed: seq<nat>)
    requires Emptied(owner, owner', f, done, freed)
    ensures forall y :: y in owner' ==> y in owner
    ensures forall y :: y in freed <==> y in owner && y !in owner'
  {
  }

  lemma SubsetCount(a: set<nat>, b: set<nat>)
    requires a <= b
    ensures |a| <= |b|
  {
    assert b == a + (b - a);
    UnionCount(a, b - a);
  }

  method Step(fs: FileSystem, op: Op) returns (r: Outcome)
    requires fs.Valid() && op.f < |fs.vol.files|
    modifies fs, fs.zmap
    ensures fs.Valid() && ArrayStep(old(Now(fs)), op, r, Now(fs)) && |fs.vol.files| == old(|fs.vol.files|)
  {
    hide Owned, Sized, ZeroTail, WriteNeed, Need, ArrayWrite, FileSystem.Accounts, Emptied, LostAfter, Unmapped;
    match op
    case Write(f, pos, data) =>
      var result, newPos := fs.DoWrite(f, pos, data);
      r := WriteOutcome(result, newPos);
    case Read(f, pos, count) =>
      var data, newPos := fs.DoRead(f, pos, count);
      r := ReadOutcome(data);
    case Truncate(f) =>
      Conservation(fs);
      ghost var freed := fs.Truncate(f);
      Conservation(fs);
      TruncateFrees(old(fs.owner), fs.owner, f, Truncated(Sizes(old(fs.vol))[f]), freed, old(fs.lost), fs.lost,
        |fs.vol.blocks| - 1);
      r := TruncateOutcome;
  }

  /** Every run of operations refines a run on arrays of bytes, and no file disturbs another. */
  method Run(fs: FileSystem, ops: seq<Op>) returns (outcomes: seq<Outcome>, ghost states: seq<Snapshot>)
    requires fs.Valid() && forall i :: 0 <= i < |ops| ==> ops[i].f < |fs.vol.files|
    modifies fs, fs.zmap
    ensures fs.Valid() && ArrayRun(states, ops, outcomes)
    ensures states[0] == old(Now(fs)) && states[|ops|] == Now(fs)
  {
    hide FileSystem.Valid, ArrayStep;
    outcomes, states := [], [Now(fs)];
    for i := 0 to |ops|
      invariant fs.Valid() && |fs.vol.files| == old(|fs.vol.files|)
      invariant ArrayRun(states, ops[..i], outcomes)
      invariant states[0] == old(Now(fs)) && states[i] == Now(fs)
    {
      var r := Step(fs, ops[i]);
      ArrayRunNext(states, ops[..i], outcomes, ops[i], r, Now(fs));
      assert ops[..i] + [ops[i]] == ops[..i + 1];
      outcomes, states := outcomes + [r], states + [Now(fs)];
    }
    assert ops[..|ops|] == ops;
  }

  /** Bytes just written are read back, whatever the file held before. */
  method WriteThenRead(fs: FileSystem, f: nat, pos: nat, data: seq<byte>) returns (ok: bool, got: seq<byte>)
    requires fs.Valid() && f < |fs.vol.files|
    modifies fs, fs.zmap
    ensures fs.Valid()
    ensures ok <==>
      WriteNeed(old(fs.vol), f, pos, |data|) <= old(fs.zmap.Free()) && (data == [] || pos + |data| <= FileSizeMax)
    ensures ok ==> got == data
  {
    hide FileSystem.Valid, WriteNeed, ArrayWrite;
    var r := Step(fs, Write(f, pos, data));
    ok, got := r.result.Wrote?, [];
    if ok {
      ReadAfterWrite(old(Contents(fs.vol))[f], pos, data);
      assert data[..|data|] == data;
      assert data != [] ==> Contents(fs.vol)[f] == ArrayWrite(old(Contents(fs.vol))[f], pos, data);
      var r' := Step(fs, Read(f, pos, |data|));
      got := r'.data;
    }
  }

  lemma NeedAt263(v: Volume, f: nat)
    requires Ref(v, f, Double) == NoZone
    ensures WriteNeed(v, f, 263 * 1024, 1) == 3 && Need(v, f, 263, 263) == 0
  {
    hide Ref, BlockNeed;
    DoubleRange(v, f, 1);
  }

  /** In a file without a double indirect table, the first 256 blocks beyond the single one take two tables. */
  method WriteOneTable(fs: FileSystem, f: nat, data: seq<byte>) returns (r: WriteResult)
    requires fs.Valid() && f < |fs.vol.files| && Ref(fs.vol, f, Double) == NoZone && |data| == 256 * 1024
    modifies fs, fs.zmap
    ensures fs.Valid() && (r == Wrote(|data|) <==> old(fs.zmap.Free()) >= 258)
    ensures r == Wrote(|data|) ==> fs.zmap.Free() == old(fs.zmap.Free()) - 258
  {
    hide Owned, Sized, ZeroTail, Need, FileSystem.Accounts, Unmapped, Ref, ArrayWrite;
    DoubleRange(fs.vol, f, 256);
    var pos;
    r, pos := fs.DoWrite(f, 263 * 1024, data);
  }

  /**
   With two zones free, a write to block 263 of an empty file takes one for the double indirect
   table, finds none for the table below it, and leaves the file 263 blocks long. To truncate it
   then does not free the double indirect table: the file is empty and has a zone.
   */
  method StuckDoubleTable(fs: FileSystem, f: nat, x: byte) returns (r: WriteResult)
    requires fs.Valid() && f < |fs.vol.files| && fs.vol.files[f].size == 0
    requires fs.zmap.Free() == 2 && Ref(fs.vol, f, Double) == NoZone
    modifies fs, fs.zmap
    ensures fs.Valid() && r.IoError? && |fs.vol.files| == old(|fs.vol.files|)
    ensures fs.vol.files[f].size == 0 && Contents(fs.vol)[f] == []
    ensures Ref(fs.vol, f, Double) != NoZone
  {
    hide Owned, Sized, ZeroTail, WriteNeed, Need, FileSystem.Accounts, LostAfter, Unmapped, Ref, ArrayWrite, Emptied;
    NeedAt263(fs.vol, f);
    ContentsSize(fs.vol, f);
    ghost var a := Contents(fs.vol)[f];
    var pos;
    r, pos := fs.DoWrite(f, 263 * 1024, [x]);
    StretchedLength(a, 263 * 1024, [x][..0]);
    ContentsSize(fs.vol, f);
    ghost var owner := fs.owner;
    ghost var freed := fs.Truncate(f);
    KeptDouble(owner, fs.owner, f, 263 * 1024, freed);
    UnmappedIff(fs.vol, fs.owner, f, Double);
    ContentsSize(fs.vol, f);
  }

  /** That happens on a new device with two zones. */
  method StuckOnTwoZones(x: byte) returns (fs: FileSystem, r: WriteResult)
    ensures fresh(fs) && fs.Valid() && r.IoError? && |fs.vol.files| == 1
    ensures Contents(fs.vol) == [[]] && Ref(fs.vol, 0, Double) != NoZone
  {
    hide Owned, Sized, ZeroTail, FileSystem.Accounts, FileSystem.Tree, Ref, Unmapped;
    var bits := seq(8192, i => i == 0);
    TwoClear(bits);
    var zmap := new BitMap.BitMap(bits, 2, 10, false);
    fs := new FileSystem(zmap, seq(13, _ => ZeroBlock()), 1);
    NoDouble(fs, 0);
    r := StuckDoubleTable(fs, 0, x);
  }

  lemma TwoClear(bits: seq<bool>)
    requires |bits| == 8192 && bits[0] && !bits[1] && !bits[2]
    ensures BitMap.ClearCount(bits, 3) == 2
  {
    assert BitMap.ClearCount(bits, 0) == 0 && BitMap.ClearCount(bits, 1) == 0 && BitMap.ClearCount(bits, 2) == 1;
  }

  lemma NoDouble(fs: FileSystem, f: nat)
    requires fs.Valid() && fs.owner == map[]
    ensures Ref(fs.vol, f, Double) == NoZone
  {
    hide Ref, Owned;
    UnmappedIff(fs.vol, fs.owner, f, Double);
  }

  lemma ContentsSize(v: Volume, f: nat)
    requires f < |v.files|
    ensures |Contents(v)[f]| == Sizes(v)[f] == v.files[f].size
  {
  }

  lemma StretchedLength(a: seq<byte>, pos: nat, data: seq<byte>)
    requires |a| <= pos && data == []
    ensures |ArrayWrite(a, pos, data)| == pos
  {
  }

  lemma KeptDouble(owner: Owners, owner': Owners, f: nat, size: nat, freed: seq<nat>)
    requires Emptied(owner, owner', f, Truncated(size), freed) && size <= 263 * 1024 && !Unmapped(owner, f, Double)
    ensures !Unmapped(owner', f, Double)
  {
    var z :| z in owner && owner[z] == Owner(f, Double);
    assert z in owner';
  }

  lemma {:induction false} CountUsed(bits: seq<bool>, base: nat, used: set<nat>, n: nat)
    requires n < |bits| && bits[0]
    requires forall z :: z in used ==> base < z <= base + n
    requires forall b :: 0 < b <= n ==> (bits[b] <==> base + b in used)
    ensures BitMap.ClearCount(bits, n + 1) + |used| == n
  {
    if n == 0 {
      assert used == {};
      assert BitMap.ClearCount(bits, 1) == BitMap.ClearCount(bits, 0);
    } else {
      var z := base + n;
      CountUsed(bits, base, used - {z}, n - 1);
      assert bits[n] ==> |used - {z}| == |used| - 1;
      assert !bits[n] ==> used - {z} == used;
    }
  }

  lemma ZoneInRange(fs: FileSystem, z: nat)
    requires fs.Valid() && (z in fs.owner || z in fs.lost)
    ensures fs.zmap.base < z <= fs.zmap.base + fs.zmap.maxBit
  {
    if z in fs.owner {
      OwnerRefers(fs.vol, fs.owner, z);
    }
  }

  /** Set bits are the zones in use or lost. */
  lemma BitIsUsed(fs: FileSystem, b: nat)
    requires fs.Valid() && 0 < b <= fs.zmap.maxBit
    ensures fs.zmap.bits[b] <==> fs.zmap.base + b in fs.owner.Keys + fs.lost
  {
    var z := fs.zmap.base + b;
    assert fs.zmap.bits[z - fs.zmap.base] <==> z in fs.owner || z in fs.lost;
  }

  lemma OneLost(lost: set<nat>, last: int)
    requires forall z :: z in lost ==> z == last
    ensures |lost| <= 1
  {
    if z :| z in lost {
      assert lost == {z};
    }
  }

  /** Every usable zone is free, or in one slot of one file, or lost; at most one is ever lost. */
  lemma Conservation(fs: FileSystem)
    requires fs.Valid()
    ensures fs.zmap.Free() + |fs.owner| + |fs.lost| == fs.zmap.maxBit
    ensures |fs.lost| <= 1
  {
    hide Owned, Sized, ZeroTail, BitMap.ClearCount, BitMap.SetBelow;
    forall b | 0 < b <= fs.zmap.maxBit ensures fs.zmap.bits[b] <==> fs.zmap.base + b in fs.owner.Keys + fs.lost {
      BitIsUsed(fs, b);
    }
    forall z | z in fs.owner.Keys + fs.lost ensures fs.zmap.base < z <= fs.zmap.base + fs.zmap.maxBit {
      ZoneInRange(fs, z);
    }
    Total(fs.zmap.bits, fs.zmap.base, fs.zmap.maxBit, fs.owner.Keys, fs.lost);
    OneLost(fs.lost, |fs.vol.blocks| - 1);
  }

  lemma Total(bits: seq<bool>, base: nat, n: nat, owned: set<nat>, lost: set<nat>)
    requires n < |bits| && bits[0] && forall z :: z in lost ==> z !in owned
    requires forall z :: z in owned + lost ==> base < z <= base + n
    requires forall b :: 0 < b <= n ==> (bits[b] <==> base + b in owned + lost)
    ensures BitMap.ClearCount(bits, n + 1) + |owned| + |lost| == n
  {
    CountUsed(bits, base, owned + lost, n);
    UnionCount(owned, lost);
  }

  lemma UnionCount(a: set<nat>, b: set<nat>)
    requires forall z :: z in b ==> z !in a
    ensures |a + b| == |a| + |b|
  {
    assert a !! b;
  }
}
