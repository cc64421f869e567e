/**
 How many zones a write needs: one for each block in its range that is not mapped, and one for
 each indirect table above such a block that does not exist yet.
 */
module ZoneNeeds {
  import opened Blocks
  import opened Sequences
  import opened ZoneTree

  /** The slots that must be filled for block n to be mapped: its own and those of the tables above it. */
  predicate OnPath(s: Slot, n: nat) {
    n < MaxBlocks && (s == SlotOf(n) || Above(s, SlotOf(n)))
  }

  /** Slot s must be filled for one of the blocks n, ..., m - 1. */
  ghost predicate OnPaths(s: Slot, n: nat, m: nat) {
    exists b: nat :: n <= b < m && OnPath(s, b)
  }

  /** One zone if slot s of file f is empty and not among those that blocks n, ..., m - 1 fill. */
  ghost function Lacks(v: Volume, f: nat, s: Slot, n: nat, m: nat): nat {
    if Ref(v, f, s) == NoZone && !OnPaths(s, n, m) then 1 else 0
  }

  /** The zones that mapping block b takes once blocks n, ..., m - 1 are mapped. */
  ghost function BlockNeed(v: Volume, f: nat, n: nat, m: nat, b: nat): nat
    requires b < MaxBlocks
  {
    var s := SlotOf(b);
    Lacks(v, f, s, n, m) +
    match s
    case Leaf1(_) => Lacks(v, f, Single, n, m)
    case Leaf2(k, _) => Lacks(v, f, Double, n, m) + Lacks(v, f, Mid(k), n, m)
    case _ => 0
  }

  /** The zones that mapping blocks n, ..., m - 1 takes. */
  ghost function Need(v: Volume, f: nat, n: nat, m: nat): nat
    requires m <= MaxBlocks
  {
    if m <= n then 0 else Need(v, f, n, m - 1) + BlockNeed(v, f, n, m - 1, m - 1)
  }

  /** The first block behind those that bytes pos, ..., pos + len - 1 are in. */
  function BlockEnd(pos: nat, len: nat): nat {
    if len == 0 then pos / 1024 else (pos + len - 1) / 1024 + 1
  }

  /** The zones that a write of len bytes at pos takes, as far as the file can grow. */
  ghost function WriteNeed(v: Volume, f: nat, pos: nat, len: nat): nat {
    Need(v, f, pos / 1024, Min(BlockEnd(pos, len), MaxBlocks))
  }

  lemma {:induction false} NeedMonotone(v: Volume, f: nat, n: nat, m: nat, m': nat)
    requires m <= m' <= MaxBlocks
    ensures Need(v, f, n, m) <= Need(v, f, n, m')
    decreases m'
  {
    hide BlockNeed;
    if m < m' {
      NeedMonotone(v, f, n, m, m' - 1);
    }
  }

  /** A block never takes more than three zones: its own, and two tables. */
  lemma {:induction false} NeedAtMost(v: Volume, f: nat, n: nat, m: nat)
    requires n <= m <= MaxBlocks
    ensures Need(v, f, n, m) <= 3 * (m - n)
    decreases m
  {
    if n < m {
      NeedAtMost(v, f, n, m - 1);
    }
  }

  /** Mapping block n of file f has filled the slots on its path, and no other slot of the file. */
  ghost predicate PathFilled(v: Volume, v': Volume, f: nat, n: nat) {
    forall s: Slot :: Ref(v', f, s) == NoZone <==> Ref(v, f, s) == NoZone && !OnPath(s, n)
  }

  /** Blocks n, ..., m - 1 of file f were mapped: their paths are filled, and that took free0 - free zones. */
  ghost predicate Spent(v: Volume, free0: nat, f: nat, n: nat, m: nat, v': Volume, free: nat) {
    && m <= MaxBlocks && free + Need(v, f, n, m) == free0
    && (forall s: Slot :: Ref(v', f, s) == NoZone <==> Ref(v, f, s) == NoZone && !OnPaths(s, n, m))
  }

  lemma SpentNothing(v: Volume, free0: nat, f: nat, n: nat)
    requires n <= MaxBlocks
    ensures Spent(v, free0, f, n, n, v, free0)
  {
  }

  lemma NextPath(s: Slot, n: nat, m: nat)
    requires n <= m
    ensures OnPaths(s, n, m + 1) <==> OnPaths(s, n, m) || OnPath(s, m)
  {
    hide OnPath;
  }

  lemma SameNeed(v: Volume, f: nat, n: nat, m: nat, v': Volume)
    requires m < MaxBlocks && forall s: Slot :: Ref(v', f, s) == NoZone <==> Ref(v, f, s) == NoZone && !OnPaths(s, n, m)
    ensures BlockNeed(v, f, n, m, m) == BlockNeed(v', f, 0, 0, m)
  {
    hide OnPath, Ref;
    assert forall s: Slot :: !OnPaths(s, 0, 0);
    assert forall s: Slot :: Lacks(v, f, s, n, m) == Lacks(v', f, s, 0, 0);
  }

  /** One more block mapped. */
  lemma SpentMore(v: Volume, free0: nat, f: nat, n: nat, m: nat, v1: Volume, free1: nat, v2: Volume, free2: int)
    requires Spent(v, free0, f, n, m, v1, free1) && n <= m < MaxBlocks
    requires free2 == free1 - BlockNeed(v1, f, 0, 0, m)
    ensures Need(v, f, n, m + 1) == free0 - free2
    ensures free2 >= 0 && PathFilled(v1, v2, f, m) ==> Spent(v, free0, f, n, m + 1, v2, free2)
  {
    hide OnPath, Ref, BlockNeed, OnPaths;
    SameNeed(v, f, n, m, v1);
    forall s: Slot ensures OnPaths(s, n, m + 1) <==> OnPaths(s, n, m) || OnPath(s, m) {
      NextPath(s, n, m);
    }
  }

  /** The zones missing above data slot s. */
  function TableNeed(v: Volume, f: nat, s: Slot): nat
    requires !s.IsTable()
  {
    match s
    case Top(_) => 0
    case Leaf1(_) => if Ref(v, f, Single) == NoZone then 1 else 0
    case Leaf2(k, _) => (if Ref(v, f, Double) == NoZone then 1 else 0) + (if Ref(v, f, Mid(k)) == NoZone then 1 else 0)
  }

  /** What one block takes: nothing if it is mapped, else a zone for it and those for the tables missing above it. */
  lemma BlockNeedIs(v: Volume, f: nat, n: nat)
    requires n < MaxBlocks
    ensures BlockNeed(v, f, 0, 0, n) == if Lookup(v, f, n) == NoZone then 1 + TableNeed(v, f, SlotOf(n)) else 0
  {
    var s := SlotOf(n);
    assert forall t: Slot :: !OnPaths(t, 0, 0);
    if s.Leaf2? {
      assert Parent(s) == Mid(s.k) && Parent(Mid(s.k)) == Double;
    }
  }

  /** What the growth of a tree for block n fills. */
  lemma GrownFills(v: Volume, owner: Owners, v': Volume, owner': Owners, f: nat, n: nat, z: zone)
    requires Owned(v, owner) && Owned(v', owner') && n < MaxBlocks
    requires Grown(owner, owner', f, SlotOf(n), z, true) && z !in owner
    ensures PathFilled(v, v', f, n)
  {
    hide Ref, Owned;
    OwnerRefersTo(v', owner', z);
    forall s: Slot ensures Ref(v', f, s) == NoZone <==> Ref(v, f, s) == NoZone && !OnPath(s, n) {
      FilledAt(v, owner, v', owner', f, n, z, s);
    }
  }

  lemma OwnerRefersTo(v: Volume, owner: Owners, z: nat)
    requires Owned(v, owner) && z in owner
    ensures Ref(v, owner[z].file, owner[z].slot) == z != NoZone
  {
    OwnerRefers(v, owner, z);
  }

  /** A slot that is filled has its tables. */
  lemma PathOfFilled(v: Volume, f: nat, n: nat, s: Slot)
    requires n < MaxBlocks && Lookup(v, f, n) != NoZone && OnPath(s, n)
    ensures Ref(v, f, s) != NoZone
  {
    var d := SlotOf(n);
    if d.Leaf2? {
      assert Ref(v, f, Parent(d)) != NoZone && Parent(d) == Mid(d.k) && Parent(Mid(d.k)) == Double;
    }
  }

  lemma FilledAt(v: Volume, owner: Owners, v': Volume, owner': Owners, f: nat, n: nat, z: zone, s: Slot)
    requires Owned(v, owner) && Owned(v', owner') && n < MaxBlocks && Lookup(v', f, n) != NoZone
    requires Grown(owner, owner', f, SlotOf(n), z, true) && z !in owner
    ensures Ref(v', f, s) == NoZone <==> Ref(v, f, s) == NoZone && !OnPath(s, n)
  {
    hide Ref, Owned;
    UnmappedIff(v, owner, f, s);
    UnmappedIff(v', owner', f, s);
    if OnPath(s, n) {
      PathOfFilled(v', f, n, s);
    }
  }

  lemma AlreadyFilled(v: Volume, f: nat, n: nat)
    requires n < MaxBlocks && Lookup(v, f, n) != NoZone
    ensures PathFilled(v, v, f, n)
  {
    hide Ref;
    forall s: Slot | OnPath(s, n) ensures Ref(v, f, s) != NoZone {
      PathOfFilled(v, f, n, s);
    }
  }

  lemma SameRefsFilled(v: Volume, v1: Volume, v2: Volume, f: nat, n: nat)
    requires PathFilled(v, v1, f, n) && SameRefs(v1, v2)
    ensures PathFilled(v, v2, f, n)
  {
    hide Ref, OnPath;
  }

  /** The tables that block b is the first one to need: a second-level one every 256 blocks. */
  function NewTables(b: nat): nat {
    if b == 7 then 1
    else if b < 263 then 0
    else (if b == 263 then 1 else 0) + (if (b - 263) % 256 == 0 then 1 else 0)
  }

  /** The tables above the first n blocks of a file. */
  function Tables(n: nat): nat {
    (if n > 7 then 1 else 0) + (if n > 263 then 1 + (n - 263 + 255) / 256 else 0)
  }

  lemma TablesNext(b: nat)
    ensures Tables(b + 1) == Tables(b) + NewTables(b)
  {
    if b > 263 {
      var x := b - 263;
      assert (x + 256) / 256 == x / 256 + 1 && (x + 255) / 256 == x / 256 + if x % 256 == 0 then 0 else 1;
    }
  }

  lemma LeafNew(n: nat, b: nat)
    requires b < MaxBlocks
    ensures !OnPaths(SlotOf(b), n, b)
  {
    if x: nat :| n <= x < b && OnPath(SlotOf(b), x) {
      SlotRoundTrip(x);
      SlotRoundTrip(b);
      assert false;
    }
  }

  lemma SingleNew(n: nat, b: nat)
    requires n <= 7 <= b < 263
    ensures OnPaths(Single, n, b) <==> b != 7
  {
    if b > 7 {
      assert OnPath(Single, 7);
    }
  }

  lemma DoubleNew(n: nat, b: nat)
    requires n <= 263 <= b < MaxBlocks
    ensures OnPaths(Double, n, b) <==> b != 263
  {
    if b > 263 {
      assert SlotOf(263) == Leaf2(0, 0) && Parent(Parent(SlotOf(263))) == Double;
      assert OnPath(Double, 263);
    }
  }

  lemma MidNew(n: nat, b: nat)
    requires n <= 263 <= b < MaxBlocks
    ensures OnPaths(Mid((b - 263) / 256), n, b) <==> (b - 263) % 256 != 0
  {
    var k := (b - 263) / 256;
    if (b - 263) % 256 != 0 {
      SlotNext(b - 1);
      assert Parent(SlotOf(b - 1)) == Mid(k) && OnPath(Mid(k), b - 1);
    } else if x: nat :| n <= x < b && OnPath(Mid(k), x) {
      assert false;
    }
  }

  lemma UnderMissing(v: Volume, f: nat, k: nat, j: nat)
    requires Ref(v, f, Double) == NoZone && k < ZonesPerBlock && j < ZonesPerBlock
    ensures Ref(v, f, Mid(k)) == NoZone && Ref(v, f, Leaf2(k, j)) == NoZone
  {
    assert Parent(Leaf2(k, j)) == Mid(k) && Parent(Mid(k)) == Double;
  }

  /** A file without a double indirect table or, to begin with its direct zones, without zones. */
  ghost predicate Bare(v: Volume, f: nat, n: nat) {
    Ref(v, f, Double) == NoZone && (n <= 7 ==> forall s: Slot :: Ref(v, f, s) == NoZone)
  }

  lemma BareBlock(v: Volume, f: nat, n: nat, b: nat)
    requires Bare(v, f, n) && (n <= 7 || n == 263) && n <= b < MaxBlocks
    ensures BlockNeed(v, f, n, b, b) == 1 + NewTables(b)
  {
    hide Ref, OnPaths;
    LeafNew(n, b);
    if b >= 263 {
      var k, j := (b - 263) / 256, (b - 263) % 256;
      UnderMissing(v, f, k, j);
      DoubleNew(n, b);
      MidNew(n, b);
    } else if b >= 7 {
      SingleNew(n, b);
    }
  }

  /**
   Blocks mapped one after the other, from the start of a file without zones or from the first
   block of the double indirect range of a file without a double indirect table: one zone each, one for
   the single and one for the double indirect table, and one for every 256 blocks behind that.
   */
  lemma {:induction false} BareNeed(v: Volume, f: nat, n: nat, m: nat)
    requires Bare(v, f, n) && (n == 0 || n == 263) && n <= m <= MaxBlocks
    ensures Need(v, f, n, m) == m - n + Tables(m) - Tables(n)
    decreases m
  {
    hide BlockNeed, Bare, Tables, NewTables;
    if n < m {
      BareNeed(v, f, n, m - 1);
      BareBlock(v, f, n, m - 1);
      TablesNext(m - 1);
    }
  }

  /** So mapping m > 0 blocks from block 263 on takes m zones, the double indirect table, and a table for every 256. */
  lemma DoubleRange(v: Volume, f: nat, m: nat)
    requires Ref(v, f, Double) == NoZone && 0 < m && 263 + m <= MaxBlocks
    ensures Need(v, f, 263, 263 + m) == m + 1 + (m + 255) / 256
  {
    BareNeed(v, f, 263, 263 + m);
  }
}
