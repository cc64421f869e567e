/**
 Two-level page tables and frame counts: copying a mapping into a child's page tables and freeing
 it again (copy_mmap_pts and free_mmap_pts in mm/memory.c). A directory entry holds its table;
 pages are numbered across tables.
 */
module PageTables {
  import opened Blocks
  import opened BuddyGeometry
  import opened PageAllocator

  datatype Pte = Empty | Mapped(frame: nat, flags: nat)

  datatype Entry = NoTable | Table(frame: nat, ptes: seq<Pte>)

  type Page = seq<byte>

  function One(p: Pte, f: nat): nat {
    if p.Mapped? && p.frame == f then 1 else 0
  }

  /** How many entries of a page table name frame f. */
  function PteRefs(ptes: seq<Pte>, f: nat): nat {
    if ptes == [] then 0 else One(ptes[0], f) + PteRefs(ptes[1..], f)
  }

  /** References to frame f under a directory entry: the table's own frame, and the entries of the table. */
  function EntryRefs(e: Entry, f: nat): nat {
    if e.NoTable? then 0 else (if e.frame == f then 1 else 0) + PteRefs(e.ptes, f)
  }

  function Refs(dir: seq<Entry>, f: nat): nat {
    if dir == [] then 0 else EntryRefs(dir[0], f) + Refs(dir[1..], f)
  }

  lemma {:induction false} PteRefsUpdate(ptes: seq<Pte>, j: nat, x: Pte, f: nat)
    requires j < |ptes|
    ensures PteRefs(ptes[j := x], f) + One(ptes[j], f) == PteRefs(ptes, f) + One(x, f)
  {
    if j == 0 {
      assert ptes[0 := x][1..] == ptes[1..];
    } else {
      PteRefsUpdate(ptes[1..], j - 1, x, f);
      assert ptes[j := x][1..] == ptes[1..][j - 1 := x];
    }
  }

  lemma {:induction false} RefsUpdate(dir: seq<Entry>, i: nat, x: Entry, f: nat)
    requires i < |dir|
    ensures Refs(dir[i := x], f) + EntryRefs(dir[i], f) == Refs(dir, f) + EntryRefs(x, f)
  {
    if i == 0 {
      assert dir[0 := x][1..] == dir[1..];
    } else {
      RefsUpdate(dir[1..], i - 1, x, f);
      assert dir[i := x][1..] == dir[1..][i - 1 := x];
    }
  }

  lemma {:induction false} PteRefsHas(ptes: seq<Pte>, j: nat)
    requires j < |ptes| && ptes[j].Mapped?
    ensures PteRefs(ptes, ptes[j].frame) >= 1
  {
    if j > 0 {
      PteRefsHas(ptes[1..], j - 1);
    }
  }

  lemma {:induction false} RefsHas(dir: seq<Entry>, i: nat, f: nat)
    requires i < |dir|
    ensures Refs(dir, f) >= EntryRefs(dir[i], f)
  {
    if i > 0 {
      RefsHas(dir[1..], i - 1, f);
    }
  }

  lemma {:induction false} PteRefsNone(ptes: seq<Pte>, f: nat)
    requires forall j :: 0 <= j < |ptes| ==> ptes[j] == Empty
    ensures PteRefs(ptes, f) == 0
  {
    if ptes != [] {
      PteRefsNone(ptes[1..], f);
    }
  }

  /** The entry for page j of directory slot i. */
  function Lookup(dir: seq<Entry>, i: nat, j: nat): Pte {
    if i < |dir| && dir[i].Table? && j < |dir[i].ptes| then dir[i].ptes[j] else Empty
  }

  ghost predicate Formed(dir: seq<Entry>) {
    |dir| == 1024 && forall i :: 0 <= i < 1024 && dir[i].Table? ==> |dir[i].ptes| == 1024
  }

  function Blank(): (r: seq<Pte>)
    ensures |r| == 1024 && forall j :: 0 <= j < 1024 ==> r[j] == Empty
  {
    seq(1024, _ => Empty)
  }

  function At(s: seq<nat>, f: nat): nat {
    if f < |s| then s[f] else 0
  }

  function ZeroPage(): (r: Page)
    ensures |r| == 4096 && forall k :: 0 <= k < 4096 ==> r[k] == 0
  {
    seq(4096, _ => 0)
  }

  /** The directory with entry (i, j) set to x. */
  function WithPte(dir: seq<Entry>, i: nat, j: nat, x: Pte): (r: seq<Entry>)
    requires Formed(dir) && i < 1024 && j < 1024 && dir[i].Table?
    ensures Formed(r)
    ensures forall i', j' :: 0 <= i' && 0 <= j' ==>
      Lookup(r, i', j') == if i' == i && j' == j then x else Lookup(dir, i', j')
  {
    dir[i := Table(dir[i].frame, dir[i].ptes[j := x])]
  }

  lemma WithPteRefs(dir: seq<Entry>, i: nat, j: nat, x: Pte, f: nat)
    requires Formed(dir) && i < 1024 && j < 1024 && dir[i].Table?
    ensures Refs(WithPte(dir, i, j, x), f) + One(Lookup(dir, i, j), f) == Refs(dir, f) + One(x, f)
  {
    RefsUpdate(dir, i, Table(dir[i].frame, dir[i].ptes[j := x]), f);
    PteRefsUpdate(dir[i].ptes, j, x, f);
  }

  lemma LookupRefs(dir: seq<Entry>, i: nat, j: nat)
    requires Lookup(dir, i, j).Mapped?
    ensures Refs(dir, Lookup(dir, i, j).frame) >= 1
  {
    RefsHas(dir, i, Lookup(dir, i, j).frame);
    PteRefsHas(dir[i].ptes, j);
  }

  /** What a copied entry is, for the counts and contents of frames before and after. */
  ghost predicate Copied(src: Pte, dst: Pte, shared: bool, count: seq<nat>, data: seq<Page>, count': seq<nat>,
      data': seq<Page>) {
    match src
    case Empty => dst == Empty
    case Mapped(frame, flags) =>
      if shared then dst == src
      else
        && dst.Mapped? && dst.flags == flags && dst.frame < |count| && count[dst.frame] == 0
        && dst.frame < |count'| && count'[dst.frame] == 1
        && dst.frame < |data'| && frame < |data| && data'[dst.frame] == data[frame]
  }

  function NoTables(): (r: seq<Entry>)
    ensures Formed(r) && forall i :: 0 <= i < 1024 ==> r[i] == NoTable
  {
    seq(1024, _ => NoTable)
  }

  lemma {:induction false} NoTablesRefs(dir: seq<Entry>, f: nat)
    requires forall i :: 0 <= i < |dir| ==> dir[i] == NoTable
    ensures Refs(dir, f) == 0
  {
    if dir != [] {
      NoTablesRefs(dir[1..], f);
    }
  }

  /** A frame inside memory can be freed without upsetting the maps. */
  lemma Freeable(pages: PageAllocator, f: nat)
    requires pages.Valid() && MapsCover(pages.areas.frames) && 0 < f < pages.count.Length
    ensures f < pages.areas.frames && AllMapped(pages.free + {f}, pages.areas.frames)
  {
    hide MapsCover;
    CoveredMapped(pages.free + {f}, pages.areas.frames);
  }

  class AddressSpaces {
    /** The frames and their counts, as mem_map has them. */
    const pages: PageAllocator
    ghost var count: seq<nat>
    /** The contents of each frame. */
    var data: seq<Page>
    var from: seq<Entry>
    var to: seq<Entry>
    /** References to each frame from elsewhere. */
    ghost var others: seq<nat>
    /** Frames that never become free: reserved ones, and those in use elsewhere without a count. */
    ghost const fixed: set<nat>

    /** Each frame's count is the number of references to it, with one more for a frame just allocated. */
    ghost predicate Counted(held: int)
      reads this
    {
      forall f: nat :: At(count, f) == At(others, f) + Refs(from, f) + Refs(to, f) + if f == held then 1 else 0
    }

    ghost predicate Sized()
      reads this
    {
      Formed(from) && Formed(to) && |count| == |data| == |others|
    }

    /** The free frames are those with count 0 that are not fixed; no entry names a fixed or reserved frame. */
    ghost predicate Backed()
      reads this, pages.Repr()
    {
      && pages.Valid() && this !in pages.Repr() && MapsCover(pages.areas.frames)
      && |count| == pages.count.Length == pages.reserved.Length
      && (forall f :: 0 <= f < |count| ==> pages.count[f] == count[f])
      && (forall f :: f in pages.free <==> 0 < f < |count| && count[f] == 0 && f !in fixed)
      && (forall f :: 0 <= f < |count| && f !in fixed ==> !pages.reserved[f])
      && (forall f: nat :: Refs(from, f) + Refs(to, f) > 0 ==> 0 < f < |count| && f !in fixed)
    }

    ghost predicate Valid()
      reads this, pages.Repr()
    {
      Sized() && Counted(-1) && Backed()
    }

    /** Two address spaces without user pages: whatever is in use is in use elsewhere. */
    constructor (pages: PageAllocator, data: seq<Page>)
      requires pages.Valid() && MapsCover(pages.areas.frames) && |data| == pages.count.Length
      requires forall f :: 0 <= f < pages.count.Length ==> pages.count[f] >= 0
      requires forall f :: f in pages.free ==> pages.count[f] == 0 && !pages.reserved[f]
      ensures Valid() && this.pages == pages && from == to == NoTables()
    {
      this.pages, this.data := pages, data;
      fixed := set f | 0 <= f < pages.count.Length && (pages.reserved[f] || (pages.count[f] == 0 && f !in pages.free));
      from, to := NoTables(), NoTables();
      count := seq(pages.count.Length,
        f requires 0 <= f < pages.count.Length && pages.count[f] >= 0 reads pages.count => pages.count[f]);
      others := count;
      new;
      hide PageAllocator.Valid;
      forall f: nat ensures Refs(NoTables(), f) == 0 {
        NoTablesRefs(NoTables(), f);
      }
    }

    /** get_one_page: a free frame, cleared. */
    method GetPage() returns (ok: bool, f: nat)
      requires Valid()
      modifies `count, `data, pages.Repr()
      ensures Sized() && Backed()
      ensures ok <==> old(pages.free) != {}
      ensures !ok ==> count == old(count) && data == old(data) && pages.free == {}
      ensures ok ==> f in old(pages.free) && pages.free == old(pages.free) - {f} && f !in fixed
      ensures ok ==>
        0 < f < |count| && old(count)[f] == 0 && count == old(count)[f := 1] && data == old(data)[f := ZeroPage()]
      ensures ok ==> |data[f]| == 4096 && forall k :: 0 <= k < 4096 ==> data[f][k] == 0
      ensures ok ==> Counted(f)
    {
      hide Refs, Formed, PageAllocator.Valid, MapsCover;
      var addr := pages.GetOnePage();
      f := addr / PageSize;
      ok := addr != 0;
      if ok {
        count := count[f := 1];
        data := data[f := ZeroPage()];
      }
    }

    /** fill_pgitem: a page table for slot i of the parent, if there is none. */
    method FillPgitem(i: nat) returns (ok: bool, ghost f: nat)
      requires Valid() && i < 1024
      modifies `count, `data, `from, pages.Repr()
      ensures Valid() && Kept(false, old(count), old(data), count, data)
      ensures ok <==> TableNeed(old(from[i])) <= old(|pages.free|)
      ensures from == if ok && old(from[i]).NoTable? then old(from)[i := Table(f, Blank())] else old(from)
      ensures ok ==> from[i].Table? && forall i', j' :: 0 <= i' && 0 <= j' ==>
        Lookup(from, i', j') == old(Lookup(from, i', j'))
      ensures |pages.free| == if ok then old(|pages.free|) - TableNeed(old(from[i])) else 0
    {
      hide Refs, PageAllocator.Valid, MapsCover;
      ok, f := true, 0;
      if from[i].NoTable? {
        var frame;
        ok, frame := GetPage();
        f := frame;
        if ok {
          var e := Table(frame, Blank());
          forall g: nat ensures Refs(from[i := e], g) == Refs(from, g) + if g == frame then 1 else 0 {
            RefsUpdate(from, i, e, g);
            PteRefsNone(Blank(), g);
          }
          FormedUpdate(from, i, e);
          from := from[i := e];
        }
      }
    }

    /** An entry of the parent for the frame just got. */
    method PutParentPte(i: nat, j: nat, x: Pte)
      requires Sized() && Backed() && x.Mapped? && Counted(x.frame) && 0 < x.frame < |count| && x.frame !in fixed
      requires i < 1024 && j < 1024 && from[i].Table? && Lookup(from, i, j) == Empty
      modifies `from
      ensures Valid() && from == WithPte(old(from), i, j, x)
    {
      hide Refs, Formed, PageAllocator.Valid, Lookup;
      forall g: nat ensures Refs(WithPte(from, i, j, x), g) == Refs(from, g) + One(x, g) {
        WithPteRefs(from, i, j, x, g);
      }
      from := WithPte(from, i, j, x);
    }

    /** One turn of the loop of mmap_anonymous: a table, if there is none, and a cleared page that can be written. */
    method MapPage(i: nat, j: nat) returns (ok: bool, ghost f: nat)
      requires Valid() && i < 1024 && j < 1024 && Lookup(from, i, j) == Empty
      modifies `count, `data, `from, pages.Repr()
      ensures Valid() && Kept(false, old(count), old(data), count, data)
      ensures ok <==> TableNeed(old(from[i])) + 1 <= old(|pages.free|)
      ensures |pages.free| == if ok then old(|pages.free|) - TableNeed(old(from[i])) - 1 else 0
      ensures ok ==> f < |data| && old(count)[f] == 0
      ensures ok ==> |data[f]| == 4096 && forall k :: 0 <= k < 4096 ==> data[f][k] == 0
      ensures forall i', j' :: 0 <= i' && 0 <= j' ==>
        Lookup(from, i', j') == if ok && i' == i && j' == j then Mapped(f, 7) else old(Lookup(from, i', j'))
    {
      hide Refs, Formed, Lookup, PageAllocator.Valid, MapsCover;
      ok, f := FillPgitem(i);
      if !ok {
        return;
      }
      var frame;
      ok, frame := GetPage();
      f := frame;
      if ok {
        PutParentPte(i, j, Mapped(frame, 7));
      }
    }

    /** A page table for slot i of the child. */
    method NewTable(i: nat) returns (ok: bool, ghost f: nat)
      requires Valid() && i < 1024 && to[i].NoTable?
      modifies `count, `data, `to, pages.Repr()
      ensures Valid() && Kept(false, old(count), old(data), count, data)
      ensures ok <==> old(pages.free) != {}
      ensures to == if ok then old(to)[i := Table(f, Blank())] else old(to)
      ensures pages.free == old(pages.free) - {f} && (ok ==> f in old(pages.free))
    {
      hide Refs, PageAllocator.Valid, MapsCover;
      var frame;
      ok, frame := GetPage();
      f := frame;
      if ok {
        var e := Table(frame, Blank());
        forall g: nat ensures Refs(to[i := e], g) == Refs(to, g) + if g == frame then 1 else 0 {
          RefsUpdate(to, i, e, g);
          PteRefsNone(Blank(), g);
        }
        FormedUpdate(to, i, e);
        to := to[i := e];
      }
    }

    /** One more use of a frame that an entry names. */
    method Share(f: nat)
      requires Valid() && Refs(from, f) > 0
      modifies `count, pages.count
      ensures Sized() && Backed() && Counted(f) && 0 < f < |count| && f !in fixed
      ensures count == old(count)[f := old(count)[f] + 1]
    {
      hide Refs, Formed, PageAllocator.Valid;
      pages.AddUse(f);
      count := count[f := count[f] + 1];
    }

    /** An entry for the frame just got. */
    method PutPte(i: nat, j: nat, x: Pte)
      requires Sized() && Backed() && x.Mapped? && Counted(x.frame) && 0 < x.frame < |count| && x.frame !in fixed
      requires i < 1024 && j < 1024 && to[i].Table? && Lookup(to, i, j) == Empty
      modifies `to
      ensures Valid() && to == WithPte(old(to), i, j, x)
    {
      hide Refs, Formed, PageAllocator.Valid, Lookup;
      forall g: nat ensures Refs(WithPte(to, i, j, x), g) == Refs(to, g) + One(x, g) {
        WithPteRefs(to, i, j, x, g);
      }
      to := WithPte(to, i, j, x);
    }

    /** The copy of one page: the same frame if it is shared, else a new one with the same contents. */
    method CopyPage(i: nat, j: nat, shared: bool) returns (ok: bool, ghost x: Pte)
      requires Valid() && i < 1024 && j < 1024 && to[i].Table? && Lookup(to, i, j) == Empty
      requires Lookup(from, i, j).Mapped?
      modifies `count, `data, `to, pages.Repr()
      ensures Valid() && Kept(shared, old(count), old(data), count, data)
      ensures ok <==> shared || old(pages.free) != {}
      ensures to == if ok then WithPte(old(to), i, j, x) else old(to)
      ensures |pages.free| == if shared || !ok then old(|pages.free|) else old(|pages.free|) - 1
      ensures ok ==> Copied(Lookup(from, i, j), x, shared, old(count), old(data), count, data)
    {
      hide Refs, Formed, Lookup, PageAllocator.Valid;
      var src := Lookup(from, i, j);
      LookupRefs(from, i, j);
      assert At(count, src.frame) >= 1;
      ok := true;
      var dst := src;
      if shared {
        Share(src.frame);
      } else {
        var f;
        ok, f := GetPage();
        dst := Mapped(f, src.flags);
        if ok {
          data := data[f := data[src.frame]];
        }
      }
      x := dst;
      if ok {
        PutPte(i, j, dst);
      }
    }

    ghost predicate SlotsKept(b: Before)
      reads this
    {
      SlotsFrom(b, to)
    }

    /** Every frame that an entry names is counted. */
    lemma NamesCounted()
      requires Valid()
      ensures InUse(from, count) && InUse(to, count)
    {
      hide Refs, Formed;
      forall i, j | 0 <= i && 0 <= j && Lookup(from, i, j).Mapped?
        ensures var f := Lookup(from, i, j).frame; f < |count| && count[f] > 0
      {
        LookupRefs(from, i, j);
        assert At(count, Lookup(from, i, j).frame) >= 1;
      }
      forall i, j | 0 <= i && 0 <= j && Lookup(to, i, j).Mapped?
        ensures var f := Lookup(to, i, j).frame; f < |count| && count[f] > 0
      {
        LookupRefs(to, i, j);
        assert At(count, Lookup(to, i, j).frame) >= 1;
      }
    }

    /** The inner loop of copy_mmap_pts: pages m to n of slot i. It takes one frame for each private page. */
    method CopyTable(i: nat, m: nat, n: nat, shared: bool, ghost b: Before) returns (ok: bool)
      requires Valid() && i < 1024 && m <= n <= 1024 && to[i].Table? && shared == b.shared
      requires forall j :: 0 <= j < 1024 ==> (InMapping(b, i, j) <==> m <= j < n)
      requires UpTo(b, from, to, count, data, i, 0) && SlotsKept(b) && Clear(b) && InUse(from, b.count)
      modifies `count, `data, `to, pages.Repr()
      ensures Valid() && SlotsKept(b) && Kept(b.shared, b.count, b.data, count, data) && OnlySlot(old(to), to, i)
      ensures ok ==> UpTo(b, from, to, count, data, i + 1, 0)
      ensures ok <==> RowNeed(b, from, i, 1024) <= old(|pages.free|)
      ensures |pages.free| == if ok then old(|pages.free|) - RowNeed(b, from, i, 1024) else 0
    {
      hide Copied, InMapping, Clear, InUse, Lookup, UpTo, Counted, Backed;
      RowStart(b, from, to, count, data, i, m);
      RowNeedNone(b, from, i, m);
      var j := m;
      while j < n
        invariant m <= j <= n && Valid() && SlotsKept(b) && to[i].Table? && UpTo(b, from, to, count, data, i, j)
        invariant OnlySlot(old(to), to, i) && |pages.free| + RowNeed(b, from, i, j) == old(|pages.free|)
      {
        NamesCounted();
        NotYet(b, from, to, count, data, i, j);
        if Lookup(from, i, j).Mapped? {
          ghost var to0, count0, data0 := to, count, data;
          ghost var x;
          ok, x := CopyPage(i, j, shared);
          if !ok {
            KeptOn(b, from, to0, count0, data0, count, data, i, j);
            RowNeedMore(b, from, i, j + 1, 1024);
            return;
          }
          StepCopied(b, from, to0, count0, data0, count, data, i, j, x);
        } else {
          StepSkip(b, from, to, count, data, i, j);
        }
        j := j + 1;
      }
      RowEnd(b, from, to, count, data, i, n);
      RowNeedRest(b, from, i, n, 1024);
      ok := true;
    }

    /** A table for slot i, if there is none. */
    method NeedTable(i: nat, ghost b: Before) returns (ok: bool)
      requires Valid() && i < 1024 && Reached(b, i)
      requires UpTo(b, from, to, count, data, i, 0) && SlotsKept(b)
      modifies `count, `data, `to, pages.Repr()
      ensures Valid() && SlotsKept(b) && Kept(b.shared, b.count, b.data, count, data) && OnlySlot(old(to), to, i)
      ensures ok ==> to[i].Table? && UpTo(b, from, to, count, data, i, 0)
      ensures ok <==> TableNeed(old(to[i])) <= old(|pages.free|)
      ensures |pages.free| == if ok then old(|pages.free|) - TableNeed(old(to[i])) else 0
    {
      hide Copied, InMapping, Reached, InUse, UpTo, Counted, Backed;
      ok := true;
      UpToKept(b, from, to, count, data, i, 0);
      if to[i].NoTable? {
        NamesCounted();
        ghost var to0, count0, data0, f := to, count, data, 0;
        ok, f := NewTable(i);
        KeptOn(b, from, to0, count0, data0, count, data, i, 0);
        if ok {
          StepTable(b, from, to0, count0, data0, count, data, i, Table(f, Blank()));
        }
      }
    }

    /** The mapping is copied in the first n slots, and the others are as they were. */
    ghost predicate Progress(b: Before, n: nat)
      reads this
    {
      SlotsKept(b) && UpTo(b, from, to, count, data, n, 0) && TablesMade(b, to, n) && Ahead(b, to, n)
    }

    /** One turn of the outer loop of copy_mmap_pts: a table for slot i, and pages m to n. */
    method CopySlot(i: nat, m: nat, n: nat, shared: bool, ghost b: Before) returns (ok: bool)
      requires Valid() && i < 1024 && m <= n <= 1024 && shared == b.shared && Reached(b, i)
      requires forall j :: 0 <= j < 1024 ==> (InMapping(b, i, j) <==> m <= j < n)
      requires Progress(b, i) && Clear(b) && InUse(from, b.count)
      modifies `count, `data, `to, pages.Repr()
      ensures Valid() && SlotsKept(b) && Kept(b.shared, b.count, b.data, count, data)
      ensures ok ==> Progress(b, i + 1)
      ensures ok <==> SlotNeed(b, from, i) <= old(|pages.free|)
      ensures |pages.free| == if ok then old(|pages.free|) - SlotNeed(b, from, i) else 0
    {
      hide Refs, Copied, InMapping, Reached, InUse, UpTo, Clear, Lookup, TablesMade, OnlySlot, SlotNeed, Ahead, RowNeed;
      ghost var to0 := to;
      SlotCost(b, from, to, i);
      ok := NeedTable(i, b);
      if !ok {
        return;
      }
      ghost var to1 := to;
      ok := CopyTable(i, m, n, shared, b);
      if ok {
        OneMoreTable(b, to0, to1, to, i);
      }
    }

    /**
     copy_mmap_pts. It succeeds exactly if enough frames are free: one for each slot of the mapping
     without a table, and one for each present page unless the mapping is shared. Then each page of
     the mapping, and no other, is in the child's tables: the parent's frame if the mapping is shared,
     else a frame that was free, with the same contents and protection. Frames in use keep their
     contents, and every count still is the number of references, also when memory runs out on the way.
     */
    method CopyMapping(start: nat, end: nat, shared: bool) returns (ok: bool)
      requires Valid() && end <= 0xFFC0_0000
      requires Clear(Before(start, end, shared, count, data, to))
      modifies `count, `data, `to, pages.Repr()
      ensures Valid() && Kept(shared, old(count), old(data), count, data)
      ensures
        var b := Before(start, end, shared, old(count), old(data), old(to));
        && SlotsKept(b) && (start < UserAddr ==> to == old(to) && pages.free == old(pages.free))
        && (ok <==> start < UserAddr || CopyNeed(b, from, 1024) <= old(|pages.free|))
        && (start >= UserAddr ==> |pages.free| == if ok then old(|pages.free|) - CopyNeed(b, from, 1024) else 0)
        && (ok && start >= UserAddr ==> UpTo(b, from, to, count, data, 1024, 0) && TablesMade(b, to, 1024))
    {
      hide InMapping, Reached, InUse, UpTo, Clear, TablesMade, SlotNeed, Ahead, Counted, Backed;
      ghost var b := Before(start, end, shared, count, data, to);
      ok := true;
      if start < UserAddr {
        return;
      }
      NamesCounted();
      NothingYet(b, from);
      var addr := start;
      while addr < end
        invariant Valid() && Progress(b, addr / 0x40_0000)
        invariant |pages.free| + CopyNeed(b, from, addr / 0x40_0000) == old(|pages.free|)
        invariant addr == start || (addr % 0x40_0000 == 0 && start < addr <= 0x1_0000_0000)
        decreases end - addr
      {
        var i, m, n := Bounds(addr, end, b);
        ok := CopySlot(i, m, n, shared, b);
        if !ok {
          NeedMore(b, from, i + 1, 1024);
          return;
        }
        addr := (i + 1) * 0x40_0000;
        assert addr / 0x40_0000 == i + 1;
      }
      Rest(b, from, to, count, data, addr);
      NoneBeyond(b, to, addr);
      NeedAll(b, from, addr);
      UpToKept(b, from, to, count, data, 1024, 0);
    }

    /** free_one_page on a frame that the child's tables name. */
    method DropUse(f: nat)
      requires Valid() && Refs(to, f) > 0
      modifies `count, pages.Repr()
      ensures Sized() && Backed() && |count| == old(|count|)
      ensures forall g: nat :: At(count, g) + (if g == f then 1 else 0) == At(others, g) + Refs(from, g) + Refs(to, g)
    {
      hide Refs, Formed, PageAllocator.Valid, MapsCover;
      assert At(count, f) >= 1;
      Freeable(pages, f);
      assert f * PageSize / PageSize == f;
      pages.FreeOnePage(f * PageSize);
      count := count[f := count[f] - 1];
    }

    /** free_one_page on the frame of entry (i, j), which is cleared. */
    method FreePte(i: nat, j: nat)
      requires Valid() && i < 1024 && j < 1024 && to[i].Table? && Lookup(to, i, j).Mapped?
      modifies `count, `to, pages.Repr()
      ensures Valid() && to == WithPte(old(to), i, j, Empty) && |count| == old(|count|)
    {
      hide Refs, Formed, Lookup, PageAllocator.Valid;
      var x := Lookup(to, i, j);
      LookupRefs(to, i, j);
      forall g: nat ensures Refs(WithPte(to, i, j, Empty), g) + One(x, g) == Refs(to, g) {
        WithPteRefs(to, i, j, Empty, g);
      }
      DropUse(x.frame);
      to := WithPte(to, i, j, Empty);
    }

    /** The frame of a table without entries, and its slot. */
    method FreeEmpty(i: nat)
      requires Valid() && i < 1024 && to[i].Table? && AllEmpty(to[i].ptes)
      modifies `count, `to, pages.Repr()
      ensures Valid() && to == old(to)[i := NoTable] && |count| == old(|count|)
    {
      hide Refs, PageAllocator.Valid;
      var x := to[i].frame;
      forall g: nat ensures Refs(to[i := NoTable], g) + (if g == x then 1 else 0) == Refs(to, g) {
        RefsUpdate(to, i, NoTable, g);
        PteRefsNone(to[i].ptes, g);
      }
      DropUse(x);
      to := to[i := NoTable];
    }

    /** The inner loop of free_mmap_pts: pages m to n of slot i, and the table if no other page is left. */
    method FreeTable(i: nat, m: nat, n: nat)
      requires Valid() && i < 1024 && m <= n <= 1024 && to[i].Table?
      requires forall j :: m <= j < n ==> Lookup(to, i, j).Mapped?
      modifies `count, `to, pages.Repr()
      ensures Valid() && |count| == old(|count|)
      ensures
        var ptes := Cleared(old(to[i].ptes), m, n);
        to == old(to)[i := if AllEmpty(ptes) then NoTable else Table(old(to[i].frame), ptes)]
    {
      hide Counted, Backed;
      var rest := false;
      ghost var e := to[i];
      assert Cleared(e.ptes, m, m) == e.ptes;
      assert to == to[i := e];
      var j := 0;
      while j < 1024
        invariant 0 <= j <= 1024 && Valid() && |count| == old(|count|)
        invariant to == old(to)[i := Table(e.frame, Cleared(e.ptes, m, Within(m, n, j)))]
        invariant rest <==> exists k :: 0 <= k < j && !(m <= k < n) && e.ptes[k] != Empty
      {
        if j < m || j >= n {
          if to[i].ptes[j] != Empty {
            rest := true;
          }
        } else {
          assert Lookup(old(to), i, j) == e.ptes[j];
          FreePte(i, j);
          ClearedNext(e.ptes, m, j);
        }
        j := j + 1;
      }
      if !rest {
        FreeEmpty(i);
      }
    }

    /**
     free_mmap_pts on the child's tables, for a mapping whose pages are all there: its entries are
     cleared and so are the slots of tables that are left without entries; each count stays the
     number of references.
     */
    method FreeMapping(start: nat, end: nat)
      requires Valid() && end <= 0xFFC0_0000
      requires Populated(Before(start, end, false, count, data, to), to)
      modifies `count, `to, pages.Repr()
      ensures Valid() && |count| == old(|count|)
      ensures to == if start < UserAddr then old(to)
        else FreedDir(Before(start, end, false, old(count), old(data), old(to)), old(to), 1024)
    {
      hide InMapping, Reached, Lookup, Populated, Counted, Backed;
      ghost var b := Before(start, end, false, count, data, to);
      if start < UserAddr {
        return;
      }
      var addr := start;
      NoneFreed(b, to, start / 0x40_0000);
      while addr < end
        invariant Valid() && |count| == old(|count|) && to == FreedDir(b, b.to, addr / 0x40_0000)
        invariant addr == start || (addr % 0x40_0000 == 0 && addr > start)
        decreases end - addr
      {
        var i, m, n := Bounds(addr, end, b);
        AllThere(b, b.to, i, m, n);
        StillThere(b, b.to, i, m, n);
        FreeTable(i, m, n);
        FreedNext(b, b.to, i, m, n);
        addr := (i + 1) * 0x40_0000;
        assert addr / 0x40_0000 == i + 1;
      }
      AllFreed(b, b.to, addr);
    }

    /**
     A mapping copied to the child, if enough frames are free, and freed there again. The child loses
     the tables without entries in slots that the mapping reaches, and nothing else: its tables are as
     before exactly if there were none, and then so are every count and the free frames.
     */
    method CopyThenFree(start: nat, end: nat, shared: bool) returns (ok: bool)
      requires Valid() && end <= 0xFFC0_0000 && start >= UserAddr
      requires Clear(Before(start, end, shared, count, data, to))
      requires Populated(Before(start, end, shared, count, data, to), from)
      modifies `count, `data, `to, pages.Repr()
      ensures Valid()
      ensures
        var b := Before(start, end, shared, old(count), old(data), old(to));
        && (ok <==> CopyNeed(b, from, 1024) <= old(|pages.free|))
        && (ok ==> to == Pruned(b) && (to == old(to) <==> NoEmptyTable(b)))
      ensures ok && to == old(to) ==> count == old(count) && pages.free == old(pages.free)
    {
      hide Refs, InMapping, Reached, Lookup, Populated, Clear, UpTo, FreedEntry, NoEmptyTable, CopyNeed;
      ghost var b := Before(start, end, shared, count, data, to);
      ok := CopyMapping(start, end, shared);
      if ok {
        ghost var b' := Before(start, end, false, count, data, to);
        NowPopulated(b, b', from, count, data);
        FreeMapping(start, end);
        Restored(b, b', from);
        if to == old(to) {
          forall f: nat ensures At(count, f) == At(old(count), f) {
          }
          SameCounts(count, old(count));
        }
      }
    }
  }

  /** Slot i keeps its table, if it has one, and the other slots stay as they are. */
  ghost predicate OnlySlot(to: seq<Entry>, to': seq<Entry>, i: nat) {
    && |to'| == |to| && (forall k :: 0 <= k < |to| && k != i ==> to'[k] == to[k])
    && (i < |to| && to[i].Table? ==> to'[i].Table?)
  }

  /** The slots from i on are as they were. */
  ghost predicate Ahead(b: Before, to: seq<Entry>, i: nat) {
    |to| == |b.to| && forall k :: i <= k < |to| ==> to[k] == b.to[k]
  }

  /** The frame for the copy of one page, if the page is there and private. */
  ghost function PageNeed(b: Before, from: seq<Entry>, i: nat, j: nat): nat {
    if !b.shared && InMapping(b, i, j) && Lookup(from, i, j).Mapped? then 1 else 0
  }

  /** The frames for the first n pages of slot i. */
  ghost function RowNeed(b: Before, from: seq<Entry>, i: nat, n: nat): nat {
    if n == 0 then 0 else RowNeed(b, from, i, n - 1) + PageNeed(b, from, i, n - 1)
  }

  function TableNeed(e: Entry): nat {
    if e.NoTable? then 1 else 0
  }

  /** The frames that copying a mapping takes in slot i: for the table, if there is none, and the pages. */
  ghost function SlotNeed(b: Before, from: seq<Entry>, i: nat): nat {
    (if i < |b.to| && Reached(b, i) then TableNeed(b.to[i]) else 0) + RowNeed(b, from, i, 1024)
  }

  /** The frames that copying a mapping takes in the first n slots. */
  ghost function CopyNeed(b: Before, from: seq<Entry>, n: nat): nat {
    if n == 0 then 0 else CopyNeed(b, from, n - 1) + SlotNeed(b, from, n - 1)
  }

  lemma {:induction false} RowNeedNone(b: Before, from: seq<Entry>, i: nat, m: nat)
    requires forall j :: 0 <= j < m ==> !InMapping(b, i, j)
    ensures RowNeed(b, from, i, m) == 0
  {
    hide InMapping, Lookup;
    if m > 0 {
      RowNeedNone(b, from, i, m - 1);
    }
  }

  lemma {:induction false} RowNeedMore(b: Before, from: seq<Entry>, i: nat, n: nat, k: nat)
    requires n <= k
    ensures RowNeed(b, from, i, n) <= RowNeed(b, from, i, k)
    decreases k
  {
    hide InMapping, Lookup;
    if n < k {
      RowNeedMore(b, from, i, n, k - 1);
    }
  }

  lemma {:induction false} RowNeedRest(b: Before, from: seq<Entry>, i: nat, n: nat, k: nat)
    requires n <= k && forall j :: n <= j < k ==> !InMapping(b, i, j)
    ensures RowNeed(b, from, i, n) == RowNeed(b, from, i, k)
    decreases k
  {
    hide InMapping, Lookup;
    if n < k {
      RowNeedRest(b, from, i, n, k - 1);
    }
  }

  lemma {:induction false} NeedMore(b: Before, from: seq<Entry>, n: nat, k: nat)
    requires n <= k
    ensures CopyNeed(b, from, n) <= CopyNeed(b, from, k)
    decreases k
  {
    hide SlotNeed;
    if n < k {
      NeedMore(b, from, n, k - 1);
    }
  }

  /** Slots before the mapping's first and from its last on take nothing. */
  lemma OutsideFree(b: Before, from: seq<Entry>, i: nat)
    requires i < b.start / 0x40_0000 || b.end <= i * 0x40_0000
    ensures SlotNeed(b, from, i) == 0
  {
    forall j | 0 <= j < 1024 ensures !InMapping(b, i, j) {
    }
    RowNeedNone(b, from, i, 1024);
  }

  lemma {:induction false} NeedNone(b: Before, from: seq<Entry>, i: nat)
    requires i <= b.start / 0x40_0000
    ensures CopyNeed(b, from, i) == 0
  {
    hide SlotNeed;
    if i > 0 {
      NeedNone(b, from, i - 1);
      OutsideFree(b, from, i - 1);
    }
  }

  lemma {:induction false} NeedRest(b: Before, from: seq<Entry>, n: nat, k: nat)
    requires n <= k && b.end <= n * 0x40_0000
    ensures CopyNeed(b, from, n) == CopyNeed(b, from, k)
    decreases k
  {
    hide SlotNeed;
    if n < k {
      NeedRest(b, from, n, k - 1);
      OutsideFree(b, from, k - 1);
    }
  }

  lemma NeedAll(b: Before, from: seq<Entry>, addr: nat)
    requires addr >= b.end && (addr == b.start || (addr % 0x40_0000 == 0 && addr <= 0x1_0000_0000))
    ensures CopyNeed(b, from, addr / 0x40_0000) == CopyNeed(b, from, 1024)
  {
    hide CopyNeed;
    if addr % 0x40_0000 == 0 && addr <= 0x1_0000_0000 {
      NeedRest(b, from, addr / 0x40_0000, 1024);
    } else {
      NeedNothing(b, from, addr / 0x40_0000);
      NeedNothing(b, from, 1024);
    }
  }

  lemma {:induction false} NeedNothing(b: Before, from: seq<Entry>, n: nat)
    requires b.end <= b.start
    ensures CopyNeed(b, from, n) == 0
  {
    hide SlotNeed;
    if n > 0 {
      NeedNothing(b, from, n - 1);
      EmptyFree(b, from, n - 1);
    }
  }

  lemma EmptyFree(b: Before, from: seq<Entry>, i: nat)
    requires b.end <= b.start
    ensures SlotNeed(b, from, i) == 0
  {
    RowNeedNone(b, from, i, 1024);
  }

  /** Before the first turn nothing is copied and nothing taken. */
  lemma NothingYet(b: Before, from: seq<Entry>)
    requires |b.count| == |b.data|
    ensures
      var i := b.start / 0x40_0000;
      && UpTo(b, from, b.to, b.count, b.data, i, 0) && TablesMade(b, b.to, i) && Ahead(b, b.to, i)
      && CopyNeed(b, from, i) == 0
  {
    hide UpTo, TablesMade, CopyNeed;
    Nothing(b, from, b.to, b.start / 0x40_0000);
    NoneReached(b, b.to, b.start / 0x40_0000);
    NeedNone(b, from, b.start / 0x40_0000);
  }

  /** What the next slot takes. */
  lemma SlotCost(b: Before, from: seq<Entry>, to: seq<Entry>, i: nat)
    requires Reached(b, i) && Ahead(b, to, i) && i < |to|
    ensures SlotNeed(b, from, i) == TableNeed(to[i]) + RowNeed(b, from, i, 1024)
  {
    hide RowNeed, Reached;
  }

  /** The first n slots have a table if the mapping reaches them. */
  ghost predicate TablesMade(b: Before, to: seq<Entry>, n: nat) {
    forall i :: 0 <= i < n && i < |to| && Reached(b, i) ==> to[i].Table?
  }

  lemma NoneReached(b: Before, to: seq<Entry>, i: nat)
    requires i == b.start / 0x40_0000
    ensures TablesMade(b, to, i)
  {
    forall k | 0 <= k < i ensures !Reached(b, k) {
      forall j | 0 <= j < 1024 ensures !InMapping(b, k, j) {
      }
    }
  }

  lemma NoneBeyond(b: Before, to: seq<Entry>, addr: nat)
    requires TablesMade(b, to, addr / 0x40_0000) && addr >= b.end && (addr == b.start || addr % 0x40_0000 == 0)
    ensures TablesMade(b, to, 1024)
  {
    forall k | addr / 0x40_0000 <= k < 1024 ensures !Reached(b, k) {
      forall j | 0 <= j < 1024 ensures !InMapping(b, k, j) {
      }
    }
  }

  lemma OneMoreTable(b: Before, to0: seq<Entry>, to1: seq<Entry>, to2: seq<Entry>, i: nat)
    requires TablesMade(b, to0, i) && OnlySlot(to0, to1, i) && OnlySlot(to1, to2, i) && i < |to1| && to1[i].Table?
    ensures TablesMade(b, to2, i + 1) && (Ahead(b, to0, i) ==> Ahead(b, to2, i + 1))
  {
    hide Reached;
  }

  /** Slot i is one that the mapping reaches, with a table without entries. */
  ghost predicate EmptyTable(b: Before, i: nat) {
    i < |b.to| && Reached(b, i) && b.to[i].Table? && AllEmpty(b.to[i].ptes)
  }

  ghost predicate NoEmptyTable(b: Before) {
    forall i :: 0 <= i < |b.to| ==> !EmptyTable(b, i)
  }

  /** The directory without the tables without entries in slots that the mapping reaches. */
  ghost function Pruned(b: Before): (r: seq<Entry>)
    ensures |r| == |b.to| && forall i :: 0 <= i < |r| ==> r[i] == if EmptyTable(b, i) then NoTable else b.to[i]
  {
    seq(|b.to|, i requires 0 <= i < |b.to| => if EmptyTable(b, i) then NoTable else b.to[i])
  }

  lemma PrunedSame(b: Before)
    ensures Pruned(b) == b.to <==> NoEmptyTable(b)
  {
    hide Reached;
    if i :| 0 <= i < |b.to| && EmptyTable(b, i) {
      assert Pruned(b)[i] != b.to[i];
    }
  }

  lemma SameCounts(a: seq<nat>, b: seq<nat>)
    requires |a| == |b| && forall f: nat :: At(a, f) == At(b, f)
    ensures a == b
  {
    forall f | 0 <= f < |a| ensures a[f] == b[f] {
      assert At(a, f) == At(b, f);
    }
  }

  /** Tables are where they were, with new ones in slots that the mapping reaches. */
  ghost predicate SlotsFrom(b: Before, to: seq<Entry>) {
    |to| == |b.to| == 1024 && forall i :: 0 <= i < 1024 ==>
      if b.to[i].Table? then to[i].Table? && to[i].frame == b.to[i].frame
      else to[i].NoTable? || Reached(b, i)
  }

  /** A private page of the child: in a frame that nothing else names, with the parent's page in it. */
  lemma Isolated(b: Before, from: seq<Entry>, to: seq<Entry>, count: seq<nat>, data: seq<Page>, others: seq<nat>,
      i: nat, j: nat)
    requires UpTo(b, from, to, count, data, 1024, 0) && !b.shared && i < 1024 && j < 1024 && InMapping(b, i, j)
    requires forall f: nat :: At(b.count, f) == At(others, f) + Refs(from, f) + Refs(b.to, f)
    requires forall f: nat :: At(count, f) == At(others, f) + Refs(from, f) + Refs(to, f)
    requires Lookup(from, i, j).Mapped?
    ensures
      var p, c := Lookup(from, i, j), Lookup(to, i, j);
      && c.Mapped? && c.flags == p.flags
      && At(others, c.frame) == 0 && Refs(from, c.frame) == 0 && Refs(to, c.frame) == 1
      && c.frame < |data| && p.frame < |data| && data[c.frame] == data[p.frame]
  {
    hide Refs, Lookup, InMapping;
    var p, c := Lookup(from, i, j), Lookup(to, i, j);
    assert Copied(p, c, false, b.count, b.data, count, data);
    LookupRefs(from, i, j);
    assert At(b.count, p.frame) >= 1;
    assert At(b.count, c.frame) == 0;
    LookupRefs(to, i, j);
    assert At(count, c.frame) == 1;
  }

  ghost predicate Populated(b: Before, dir: seq<Entry>) {
    forall i, j :: 0 <= i < 1024 && 0 <= j < 1024 && InMapping(b, i, j) ==> Lookup(dir, i, j).Mapped?
  }

  /** A directory entry without the pages of the mapping, and without the table if that has no other pages. */
  ghost function FreedEntry(b: Before, i: nat, e: Entry): (r: Entry)
    requires e.Table? ==> |e.ptes| == 1024
  {
    if e.NoTable? || !Reached(b, i) then e
    else
      var ptes := seq(1024, j requires 0 <= j < 1024 => if InMapping(b, i, j) then Empty else e.ptes[j]);
      if AllEmpty(ptes) then NoTable else Table(e.frame, ptes)
  }

  /** The directory with the mapping freed in the first n slots. */
  ghost function FreedDir(b: Before, dir: seq<Entry>, n: nat): (r: seq<Entry>)
    requires Formed(dir)
    ensures |r| == 1024 && forall i :: 0 <= i < 1024 ==> r[i] == if i < n then FreedEntry(b, i, dir[i]) else dir[i]
  {
    seq(1024, i requires 0 <= i < 1024 => if i < n then FreedEntry(b, i, dir[i]) else dir[i])
  }

  lemma AllThere(b: Before, dir: seq<Entry>, i: nat, m: nat, n: nat)
    requires Populated(b, dir) && Formed(dir) && i < 1024 && m < n <= 1024
    requires forall j :: 0 <= j < 1024 ==> (InMapping(b, i, j) <==> m <= j < n)
    ensures dir[i].Table? && forall j :: m <= j < n ==> Lookup(dir, i, j).Mapped?
  {
    hide InMapping;
    assert InMapping(b, i, m);
    assert Lookup(dir, i, m).Mapped?;
  }

  lemma StillThere(b: Before, dir: seq<Entry>, i: nat, m: nat, n: nat)
    requires Formed(dir) && i < 1024 && m < n <= 1024 && dir[i].Table?
    requires forall j :: m <= j < n ==> Lookup(dir, i, j).Mapped?
    ensures FreedDir(b, dir, i)[i] == dir[i] && forall j :: m <= j < n ==> Lookup(FreedDir(b, dir, i), i, j).Mapped?
  {
    hide InMapping, FreedEntry;
    assert FreedDir(b, dir, i)[i] == dir[i];
    forall j | m <= j < n ensures Lookup(FreedDir(b, dir, i), i, j).Mapped? {
      assert Lookup(dir, i, j).Mapped?;
    }
  }

  lemma FreedNext(b: Before, dir: seq<Entry>, i: nat, m: nat, n: nat)
    requires Formed(dir) && i < 1024 && m < n <= 1024 && dir[i].Table? && Reached(b, i)
    requires forall j :: 0 <= j < 1024 ==> (InMapping(b, i, j) <==> m <= j < n)
    ensures
      var ptes := Cleared(dir[i].ptes, m, n);
      FreedDir(b, dir, i)[i := if AllEmpty(ptes) then NoTable else Table(dir[i].frame, ptes)] == FreedDir(b, dir, i + 1)
  {
    hide InMapping, Reached;
    var ptes := Cleared(dir[i].ptes, m, n);
    var ptes' := seq(1024, j requires 0 <= j < 1024 => if InMapping(b, i, j) then Empty else dir[i].ptes[j]);
    assert ptes == ptes';
  }

  lemma NoneFreed(b: Before, dir: seq<Entry>, i: nat)
    requires Formed(dir) && i == b.start / 0x40_0000
    ensures FreedDir(b, dir, i) == dir
  {
    forall k | 0 <= k < 1024 && k < i ensures !Reached(b, k) {
      forall j | 0 <= j < 1024 ensures !InMapping(b, k, j) {
      }
    }
  }

  lemma AllFreed(b: Before, dir: seq<Entry>, addr: nat)
    requires Formed(dir) && addr >= b.end && (addr == b.start || addr % 0x40_0000 == 0)
    ensures FreedDir(b, dir, addr / 0x40_0000) == FreedDir(b, dir, 1024)
  {
    forall k | addr / 0x40_0000 <= k < 1024 ensures !Reached(b, k) {
      forall j | 0 <= j < 1024 ensures !InMapping(b, k, j) {
      }
    }
  }

  lemma ClearedNext(ptes: seq<Pte>, m: nat, j: nat)
    requires m <= j < |ptes|
    ensures Cleared(ptes, m, j)[j := Empty] == Cleared(ptes, m, j + 1)
  {
  }

  /** How far the loop over a table has come with pages m to n. */
  function Within(m: nat, n: nat, j: nat): nat
    requires m <= n
  {
    if j < m then m else if j < n then j else n
  }

  ghost predicate AllEmpty(ptes: seq<Pte>) {
    forall j :: 0 <= j < |ptes| ==> ptes[j] == Empty
  }

  ghost function Cleared(ptes: seq<Pte>, m: nat, n: nat): (r: seq<Pte>)
    requires m <= n <= |ptes|
    ensures |r| == |ptes| && forall j :: 0 <= j < |r| ==> r[j] == if m <= j < n then Empty else ptes[j]
  {
    seq(|ptes|, j requires 0 <= j < |ptes| => if m <= j < n then Empty else ptes[j])
  }

  const UserAddr: nat := 0x4000_0000

  /** The slot that addr is in, and the pages of it that the loops visit. */
  method Bounds(addr: nat, end: nat, ghost b: Before) returns (i: nat, m: nat, n: nat)
    requires addr < end == b.end <= 0xFFC0_0000 && (addr == b.start || (addr % 0x40_0000 == 0 && addr > b.start))
    ensures i == addr / 0x40_0000 < 1023 && m < n <= 1024
    ensures forall j :: 0 <= j < 1024 ==> (InMapping(b, i, j) <==> m <= j < n)
    ensures Reached(b, i) && addr < (i + 1) * 0x40_0000
  {
    i := addr / 0x40_0000;
    var within := addr % 0x40_0000;
    m := within / 0x1000;
    if end >= (i + 1) * 0x40_0000 {
      n := 1024;
    } else {
      n := end % 0x40_0000 / 0x1000;
      if end % 0x1000 != 0 {
        n := n + 1;
      }
      SameSlot(addr, end, i);
    }
    forall j | 0 <= j < 1024 ensures InMapping(b, i, j) <==> m <= j < n {
      PageFrom(within, j);
      PageBefore(end - i * 0x40_0000, j);
    }
    PageFrom(within, m);
    assert InMapping(b, i, m);
  }

  lemma SameSlot(addr: nat, end: nat, i: nat)
    requires i == addr / 0x40_0000 && addr <= end < (i + 1) * 0x40_0000
    ensures end % 0x40_0000 == end - i * 0x40_0000 && (end - i * 0x40_0000) % 0x1000 == end % 0x1000
  {
    InSlot(i, end - i * 0x40_0000);
    OnPage(i * 1024, end - i * 0x40_0000);
  }

  lemma InSlot(i: nat, x: nat)
    requires x < 0x40_0000
    ensures (i * 0x40_0000 + x) % 0x40_0000 == x
  {
  }

  lemma OnPage(k: nat, x: nat)
    ensures (k * 0x1000 + x) % 0x1000 == x % 0x1000
  {
  }

  lemma PageFrom(x: nat, j: nat)
    ensures x / 0x1000 <= j <==> x < (j + 1) * 0x1000
  {
  }

  lemma PageBefore(x: nat, j: nat)
    ensures j * 0x1000 < x <==> j < x / 0x1000 + if x % 0x1000 != 0 then 1 else 0
  {
  }

  /** A mapping, and the state before it is copied. */
  datatype Before = Before(start: nat, end: nat, shared: bool, count: seq<nat>, data: seq<Page>, to: seq<Entry>)

  /** Page j of slot i has bytes of the mapping. */
  ghost predicate InMapping(b: Before, i: nat, j: nat) {
    b.start < b.end && i * 0x40_0000 + j * 0x1000 < b.end && b.start < i * 0x40_0000 + (j + 1) * 0x1000
  }

  /** The mapping's pages are not yet in the child's tables: mappings have no page in common. */
  ghost predicate Clear(b: Before) {
    forall i, j :: 0 <= i < 1024 && 0 <= j < 1024 && InMapping(b, i, j) ==> Lookup(b.to, i, j) == Empty
  }

  /** Frames in use stay in use and keep their contents and, unless pages are shared, their counts. */
  ghost predicate Kept(shared: bool, count: seq<nat>, data: seq<Page>, count': seq<nat>, data': seq<Page>) {
    && |count'| == |count| == |data| == |data'|
    && forall f :: 0 <= f < |count| && count[f] > 0 ==>
         count'[f] > 0 && data'[f] == data[f] && (!shared ==> count'[f] == count[f])
  }

  lemma FormedUpdate(dir: seq<Entry>, i: nat, e: Entry)
    requires Formed(dir) && i < 1024 && (e.Table? ==> |e.ptes| == 1024)
    ensures Formed(dir[i := e])
  {
  }

  ghost predicate Reached(b: Before, i: nat) {
    exists j :: 0 <= j < 1024 && InMapping(b, i, j)
  }

  ghost predicate InUse(dir: seq<Entry>, count: seq<nat>) {
    forall i, j :: 0 <= i && 0 <= j && Lookup(dir, i, j).Mapped? ==>
      var f := Lookup(dir, i, j).frame; f < |count| && count[f] > 0
  }

  /** The pages of the mapping in slot i before page j, and in earlier slots, are copied; no other entry has changed. */
  ghost predicate UpTo(b: Before, from: seq<Entry>, to: seq<Entry>, count: seq<nat>, data: seq<Page>, i: nat, j: nat) {
    && Kept(b.shared, b.count, b.data, count, data)
    && forall i', j' :: 0 <= i' < 1024 && 0 <= j' < 1024 ==>
         if InMapping(b, i', j') && (i' < i || (i' == i && j' < j)) then
           Copied(Lookup(from, i', j'), Lookup(to, i', j'), b.shared, b.count, b.data, count, data)
         else Lookup(to, i', j') == Lookup(b.to, i', j')
  }

  lemma RowStart(b: Before, from: seq<Entry>, to: seq<Entry>, count: seq<nat>, data: seq<Page>, i: nat, m: nat)
    requires UpTo(b, from, to, count, data, i, 0) && forall j :: 0 <= j < m && j < 1024 ==> !InMapping(b, i, j)
    ensures UpTo(b, from, to, count, data, i, m)
  {
    hide InMapping, Lookup, Copied;
  }

  lemma RowEnd(b: Before, from: seq<Entry>, to: seq<Entry>, count: seq<nat>, data: seq<Page>, i: nat, n: nat)
    requires UpTo(b, from, to, count, data, i, n) && forall j :: n <= j < 1024 ==> !InMapping(b, i, j)
    ensures UpTo(b, from, to, count, data, i + 1, 0) && Kept(b.shared, b.count, b.data, count, data)
  {
    hide InMapping, Lookup, Copied;
  }

  lemma NotYet(b: Before, from: seq<Entry>, to: seq<Entry>, count: seq<nat>, data: seq<Page>, i: nat, j: nat)
    requires UpTo(b, from, to, count, data, i, j) && Clear(b) && i < 1024 && j < 1024 && InMapping(b, i, j)
    ensures Lookup(to, i, j) == Empty
  {
    hide InMapping, Lookup, Copied;
  }

  lemma KeptOn(b: Before, from: seq<Entry>, to: seq<Entry>, count: seq<nat>, data: seq<Page>, count': seq<nat>,
      data': seq<Page>, i: nat, j: nat)
    requires UpTo(b, from, to, count, data, i, j) && Kept(b.shared, count, data, count', data')
    ensures Kept(b.shared, b.count, b.data, count', data')
  {
  }

  lemma StepSkip(b: Before, from: seq<Entry>, to: seq<Entry>, count: seq<nat>, data: seq<Page>, i: nat, j: nat)
    requires UpTo(b, from, to, count, data, i, j) && i < 1024 && j < 1024
    requires Lookup(from, i, j) == Empty && Lookup(to, i, j) == Empty
    ensures UpTo(b, from, to, count, data, i, j + 1)
  {
    hide InMapping, Lookup;
  }

  /** An entry copied earlier stays a copy: its frame is in use. */
  lemma StillCopied(src: Pte, dst: Pte, b: Before, count: seq<nat>, data: seq<Page>, count': seq<nat>, data': seq<Page>)
    requires Copied(src, dst, b.shared, b.count, b.data, count, data) && Kept(b.shared, count, data, count', data')
    requires dst.Mapped? ==> dst.frame < |count| && count[dst.frame] > 0
    ensures Copied(src, dst, b.shared, b.count, b.data, count', data')
  {
  }

  lemma CopiedSince(src: Pte, dst: Pte, b: Before, count: seq<nat>, data: seq<Page>, count': seq<nat>, data': seq<Page>)
    requires Kept(b.shared, b.count, b.data, count, data) && Copied(src, dst, b.shared, count, data, count', data')
    requires src.Mapped? ==> src.frame < |b.count| && b.count[src.frame] > 0
    ensures Copied(src, dst, b.shared, b.count, b.data, count', data')
  {
  }

  lemma StepCopied(b: Before, from: seq<Entry>, to: seq<Entry>, count: seq<nat>, data: seq<Page>, count': seq<nat>,
      data': seq<Page>, i: nat, j: nat, x: Pte)
    requires UpTo(b, from, to, count, data, i, j) && InUse(to, count) && InUse(from, b.count)
    requires Kept(b.shared, count, data, count', data')
    requires Formed(to) && i < 1024 && j < 1024 && to[i].Table? && InMapping(b, i, j)
    requires Copied(Lookup(from, i, j), x, b.shared, count, data, count', data')
    ensures UpTo(b, from, WithPte(to, i, j, x), count', data', i, j + 1)
  {
    hide InMapping, Lookup, Copied, Formed;
    var to' := WithPte(to, i, j, x);
    forall i', j' | 0 <= i' < 1024 && 0 <= j' < 1024
      ensures
        if InMapping(b, i', j') && (i' < i || (i' == i && j' < j + 1)) then
          Copied(Lookup(from, i', j'), Lookup(to', i', j'), b.shared, b.count, b.data, count', data')
        else Lookup(to', i', j') == Lookup(b.to, i', j')
    {
      if i' == i && j' == j {
        CopiedSince(Lookup(from, i, j), x, b, count, data, count', data');
      } else if InMapping(b, i', j') && (i' < i || (i' == i && j' < j)) {
        StillCopied(Lookup(from, i', j'), Lookup(to, i', j'), b, count, data, count', data');
      }
    }
  }

  lemma UpToKept(b: Before, from: seq<Entry>, to: seq<Entry>, count: seq<nat>, data: seq<Page>, i: nat, j: nat)
    requires UpTo(b, from, to, count, data, i, j)
    ensures Kept(b.shared, b.count, b.data, count, data)
  {
  }

  /** At first nothing is copied, and there is nothing of the mapping before its first slot. */
  lemma Nothing(b: Before, from: seq<Entry>, to: seq<Entry>, i: nat)
    requires b.to == to && |b.count| == |b.data| && i == b.start / 0x40_0000
    ensures UpTo(b, from, to, b.count, b.data, i, 0)
  {
  }

  lemma Rest(b: Before, from: seq<Entry>, to: seq<Entry>, count: seq<nat>, data: seq<Page>, addr: nat)
    requires UpTo(b, from, to, count, data, addr / 0x40_0000, 0) && addr >= b.end
    requires addr == b.start || addr % 0x40_0000 == 0
    ensures UpTo(b, from, to, count, data, 1024, 0)
  {
    hide Lookup, Copied;
  }

  lemma StepTable(b: Before, from: seq<Entry>, to: seq<Entry>, count: seq<nat>, data: seq<Page>, count': seq<nat>,
      data': seq<Page>, i: nat, e: Entry)
    requires UpTo(b, from, to, count, data, i, 0) && InUse(to, count) && Kept(b.shared, count, data, count', data')
    requires |to| == 1024 && i < 1024 && to[i].NoTable? && e.Table? && e.ptes == Blank()
    ensures UpTo(b, from, to[i := e], count', data', i, 0)
  {
    hide InMapping, Copied;
    forall i', j' | 0 <= i' < 1024 && 0 <= j' < 1024 && InMapping(b, i', j') && i' < i
      ensures Copied(Lookup(from, i', j'), Lookup(to[i := e], i', j'), b.shared, b.count, b.data, count', data')
    {
      StillCopied(Lookup(from, i', j'), Lookup(to, i', j'), b, count, data, count', data');
    }
  }

  lemma NowPopulated(b: Before, b': Before, from: seq<Entry>, count: seq<nat>, data: seq<Page>)
    requires UpTo(b, from, b'.to, count, data, 1024, 0) && Populated(b, from) && b'.start == b.start && b'.end == b.end
    ensures Populated(b', b'.to)
  {
    hide Lookup;
    forall i, j | 0 <= i < 1024 && 0 <= j < 1024 && InMapping(b', i, j) ensures Lookup(b'.to, i, j).Mapped? {
      assert InMapping(b, i, j);
    }
  }

  /** Freed again, a slot is as it was, unless it had a table without entries. */
  lemma SlotRestored(b: Before, b': Before, from: seq<Entry>, count: seq<nat>, data: seq<Page>, i: nat)
    requires UpTo(b, from, b'.to, count, data, 1024, 0) && Clear(b) && SlotsFrom(b, b'.to) && Formed(b.to)
    requires Formed(b'.to)
    requires b'.start == b.start && b'.end == b.end && i < 1024
    ensures FreedEntry(b', i, b'.to[i]) == if EmptyTable(b, i) then NoTable else b.to[i]
  {
    SameReach(b, b', i);
    forall j | 0 <= j < 1024
      ensures (if InMapping(b', i, j) then Empty else Lookup(b'.to, i, j)) == Lookup(b.to, i, j)
    {
      assert InMapping(b', i, j) <==> InMapping(b, i, j);
    }
    SlotPtes(b, b', i);
  }

  lemma SameReach(b: Before, b': Before, i: nat)
    requires b'.start == b.start && b'.end == b.end
    ensures Reached(b', i) <==> Reached(b, i)
  {
    if j :| 0 <= j < 1024 && InMapping(b, i, j) {
      assert InMapping(b', i, j);
    }
    if j :| 0 <= j < 1024 && InMapping(b', i, j) {
      assert InMapping(b, i, j);
    }
  }

  lemma SlotPtes(b: Before, b': Before, i: nat)
    requires SlotsFrom(b, b'.to) && Formed(b.to) && Formed(b'.to) && i < 1024 && (Reached(b', i) <==> Reached(b, i))
    requires forall j :: 0 <= j < 1024 ==>
      (if InMapping(b', i, j) then Empty else Lookup(b'.to, i, j)) == Lookup(b.to, i, j)
    requires !Reached(b', i) ==> forall j :: 0 <= j < 1024 ==> !InMapping(b', i, j)
    ensures FreedEntry(b', i, b'.to[i]) == if EmptyTable(b, i) then NoTable else b.to[i]
  {
    hide InMapping, Reached;
    var e, e' := b.to[i], b'.to[i];
    if e'.Table? {
      var ptes := seq(1024, j requires 0 <= j < 1024 => if InMapping(b', i, j) then Empty else e'.ptes[j]);
      if e.Table? {
        assert ptes == e.ptes;
        if !Reached(b', i) {
          assert e'.ptes == e.ptes;
        }
      } else {
        assert AllEmpty(ptes);
      }
    }
  }

  lemma Restored(b: Before, b': Before, from: seq<Entry>)
    requires UpTo(b, from, b'.to, b'.count, b'.data, 1024, 0) && Clear(b) && SlotsFrom(b, b'.to) && Formed(b.to)
    requires Formed(b'.to)
    requires b'.start == b.start && b'.end == b.end
    ensures FreedDir(b', b'.to, 1024) == Pruned(b) && (Pruned(b) == b.to <==> NoEmptyTable(b))
  {
    hide InMapping, Reached, UpTo, Clear, SlotsFrom, FreedEntry;
    forall i | 0 <= i < 1024 ensures FreedEntry(b', i, b'.to[i]) == Pruned(b)[i]
    {
      SlotRestored(b, b', from, b'.count, b'.data, i);
    }
    PrunedSame(b);
  }

  /** A mapping of one page of the first user slot. */
  lemma OnePageMapping(b: Before, k: nat, i: nat, j: nat)
    requires b.start == UserAddr + k * 0x1000 && b.end == b.start + 0x1000 && k < 1024 && j < 1024
    ensures InMapping(b, i, j) <==> i == 256 && j == k
  {
  }

  lemma OnePageClear(b: Before, k: nat)
    requires b.start == UserAddr + k * 0x1000 && b.end == b.start + 0x1000 && k < 1024
    ensures (Lookup(b.to, 256, k) == Empty ==> Clear(b)) && Reached(b, 256)
    ensures forall dir :: Lookup(dir, 256, k).Mapped? ==> Populated(b, dir)
  {
    hide InMapping, Lookup;
    forall i, j | 0 <= i < 1024 && 0 <= j < 1024 ensures InMapping(b, i, j) <==> i == 256 && j == k {
      OnePageMapping(b, k, i, j);
    }
  }

  /** The copy of a page that the parent does not have leaves a table without entries. */
  lemma LeftEmpty(b: Before, k: nat, from: seq<Entry>, to: seq<Entry>, count: seq<nat>, data: seq<Page>)
    requires b.start == UserAddr + k * 0x1000 && b.end == b.start + 0x1000 && k < 1024 && |b.to| == 1024
    requires b.to[256].NoTable?
    requires UpTo(b, from, to, count, data, 1024, 0) && TablesMade(b, to, 1024) && Formed(to)
    requires Lookup(from, 256, k) == Empty
    ensures to[256].Table? && AllEmpty(to[256].ptes)
  {
    hide InMapping;
    OnePageClear(b, k);
    forall j | 0 <= j < 1024 ensures Lookup(to, 256, j) == Empty {
      OnePageMapping(b, k, 256, j);
    }
    forall j | 0 <= j < |to[256].ptes| ensures to[256].ptes[j] == Empty {
      assert Lookup(to, 256, j) == Empty;
    }
  }

  /** In a mapping of one page, only its slot takes frames: two at most. */
  lemma {:induction false} OnePageNeed(b: Before, k: nat, from: seq<Entry>, n: nat)
    requires b.start == UserAddr + k * 0x1000 && b.end == b.start + 0x1000 && k < 1024
    ensures CopyNeed(b, from, n) <= if n <= 256 then 0 else 2
  {
    hide SlotNeed;
    if n > 0 {
      OnePageNeed(b, k, from, n - 1);
      OnePageSlot(b, k, from, n - 1);
    }
  }

  lemma OnePageSlot(b: Before, k: nat, from: seq<Entry>, i: nat)
    requires b.start == UserAddr + k * 0x1000 && b.end == b.start + 0x1000 && k < 1024
    ensures SlotNeed(b, from, i) <= if i == 256 then 2 else 0
  {
    hide InMapping, RowNeed;
    forall j | 0 <= j < 1024 ensures InMapping(b, i, j) <==> i == 256 && j == k {
      OnePageMapping(b, k, i, j);
    }
    OnePageRow(b, k, from, i, 1024);
  }

  lemma {:induction false} OnePageRow(b: Before, k: nat, from: seq<Entry>, i: nat, n: nat)
    requires forall j :: 0 <= j < n ==> (InMapping(b, i, j) <==> i == 256 && j == k)
    ensures RowNeed(b, from, i, n) <= if i == 256 && k < n then 1 else 0
  {
    hide InMapping, Lookup;
    if n > 0 {
      OnePageRow(b, k, from, i, n - 1);
    }
  }

  /** The pages of 16 megabytes, of which frames 4 to 159 are free. */
  method Boot(memory: nat -> bool) returns (pages: PageAllocator)
    ensures fresh(pages.Repr()) && pages.count.Length == 4096 == pages.reserved.Length
    ensures forall f :: 0 <= f < 4096 ==> pages.count[f] == 0
    ensures forall f :: f in pages.free ==> 0 <= f < 4096 && !pages.reserved[f]
    ensures |pages.free| == 156 && pages.Valid() && MapsCover(pages.areas.frames)
  {
    hide AllMapped, Canonical, BitsAgree, MapStart, MapsCover, Range;
    pages := new PageAllocator(4096, memory);
    Covers4096();
    RangeCount(4, 160);
    forall p ensures p in Range(4, 160) <==> 4 <= p < 160 {
      InRange(4, 160, p);
    }
    CoveredMapped(Range(4, 160), 4096);
    assert pages.free + Range(4, 160) == Range(4, 160);
    pages.FreeBootRange(4, 160);
  }

  lemma Covers4096()
    ensures MapsCover(4096)
  {
    assert Shift(4096, 0) == 4096 && Shift(4096, 1) == 2048 && Shift(4096, 2) == 1024 && Shift(4096, 3) == 512;
    assert Shift(4096, 4) == 256 && Shift(4096, 5) == 128 && Shift(4096, 6) == 64 && Shift(4096, 7) == 32;
    assert Shift(4096, 8) == 16 && Shift(4096, 9) == 8;
    forall o | 0 <= o <= MaxOrder ensures MapCovers(4096, o) {
      assert o in {0, 1, 2, 3, 4, 5, 6, 7, 8, 9};
    }
  }

  /**
   The parent has the first page of a slot and not the second. The child is given the mapping of
   the second, and so a table without entries; when the mapping of the first is then copied and
   freed again, that table goes too.
   */
  method EmptyTableGoes(memory: nat -> bool, data: seq<Page>) returns (a: AddressSpaces, ghost middle: seq<Entry>)
    requires |data| == 4096
    ensures fresh(a) && a.Valid() && |middle| == 1024
    ensures middle[256].Table? && AllEmpty(middle[256].ptes) && a.to[256].NoTable?
  {
    hide Refs, InMapping, Reached, UpTo, Clear, Populated, TablesMade, AddressSpaces.Counted, AddressSpaces.Backed;
    hide CopyNeed, PageAllocator.Valid, MapsCover;
    var pages := Boot(memory);
    a := new AddressSpaces(pages, data);
    var ok, f := a.MapPage(256, 0);
    ghost var b := Before(UserAddr + 0x1000, UserAddr + 0x2000, false, a.count, a.data, a.to);
    OnePageClear(b, 1);
    OnePageNeed(b, 1, a.from, 1024);
    ok := a.CopyMapping(UserAddr + 0x1000, UserAddr + 0x2000, false);
    middle := a.to;
    LeftEmpty(b, 1, a.from, a.to, a.count, a.data);
    ghost var b' := Before(UserAddr, UserAddr + 0x1000, false, a.count, a.data, a.to);
    OnePageClear(b', 0);
    OnePageNeed(b', 0, a.from, 1024);
    ok := a.CopyThenFree(UserAddr, UserAddr + 0x1000, false);
  }
}
