/**
 The buddy page allocator of mm/page_alloc.c: get_free_pages, __free_pages, free_one_page
 and the boot loops of mm/init.c, over linked free lists and one bit per pair of blocks.
 */
module PageAllocator {
  import opened BuddyGeometry
  import opened FreeLists
  import opened Sequences

  const PageSize: nat := 4096

  /** The lists hold exactly the maximal wholly free blocks, by their first frames. */
  ghost predicate Canonical(lists: seq<seq<nat>>, free: set<nat>) {
    && |lists| == ListCount
    && (forall o, m :: 0 <= o < ListCount ==>
          (m in lists[o] <==> Aligned(m, o) && Maximal(free, o, Shift(m, o))))
  }

  /** Exactly one half of pair k of order o is on list o: what the pair's bit records. */
  ghost predicate Odd(lists: seq<seq<nat>>, o: nat, k: nat)
    requires o < |lists|
  {
    (First(o, 2 * k) in lists[o]) != (First(o, 2 * k + 1) in lists[o])
  }

  /** The bit of pair k of order o, in maps that follow one another. */
  function BitAt(bits: seq<bool>, frames: nat, o: nat, k: nat): bool {
    var at := MapStart(frames, o) + k;
    at < |bits| && bits[at]
  }

  /** The maps' own bits agree with the lists, except that pair (o, k), if any, is flipped. */
  ghost predicate BitsAgree(bits: seq<bool>, frames: nat, lists: seq<seq<nat>>, o: int, k: int) {
    && |lists| == ListCount && |bits| == MapStart(frames, ListCount) + 1
    && forall o', k' :: 0 <= o' < MaxOrder && 0 <= k' < OwnBits(frames, o') ==>
         BitAt(bits, frames, o', k') == (Odd(lists, o', k') != (o' == o && k' == k))
  }

  /** Every wholly free block has a bit in the map of its order. */
  ghost predicate AllMapped(free: set<nat>, frames: nat) {
    forall o, i :: 0 <= o <= MaxOrder && Whole(free, o, i) ==> Mapped(frames, o, i)
  }

  lemma FlippedAt(bits: seq<bool>, frames: nat, o: nat, k: nat, o': nat, k': nat)
    requires |bits| == MapStart(frames, ListCount) + 1 && o < ListCount && k < MapBits(frames, o)
    requires o' < ListCount && k' < MapBits(frames, o')
    ensures MapStart(frames, o) + k < |bits|
    ensures
      var at := MapStart(frames, o) + k;
      BitAt(bits[at := !bits[at]], frames, o', k') == (BitAt(bits, frames, o', k') != (o' == o && k' == k))
  {
    hide MapBits, MapStart;
    MapsFollow(frames, o, ListCount);
    MapsFollow(frames, o', ListCount);
    BitsApart(frames, o, k, o', k');
  }

  lemma FlipBit(bits: seq<bool>, frames: nat, lists: seq<seq<nat>>, o: nat, k: nat)
    requires |bits| == MapStart(frames, ListCount) + 1 && o < ListCount && k < MapBits(frames, o)
    ensures MapStart(frames, o) + k < |bits|
    ensures
      var bits' := bits[MapStart(frames, o) + k := !bits[MapStart(frames, o) + k]];
      && (BitsAgree(bits, frames, lists, -1, -1) ==> BitsAgree(bits', frames, lists, o, k))
      && (BitsAgree(bits, frames, lists, o, k) ==> BitsAgree(bits', frames, lists, -1, -1))
  {
    hide Odd, OwnBits, MapBits, BitAt, MapStart;
    FlippedAt(bits, frames, o, k, o, k);
    var at := MapStart(frames, o) + k;
    forall o', k' | 0 <= o' < MaxOrder && 0 <= k' < OwnBits(frames, o')
      ensures BitAt(bits[at := !bits[at]], frames, o', k') == (BitAt(bits, frames, o', k') != (o' == o && k' == k))
    {
      FlippedAt(bits, frames, o, k, o', k');
    }
  }

  lemma AllMappedLess(free: set<nat>, free': set<nat>, frames: nat)
    requires AllMapped(free, frames) && free' <= free
    ensures AllMapped(free', frames)
  {
    hide Mapped;
  }

  lemma BlockInMemory(frames: nat, o: nat, i: nat)
    requires Usable(Frames(o, i), frames)
    ensures 0 < i && First(o, i) + Pow2(o) <= frames && i < Shift(frames, o)
  {
    FramesEnds(o, i);
    InMemory(frames, o, i);
    FirstZero(o);
  }

  lemma {:induction false} FramesEnds(o: nat, i: nat)
    ensures First(o, i) in Frames(o, i) && First(o, i) + Pow2(o) - 1 in Frames(o, i)
  {
    if o > 0 {
      FramesEnds(o - 1, 2 * i);
      FramesEnds(o - 1, 2 * i + 1);
      FirstNext(o - 1, 2 * i);
    }
  }

  lemma {:induction false} FirstZero(o: nat)
    ensures First(o, 0) == 0
  {
    if o > 0 {
      FirstZero(o - 1);
    }
  }

  /**
   Whatever frames are free, every wholly free block has a bit of its own: exactly for the
   memory sizes whose maps cover the blocks.
   */
  lemma AllMappedExactly(frames: nat)
    ensures (forall free :: Usable(free, frames) ==> AllMapped(free, frames)) <==> MapsCover(frames)
  {
    if MapsCover(frames) {
      forall free | Usable(free, frames) ensures AllMapped(free, frames) {
        CoveredMapped(free, frames);
      }
    } else {
      var o :| 0 <= o <= MaxOrder && !MapCovers(frames, o);
      MapCoversExactly(frames, o);
      var last := Shift(frames, o) - 1;
      var free := Frames(o, last);
      forall p | p in free ensures 0 < p < frames {
        FramesAreRun(p, o, last);
        FirstPositive(o, last);
      }
      assert Usable(free, frames) && Whole(free, o, last) && !Mapped(frames, o, last);
    }
  }

  lemma CoveredMapped(free: set<nat>, frames: nat)
    requires Usable(free, frames) && MapsCover(frames)
    ensures AllMapped(free, frames)
  {
    forall o, i | 0 <= o <= MaxOrder && Whole(free, o, i) ensures Mapped(frames, o, i) {
      BlockInMemory(frames, o, i);
      MapCoversExactly(frames, o);
    }
  }

  lemma {:induction false} FirstPositive(o: nat, i: nat)
    requires 0 < i
    ensures 0 < First(o, i)
  {
    if o > 0 {
      FirstPositive(o - 1, 2 * i);
    }
  }

  /** The frames first, ..., last - 1. */
  function Range(first: nat, last: nat): set<nat> {
    if last <= first then {} else Range(first, last - 1) + {last - 1}
  }

  lemma {:induction false} InRange(first: nat, last: nat, p: nat)
    ensures p in Range(first, last) <==> first <= p < last
  {
    if first < last {
      InRange(first, last - 1, p);
    }
  }

  lemma {:induction false} RangeCount(first: nat, last: nat)
    requires first <= last
    ensures |Range(first, last)| == last - first
  {
    if first < last {
      RangeCount(first, last - 1);
      InRange(first, last - 1, last - 1);
    }
  }

  lemma {:induction false} RangePart(first: nat, middle: nat, last: nat)
    requires first <= middle <= last
    ensures Range(first, middle) <= Range(first, last)
    decreases last
  {
    if middle < last {
      RangePart(first, middle, last - 1);
    }
  }

  lemma BootStep(free: set<nat>, frames: nat, first: nat, p: nat, last: nat)
    requires AllMapped(free + Range(first, last), frames) && first <= p < last && p !in free
    ensures p !in free + Range(first, p)
    ensures free + Range(first, p) + {p} == free + Range(first, p + 1)
    ensures AllMapped(free + Range(first, p) + {p}, frames)
  {
    hide AllMapped;
    InRange(first, p, p);
    RangePart(first, p + 1, last);
    AllMappedLess(free + Range(first, last), free + Range(first, p + 1), frames);
  }

  /** Frame 0 is never handed out: address 0 means failure. */
  ghost predicate Usable(block: set<nat>, frames: nat) {
    forall p :: p in block ==> 0 < p < frames
  }

  /** The canonical lists are determined by the free frames alone, whatever led there. */
  lemma CanonicalUnique(lists: seq<seq<nat>>, lists': seq<seq<nat>>, free: set<nat>, frames: nat)
    requires Canonical(lists, free) && Canonical(lists', free)
    requires Separate(frames, lists) && Separate(frames, lists')
    ensures forall o :: 0 <= o < ListCount ==> multiset(lists[o]) == multiset(lists'[o])
  {
    forall o | 0 <= o < ListCount ensures multiset(lists[o]) == multiset(lists'[o]) {
      DistinctCount(lists[o]);
      DistinctCount(lists'[o]);
      forall m ensures multiset(lists[o])[m] == multiset(lists'[o])[m] {
        assert m in lists[o] <==> m in lists'[o];
      }
    }
  }

  lemma {:induction false} DistinctCount(list: seq<nat>)
    requires Distinct(list)
    ensures forall m :: multiset(list)[m] == if m in list then 1 else 0
  {
    if list != [] {
      var last := |list| - 1;
      DistinctCount(list[..last]);
      assert list == list[..last] + [list[last]];
    }
  }

  lemma CanonicalInsert(lists: seq<seq<nat>>, free: set<nat>, o: nat, i: nat)
    requires Canonical(lists, free) && o <= MaxOrder
    requires Frames(o, i) !! free
    requires o == MaxOrder || !Whole(free, o, Sibling(i))
    ensures Canonical(lists[o := [First(o, i)] + lists[o]], free + Frames(o, i))
    ensures !Listed(lists, First(o, i))
  {
    var more, free' := lists[o := [First(o, i)] + lists[o]], free + Frames(o, i);
    ShiftFirst(o, i);
    forall o', m | 0 <= o' < ListCount
      ensures m in more[o'] <==> Aligned(m, o') && Maximal(free', o', Shift(m, o'))
    {
      AddMaximal(free, o, i, o', Shift(m, o'));
      assert m in more[o'] <==> m in lists[o'] || (o' == o && m == First(o, i));
    }
    if Listed(lists, First(o, i)) {
      var o' :| 0 <= o' < ListCount && First(o, i) in lists[o'];
      ShiftFirst(o', Shift(First(o, i), o'));
      assert false;
    }
  }

  lemma CanonicalRemove(lists: seq<seq<nat>>, free: set<nat>, o: nat, k: nat)
    requires Canonical(lists, free) && o <= MaxOrder && k < |lists[o]| && Distinct(lists[o])
    ensures
      var i := Shift(lists[o][k], o);
      Canonical(lists[o := Removed(lists[o], k)], free - Frames(o, i))
  {
    var m0 := lists[o][k];
    assert m0 in lists[o];
    var i := Shift(m0, o);
    var less, free' := lists[o := Removed(lists[o], k)], free - Frames(o, i);
    RemovedElements(lists[o], k);
    forall o', m | 0 <= o' < ListCount
      ensures m in less[o'] <==> Aligned(m, o') && Maximal(free', o', Shift(m, o'))
    {
      RemoveMaximal(free, o, i, o', Shift(m, o'));
    }
  }

  /** Putting a block on its list flips the parity of its own pair only. */
  lemma OddInsert(lists: seq<seq<nat>>, o: nat, i: nat, o': nat, k: nat)
    requires o < |lists| && o' < |lists| && First(o, i) !in lists[o]
    ensures Odd(lists[o := [First(o, i)] + lists[o]], o', k) == (Odd(lists, o', k) != (o' == o && k == i / 2))
  {
    ShiftFirst(o, 2 * k);
    ShiftFirst(o, 2 * k + 1);
    ShiftFirst(o, i);
    assert i == 2 * (i / 2) || i == 2 * (i / 2) + 1;
  }

  /** So does taking it off. */
  lemma OddRemove(lists: seq<seq<nat>>, o: nat, j: nat, o': nat, k: nat)
    requires o < |lists| && o' < |lists| && j < |lists[o]| && Distinct(lists[o])
    requires Aligned(lists[o][j], o)
    ensures
      Odd(lists[o := Removed(lists[o], j)], o', k) ==
      (Odd(lists, o', k) != (o' == o && k == Shift(lists[o][j], o) / 2))
  {
    var i := Shift(lists[o][j], o);
    RemovedElements(lists[o], j);
    ShiftFirst(o, 2 * k);
    ShiftFirst(o, 2 * k + 1);
    assert i == 2 * (i / 2) || i == 2 * (i / 2) + 1;
  }

  lemma {:induction false} PairNumber(m: nat, o: nat)
    ensures Shift(m, o + 1) == Shift(m, o) / 2
    ensures Shift(m, o) <= m
  {
    if o > 0 {
      PairNumber(m, o - 1);
    }
  }

  /** The buddy address map_nr ^ (1 << o) is the first frame of the sibling block. */
  lemma BuddyIsSibling(o: nat, i: nat)
    ensures i % 2 == 0 ==> First(o, Sibling(i)) == First(o, i) + Pow2(o)
    ensures i % 2 == 1 ==> First(o, Sibling(i)) == First(o, i) - Pow2(o)
  {
    if i % 2 == 0 {
      FirstNext(o, i);
    } else {
      FirstNext(o, i - 1);
    }
  }

  /** Clearing the low o + 1 bits of a block's first frame gives its parent's first frame. */
  lemma ParentFirst(o: nat, i: nat)
    ensures Shift(First(o, i), o + 1) == i / 2
  {
    ShiftFirst(o, i);
  }

  /** Of a pair with a block that is not free, the other one is listed exactly if it is wholly free. */
  lemma SiblingListed(lists: seq<seq<nat>>, free: set<nat>, o: nat, i: nat)
    requires Canonical(lists, free) && o < MaxOrder && Frames(o, i) !! free
    ensures First(o, i) !in lists[o]
    ensures First(o, Sibling(i)) in lists[o] <==> Whole(free, o, Sibling(i))
  {
    hide Frames;
    ShiftFirst(o, i);
    ShiftFirst(o, Sibling(i));
    SiblingMaximal(free, o, i);
    NotWhole(free, o, i);
  }

  lemma NotWhole(free: set<nat>, o: nat, i: nat)
    requires Frames(o, i) !! free
    ensures !Whole(free, o, i)
  {
    FramesEnds(o, i);
  }

  /** The bit of a block that is not free tells whether its sibling is wholly free. */
  lemma PairTells(lists: seq<seq<nat>>, free: set<nat>, bits: seq<bool>, frames: nat, o: nat, i: nat)
    requires Canonical(lists, free) && BitsAgree(bits, frames, lists, -1, -1) && o < MaxOrder && Mapped(frames, o, i)
    requires Frames(o, i) !! free
    ensures BitAt(bits, frames, o, i / 2) <==> Whole(free, o, Sibling(i))
    ensures Whole(free, o, Sibling(i)) ==> First(o, Sibling(i)) in lists[o]
  {
    hide BitAt, OwnBits, Canonical, Whole, Frames;
    SiblingListed(lists, free, o, i);
    assert i == 2 * (i / 2) || i == 2 * (i / 2) + 1;
    assert Odd(lists, o, i / 2) <==> Whole(free, o, Sibling(i));
  }

  lemma NoneFlipped(bits: seq<bool>, frames: nat, lists: seq<seq<nat>>, o: nat)
    ensures BitsAgree(bits, frames, lists, o, -1) <==> BitsAgree(bits, frames, lists, -1, -1)
  {
    hide BitAt, OwnBits, Odd;
  }

  /** Some listed block serves an order exactly when some block of that order is wholly free. */
  lemma ListsServeOrder(lists: seq<seq<nat>>, free: set<nat>, order: nat)
    requires Canonical(lists, free) && order <= MaxOrder
    ensures (exists o :: order <= o < ListCount && lists[o] != []) <==> (exists i :: Whole(free, order, i))
  {
    if i :| Whole(free, order, i) {
      var o', i' := InsideMaximal(free, order, i);
      ShiftFirst(o', i');
      assert First(o', i') in lists[o'];
    }
    if o :| order <= o < ListCount && lists[o] != [] {
      var m := lists[o][0];
      assert m in lists[o];
      ContainsSmaller(order, Shift(m, o), o);
      var j :| Frames(order, j) <= Frames(o, Shift(m, o));
      assert Whole(free, order, j);
    }
  }

  /** The blocks of order 0 are the frames. */
  lemma WholeFrames(free: set<nat>)
    ensures (exists i :: Whole(free, 0, i)) <==> free != {}
    ensures forall p: nat :: Frames(0, Shift(p, 0)) == {p}
  {
    if i :| i in free {
      assert Whole(free, 0, i);
    }
  }

  /** Frames first, ..., last - 1 are now unused and not reserved; the others are as they were. */
  ghost predicate Released(count: seq<int>, reserved: seq<bool>, count': seq<int>, reserved': seq<bool>,
                           first: nat, last: nat)
  {
    && |count| == |reserved| == |count'| == |reserved'|
    && (forall p :: first <= p < last && p < |count'| ==> count'[p] == 0 && !reserved'[p])
    && (forall p :: 0 <= p < |count'| && !(first <= p < last) ==> count'[p] == count[p] && reserved'[p] == reserved[p])
  }

  lemma ReleasedNone(count: seq<int>, reserved: seq<bool>, first: nat)
    requires |count| == |reserved|
    ensures Released(count, reserved, count, reserved, first, first)
  {
  }

  lemma ReleasedNext(count: seq<int>, reserved: seq<bool>, count': seq<int>, reserved': seq<bool>,
                     count'': seq<int>, reserved'': seq<bool>, first: nat, p: nat)
    requires first <= p && Released(count, reserved, count', reserved', first, p)
    requires Released(count', reserved', count'', reserved'', p, p + 1)
    ensures Released(count, reserved, count'', reserved'', first, p + 1)
  {
  }

  /** With nothing listed and their own bits clear, the maps agree with the lists. */
  lemma ClearAgrees(bits: seq<bool>, frames: nat, lists: seq<seq<nat>>)
    requires |bits| == MapStart(frames, ListCount) + 1
    requires |lists| == ListCount && forall o :: 0 <= o < ListCount ==> lists[o] == []
    requires forall at :: 0 <= at < |bits| && Reset(frames, at) ==> !bits[at]
    ensures BitsAgree(bits, frames, lists, -1, -1)
  {
    hide OwnBits, MapStart, Reset;
    forall o, k | 0 <= o < MaxOrder && 0 <= k < OwnBits(frames, o)
      ensures !BitAt(bits, frames, o, k) && !Odd(lists, o, k)
    {
      OwnReset(frames, o, k);
    }
  }

  /** The loop of free_area_init over the maps, which clears the bytes of one map after the other. */
  method ResetMaps(bits: array<bool>, frames: nat)
    requires bits.Length == MapStart(frames, ListCount) + 1
    modifies bits
    ensures forall at :: 0 <= at < bits.Length ==> bits[at] == (old(bits[at]) && !Reset(frames, at))
  {
    hide InBytes, MapBits, MapStart, ResetBefore;
    ResetNone(frames);
    var o := 0;
    while o < ListCount
      invariant 0 <= o <= ListCount
      invariant forall at :: 0 <= at < bits.Length ==> bits[at] == (old(bits[at]) && !ResetBefore(frames, o, at))
    {
      var start, length := MapStart(frames, o), InBytes(Shift(frames, o + 1));
      BytesInWords(Shift(frames, o + 1));
      MapsFollow(frames, o, ListCount);
      forall at | start <= at < start + length {
        bits[at] := false;
      }
      forall at: nat
        ensures ResetBefore(frames, o + 1, at) <==> ResetBefore(frames, o, at) || InMapBytes(frames, o, at)
      {
        ResetNext(frames, o, at);
      }
      o := o + 1;
    }
  }

  /** Frame p begins the last run of an order in the first block on list o, the first list with any from there up. */
  ghost predicate BestFit(lists: seq<seq<nat>>, order: nat, o: nat, p: nat) {
    && o < |lists| && lists[o] != [] && (forall o' :: order <= o' < o ==> lists[o'] == [])
    && p + Pow2(order) == lists[o][0] + Pow2(o)
  }

  class PageAllocator {
    const areas: FreeAreas
    /** The maps of all orders, one after the other, and the bit behind them. */
    const bits: array<bool>
    /** mem_map[p].count and the PageReserved flag of mem_map[p]. */
    const count: array<int>
    const reserved: array<bool>
    var nfreepages: int
    ghost var free: set<nat>
    /** nfreepages minus the number of free frames: boot counts every frame twice. */
    ghost var surplus: int

    ghost function Repr(): set<object> {
      {this, areas, areas.next, areas.prev, bits, count, reserved}
    }

    ghost predicate BitsExcept(o: int, k: int)
      reads areas, bits
    {
      BitsAgree(bits[..], areas.frames, areas.lists, o, k)
    }

    ghost predicate Shape()
      reads areas, areas.next, areas.prev, this
    {
      && areas.Valid()
      && bits.Length == MapStart(areas.frames, ListCount) + 1 && bits != reserved
      && count.Length == areas.frames && reserved.Length == areas.frames
      && Usable(free, areas.frames)
      && Canonical(areas.lists, free)
    }

    ghost predicate Valid()
      reads Repr()
    {
      && Shape()
      && BitsExcept(-1, -1)
      && AllMapped(free, areas.frames)
      && nfreepages == |free| + surplus
    }

    /**
     free_area_init, over memory that may hold anything: no frame is free, every frame is reserved
     and not in use. The bits of each map are cleared, but only up to the end of the map's last byte.
     */
    constructor (frames: nat, memory: nat -> bool)
      ensures Valid() && fresh(Repr())
      ensures areas.frames == frames && free == {} && nfreepages == 0
      ensures forall p :: 0 <= p < frames ==> count[p] == 0 && reserved[p]
      ensures forall at :: 0 <= at < bits.Length && !Reset(frames, at) ==> bits[at] == memory(at)
    {
      areas := new FreeAreas(frames);
      bits := new bool[MapStart(frames, ListCount) + 1](at => memory(at));
      count := new int[frames](_ => 0);
      reserved := new bool[frames](_ => true);
      nfreepages := 0;
      free := {};
      surplus := 0;
      new;
      hide BitsAgree, MapStart, Reset;
      assert forall at :: 0 <= at < bits.Length ==> bits[at] == memory(at);
      ResetMaps(bits, frames);
      ClearAgrees(bits[..], frames, areas.lists);
      forall o, i ensures !Whole({}, o, i) {
        ShiftFirst(o, i);
      }
    }

    /**
     area->map[index / 32] ^= 1 << (index % 32), and what the bit is then. In the map of its own
     order, the pair's bit becomes stale or is repaired.
     */
    method Toggle(o: nat, k: nat) returns (isSet: bool)
      requires Shape() && o < ListCount && MapStart(areas.frames, o) + k < bits.Length
      modifies bits
      ensures bits[..] == old(bits[..])[MapStart(areas.frames, o) + k := isSet]
      ensures isSet == !old(BitAt(bits[..], areas.frames, o, k))
      ensures k < MapBits(areas.frames, o) && old(BitsExcept(-1, -1)) ==> BitsExcept(o, k)
      ensures k < MapBits(areas.frames, o) && old(BitsExcept(o, k)) ==> BitsExcept(-1, -1)
    {
      hide BitsAgree, MapBits, AllMapped, Canonical, Usable;
      if k < MapBits(areas.frames, o) {
        FlipBit(bits[..], areas.frames, areas.lists, o, k);
      }
      var at := MapStart(areas.frames, o) + k;
      bits[at] := !bits[at];
      isSet := bits[at];
    }

    /** The bit of a pair in its map can be flipped. */
    lemma BitInRange(o: nat, k: nat)
      requires Shape() && o < ListCount && k < MapBits(areas.frames, o)
      ensures MapStart(areas.frames, o) + k < bits.Length
    {
      MapsFollow(areas.frames, o, ListCount);
    }

    /** Takes a listed block off its list, which makes its pair's bit stale or repairs it. */
    method TakeBlock(o: nat, m: nat, ghost j: nat, ghost flipped: int)
      requires Shape() && o < ListCount && j < |areas.lists[o]| && areas.lists[o][j] == m
      requires BitsExcept(o, flipped) && (flipped == -1 || flipped == Shift(m, o) / 2)
      modifies this`free, areas, areas.next, areas.prev
      ensures Shape() && BitsExcept(o, if flipped == -1 then Shift(m, o) / 2 else -1)
      ensures Frames(o, Shift(m, o)) <= old(free)
      ensures free == old(free) - Frames(o, Shift(m, o))
    {
      ghost var lists := areas.lists;
      assert m in lists[o];
      CanonicalRemove(lists, free, o, j);
      forall o', k | 0 <= o' < ListCount && 0 <= k
        ensures Odd(lists[o := Removed(lists[o], j)], o', k) == (Odd(lists, o', k) != (o' == o && k == Shift(m, o) / 2))
      {
        OddRemove(lists, o, j, o', k);
      }
      areas.Unlink(o, m, j);
      free := free - Frames(o, Shift(m, o));
    }

    /** Puts a block that is not free on its list, which makes its pair's bit stale or repairs it. */
    method PutBlock(o: nat, m: nat, ghost flipped: int)
      requires Shape() && o < ListCount && Aligned(m, o)
      requires BitsExcept(o, flipped) && (flipped == -1 || flipped == Shift(m, o) / 2)
      requires Frames(o, Shift(m, o)) !! free && Usable(Frames(o, Shift(m, o)), areas.frames)
      requires o == MaxOrder || !Whole(free, o, Sibling(Shift(m, o)))
      modifies this`free, areas, areas.next, areas.prev
      ensures Shape()
      ensures free == old(free) + Frames(o, Shift(m, o))
      ensures BitsExcept(o, if flipped == -1 then Shift(m, o) / 2 else -1)
    {
      ghost var lists := areas.lists;
      ghost var i := Shift(m, o);
      ShiftFirst(o, i);
      CanonicalInsert(lists, free, o, i);
      forall o', k | 0 <= o' < ListCount && 0 <= k
        ensures Odd(lists[o := [m] + lists[o]], o', k) == (Odd(lists, o', k) != (o' == o && k == i / 2))
      {
        OddInsert(lists, o, i, o', k);
      }
      areas.InsertFront(o, m);
      free := free + Frames(o, i);
    }

    /** The first non-empty list of order or above; ListCount when there is none. */
    method FindList(order: nat) returns (o: nat)
      requires Shape() && order < ListCount
      ensures order <= o <= ListCount
      ensures o == ListCount <==> !exists i :: Whole(free, order, i)
      ensures o < ListCount ==> areas.lists[o] != []
      ensures forall o' :: order <= o' < o ==> areas.lists[o'] == []
    {
      o := order;
      while o < ListCount
        invariant order <= o <= ListCount
        invariant forall o' :: order <= o' < o ==> areas.lists[o'] == []
      {
        var empty := areas.IsEmpty(o);
        if !empty {
          break;
        }
        o := o + 1;
      }
      ListsServeOrder(areas.lists, free, order);
    }

    /** Puts the front half of a held block of order o + 1 back; the back half stays held. */
    method PutFrontHalf(o: nat, m: nat, ghost i: nat)
      requires Shape() && BitsExcept(-1, -1) && o < MaxOrder && m == First(o + 1, i)
      requires Frames(o + 1, i) !! free && Usable(Frames(o + 1, i), areas.frames)
      modifies this`free, areas, areas.next, areas.prev, bits
      ensures Shape() && BitsExcept(-1, -1)
      ensures free == old(free) + Frames(o, 2 * i)
    {
      FrontHalf(free, areas.frames, o, i);
      PairNumber(m, o);
      BlockInMemory(areas.frames, o + 1, i);
      PutBlock(o, m, -1);
      BitInRange(o, i);
      var isSet := Toggle(o, Shift(m, o + 1));
    }

    /** The splitting loop: a held block shrinks to its last sub-block of the wanted order. */
    method SplitDown(from: nat, m: nat, ghost i: nat, order: nat) returns (ret: nat, ghost j: nat)
      requires Shape() && BitsExcept(-1, -1) && order <= from < ListCount && m == First(from, i)
      requires Frames(from, i) !! free && Usable(Frames(from, i), areas.frames)
      modifies this`free, areas, areas.next, areas.prev, bits
      ensures Shape() && BitsExcept(-1, -1)
      ensures ret == First(order, j) && Frames(order, j) <= Frames(from, i) && ret + Pow2(order) == m + Pow2(from)
      ensures free == old(free) + (Frames(from, i) - Frames(order, j))
    {
      var newOrder := from;
      ret, j := m, i;
      while newOrder > order
        invariant order <= newOrder <= from
        invariant Shape() && BitsExcept(-1, -1)
        invariant ret == First(newOrder, j) && Frames(newOrder, j) <= Frames(from, i)
        invariant ret + Pow2(newOrder) == m + Pow2(from)
        invariant free == old(free) + (Frames(from, i) - Frames(newOrder, j))
      {
        newOrder := newOrder - 1;
        HalvesDisjoint(newOrder, j);
        FirstNext(newOrder, 2 * j);
        PutFrontHalf(newOrder, ret, j);
        ret := ret + Pow2(newOrder);
        j := 2 * j + 1;
      }
    }

    /** Takes the first block off a list and flips its pair's bit. */
    method TakeFirst(o: nat) returns (m: nat, ghost i: nat)
      requires Shape() && BitsExcept(-1, -1) && AllMapped(free, areas.frames) && o < ListCount && areas.lists[o] != []
      modifies this`free, areas, areas.next, areas.prev, bits
      ensures Shape() && BitsExcept(-1, -1) && m == First(o, i) == old(areas.lists[o][0])
      ensures Frames(o, i) <= old(free) && free == old(free) - Frames(o, i)
    {
      hide BitsAgree, OwnBits, MapBits, Usable, MapStart, Frames;
      m := areas.Front(o);
      assert m in areas.lists[o];
      i := Shift(m, o);
      assert Whole(free, o, i) && Mapped(areas.frames, o, i);
      NoneFlipped(bits[..], areas.frames, areas.lists, o);
      TakeBlock(o, m, 0, -1);
      PairNumber(m, o);
      BitInRange(o, i / 2);
      var isSet := Toggle(o, Shift(m, o + 1));
    }

    /** Finds the first listed block of the smallest order that will do, and takes its last run of the wanted order. */
    method TakeRun(order: nat) returns (found: bool, ret: nat)
      requires Shape() && BitsExcept(-1, -1) && AllMapped(free, areas.frames) && order < ListCount
      modifies this`free, areas, areas.next, areas.prev, bits
      ensures Shape() && BitsExcept(-1, -1) && AllMapped(free, areas.frames)
      ensures found <==> exists i :: Whole(old(free), order, i)
      ensures !found ==> free == old(free) && areas.lists == old(areas.lists)
      ensures found ==>
        && Aligned(ret, order) && 0 < ret < areas.frames
        && Frames(order, Shift(ret, order)) <= old(free)
        && free == old(free) - Frames(order, Shift(ret, order))
      ensures found ==> exists o :: order <= o < ListCount && BestFit(old(areas.lists), order, o, ret)
    {
      hide BitsAgree, MapBits, MapStart, AllMapped, Canonical, Frames;
      var o := FindList(order);
      if o == ListCount {
        return false, 0;
      }
      var m;
      ghost var i, j;
      m, i := TakeFirst(o);
      ret, j := SplitDown(o, m, i, order);
      ShiftFirst(order, j);
      FramesEnds(order, j);
      AllMappedLess(old(free), free, areas.frames);
      assert BestFit(old(areas.lists), order, o, ret);
      found := true;
    }

    /**
     get_free_pages without PageWait. Returns 0 exactly when no aligned run of 2^order frames
     is wholly free; otherwise the address of such a run, which is no longer free: the last one in
     the first block of the smallest order that has any.
     */
    method GetFreePages(order: nat) returns (addr: nat)
      requires Valid() && order < ListCount
      modifies Repr()
      ensures Valid() && surplus == old(surplus)
      ensures addr == 0 <==> !exists i :: Whole(old(free), order, i)
      ensures addr == 0 ==> free == old(free) && areas.lists == old(areas.lists)
      ensures addr != 0 ==>
        var p := addr / PageSize;
        && addr % PageSize == 0 && p < count.Length && Aligned(p, order)
        && Frames(order, Shift(p, order)) <= old(free)
        && free == old(free) - Frames(order, Shift(p, order))
        && nfreepages == old(nfreepages) - Pow2(order)
        && count[..] == old(count[..])[p := 1]
        && exists o :: order <= o < ListCount && BestFit(old(areas.lists), order, o, p)
      ensures addr == 0 ==> count[..] == old(count[..])
      ensures reserved[..] == old(reserved[..])
    {
      var found, ret := TakeRun(order);
      if !found {
        return 0;
      }
      FramesCount(order, Shift(ret, order));
      count[ret] := 1;
      nfreepages := nfreepages - Pow2(order);
      addr := ret * PageSize;
      assert addr / PageSize == ret;
    }

    /** get_one_page: a free frame, or 0 exactly when there is none. */
    method GetOnePage() returns (addr: nat)
      requires Valid()
      modifies Repr()
      ensures Valid() && surplus == old(surplus)
      ensures addr == 0 <==> old(free) == {}
      ensures addr == 0 ==> free == old(free) && count[..] == old(count[..])
      ensures addr != 0 ==>
        var p := addr / PageSize;
        && addr % PageSize == 0 && p < count.Length && p in old(free) && free == old(free) - {p}
        && count[..] == old(count[..])[p := 1] && nfreepages == old(nfreepages) - 1
      ensures reserved[..] == old(reserved[..])
    {
      hide Valid, Whole;
      WholeFrames(free);
      addr := GetFreePages(0);
    }

    /**
     One turn of the merge loop: flips the pair bit of a block that is not free. A set bit
     says the sibling is not listed, so the block stays as it is; a clear bit says it is, and
     the sibling is unlinked to be joined to the block.
     */
    method TryMerge(o: nat, m: nat, ghost i: nat) returns (merged: bool)
      requires Shape() && BitsExcept(-1, -1) && o < MaxOrder && m == First(o, i)
      requires Frames(o, i) !! free && Usable(Frames(o, i), areas.frames) && Mapped(areas.frames, o, i)
      modifies this`free, areas, areas.next, areas.prev, bits
      ensures Shape()
      ensures merged <==> Whole(old(free), o, Sibling(i))
      ensures merged ==> free == old(free) - Frames(o, Sibling(i)) && BitsExcept(-1, -1)
      ensures !merged ==> free == old(free) && BitsExcept(o, i / 2)
    {
      hide BitsAgree, OwnBits, MapBits, MapStart, Usable, Frames, Whole;
      ShiftFirst(o, i);
      PairNumber(m, o);
      PairTells(areas.lists, free, bits[..], areas.frames, o, i);
      BitInRange(o, i / 2);
      var isSet := Toggle(o, Shift(m, o + 1));
      merged := !isSet;
      if merged {
        BuddyIsSibling(o, i);
        ShiftFirst(o, Sibling(i));
        var buddy := if Shift(m, o) % 2 == 0 then m + Pow2(o) else m - Pow2(o);
        ghost var j :| 0 <= j < |areas.lists[o]| && areas.lists[o][j] == buddy;
        TakeBlock(o, buddy, j, i / 2);
        NoneFlipped(bits[..], areas.frames, areas.lists, o);
      }
    }

    /** The merging loop and the final insertion. */
    method MergeAndInsert(order: nat, first: nat, ghost number: nat)
      requires Shape() && BitsExcept(-1, -1) && order < ListCount && first == First(order, number)
      requires Frames(order, number) !! free && Usable(Frames(order, number), areas.frames)
      requires AllMapped(free + Frames(order, number), areas.frames)
      modifies this`free, areas, areas.next, areas.prev, bits
      ensures Shape() && BitsExcept(-1, -1)
      ensures free == old(free) + Frames(order, number)
    {
      var o, m := order, first;
      ghost var i, flipped: int := number, -1;
      while o < MaxOrder
        invariant order <= o <= MaxOrder
        invariant m == First(o, i) && flipped == -1
        invariant Shape() && BitsExcept(-1, -1)
        invariant Frames(o, i) !! free && Usable(Frames(o, i), areas.frames)
        invariant free + Frames(o, i) == old(free) + Frames(order, number)
      {
        assert Whole(old(free) + Frames(order, number), o, i);
        var merged := TryMerge(o, m, i);
        if !merged {
          flipped := i / 2;
          break;
        }
        SiblingHalves(o, i);
        ParentFirst(o, i);
        m := First(o + 1, Shift(m, o + 1));
        i := i / 2;
        o := o + 1;
      }
      ShiftFirst(o, i);
      PutBlock(o, m, flipped);
    }

    /**
     __free_pages: frees the aligned run of 2^order frames that the address lies in, merging
     with wholly free siblings found by the pair bits alone, if every block that is then wholly
     free has a bit in the map of its order.
     */
    method FreePages(addr: nat, order: nat)
      requires Valid() && order < ListCount
      requires Usable(Frames(order, Shift(addr / PageSize, order)), areas.frames)
      requires Frames(order, Shift(addr / PageSize, order)) !! free
      requires AllMapped(free + Frames(order, Shift(addr / PageSize, order)), areas.frames)
      modifies Repr()
      ensures Valid() && surplus == old(surplus)
      ensures free == old(free) + Frames(order, Shift(addr / PageSize, order))
      ensures nfreepages == old(nfreepages) + Pow2(order)
      ensures count[..] == old(count[..]) && reserved[..] == old(reserved[..])
    {
      ghost var i := Shift(addr / PageSize, order);
      var m := First(order, Shift(addr / PageSize, order));
      FramesCount(order, i);
      MergeAndInsert(order, m, i);
      nfreepages := nfreepages + Pow2(order);
    }

    /** free_one_page: drops one use of a frame, and frees it when that was the last one. */
    method FreeOnePage(addr: nat)
      requires Valid() && addr / PageSize < areas.frames
      requires count[addr / PageSize] > 0
      requires count[addr / PageSize] == 1 && !reserved[addr / PageSize] ==>
        addr / PageSize != 0 && addr / PageSize !in free && AllMapped(free + {addr / PageSize}, areas.frames)
      modifies Repr()
      ensures Valid() && surplus == old(surplus)
      ensures
        var p := addr / PageSize;
        && free == (if !old(reserved[p]) && old(count[p]) == 1 then old(free) + {p} else old(free))
        && count[p] == (if old(reserved[p]) then old(count[p]) else old(count[p]) - 1)
        && (forall q :: 0 <= q < count.Length && q != p ==> count[q] == old(count[q]))
      ensures forall p :: 0 <= p < reserved.Length ==> reserved[p] == old(reserved[p])
    {
      var p := addr / PageSize;
      if reserved[p] {
        return;
      }
      count[p] := count[p] - 1;
      if count[p] == 0 {
        FreePages(addr, 0);
      }
    }

    /** mem_map[p].count++: one more use of a frame. */
    method AddUse(p: nat)
      requires Valid() && p < count.Length
      modifies count
      ensures Valid() && count[..] == old(count[..])[p := old(count[p]) + 1]
    {
      count[p] := count[p] + 1;
    }

    /** One turn of the boot loops of mem_init: a frame is freed, and counted once more. */
    method BootFreeOne(p: nat)
      requires Valid() && 0 < p < areas.frames && p !in free && AllMapped(free + {p}, areas.frames)
      modifies Repr()
      ensures Valid() && surplus == old(surplus) + 1
      ensures free == old(free) + {p} && nfreepages == old(nfreepages) + 2
      ensures Released(old(count[..]), old(reserved[..]), count[..], reserved[..], p, p + 1)
    {
      reserved[p] := false;
      count[p] := 1;
      assert p * PageSize / PageSize == p;
      FreeOnePage(p * PageSize);
      nfreepages := nfreepages + 1;
      surplus := surplus + 1;
    }

    /**
     The boot loops of mem_init: frames first, ..., last - 1 lose their reserved mark and are
     freed one by one. Afterwards nfreepages has grown by twice their number.
     */
    method FreeBootRange(first: nat, last: nat)
      requires Valid() && 0 < first <= last <= areas.frames
      requires forall p :: first <= p < last ==> p !in free
      requires AllMapped(free + Range(first, last), areas.frames)
      modifies Repr()
      ensures Valid()
      ensures free == old(free) + Range(first, last)
      ensures nfreepages == old(nfreepages) + 2 * (last - first)
      ensures surplus == old(surplus) + (last - first)
      ensures Released(old(count[..]), old(reserved[..]), count[..], reserved[..], first, last)
    {
      ReleasedNone(count[..], reserved[..], first);
      assert Range(first, first) == {};
      hide AllMapped, Valid, Released, Range;
      var p := first;
      while p < last
        invariant first <= p <= last
        invariant Valid() && free == old(free) + Range(first, p)
        invariant nfreepages == old(nfreepages) + 2 * (p - first)
        invariant surplus == old(surplus) + (p - first)
        invariant Released(old(count[..]), old(reserved[..]), count[..], reserved[..], first, p)
      {
        BootStep(old(free), areas.frames, first, p, last);
        ghost var count0, reserved0 := count[..], reserved[..];
        BootFreeOne(p);
        ReleasedNext(old(count[..]), old(reserved[..]), count0, reserved0, count[..], reserved[..], first, p);
        p := p + 1;
      }
    }
  }

  /**
   Two allocators over the same memory with the same free frames have the same blocks on the
   same lists and the same pair bits below the largest order: the order in which blocks were
   taken and given back leaves no trace.
   */
  lemma FreeFramesDetermineState(a: PageAllocator, b: PageAllocator)
    requires a.Valid() && b.Valid() && a.free == b.free && a.areas.frames == b.areas.frames
    ensures forall o :: 0 <= o < ListCount ==> multiset(a.areas.lists[o]) == multiset(b.areas.lists[o])
    ensures forall o, k :: 0 <= o < MaxOrder && 0 <= k < OwnBits(a.areas.frames, o) ==>
      BitAt(a.bits[..], a.areas.frames, o, k) == BitAt(b.bits[..], b.areas.frames, o, k)
  {
    hide BitAt, OwnBits;
    CanonicalUnique(a.areas.lists, b.areas.lists, a.free, a.areas.frames);
    forall o, k | 0 <= o < MaxOrder && 0 <= k < OwnBits(a.areas.frames, o)
      ensures BitAt(a.bits[..], a.areas.frames, o, k) == BitAt(b.bits[..], b.areas.frames, o, k)
    {
      assert Odd(a.areas.lists, o, k) == Odd(b.areas.lists, o, k);
    }
  }

  /** Giving a run straight back restores every list as a multiset, and the pair bits. */
  method AllocateThenFree(a: PageAllocator, order: nat) returns (addr: nat)
    requires a.Valid() && order < ListCount
    modifies a.Repr()
    ensures a.Valid() && a.free == old(a.free) && a.nfreepages == old(a.nfreepages)
    ensures forall o :: 0 <= o < ListCount ==> multiset(a.areas.lists[o]) == old(multiset(a.areas.lists[o]))
  {
    ghost var lists, free := a.areas.lists, a.free;
    addr := a.GetFreePages(order);
    if addr != 0 {
      a.FreePages(addr, order);
    }
    CanonicalUnique(lists, a.areas.lists, free, a.areas.frames);
  }

  /** Of the blocks of 2080 frames only the last one of order 5 has no bit of its own. */
  lemma CoversAt2080(o: nat)
    requires o <= MaxOrder
    ensures MapCovers(2080, o) <==> o != 5
    ensures Shift(2080, 5) == 65
  {
    assert Shift(2080, 5) == 65 && Shift(2080, 6) == 32 && Shift(2080, 7) == 16 && Shift(2080, 8) == 8;
    assert Shift(2080, 0) == 2080 && Shift(2080, 1) == 1040 && Shift(2080, 2) == 520 && Shift(2080, 3) == 260 &&
      Shift(2080, 4) == 130;
    assert Shift(2080, 9) == 4;
    assert o in {0, 1, 2, 3, 4, 5, 6, 7, 8, 9};
  }

  lemma LastOfOrder5()
    ensures First(5, 64) == 2048 && First(5, 65) == 2080 && First(6, 1) == 64 && Pow2(6) == 64
  {
  }

  lemma LowMapped(free: set<nat>)
    requires forall p :: p in free ==> 0 < p < 160
    ensures AllMapped(free, 2080)
  {
    hide Mapped, Frames, First, Shift, MapCovers, Pow2;
    forall o, i | 0 <= o <= MaxOrder && Whole(free, o, i) ensures Mapped(2080, o, i) {
      BlockInMemory(2080, o, i);
      FramesEnds(o, i);
      LastOfOrder5();
      CoversAt2080(o);
      MappedExactly(2080, o, i);
    }
  }

  lemma WithoutZero(free: set<nat>, o: nat)
    requires 0 !in free
    ensures !Whole(free, o, 0)
  {
    FramesEnds(o, 0);
    FirstZero(o);
  }

  lemma WholeRun(free: set<nat>, o: nat, i: nat)
    requires forall p :: First(o, i) <= p < First(o, i) + Pow2(o) ==> p in free
    ensures Whole(free, o, i)
  {
    forall p | p in Frames(o, i) ensures p in free {
      FramesAreRun(p, o, i);
    }
  }

  /** The second block of an order is free and frame 0 is not: their pair is odd. */
  lemma OddFirstPair(lists: seq<seq<nat>>, free: set<nat>, o: nat)
    requires Canonical(lists, free) && o < MaxOrder && 0 !in free && Whole(free, o, 1)
    ensures Odd(lists, o, 0)
  {
    hide Frames, Whole;
    WithoutZero(free, o);
    WithoutZero(free, o + 1);
    ShiftFirst(o, 0);
    ShiftFirst(o, 1);
  }

  /**
   With 2080 frames, the pair of the last 32 frames has the bit of the first two blocks of 64.
   Boot frees the low frames 4 to 159, which sets it, as frames 64 to 127 are then free and 0 to
   63 are not. So when the last 32 frames are freed, the flipped bit says that their sibling is
   free, which lies beyond memory.
   */
  method MapsRunTogether(memory: nat -> bool) returns (a: PageAllocator, isSet: bool)
    ensures fresh(a.Repr()) && a.areas.frames == 2080 && !MapsCover(2080)
    ensures !isSet && First(5, Sibling(64)) == 2080 && !Whole(a.free, 5, Sibling(64))
  {
    hide AllMapped, Canonical, BitsAgree, MapBits, MapStart, Usable, Range, Odd, First, Frames, Pow2, BitAt, MapsCover;
    a := new PageAllocator(2080, memory);
    forall p ensures p in Range(4, 160) <==> 4 <= p < 160 {
      InRange(4, 160, p);
    }
    LowMapped(Range(4, 160));
    assert a.free + Range(4, 160) == Range(4, 160);
    a.FreeBootRange(4, 160);
    LastOfOrder5();
    WholeRun(a.free, 6, 1);
    OddFirstPair(a.areas.lists, a.free, 6);
    SharedBit(a.bits[..], a.areas.lists);
    isSet := a.Toggle(5, 32);
    FramesEnds(5, 65);
  }

  /** A block without a bit in its map has the first bit of the next one. */
  lemma BorrowedBit(bits: seq<bool>, frames: nat, lists: seq<seq<nat>>, o: nat)
    requires BitsAgree(bits, frames, lists, -1, -1) && o < MaxOrder - 1 && !MapCovers(frames, o) && Odd(lists, o + 1, 0)
    requires Shift(frames, o + 1) % 32 == 0 && Shift(frames, o + 2) > 0
    ensures
      var last := Shift(frames, o) - 1;
      last > 0 && MapStart(frames, o) + last / 2 < |bits| && BitAt(bits, frames, o, last / 2)
  {
    hide MapBits, OwnBits, MapStart, MapCovers, Shift, First, Pow2, Odd;
    MapCoversExactly(frames, o);
    MapsFollow(frames, o + 1, ListCount);
    assert BitAt(bits, frames, o + 1, 0) == Odd(lists, o + 1, 0);
  }

  lemma SharedBit(bits: seq<bool>, lists: seq<seq<nat>>)
    requires BitsAgree(bits, 2080, lists, -1, -1) && Odd(lists, 6, 0)
    ensures MapStart(2080, 5) + 32 < |bits| && BitAt(bits, 2080, 5, 32) && !MapsCover(2080)
  {
    hide BitsAgree, MapStart, BitAt, Odd, MapBits, MapCovers;
    CoversAt2080(5);
    PairsAt2080();
    BorrowedBit(bits, 2080, lists, 5);
  }

  /**
   The bit of an uncovered last block that lies in the padding of its map holds whatever memory
   held before boot: when the block is the first to be freed, that decides whether the block
   beyond memory is taken for its free sibling.
   */
  method PaddingDecides(frames: nat, o: nat, memory: nat -> bool) returns (a: PageAllocator, isSet: bool)
    requires o < MaxOrder && !MapCovers(frames, o) && Shift(frames, o + 1) % 32 != 0
    ensures fresh(a.Repr()) && a.areas.frames == frames
    ensures
      var last := Shift(frames, o) - 1;
      && 0 < last && First(o, last) + Pow2(o) <= frames < First(o, Sibling(last)) + Pow2(o)
      && isSet == !memory(MapStart(frames, o) + last / 2)
  {
    hide AllMapped, Canonical, BitsAgree, MapBits, OwnBits, MapStart, Usable, MapCovers, First, Pow2, Reset;
    a := new PageAllocator(frames, memory);
    MapCoversExactly(frames, o);
    var last := Shift(frames, o) - 1;
    PaddingBit(frames, o);
    isSet := a.Toggle(o, last / 2);
  }

  lemma PaddingBit(frames: nat, o: nat)
    requires o < MaxOrder && !MapCovers(frames, o) && Shift(frames, o + 1) % 32 != 0
    ensures Shift(frames, o) > 1
    ensures
      var last := Shift(frames, o) - 1;
      var at := MapStart(frames, o) + last / 2;
      && at < MapStart(frames, ListCount) && !Reset(frames, at)
      && frames < First(o, Sibling(last)) + Pow2(o)
  {
    hide MapStart, First, Pow2, Reset, MapBits;
    var last := Shift(frames, o) - 1;
    MapCoversExactly(frames, o);
    MapsFollow(frames, o, ListCount);
    OwnReset(frames, o, last / 2);
    InMemory(frames, o, Sibling(last));
  }

  lemma BlocksAt4352()
    ensures Shift(4352, 8) == 17 && Shift(4352, 9) == 8 && First(8, 16) == 4096 && First(8, 17) == 4352
    ensures !MapCovers(4352, 8) && !MapsCover(4352)
  {
  }

  /**
   With 4352 frames, or 17 megabytes, these are the last 256 frames: block 16 of order 8, behind 8
   pairs in one byte. If memory was full of ones, block 17, at the end of memory, counts as free.
   */
  method SeventeenMegabytes() returns (a: PageAllocator, isSet: bool)
    ensures fresh(a.Repr()) && a.areas.frames == 4352 && !MapsCover(4352)
    ensures !isSet && First(8, 16) == 4096 && First(8, Sibling(16)) == 4352
  {
    hide MapCovers, MapsCover, First, Shift, Pow2, MapStart;
    BlocksAt4352();
    a, isSet := PaddingDecides(4352, 8, _ => true);
  }

  lemma PairsAt2080()
    ensures Shift(2080, 6) == 32 && Shift(2080, 7) == 16
  {
  }

  lemma FrontHalf(free: set<nat>, frames: nat, o: nat, i: nat)
    requires Frames(o + 1, i) !! free && Usable(Frames(o + 1, i), frames)
    ensures First(o + 1, i) == First(o, 2 * i) && Shift(First(o, 2 * i), o) == 2 * i
    ensures 0 < First(o, 2 * i) < frames
    ensures Frames(o, 2 * i) !! free && Usable(Frames(o, 2 * i), frames)
    ensures !Whole(free, o, Sibling(2 * i))
  {
    HalvesDisjoint(o, i);
    ShiftFirst(o, 2 * i);
    ShiftFirst(o, 2 * i + 1);
  }

  lemma SiblingHalves(o: nat, i: nat)
    ensures Frames(o + 1, i / 2) == Frames(o, i) + Frames(o, Sibling(i))
    ensures Frames(o, i) !! Frames(o, Sibling(i))
  {
    HalvesDisjoint(o, i / 2);
    assert i == 2 * (i / 2) || i == 2 * (i / 2) + 1;
  }
}
