/**
 The geometry of the buddy system of mm/page_alloc.c: aligned power-of-two blocks of
 page frames, and the canonical decomposition of a set of free frames into them.

 A block is a pair (o, i): order o and number i, covering the frames p with p >> o == i.
 Out-of-range frames are never free, so no separate bound on i is needed.
 */
module BuddyGeometry {

  /** NR_FREE_LIST is 10: the largest block has order 9. */
  const MaxOrder: nat := 9

  /** p >> o */
  function Shift(p: nat, o: nat): nat {
    if o == 0 then p else Shift(p, o - 1) / 2
  }

  /** 1 << o */
  function Pow2(o: nat): nat {
    if o == 0 then 1 else 2 * Pow2(o - 1)
  }

  /** i << o: the first frame of block (o, i) */
  function First(o: nat, i: nat): nat {
    if o == 0 then i else First(o - 1, 2 * i)
  }

  /** The frames of block (o, i). */
  function Frames(o: nat, i: nat): set<nat> {
    if o == 0 then {i} else Frames(o - 1, 2 * i) + Frames(o - 1, 2 * i + 1)
  }

  /** Every frame of block (o, i) is in the set. */
  ghost predicate Whole(free: set<nat>, o: nat, i: nat) {
    Frames(o, i) <= free
  }

  /** Block (o, i) is a maximal wholly free block, blocks being capped at MaxOrder. */
  ghost predicate Maximal(free: set<nat>, o: nat, i: nat) {
    && o <= MaxOrder
    && Whole(free, o, i)
    && (o < MaxOrder ==> !Whole(free, o + 1, i / 2))
  }

  /** Frame m is the first frame of its order-o block. */
  predicate Aligned(m: nat, o: nat) {
    m == First(o, Shift(m, o))
  }

  lemma {:induction false} InFrames(p: nat, o: nat, i: nat)
    ensures p in Frames(o, i) <==> Shift(p, o) == i
  {
    if o > 0 {
      InFrames(p, o - 1, 2 * i);
      InFrames(p, o - 1, 2 * i + 1);
    }
  }

  lemma {:induction false} ShiftFirst(o: nat, i: nat)
    ensures Shift(First(o, i), o) == i
    ensures First(o, i) in Frames(o, i)
  {
    if o > 0 {
      ShiftFirst(o - 1, 2 * i);
    }
  }

  lemma {:induction false} FirstNext(o: nat, i: nat)
    ensures First(o, i + 1) == First(o, i) + Pow2(o)
  {
    if o > 0 {
      FirstNext(o - 1, 2 * i);
      FirstNext(o - 1, 2 * i + 1);
    }
  }

  /** A block of order o is exactly 2^o frames. */
  lemma {:induction false} FramesCount(o: nat, i: nat)
    ensures |Frames(o, i)| == Pow2(o)
  {
    hide Frames;
    if o == 0 {
      SingleFrame(i);
    } else {
      FramesCount(o - 1, 2 * i);
      FramesCount(o - 1, 2 * i + 1);
      JoinCount(o - 1, i);
    }
  }

  lemma SingleFrame(i: nat)
    ensures |Frames(0, i)| == 1
  {
  }

  lemma JoinCount(o: nat, i: nat)
    ensures |Frames(o + 1, i)| == |Frames(o, 2 * i)| + |Frames(o, 2 * i + 1)|
  {
    HalvesDisjoint(o, i);
    DisjointUnionSize(Frames(o, 2 * i), Frames(o, 2 * i + 1));
  }

  lemma HalvesDisjoint(o: nat, i: nat)
    ensures Frames(o + 1, i) == Frames(o, 2 * i) + Frames(o, 2 * i + 1)
    ensures Frames(o, 2 * i) !! Frames(o, 2 * i + 1)
  {
    var left, right := Frames(o, 2 * i), Frames(o, 2 * i + 1);
    forall p | p in left ensures p !in right {
      InFrames(p, o, 2 * i);
      InFrames(p, o, 2 * i + 1);
    }
  }

  lemma DisjointUnionSize(a: set<nat>, b: set<nat>)
    requires a !! b
    ensures |a + b| == |a| + |b|
  {
    assert a * b == {};
  }

  /** A block is a run of consecutive frames starting at its first frame. */
  lemma {:induction false} FramesAreRun(p: nat, o: nat, i: nat)
    ensures p in Frames(o, i) <==> First(o, i) <= p < First(o, i) + Pow2(o)
  {
    if o > 0 {
      FramesAreRun(p, o - 1, 2 * i);
      FramesAreRun(p, o - 1, 2 * i + 1);
      FirstNext(o - 1, 2 * i);
    }
  }

  /** Two blocks that share a frame are nested. */
  lemma {:induction false} Nested(o: nat, i: nat, o': nat, i': nat, p: nat)
    requires o <= o'
    requires p in Frames(o, i) && p in Frames(o', i')
    ensures Frames(o, i) <= Frames(o', i')
    ensures o == o' ==> i == i'
    ensures o < o' ==> Frames(o + 1, i / 2) <= Frames(o', i')
    decreases o' - o
  {
    InFrames(p, o, i);
    InFrames(p, o', i');
    if o < o' {
      InFrames(p, o + 1, i / 2);
      Nested(o + 1, i / 2, o', i', p);
      assert i == 2 * (i / 2) || i == 2 * (i / 2) + 1;
    }
  }

  /** Maximal blocks that share a frame are the same block. */
  lemma MaximalDisjoint(free: set<nat>, o: nat, i: nat, o': nat, i': nat, p: nat)
    requires Maximal(free, o, i) && Maximal(free, o', i')
    requires p in Frames(o, i) && p in Frames(o', i')
    ensures o == o' && i == i'
  {
    if o <= o' {
      Nested(o, i, o', i', p);
    } else {
      Nested(o', i', o, i, p);
    }
  }

  /** Taking a maximal block away leaves every other maximal block, and makes no new one. */
  lemma RemoveMaximal(free: set<nat>, o: nat, i: nat, o': nat, i': nat)
    requires Maximal(free, o, i)
    ensures Maximal(free - Frames(o, i), o', i') <==> Maximal(free, o', i') && (o', i') != (o, i)
  {
    if Maximal(free, o', i') && (o', i') != (o, i) {
      RemoveKeepsMaximal(free, o, i, o', i');
    }
    if Maximal(free - Frames(o, i), o', i') {
      RemoveAddsNone(free, o, i, o', i');
    }
  }

  lemma RemoveKeepsMaximal(free: set<nat>, o: nat, i: nat, o': nat, i': nat)
    requires Maximal(free, o, i) && Maximal(free, o', i') && (o', i') != (o, i)
    ensures Maximal(free - Frames(o, i), o', i')
  {
    forall p | p in Frames(o', i') ensures p !in Frames(o, i) {
      if p in Frames(o, i) {
        MaximalDisjoint(free, o, i, o', i', p);
      }
    }
  }

  lemma RemoveAddsNone(free: set<nat>, o: nat, i: nat, o': nat, i': nat)
    requires Maximal(free, o, i) && Maximal(free - Frames(o, i), o', i')
    ensures Maximal(free, o', i') && (o', i') != (o, i)
  {
    ShiftFirst(o', i');
    if o' < MaxOrder && Whole(free, o' + 1, i' / 2) {
      var p :| p in Frames(o' + 1, i' / 2) && p in Frames(o, i);
      if o' + 1 <= o {
        Nested(o' + 1, i' / 2, o, i, p);
        ParentCovers(o', i');
        assert false;
      } else {
        Nested(o, i, o' + 1, i' / 2, p);
        assert false;
      }
    }
  }

  lemma ParentCovers(o: nat, i: nat)
    ensures Frames(o, i) <= Frames(o + 1, i / 2)
  {
    assert i == 2 * (i / 2) || i == 2 * (i / 2) + 1;
  }

  /** The other half of the pair that block (o, i) belongs to. */
  function Sibling(i: nat): nat {
    if i % 2 == 0 then i + 1 else i - 1
  }

  /**
   Freeing a block whose sibling is not wholly free adds that block to the maximal ones
   and changes nothing else.
   */
  lemma AddMaximal(free: set<nat>, o: nat, i: nat, o': nat, i': nat)
    requires o <= MaxOrder
    requires Frames(o, i) !! free
    requires o == MaxOrder || !Whole(free, o, Sibling(i))
    ensures Maximal(free + Frames(o, i), o', i') <==> Maximal(free, o', i') || (o', i') == (o, i)
  {
    var more := free + Frames(o, i);
    ShiftFirst(o, i);
    if o < MaxOrder {
      SiblingBlocks(free, o, i);
    }
    assert Maximal(more, o, i);
    if (o', i') != (o, i) {
      if Maximal(more, o', i') {
        forall p | p in Frames(o', i') ensures p in free {
          if p in Frames(o, i) {
            MaximalDisjoint(more, o, i, o', i', p);
          }
        }
      }
      if Maximal(free, o', i') {
        if o' < MaxOrder && Whole(more, o' + 1, i' / 2) {
          WholeParentMeets(free, o, i, o', i');
          assert false;
        }
      }
    }
  }

  /** The parent of a pair is not wholly free once either half has a frame that is not. */
  lemma SiblingBlocks(free: set<nat>, o: nat, i: nat)
    requires Frames(o, i) !! free
    requires !Whole(free, o, Sibling(i))
    ensures !Whole(free + Frames(o, i), o + 1, i / 2)
  {
    var p :| p in Frames(o, Sibling(i)) && p !in free;
    InFrames(p, o, Sibling(i));
    InFrames(p, o, i);
    InFrames(p, o + 1, i / 2);
  }

  /** No parent of a maximal block becomes wholly free when a sibling-blocked block is freed. */
  lemma WholeParentMeets(free: set<nat>, o: nat, i: nat, o': nat, i': nat)
    requires o <= MaxOrder && o' < MaxOrder
    requires Frames(o, i) !! free
    requires o == MaxOrder || !Whole(free + Frames(o, i), o + 1, i / 2)
    requires Maximal(free, o', i')
    ensures !Whole(free + Frames(o, i), o' + 1, i' / 2)
  {
    if Whole(free + Frames(o, i), o' + 1, i' / 2) {
      var p :| p in Frames(o' + 1, i' / 2) && p !in free;
      ShiftFirst(o', i');
      ParentCovers(o', i');
      if o' + 1 <= o {
        Nested(o' + 1, i' / 2, o, i, p);
        assert false;
      } else {
        Nested(o, i, o' + 1, i' / 2, p);
        assert false;
      }
    }
  }

  /**
   What the one bit per pair must tell: with a block not free at all, its sibling is wholly
   free exactly when the sibling is a maximal block of the same order.
   */
  lemma SiblingMaximal(free: set<nat>, o: nat, i: nat)
    requires o < MaxOrder
    requires Frames(o, i) !! free
    ensures Maximal(free, o, Sibling(i)) <==> Whole(free, o, Sibling(i))
    ensures !Maximal(free, o, i)
  {
    ShiftFirst(o, i);
    ParentCovers(o, i);
    assert Sibling(i) / 2 == i / 2;
  }

  /** Every wholly free block lies inside a maximal one. */
  lemma {:induction false} InsideMaximal(free: set<nat>, o: nat, i: nat) returns (o': nat, i': nat)
    requires o <= MaxOrder && Whole(free, o, i)
    ensures o <= o' && Maximal(free, o', i') && Frames(o, i) <= Frames(o', i')
    decreases MaxOrder - o
  {
    if o < MaxOrder && Whole(free, o + 1, i / 2) {
      o', i' := InsideMaximal(free, o + 1, i / 2);
      ParentCovers(o, i);
    } else {
      o', i' := o, i;
    }
  }

  /** A block contains a wholly free block of every smaller order. */
  lemma {:induction false} ContainsSmaller(o: nat, i: nat, o': nat)
    requires o <= o'
    ensures exists j :: Frames(o, j) <= Frames(o', i)
  {
    var j := Shift(First(o', i), o);
    ShiftFirst(o', i);
    InFrames(First(o', i), o, j);
    Nested(o, j, o', i, First(o', i));
  }

  lemma {:induction false} FirstBelow(p: nat, o: nat, i: nat)
    ensures First(o, i) <= p <==> i <= Shift(p, o)
  {
    if o > 0 {
      FirstBelow(p, o - 1, 2 * i);
    }
  }

  /** Bits in whole bytes, and in whole words: the next multiple of 8 or 32, or the number itself. */
  function InBytes(bits: nat): (r: nat)
    ensures bits <= r && (r == bits <==> bits % 8 == 0)
  {
    (bits + 7) / 8 * 8
  }

  function InWords(bits: nat): (r: nat)
    ensures bits <= r && (r == bits <==> bits % 32 == 0)
  {
    (bits + 31) / 32 * 32
  }

  lemma BytesInWords(bits: nat)
    ensures InBytes(bits) <= InWords(bits)
  {
    var q, m := bits / 32, bits % 32;
    assert bits == 32 * q + m;
    assert (bits + 7) / 8 == 4 * q + (m + 7) / 8;
    assert (bits + 31) / 32 == q + (m + 31) / 32;
  }

  /** The code rounds the bytes up to words. */
  lemma RoundedTwice(bits: nat)
    ensures ((bits + 7) / 8 + 3) / 4 * 32 == InWords(bits)
  {
    assert (bits + 7) / 8 + 3 == (bits + 31) / 8;
    assert (bits + 31) / 8 / 4 == (bits + 31) / 32;
  }

  /** The bits that free_area_init lays out for the pairs of order o, in whole words. */
  function MapBits(frames: nat, o: nat): (bits: nat)
    ensures bits == InWords(Shift(frames, o + 1))
  {
    RoundedTwice(Shift(frames, o + 1));
    ((Shift(frames, o + 1) + 7) / 8 + 3) / 4 * 32
  }

  /**
   The bits of that map that can serve: those in the bytes that are cleared, and at the largest
   order, where the bits are never looked at, all of them.
   */
  function OwnBits(frames: nat, o: nat): (bits: nat)
    ensures Shift(frames, o + 1) <= bits <= MapBits(frames, o)
  {
    BytesInWords(Shift(frames, o + 1));
    if o < MaxOrder then InBytes(Shift(frames, o + 1)) else MapBits(frames, o)
  }

  /** Where the map of order o begins: the maps follow one another. */
  function MapStart(frames: nat, o: nat): nat {
    if o == 0 then 0 else MapStart(frames, o - 1) + MapBits(frames, o - 1)
  }

  lemma {:induction false} MapsFollow(frames: nat, o: nat, o': nat)
    requires o < o'
    ensures MapStart(frames, o) + MapBits(frames, o) <= MapStart(frames, o')
    decreases o'
  {
    hide MapBits;
    if o + 1 < o' {
      MapsFollow(frames, o, o' - 1);
    }
  }

  /** The pair of block (o, i) has a bit of its own. */
  predicate Mapped(frames: nat, o: nat, i: nat) {
    i / 2 < OwnBits(frames, o)
  }

  /** The bits of two pairs in their maps are not the same. */
  lemma BitsApart(frames: nat, o: nat, k: nat, o': nat, k': nat)
    requires k < MapBits(frames, o) && k' < MapBits(frames, o')
    ensures MapStart(frames, o) + k == MapStart(frames, o') + k' <==> o == o' && k == k'
  {
    hide MapBits, MapStart;
    if o < o' {
      MapsFollow(frames, o, o');
    } else if o' < o {
      MapsFollow(frames, o', o);
    }
  }

  /** Bit at lies in the bytes of the map of order o. */
  predicate InMapBytes(frames: nat, o: nat, at: nat) {
    MapStart(frames, o) <= at < MapStart(frames, o) + InBytes(Shift(frames, o + 1))
  }

  /** Bit at lies in the bytes of a map, which are what free_area_init clears. */
  ghost predicate Reset(frames: nat, at: nat) {
    ResetBefore(frames, MaxOrder + 1, at)
  }

  ghost predicate ResetBefore(frames: nat, n: nat, at: nat) {
    exists o :: 0 <= o < n && InMapBytes(frames, o, at)
  }

  lemma ResetNone(frames: nat)
    ensures forall at: nat :: !ResetBefore(frames, 0, at)
  {
  }

  lemma ResetNext(frames: nat, o: nat, at: nat)
    ensures ResetBefore(frames, o + 1, at) <==> ResetBefore(frames, o, at) || InMapBytes(frames, o, at)
  {
    hide InMapBytes;
  }

  /** Below the largest order the map's own bits are cleared, and the padding behind them is not. */
  lemma OwnReset(frames: nat, o: nat, k: nat)
    requires o < MaxOrder && k < MapBits(frames, o)
    ensures Reset(frames, MapStart(frames, o) + k) <==> k < OwnBits(frames, o)
  {
    hide MapBits, MapStart, Shift, InBytes;
    var at := MapStart(frames, o) + k;
    assert InMapBytes(frames, o, at) <==> k < OwnBits(frames, o);
    forall o' | 0 <= o' <= MaxOrder && InMapBytes(frames, o', at) ensures o' == o {
      BytesInWords(Shift(frames, o' + 1));
      BitsApart(frames, o, k, o', at - MapStart(frames, o'));
    }
  }

  /**
   Order o has no last unpaired block while its paired ones fill whole bytes, or at the largest
   order whole words. (The block with frame 0 in it does not count, as frame 0 is never free.)
   */
  predicate MapCovers(frames: nat, o: nat) {
    var pairs := Shift(frames, o + 1);
    Shift(frames, o) % 2 == 0 || pairs == 0 || pairs % (if o < MaxOrder then 8 else 32) != 0
  }

  predicate MapsCover(frames: nat) {
    forall o :: 0 <= o <= MaxOrder ==> MapCovers(frames, o)
  }

  lemma InMemory(frames: nat, o: nat, i: nat)
    ensures First(o, i) + Pow2(o) <= frames <==> i < Shift(frames, o)
  {
    FirstNext(o, i);
    FirstBelow(frames, o, i + 1);
  }

  lemma LastPair(blocks: nat, i: nat)
    requires i < blocks
    ensures i / 2 <= blocks / 2 && (i / 2 == blocks / 2 <==> i == blocks - 1 && blocks % 2 == 1)
  {
  }

  /**
   A block inside memory lacks a bit exactly if it is the last one and the map does not cover it:
   its bit is then the first that is not the map's own, or if the pairs fill whole words the first
   of the next map.
   */
  lemma MappedExactly(frames: nat, o: nat, i: nat)
    requires 0 < i < Shift(frames, o)
    ensures Mapped(frames, o, i) <==> MapCovers(frames, o) || i != Shift(frames, o) - 1
    ensures !Mapped(frames, o, i) ==> i / 2 == OwnBits(frames, o) == Shift(frames, o + 1)
    ensures !Mapped(frames, o, i) && Shift(frames, o + 1) % 32 == 0 ==>
      MapStart(frames, o) + i / 2 == MapStart(frames, o + 1)
  {
    hide InBytes, InWords, MapBits;
    LastPair(Shift(frames, o), i);
  }

  /**
   Every block of order o inside memory and without frame 0 has a bit of its own, if and only if
   the memory size is such; the last block otherwise has one that is not cleared at boot, or the
   first of the next map.
   */
  lemma MapCoversExactly(frames: nat, o: nat)
    ensures
      (forall i: nat :: 0 < i && First(o, i) + Pow2(o) <= frames ==> Mapped(frames, o, i)) <==> MapCovers(frames, o)
    ensures !MapCovers(frames, o) ==>
      var last := Shift(frames, o) - 1;
      && 0 < last && First(o, last) + Pow2(o) <= frames && !Mapped(frames, o, last)
      && last / 2 == OwnBits(frames, o)
      && (Shift(frames, o + 1) % 32 == 0 ==> MapStart(frames, o) + last / 2 == MapStart(frames, o + 1))
  {
    hide Mapped, MapStart, OwnBits;
    forall i: nat | 0 < i && First(o, i) + Pow2(o) <= frames && MapCovers(frames, o) ensures Mapped(frames, o, i) {
      InMemory(frames, o, i);
      MappedExactly(frames, o, i);
    }
    if !MapCovers(frames, o) {
      var last := Shift(frames, o) - 1;
      InMemory(frames, o, last);
      MappedExactly(frames, o, last);
    }
  }
}
