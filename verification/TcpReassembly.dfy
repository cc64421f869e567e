/**
 The list of TCP segments held out of order and how a new segment is merged into it
 (net/tcputil.c). A segment is a chain of buffers; its header is not modelled. Places on the
 list are sequence numbers moved so that the next one expected lies at the origin.
 */
module TcpReassembly {
  import opened Blocks
  import opened Chains
  import opened SequenceNumbers

  datatype Packet = Packet(first: u32, bufs: seq<seq<byte>>)

  function Bytes(p: Packet): seq<byte> {
    Flatten(p.bufs)
  }

  /** skb_cut_data: drops the first count bytes, and the buffers it empties except the first. */
  method CutData(bufs: seq<seq<byte>>, count: nat) returns (rest: seq<seq<byte>>)
    requires bufs != [] && count <= |Flatten(bufs)|
    ensures rest != [] && Flatten(rest) == Flatten(bufs)[count..]
  {
    if |bufs[0]| >= count {
      rest := [bufs[0][count..]] + bufs[1..];
      assert rest[1..] == bufs[1..];
    } else {
      var len, tail := count - |bufs[0]|, bufs[1..];
      while len > 0
        invariant 0 <= len <= |Flatten(tail)| && Flatten(tail)[len..] == Flatten(bufs)[count..]
        decreases |tail|, len
      {
        var head, others := tail[0], tail[1..];
        if |head| > len {
          tail := [head[len..]] + others;
          assert tail[1..] == others;
          len := 0;
        } else {
          len := len - |head|;
          tail := others;
        }
      }
      rest := [[]] + tail;
      assert rest[1..] == tail;
    }
  }

  function Start(p: Packet, r: u32): nat {
    Rel(p.first, r)
  }

  function End(p: Packet, r: u32): nat {
    Rel(p.first, r) + |Bytes(p)|
  }

  ghost predicate Within(p: Packet, r: u32, x: int) {
    Start(p, r) <= x < End(p, r)
  }

  ghost predicate Fits(p: Packet, r: u32) {
    p.bufs != [] && Bytes(p) != [] && End(p, r) < 0x1_0000_0000
  }

  /** Held segments come in order, with gaps between them. */
  ghost predicate Sorted(held: seq<Packet>, r: u32) {
    && (forall i :: 0 <= i < |held| ==> Fits(held[i], r))
    && (forall i, j :: 0 <= i < j < |held| ==> End(held[i], r) < Start(held[j], r))
  }

  ghost predicate Covered(held: seq<Packet>, r: u32, x: int) {
    exists i :: 0 <= i < |held| && Within(held[i], r, x)
  }

  /** The place in the stream of the byte j after sequence number s. */
  function Offset(isn: u32, s: u32, j: nat): nat {
    Wrap(s + j - isn)
  }

  lemma OffsetLater(isn: u32, s: u32, k: nat, j: nat)
    ensures Offset(isn, Wrap(s + k), j) == Offset(isn, s, k + j)
  {
    var d: int := j - isn;
    WrapAdd(s + k, d);
  }

  /** Every byte of the segment is the stream's byte for its sequence number. */
  ghost predicate Carries(stream: seq<byte>, isn: u32, s: u32, data: seq<byte>) {
    forall j :: 0 <= j < |data| ==> Offset(isn, s, j) < |stream| && data[j] == stream[Offset(isn, s, j)]
  }

  ghost predicate AllCarry(stream: seq<byte>, isn: u32, held: seq<Packet>) {
    forall i :: 0 <= i < |held| ==> Carries(stream, isn, held[i].first, Bytes(held[i]))
  }

  lemma CarriesRest(stream: seq<byte>, isn: u32, s: u32, data: seq<byte>, k: nat)
    requires Carries(stream, isn, s, data) && k <= |data|
    ensures Carries(stream, isn, Wrap(s + k), data[k..])
  {
    hide Offset;
    var s' := Wrap(s + k);
    forall j | 0 <= j < |data[k..]|
      ensures Offset(isn, s', j) < |stream| && data[k..][j] == stream[Offset(isn, s', j)]
    {
      OffsetLater(isn, s, k, j);
      assert data[k..][j] == data[k + j];
    }
  }

  lemma CarriesMore(stream: seq<byte>, isn: u32, s: u32, a: seq<byte>, b: seq<byte>)
    requires Carries(stream, isn, s, a) && Carries(stream, isn, Wrap(s + |a|), b)
    ensures Carries(stream, isn, s, a + b)
  {
    hide Offset;
    var c := a + b;
    forall j | 0 <= j < |c| ensures Offset(isn, s, j) < |stream| && c[j] == stream[Offset(isn, s, j)] {
      if j >= |a| {
        OffsetLater(isn, s, |a|, j - |a|);
        assert c[j] == b[j - |a|];
      } else {
        assert c[j] == a[j];
      }
    }
  }

  /** link_skb after skb_cut_data: a, and what b has beyond the end of a. */
  method Join(a: Packet, b: Packet, r: u32, ghost stream: seq<byte>, ghost isn: u32) returns (c: Packet)
    requires Fits(a, r) && Fits(b, r) && Start(a, r) <= Start(b, r) <= End(a, r) < End(b, r)
    ensures Fits(c, r) && Start(c, r) == Start(a, r) && End(c, r) == End(b, r)
    ensures Carries(stream, isn, a.first, Bytes(a)) && Carries(stream, isn, b.first, Bytes(b)) ==>
      Carries(stream, isn, c.first, Bytes(c))
  {
    hide Rel, Wrap, Carries;
    var cut := End(a, r) - Start(b, r);
    var rest := CutData(b.bufs, cut);
    c := Packet(a.first, a.bufs + rest);
    FlattenConcat(a.bufs, rest);
    if Carries(stream, isn, a.first, Bytes(a)) && Carries(stream, isn, b.first, Bytes(b)) {
      CarriesRest(stream, isn, b.first, Bytes(b), cut);
      SameEnd(a.first, b.first, r, |Bytes(a)|, cut);
      CarriesMore(stream, isn, a.first, Bytes(a), Flatten(rest));
    }
  }

  lemma SameEnd(s: u32, t: u32, r: u32, len: nat, cut: nat)
    requires Rel(t, r) + cut == Rel(s, r) + len && Rel(s, r) <= Rel(t, r)
    ensures Wrap(t + cut) == Wrap(s + len)
  {
    var d := Rel(t, r) - Rel(s, r);
    RelApart(s, t, r, d);
    WrapAdd(s + d, cut);
  }

  function RemoveAt(list: seq<Packet>, i: nat): seq<Packet>
    requires i < |list|
  {
    list[..i] + list[i + 1..]
  }

  /** The walk over the list has reached place i with segment cur. */
  ghost predicate Walking(list: seq<Packet>, cur: Packet, i: nat, r: u32) {
    Sorted(list, r) && Fits(cur, r) && i <= |list| && forall j :: 0 <= j < i ==> End(list[j], r) < Start(cur, r)
  }

  ghost predicate SameCover(list: seq<Packet>, cur: Packet, list': seq<Packet>, cur': Packet, r: u32) {
    forall x :: Covered(list', r, x) || Within(cur', r, x) <==> Covered(list, r, x) || Within(cur, r, x)
  }

  lemma RemoveCover(list: seq<Packet>, i: nat, r: u32, x: int)
    requires i < |list|
    ensures Covered(list, r, x) <==> Covered(RemoveAt(list, i), r, x) || Within(list[i], r, x)
  {
    hide Within;
    var less := RemoveAt(list, i);
    if j :| 0 <= j < |list| && Within(list[j], r, x) && j != i {
      assert less[if j < i then j else j - 1] == list[j];
    }
    if j :| 0 <= j < |less| && Within(less[j], r, x) {
      assert list[if j < i then j else j + 1] == less[j];
    }
  }

  /** Taking in a segment that the current one touches. */
  lemma Absorb(list: seq<Packet>, cur: Packet, i: nat, cur': Packet, r: u32)
    requires Walking(list, cur, i, r) && i < |list| && Fits(cur', r)
    requires Start(cur, r) <= End(list[i], r) && Start(list[i], r) <= End(cur, r)
    requires Start(cur', r) == if Start(cur, r) < Start(list[i], r) then Start(cur, r) else Start(list[i], r)
    requires End(cur', r) == if End(cur, r) < End(list[i], r) then End(list[i], r) else End(cur, r)
    ensures Walking(RemoveAt(list, i), cur', i, r) && SameCover(list, cur, RemoveAt(list, i), cur', r)
    ensures forall j :: i <= j < |RemoveAt(list, i)| ==> Start(cur', r) < Start(RemoveAt(list, i)[j], r)
  {
    hide Rel, Flatten, Covered;
    forall x
      ensures Covered(RemoveAt(list, i), r, x) || Within(cur', r, x) <==> Covered(list, r, x) || Within(cur, r, x)
    {
      RemoveCover(list, i, r, x);
    }
  }

  lemma InsertCover(list: seq<Packet>, i: nat, cur: Packet, r: u32)
    requires i <= |list|
    ensures forall x :: Covered(list[..i] + [cur] + list[i..], r, x) <==> Covered(list, r, x) || Within(cur, r, x)
  {
    hide Within;
    var more := list[..i] + [cur] + list[i..];
    assert RemoveAt(more, i) == list;
    forall x ensures Covered(more, r, x) <==> Covered(list, r, x) || Within(cur, r, x) {
      RemoveCover(more, i, r, x);
    }
  }

  lemma InsertSorted(list: seq<Packet>, i: nat, cur: Packet, r: u32)
    requires Walking(list, cur, i, r) && (forall j :: i <= j < |list| ==> End(cur, r) < Start(list[j], r))
    ensures Sorted(list[..i] + [cur] + list[i..], r)
  {
    hide Rel, Flatten, Fits;
  }

  /** Replacing a segment that starts where pkt does would run into the next segment. */
  ghost predicate Clobbers(held: seq<Packet>, pkt: Packet, r: u32) {
    exists i, j ::
      && 0 <= i < j < |held| && Start(held[i], r) == Start(pkt, r) && End(held[i], r) < End(pkt, r)
      && Start(held[j], r) <= End(pkt, r)
  }

  /** The list with the segment in the place of one that starts where it does. */
  ghost predicate Replaces(held: seq<Packet>, pkt: Packet, i: nat, held': seq<Packet>, r: u32) {
    i < |held| && Start(held[i], r) == Start(pkt, r) && held' == held[i := pkt]
  }

  ghost predicate Includes(held: seq<Packet>, pkt: Packet, r: u32) {
    exists i :: 0 <= i < |held| && Start(held[i], r) <= Start(pkt, r) && End(pkt, r) <= End(held[i], r)
  }

  /** All that is left of the list lies beyond the start of the segment. */
  ghost predicate AllAhead(list: seq<Packet>, cur: Packet, i: nat, r: u32) {
    forall j :: i <= j < |list| ==> Start(cur, r) < Start(list[j], r)
  }

  /** What the walk knows: nothing has happened yet, or pkt has grown and all that is left lies beyond its start. */
  ghost predicate Progress(held: seq<Packet>, pkt: Packet, list: seq<Packet>, cur: Packet, i: nat, r: u32) {
    || (list == held && cur == pkt)
    || (!Clobbers(held, pkt, r) && !Includes(held, pkt, r) && AllAhead(list, cur, i, r))
  }

  /** A segment that starts elsewhere and is not held yet. */
  lemma NoClobber(held: seq<Packet>, pkt: Packet, i: nat, r: u32)
    requires Walking(held, pkt, i, r)
    requires i < |held| ==>
      || Start(pkt, r) < Start(held[i], r)
      || (Start(held[i], r) < Start(pkt, r) <= End(held[i], r) < End(pkt, r))
    ensures !Clobbers(held, pkt, r) && !Includes(held, pkt, r)
  {
    hide Rel, Flatten;
    if k :| 0 <= k < |held| && Start(held[k], r) <= Start(pkt, r) && End(pkt, r) <= End(held[k], r) {
      assert false;
    }
    if k, j :|
      && 0 <= k < j < |held| && Start(held[k], r) == Start(pkt, r) && End(held[k], r) < End(pkt, r)
      && Start(held[j], r) <= End(pkt, r)
    {
      assert false;
    }
  }

  lemma ReplaceCover(held: seq<Packet>, i: nat, pkt: Packet, r: u32)
    requires i < |held| && Start(held[i], r) == Start(pkt, r) && End(held[i], r) <= End(pkt, r)
    ensures forall x :: Covered(held[i := pkt], r, x) <==> Covered(held, r, x) || Within(pkt, r, x)
  {
    hide Covered, Rel, Flatten;
    assert RemoveAt(held[i := pkt], i) == RemoveAt(held, i);
    forall x ensures Covered(held[i := pkt], r, x) <==> Covered(held, r, x) || Within(pkt, r, x) {
      RemoveCover(held, i, r, x);
      RemoveCover(held[i := pkt], i, r, x);
    }
  }

  lemma ReplaceSorted(held: seq<Packet>, i: nat, pkt: Packet, r: u32)
    requires Sorted(held, r) && Fits(pkt, r) && i < |held| && Start(held[i], r) == Start(pkt, r)
    requires End(held[i], r) < End(pkt, r)
    ensures Sorted(held[i := pkt], r) <==> !Clobbers(held, pkt, r)
  {
    hide Rel, Flatten, Fits;
    var held' := held[i := pkt];
    if k, j :|
      && 0 <= k < j < |held| && Start(held[k], r) == Start(pkt, r) && End(held[k], r) < End(pkt, r)
      && Start(held[j], r) <= End(pkt, r)
    {
      FitsLonger(held, r);
      assert k == i;
      assert held'[i] == pkt && held'[j] == held[j];
    }
  }

  lemma FitsLonger(held: seq<Packet>, r: u32)
    requires Sorted(held, r)
    ensures forall i :: 0 <= i < |held| ==> Start(held[i], r) < End(held[i], r)
  {
  }

  lemma IncludesCover(held: seq<Packet>, pkt: Packet, r: u32)
    requires Includes(held, pkt, r)
    ensures forall x :: Within(pkt, r, x) ==> Covered(held, r, x)
  {
    hide Rel, Flatten;
    var i :| 0 <= i < |held| && Start(held[i], r) <= Start(pkt, r) && End(pkt, r) <= End(held[i], r);
    forall x | Within(pkt, r, x) ensures Covered(held, r, x) {
      assert Within(held[i], r, x);
    }
  }

  lemma NotClobbered(held: seq<Packet>, pkt: Packet, i: nat, r: u32)
    requires Sorted(held, r) && i < |held| && Start(held[i], r) <= Start(pkt, r) && End(pkt, r) <= End(held[i], r)
    requires Fits(pkt, r)
    ensures !Clobbers(held, pkt, r) && Includes(held, pkt, r)
  {
    hide Rel, Flatten;
    FitsLonger(held, r);
    assert Includes(held, pkt, r);
    if k, j :|
      && 0 <= k < j < |held| && Start(held[k], r) == Start(pkt, r) && End(held[k], r) < End(pkt, r)
      && Start(held[j], r) <= End(pkt, r)
    {
      assert false;
    }
  }

  lemma SameCoverTrans(l0: seq<Packet>, c0: Packet, l1: seq<Packet>, c1: Packet, l2: seq<Packet>, c2: Packet, r: u32)
    requires SameCover(l0, c0, l1, c1, r) && SameCover(l1, c1, l2, c2, r)
    ensures SameCover(l0, c0, l2, c2, r)
  {
    hide Covered, Within;
    forall x ensures Covered(l2, r, x) || Within(c2, r, x) <==> Covered(l0, r, x) || Within(c0, r, x) {
      assert Covered(l1, r, x) || Within(c1, r, x) <==> Covered(l0, r, x) || Within(c0, r, x);
    }
  }

  ghost function Merged(held: seq<Packet>, i: nat, cur: Packet): seq<Packet>
    requires i <= |held|
  {
    held[..i] + [cur] + held[i..]
  }

  /** The walk ends where all that is left lies beyond the segment. */
  lemma Placed(held: seq<Packet>, pkt: Packet, list: seq<Packet>, cur: Packet, i: nat, r: u32)
    requires Walking(list, cur, i, r) && SameCover(held, pkt, list, cur, r) && Progress(held, pkt, list, cur, i, r)
    requires i < |list| ==> Start(cur, r) < Start(list[i], r) && End(cur, r) < Start(list[i], r)
    ensures Sorted(Merged(list, i, cur), r) && !Clobbers(held, pkt, r) && !Includes(held, pkt, r)
    ensures forall x :: Covered(Merged(list, i, cur), r, x) <==> Covered(held, r, x) || Within(pkt, r, x)
  {
    hide Rel, Flatten, Covered, Within, Clobbers, Includes;
    if list == held && cur == pkt {
      NoClobber(held, pkt, i, r);
    }
    FitsLonger(list, r);
    InsertSorted(list, i, cur, r);
    InsertCover(list, i, cur, r);
  }

  /** The walk meets a segment that touches the current one, and takes it in. */
  lemma Absorbed(held: seq<Packet>, pkt: Packet, list: seq<Packet>, cur: Packet, i: nat, cur': Packet, r: u32)
    requires Walking(list, cur, i, r) && SameCover(held, pkt, list, cur, r) && Progress(held, pkt, list, cur, i, r)
    requires i < |list| && Fits(cur', r)
    requires Start(cur, r) != Start(list[i], r) && Start(cur, r) <= End(list[i], r) && Start(list[i], r) <= End(cur, r)
    requires Start(list[i], r) < Start(cur, r) ==> End(list[i], r) < End(cur, r)
    requires Start(cur', r) == if Start(cur, r) < Start(list[i], r) then Start(cur, r) else Start(list[i], r)
    requires End(cur', r) == if End(cur, r) < End(list[i], r) then End(list[i], r) else End(cur, r)
    ensures
      var list' := RemoveAt(list, i);
      Walking(list', cur', i, r) && SameCover(held, pkt, list', cur', r) && Progress(held, pkt, list', cur', i, r)
  {
    hide Rel, Flatten, Covered, Within, Clobbers, Includes, SameCover, Sorted, Fits;
    if list == held && cur == pkt {
      NoClobber(held, pkt, i, r);
    }
    Absorb(list, cur, i, cur', r);
    SameCoverTrans(held, pkt, list, cur, RemoveAt(list, i), cur', r);
  }

  /** The walk meets a segment with the same start and a smaller end. */
  lemma Replaced(held: seq<Packet>, pkt: Packet, i: nat, r: u32)
    requires Sorted(held, r) && Fits(pkt, r) && i < |held| && Start(held[i], r) == Start(pkt, r)
    requires End(held[i], r) < End(pkt, r)
    ensures Sorted(held[i := pkt], r) <==> !Clobbers(held, pkt, r)
    ensures !Includes(held, pkt, r)
    ensures forall x :: Covered(held[i := pkt], r, x) <==> Covered(held, r, x) || Within(pkt, r, x)
  {
    hide Rel, Flatten, Covered, Within, Clobbers;
    ReplaceSorted(held, i, pkt, r);
    ReplaceCover(held, i, pkt, r);
    FitsLonger(held, r);
    if k :| 0 <= k < |held| && Start(held[k], r) <= Start(pkt, r) && End(pkt, r) <= End(held[k], r) {
      assert false;
    }
  }

  /** One step of the walk at a segment that neither ends it nor holds the new one already. */
  method TakeIn(cur: Packet, other: Packet, r: u32, ghost stream: seq<byte>, ghost isn: u32) returns (cur': Packet)
    requires Fits(cur, r) && Fits(other, r)
    requires Start(cur, r) != Start(other, r) && Start(cur, r) <= End(other, r) && Start(other, r) <= End(cur, r)
    requires Start(other, r) < Start(cur, r) ==> End(other, r) < End(cur, r)
    ensures Fits(cur', r)
    ensures Start(cur', r) == if Start(cur, r) < Start(other, r) then Start(cur, r) else Start(other, r)
    ensures End(cur', r) == if End(cur, r) < End(other, r) then End(other, r) else End(cur, r)
    ensures Carries(stream, isn, cur.first, Bytes(cur)) && Carries(stream, isn, other.first, Bytes(other)) ==>
      Carries(stream, isn, cur'.first, Bytes(cur'))
  {
    hide Rel, Flatten, Carries, Fits;
    if Start(cur, r) < Start(other, r) {
      if End(cur, r) >= End(other, r) {
        cur' := cur;
      } else {
        cur' := Join(cur, other, r, stream, isn);
      }
    } else {
      cur' := Join(other, cur, r, stream, isn);
    }
  }

  /**
   real_insert_tcp_packet: the bytes of the segment are added to those held, and the list stays
   sorted with gaps exactly if the segment does not replace one and run into the next. A
   segment that adds nothing is refused.
   */
  method InsertPacket(held: seq<Packet>, pkt: Packet, r: u32, ghost stream: seq<byte>, ghost isn: u32)
    returns (inserted: bool, held': seq<Packet>)
    requires Sorted(held, r) && Fits(pkt, r)
    ensures inserted <==> !Includes(held, pkt, r)
    ensures !inserted ==> held' == held
    ensures forall x :: Covered(held', r, x) <==> Covered(held, r, x) || Within(pkt, r, x)
    ensures Sorted(held', r) <==> !Clobbers(held, pkt, r)
    ensures Clobbers(held, pkt, r) ==> exists i :: 0 <= i < |held| && Replaces(held, pkt, i, held', r)
    ensures forall i :: 0 <= i < |held'| ==> Fits(held'[i], r)
    ensures AllCarry(stream, isn, held) && Carries(stream, isn, pkt.first, Bytes(pkt)) ==> AllCarry(stream, isn, held')
  {
    hide Rel, Flatten, Carries, Covered, Within, Fits, Clobbers, Includes, SameCover;
    ghost var good := AllCarry(stream, isn, held) && Carries(stream, isn, pkt.first, Bytes(pkt));
    var list, cur, i := held, pkt, 0;
    SameCoverRefl(held, pkt, r);
    while i < |list| && !(Start(cur, r) < Start(list[i], r) && End(cur, r) < Start(list[i], r))
      invariant Walking(list, cur, i, r) && SameCover(held, pkt, list, cur, r)
      invariant Progress(held, pkt, list, cur, i, r)
      invariant good ==> AllCarry(stream, isn, list) && Carries(stream, isn, cur.first, Bytes(cur))
      decreases |list| - i
    {
      if Start(cur, r) >= Start(list[i], r) && End(cur, r) <= End(list[i], r) {
        NotClobbered(held, pkt, i, r);
        IncludesCover(held, pkt, r);
        return false, held;
      }
      if Start(cur, r) == Start(list[i], r) {
        Replaced(held, pkt, i, r);
        assert Replaces(held, pkt, i, held[i := pkt], r);
        return true, list[i := cur];
      }
      if Start(cur, r) <= End(list[i], r) {
        var cur' := TakeIn(cur, list[i], r, stream, isn);
        Absorbed(held, pkt, list, cur, i, cur', r);
        cur, list := cur', RemoveAt(list, i);
      } else {
        i := i + 1;
      }
    }
    Placed(held, pkt, list, cur, i, r);
    inserted, held' := true, list[..i] + [cur] + list[i..];
  }

  lemma SameCoverRefl(held: seq<Packet>, pkt: Packet, r: u32)
    ensures SameCover(held, pkt, held, pkt, r)
  {
  }
}
