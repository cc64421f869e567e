/**
 Two runs of the receiving side of a TCP connection that go wrong.
 */
module TcpReceiverRuns {
  import opened Blocks
  import opened Chains
  import opened SequenceNumbers
  import opened TcpReassembly
  import opened TcpReceiver

  /** With nothing held, a segment is known just where it lies. */
  lemma AloneRun(pkt: Packet, r: u32, n: nat)
    requires Start(pkt, r) <= Origin < End(pkt, r)
    ensures Run([], pkt, r, n) <==> n == End(pkt, r) - Origin
  {
    hide Rel, Flatten;
    assert Known([], pkt, r, Origin + (End(pkt, r) - Origin)) <==> false;
    if n != End(pkt, r) - Origin {
      var e: int := End(pkt, r) - Origin;
      assert n < e ==> Known([], pkt, r, Origin + n);
      assert n > e ==> !Known([], pkt, r, Origin + e);
    }
  }

  lemma NothingHeld(held: seq<Packet>, pkt: Packet, r: u32, r': u32, n: nat)
    requires Sorted(held, r') && StillHeld([], pkt, r, held, r', n) && End(pkt, r) <= Origin + n
    ensures held == []
  {
    hide Rel, Flatten;
    if held != [] {
      HeadCovered(held, r');
      assert false;
    }
  }

  lemma HeadCovered(held: seq<Packet>, r: u32)
    requires Sorted(held, r) && held != []
    ensures Covered(held, r, Start(held[0], r))
  {
    hide Rel, Flatten;
    assert Within(held[0], r, Start(held[0], r));
  }

  /** The first two of three bytes arrive, and then the last two: the middle one goes into the ring twice. */
  method SecondTwice(isn: u32) returns (tcp: TcpReceiver)
    ensures fresh(tcp) && tcp.stream == [1, 2, 3] && tcp.isn == isn
    ensures tcp.delivered == [1, 2, 2, 3] && !(tcp.delivered <= tcp.stream)
  {
    hide Rel, Wrap, Sorted, Run, StillHeld, AllCarry, Carries;
    tcp := new TcpReceiver(4096, isn, [1, 2, 3]);
    var p, q := Packet(isn, [[1, 2]]), Packet(Wrap(isn + 1), [[2, 3]]);
    TwoPlaces(isn);
    TwoBytes(tcp.stream, isn, 0, 1, 2);
    TwoBytes(tcp.stream, isn, 1, 2, 3);
    AloneRunAll(p, isn);
    ghost var m;
    var ack;
    ack, m := tcp.Arrive(p, iset{});
    assert tcp.delivered == [1, 2];
    NothingHeld(tcp.held, p, isn, tcp.rcvseq, 2);
    AloneRunAll(q, tcp.rcvseq);
    ack, m := tcp.Arrive(q, iset{});
  }

  lemma AloneRunAll(pkt: Packet, r: u32)
    requires Start(pkt, r) <= Origin < End(pkt, r)
    ensures forall n: nat :: Run([], pkt, r, n) <==> n == End(pkt, r) - Origin
  {
    forall n: nat ensures Run([], pkt, r, n) <==> n == End(pkt, r) - Origin {
      AloneRun(pkt, r, n);
    }
  }

  /** Two bytes of the stream in one buffer. */
  lemma TwoBytes(stream: seq<byte>, isn: u32, n: nat, a: byte, b: byte)
    requires n + 2 <= |stream| < 0x1_0000_0000 && stream[n] == a && stream[n + 1] == b
    ensures
      var p := Packet(Wrap(isn + n), [[a, b]]);
      Bytes(p) == [a, b] && Carries(stream, isn, p.first, Bytes(p))
  {
    hide Offset, Wrap;
    var p := Packet(Wrap(isn + n), [[a, b]]);
    var rest: seq<seq<byte>> := p.bufs[1..];
    assert rest == [] && Flatten(rest) == [];
    assert Bytes(p) == p.bufs[0] + Flatten(rest) == [a, b];
    OffsetNext(isn, n, 0);
    OffsetNext(isn, n, 1);
  }

  /** Where the two segments lie for their receiver. */
  lemma TwoPlaces(isn: u32)
    ensures Wrap(isn) == isn && Rel(isn, isn) == Origin && Rel(Wrap(isn + 1), Wrap(isn + 2)) == Origin - 1
  {
    WrapSame(isn);
    RelSelf(isn);
    WrapAdd(isn + 1, 1);
    RelSelf(Wrap(isn + 2));
    OneBehind(Wrap(isn + 1), Wrap(isn + 2));
  }

  lemma OneBehind(s: u32, r: u32)
    requires r == Wrap(s + 1)
    ensures Rel(s, r) == Origin - 1
  {
  }

  /** A sorted list that covers what another one does has each of its segments. */
  lemma SegmentOf(list: seq<Packet>, other: seq<Packet>, k: nat, r: u32) returns (i: nat)
    requires Sorted(list, r) && Sorted(other, r) && k < |other|
    requires forall x :: Covered(other, r, x) <==> Covered(list, r, x)
    ensures i < |list| && Start(list[i], r) == Start(other[k], r) && End(list[i], r) == End(other[k], r)
  {
    hide Rel, Flatten, Fits;
    var e: nat;
    i, e := EdgesFromOld(list, other, r, k);
    FitsLonger(other, r);
    FitsLonger(list, r);
    GapBefore(other, r, k);
    GapBefore(list, r, i);
    SameEnds(list[i], other[k], r);
  }

  lemma SameEnds(p: Packet, q: Packet, r: u32)
    requires Start(p, r) == Start(q, r) < End(p, r) && Start(q, r) < End(q, r)
    requires !Within(q, r, End(p, r)) && !Within(p, r, End(q, r))
    ensures End(p, r) == End(q, r)
  {
    hide Rel, Flatten;
  }

  /** A list that covers one place has one segment. */
  lemma OnePlace(list: seq<Packet>, p: Packet, r: u32)
    requires Sorted(list, r) && End(p, r) == Start(p, r) + 1 && forall x :: Covered(list, r, x) <==> Within(p, r, x)
    ensures |list| <= 1
  {
    hide Rel, Flatten, Fits;
    FitsLonger(list, r);
    forall i | 0 <= i < |list| ensures Start(list[i], r) == Start(p, r) {
      assert Within(list[i], r, Start(list[i], r));
      assert Covered(list, r, Start(list[i], r));
    }
    if |list| > 1 {
      SecondLater(list, r);
      assert false;
    }
  }

  lemma OneStart(list: seq<Packet>, i: nat, k: nat, r: u32)
    requires Sorted(list, r) && i < |list| && k < |list| && Start(list[i], r) == Start(list[k], r)
    ensures i == k
  {
    hide Rel, Flatten;
    FitsLonger(list, r);
  }

  lemma SecondLater(list: seq<Packet>, r: u32)
    requires Sorted(list, r) && |list| > 1
    ensures Start(list[0], r) < Start(list[1], r)
  {
    hide Rel, Flatten;
  }

  /** Bytes 1, 3, and 1 to 3 beyond the next one expected. */
  lemma ThreePlaces(r: u32)
    ensures
      var a, b, c := Packet(Wrap(r + 1), [[7]]), Packet(Wrap(r + 3), [[9]]), Packet(Wrap(r + 1), [[7, 8, 9]]);
      && Fits(a, r) && Start(a, r) == Origin + 1 && End(a, r) == Origin + 2
      && Fits(b, r) && Start(b, r) == Origin + 3 && End(b, r) == Origin + 4
      && Fits(c, r) && Start(c, r) == Origin + 1 && End(c, r) == Origin + 4
  {
    hide Rel, Wrap;
    RelSelf(r);
    RelLater(r, r, 1);
    RelLater(r, r, 3);
    OneBuffer([7]);
    OneBuffer([9]);
    OneBuffer([7, 8, 9]);
  }

  lemma OneBuffer(data: seq<byte>)
    ensures Flatten([data]) == data
  {
    var rest: seq<seq<byte>> := [data][1..];
    assert rest == [] && Flatten(rest) == [];
    assert Flatten([data]) == [data][0] + Flatten(rest);
  }

  /** Inserting two separate one-byte segments. */
  method InsertTwo(a: Packet, b: Packet, r: u32) returns (list: seq<Packet>, ghost i: nat, ghost j: nat)
    requires Fits(a, r) && Fits(b, r) && End(a, r) == Start(a, r) + 1 && End(a, r) < Start(b, r)
    ensures Sorted(list, r) && i < j < |list|
    ensures Start(list[i], r) == Start(a, r) && End(list[i], r) == End(a, r) && Start(list[j], r) == Start(b, r)
  {
    hide Rel, Flatten, Fits;
    var done;
    done, list := InsertPacket([], a, r, [], 0);
    OnePlace(list, a, r);
    done, list := InsertPacket(list, b, r, [], 0);
    var both := [a, b];
    forall x ensures Covered(both, r, x) <==> Within(a, r, x) || Within(b, r, x) {
      assert Within(a, r, x) ==> Within(both[0], r, x);
      assert Within(b, r, x) ==> Within(both[1], r, x);
    }
    i := SegmentOf(list, both, 0, r);
    j := SegmentOf(list, both, 1, r);
  }

  /**
   Bytes 1 and 3 beyond the next one expected come, and then bytes 1 to 3 in one segment: it takes
   the place of the first, and the list has byte 3 in two segments.
   */
  method ReplacedAndOverlapping(r: u32) returns (held: seq<Packet>, ghost i: nat, ghost j: nat)
    ensures !Sorted(held, r) && i < j < |held|
    ensures Start(held[i], r) == Origin + 1 && End(held[i], r) == Origin + 4 && Start(held[j], r) == Origin + 3
    ensures Within(held[i], r, Origin + 3) && Within(held[j], r, Origin + 3)
  {
    hide Rel, Wrap, Flatten, Fits, Sorted, Covered;
    var a, b, c := Packet(Wrap(r + 1), [[7]]), Packet(Wrap(r + 3), [[9]]), Packet(Wrap(r + 1), [[7, 8, 9]]);
    ThreePlaces(r);
    var list;
    list, i, j := InsertTwo(a, b, r);
    assert Clobbers(list, c, r);
    var done;
    done, held := InsertPacket(list, c, r, [], 0);
    ghost var k :| 0 <= k < |list| && Replaces(list, c, k, held, r);
    OneStart(list, i, k, r);
    FitsLonger(list, r);
  }
}
