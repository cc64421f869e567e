/** The ways a TCP connection ends, on the side modelled in TcpSender, with all data sent before. */
module TcpCloses {
  import opened Blocks
  import opened SequenceNumbers
  import opened TcpSender

  /** The peer acknowledges u bytes on their way and our FIN. */
  lemma AckOfFin(a: int, u: nat, xmtfin: nat, taken: bool, tooLarge: bool, len: int, xmtfin': nat)
    requires u <= 0x2000 && xmtfin >= 2
    requires AckEffect(Wrap(Wrap(a + u) + 1), Wrap(a), u, xmtfin, taken, tooLarge, len, xmtfin')
    ensures taken && !tooLarge && len == u && xmtfin' == if xmtfin == 2 then 3 else xmtfin
  {
    hide Wrap;
    AckPlaces(a, u, Wrap(Wrap(a + u) + 1));
  }

  /** A segment that acknowledges nothing new. */
  lemma AckOfNothing(xmtack: u32, u: nat, xmtfin: nat, taken: bool, tooLarge: bool, len: int, xmtfin': nat)
    requires AckEffect(xmtack, xmtack, u, xmtfin, taken, tooLarge, len, xmtfin')
    ensures !taken && !tooLarge && len == 0 && xmtfin' == xmtfin
  {
    WrapSame(0);
  }

  /** A connection in use, with everything written on its way or acknowledged. */
  ghost predicate AllSent(tcp: TcpSender)
    reads tcp
  {
    tcp.Valid() && tcp.rcvfin == 0 && !tcp.gone && tcp.sent == tcp.acked + |tcp.ring|
  }

  /** The user ends the stream, and the FIN goes out. */
  method Finish(tcp: TcpSender, gone: bool) returns (segs: seq<Segment>)
    requires tcp.Valid() && !tcp.gone && tcp.sent == tcp.acked + |tcp.ring|
    requires tcp.state == Established || tcp.state == CloseWait
    modifies tcp
    ensures tcp.Valid() && tcp.xmtfin == 2 && tcp.gone == gone && tcp.stream == old(tcp.stream)
    ensures tcp.sent == old(tcp.sent) && tcp.acked == old(tcp.acked) && tcp.ring == old(tcp.ring)
    ensures tcp.skew == old(tcp.skew) && tcp.xmtack == old(tcp.xmtack) && tcp.xmtseq == old(tcp.xmtseq)
    ensures segs == [Segment(old(tcp.xmtseq), [], true)]
    ensures old(tcp.rcvfin) != 1 ==>
      tcp.rcvfin == old(tcp.rcvfin) && tcp.state == if old(tcp.state) == CloseWait then LastAck else FinWait1
  {
    hide TcpSender.Placed, InPhase, Wrap, StartsNew;
    tcp.RingIs();
    tcp.Close(gone);
    var n, failed;
    segs, n, failed := tcp.DelayTimer(1);
    NothingToSend(tcp.stream, tcp.isn, tcp.acked, tcp.skew, old(tcp.sent), tcp.sent, segs, tcp.rcvmss, tcp.rcvwin);
    tcp.RingIs();
  }

  /** The peer's FIN comes, in a segment that acknowledges nothing new, and is acknowledged. */
  method PeerFinishes(tcp: TcpSender, ackSeq: u32, win: nat)
    requires tcp.Valid() && tcp.sent == tcp.acked + |tcp.ring| && tcp.rcvfin == 0 && tcp.xmtfin != 1
    requires tcp.state == Established || tcp.state == FinWait1 || tcp.state == FinWait2
    requires ackSeq == tcp.xmtack || (tcp.ring == [] && tcp.xmtfin == 3 && ackSeq == Wrap(tcp.xmtseq + 1))
    modifies tcp
    ensures tcp.Valid() && tcp.xmtfin == old(tcp.xmtfin) && tcp.gone == old(tcp.gone) && tcp.stream == old(tcp.stream)
    ensures tcp.sent == old(tcp.sent) && tcp.acked == old(tcp.acked) && tcp.skew == old(tcp.skew)
    ensures |tcp.ring| == old(|tcp.ring|)
    ensures old(tcp.state) == Established ==> tcp.state == CloseWait && tcp.rcvfin == 2
    ensures old(tcp.state) == FinWait1 && ackSeq == old(tcp.xmtack) ==> tcp.state == Closing && tcp.rcvfin == 2
    ensures old(tcp.state) == FinWait2 ==> tcp.state == TimeWait
  {
    hide TcpSender.Placed, InPhase, Wrap, StartsNew, AckEffect, Sends;
    tcp.RingIs();
    ghost var taken, tooLarge;
    var accepted;
    accepted, taken, tooLarge := tcp.Arrive(ackSeq, true, win);
    if ackSeq == old(tcp.xmtack) {
      AckOfNothing(ackSeq, tcp.sent - old(tcp.acked), old(tcp.xmtfin), taken, tooLarge, tcp.acked - old(tcp.acked),
        tcp.xmtfin);
    } else {
      AckOfFin(tcp.isn + old(tcp.acked), 0, old(tcp.xmtfin), taken, tooLarge, tcp.acked - old(tcp.acked), tcp.xmtfin);
    }
    tcp.RingIs();
    var segs, n, failed := tcp.DelayTimer(1);
    NothingToSend(tcp.stream, tcp.isn, tcp.acked, tcp.skew, old(tcp.sent), tcp.sent, segs, tcp.rcvmss, tcp.rcvwin);
    tcp.RingIs();
  }

  lemma {:induction false} NothingToSend(stream: seq<byte>, isn: u32, acked: nat, shift: nat, from: nat, to: nat,
      segs: seq<Segment>, mss: nat, win: nat)
    requires Sends(stream, isn, acked, shift, from, to, segs, mss, win) && from == |stream| + shift
    ensures from == to
    decreases |segs|
  {
    hide Wrap;
    if segs != [] {
      var s := segs[|segs| - 1];
      NothingToSend(stream, isn, acked, shift, from, to - |s.data|, segs[..|segs| - 1], mss, win);
    }
  }

  /** The peer acknowledges everything, and our FIN. */
  method PeerAcknowledges(tcp: TcpSender, win: nat)
    requires tcp.Valid() && tcp.xmtfin == 2 && tcp.sent == tcp.acked + |tcp.ring|
    requires tcp.state == FinWait1 || tcp.state == Closing || tcp.state == LastAck
    modifies tcp
    ensures tcp.Valid() && tcp.xmtfin == 3 && tcp.gone == old(tcp.gone) && tcp.stream == old(tcp.stream)
    ensures tcp.acked == tcp.sent == old(tcp.sent) && tcp.rcvfin == old(tcp.rcvfin)
    ensures old(tcp.state) == FinWait1 ==>
      tcp.state == (if tcp.gone then TimeWait else FinWait2) && tcp.skew == old(tcp.skew) && tcp.ring == []
    ensures old(tcp.state) == Closing ==> tcp.state == TimeWait
    ensures old(tcp.state) == LastAck ==> tcp.state == Closed
  {
    hide TcpSender.Placed, InPhase, Wrap, AckEffect;
    tcp.RingIs();
    ghost var taken, tooLarge;
    var accepted;
    accepted, taken, tooLarge := tcp.Arrive(Wrap(tcp.xmtseq + 1), false, win);
    AckOfFin(tcp.isn + old(tcp.acked), tcp.sent - old(tcp.acked), 2, taken, tooLarge, tcp.acked - old(tcp.acked),
      tcp.xmtfin);
    tcp.RingIs();
  }

  /** We end the stream, the peer acknowledges that and ends its own; gone says that the user waits for nothing more. */
  method ActiveClose(tcp: TcpSender, gone: bool, win: nat) returns (path: seq<State>)
    requires AllSent(tcp) && tcp.state == Established
    modifies tcp
    ensures tcp.Valid() && tcp.stream == old(tcp.stream) && tcp.acked == tcp.sent == old(tcp.sent) && tcp.ring == []
    ensures path == if gone then [FinWait1, TimeWait] else [FinWait1, FinWait2, TimeWait]
  {
    hide TcpSender.Placed, InPhase, Wrap;
    var segs := Finish(tcp, gone);
    path := [tcp.state];
    PeerAcknowledges(tcp, win);
    path := path + [tcp.state];
    if !gone {
      PeerFinishes(tcp, Wrap(tcp.xmtseq + 1), win);
      path := path + [tcp.state];
    }
  }

  /** The peer ends its stream first, and acknowledges our end. */
  method PassiveClose(tcp: TcpSender, win: nat) returns (path: seq<State>)
    requires AllSent(tcp) && tcp.state == Established && tcp.xmtfin == 0
    modifies tcp
    ensures tcp.Valid() && tcp.stream == old(tcp.stream) && tcp.acked == tcp.sent == old(tcp.sent)
    ensures path == [CloseWait, LastAck, Closed]
  {
    hide TcpSender.Placed, InPhase, Wrap;
    PeerFinishes(tcp, tcp.xmtack, win);
    path := [tcp.state];
    var segs := Finish(tcp, true);
    path := path + [tcp.state];
    PeerAcknowledges(tcp, win);
    path := path + [tcp.state];
  }

  /** Both end their streams at once: the FINs cross. */
  method SimultaneousClose(tcp: TcpSender, gone: bool, win: nat) returns (path: seq<State>)
    requires AllSent(tcp) && tcp.state == Established
    modifies tcp
    ensures tcp.Valid() && tcp.stream == old(tcp.stream) && tcp.acked == tcp.sent == old(tcp.sent)
    ensures path == [FinWait1, Closing, TimeWait]
  {
    hide TcpSender.Placed, InPhase, Wrap;
    var segs := Finish(tcp, gone);
    path := [tcp.state];
    PeerFinishes(tcp, tcp.xmtack, win);
    path := path + [tcp.state];
    PeerAcknowledges(tcp, win);
    path := path + [tcp.state];
  }
}
