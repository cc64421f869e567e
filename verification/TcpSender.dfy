/**
 The sending side of a TCP connection from the end of the handshake on: tcp_write, tcp_close,
 tcp_shutdown and the acknowledgement part of reasm_tcpskb (net/tcp.c), delay_timer_callback and
 rexmit_timer_callback (net/tcputil.c). Timers are the caller's choice of method; urgent data and
 resets are not modelled.
 */
module TcpSender {
  import opened Blocks
  import opened Sequences
  import opened SequenceNumbers

  /** What goes out: the bytes numbered first, first + 1, and so on, or a FIN. */
  datatype Segment = Segment(first: u32, data: seq<byte>, fin: bool)

  /** The states from TCP_ESTABLISHED on; Closed is after free_all_resource. */
  datatype State = Established | CloseWait | LastAck | FinWait1 | FinWait2 | Closing | TimeWait | Closed

  predicate Writable(st: State) {
    st == Established || st == CloseWait
  }

  /** The states in which acknowledged bytes leave the ring. */
  predicate Drops(st: State) {
    st == Established || st == FinWait1 || st == FinWait2
  }

  /** The states in which the delay timer runs. */
  predicate Timed(st: State) {
    st != TimeWait && st != Closed
  }

  /** rcvfin_switch_state. */
  function FinReceived(st: State): State {
    if st == Established then CloseWait
    else if st == FinWait1 then Closing
    else if st == FinWait2 then TimeWait
    else st
  }

  /** xmtfin_switch_state. */
  function FinSent(st: State): State {
    if st == Established then FinWait1 else if st == CloseWait then LastAck else st
  }

  /** The change of state by a segment that acknowledges something or not; gone says that the user has closed. */
  ghost predicate AckMoves(st: State, taken: bool, fin: bool, gone: bool, st': State) {
    st' == match st
      case LastAck => if taken then Closed else LastAck
      case Closing => if taken then TimeWait else Closing
      case FinWait1 => if !taken then FinWait1 else if gone && !fin then TimeWait else FinWait2
      case FinWait2 => if gone && !fin then TimeWait else FinWait2
      case _ => st
  }

  /** Bytes numbered from stream position from on that are those some positions before it. */
  ghost predicate Shifted(stream: seq<byte>, isn: u32, from: nat, shift: nat, s: Segment) {
    && shift <= from && from - shift + |s.data| <= |stream|
    && s.data == stream[from - shift..from - shift + |s.data|] && s.first == Wrap(isn + from)
  }

  /** The bytes of the stream from position from on, under their sequence numbers. */
  ghost predicate Labelled(stream: seq<byte>, isn: u32, from: nat, s: Segment) {
    Shifted(stream, isn, from, 0, s)
  }

  /**
   Segments that carry the stream on from position from, their numbers ahead of their bytes by a
   fixed amount: each as long as the stream, the segment size and the window of win bytes from
   position acked allow, and each but the first with more than a full segment left to send. A FIN
   comes alone, after the last byte.
   */
  ghost predicate Sends(stream: seq<byte>, isn: u32, acked: nat, shift: nat, from: nat, to: nat, segs: seq<Segment>,
      mss: nat, win: nat) {
    if segs == [] then from == to
    else
      var s := segs[|segs| - 1];
      && from + |s.data| <= to && Shifted(stream, isn, to - |s.data|, shift, s)
      && (s.data != [] ==> Fills(stream, acked, shift, from, to - |s.data|, |s.data|, mss, win))
      && (s.fin ==> s.data == [] && from == to == |stream| + shift)
      && Sends(stream, isn, acked, shift, from, to - |s.data|, segs[..|segs| - 1], mss, win)
  }

  /** A segment of len bytes at place at is as long as it can be, and not the short rest behind other segments. */
  ghost predicate Fills(stream: seq<byte>, acked: nat, shift: nat, from: nat, at: nat, len: nat, mss: nat, win: nat) {
    var left, room := |stream| + shift - at, acked + win - at;
    && len <= left && len <= mss && len <= room && (len == left || len == mss || len == room)
    && (at > from ==> left > mss)
  }

  lemma SendsMore(stream: seq<byte>, isn: u32, acked: nat, shift: nat, from: nat, to: nat, segs: seq<Segment>, mss: nat,
      win: nat, s: Segment)
    requires Sends(stream, isn, acked, shift, from, to, segs, mss, win) && from <= to
    requires Shifted(stream, isn, to, shift, s)
    requires s.data != [] ==> Fills(stream, acked, shift, from, to, |s.data|, mss, win)
    requires s.fin ==> s.data == [] && from == to == |stream| + shift
    ensures Sends(stream, isn, acked, shift, from, to + |s.data|, segs + [s], mss, win)
  {
    var more := segs + [s];
    assert more[|more| - 1] == s && more[..|more| - 1] == segs;
  }

  lemma SendsNone(stream: seq<byte>, isn: u32, acked: nat, shift: nat, from: nat, mss: nat, win: nat)
    ensures Sends(stream, isn, acked, shift, from, from, [], mss, win)
  {
  }

  /** Two places less than 2^32 apart are that far apart in sequence numbers. */
  lemma Distance(isn: u32, from: nat, to: nat)
    requires from <= to < from + 0x1_0000_0000
    ensures Wrap(Wrap(isn + to) - Wrap(isn + from)) == to - from
  {
    var t: int := Wrap(isn + to);
    WrapSub(t, isn + from);
    var d: int := -(isn + from);
    WrapAdd(isn + to, d);
    WrapSame(to - from);
  }

  /** compare_seq finds s beyond t exactly if it is at most 65536 ahead. */
  lemma BeyondExactly(s: u32, t: u32)
    ensures CompareSeq(s, t) > 0 <==> 0 < Wrap(s - t) <= 0x1_0000
  {
    WrapBehind(s - t);
  }

  lemma WrapBehind(x: int)
    ensures Wrap(0x1_0000 - x) < 0x1_0000 <==> 0 < Wrap(x) <= 0x1_0000
  {
  }

  /**
   Places relative to xmtseq, for an acknowledgement k beyond xmtack with u bytes on their way; a
   stands for xmtack.
   */
  lemma AckPlaces(a: int, u: nat, ackSeq: u32)
    requires u <= 0x2000
    ensures
      var k := Wrap(ackSeq - Wrap(a));
      && ackSeq == Wrap(a + k)
      && (0 < k <= 0x1_0000 ==> (0 < Wrap(ackSeq - Wrap(a + u)) <= 0x1_0000 <==> k > u))
      && (ackSeq == Wrap(Wrap(a + u) + 1) <==> k == u + 1)
  {
    hide Wrap;
    var x: int := ackSeq;
    var k := Wrap(x - Wrap(a));
    WrapSub(x, a);
    WrapAdd(x - a, a);
    WrapSame(x);
    assert Wrap(a + k) == x;
    WrapSub(x, a + u);
    var v: int := u;
    var d := -v;
    WrapAdd(x - a, d);
    assert x - (a + u) == x - a + d;
    assert Wrap(x - Wrap(a + u)) == Wrap(k + d);
    NearSign(k, u);
    WrapAdd(a + u, 1);
    SameWrap(a, k, u + 1);
  }

  lemma NearSign(k: nat, u: nat)
    requires u <= 0x2000
    ensures 0 < k <= 0x1_0000 ==> (0 < Wrap(k - u) <= 0x1_0000 <==> k > u)
  {
  }

  lemma SameWrap(x: int, k: nat, l: nat)
    requires k < 0x1_0000_0000 && l < 0x1_0000_0000
    ensures Wrap(x + k) == Wrap(x + l) <==> k == l
  {
  }

  /** The FIN has been sent exactly in the states that allow no writing, and nothing is unsent then. */
  ghost predicate InPhase(st: State, xmtfin: nat, u: int, count: nat) {
    && xmtfin <= 3 && (xmtfin >= 2 <==> !Writable(st)) && (xmtfin == 3 ==> u == 0)
    && (xmtfin >= 2 && Timed(st) ==> u == count)
  }

  lemma AckKeepsPhase(st: State, ackSeq: u32, xmtack: u32, u: int, xmtfin: nat, taken: bool, tooLarge: bool, len: int,
                      xmtfin': nat, count: nat, fin: bool, gone: bool, st': State)
    requires AckEffect(ackSeq, xmtack, u, xmtfin, taken, tooLarge, len, xmtfin')
    requires if tooLarge then st' == st else AckMoves(st, taken, fin, gone, st')
    requires InPhase(st, xmtfin, u, count) && 0 <= u <= count
    ensures InPhase(st', xmtfin', u - len, if Drops(st) then count - len else count)
  {
    hide Wrap;
  }

  /** What an acknowledgement does when u bytes are on their way. */
  ghost predicate AckEffect(ackSeq: u32, xmtack: u32, u: int, xmtfin: nat, taken: bool, tooLarge: bool, len: int,
      xmtfin': nat) {
    var k := Wrap(ackSeq - xmtack);
    && (taken <==> 0 < k <= u || (xmtfin > 0 && k == u + 1))
    && (tooLarge <==> !taken && 0 < k <= 0x1_0000)
    && len == (if !taken then 0 else if k == u + 1 then u else k)
    && xmtfin' == (if taken && k == u + 1 && xmtfin == 2 then 3 else xmtfin)
  }

  lemma AckBounds(ackSeq: u32, xmtack: u32, u: int, xmtfin: nat, taken: bool, tooLarge: bool, len: int, xmtfin': nat)
    requires AckEffect(ackSeq, xmtack, u, xmtfin, taken, tooLarge, len, xmtfin') && u >= 0
    ensures 0 <= len <= u && (!taken || tooLarge ==> len == 0) && (xmtfin' >= 2 <==> xmtfin >= 2)
    ensures !(taken && tooLarge)
    ensures xmtfin' == xmtfin || xmtfin' == 3
  {
  }

  datatype Control = Control(state: State, rcvfin: nat, xmtfin: nat)

  /** The control state after n segments of one run of the delay timer: the peer's FIN counts first, then ours. */
  ghost predicate Switched(c: Control, n: nat, c': Control) {
    && (c'.xmtfin == c.xmtfin || (n > 0 && c.xmtfin == 1 && c'.xmtfin == 2))
    && (n == 0 || c.rcvfin != 1 ==> c'.rcvfin == c.rcvfin)
    && (n > 0 && c.rcvfin == 1 ==> c'.rcvfin == if FinReceived(c.state) == TimeWait then 1 else 2)
    && var st := if n > 0 && c.rcvfin == 1 then FinReceived(c.state) else c.state;
      c'.state == if c'.xmtfin == c.xmtfin then st else FinSent(st)
  }

  lemma SwitchedNone(c: Control)
    ensures Switched(c, 0, c)
  {
  }

  /** The changes of state of one run of the delay timer: sent says that something was sent, fin that our FIN was. */
  ghost predicate TimerMoves(c: Control, sent: bool, fin: bool, c': Control) {
    var peer := sent && c.rcvfin == 1;
    && c'.xmtfin == (if fin then 2 else c.xmtfin)
    && c'.rcvfin == (if peer && c.state != FinWait2 then 2 else c.rcvfin)
    && c'.state == match c.state
      case Established => if peer then (if fin then LastAck else CloseWait) else if fin then FinWait1 else Established
      case CloseWait => if fin then LastAck else CloseWait
      case FinWait1 => if peer then Closing else FinWait1
      case FinWait2 => if peer then TimeWait else FinWait2
      case _ => c.state
  }

  lemma SwitchedMoves(c: Control, n: nat, c': Control)
    requires Switched(c, n, c') && (c.xmtfin == 1 ==> Writable(c.state)) && Timed(c.state)
    ensures TimerMoves(c, n > 0, c'.xmtfin != c.xmtfin, c')
  {
  }

  /** The control state after one segment, with our FIN in it or not. */
  ghost predicate SwitchedOnce(c: Control, fin: bool, c': Control) {
    && c'.xmtfin == (if fin then 2 else c.xmtfin)
    && var switched := if c.rcvfin == 1 then FinReceived(c.state) else c.state;
      && c'.state == (if fin then FinSent(switched) else switched)
      && c'.rcvfin == if c.rcvfin == 1 && c'.state != TimeWait then 2 else c.rcvfin
  }

  lemma SwitchedMore(c: Control, n: nat, c1: Control, fin: bool, c2: Control)
    requires Switched(c, n, c1) && c1.state != TimeWait && (fin ==> c1.xmtfin == 1) && SwitchedOnce(c1, fin, c2)
    ensures Switched(c, n + 1, c2)
  {
  }

  /** The first segment that the delay timer sends when u bytes are on their way. */
  ghost function FirstNew(ring: seq<byte>, u: nat, xmtseq: u32, mss: nat, win: nat): Segment
    requires u < |ring| && u < win
  {
    Segment(xmtseq, ring[u..u + Min(Min(|ring| - u, mss), win - u)], false)
  }

  ghost predicate StartsNew(ring: seq<byte>, u: nat, xmtseq: u32, mss: nat, win: nat, segs: seq<Segment>) {
    u < |ring| && u < win ==> segs != [] && segs[0] == FirstNew(ring, u, xmtseq, mss, win)
  }

  /** The data that may go out in one segment when u bytes are on their way. */
  function NewLength(count: nat, u: nat, mss: nat, win: nat): (len: nat)
    requires u <= count && mss > 0
    ensures u + len <= count && len <= mss && (win > u ==> u + len <= win)
    ensures len == 0 <==> u == count
  {
    var len := Min(count - u, mss);
    if win > u then Min(len, win - u) else len
  }

  lemma NewLengthIs(count: nat, u: nat, mss: nat, win: nat)
    requires u <= count && mss > 0
    ensures NewLength(count, u, mss, win) == 0 <==> u == count
  {
  }

  lemma FillsNew(stream: seq<byte>, acked: nat, shift: nat, from: nat, at: nat, count: nat, len: nat, mss: nat,
      win: nat)
    requires acked <= at <= acked + count == |stream| + shift && mss > 0
    requires len == NewLength(count, at - acked, mss, win)
    requires len > 0 ==> at - acked < win && (at > from ==> acked + count - at > mss)
    ensures len > 0 ==> Fills(stream, acked, shift, from, at, len, mss, win)
  {
  }

  lemma StartsWith(ring: seq<byte>, u: nat, xmtseq: u32, mss: nat, win: nat, len: nat, s: Segment)
    requires u <= |ring| && mss > 0 && len == NewLength(|ring|, u, mss, win)
    requires s == Segment(xmtseq, ring[u..u + len], s.fin) && (s.fin ==> len == 0)
    ensures StartsNew(ring, u, xmtseq, mss, win, if len > 0 || s.fin then [s] else [])
  {
  }

  lemma StartsNothing(ring: seq<byte>, u: nat, xmtseq: u32, mss: nat, win: nat)
    requires u >= |ring| || u >= win
    ensures StartsNew(ring, u, xmtseq, mss, win, [])
  {
  }

  /** The segments that matter: a bare acknowledgement is not one. */
  function Added(segs: seq<Segment>, s: Segment): seq<Segment> {
    if s.data != [] || s.fin then segs + [s] else segs
  }

  lemma PassAdds(stream: seq<byte>, isn: u32, acked: nat, shift: nat, from: nat, to: nat, segs: seq<Segment>, mss: nat,
      win: nat, s: Segment, ring: seq<byte>, u: nat, xmtseq: u32, first: bool)
    requires Sends(stream, isn, acked, shift, from, to, segs, mss, win) && from <= to
    requires Shifted(stream, isn, to, shift, s)
    requires s.data != [] ==> Fills(stream, acked, shift, from, to, |s.data|, mss, win)
    requires s.fin ==> s.data == [] && from == to == |stream| + shift
    requires u <= |ring| && mss > 0
    requires if first then
        segs == [] && s.first == xmtseq && s.data == ring[u..u + NewLength(|ring|, u, mss, win)]
      else StartsNew(ring, u, xmtseq, mss, win, segs)
    ensures Sends(stream, isn, acked, shift, from, to + |s.data|, Added(segs, s), mss, win)
    ensures StartsNew(ring, u, xmtseq, mss, win, Added(segs, s))
  {
    hide Shifted;
    SendsMore(stream, isn, acked, shift, from, to, segs, mss, win, s);
    if first {
      StartsWith(ring, u, xmtseq, mss, win, NewLength(|ring|, u, mss, win), s);
      assert segs + [s] == [s];
    }
  }

  /** What a run of the delay timer starts from. */
  datatype Timing = Timing(stream: seq<byte>, isn: u32, acked: nat, shift: nat, from: nat, mss: nat, win: nat,
                           ring: seq<byte>, xmtseq: u32, packets: nat, control: Control)

  /** All data has been sent, and the user has closed: the FIN is next. */
  ghost predicate FinNext(t: Timing) {
    t.packets > 0 && t.control.xmtfin == 1 && t.from == t.acked + |t.ring|
  }

  /** There is something to send. */
  ghost predicate Something(t: Timing) {
    if t.from < t.acked + |t.ring| then t.from - t.acked < t.win else t.control.xmtfin == 1 || t.control.rcvfin == 1
  }

  /** The run after n packets, with the stream sent up to place to. */
  ghost predicate Going(t: Timing, to: nat, segs: seq<Segment>, n: nat, c: Control) {
    && t.acked <= t.from <= to <= t.acked + |t.ring| == |t.stream| + t.shift && t.mss > 0 && n <= t.packets
    && Sends(t.stream, t.isn, t.acked, t.shift, t.from, to, segs, t.mss, t.win) && Switched(t.control, n, c)
    && (n == 0 ==> to == t.from && c == t.control && segs == [])
    && (n > 0 ==>
          && t.packets > 0 && Something(t)
          && StartsNew(t.ring, t.from - t.acked, t.xmtseq, t.mss, t.win, segs)
          && if FinNext(t) then c.xmtfin == 2 && segs == [Segment(t.xmtseq, [], true)]
             else c.xmtfin == t.control.xmtfin)
  }

  lemma GoingFirst(t: Timing)
    requires t.acked <= t.from <= t.acked + |t.ring| == |t.stream| + t.shift && t.mss > 0
    ensures Going(t, t.from, [], 0, t.control)
  {
    SendsNone(t.stream, t.isn, t.acked, t.shift, t.from, t.mss, t.win);
    SwitchedNone(t.control);
  }

  /** Before the first packet, the run stops only if there is nothing to send. */
  lemma GoingStops(t: Timing, to: nat, segs: seq<Segment>, n: nat, c: Control)
    requires Going(t, to, segs, n, c)
    requires
      var len := NewLength(|t.ring|, to - t.acked, t.mss, t.win);
      (t.win <= to - t.acked && len > 0) || (len == 0 && c.xmtfin != 1 && c.rcvfin != 1)
    ensures n == 0 ==> !Something(t)
  {
    hide Sends, Switched, StartsNew;
  }

  lemma GoingNext(t: Timing, to: nat, segs: seq<Segment>, n: nat, c: Control, s: Segment, c': Control)
    requires Going(t, to, segs, n, c) && n < t.packets && c.state != TimeWait
    requires n > 0 ==> |t.ring| - (to - t.acked) > t.mss
    requires Shifted(t.stream, t.isn, to, t.shift, s) && SwitchedOnce(c, s.fin, c')
    requires
      var u, len := to - t.acked, NewLength(|t.ring|, to - t.acked, t.mss, t.win);
      && (n == 0 ==> s.first == t.xmtseq) && s.data == t.ring[u..u + len] && (s.fin <==> len == 0 && c.xmtfin == 1)
      && !(t.win <= u && len > 0) && !(len == 0 && !s.fin && c.rcvfin != 1)
    ensures Going(t, to + |s.data|, Added(segs, s), n + 1, c')
  {
    hide Shifted, Sends, StartsNew, Switched, NewLength, Fills;
    var u, len := to - t.acked, NewLength(|t.ring|, to - t.acked, t.mss, t.win);
    NewLengthIs(|t.ring|, u, t.mss, t.win);
    SwitchedMore(t.control, n, c, s.fin, c');
    FillsNew(t.stream, t.acked, t.shift, t.from, to, |t.ring|, len, t.mss, t.win);
    PassAdds(t.stream, t.isn, t.acked, t.shift, t.from, to, segs, t.mss, t.win, s, t.ring, t.from - t.acked, t.xmtseq,
      n == 0);
  }

  lemma GoingDone(t: Timing, to: nat, segs: seq<Segment>, n: nat, c: Control)
    requires Going(t, to, segs, n, c) && (n == 0 ==> t.packets == 0 || !Something(t))
    requires (t.control.xmtfin == 1 ==> Writable(t.control.state)) && Timed(t.control.state)
    ensures t.from <= to && n <= t.packets
    ensures Sends(t.stream, t.isn, t.acked, t.shift, t.from, to, segs, t.mss, t.win)
    ensures t.packets > 0 ==> StartsNew(t.ring, t.from - t.acked, t.xmtseq, t.mss, t.win, segs)
    ensures n > 0 <==> t.packets > 0 && Something(t)
    ensures FinNext(t) ==> segs == [Segment(t.xmtseq, [], true)]
    ensures TimerMoves(t.control, n > 0, FinNext(t), c)
  {
    hide Sends;
    if n == 0 && t.packets > 0 {
      StartsNothing(t.ring, t.from - t.acked, t.xmtseq, t.mss, t.win);
    }
    SwitchedMoves(t.control, n, c);
  }

  class TcpSender {
    const size: nat
    ghost const isn: u32
    /** What was written and has not left. */
    var ring: seq<byte>
    var xmtseq: u32
    var xmtack: u32
    var rcvwin: nat
    var rcvmss: nat
    var state: State
    /** 0: open, 1: FIN to be sent, 2: FIN sent, 3: FIN acknowledged. */
    var xmtfin: nat
    /** 0: none, 1: the peer's FIN has come, 2: and is acknowledged. */
    var rcvfin: nat
    /** The user has closed the socket. */
    var gone: bool
    ghost var stream: seq<byte>
    ghost var acked: nat
    ghost var sent: nat
    /** How many of the acknowledged bytes are still in the ring. */
    ghost var skew: nat

    /** The ring, the counters and the sequence numbers fit the stream. */
    ghost predicate Placed()
      reads `ring, `xmtseq, `xmtack, `rcvmss, `stream, `acked, `sent, `skew
    {
      && acked <= sent <= acked + |ring| == |stream| + skew && skew <= acked && ring == stream[acked - skew..]
      && |ring| <= size <= 0x2000 && rcvmss > 0
      && xmtack == Wrap(isn + acked) && xmtseq == Wrap(isn + sent)
    }

    ghost predicate Phased()
      reads `ring, `acked, `sent, `xmtfin, `state
    {
      InPhase(state, xmtfin, sent - acked, |ring|)
    }

    ghost predicate Valid()
      reads this
    {
      Placed() && Phased()
    }

    lemma RingIs()
      requires Placed()
      ensures acked <= sent <= acked + |ring| == |stream| + skew && skew <= acked && ring == stream[acked - skew..]
      ensures |ring| <= size <= 0x2000 && xmtack == Wrap(isn + acked) && xmtseq == Wrap(isn + sent)
    {
    }

    lemma PlacedRoom()
      requires Placed()
      ensures acked <= sent <= acked + |ring| == |stream| + skew && rcvmss > 0
    {
    }

    lemma PhasedStates()
      requires Phased()
      ensures xmtfin == 1 ==> Writable(state)
    {
    }

    lemma PhasedFin()
      requires Phased()
      ensures xmtfin == 3 ==> acked == sent
    {
    }

    constructor (size: nat, isn: u32, rcvwin: nat, rcvmss: nat)
      requires size <= 0x2000 && rcvmss > 0
      ensures Valid() && stream == [] && skew == acked == sent == 0 && state == Established && rcvfin == 0 && !gone
      ensures this.isn == isn && this.size == size && this.rcvwin == rcvwin && this.rcvmss == rcvmss && xmtfin == 0
    {
      this.size, this.isn, this.rcvwin, this.rcvmss := size, isn, rcvwin, rcvmss;
      ring, xmtseq, xmtack, xmtfin := [], isn, isn, 0;
      state, rcvfin, gone := Established, 0, false;
      stream, acked, sent, skew := [], 0, 0, 0;
      new;
      WrapSame(isn);
    }

    /** One round of tcp_write: as much as the ring takes, in the states that allow it. */
    method Write(data: seq<byte>) returns (n: nat)
      requires Valid() && !gone
      modifies `ring, `stream
      ensures Valid() && n == if Writable(state) then Min(|data|, size - old(|ring|)) else 0
      ensures stream == old(stream) + data[..n]
    {
      n := 0;
      if Writable(state) {
        n := Min(|data|, size - |ring|);
        ring := ring + data[..n];
        stream := stream + data[..n];
      }
    }

    /** tcp_shutdown, or tcp_close, after which the user writes no more: a FIN is to follow the data. */
    method Close(gone: bool)
      requires Valid() && !this.gone
      modifies `xmtfin, `gone
      ensures Valid() && this.gone == gone
      ensures xmtfin == if Writable(state) then 1 else old(xmtfin)
    {
      if Writable(state) {
        xmtfin := 1;
      }
      this.gone := gone;
    }

    /** The number of bytes on their way, as the code computes it. */
    method Unacked() returns (u: nat)
      requires Valid()
      ensures u == sent - acked <= |ring|
    {
      hide Wrap;
      Distance(isn, acked, sent);
      u := Wrap(xmtseq - xmtack);
    }

    /**
     The acknowledgement in a segment. It is taken exactly if it is for bytes on their way, or for
     one number more, the FIN, once the user has closed; one further ahead is refused.
     */
    method TakeAck(ackSeq: u32) returns (taken: bool, tooLarge: bool, len: nat)
      requires Placed() && (xmtfin == 3 ==> acked == sent)
      modifies `xmtack, `xmtfin, `acked, `skew
      ensures Placed() && acked == old(acked) + len && skew == old(skew) + len
      ensures xmtfin == 3 ==> acked == sent
      ensures AckEffect(ackSeq, old(xmtack), sent - old(acked), old(xmtfin), taken, tooLarge, len, xmtfin)
    {
      hide Wrap, CompareSeq;
      BeyondExactly(ackSeq, xmtack);
      BeyondExactly(ackSeq, xmtseq);
      AckPlaces(isn + acked, sent - acked, ackSeq);
      taken, tooLarge, len := CompareSeq(ackSeq, xmtack) > 0, false, 0;
      if taken {
        var ack := ackSeq;
        if xmtfin > 0 && ackSeq == Wrap(xmtseq + 1) {
          ack := Wrap(ackSeq - 1);
          OneBack(isn, sent, ackSeq);
          Distance(isn, acked, sent);
          if xmtfin == 2 {
            xmtfin := 3;
          }
        } else if CompareSeq(ackSeq, xmtseq) > 0 {
          return false, true, 0;
        }
        len := Wrap(ack - xmtack);
        xmtack := ack;
        acked := acked + len;
        skew := skew + len;
      }
    }

    /** The acknowledged bytes leave the ring. */
    method DropAcked(len: nat)
      requires Placed() && len <= skew && sent - acked + len <= |ring|
      modifies `ring, `skew
      ensures Placed() && skew == old(skew) - len && ring == old(ring)[len..]
    {
      hide Wrap;
      ring := ring[len..];
      skew := skew - len;
    }

    /** What reasm_tcpskb does after the acknowledgement, by the state. */
    method Proceed(ack: bool, len: nat, fin: bool, win: nat)
      requires Placed() && len <= skew && sent - acked + len <= |ring| && state != Closed
      modifies `ring, `skew, `rcvwin, `rcvfin, `state
      ensures
        var open := old(state) == Established || old(state) == FinWait1 || old(state) == FinWait2;
        && Placed() && (open <==> Drops(old(state)))
        && skew == (if open then old(skew) - len else old(skew))
        && ring == (if open then old(ring)[len..] else old(ring))
        && rcvfin == (if open && fin then 1 else old(rcvfin)) && rcvwin == (if open then win else old(rcvwin))
      ensures AckMoves(old(state), ack, fin, gone, state)
    {
      hide Placed;
      if Drops(state) {
        if ack && state == FinWait1 {
          state := FinWait2;
        }
        DropAcked(len);
        rcvwin := win;
        if fin {
          rcvfin := 1;
        } else if gone && state == FinWait2 {
          state := TimeWait;
        }
      } else if ack && state == LastAck {
        state := Closed;
      } else if ack && state == Closing {
        state := TimeWait;
      }
    }

    /**
     reasm_tcpskb on a segment that carries an acknowledgement; fin and win are the FIN and the
     window that insert_tcp_packet finds. The acknowledged bytes leave the ring in ESTABLISHED,
     FIN_WAIT_1 and FIN_WAIT_2; in the other states xmtack moves on and the ring stays as it is.
     */
    method Arrive(ackSeq: u32, fin: bool, win: nat) returns (accepted: bool, ghost taken: bool, ghost tooLarge: bool)
      requires Valid() && state != Closed
      modifies `ring, `xmtack, `xmtfin, `rcvfin, `rcvwin, `state, `acked, `skew
      ensures Valid()
      ensures AckEffect(ackSeq, old(xmtack), sent - old(acked), old(xmtfin), taken, tooLarge, acked - old(acked),
        xmtfin)
      ensures old(acked) <= acked <= sent
      ensures
        var open := old(state) == Established || old(state) == FinWait1 || old(state) == FinWait2;
        && skew == (if open then old(skew) else old(skew) + acked - old(acked))
        && rcvfin == (if open && !tooLarge && fin then 1 else old(rcvfin))
        && rcvwin == (if open && !tooLarge then win else old(rcvwin))
      ensures if tooLarge then state == old(state) else AckMoves(old(state), taken, fin, gone, state)
      ensures accepted == (!tooLarge && old(state) != CloseWait && old(state) != TimeWait)
    {
      hide Wrap, AckEffect, Placed, InPhase, AckMoves;
      PlacedRoom();
      PhasedFin();
      var ack, large, len := TakeAck(ackSeq);
      taken, tooLarge := ack, large;
      AckBounds(ackSeq, old(xmtack), sent - old(acked), old(xmtfin), taken, tooLarge, len, xmtfin);
      PlacedRoom();
      accepted := !large && state != CloseWait && state != TimeWait;
      if !large {
        Proceed(ack, len, fin, win);
      }
      AckKeepsPhase(old(state), ackSeq, old(xmtack), sent - old(acked), old(xmtfin), ack, large, len, xmtfin,
        old(|ring|), fin, gone, state);
    }

    /** send_tcp_delay_ack and the update of xmtseq: new data, the FIN or a bare acknowledgement. */
    method SendData(u: nat, len: nat, fin: bool) returns (s: Segment)
      requires Placed() && u == sent - acked && u + len <= |ring|
      modifies `xmtseq, `sent
      ensures Placed() && sent == old(sent) + len && s == Segment(old(xmtseq), ring[u..u + len], fin)
      ensures Shifted(stream, isn, old(sent), skew, s)
    {
      hide Wrap;
      s := Segment(xmtseq, ring[u..u + len], fin);
      WrapAdd(isn + sent, len);
      xmtseq := Wrap(xmtseq + len);
      sent := sent + len;
    }

    /** The changes of state after a segment has gone out. */
    method Switch(fin: bool)
      requires Phased() && Timed(state) && (fin ==> xmtfin == 1 && sent == acked + |ring|)
      modifies `xmtfin, `rcvfin, `state
      ensures Phased() && state != Closed
      ensures SwitchedOnce(Control(old(state), old(rcvfin), old(xmtfin)), fin, Control(state, rcvfin, xmtfin))
    {
      if rcvfin == 1 {
        state := FinReceived(state);
        if state == TimeWait {
          return;
        }
        rcvfin := 2;
      }
      if fin {
        xmtfin := 2;
        state := FinSent(state);
      }
    }

    /** One pass of the delay timer that sends something. */
    method SendNew(u: nat, len: nat, fin: bool) returns (s: Segment)
      requires Valid() && Timed(state) && u == sent - acked && u + len <= |ring|
      requires fin ==> xmtfin == 1 && len == 0 && u == |ring|
      modifies `xmtseq, `sent, `xmtfin, `rcvfin, `state
      ensures Valid() && sent == old(sent) + len && s == Segment(old(xmtseq), ring[u..u + len], fin)
      ensures Shifted(stream, isn, old(sent), skew, s) && state != Closed
      ensures SwitchedOnce(Control(old(state), old(rcvfin), old(xmtfin)), fin, Control(state, rcvfin, xmtfin))
    {
      hide Wrap, Placed, Shifted;
      s := SendData(u, len, fin);
      Switch(fin);
    }

    /**
     delay_timer_callback. The segments carry the bytes that follow what was sent, as the peer's
     window and segment size allow. Their numbers are right if every acknowledged byte has left the
     ring, and else too high by what has not. Unless a packet could not be built, at most a full
     segment stays unsent, or what is beyond the window. If all data has gone out before, the FIN
     goes out when the user has closed, and only then. Something is sent, and so the peer's FIN
     acknowledged, exactly if there is data within the window or, without data, one of the FINs.
     */
    method DelayTimer(packets: nat) returns (segs: seq<Segment>, n: nat, failed: bool)
      requires Valid() && Timed(state)
      modifies `xmtseq, `sent, `xmtfin, `rcvfin, `state
      ensures Valid() && old(sent) <= sent && n <= packets
      ensures Sends(stream, isn, acked, skew, old(sent), sent, segs, rcvmss, rcvwin)
      ensures !failed && Timed(state) ==> acked + |ring| - sent <= rcvmss || sent - acked >= rcvwin
      ensures failed ==> n == packets
      ensures packets > 0 ==> StartsNew(ring, old(sent) - acked, old(xmtseq), rcvmss, rcvwin, segs)
      ensures
        var data := old(sent) < acked + |ring|;
        n > 0 <==> packets > 0 && if data then old(sent) - acked < rcvwin else old(xmtfin) == 1 || old(rcvfin) == 1
      ensures
        var fin := packets > 0 && old(xmtfin) == 1 && old(sent) == acked + |ring|;
        && (fin ==> segs == [Segment(old(xmtseq), [], true)])
        && TimerMoves(Control(old(state), old(rcvfin), old(xmtfin)), n > 0, fin, Control(state, rcvfin, xmtfin))
    {
      hide Wrap, Shifted, Placed, Phased, Sends, Switched, StartsNew, InPhase, Going, TimerMoves;
      PlacedRoom();
      PhasedStates();
      ghost var t := Timing(stream, isn, acked, skew, sent, rcvmss, rcvwin, ring, xmtseq, packets,
                            Control(state, rcvfin, xmtfin));
      GoingFirst(t);
      segs, n, failed := SendAll(packets, t);
      GoingDone(t, sent, segs, n, Control(state, rcvfin, xmtfin));
    }

    /** The loop of delay_timer_callback. */
    method SendAll(packets: nat, ghost t: Timing) returns (segs: seq<Segment>, n: nat, failed: bool)
      requires Valid() && Timed(state)
      requires t == Timing(stream, isn, acked, skew, sent, rcvmss, rcvwin, ring, xmtseq, packets,
                           Control(state, rcvfin, xmtfin))
      requires Going(t, sent, [], 0, t.control)
      modifies `xmtseq, `sent, `xmtfin, `rcvfin, `state
      ensures Valid() && Going(t, sent, segs, n, Control(state, rcvfin, xmtfin))
      ensures !failed && Timed(state) ==> acked + |ring| - sent <= rcvmss || sent - acked >= rcvwin
      ensures (failed ==> n == packets) && (n == 0 ==> packets == 0 || !Something(t))
    {
      hide Wrap, Shifted, Placed, Phased, SwitchedOnce, NewLength, Added, InPhase, Going, Something;
      segs, n, failed := [], 0, false;
      var u := Unacked();
      var again := true;
      while again
        invariant Valid() && Timed(state) && u == sent - acked && n <= packets
        invariant Going(t, sent, segs, n, Control(state, rcvfin, xmtfin))
        invariant (again ==> !failed) && (failed ==> n == packets)
        invariant !again && !failed ==> acked + |ring| - sent <= rcvmss || sent - acked >= rcvwin
        invariant n == 0 ==> xmtseq == old(xmtseq) && sent == old(sent)
        invariant n == 0 && !again ==> packets == 0 || !Something(t)
        invariant n > 0 && again ==> |ring| - u > rcvmss
        decreases |ring| - u, again
      {
        PlacedRoom();
        NewLengthIs(|ring|, u, rcvmss, rcvwin);
        var len := NewLength(|ring|, u, rcvmss, rcvwin);
        var fin := len == 0 && xmtfin == 1;
        if (rcvwin <= u && len > 0) || (len == 0 && !fin && rcvfin != 1) {
          again := false;
          GoingStops(t, sent, segs, n, Control(state, rcvfin, xmtfin));
        } else if n == packets {
          failed, again := true, false;
        } else {
          ghost var to, c := sent, Control(state, rcvfin, xmtfin);
          var s := SendNew(u, len, fin);
          GoingNext(t, to, segs, n, c, s, Control(state, rcvfin, xmtfin));
          n := n + 1;
          segs := Added(segs, s);
          if state == TimeWait {
            return;
          }
          u := u + len;
          again := |ring| - u > rcvmss;
        }
      }
    }

    /**
     rexmit_timer_callback. The data is the oldest in the ring; its number is right exactly if
     everything written has been sent, and else too low by what has not.
     */
    method Rexmit() returns (s: Segment)
      requires Valid()
      ensures s.data == ring[..Min(|ring|, rcvmss)] && (s.fin <==> ring == [] && xmtfin == 2)
      ensures Labelled(stream, isn, |stream| - |ring|, s) <==> Wrap(|stream| - sent) == 0
      ensures skew == 0 ==> (Wrap(|stream| - sent) == 0 <==> sent == |stream|)
      ensures Wrap(s.first + (|stream| - sent)) == Wrap(isn + |stream| - |ring|)
    {
      hide Wrap;
      RexmitLabel(isn + sent, |stream| - sent, |ring|);
      if skew == 0 {
        WrapSame(|stream| - sent);
      }
      s := Segment(Wrap(xmtseq - |ring|), ring[..Min(|ring|, rcvmss)], ring == [] && xmtfin == 2);
    }
  }

  lemma RexmitLabel(a: int, d: int, count: nat)
    ensures Wrap(Wrap(a) - count) == Wrap(a + d - count) <==> Wrap(d) == 0
    ensures Wrap(Wrap(Wrap(a) - count) + d) == Wrap(a + d - count)
  {
    var c: int := count;
    WrapAdd(a, -c);
    WrapShift(a - c, d);
    WrapAdd(a - c, d);
  }

  lemma WrapShift(x: int, d: int)
    ensures Wrap(x) == Wrap(x + d) <==> Wrap(d) == 0
  {
  }

  lemma OneBack(isn: u32, sent: nat, ackSeq: u32)
    requires ackSeq == Wrap(Wrap(isn + sent) + 1)
    ensures Wrap(ackSeq - 1) == Wrap(isn + sent)
  {
  }

  lemma {:induction false} SendsWithin(stream: seq<byte>, isn: u32, acked: nat, from: nat, to: nat, segs: seq<Segment>,
      mss: nat, win: nat)
    requires Sends(stream, isn, acked, 0, from, to, segs, mss, win) && from < to
    ensures to <= |stream|
    decreases |segs|
  {
    hide Wrap;
    var s := segs[|segs| - 1];
    if s.data == [] {
      SendsWithin(stream, isn, acked, from, to, segs[..|segs| - 1], mss, win);
    }
  }

  /**
   A run of the delay timer that sends all that is in the ring gives every byte its own number
   exactly if no acknowledged byte was left in the ring, whatever the bytes are.
   */
  lemma SendsExactly(stream: seq<byte>, isn: u32, acked: nat, shift: nat, from: nat, to: nat, segs: seq<Segment>,
      mss: nat, win: nat)
    requires Sends(stream, isn, acked, shift, from, to, segs, mss, win) && from < to == |stream| + shift
    ensures Sends(stream, isn, acked, 0, from, to, segs, mss, win) <==> shift == 0
  {
    hide Shifted;
    if Sends(stream, isn, acked, 0, from, to, segs, mss, win) {
      SendsWithin(stream, isn, acked, from, to, segs, mss, win);
    }
  }

  datatype Event =
    | Writing(data: seq<byte>)
    | Ending(gone: bool)
    | Timer(packets: nat)
    | Arriving(ackSeq: u32, fin: bool, win: nat)

  /** The peer sends nothing after its FIN. */
  ghost predicate Quiet(events: seq<Event>) {
    forall i, j :: 0 <= i < j < |events| && events[i].Arriving? && events[i].fin ==> !events[j].Arriving?
  }

  /** Of a segment that went out: the place of its first byte, how far its numbers are off, and when it was sent. */
  datatype Note = Note(place: nat, shift: nat, at: nat)

  ghost predicate Carried(stream: seq<byte>, isn: u32, note: Note, s: Segment) {
    Shifted(stream, isn, note.place + note.shift, note.shift, s)
  }

  ghost predicate AllCarried(stream: seq<byte>, isn: u32, segs: seq<Segment>, notes: seq<Note>) {
    |notes| == |segs| && forall i :: 0 <= i < |segs| ==> Carried(stream, isn, notes[i], segs[i])
  }

  /** The number of a segment is that of its first byte. */
  ghost predicate Right(isn: u32, note: Note, s: Segment) {
    s.first == Wrap(isn + note.place)
  }

  lemma RightExactly(stream: seq<byte>, isn: u32, segs: seq<Segment>, notes: seq<Note>)
    requires AllCarried(stream, isn, segs, notes)
    ensures
      (forall i :: 0 <= i < |segs| ==> Right(isn, notes[i], segs[i])) <==>
      (forall i :: 0 <= i < |segs| ==> Wrap(notes[i].shift) == 0)
  {
    hide Wrap;
    forall i | 0 <= i < |segs| ensures Right(isn, notes[i], segs[i]) <==> Wrap(notes[i].shift) == 0 {
      assert Carried(stream, isn, notes[i], segs[i]);
      WrapShift(isn + notes[i].place, notes[i].shift);
    }
  }

  lemma {:induction false} SendsCarried(stream: seq<byte>, isn: u32, acked: nat, shift: nat, from: nat, to: nat,
      segs: seq<Segment>, mss: nat, win: nat, at: nat) returns (notes: seq<Note>)
    requires Sends(stream, isn, acked, shift, from, to, segs, mss, win)
    ensures AllCarried(stream, isn, segs, notes)
    ensures forall i :: 0 <= i < |notes| ==> notes[i].shift == shift && notes[i].at == at
    decreases |segs|
  {
    hide Wrap;
    notes := [];
    if segs != [] {
      var s := segs[|segs| - 1];
      notes := SendsCarried(stream, isn, acked, shift, from, to - |s.data|, segs[..|segs| - 1], mss, win, at);
      assert segs == segs[..|segs| - 1] + [s];
      notes := notes + [Note(to - |s.data| - shift, shift, at)];
    }
  }

  lemma CarriedLater(stream: seq<byte>, stream': seq<byte>, isn: u32, segs: seq<Segment>, notes: seq<Note>)
    requires AllCarried(stream, isn, segs, notes) && stream <= stream'
    ensures AllCarried(stream', isn, segs, notes)
  {
    hide Wrap;
    forall i | 0 <= i < |segs| ensures Carried(stream', isn, notes[i], segs[i]) {
      assert Carried(stream, isn, notes[i], segs[i]);
    }
  }

  lemma CarriedMore(stream: seq<byte>, isn: u32, out: seq<Segment>, notes: seq<Note>, more: seq<Segment>,
      notes': seq<Note>)
    requires AllCarried(stream, isn, out, notes) && AllCarried(stream, isn, more, notes')
    ensures AllCarried(stream, isn, out + more, notes + notes')
  {
    hide Carried;
  }

  /** A point of a run: the control state, and what has been acknowledged and sent. */
  datatype Mark = Mark(control: Control, gone: bool, xmtack: u32, acked: nat, sent: nat)

  ghost function MarkOf(tcp: TcpSender): Mark
    reads tcp
  {
    Mark(Control(tcp.state, tcp.rcvfin, tcp.xmtfin), tcp.gone, tcp.xmtack, tcp.acked, tcp.sent)
  }

  /** What an event of a run leads to. */
  ghost predicate Follows(e: Event, m: Mark, m': Mark) {
    match e
    case Writing(_) => m' == m
    case Ending(gone) =>
      var c := m.control;
      m' == if m.gone then m else m.(gone := gone, control := if Writable(c.state) then c.(xmtfin := 1) else c)
    case Timer(_) =>
      if !Timed(m.control.state) then m' == m
      else
        && m' == m.(control := m'.control, sent := m'.sent) && m.sent <= m'.sent
        && exists sent, fin :: TimerMoves(m.control, sent, fin, m'.control)
    case Arriving(ackSeq, fin, _) =>
      if m.control.state == Closed then m' == m
      else
        var k, u, c := Wrap(ackSeq - m.xmtack), m.sent - m.acked, m.control;
        var taken := 0 < k <= u || (c.xmtfin > 0 && k == u + 1);
        var tooLarge := !taken && 0 < k <= 0x1_0000;
        && m'.sent == m.sent && m'.gone == m.gone
        && AckEffect(ackSeq, m.xmtack, u, c.xmtfin, taken, tooLarge, m'.acked - m.acked, m'.control.xmtfin)
        && (if tooLarge then m'.control.state == c.state else AckMoves(c.state, taken, fin, m.gone, m'.control.state))
        && m'.control.rcvfin == (if !tooLarge && Drops(c.state) && fin then 1 else c.rcvfin)
  }

  lemma AckFollows(e: Event, m: Mark, m': Mark, taken: bool, tooLarge: bool)
    requires e.Arriving? && m.control.state != Closed && m'.sent == m.sent && m'.gone == m.gone
    requires
      var c, c' := m.control, m'.control;
      && AckEffect(e.ackSeq, m.xmtack, m.sent - m.acked, c.xmtfin, taken, tooLarge, m'.acked - m.acked, c'.xmtfin)
      && (if tooLarge then c'.state == c.state else AckMoves(c.state, taken, e.fin, m.gone, c'.state))
      && c'.rcvfin == (if !tooLarge && Drops(c.state) && e.fin then 1 else c.rcvfin)
    ensures Follows(e, m, m')
  {
    hide Wrap, AckMoves;
  }

  lemma TimerFollows(e: Event, m: Mark, m': Mark, sent: bool, fin: bool)
    requires e.Timer? && Timed(m.control.state) && TimerMoves(m.control, sent, fin, m'.control)
    requires m' == m.(control := m'.control, sent := m'.sent) && m.sent <= m'.sent
    ensures Follows(e, m, m')
  {
    hide TimerMoves;
  }

  /** The marks of a run, from before its first event to after its last. */
  ghost predicate Traced(events: seq<Event>, trace: seq<Mark>) {
    |trace| == |events| + 1 && forall i :: 0 <= i < |events| ==> Follows(events[i], trace[i], trace[i + 1])
  }

  /** The bytes acknowledged from one mark to the next if they then stay in the ring. */
  function LeftBy(m: Mark, m': Mark): int {
    if Drops(m.control.state) then 0 else m'.acked - m.acked
  }

  /** The bytes acknowledged in the first n events of a run in states that leave them in the ring. */
  function Left(trace: seq<Mark>, n: nat): int
    requires n < |trace|
  {
    if n == 0 then 0 else Left(trace, n - 1) + LeftBy(trace[n - 1], trace[n])
  }

  lemma {:induction false} LeftLater(trace: seq<Mark>, m: Mark, n: nat)
    requires n < |trace|
    ensures Left(trace + [m], n) == Left(trace, n)
  {
    if n > 0 {
      LeftLater(trace, m, n - 1);
    }
  }

  /** How far off each number is: by what was left in the ring before, with skew left from before the run. */
  ghost predicate Exact(trace: seq<Mark>, notes: seq<Note>, skew: nat) {
    forall i :: 0 <= i < |notes| ==> notes[i].at < |trace| && notes[i].shift == skew + Left(trace, notes[i].at)
  }

  lemma ExactMore(trace: seq<Mark>, m: Mark, notes: seq<Note>, more: seq<Note>, skew: nat, now: nat)
    requires trace != [] && Exact(trace, notes, skew) && now == skew + Left(trace, |trace| - 1)
    requires forall i :: 0 <= i < |more| ==> more[i].shift == now && more[i].at == |trace| - 1
    ensures Exact(trace + [m], notes + more, skew)
    ensures skew + Left(trace + [m], |trace|) == now + LeftBy(trace[|trace| - 1], m)
  {
    forall i | 0 <= i < |notes + more|
      ensures (notes + more)[i].at < |trace|
      ensures (notes + more)[i].shift == skew + Left(trace + [m], (notes + more)[i].at)
    {
      LeftLater(trace, m, (notes + more)[i].at);
    }
    LeftLater(trace, m, |trace| - 1);
  }

  /** No acknowledged byte can be left in the ring any more: none is, and no segment comes in CLOSE_WAIT. */
  ghost predicate Sound(tcp: TcpSender, finSeen: bool)
    reads tcp
  {
    && (tcp.skew == 0 || !Timed(tcp.state))
    && (!finSeen ==> tcp.rcvfin == 0 && (Drops(tcp.state) || !Timed(tcp.state)))
  }

  /**
   Any run of writes, shutdown and close, timer callbacks and arriving segments. The numbers of a
   segment are too high by exactly the number of bytes acknowledged before it in a state that leaves
   them in the ring. So all of them are right if and only if there are none (up to 2^32) whenever a
   segment is sent; and there are none if the peer sends nothing after its FIN.
   */
  method Session(tcp: TcpSender, events: seq<Event>)
    returns (out: seq<Segment>, ghost notes: seq<Note>, ghost trace: seq<Mark>)
    requires tcp.Valid()
    modifies tcp
    ensures tcp.Valid() && old(tcp.stream) <= tcp.stream && AllCarried(tcp.stream, tcp.isn, out, notes)
    ensures Traced(events, trace) && trace[0] == old(MarkOf(tcp)) && trace[|events|] == MarkOf(tcp)
    ensures Exact(trace, notes, old(tcp.skew))
    ensures
      (forall i :: 0 <= i < |out| ==> Right(tcp.isn, notes[i], out[i])) <==>
      (forall i :: 0 <= i < |out| ==> Wrap(notes[i].shift) == 0)
    ensures forall i :: 0 <= i < |notes| ==> old(tcp.skew) <= notes[i].shift <= tcp.skew
    ensures forall i, j :: 0 <= i < j < |notes| ==> notes[i].shift <= notes[j].shift
    ensures old(Sound(tcp, false)) && Quiet(events) ==> forall i :: 0 <= i < |notes| ==> notes[i].shift == 0
  {
    hide Wrap, Carried, Follows, TcpSender.Valid, Left, Exact;
    out, notes, trace := [], [], [MarkOf(tcp)];
    NothingLeft(trace, tcp.skew);
    ghost var finSeen := false;
    for i := 0 to |events|
      invariant tcp.Valid() && old(tcp.stream) <= tcp.stream && AllCarried(tcp.stream, tcp.isn, out, notes)
      invariant |trace| == i + 1 && trace[0] == old(MarkOf(tcp)) && trace[i] == MarkOf(tcp)
      invariant forall j :: 0 <= j < i ==> Follows(events[j], trace[j], trace[j + 1])
      invariant Exact(trace, notes, old(tcp.skew)) && tcp.skew == old(tcp.skew) + Left(trace, i)
      invariant old(tcp.skew) <= tcp.skew
      invariant forall j :: 0 <= j < |notes| ==> old(tcp.skew) <= notes[j].shift <= tcp.skew
      invariant forall j, k :: 0 <= j < k < |notes| ==> notes[j].shift <= notes[k].shift
      invariant finSeen <==> exists j :: 0 <= j < i && events[j].Arriving? && events[j].fin
      invariant old(Sound(tcp, false)) && Quiet(events) ==>
        Sound(tcp, finSeen) && forall j :: 0 <= j < |notes| ==> notes[j].shift == 0
    {
      ghost var skew := tcp.skew;
      var more;
      ghost var notes';
      more, notes' := Step(tcp, events[i], i, finSeen, out, notes);
      ExactMore(trace, MarkOf(tcp), notes, notes', old(tcp.skew), skew);
      trace := trace + [MarkOf(tcp)];
      finSeen := finSeen || (events[i].Arriving? && events[i].fin);
      out := out + more;
      notes := notes + notes';
    }
    RightExactly(tcp.stream, tcp.isn, out, notes);
  }

  lemma NothingLeft(trace: seq<Mark>, skew: nat)
    requires |trace| == 1
    ensures Exact(trace, [], skew) && Left(trace, 0) == 0
  {
  }

  /** One event of a session. */
  method Step(tcp: TcpSender, e: Event, ghost at: nat, ghost finSeen: bool, ghost out: seq<Segment>,
              ghost notes: seq<Note>)
    returns (more: seq<Segment>, ghost notes': seq<Note>)
    requires tcp.Valid() && AllCarried(tcp.stream, tcp.isn, out, notes)
    modifies tcp
    ensures tcp.Valid() && old(tcp.stream) <= tcp.stream && AllCarried(tcp.stream, tcp.isn, out + more, notes + notes')
    ensures Follows(e, old(MarkOf(tcp)), MarkOf(tcp))
    ensures old(tcp.skew) <= tcp.skew == old(tcp.skew) + LeftBy(old(MarkOf(tcp)), MarkOf(tcp))
    ensures forall i :: 0 <= i < |notes'| ==> notes'[i].shift == old(tcp.skew) == tcp.skew && notes'[i].at == at
    ensures old(Sound(tcp, finSeen)) && !(finSeen && e.Arriving?) ==>
      Sound(tcp, finSeen || (e.Arriving? && e.fin)) && forall i :: 0 <= i < |notes'| ==> notes'[i].shift == 0
  {
    hide Wrap, Carried, AckEffect, Sends, Shifted, StartsNew, TcpSender.Placed, InPhase;
    more, notes' := [], [];
    ghost var stream := tcp.stream;
    match e {
      case Writing(data) =>
        if !tcp.gone {
          var n := tcp.Write(data);
        }
      case Ending(gone) =>
        if !tcp.gone {
          tcp.Close(gone);
        }
      case Timer(packets) =>
        if Timed(tcp.state) {
          ghost var sent := tcp.sent;
          var n, failed;
          more, n, failed := tcp.DelayTimer(packets);
          notes' := SendsCarried(tcp.stream, tcp.isn, tcp.acked, tcp.skew, sent, tcp.sent, more, tcp.rcvmss,
            tcp.rcvwin, at);
          TimerFollows(e, old(MarkOf(tcp)), MarkOf(tcp), n > 0,
            packets > 0 && old(tcp.xmtfin) == 1 && sent == tcp.acked + |tcp.ring|);
        }
      case Arriving(ackSeq, fin, win) =>
        if tcp.state != Closed {
          ghost var taken, tooLarge;
          var accepted;
          accepted, taken, tooLarge := tcp.Arrive(ackSeq, fin, win);
          AckFollows(e, old(MarkOf(tcp)), MarkOf(tcp), taken, tooLarge);
        }
    }
    CarriedLater(stream, tcp.stream, tcp.isn, out, notes);
    CarriedMore(tcp.stream, tcp.isn, out, notes, more, notes');
  }

  lemma {:induction false} SendsFirst(stream: seq<byte>, isn: u32, acked: nat, shift: nat, from: nat, to: nat,
      segs: seq<Segment>, mss: nat, win: nat)
    requires Sends(stream, isn, acked, shift, from, to, segs, mss, win) && segs != []
    ensures from + |segs[0].data| <= to
    decreases |segs|
  {
    hide Shifted;
    if |segs| > 1 {
      SendsFirst(stream, isn, acked, shift, from, to - |segs[|segs| - 1].data|, segs[..|segs| - 1], mss, win);
    }
  }

  /** What fits in one segment and the window is sent in one. */
  lemma OneSegment(ring: seq<byte>, u: nat, xmtseq: u32, mss: nat, win: nat, segs: seq<Segment>)
    requires StartsNew(ring, u, xmtseq, mss, win, segs) && u < |ring| <= u + mss && |ring| <= win
    ensures segs != [] && segs[0] == Segment(xmtseq, ring[u..], false)
  {
  }

  lemma OneTaken(xmtack: u32, u: nat, taken: bool, tooLarge: bool, len: int, xmtfin: nat)
    requires AckEffect(Wrap(xmtack + 1), xmtack, u, 0, taken, tooLarge, len, xmtfin) && u > 0
    ensures taken && !tooLarge && len == 1 && xmtfin == 0
  {
  }

  /** A write that the ring takes, and the delay timer: one segment holds all that was not yet sent. */
  method WriteAndSend(tcp: TcpSender, data: seq<byte>) returns (segs: seq<Segment>)
    requires tcp.Valid() && Writable(tcp.state) && !tcp.gone && tcp.xmtfin == 0 && tcp.rcvfin != 1 && data != []
    requires |tcp.ring| + |data| <= tcp.size && |tcp.ring| + |data| <= tcp.rcvmss && |tcp.ring| + |data| <= tcp.rcvwin
    modifies tcp
    ensures tcp.Valid() && tcp.stream == old(tcp.stream) + data && tcp.sent == tcp.acked + |tcp.ring|
    ensures tcp.acked == old(tcp.acked) && tcp.skew == old(tcp.skew) && tcp.state == old(tcp.state) && !tcp.gone
    ensures tcp.rcvmss == old(tcp.rcvmss) && tcp.rcvwin == old(tcp.rcvwin) && tcp.xmtfin == 0
    ensures tcp.rcvfin == old(tcp.rcvfin)
    ensures
      var u := old(tcp.sent) - old(tcp.acked);
      u <= |tcp.ring| && segs != [] && segs[0] == Segment(old(tcp.xmtseq), tcp.ring[u..], false)
  {
    hide Wrap, Sends, StartsNew, TcpSender.Placed, InPhase;
    tcp.RingIs();
    var n := tcp.Write(data);
    assert data[..n] == data;
    tcp.RingIs();
    ghost var u := tcp.sent - tcp.acked;
    var k, failed;
    segs, k, failed := tcp.DelayTimer(1);
    OneSegment(tcp.ring, u, old(tcp.xmtseq), tcp.rcvmss, tcp.rcvwin, segs);
    SendsFirst(tcp.stream, tcp.isn, tcp.acked, tcp.skew, tcp.acked + u, tcp.sent, segs, tcp.rcvmss, tcp.rcvwin);
    tcp.RingIs();
  }

  /** The peer's FIN comes and is acknowledged. */
  method PeerCloses(tcp: TcpSender)
    requires tcp.Valid() && tcp.state == Established && tcp.xmtfin == 0 && tcp.rcvwin > tcp.sent - tcp.acked
    modifies tcp
    ensures tcp.Valid() && tcp.state == CloseWait && tcp.xmtfin == 0 && tcp.rcvfin == 2
    ensures tcp.stream == old(tcp.stream) && tcp.acked == old(tcp.acked) && tcp.skew == old(tcp.skew)
    ensures tcp.gone == old(tcp.gone)
    ensures old(tcp.sent) <= tcp.sent && tcp.rcvmss == old(tcp.rcvmss) && tcp.rcvwin == old(tcp.rcvwin)
  {
    hide Sends, StartsNew, TcpSender.Placed, InPhase;
    ghost var taken, tooLarge;
    var accepted;
    accepted, taken, tooLarge := tcp.Arrive(tcp.xmtack, true, tcp.rcvwin);
    var segs, k, failed := tcp.DelayTimer(1);
  }

  /** One byte on its way is acknowledged in CLOSE_WAIT: it stays in the ring. */
  method LateAck(tcp: TcpSender)
    requires tcp.Valid() && tcp.state == CloseWait && tcp.xmtfin == 0 && tcp.sent > tcp.acked
    modifies tcp
    ensures tcp.Valid() && tcp.state == CloseWait && tcp.xmtfin == 0 && tcp.rcvfin == old(tcp.rcvfin)
    ensures tcp.acked == old(tcp.acked) + 1 && tcp.skew == old(tcp.skew) + 1 && tcp.gone == old(tcp.gone)
    ensures tcp.stream == old(tcp.stream) && tcp.sent == old(tcp.sent)
    ensures tcp.rcvmss == old(tcp.rcvmss) && tcp.rcvwin == old(tcp.rcvwin)
  {
    hide Wrap, AckEffect, TcpSender.Placed, InPhase;
    ghost var taken, tooLarge;
    var accepted;
    accepted, taken, tooLarge := tcp.Arrive(Wrap(tcp.xmtack + 1), false, 1000);
    OneTaken(old(tcp.xmtack), tcp.sent - old(tcp.acked), taken, tooLarge, tcp.acked - old(tcp.acked), tcp.xmtfin);
  }

  /** Two bytes are sent, and the peer closes before it acknowledges the first of them. */
  method SentThenClosed(isn: u32) returns (tcp: TcpSender)
    ensures fresh(tcp) && tcp.Valid() && tcp.stream == [1, 2] && tcp.isn == isn && tcp.size == 0x2000
    ensures tcp.state == CloseWait && tcp.xmtfin == 0 && tcp.rcvfin == 2 && !tcp.gone
    ensures tcp.sent == 2 && tcp.acked == tcp.skew == 1 && tcp.rcvmss == 536 && tcp.rcvwin == 1000
  {
    hide TcpSender.Placed, InPhase, Wrap;
    tcp := new TcpSender(0x2000, isn, 1000, 536);
    tcp.PlacedRoom();
    var segs := WriteAndSend(tcp, [1, 2]);
    assert tcp.stream == [1, 2];
    tcp.PlacedRoom();
    PeerCloses(tcp);
    tcp.PlacedRoom();
    LateAck(tcp);
  }

  /**
   The byte written after that is number isn + 2 of the stream, and the byte that is sent under
   that number is the second one.
   */
  method AcknowledgedInCloseWait(isn: u32) returns (segs: seq<Segment>, tcp: TcpSender)
    ensures fresh(tcp) && tcp.stream == [1, 2, 3] && tcp.isn == isn
    ensures segs != [] && segs[0] == Segment(Wrap(isn + 2), [2, 3], false)
    ensures !Labelled(tcp.stream, isn, 2, segs[0])
  {
    hide TcpSender.Placed, InPhase, Wrap;
    tcp := SentThenClosed(isn);
    tcp.RingIs();
    segs := WriteAndSend(tcp, [3]);
    tcp.RingIs();
  }

  /** One byte is sent and another written before the retransmission: both go out one number too low. */
  method RexmitWithUnsent(isn: u32) returns (s: Segment, tcp: TcpSender)
    ensures fresh(tcp) && tcp.stream == [1, 2] && tcp.isn == isn
    ensures s.data == [1, 2] && s.first == Wrap(isn - 1) && !Labelled(tcp.stream, isn, 0, s)
  {
    hide TcpSender.Placed, InPhase, Wrap, Labelled;
    tcp := new TcpSender(0x2000, isn, 1000, 536);
    tcp.PlacedRoom();
    var segs := WriteAndSend(tcp, [1]);
    assert tcp.stream == [1];
    tcp.PlacedRoom();
    var n := tcp.Write([2]);
    assert [2][..n] == [2];
    tcp.RingIs();
    s := tcp.Rexmit();
    WrapSame(1);
    OneLow(isn, s.first);
  }

  lemma OneLow(isn: u32, first: u32)
    requires Wrap(first + 1) == Wrap(isn)
    ensures first == Wrap(isn - 1)
  {
  }
}
