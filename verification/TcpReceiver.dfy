/**
 The receiving side of a TCP connection (insert_tcp_packet in net/tcputil.c, __tcp_read in
 net/tcp.c): segments arrive in any order, and the bytes that follow on are put in the receive
 ring. FIN, urgent data and window updates are not modelled.
 */
module TcpReceiver {
  import opened Blocks
  import opened Chains
  import opened SequenceNumbers
  import opened TcpReassembly

  type u16 = x: nat | x < 0x1_0000

  function Wrap16(x: int): (r: u16)
    ensures 0 <= x < 0x1_0000 ==> r == x
  {
    x % 0x1_0000
  }

  /** A segment the code handles well: not partly received, and replacing nothing that it overlaps beyond. */
  ghost predicate Benign(held: seq<Packet>, pkt: Packet, r: u32) {
    !Straddles(pkt, r) && !Clobbers(held, pkt, r)
  }

  /** skb_copy_data: the buffers of a segment one after the other. */
  method CopyData(bufs: seq<seq<byte>>, ring: seq<byte>) returns (ring': seq<byte>)
    ensures ring' == ring + Flatten(bufs)
  {
    ring' := ring;
    assert bufs[..0] == [];
    for i := 0 to |bufs|
      invariant ring' == ring + Flatten(bufs[..i])
    {
      FlattenPrefix(bufs, i);
      if |bufs[i]| > 0 {
        ring' := ring' + bufs[i];
      }
    }
    assert bufs[..|bufs|] == bufs;
  }

  /** The segment expected next carries the next bytes of the stream. */
  lemma NextBytes(stream: seq<byte>, isn: u32, n: nat, data: seq<byte>)
    requires n <= |stream| < 0x1_0000_0000 && Carries(stream, isn, Wrap(isn + n), data)
    ensures n + |data| <= |stream| && data == stream[n..n + |data|]
  {
    if n + |data| > |stream| {
      OffsetNext(isn, n, |stream| - n);
      assert false;
    }
    forall j | 0 <= j < |data| ensures data[j] == stream[n..n + |data|][j] {
      OffsetNext(isn, n, j);
    }
  }

  lemma OffsetNext(isn: u32, n: nat, j: nat)
    requires n + j < 0x1_0000_0000
    ensures Offset(isn, Wrap(isn + n), j) == n + j
  {
    OffsetLater(isn, isn, n, j);
  }

  lemma RelSelf(r: u32)
    ensures Rel(r, r) == Origin
  {
  }

  ghost predicate Ahead(held: seq<Packet>, r: u32, x: int, k: nat) {
    Covered(held, r, x + k)
  }

  /** Once the first k bytes expected are in, the held segments lie k nearer. */
  lemma HeldMoved(held: seq<Packet>, r: u32, k: nat)
    requires Sorted(held, r) && forall i :: 0 <= i < |held| ==> Start(held[i], r) > Origin + k
    ensures Sorted(held, Wrap(r + k)) && forall i :: 0 <= i < |held| ==> Start(held[i], Wrap(r + k)) > Origin
    ensures forall x :: Covered(held, Wrap(r + k), x) <==> Ahead(held, r, x, k)
  {
    hide Rel, Flatten;
    var r' := Wrap(r + k);
    forall i | 0 <= i < |held|
      ensures Start(held[i], r') == Start(held[i], r) - k && End(held[i], r') == End(held[i], r) - k
    {
      RelMoved(held[i].first, r, k);
    }
    forall x ensures Covered(held, r', x) <==> Ahead(held, r, x, k) {
      if i :| 0 <= i < |held| && Within(held[i], r', x) {
        assert Within(held[i], r, x + k);
      }
      if i :| 0 <= i < |held| && Within(held[i], r, x + k) {
        assert Within(held[i], r', x);
      }
    }
  }

  /** The first segment covers its start, so it starts where an old one or the new one does. */
  lemma HeadStart(held: seq<Packet>, pkt: Packet, held': seq<Packet>, r: u32)
    requires forall x :: Covered(held', r, x) <==> Covered(held, r, x) || Within(pkt, r, x)
    requires forall i :: 0 <= i < |held| ==> Start(held[i], r) > Origin
    requires Start(pkt, r) >= Origin && Sorted(held', r)
    ensures forall i :: 0 <= i < |held'| ==> Start(held'[i], r) >= Origin
  {
    hide Rel, Flatten;
    FitsLonger(held', r);
    forall i | 0 <= i < |held'| ensures Start(held'[i], r) >= Origin {
      assert Within(held'[i], r, Start(held'[i], r));
      assert Covered(held', r, Start(held'[i], r));
    }
  }

  lemma TailSorted(held: seq<Packet>, r: u32)
    requires Sorted(held, r) && held != []
    ensures Sorted(held[1..], r) && forall i :: 0 <= i < |held[1..]| ==> Start(held[1..][i], r) > End(held[0], r)
  {
    hide Rel, Flatten, Fits;
  }

  lemma NothingDue(held: seq<Packet>, r: u32)
    requires Sorted(held, r) && held != [] && Start(held[0], r) > Origin
    ensures forall i :: 0 <= i < |held| ==> Start(held[i], r) > Origin
  {
    hide Rel, Flatten, Fits;
  }

  /** The first segment, when it is due, carries the next bytes, and the rest is not due after it. */
  lemma HeadDue(stream: seq<byte>, isn: u32, n: nat, r: u32, held: seq<Packet>)
    requires n <= |stream| < 0x1_0000_0000 && r == Wrap(isn + n) && held != []
    requires Sorted(held, r) && AllCarry(stream, isn, held) && Start(held[0], r) == Origin
    ensures
      var data := Bytes(held[0]);
      && n + |data| <= |stream| && data == stream[n..n + |data|] && |data| > 0
      && Wrap(r + |data|) == Wrap(isn + (n + |data|))
      && AllCarry(stream, isn, held[1..])
      && Sorted(held[1..], Wrap(r + |data|))
      && (forall i :: 0 <= i < |held[1..]| ==> Start(held[1..][i], Wrap(r + |data|)) > Origin)
      && Sorted(held[1..], r)
      && (forall i :: 0 <= i < |held[1..]| ==> Start(held[1..][i], r) > Origin)
  {
    hide Flatten, Carries, Rel;
    RelSelf(r);
    RelInjective(held[0].first, r, r);
    NextBytes(stream, isn, n, Bytes(held[0]));
    TailSorted(held, r);
    HeldMoved(held[1..], r, |Bytes(held[0])|);
    WrapAdd(isn + n, |Bytes(held[0])|);
  }

  ghost predicate Known(held: seq<Packet>, pkt: Packet, r: u32, x: int) {
    Covered(held, r, x) || Within(pkt, r, x)
  }

  ghost predicate KnownAhead(held: seq<Packet>, pkt: Packet, r: u32, x: int, k: nat) {
    Known(held, pkt, r, x + k)
  }

  /** With pkt, the next n bytes expected are there, and the one after them is not. */
  ghost predicate Run(held: seq<Packet>, pkt: Packet, r: u32, n: nat) {
    (forall x :: Origin <= x < Origin + n ==> Known(held, pkt, r, x)) && !Known(held, pkt, r, Origin + n)
  }

  /** What is held after the next n bytes went out is what is known beyond them. */
  ghost predicate StillHeld(held: seq<Packet>, pkt: Packet, r: u32, held': seq<Packet>, r': u32, n: nat) {
    forall x :: Covered(held', r', x) <==> x >= Origin && KnownAhead(held, pkt, r, x, n)
  }

  /** The list after insertion, as to what is known. */
  ghost predicate Holds(held': seq<Packet>, held: seq<Packet>, pkt: Packet, r: u32) {
    && Sorted(held', r) && (forall i :: 0 <= i < |held'| ==> Start(held'[i], r) >= Origin)
    && (forall x :: Covered(held', r, x) <==> Known(held, pkt, r, x))
  }

  /** The first segment due is exactly the run of bytes at hand. */
  lemma DueRun(held': seq<Packet>, held: seq<Packet>, pkt: Packet, r: u32)
    requires Holds(held', held, pkt, r) && held' != [] && Start(held'[0], r) == Origin
    ensures
      var n := |Bytes(held'[0])|;
      Run(held, pkt, r, n) && StillHeld(held, pkt, r, held'[1..], Wrap(r + n), n)
  {
    hide Rel, Flatten, Known, Wrap, Covered, Sorted, Within;
    var n := |Bytes(held'[0])|;
    forall x ensures Covered(held'[1..], Wrap(r + n), x) <==> x >= Origin && KnownAhead(held, pkt, r, x, n) {
      TailCover(held', r, x);
      assert Covered(held', r, x + n) <==> Known(held, pkt, r, x + n);
    }
    forall x | Origin <= x < Origin + n ensures Known(held, pkt, r, x) {
      HeadCover(held', r, x);
    }
    HeadCover(held', r, Origin + n);
  }

  /** The first segment, due now, and the gap behind it. */
  lemma HeadCover(held: seq<Packet>, r: u32, x: int)
    requires Sorted(held, r) && held != [] && Start(held[0], r) == Origin
    ensures Origin <= x <= Origin + |Bytes(held[0])| ==> (Covered(held, r, x) <==> x < Origin + |Bytes(held[0])|)
  {
    hide Rel, Flatten, Fits;
    if Origin <= x < Origin + |Bytes(held[0])| {
      assert Within(held[0], r, x);
    }
  }

  /** What lies beyond the first segment is held by the rest, as seen from the new place. */
  lemma TailCover(held: seq<Packet>, r: u32, x: int)
    requires Sorted(held, r) && held != [] && Start(held[0], r) == Origin
    ensures
      var n := |Bytes(held[0])|;
      Covered(held[1..], Wrap(r + n), x) <==> x >= Origin && Covered(held, r, x + n)
  {
    hide Rel, Flatten, Wrap, Fits;
    var n := |Bytes(held[0])|;
    TailSorted(held, r);
    HeldMoved(held[1..], r, n);
    assert RemoveAt(held, 0) == held[1..];
    RemoveCover(held, 0, r, x + n);
    assert Covered(held[1..], Wrap(r + n), x) <==> Ahead(held[1..], r, x, n);
  }

  lemma NoRun(held': seq<Packet>, held: seq<Packet>, pkt: Packet, r: u32)
    requires Holds(held', held, pkt, r) && (held' != [] ==> Start(held'[0], r) > Origin)
    ensures Run(held, pkt, r, 0) && StillHeld(held, pkt, r, held', r, 0)
  {
    hide Rel, Flatten, Known;
    if held' != [] {
      NothingDue(held', r);
    }
    assert !Covered(held', r, Origin);
    forall x ensures Covered(held', r, x) <==> x >= Origin && KnownAhead(held, pkt, r, x, 0) {
      assert Covered(held', r, x) <==> Known(held, pkt, r, x);
    }
  }

  /** A segment of at most 65535 bytes whose end has not come round. */
  lemma EndFits(pkt: Packet, r: u32)
    requires pkt.bufs != [] && 0 < |Bytes(pkt)| <= 0xffff
    ensures Wrap(End(pkt, r)) > Origin ==> Fits(pkt, r) && Wrap(End(pkt, r)) == End(pkt, r)
    ensures Wrap(End(pkt, r)) <= Origin && End(pkt, r) < 0x1_0000_0000 ==> End(pkt, r) <= Origin
  {
    hide Rel, Flatten;
  }

  /** A segment received before adds nothing. */
  lemma OldSegment(held: seq<Packet>, pkt: Packet, r: u32)
    requires Sorted(held, r) && End(pkt, r) <= Origin && forall i :: 0 <= i < |held| ==> Start(held[i], r) > Origin
    ensures Run(held, pkt, r, 0) && StillHeld(held, pkt, r, held, r, 0)
  {
    hide Rel, Flatten, Fits;
  }

  /** The list after a benign segment went in. */
  lemma InsertedHolds(held: seq<Packet>, pkt: Packet, held': seq<Packet>, r: u32)
    requires Sorted(held, r) && Fits(pkt, r) && Benign(held, pkt, r) && End(pkt, r) > Origin
    requires forall i :: 0 <= i < |held| ==> Start(held[i], r) > Origin
    requires forall x :: Covered(held', r, x) <==> Covered(held, r, x) || Within(pkt, r, x)
    requires Sorted(held', r) <==> !Clobbers(held, pkt, r)
    ensures Holds(held', held, pkt, r)
  {
    hide Rel, Flatten, Fits, Covered, Within, Clobbers, Sorted;
    HeadStart(held, pkt, held', r);
  }

  lemma InsertedSome(pkt: Packet, held': seq<Packet>, r: u32)
    requires Fits(pkt, r) && forall x :: Within(pkt, r, x) ==> Covered(held', r, x)
    ensures held' != []
  {
    hide Rel, Flatten;
    assert Within(pkt, r, Start(pkt, r));
  }

  /** Part of the segment is received already and part is not. */
  ghost predicate Straddles(pkt: Packet, r: u32) {
    Start(pkt, r) < Origin < End(pkt, r)
  }

  lemma FirstAt(list: seq<Packet>, r: u32, s: int)
    requires Sorted(list, r) && Covered(list, r, s) && forall j :: 0 <= j < |list| ==> Start(list[j], r) >= s
    ensures list != [] && Start(list[0], r) == s
  {
    hide Rel, Flatten, Fits;
    FitsLonger(list, r);
    var i :| 0 <= i < |list| && Within(list[i], r, s);
    assert Start(list[0], r) >= s;
  }

  /** A straddling segment comes first on the list, joined with what it touches. */
  lemma StraddleHead(held: seq<Packet>, pkt: Packet, list: seq<Packet>, r: u32)
    requires Straddles(pkt, r) && Sorted(list, r) && forall i :: 0 <= i < |held| ==> Start(held[i], r) > Origin
    requires forall x :: Covered(list, r, x) <==> Covered(held, r, x) || Within(pkt, r, x)
    ensures list != [] && Start(list[0], r) == Start(pkt, r)
    ensures End(list[0], r) > Origin && Run(held, pkt, r, End(list[0], r) - Origin)
  {
    hide Rel, Flatten, Fits;
    FitsLonger(list, r);
    var s: int := Start(pkt, r);
    assert Within(pkt, r, s) && Covered(list, r, s);
    forall j | 0 <= j < |list| ensures Start(list[j], r) >= s {
      assert Within(list[j], r, Start(list[j], r));
      assert Covered(list, r, Start(list[j], r));
    }
    FirstAt(list, r, s);
    var e: int := End(list[0], r);
    GapBefore(list, r, 0);
    assert !Within(pkt, r, e) && !Covered(held, r, e);
    forall x | Origin <= x < e ensures Known(held, pkt, r, x) {
      assert Within(list[0], r, x);
      assert Covered(list, r, x);
    }
  }

  /** No straddling segment starts where one on the list does. */
  lemma StraddleClobbersNone(held: seq<Packet>, pkt: Packet, r: u32)
    requires Straddles(pkt, r) && forall i :: 0 <= i < |held| ==> Start(held[i], r) > Origin
    ensures !Clobbers(held, pkt, r)
  {
    hide Rel, Flatten;
  }

  /** A segment that starts beyond the origin leaves nothing due. */
  lemma NothingNewDue(held: seq<Packet>, pkt: Packet, list: seq<Packet>, r: u32)
    requires Start(pkt, r) > Origin && forall i :: 0 <= i < |held| ==> Start(held[i], r) > Origin
    requires forall x :: Covered(list, r, x) <==> Covered(held, r, x) || Within(pkt, r, x)
    requires forall i :: 0 <= i < |list| ==> Fits(list[i], r)
    ensures forall i :: 0 <= i < |list| ==> Start(list[i], r) > Origin
  {
    hide Rel, Flatten;
    forall i | 0 <= i < |list| ensures Start(list[i], r) > Origin {
      assert Within(list[i], r, Start(list[i], r));
      assert Covered(list, r, Start(list[i], r));
    }
  }

  /** A clobbering segment starts where a held one does. */
  lemma ClobbersAhead(held: seq<Packet>, pkt: Packet, r: u32)
    requires Clobbers(held, pkt, r) && forall i :: 0 <= i < |held| ==> Start(held[i], r) > Origin
    ensures Start(pkt, r) > Origin
  {
    hide Rel, Flatten;
  }

  /** Where the bytes of a segment that starts d before the next byte expected are in the stream. */
  lemma BehindBytes(stream: seq<byte>, isn: u32, n: nat, r: u32, pkt: Packet)
    requires n <= |stream| < 0x1_0000_0000 - 0x1_0000 && r == Wrap(isn + n) && Bytes(pkt) != []
    requires Carries(stream, isn, pkt.first, Bytes(pkt)) && Start(pkt, r) <= Origin
    ensures
      var d := Origin - Start(pkt, r);
      && d <= n && n - d + |Bytes(pkt)| <= |stream| && Bytes(pkt) == stream[n - d..n - d + |Bytes(pkt)|]
  {
    hide Flatten, Carries, Rel;
    var d := Origin - Start(pkt, r);
    RelSelf(r);
    RelApart(pkt.first, r, r, d);
    Behind(isn, n, r, pkt.first, d);
    assert Offset(isn, pkt.first, 0) < |stream| by {
      FirstCarried(stream, isn, pkt.first, Bytes(pkt));
    }
    NextBytes(stream, isn, n - d, Bytes(pkt));
  }

  lemma FirstCarried(stream: seq<byte>, isn: u32, s: u32, data: seq<byte>)
    requires Carries(stream, isn, s, data) && data != []
    ensures Offset(isn, s, 0) < |stream|
  {
  }

  lemma Behind(isn: u32, n: nat, r: u32, s: u32, d: nat)
    requires n < 0x1_0000_0000 && d <= 0x1_0000 && r == Wrap(isn + n) && r == Wrap(s + d)
    ensures d <= n ==> s == Wrap(isn + (n - d))
    ensures d > n ==> Offset(isn, s, 0) >= 0x1_0000_0000 - 0x1_0000
  {
  }

  /** A straddling segment replaces nothing, adds something, and has m bytes beyond what is in. */
  lemma StraddleFacts(stream: seq<byte>, isn: u32, n: nat, r: u32, held: seq<Packet>, pkt: Packet) returns (m: nat)
    requires n <= |stream| < 0x1_0000_0000 - 0x1_0000 && r == Wrap(isn + n) && Bytes(pkt) != []
    requires Carries(stream, isn, pkt.first, Bytes(pkt)) && forall i :: 0 <= i < |held| ==> Start(held[i], r) > Origin
    ensures Straddles(pkt, r) ==>
      && !Clobbers(held, pkt, r) && !Includes(held, pkt, r)
      && 0 < m && Origin - Start(pkt, r) <= n && n + m <= |stream|
  {
    hide Rel, Flatten, Carries, Wrap, Clobbers;
    m := 0;
    if Straddles(pkt, r) {
      m := End(pkt, r) - Origin;
      StraddleClobbersNone(held, pkt, r);
      BehindBytes(stream, isn, n, r, pkt);
    }
  }

  /** What is due once a straddling segment is on the list. */
  lemma StraddleInserted(stream: seq<byte>, isn: u32, n: nat, r: u32, held: seq<Packet>, pkt: Packet, list: seq<Packet>)
    returns (m: nat)
    requires n <= |stream| < 0x1_0000_0000 - 0x1_0000 && r == Wrap(isn + n) && Straddles(pkt, r)
    requires Sorted(list, r) && AllCarry(stream, isn, list)
    requires forall i :: 0 <= i < |held| ==> Start(held[i], r) > Origin
    requires forall x :: Covered(list, r, x) <==> Covered(held, r, x) || Within(pkt, r, x)
    ensures list != [] && Start(list[0], r) < Origin && 0 < m && Run(held, pkt, r, m)
    ensures
      var d := Origin - Start(pkt, r);
      d <= n && n + m <= |stream| && |Bytes(list[0])| == d + m && Bytes(list[0]) == stream[n - d..n + m]
  {
    hide Rel, Flatten, Carries, Wrap, Covered, Within, Known;
    StraddleHead(held, pkt, list, r);
    m := End(list[0], r) - Origin;
    BehindBytes(stream, isn, n, r, list[0]);
  }

  lemma OldClobbersNone(held: seq<Packet>, pkt: Packet, r: u32)
    requires End(pkt, r) <= Origin && forall i :: 0 <= i < |held| ==> Start(held[i], r) > Origin
    ensures !Clobbers(held, pkt, r)
  {
    hide Rel, Flatten;
  }

  /** What a list tells of the bytes at hand: its first segment, if it is due, is all of them. */
  ghost predicate Yields(list: seq<Packet>, held: seq<Packet>, pkt: Packet, r: u32) {
    if list != [] && Start(list[0], r) == Origin then
      var n := |Bytes(list[0])|;
      Run(held, pkt, r, n) && StillHeld(held, pkt, r, list[1..], Wrap(r + n), n)
    else
      (list != [] ==> Start(list[0], r) > Origin) && Run(held, pkt, r, 0) && StillHeld(held, pkt, r, list, r, 0)
  }

  lemma HoldsYields(list: seq<Packet>, held: seq<Packet>, pkt: Packet, r: u32)
    requires Holds(list, held, pkt, r)
    ensures Yields(list, held, pkt, r)
  {
    hide Rel, Flatten, Fits, Covered, Within, Sorted, Run, StillHeld, Wrap, Known;
    if list != [] && Start(list[0], r) == Origin {
      DueRun(list, held, pkt, r);
    } else {
      NoRun(list, held, pkt, r);
    }
  }

  /** The first segment on the list is due exactly if the new one begins no later than the next byte expected. */
  lemma FirstDue(held: seq<Packet>, pkt: Packet, list: seq<Packet>, r: u32)
    requires Sorted(list, r) && list != [] && End(pkt, r) > Origin
    requires forall i :: 0 <= i < |held| ==> Start(held[i], r) > Origin
    requires forall x :: Covered(list, r, x) <==> Covered(held, r, x) || Within(pkt, r, x)
    ensures Start(list[0], r) <= Origin <==> Start(pkt, r) <= Origin
  {
    hide Rel, Flatten, Fits;
    FitsLonger(list, r);
    if Start(list[0], r) <= Origin {
      assert Within(list[0], r, Start(list[0], r));
      assert Covered(list, r, Start(list[0], r));
    }
    if Start(pkt, r) <= Origin {
      assert Within(pkt, r, Origin);
      var i :| 0 <= i < |list| && Within(list[i], r, Origin);
    }
  }

  lemma FitsSome(p: Packet, r: u32)
    requires Fits(p, r)
    ensures Bytes(p) != []
  {
  }

  /** Of a segment with the next byte expected the end is no later than it seems, and if benign it begins there. */
  lemma NextByte(held: seq<Packet>, pkt: Packet, r: u32)
    requires 0 < |Bytes(pkt)| <= 0xffff
    ensures Within(pkt, r, Origin) <==> Start(pkt, r) <= Origin < End(pkt, r)
    ensures Start(pkt, r) <= Origin ==> Wrap(End(pkt, r)) == End(pkt, r)
    ensures Benign(held, pkt, r) ==> (Within(pkt, r, Origin) <==> Start(pkt, r) == Origin)
  {
    hide Rel, Flatten, Clobbers;
  }

  /** A segment that is held already, or replaces one, begins later. */
  lemma LaterStart(held: seq<Packet>, pkt: Packet, r: u32)
    requires Includes(held, pkt, r) || Clobbers(held, pkt, r)
    requires forall i :: 0 <= i < |held| ==> Start(held[i], r) > Origin
    ensures Start(pkt, r) > Origin
  {
    hide Rel, Flatten;
  }

  /** The list after the insertion, by the kind of segment. */
  lemma InsertedEffect(stream: seq<byte>, isn: u32, n: nat, r: u32, held: seq<Packet>, pkt: Packet, inserted: bool,
                       list: seq<Packet>, bounds: iset<nat>) returns (m: nat)
    requires n <= |stream| < 0x1_0000_0000 - 0x1_0000 && r == Wrap(isn + n)
    requires Sorted(held, r) && Fits(pkt, r) && End(pkt, r) > Origin && Bytes(pkt) != []
    requires Carries(stream, isn, pkt.first, Bytes(pkt)) && AllCarry(stream, isn, list)
    requires forall i :: 0 <= i < |held| ==> Start(held[i], r) > Origin
    requires inserted <==> !Includes(held, pkt, r)
    requires forall x :: Covered(list, r, x) <==> Covered(held, r, x) || Within(pkt, r, x)
    requires Sorted(list, r) <==> !Clobbers(held, pkt, r)
    requires forall i :: 0 <= i < |list| ==> Fits(list[i], r)
    ensures list != [] && Bytes(list[0]) != []
    ensures Benign(held, pkt, r) ==> Holds(list, held, pkt, r) && Yields(list, held, pkt, r)
    ensures Benign(held, pkt, r) && Aligned(bounds, isn, held + [pkt]) ==> Aligned(bounds, isn, list)
    ensures Clobbers(held, pkt, r) ==> !Straddles(pkt, r) && Start(list[0], r) > Origin
    ensures if inserted then Start(list[0], r) <= Origin <==> Start(pkt, r) <= Origin else Start(pkt, r) > Origin
    ensures Straddles(pkt, r) ==>
      var d := Origin - Start(pkt, r);
      && inserted && Start(list[0], r) < Origin && 0 < m && Run(held, pkt, r, m)
      && d <= n && n + m <= |stream| && |Bytes(list[0])| == d + m && Bytes(list[0]) == stream[n - d..n + m]
  {
    hide Rel, Flatten, Fits, Covered, Within, Clobbers, Sorted, Aligned;
    hide Yields, Carries, AllCarry, Run, Includes, Wrap, Known;
    InsertedSome(pkt, list, r);
    FitsSome(list[0], r);
    if Includes(held, pkt, r) || Clobbers(held, pkt, r) {
      LaterStart(held, pkt, r);
    }
    if !Clobbers(held, pkt, r) {
      FirstDue(held, pkt, list, r);
    }
    m := StraddleFacts(stream, isn, n, r, held, pkt);
    if Benign(held, pkt, r) {
      InsertedHolds(held, pkt, list, r);
      HoldsYields(list, held, pkt, r);
      if Aligned(bounds, isn, held + [pkt]) {
        AlignedInsert(bounds, isn, held, pkt, list, r);
      }
    } else if Straddles(pkt, r) {
      m := StraddleInserted(stream, isn, n, r, held, pkt, list);
    } else {
      ClobbersAhead(held, pkt, r);
      NothingNewDue(held, pkt, list, r);
    }
  }

  /**
   The stream's first n bytes, followed by the m that come next with the d before them once more,
   are a prefix of the stream whatever it is, if and only if d is 0.
   */
  lemma PrefixExactly(n: nat, d: nat, m: nat)
    requires d <= n
    ensures
      (forall stream: seq<byte> :: n + m <= |stream| ==> stream[..n] + stream[n - d..n + m] <= stream) <==> d == 0
  {
    if d == 0 {
      forall stream: seq<byte> | n + m <= |stream| ensures stream[..n] + stream[n - d..n + m] <= stream {
        assert stream[..n] + stream[n..n + m] == stream[..n + m];
      }
    } else {
      var stream: seq<byte> := seq(n + m, _ => 0);
      assert |stream[..n] + stream[n - d..n + m]| > |stream|;
    }
  }

  class TcpReceiver {
    const size: nat
    ghost const stream: seq<byte>
    ghost const isn: u32
    var rcvseq: u32
    /** The window announced: an unsigned 16-bit number. */
    var xmtwin: u16
    var ring: seq<byte>
    var held: seq<Packet>
    /** All bytes ever put in the ring. */
    ghost var delivered: seq<byte>

    /** Before delivery, when the segment expected next may be on the list. */
    ghost predicate Consistent()
      reads this
    {
      && |stream| < 0x1_0000_0000 - 0x1_0000
      && delivered <= stream && rcvseq == Wrap(isn + |delivered|)
      && |ring| <= |delivered| && ring == delivered[|delivered| - |ring|..]
      && |ring| <= size <= 0xffff
      && Sorted(held, rcvseq) && AllCarry(stream, isn, held)
      && (forall i :: 0 <= i < |held| ==> Start(held[i], rcvseq) >= Origin)
    }

    ghost predicate Valid()
      reads this
    {
      Consistent() && forall i :: 0 <= i < |held| ==> Start(held[i], rcvseq) > Origin
    }

    /** A connection established, with stream to come. */
    constructor (size: nat, isn: u32, ghost stream: seq<byte>)
      requires |stream| < 0x1_0000_0000 - 0x1_0000 && size <= 0xffff
      ensures Valid() && delivered == [] && held == [] && this.stream == stream && this.isn == isn && rcvseq == isn
      ensures this.size == size && xmtwin == size
    {
      this.size, this.stream, this.isn := size, stream, isn;
      rcvseq, xmtwin, ring, held, delivered := isn, size, [], [], [];
      new;
      hide Rel, Flatten, Offset, Wrap;
      WrapSame(isn);
    }

    /** The end of insert_tcp_packet: the first segment on the list, if it is due. */
    method Deliver(ghost bounds: iset<nat>) returns (ack: bool)
      requires held != []
      modifies `rcvseq, `xmtwin, `ring, `held, `delivered
      ensures old(Consistent()) ==> Valid()
      ensures old(Consistent() && Aligned(bounds, isn, held) && |delivered| in bounds) ==>
        Aligned(bounds, isn, held) && |delivered| in bounds
      ensures
        var head := old(held)[0];
        var due := Start(head, old(rcvseq)) <= Origin;
        var room := |Bytes(head)| <= size - old(|ring|);
        && ack == due
        && held == (if due then old(held)[1..] else old(held))
        && delivered == (if due && room then old(delivered) + Bytes(head) else old(delivered))
        && ring == (if due && room then old(ring) + Bytes(head) else old(ring))
        && rcvseq == (if due && room then Wrap(old(rcvseq) + |Bytes(head)|) else old(rcvseq))
        && xmtwin == (if due then Wrap16(old(xmtwin) - |Bytes(head)|) else old(xmtwin))
    {
      hide Rel, Flatten, Fits, Wrap, AllCarry, Aligned, Wrap16, Sorted, Start;
      var head := held[0];
      ack := Start(head, rcvseq) <= Origin;
      if Consistent() && ack {
        HeadDue(stream, isn, |delivered|, rcvseq, held);
        if Aligned(bounds, isn, held) {
          HeadAligned(bounds, isn, held, |delivered|, rcvseq);
        }
      } else if Consistent() {
        NothingDue(held, rcvseq);
      }
      if ack {
        var len := |Bytes(head)|;
        xmtwin := Wrap16(xmtwin - len);
        held := held[1..];
        if len <= size - |ring| {
          ring := CopyData(head.bufs, ring);
          delivered := delivered + Bytes(head);
          rcvseq := Wrap(rcvseq + len);
        }
      }
    }

    /** The sender keeps to the window: what would go out now fits in the ring. */
    ghost predicate InWindow(pkt: Packet)
      reads this
    {
      && xmtwin + |ring| == size && |Bytes(pkt)| <= xmtwin && End(pkt, rcvseq) < 0x1_0000_0000
      && forall n: nat :: Run(held, pkt, rcvseq, n) ==> n <= xmtwin
    }

    /** The insertion in insert_tcp_packet, by the kind of segment: what then is due, and how much. */
    method Insert(pkt: Packet, ghost bounds: iset<nat>) returns (inserted: bool, ghost m: nat)
      requires Valid() && Fits(pkt, rcvseq) && End(pkt, rcvseq) > Origin && Bytes(pkt) != []
      requires Carries(stream, isn, pkt.first, Bytes(pkt))
      modifies `held
      ensures held != [] && Bytes(held[0]) != []
      ensures !inserted ==> held == old(held) && Valid() && Start(held[0], rcvseq) > Origin
      ensures Benign(old(held), pkt, rcvseq) ==> Consistent() && Yields(held, old(held), pkt, rcvseq)
      ensures Benign(old(held), pkt, rcvseq) && Aligned(bounds, isn, old(held) + [pkt]) ==> Aligned(bounds, isn, held)
      ensures Clobbers(old(held), pkt, rcvseq) ==> !Straddles(pkt, rcvseq) && Start(held[0], rcvseq) > Origin
      ensures
        if inserted then Start(held[0], rcvseq) <= Origin <==> Start(pkt, rcvseq) <= Origin
        else Start(pkt, rcvseq) > Origin
      ensures Straddles(pkt, rcvseq) ==>
        var n, d := |delivered|, Origin - Start(pkt, rcvseq);
        && inserted && Start(held[0], rcvseq) < Origin && 0 < m && Run(old(held), pkt, rcvseq, m)
        && d <= n && n + m <= |stream| && |Bytes(held[0])| == d + m && Bytes(held[0]) == stream[n - d..n + m]
    {
      hide Rel, Flatten, Fits, Wrap, AllCarry, Carries, Clobbers, Sorted, Replaces;
      hide Covered, Within, Run, StillHeld, Known, Aligned, Benign, Straddles, Start, End, Yields;
      var list;
      inserted, list := InsertPacket(held, pkt, rcvseq, stream, isn);
      m := InsertedEffect(stream, isn, |delivered|, rcvseq, held, pkt, inserted, list, bounds);
      held := list;
    }

    /** insert_tcp_packet from the insertion on, for a segment that is new and in the window. */
    method Accept(pkt: Packet, ghost bounds: iset<nat>) returns (ack: bool, ghost m: nat)
      requires Valid() && Fits(pkt, rcvseq) && End(pkt, rcvseq) > Origin && 0 < |Bytes(pkt)| <= xmtwin
      requires Carries(stream, isn, pkt.first, Bytes(pkt))
      modifies `rcvseq, `xmtwin, `ring, `held, `delivered
      ensures ack <==> Start(pkt, old(rcvseq)) <= Origin
      ensures old(Benign(held, pkt, rcvseq)) ==> Valid()
      ensures old(Benign(held, pkt, rcvseq)) ==>
        old(delivered) <= delivered && |ring| - old(|ring|) == |delivered| - old(|delivered|)
      ensures old(Benign(held, pkt, rcvseq) && Aligned(bounds, isn, held + [pkt]) && |delivered| in bounds) ==>
        Aligned(bounds, isn, held) && |delivered| in bounds
      ensures old(Benign(held, pkt, rcvseq) && InWindow(pkt)) ==>
        var n := |delivered| - |old(delivered)|;
        && n >= 0 && Run(old(held), pkt, old(rcvseq), n) && StillHeld(old(held), pkt, old(rcvseq), held, rcvseq, n)
        && xmtwin + |ring| == size && (ack <==> n > 0)
      ensures old(Clobbers(held, pkt, rcvseq)) ==> delivered == old(delivered)
      ensures old(Straddles(pkt, rcvseq)) ==>
        var n, d := |old(delivered)|, Origin - Start(pkt, old(rcvseq));
        && d <= n && n + m <= |stream| && m > 0
        && var whole := |Bytes(pkt)| <= old(xmtwin) && d + m <= size - old(|ring|);
          && delivered == (if whole then old(delivered) + stream[n - d..n + m] else old(delivered))
          && rcvseq == (if whole then Wrap(old(rcvseq) + d + m) else old(rcvseq))
          && (|Bytes(pkt)| <= old(xmtwin) ==> Run(old(held), pkt, old(rcvseq), m))
    {
      hide Rel, Flatten, Fits, Wrap, AllCarry, Carries, Clobbers, Sorted;
      hide Covered, Within, Run, StillHeld, Known, Aligned, Wrap16, Benign, Straddles, Start, End, Consistent, Valid;
      AlignedParts(bounds, isn, held, pkt);
      var inserted;
      inserted, m := Insert(pkt, bounds);
      ack := false;
      if inserted {
        ack := Deliver(bounds);
      }
    }

    /**
     insert_tcp_packet, for a segment of the stream. If it is benign, the ring still gets an exact
     prefix of the stream; and if it is in the window, that prefix has grown by exactly the run
     of bytes now at hand, and all else that was received stays held. A segment whose first d
     bytes are in already goes into the ring whole, if the window and the ring have room for it:
     with the m bytes now at hand, those d go in once more, and rcvseq runs d ahead. The answer,
     on which the reader is woken, is yes exactly if the segment has the next byte expected and is
     no longer than the window.
     */
    method Arrive(pkt: Packet, ghost bounds: iset<nat>) returns (ack: bool, ghost m: nat)
      requires Valid()
      requires pkt.bufs != [] && 0 < |Bytes(pkt)| <= 0xffff && Carries(stream, isn, pkt.first, Bytes(pkt))
      modifies `rcvseq, `xmtwin, `ring, `held, `delivered
      ensures ack <==> Within(pkt, old(rcvseq), Origin) && |Bytes(pkt)| <= old(xmtwin)
      ensures old(Benign(held, pkt, rcvseq)) ==> Valid()
      ensures old(Benign(held, pkt, rcvseq)) ==>
        old(delivered) <= delivered && |ring| - old(|ring|) == |delivered| - old(|delivered|)
      ensures old(Benign(held, pkt, rcvseq) && Aligned(bounds, isn, held + [pkt]) && |delivered| in bounds) ==>
        Aligned(bounds, isn, held) && |delivered| in bounds
      ensures old(Benign(held, pkt, rcvseq) && InWindow(pkt)) ==>
        var n := |delivered| - |old(delivered)|;
        && n >= 0 && Run(old(held), pkt, old(rcvseq), n) && StillHeld(old(held), pkt, old(rcvseq), held, rcvseq, n)
        && xmtwin + |ring| == size && (ack <==> n > 0)
      ensures old(Clobbers(held, pkt, rcvseq)) ==> delivered == old(delivered)
      ensures old(Straddles(pkt, rcvseq)) ==>
        var n, d := |old(delivered)|, Origin - Start(pkt, old(rcvseq));
        && d <= n && n + m <= |stream| && m > 0
        && var whole := |Bytes(pkt)| <= old(xmtwin) && d + m <= size - old(|ring|);
          && delivered == (if whole then old(delivered) + stream[n - d..n + m] else old(delivered))
          && rcvseq == (if whole then Wrap(old(rcvseq) + d + m) else old(rcvseq))
          && (|Bytes(pkt)| <= old(xmtwin) ==> Run(old(held), pkt, old(rcvseq), m))
    {
      hide Rel, Flatten, Fits, Wrap, AllCarry, Carries, Clobbers, Sorted;
      hide Covered, Within, Run, StillHeld, Known, Aligned, Wrap16;
      EndFits(pkt, rcvseq);
      NextByte(held, pkt, rcvseq);
      AlignedParts(bounds, isn, held, pkt);
      m := StraddleFacts(stream, isn, |delivered|, rcvseq, held, pkt);
      ack := false;
      var len := |Bytes(pkt)|;
      if Wrap(End(pkt, rcvseq)) <= Origin {
        if End(pkt, rcvseq) <= Origin {
          OldSegment(held, pkt, rcvseq);
          OldClobbersNone(held, pkt, rcvseq);
        }
      } else if xmtwin >= len {
        ack, m := Accept(pkt, bounds);
      }
    }

    /** __tcp_read: the application takes bytes from the front of the ring, in the order of the stream. */
    method Read(count: nat) returns (data: seq<byte>)
      requires Valid()
      modifies `xmtwin, `ring
      ensures Valid() && |data| == (if count < old(|ring|) then count else old(|ring|))
      ensures old(ring) == data + ring && xmtwin == Wrap16(old(xmtwin) + |data|)
      ensures
        var taken := |delivered| - old(|ring|);
        data == stream[taken..taken + |data|]
    {
      hide AllCarry, Sorted, Start, Wrap;
      var n := if count < |ring| then count else |ring|;
      ghost var taken := |delivered| - |ring|;
      assert delivered == stream[..|delivered|];
      assert ring[..n] == stream[taken..taken + n];
      data := ring[..n];
      ring := ring[n..];
      xmtwin := Wrap16(xmtwin + n);
    }

    /** Every arrival of a fixed segmentation is benign, so any order and any duplicates will do. */
    method ArriveFixed(pkt: Packet, ghost bounds: iset<nat>) returns (ack: bool)
      requires Valid() && Aligned(bounds, isn, held) && |delivered| in bounds
      requires Segment(stream, isn, bounds, pkt)
      modifies `rcvseq, `xmtwin, `ring, `held, `delivered
      ensures Valid() && old(delivered) <= delivered && Aligned(bounds, isn, held) && |delivered| in bounds
      ensures old(InWindow(pkt)) ==>
        var n := |delivered| - |old(delivered)|;
        && Run(old(held), pkt, old(rcvseq), n) && StillHeld(old(held), pkt, old(rcvseq), held, rcvseq, n)
        && xmtwin + |ring| == size && (ack <==> n > 0)
      ensures ack <==> Start(pkt, old(rcvseq)) == Origin && |Bytes(pkt)| <= old(xmtwin)
      ensures |ring| - old(|ring|) == |delivered| - old(|delivered|)
    {
      hide Rel, Flatten, Fits, Wrap, AllCarry, Carries, Clobbers, Sorted;
      hide Covered, Within, Run, StillHeld, Known, Benign;
      SegmentBenign(bounds, isn, held, |delivered|, rcvseq, pkt);
      NextByte(held, pkt, rcvseq);
      ghost var m;
      ack, m := Arrive(pkt, bounds);
    }
  }

  /** One piece of a fixed segmentation of the stream, whose pieces end at bounds. */
  ghost predicate Segment(stream: seq<byte>, isn: u32, bounds: iset<nat>, pkt: Packet) {
    && pkt.bufs != [] && 0 < |Bytes(pkt)| <= 0xffff && Carries(stream, isn, pkt.first, Bytes(pkt))
    && Offset(isn, pkt.first, 0) in bounds && Offset(isn, pkt.first, |Bytes(pkt)|) in bounds
    && forall j :: 0 < j < |Bytes(pkt)| ==> Offset(isn, pkt.first, j) !in bounds
  }

  ghost predicate Aligned(bounds: iset<nat>, isn: u32, held: seq<Packet>) {
    forall i :: 0 <= i < |held| ==>
      Offset(isn, held[i].first, 0) in bounds && Offset(isn, held[i].first, |Bytes(held[i])|) in bounds
  }

  /** Places the same distance from two sequence numbers are the same in the stream. */
  lemma OffsetAt(isn: u32, s: u32, t: u32, r: u32, j: nat, k: nat)
    requires Rel(s, r) + j == Rel(t, r) + k
    ensures Offset(isn, s, j) == Offset(isn, t, k)
  {
    if Rel(s, r) <= Rel(t, r) {
      SameEnd(s, t, r, j, k);
    } else {
      SameEnd(t, s, r, k, j);
    }
    OffsetLater(isn, s, j, 0);
    OffsetLater(isn, t, k, 0);
  }

  lemma SegmentBenign(bounds: iset<nat>, isn: u32, held: seq<Packet>, n: nat, r: u32, pkt: Packet)
    requires Aligned(bounds, isn, held) && Sorted(held, r) && n in bounds && n < 0x1_0000_0000 && r == Wrap(isn + n)
    requires forall j :: 0 < j < |Bytes(pkt)| ==> Offset(isn, pkt.first, j) !in bounds
    ensures Benign(held, pkt, r)
  {
    hide Rel, Flatten, Wrap, Offset;
    if Start(pkt, r) < Origin < End(pkt, r) {
      RelSelf(r);
      OffsetAt(isn, pkt.first, r, r, Origin - Start(pkt, r), 0);
      OffsetNext(isn, n, 0);
      assert false;
    }
    if i, j :|
      && 0 <= i < j < |held| && Start(held[i], r) == Start(pkt, r) && End(held[i], r) < End(pkt, r)
      && Start(held[j], r) <= End(pkt, r)
    {
      OffsetAt(isn, pkt.first, held[i].first, r, |Bytes(held[i])|, |Bytes(held[i])|);
      assert false;
    }
  }

  lemma AlignedParts(bounds: iset<nat>, isn: u32, held: seq<Packet>, pkt: Packet)
    ensures Aligned(bounds, isn, held + [pkt]) ==> Aligned(bounds, isn, held)
  {
    hide Offset;
    var more := held + [pkt];
    if Aligned(bounds, isn, more) {
      forall i | 0 <= i < |held|
        ensures Offset(isn, held[i].first, 0) in bounds && Offset(isn, held[i].first, |Bytes(held[i])|) in bounds
      {
        assert more[i] == held[i];
      }
    }
  }

  lemma HeadAligned(bounds: iset<nat>, isn: u32, held: seq<Packet>, n: nat, r: u32)
    requires Aligned(bounds, isn, held) && held != [] && r == Wrap(isn + n) && Start(held[0], r) == Origin
    requires n + |Bytes(held[0])| < 0x1_0000_0000
    ensures Aligned(bounds, isn, held[1..]) && n + |Bytes(held[0])| in bounds
  {
    hide Offset, Wrap, Rel;
    RelSelf(r);
    RelInjective(held[0].first, r, r);
    OffsetNext(isn, n, |Bytes(held[0])|);
  }

  /** A place where a held segment starts is one where an old or the new segment does; likewise for ends. */
  lemma EdgesFromOld(held: seq<Packet>, list: seq<Packet>, r: u32, i: nat) returns (s: nat, e: nat)
    requires Sorted(list, r) && i < |list| && forall x :: Covered(list, r, x) <==> Covered(held, r, x)
    ensures s < |held| && e < |held| && Start(held[s], r) == Start(list[i], r) && End(held[e], r) == End(list[i], r)
  {
    hide Rel, Flatten, Fits;
    FitsLonger(list, r);
    var x: int, y: int := Start(list[i], r), End(list[i], r) - 1;
    assert Within(list[i], r, x) && Within(list[i], r, y);
    assert Covered(list, r, x) && Covered(list, r, y);
    s :| 0 <= s < |held| && Within(held[s], r, x);
    e :| 0 <= e < |held| && Within(held[e], r, y);
    GapBefore(list, r, i);
    assert !Covered(held, r, x - 1) && !Covered(held, r, y + 1);
    assert !Within(held[s], r, x - 1) && !Within(held[e], r, y + 1);
  }

  lemma GapBefore(list: seq<Packet>, r: u32, i: nat)
    requires Sorted(list, r) && i < |list|
    ensures !Covered(list, r, Start(list[i], r) - 1) && !Covered(list, r, End(list[i], r))
  {
    hide Rel, Flatten, Fits;
    FitsLonger(list, r);
  }

  lemma AlignedInsert(bounds: iset<nat>, isn: u32, held: seq<Packet>, pkt: Packet, list: seq<Packet>, r: u32)
    requires Aligned(bounds, isn, held + [pkt]) && Sorted(list, r)
    requires forall x :: Covered(list, r, x) <==> Covered(held, r, x) || Within(pkt, r, x)
    ensures Aligned(bounds, isn, list)
  {
    hide Rel, Flatten, Offset, Sorted, Covered;
    var more := held + [pkt];
    forall x ensures Covered(list, r, x) <==> Covered(more, r, x) {
      assert RemoveAt(more, |held|) == held;
      RemoveCover(more, |held|, r, x);
    }
    forall i | 0 <= i < |list|
      ensures Offset(isn, list[i].first, 0) in bounds && Offset(isn, list[i].first, |Bytes(list[i])|) in bounds
    {
      var s, e := EdgesFromOld(more, list, r, i);
      OffsetAt(isn, list[i].first, more[s].first, r, 0, 0);
      OffsetAt(isn, list[i].first, more[e].first, r, |Bytes(list[i])|, |Bytes(more[e])|);
    }
  }

  datatype Event = Arrival(pkt: Packet) | Reading(count: nat)

  /**
   Any interleaving of reads with arrivals of a fixed segmentation, in any order and with any
   duplicates: what the application has read, followed by what waits in the ring, is a prefix
   of the stream.
   */
  method Session(tcp: TcpReceiver, events: seq<Event>, ghost bounds: iset<nat>) returns (got: seq<byte>)
    requires tcp.Valid() && tcp.ring == tcp.delivered && Aligned(bounds, tcp.isn, tcp.held) && |tcp.delivered| in bounds
    requires forall i :: 0 <= i < |events| && events[i].Arrival? ==> Segment(tcp.stream, tcp.isn, bounds, events[i].pkt)
    modifies tcp
    ensures tcp.Valid() && got + tcp.ring == tcp.delivered <= tcp.stream
  {
    hide Segment, Aligned, AllCarry, Sorted, Rel, Wrap, Flatten, Run, StillHeld;
    got := [];
    for i := 0 to |events|
      invariant tcp.Valid() && got + tcp.ring == tcp.delivered
      invariant Aligned(bounds, tcp.isn, tcp.held) && |tcp.delivered| in bounds
    {
      match events[i]
      case Arrival(pkt) =>
        ghost var ring, delivered := tcp.ring, tcp.delivered;
        var ack := tcp.ArriveFixed(pkt, bounds);
        SuffixGrows(got, ring, delivered, tcp.ring, tcp.delivered);
      case Reading(count) =>
        var data := tcp.Read(count);
        got := got + data;
    }
  }

  lemma SuffixGrows(got: seq<byte>, ring: seq<byte>, delivered: seq<byte>, ring': seq<byte>, delivered': seq<byte>)
    requires got + ring == delivered <= delivered'
    requires |ring'| - |ring| == |delivered'| - |delivered| && ring' == delivered'[|delivered'| - |ring'|..]
    ensures got + ring' == delivered'
  {
    assert delivered'[..|got|] == delivered[..|got|] == got;
  }
}
