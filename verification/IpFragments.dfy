/**
 Fragmentation and reassembly of IP datagrams (net/ip.c). A datagram to send is a chain of
 buffers, the first behind the IP header; a fragment keeps its offset in units of 8 bytes.
 Header checksums and the other header fields are not modelled.
 */
module IpFragments {
  import opened Blocks
  import opened Chains

  const HeadLen: nat := 20

  datatype Fragment = Fragment(off8: nat, more: bool, hdr: nat, data: seq<byte>)

  function Off(f: Fragment): nat {
    f.off8 * 8
  }

  function Payload(frags: seq<Fragment>): seq<byte> {
    if frags == [] then [] else frags[0].data + Payload(frags[1..])
  }

  /** Each offset field says where the data belongs, the first of them at off. */
  ghost predicate Placed(frags: seq<Fragment>, off: nat) {
    frags == [] || (Off(frags[0]) == off && Placed(frags[1..], off + |frags[0].data|))
  }

  /** No fragment is empty or too big for the link, and all but the last announce more. */
  ghost predicate Formed(frags: seq<Fragment>, mtu: nat) {
    forall i :: 0 <= i < |frags| ==>
      && frags[i].data != [] && frags[i].hdr + |frags[i].data| <= mtu
      && (frags[i].more <==> i + 1 < |frags|)
  }

  /** How many bytes split_skb cuts off the end of a buffer with rest bytes left. */
  function PieceLen(mtu: nat, maxlen: nat, rest: nat, last: bool): int {
    var len := if last then mtu - HeadLen - 8 + rest % 8 else mtu - HeadLen;
    if rest - len < maxlen then rest - maxlen else len
  }

  /** The split makes progress, except on a link that takes 28 bytes at a time. */
  lemma PieceLenExactly(mtu: nat, maxlen: nat, rest: nat, last: bool)
    requires mtu >= 28 && (mtu - HeadLen) % 8 == 0 && 0 < maxlen < rest && maxlen <= mtu - HeadLen
    ensures 0 <= PieceLen(mtu, maxlen, rest, last) <= mtu - HeadLen
    ensures PieceLen(mtu, maxlen, rest, last) <= rest - maxlen
    ensures PieceLen(mtu, maxlen, rest, last) == 0 <==> mtu == 28 && last && rest % 8 == 0
  {
  }

  /** What is left after a piece is cut off is a multiple of 8. */
  lemma PieceAligned(mtu: nat, maxlen: nat, rest: nat, last: bool)
    requires mtu > 28 && (mtu - HeadLen) % 8 == 0 && maxlen % 8 == 0 && maxlen < rest && (last || rest % 8 == 0)
    ensures (rest - PieceLen(mtu, maxlen, rest, last)) % 8 == 0
  {
    var len := PieceLen(mtu, maxlen, rest, last);
    if len != rest - maxlen {
      assert rest == rest / 8 * 8 + rest % 8;
      assert mtu - HeadLen == (mtu - HeadLen) / 8 * 8;
    }
  }

  lemma PlacedNext(f: Fragment, frags: seq<Fragment>, off: nat)
    requires f.off8 == off / 8
    ensures Placed([f] + frags, off) <==> Aligned(off) && Placed(frags, off + |f.data|)
  {
    var more := [f] + frags;
    assert more[0] == f && more[1..] == frags;
  }

  lemma PayloadNext(f: Fragment, frags: seq<Fragment>)
    ensures Payload([f] + frags) == f.data + Payload(frags)
  {
    var more := [f] + frags;
    assert more[0] == f && more[1..] == frags;
  }

  lemma FormedNext(f: Fragment, frags: seq<Fragment>, mtu: nat)
    requires Formed(frags, mtu) && f.data != [] && f.hdr + |f.data| <= mtu && (f.more <==> frags != [])
    ensures Formed([f] + frags, mtu)
  {
    var more := [f] + frags;
    forall i | 0 <= i < |more|
      ensures more[i].data != [] && more[i].hdr + |more[i].data| <= mtu && (more[i].more <==> i + 1 < |more|)
    {
      if i > 0 {
        assert more[i] == frags[i - 1];
      }
    }
  }

  lemma {:induction false} PlacedAligned(frags: seq<Fragment>, off: nat)
    requires frags != [] && Placed(frags, off)
    ensures Aligned(off)
  {
    assert off == frags[0].off8 * 8;
  }

  /** One fragment in front of the others, for the bytes before them. */
  method Prepend(frags: seq<Fragment>, off: nat, hdr: nat, data: seq<byte>, mtu: nat) returns (more: seq<Fragment>)
    requires Formed(frags, mtu) && data != [] && hdr + |data| <= mtu
    ensures Formed(more, mtu) && Payload(more) == data + Payload(frags)
    ensures more != [] && more[0].hdr == hdr && more[0].data == data && more == [more[0]] + frags
    ensures Placed(more, off) <==> Aligned(off) && Placed(frags, off + |data|)
  {
    var f := Fragment(off / 8, frags != [], hdr, data);
    PlacedNext(f, frags, off);
    PayloadNext(f, frags);
    FormedNext(f, frags, mtu);
    more := [f] + frags;
  }

  predicate Aligned(n: int) {
    n % 8 == 0
  }

  lemma AlignedSum(a: int, b: int)
    requires Aligned(a)
    ensures Aligned(a + b) <==> Aligned(b)
  {
  }

  /** What the datagram's last fragment has less than a full one, so that the others start at multiples of 8. */
  function Pad(len: nat, last: bool): nat {
    if last then 8 - len % 8 else 0
  }

  /** How many fragments a buffer of len bytes makes: the first of up to maxlen bytes, the others of up to full. */
  function FragmentCount(len: nat, maxlen: nat, full: nat, last: bool): nat
    requires full > 0
  {
    if len <= maxlen then 1 else 1 + (len - maxlen + Pad(len, last) + full - 1) / full
  }

  /** The first k fragments are those of a buffer of len bytes: all full but the second and the datagram's last. */
  ghost predicate CutRight(frags: seq<Fragment>, k: nat, len: nat, maxlen: nat, full: nat, last: bool) {
    && full > 0 && k == FragmentCount(len, maxlen, full, last) && 1 <= k <= |frags|
    && if len <= maxlen then |frags[0].data| == len
       else
         && k >= 2 && |frags[0].data| == maxlen
         && |frags[1].data| == len - maxlen - (k - 2) * full + (if k > 2 then Pad(len, last) else 0)
         && forall i :: 2 <= i < k ==> |frags[i].data| == if last && i == k - 1 then full - 8 + len % 8 else full
  }

  /** Of a buffer of len bytes, rest are left when c fragments have been cut off its end, in front of the tail. */
  ghost predicate Cutting(frags: seq<Fragment>, tail: seq<Fragment>, c: nat, len: nat, rest: nat, maxlen: nat,
      full: nat, last: bool) {
    && c <= |frags| && frags[c..] == tail && rest <= len && (c == 0 ==> rest == len)
    && (c > 0 ==>
          var x := len - rest + Pad(len, last);
          && maxlen <= rest && maxlen < len && (c - 1) * full < x <= c * full && (rest > maxlen ==> x == c * full)
          && |frags[0].data| == (if c == 1 then len - rest else x - (c - 1) * full)
          && forall i :: 1 <= i < c ==> |frags[i].data| == if last && i == c - 1 then full - 8 + len % 8 else full)
  }

  lemma CuttingNext(frags: seq<Fragment>, tail: seq<Fragment>, c: nat, len: nat, rest: nat, maxlen: nat, full: nat,
      last: bool, f: Fragment)
    requires Cutting(frags, tail, c, len, rest, maxlen, full, last) && maxlen < rest && full >= 8
    requires last <==> tail == []
    requires
      var want := if frags == [] then full - 8 + rest % 8 else full;
      0 < |f.data| <= want && |f.data| <= rest - maxlen && (|f.data| == rest - maxlen || |f.data| == want)
    ensures Cutting([f] + frags, tail, c + 1, len, rest - |f.data|, maxlen, full, last)
  {
    var frags', rest' := [f] + frags, rest - |f.data|;
    assert frags'[c + 1..] == frags[c..] && (c == 0 ==> frags[0..] == frags);
    assert (c + 1 - 1) * full == c * full && (c + 1) * full == c * full + full;
    forall i | 1 <= i < c + 1
      ensures |frags'[i].data| == if last && i == c then full - 8 + len % 8 else full
    {
      assert frags'[i] == frags[i - 1];
      if i == 1 && c > 1 {
        assert c * full == (c - 1) * full + full;
      }
    }
  }

  lemma CuttingDone(frags: seq<Fragment>, tail: seq<Fragment>, c: nat, len: nat, rest: nat, maxlen: nat, full: nat,
      last: bool, f: Fragment)
    requires Cutting(frags, tail, c, len, rest, maxlen, full, last) && rest <= maxlen && full >= 8 && |f.data| == rest
    ensures
      var k := FragmentCount(len, maxlen, full, last);
      CutRight([f] + frags, k, len, maxlen, full, last) && ([f] + frags)[k..] == tail
  {
    var frags' := [f] + frags;
    assert frags'[c + 1..] == frags[c..];
    if c > 0 {
      RoundedUp(len - maxlen + Pad(len, last), c, full);
      assert frags'[1] == frags[0];
      forall i | 2 <= i < c + 1
        ensures |frags'[i].data| == if last && i == c then full - 8 + len % 8 else full
      {
        assert frags'[i] == frags[i - 1];
      }
    }
  }

  lemma RoundedUp(x: nat, c: nat, full: nat)
    requires full > 0 && c > 0 && (c - 1) * full < x <= c * full
    ensures (x + full - 1) / full == c
  {
    var y := x + full - 1;
    Quotient(y, full);
    assert (c - 1) * full == c * full - full;
    OneQuotient(y / full, y % full, c, y - c * full, full);
  }

  lemma Quotient(y: nat, full: nat)
    requires full > 0
    ensures y == y / full * full + y % full && 0 <= y % full < full && 0 <= y / full
  {
  }

  lemma OneQuotient(q: nat, r: nat, c: nat, s: nat, full: nat)
    requires r < full && s < full && q * full + r == c * full + s
    ensures q == c
  {
    if q < c {
      Multiple(q + 1, c, full);
      assert false;
    } else if c < q {
      Multiple(c + 1, q, full);
      assert false;
    }
  }

  lemma Multiple(a: nat, b: nat, full: nat)
    requires a <= b
    ensures a * full <= b * full
  {
  }

  /** One pass of split_skb's loop: a fragment from the end of the buffer. */
  method CutPiece(data: seq<byte>, start: nat, rest: nat, maxlen: nat, mtu: nat, frags: seq<Fragment>)
    returns (rest': nat, frags': seq<Fragment>)
    requires mtu > 28 && Aligned(mtu - HeadLen) && Aligned(maxlen) && 0 < maxlen < rest <= |data|
    requires maxlen <= mtu - HeadLen
    requires Formed(frags, mtu)
    ensures 0 < rest' < rest && Formed(frags', mtu) && frags' != [] && frags' == [frags'[0]] + frags
    ensures
      var want := if frags == [] then mtu - HeadLen - 8 + rest % 8 else mtu - HeadLen;
      |frags'[0].data| == rest - rest' <= want && maxlen <= rest' && (rest' == maxlen || rest - rest' == want)
    ensures Payload(frags') == data[rest'..rest] + Payload(frags)
    ensures Placed(frags', start + rest') ==> Placed(frags, start + rest)
    ensures Aligned(start) && (frags == [] || Aligned(rest)) && Placed(frags, start + rest) ==>
      Placed(frags', start + rest') && Aligned(rest')
  {
    hide Payload, Placed, Formed;
    PieceLenExactly(mtu, maxlen, rest, frags == []);
    var len := PieceLen(mtu, maxlen, rest, frags == []);
    rest' := rest - len;
    if frags == [] || Aligned(rest) {
      PieceAligned(mtu, maxlen, rest, frags == []);
    }
    if Aligned(start) {
      AlignedSum(start, rest');
    }
    frags' := Prepend(frags, start + rest', HeadLen, data[rest'..rest], mtu);
  }

  /**
   split_skb: the fragments for one buffer, cut from its end, in front of those for the buffers
   after it. They are placed right exactly if the buffer starts at a multiple of 8. All are full
   but the second, which has the rest, and the datagram's last.
   */
  method SplitBuffer(data: seq<byte>, start: nat, hdrlen: nat, mtu: nat, frags: seq<Fragment>)
    returns (frags': seq<Fragment>)
    requires mtu > 28 && Aligned(mtu - HeadLen) && HeadLen <= hdrlen < mtu && Aligned(mtu - hdrlen)
    requires data != [] && Formed(frags, mtu)
    ensures Formed(frags', mtu) && frags' != [] && frags'[0].hdr == hdrlen && Payload(frags') == data + Payload(frags)
    ensures
      var k := FragmentCount(|data|, mtu - hdrlen, mtu - HeadLen, frags == []);
      CutRight(frags', k, |data|, mtu - hdrlen, mtu - HeadLen, frags == []) && frags'[k..] == frags
    ensures Placed(frags', start) <==> Aligned(start) && Placed(frags, start + |data|)
  {
    hide Payload, Placed, Formed, Aligned, Cutting, CutRight, FragmentCount;
    var maxlen := mtu - hdrlen;
    var rest := |data|;
    frags' := frags;
    ghost var c, full, last := 0, mtu - HeadLen, frags == [];
    NoneCut(frags, |data|, maxlen, full, last);
    if Aligned(start) && frags != [] && Placed(frags, start + |data|) {
      PlacedAligned(frags, start + |data|);
      AlignedSum(start, |data|);
    }
    assert data[rest..] + Payload(frags) == Payload(frags);
    while rest > maxlen
      invariant 0 < rest <= |data| && Formed(frags', mtu)
      invariant Cutting(frags', frags, c, |data|, rest, maxlen, full, last)
      invariant Payload(frags') == data[rest..] + Payload(frags)
      invariant Placed(frags', start + rest) ==> Placed(frags, start + |data|)
      invariant Aligned(start) && Placed(frags, start + |data|) ==>
        Placed(frags', start + rest) && (frags' == [] || Aligned(rest))
    {
      ghost var rest0, frags0 := rest, frags';
      rest, frags' := CutPiece(data, start, rest, maxlen, mtu, frags');
      CuttingNext(frags0, frags, c, |data|, rest0, maxlen, full, last, frags'[0]);
      Joined(data, rest, rest0, Payload(frags));
      c := c + 1;
    }
    ghost var frags0 := frags';
    frags' := Prepend(frags', start, hdrlen, data[0..rest], mtu);
    CuttingDone(frags0, frags, c, |data|, rest, maxlen, full, last, frags'[0]);
    Joined(data, 0, rest, Payload(frags));
    assert data[0..] == data;
  }

  lemma Joined(data: seq<byte>, a: nat, b: nat, more: seq<byte>)
    requires a <= b <= |data|
    ensures data[a..b] + (data[b..] + more) == data[a..] + more
  {
  }

  lemma NoneCut(frags: seq<Fragment>, len: nat, maxlen: nat, full: nat, last: bool)
    ensures Cutting(frags, frags, 0, len, len, maxlen, full, last)
  {
  }

  /** The fragments of the buffers from number i on, buffer after buffer; the first has a header of hdrlen bytes. */
  ghost predicate AllCut(frags: seq<Fragment>, bufs: seq<seq<byte>>, i: nat, hdrlen: nat, mtu: nat)
    requires i <= |bufs| && HeadLen <= hdrlen < mtu
    decreases |bufs| - i
  {
    if i == |bufs| then frags == []
    else
      var maxlen, full, last := mtu - (if i == 0 then hdrlen else HeadLen), mtu - HeadLen, i == |bufs| - 1;
      var k := FragmentCount(|bufs[i]|, maxlen, full, last);
      CutRight(frags, k, |bufs[i]|, maxlen, full, last) && AllCut(frags[k..], bufs, i + 1, hdrlen, mtu)
  }

  /** Where buffer i of a chain starts in the payload. */
  function StartOf(bufs: seq<seq<byte>>, i: nat): nat
    requires i <= |bufs|
  {
    |Flatten(bufs[..i])|
  }

  lemma StartNext(bufs: seq<seq<byte>>, i: nat)
    requires i < |bufs|
    ensures StartOf(bufs, i + 1) == StartOf(bufs, i) + |bufs[i]|
    ensures Flatten(bufs[i..]) == bufs[i] + Flatten(bufs[i + 1..])
  {
    FlattenPrefix(bufs, i);
    var tail := bufs[i..];
    assert tail[0] == bufs[i] && tail[1..] == bufs[i + 1..];
  }

  ghost predicate StartsAligned(bufs: seq<seq<byte>>, from: nat) {
    forall j :: from <= j < |bufs| ==> Aligned(StartOf(bufs, j))
  }

  /** All buffers start at multiples of 8 exactly if all but the last have lengths that are. */
  lemma {:induction false} StartsAlignedIff(bufs: seq<seq<byte>>)
    ensures StartsAligned(bufs, 0) <==> forall j :: 0 <= j < |bufs| - 1 ==> Aligned(|bufs[j]|)
  {
    hide Flatten, Aligned;
    if StartsAligned(bufs, 0) {
      forall j | 0 <= j < |bufs| - 1 ensures Aligned(|bufs[j]|) {
        StartNext(bufs, j);
        assert Aligned(StartOf(bufs, j)) && Aligned(StartOf(bufs, j + 1));
        AlignedSum(StartOf(bufs, j), |bufs[j]|);
      }
    }
    if forall j :: 0 <= j < |bufs| - 1 ==> Aligned(|bufs[j]|) {
      forall j | 0 <= j < |bufs| ensures Aligned(StartOf(bufs, j)) {
        StartAligned(bufs, j);
      }
    }
  }

  lemma {:induction false} StartAligned(bufs: seq<seq<byte>>, i: nat)
    requires i < |bufs| && forall j :: 0 <= j < |bufs| - 1 ==> Aligned(|bufs[j]|)
    ensures Aligned(StartOf(bufs, i))
  {
    if i == 0 {
      assert bufs[..0] == [];
    } else {
      StartAligned(bufs, i - 1);
      StartNext(bufs, i - 1);
      AlignedSum(StartOf(bufs, i - 1), |bufs[i - 1]|);
    }
  }

  /**
   ip_fragment: from the last buffer of the chain to the first, which has the datagram's own
   header. The fragments carry the payload in order, each fits the link and only the last does
   not announce more; their offsets are right exactly if all buffers but the last have lengths
   that are multiples of 8. There are no more of them than need be: all of a buffer are full but the
   second, which has the rest, and the datagram's last.
   */
  method IpFragment(bufs: seq<seq<byte>>, hdrlen: nat, mtu: nat) returns (frags: seq<Fragment>)
    requires mtu > 28 && Aligned(mtu - HeadLen) && HeadLen <= hdrlen < mtu && Aligned(mtu - hdrlen)
    requires bufs != [] && forall i :: 0 <= i < |bufs| ==> bufs[i] != []
    ensures Formed(frags, mtu) && frags != [] && frags[0].hdr == hdrlen && Payload(frags) == Flatten(bufs)
    ensures Placed(frags, 0) <==> forall i :: 0 <= i < |bufs| - 1 ==> Aligned(|bufs[i]|)
    ensures AllCut(frags, bufs, 0, hdrlen, mtu)
  {
    hide Payload, Placed, Formed, Aligned, Flatten, CutRight, FragmentCount;
    frags := [];
    NoFragments(mtu, StartOf(bufs, |bufs|));
    var i := |bufs|;
    NoBytes(bufs);
    while i > 0
      invariant 0 <= i <= |bufs| && Formed(frags, mtu) && (i < |bufs| ==> frags != [])
      invariant i == 0 ==> frags[0].hdr == hdrlen
      invariant (i == |bufs| ==> frags == []) && AllCut(frags, bufs, i, hdrlen, mtu)
      invariant Payload(frags) == Flatten(bufs[i..])
      invariant Placed(frags, StartOf(bufs, i)) <==> StartsAligned(bufs, i)
    {
      i := i - 1;
      StartNext(bufs, i);
      frags := SplitBuffer(bufs[i], StartOf(bufs, i), if i == 0 then hdrlen else HeadLen, mtu, frags);
    }
    assert bufs[0..] == bufs;
    StartsAlignedIff(bufs);
  }

  lemma NoFragments(mtu: nat, off: nat)
    ensures Formed([], mtu) && Placed([], off) && Payload([]) == []
  {
  }

  lemma NoBytes(bufs: seq<seq<byte>>)
    ensures Flatten(bufs[|bufs|..]) == [] && StartOf(bufs, 0) == 0
  {
    assert bufs[..0] == [];
  }
}
