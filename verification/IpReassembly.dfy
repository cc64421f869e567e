/**
 Reassembly of IP datagrams from their fragments (cons_ip_dgram in net/ip.c): the fragments of one
 datagram as they are linked behind the one with the lowest offset.
 */
module IpReassembly {
  import opened Blocks
  import opened Chains
  import opened IpFragments
  import opened Sequences

  function EndOff(f: Fragment): nat {
    Off(f) + |f.data|
  }

  ghost predicate Sorted(list: seq<Fragment>) {
    forall i, j :: 0 <= i < j < |list| ==> Off(list[i]) < Off(list[j])
  }

  /** check_continous. */
  predicate Continuous(f: Fragment, next: Fragment) {
    EndOff(f) <= Off(next)
  }

  /**
   insert_packet, for a fragment whose offset is new. A fragment before the first becomes the new
   head, linked to the old head alone: whatever was behind that is lost.
   */
  method InsertFragment(list: seq<Fragment>, f: Fragment) returns (list': seq<Fragment>, at: nat)
    requires list != [] && Sorted(list) && forall i :: 0 <= i < |list| ==> Off(list[i]) != Off(f)
    ensures at <= |list| && (forall i :: 0 <= i < at ==> Off(list[i]) < Off(f))
    ensures (forall i :: at <= i < |list| ==> Off(f) < Off(list[i]))
    ensures list' ==
      if at == 0 then (if Continuous(f, list[0]) then [f, list[0]] else list)
      else if Continuous(list[at - 1], f) then list[..at] + [f] + list[at..]
      else list
  {
    if Off(f) < Off(list[0]) {
      at := 0;
      list' := if Continuous(f, list[0]) then [f, list[0]] else list;
      return;
    }
    var i := 0;
    while !(i + 1 == |list| || Off(f) < Off(list[i + 1]))
      invariant 0 <= i < |list| && Off(list[i]) < Off(f)
      decreases |list| - i
    {
      i := i + 1;
    }
    at := i + 1;
    if Continuous(list[i], f) {
      list' := list[..i + 1] + [f] + list[i + 1..];
    } else {
      list' := list;
    }
  }

  lemma {:induction false} PlacedAt(frags: seq<Fragment>, off: nat, i: nat)
    requires Placed(frags, off) && i < |frags|
    ensures Off(frags[i]) == off + |Payload(frags[..i])|
    ensures Placed(frags[i..], Off(frags[i]))
    decreases i
  {
    if i == 0 {
      assert frags[0..] == frags;
    } else {
      PlacedAt(frags[1..], off + |frags[0].data|, i - 1);
      assert frags[1..][i - 1..] == frags[i..];
      assert frags[..i][1..] == frags[1..][..i - 1];
    }
  }

  lemma {:induction false} PayloadMore(frags: seq<Fragment>, i: nat)
    requires i < |frags|
    ensures Payload(frags[..i + 1]) == Payload(frags[..i]) + frags[i].data
    decreases i
  {
    if i == 0 {
      assert frags[..1] == [frags[0]];
      PayloadNext(frags[0], []);
      assert [frags[0]] + [] == [frags[0]];
    } else {
      PayloadMore(frags[1..], i - 1);
      PayloadNext(frags[0], frags[1..][..i]);
      PayloadNext(frags[0], frags[1..][..i - 1]);
      assert frags[..i + 1] == [frags[0]] + frags[1..][..i];
      assert frags[..i] == [frags[0]] + frags[1..][..i - 1];
    }
  }

  /** have_all_packet: from offset 0 on each fragment follows the one before, and the last is last. */
  method HaveAll(list: seq<Fragment>) returns (all: bool)
    requires list != []
    ensures all <==> Placed(list, 0) && !list[|list| - 1].more
  {
    hide Placed;
    PlacedSteps(list);
    if Off(list[0]) != 0 {
      return false;
    }
    var i, index := 0, |list[0].data|;
    assert list[..0] == [];
    PayloadMore(list, 0);
    while i + 1 < |list|
      invariant 0 <= i < |list| && index == |Payload(list[..i + 1])|
      invariant forall j :: 0 <= j <= i ==> Off(list[j]) == |Payload(list[..j])|
    {
      if index != Off(list[i + 1]) {
        return false;
      }
      i := i + 1;
      PayloadMore(list, i);
      index := index + |list[i].data|;
    }
    all := !list[i].more;
  }

  /** Placement from offset 0 on, fragment by fragment. */
  lemma PlacedSteps(list: seq<Fragment>)
    ensures Placed(list, 0) <==> forall j :: 0 <= j < |list| ==> Off(list[j]) == |Payload(list[..j])|
  {
    if Placed(list, 0) {
      forall j | 0 <= j < |list| ensures Off(list[j]) == |Payload(list[..j])| {
        PlacedAt(list, 0, j);
      }
    }
    if forall j :: 0 <= j < |list| ==> Off(list[j]) == |Payload(list[..j])| {
      assert list[0..] == list;
      PlacedFrom(list, 0);
    }
  }

  lemma {:induction false} PlacedFrom(list: seq<Fragment>, i: nat)
    requires i <= |list| && forall j :: 0 <= j < |list| ==> Off(list[j]) == |Payload(list[..j])|
    ensures Placed(list[i..], |Payload(list[..i])|)
    decreases |list| - i
  {
    if i < |list| {
      PlacedFrom(list, i + 1);
      PayloadMore(list, i);
      assert list[i..][1..] == list[i + 1..];
    }
  }

  /** trim_packets_header: the data of all fragments behind the first one's header, and the datagram's length. */
  method TrimHeaders(list: seq<Fragment>) returns (payload: seq<byte>, total: nat)
    requires list != []
    ensures payload == Payload(list) && total == list[0].hdr + |Payload(list)|
  {
    assert list[..0] == [];
    PayloadMore(list, 0);
    payload := list[0].data;
    var size := 0;
    for i := 1 to |list|
      invariant payload == Payload(list[..i]) && list[0].hdr + |payload| == size + list[0].hdr + |list[0].data|
    {
      PayloadMore(list, i);
      payload := payload + list[i].data;
      size := size + |list[i].data|;
    }
    assert list[..|list|] == list;
    total := size + list[0].hdr + |list[0].data|;
  }

  /** The fragments of one datagram in order, more than one. */
  ghost predicate Fragmentation(frags: seq<Fragment>) {
    && |frags| >= 2 && Placed(frags, 0)
    && forall i :: 0 <= i < |frags| ==> frags[i].data != [] && (frags[i].more <==> i + 1 < |frags|)
  }

  lemma {:induction false} PayloadGrows(frags: seq<Fragment>, i: nat, j: nat)
    requires i <= j <= |frags|
    ensures |Payload(frags[..i])| <= |Payload(frags[..j])|
    decreases j
  {
    if i < j {
      PayloadGrows(frags, i, j - 1);
      PayloadMore(frags, j - 1);
    }
  }

  lemma FragOrder(frags: seq<Fragment>, i: nat, j: nat)
    requires Fragmentation(frags) && i < j < |frags|
    ensures EndOff(frags[i]) <= Off(frags[j]) && Off(frags[i]) < Off(frags[j])
  {
    hide Payload, Placed;
    PlacedAt(frags, 0, i);
    PlacedAt(frags, 0, j);
    PayloadMore(frags, i);
    PayloadGrows(frags, i + 1, j);
  }

  /** Fragments of one datagram do not overlap, and are told apart by their offsets. */
  lemma Apart(frags: seq<Fragment>, f: Fragment, g: Fragment)
    requires Fragmentation(frags) && f in frags && g in frags
    ensures Off(f) == Off(g) ==> f == g
    ensures Off(f) < Off(g) ==> Continuous(f, g)
  {
    hide Fragmentation;
    var i :| 0 <= i < |frags| && frags[i] == f;
    var j :| 0 <= j < |frags| && frags[j] == g;
    if i < j {
      FragOrder(frags, i, j);
    } else if j < i {
      FragOrder(frags, j, i);
    }
  }

  ghost predicate AllIn(list: seq<Fragment>, frags: seq<Fragment>) {
    forall i :: 0 <= i < |list| ==> list[i] in frags
  }

  ghost predicate Sub(list: seq<Fragment>, frags: seq<Fragment>) {
    Sorted(list) && AllIn(list, frags)
  }

  lemma PlaceOf(list: seq<Fragment>, frags: seq<Fragment>, i: nat) returns (j: nat)
    requires AllIn(list, frags) && i < |list|
    ensures j < |frags| && frags[j] == list[i]
  {
    assert list[i] in frags;
    j :| 0 <= j < |frags| && frags[j] == list[i];
  }

  /** Fragments that follow on from offset 0 are the first ones of the datagram. */
  lemma {:induction false} PlacedPrefix(list: seq<Fragment>, frags: seq<Fragment>, n: nat)
    requires Fragmentation(frags) && Sub(list, frags) && Placed(list, 0) && n <= |list|
    ensures n <= |frags| && list[..n] == frags[..n]
  {
    hide Payload, Placed, Sorted;
    if n > 0 {
      PlacedPrefix(list, frags, n - 1);
      PlacedAt(list, 0, n - 1);
      if n - 1 == |frags| {
        PastEnd(frags, list[n - 1]);
      } else {
        PlacedAt(frags, 0, n - 1);
        Apart(frags, list[n - 1], frags[n - 1]);
        assert list[..n] == list[..n - 1] + [list[n - 1]];
        assert frags[..n] == frags[..n - 1] + [frags[n - 1]];
      }
    }
  }

  lemma PastEnd(frags: seq<Fragment>, f: Fragment)
    requires Fragmentation(frags) && f in frags
    ensures Off(f) < |Payload(frags[..|frags|])|
  {
    hide Payload, Placed;
    var i :| 0 <= i < |frags| && frags[i] == f;
    PlacedAt(frags, 0, i);
    PayloadMore(frags, i);
    PayloadGrows(frags, i + 1, |frags|);
  }

  /** have_all_packet holds of the whole datagram and of nothing less. */
  lemma CompleteExactly(list: seq<Fragment>, frags: seq<Fragment>)
    requires Fragmentation(frags) && Sub(list, frags) && list != []
    ensures Placed(list, 0) && !list[|list| - 1].more <==> list == frags
  {
    hide Payload, Placed, Sorted;
    if Placed(list, 0) && !list[|list| - 1].more {
      PlacedPrefix(list, frags, |list|);
      assert list == list[..|list|];
      assert list[|list| - 1] == frags[|list| - 1];
      assert frags == frags[..|frags|];
    }
  }

  lemma FragsSorted(frags: seq<Fragment>)
    requires Fragmentation(frags)
    ensures Sorted(frags)
  {
    forall i, j | 0 <= i < j < |frags| ensures Off(frags[i]) < Off(frags[j]) {
      FragOrder(frags, i, j);
    }
  }

  /** A sorted list of all the fragments starts like the datagram. */
  lemma {:induction false} SortedPrefix(list: seq<Fragment>, frags: seq<Fragment>, n: nat)
    requires Sorted(frags) && Sub(list, frags) && n <= |frags| && AllIn(frags, list)
    ensures n <= |list| && forall i :: 0 <= i < n ==> list[i] == frags[i]
  {
    hide Off, AllIn;
    if n > 0 {
      SortedPrefix(list, frags, n - 1);
      var j := PlaceOf(frags, list, n - 1);
      assert j >= n - 1;
      var m := PlaceOf(list, frags, n - 1);
      assert m >= n - 1;
    }
  }

  lemma AllThere(list: seq<Fragment>, frags: seq<Fragment>)
    requires Fragmentation(frags) && Sub(list, frags) && AllIn(frags, list)
    ensures list == frags
  {
    hide Fragmentation, Off, AllIn;
    FragsSorted(frags);
    SortedPrefix(list, frags, |frags|);
    if |list| > |frags| {
      var m := PlaceOf(list, frags, |frags|);
      assert false;
    }
  }

  ghost predicate Early(order: seq<Fragment>) {
    |order| >= 2 && (Off(order[0]) == 0 || Off(order[1]) == 0)
  }

  /** What is linked after the first k arrivals. */
  ghost predicate Linked(list: seq<Fragment>, frags: seq<Fragment>, order: seq<Fragment>, k: nat) {
    && 1 <= k <= |order| && list != [] && Sub(list, frags)
    && AllIn(list, order[..k])
    && (k == 1 ==> list == [order[0]])
    && (k >= 2 ==> |list| >= 2)
    && (k >= 2 && Early(order) ==> Off(list[0]) == 0 && AllIn(order[..k], list))
    && (k >= 2 && !Early(order) ==>
          (forall i :: 0 <= i < k ==> Off(order[i]) != 0) || !AllIn(order[..k], list))
  }

  /** A new arrival has an offset of its own, and does not overlap what is linked. */
  lemma NewArrival(list: seq<Fragment>, frags: seq<Fragment>, order: seq<Fragment>, k: nat)
    requires Fragmentation(frags) && Linked(list, frags, order, k) && k < |order| && Distinct(order)
    requires order[k] in frags
    ensures forall i :: 0 <= i < |list| ==>
      && list[i] != order[k] && Off(list[i]) != Off(order[k])
      && (Off(list[i]) < Off(order[k]) ==> Continuous(list[i], order[k]))
      && (Off(order[k]) < Off(list[i]) ==> Continuous(order[k], list[i]))
  {
    hide Fragmentation, Off, EndOff, AllIn, Sorted;
    forall i | 0 <= i < |list|
      ensures
        && list[i] != order[k] && Off(list[i]) != Off(order[k])
        && (Off(list[i]) < Off(order[k]) ==> Continuous(list[i], order[k]))
        && (Off(order[k]) < Off(list[i]) ==> Continuous(order[k], list[i]))
    {
      var j := PlaceOf(list, order[..k], i);
      var m := PlaceOf(list, frags, i);
      assert order[j] == list[i];
      Apart(frags, list[i], order[k]);
      Apart(frags, order[k], list[i]);
    }
  }

  lemma AllInMembers(list: seq<Fragment>, frags: seq<Fragment>)
    ensures AllIn(list, frags) <==> forall x :: x in list ==> x in frags
  {
  }

  lemma InsertedMembers(list: seq<Fragment>, at: nat, f: Fragment)
    requires at <= |list|
    ensures forall x :: x in list[..at] + [f] + list[at..] <==> x in list || x == f
  {
    assert list == list[..at] + list[at..];
  }

  lemma InsertedSorted(list: seq<Fragment>, at: nat, f: Fragment)
    requires Sorted(list) && at <= |list|
    requires (forall i :: 0 <= i < at ==> Off(list[i]) < Off(f))
    requires (forall i :: at <= i < |list| ==> Off(f) < Off(list[i]))
    ensures Sorted(list[..at] + [f] + list[at..])
  {
    hide Off;
  }

  /** A fragment linked behind another one. */
  lemma LinkedBehind(list: seq<Fragment>, frags: seq<Fragment>, order: seq<Fragment>, k: nat, at: nat)
    requires Linked(list, frags, order, k) && k < |order| && order[k] in frags && Distinct(order)
    requires 0 < at <= |list| && (forall i :: 0 <= i < at ==> Off(list[i]) < Off(order[k]))
    requires (forall i :: at <= i < |list| ==> Off(order[k]) < Off(list[i]))
    ensures Linked(list[..at] + [order[k]] + list[at..], frags, order, k + 1)
  {
    hide Off, AllIn, Sorted, Distinct;
    var f := order[k];
    var list', before, after := list[..at] + [f] + list[at..], order[..k], order[..k + 1];
    InsertedSorted(list, at, f);
    InsertedMembers(list, at, f);
    assert list'[0] == list[0] && Off(list[0]) < Off(f);
    assert after == before + [f];
    NotBefore(order, k);
    AllInMembers(list, frags);
    AllInMembers(list', frags);
    AllInMembers(list, before);
    AllInMembers(list', after);
    AllInMembers(before, list);
    AllInMembers(after, list');
  }

  lemma NotBefore(order: seq<Fragment>, k: nat)
    requires Distinct(order) && k < |order|
    ensures order[k] !in order[..k]
  {
  }

  /** A fragment that becomes the new head. */
  lemma LinkedAhead(list: seq<Fragment>, frags: seq<Fragment>, order: seq<Fragment>, k: nat)
    requires Linked(list, frags, order, k) && k < |order| && order[k] in frags && Distinct(order)
    requires Off(order[k]) < Off(list[0]) && forall i :: 0 <= i < |list| ==> list[i] != order[k]
    ensures Linked([order[k], list[0]], frags, order, k + 1)
  {
    hide Off;
    var f := order[k];
    var list' := [f, list[0]];
    assert order[..k + 1] == order[..k] + [f];
    assert order[..k + 1][k] == f;
    if k == 1 {
      assert order[..2] == [order[0], order[1]];
    } else {
      assert list[1] in order[..k];
      var i :| 0 <= i < k && order[..k][i] == list[1];
      assert order[..k + 1][i] == list[1] && list[1] != f && list[1] != list[0];
      assert !AllIn(order[..k + 1], list');
    }
  }

  lemma FirstLinked(frags: seq<Fragment>, order: seq<Fragment>)
    requires order != [] && order[0] in frags
    ensures Linked([order[0]], frags, order, 1)
  {
    assert order[..1] == [order[0]];
  }

  lemma Missing(order: seq<Fragment>, frags: seq<Fragment>, k: nat)
    requires Distinct(order) && k < |order| && AllIn(order, frags)
    ensures !AllIn(frags, order[..k])
  {
    var j := PlaceOf(order, frags, k);
    NotBefore(order, k);
    assert frags[j] !in order[..k];
  }

  /** Before the last arrival, or with the first fragment late, the datagram is not complete; else it is. */
  lemma CompleteWhen(list: seq<Fragment>, frags: seq<Fragment>, order: seq<Fragment>, k: nat)
    requires Fragmentation(frags) && Linked(list, frags, order, k) && k >= 2
    requires Distinct(order) && AllIn(order, frags) && AllIn(frags, order)
    ensures list == frags <==> k == |order| && Early(order)
  {
    hide Off, Sorted, Fragmentation, Distinct, AllIn, Early;
    var before := order[..k];
    AllInMembers(list, before);
    AllInMembers(before, list);
    AllInMembers(frags, order);
    AllInMembers(order, frags);
    AllInMembers(frags, list);
    if list == frags {
      if k < |order| {
        Missing(order, frags, k);
        assert false;
      }
      assert before == order;
      FirstIn(frags, order);
    } else if k == |order| && Early(order) {
      assert before == order;
      AllThere(list, frags);
      assert false;
    }
  }

  lemma FirstIn(frags: seq<Fragment>, order: seq<Fragment>)
    requires Fragmentation(frags) && AllIn(frags, order)
    ensures exists i :: 0 <= i < |order| && Off(order[i]) == 0
  {
    var j := PlaceOf(frags, order, 0);
    assert Off(order[j]) == 0;
  }

  /**
   cons_ip_dgram for the fragments of one datagram, each arriving once, in any order: they
   complete if and only if the first fragment is the first or second to arrive, and then with
   the last arrival; what comes out is the payload, and its length with the header.
   */
  method Reassemble(order: seq<Fragment>, ghost frags: seq<Fragment>)
    returns (complete: bool, arrivals: nat, payload: seq<byte>, total: nat)
    requires Fragmentation(frags) && Distinct(order) && AllIn(order, frags) && AllIn(frags, order) && |order| >= 2
    ensures complete <==> Early(order)
    ensures complete ==> arrivals == |order| && payload == Payload(frags) && total == frags[0].hdr + |payload|
  {
    hide Off, Sorted, Fragmentation, Distinct, AllIn, Early, Placed, Payload, Linked;
    var list := [order[0]];
    arrivals, payload, total := 1, [], 0;
    ghost var j := PlaceOf(order, frags, 0);
    FirstLinked(frags, order);
    complete := false;
    while arrivals < |order| && !complete
      invariant 1 <= arrivals <= |order| && Linked(list, frags, order, arrivals)
      invariant arrivals < 2 ==> !complete
      invariant arrivals >= 2 ==> (complete <==> list == frags)
    {
      list := Arrive(list, frags, order, arrivals);
      arrivals := arrivals + 1;
      LinkedSub(list, frags, order, arrivals);
      complete := HaveAll(list);
      CompleteExactly(list, frags);
    }
    CompleteWhen(list, frags, order, arrivals);
    if complete {
      payload, total := TrimHeaders(list);
    }
  }

  lemma LinkedSub(list: seq<Fragment>, frags: seq<Fragment>, order: seq<Fragment>, k: nat)
    requires Linked(list, frags, order, k)
    ensures list != [] && Sub(list, frags) && Sorted(list)
  {
  }

  method Arrive(list: seq<Fragment>, ghost frags: seq<Fragment>, order: seq<Fragment>, k: nat)
    returns (list': seq<Fragment>)
    requires Fragmentation(frags) && Linked(list, frags, order, k) && k < |order| && Distinct(order)
    requires AllIn(order, frags)
    ensures Linked(list', frags, order, k + 1)
  {
    hide Off, Sorted, Fragmentation, Distinct, AllIn, Linked, EndOff;
    LinkedSub(list, frags, order, k);
    ghost var j := PlaceOf(order, frags, k);
    NewArrival(list, frags, order, k);
    var at;
    list', at := InsertFragment(list, order[k]);
    if at == 0 {
      LinkedAhead(list, frags, order, k);
    } else {
      LinkedBehind(list, frags, order, k, at);
    }
  }

  ghost predicate Permutes(arrive: seq<Fragment> -> seq<Fragment>) {
    forall s :: Distinct(s) ==>
      |arrive(s)| == |s| && Distinct(arrive(s)) && AllIn(arrive(s), s) && AllIn(s, arrive(s))
  }

  /**
   A datagram too big for the link, fragmented and reassembled from the fragments in the order
   in which they arrive: it comes out as it went in, unless the first fragment is late.
   */
  method RoundTrip(bufs: seq<seq<byte>>, hdrlen: nat, mtu: nat, arrive: seq<Fragment> -> seq<Fragment>)
    returns (frags: seq<Fragment>, complete: bool, payload: seq<byte>, total: nat)
    requires mtu > 28 && Aligned(mtu - HeadLen) && HeadLen <= hdrlen < mtu && Aligned(mtu - hdrlen)
    requires bufs != [] && forall i :: 0 <= i < |bufs| ==> bufs[i] != []
    requires forall i :: 0 <= i < |bufs| - 1 ==> Aligned(|bufs[i]|)
    requires hdrlen + |Flatten(bufs)| > mtu && Permutes(arrive)
    ensures Formed(frags, mtu) && Placed(frags, 0) && |frags| >= 2
    ensures complete <==> Early(arrive(frags))
    ensures complete ==> payload == Flatten(bufs) && total == hdrlen + |Flatten(bufs)|
  {
    hide Flatten, Payload, Placed, Aligned, Early, AllIn;
    frags := IpFragment(bufs, hdrlen, mtu);
    MoreThanOne(frags, mtu);
    FragmentsReassemble(frags, mtu);
    var arrivals;
    complete, arrivals, payload, total := Reassemble(arrive(frags), frags);
  }

  lemma MoreThanOne(frags: seq<Fragment>, mtu: nat)
    requires Formed(frags, mtu) && frags != [] && frags[0].hdr + |Payload(frags)| > mtu
    ensures |frags| >= 2
  {
  }

  /** The fragments of a datagram, when there are more than one, can be told apart and put in order. */
  lemma FragmentsReassemble(frags: seq<Fragment>, mtu: nat)
    requires Formed(frags, mtu) && Placed(frags, 0) && |frags| >= 2
    ensures Fragmentation(frags) && Distinct(frags)
  {
    FragsSorted(frags);
  }
}
