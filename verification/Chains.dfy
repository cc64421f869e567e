/**
 Chains of network buffers (skbuffs linked by their list field) and the bytes they hold.
 */
module Chains {
  import opened Blocks

  function Flatten(bufs: seq<seq<byte>>): seq<byte> {
    if bufs == [] then [] else bufs[0] + Flatten(bufs[1..])
  }

  lemma Associates(a: seq<byte>, b: seq<byte>, c: seq<byte>)
    ensures (a + b) + c == a + (b + c)
  {
  }

  lemma {:induction false} FlattenConcat(a: seq<seq<byte>>, b: seq<seq<byte>>)
    ensures Flatten(a + b) == Flatten(a) + Flatten(b)
  {
    if a == [] {
      assert a + b == b;
    } else {
      var c := a + b;
      FlattenConcat(a[1..], b);
      assert c[0] == a[0] && c[1..] == a[1..] + b;
      Associates(a[0], Flatten(a[1..]), Flatten(b));
    }
  }

  lemma FlattenPrefix(bufs: seq<seq<byte>>, i: nat)
    requires i < |bufs|
    ensures Flatten(bufs[..i + 1]) == Flatten(bufs[..i]) + bufs[i]
  {
    var last := [bufs[i]];
    assert bufs[..i + 1] == bufs[..i] + last;
    FlattenConcat(bufs[..i], last);
    assert |last[1..]| == 0 && Flatten(last[1..]) == [];
  }
}
