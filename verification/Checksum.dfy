/**
 The Internet checksum (checksum and ipchecksum in net/common.c; section 1 of RFC 1071), computed
 with little-endian 16-bit loads in a 32-bit sum.
 */
module Checksum {
  import opened Blocks
  import opened Chains

  /** The 16-bit words added up, an odd last byte as a word of its own. */
  function WordSum(b: seq<byte>): nat {
    if b == [] then 0
    else if |b| == 1 then b[0] as nat
    else b[0] as nat + b[1] as nat * 256 + WordSum(b[2..])
  }

  /** The one's complement sum of RFC 1071: the representative of x modulo 65535 that is zero for zero only. */
  function OnesSum(x: nat): (r: nat)
    ensures r <= 0xffff && r % 0xffff == x % 0xffff && (r == 0 <==> x == 0)
  {
    if x == 0 then 0 else (x - 1) % 0xffff + 1
  }

  /** The checksum field of a message that has it zeroed. */
  function ChecksumOf(b: seq<byte>): nat {
    0xffff - OnesSum(WordSum(b))
  }

  lemma OnesSumUnique(x: nat, r: nat)
    requires r <= 0xffff && r % 0xffff == x % 0xffff && (r == 0 <==> x == 0)
    ensures r == OnesSum(x)
  {
  }

  /** One fold keeps the sum modulo 65535. */
  lemma FoldStep(x: nat)
    requires x >= 0x1_0000
    ensures var y := x % 0x1_0000 + x / 0x1_0000; 0 < y < x && y % 0xffff == x % 0xffff
  {
    var hi, lo := x / 0x1_0000, x % 0x1_0000;
    assert x == hi * 0xffff + (hi + lo);
    ModAdd(hi, hi + lo);
  }

  lemma ModAdd(k: nat, x: nat)
    ensures (k * 0xffff + x) % 0xffff == x % 0xffff
  {
    if k > 0 {
      ModAdd(k - 1, x);
      assert k * 0xffff + x == (k - 1) * 0xffff + x + 0xffff;
    }
  }

  /** The folding loop ends, with the one's complement sum. */
  method Fold(sum: nat) returns (r: nat)
    ensures r == OnesSum(sum)
  {
    r := sum;
    while r / 0x1_0000 != 0
      invariant r % 0xffff == sum % 0xffff && (r == 0 <==> sum == 0)
      decreases r
    {
      FoldStep(r);
      r := r % 0x1_0000 + r / 0x1_0000;
    }
    OnesSumUnique(sum, r);
  }

  lemma {:induction false} WordSumBound(b: seq<byte>)
    ensures WordSum(b) <= (|b| + 1) / 2 * 0xffff
    decreases |b|
  {
    if |b| >= 2 {
      WordSumBound(b[2..]);
      assert (|b| + 1) / 2 == (|b| - 1) / 2 + 1;
    }
  }

  lemma {:induction false} WordSumConcat(a: seq<byte>, b: seq<byte>)
    requires |a| % 2 == 0
    ensures WordSum(a + b) == WordSum(a) + WordSum(b)
    decreases |a|
  {
    if a == [] {
      assert a + b == b;
    } else {
      WordSumConcat(a[2..], b);
      assert (a + b)[2..] == a[2..] + b;
    }
  }

  lemma {:induction false} WordSumPrefix(b: seq<byte>, i: nat)
    requires i % 2 == 0 && i + 2 <= |b|
    ensures WordSum(b[..i + 2]) == WordSum(b[..i]) + b[i] as nat + b[i + 1] as nat * 256
  {
    var two := [b[i], b[i + 1]];
    assert b[..i + 2] == b[..i] + two;
    WordSumConcat(b[..i], two);
    assert |two[2..]| == 0 && WordSum(two[2..]) == 0;
  }

  lemma {:induction false} WordSumOdd(b: seq<byte>)
    requires |b| % 2 == 1
    ensures WordSum(b) == WordSum(b[..|b| - 1]) + b[|b| - 1] as nat
  {
    var last := [b[|b| - 1]];
    assert b == b[..|b| - 1] + last;
    WordSumConcat(b[..|b| - 1], last);
  }

  /** One buffer added to the sum. Within 65535 bytes the sum never reaches bit 31, where the code would fold it. */
  method AddBuffer(sum: nat, b: seq<byte>, ghost before: nat) returns (sum': nat)
    requires sum <= (before + 1) / 2 * 0xffff && before % 2 == 0 && before + |b| <= 0xffff
    ensures sum' == sum + WordSum(b)
  {
    sum' := sum;
    var i := 0;
    assert b[..0] == [];
    while |b| - i > 1
      invariant 0 <= i <= |b| && i % 2 == 0 && sum' == sum + WordSum(b[..i])
    {
      WordSumPrefix(b, i);
      WordSumBound(b[..i + 2]);
      sum' := sum' + (b[i] as nat + b[i + 1] as nat * 256);
      if sum' >= 0x8000_0000 {
        assert false;
      }
      i := i + 2;
    }
    if i < |b| {
      WordSumOdd(b);
      sum' := sum' + b[i] as nat;
    }
    assert i == |b| ==> b[..i] == b;
  }

  lemma NoBytes(bufs: seq<seq<byte>>)
    ensures Flatten(bufs[..0]) == [] && WordSum([]) == 0
  {
    assert bufs[..0] == [];
  }

  /**
   checksum: over a chain of up to 65535 bytes in which every buffer but the last is of even
   length, the checksum of the bytes as if they lay in one piece: the 16-bit number that makes the
   sum of all words a multiple of 65535, and is 0 only if they, not all zero, add up to one already.
   */
  method Compute(bufs: seq<seq<byte>>) returns (c: nat)
    requires |Flatten(bufs)| <= 0xffff && forall i :: 0 <= i < |bufs| - 1 ==> |bufs[i]| % 2 == 0
    ensures c == ChecksumOf(Flatten(bufs))
    ensures c <= 0xffff && (c + WordSum(Flatten(bufs))) % 0xffff == 0
    ensures c == 0 <==> WordSum(Flatten(bufs)) != 0 && WordSum(Flatten(bufs)) % 0xffff == 0
  {
    hide WordSum, OnesSum, Flatten;
    var sum := 0;
    NoBytes(bufs);
    for i := 0 to |bufs|
      invariant sum == WordSum(Flatten(bufs[..i])) && (i < |bufs| ==> |Flatten(bufs[..i])| % 2 == 0)
    {
      FlattenPrefix(bufs, i);
      FlattenConcat(bufs[..i + 1], bufs[i + 1..]);
      assert bufs == bufs[..i + 1] + bufs[i + 1..];
      WordSumBound(Flatten(bufs[..i]));
      WordSumConcat(Flatten(bufs[..i]), bufs[i]);
      sum := AddBuffer(sum, bufs[i], |Flatten(bufs[..i])|);
    }
    assert bufs[..|bufs|] == bufs;
    var r := Fold(sum);
    c := 0xffff - r;
    Complement(sum, r);
    ZeroExactly(Flatten(bufs));
  }

  /** Storing a word in a zeroed field adds it to the sum. */
  lemma {:induction false} WordSumStore(b: seq<byte>, at: nat, lo: byte, hi: byte)
    requires at % 2 == 0 && at + 1 < |b| && b[at] == 0 && b[at + 1] == 0
    ensures WordSum(b[at := lo][at + 1 := hi]) == WordSum(b) + lo as nat + hi as nat * 256
    decreases |b|
  {
    var b' := b[at := lo][at + 1 := hi];
    if at == 0 {
      assert b'[2..] == b[2..];
    } else {
      WordSumStore(b[2..], at - 2, lo, hi);
      assert b'[2..] == b[2..][at - 2 := lo][at - 1 := hi];
    }
  }

  /** The checksum of a message is zero exactly if its words, not all zero, add up to a multiple of 65535. */
  lemma ZeroExactly(b: seq<byte>)
    ensures ChecksumOf(b) == 0 <==> WordSum(b) != 0 && WordSum(b) % 0xffff == 0
  {
  }

  /** What the sender stores in the zeroed field makes the receiver's checksum of the message zero. */
  lemma StoredVerifies(b: seq<byte>, at: nat, lo: byte, hi: byte)
    requires at % 2 == 0 && at + 1 < |b| && b[at] == 0 && b[at + 1] == 0
    requires lo as nat + hi as nat * 256 == ChecksumOf(b)
    ensures ChecksumOf(b[at := lo][at + 1 := hi]) == 0
  {
    WordSumStore(b, at, lo, hi);
    var s := WordSum(b);
    var r := OnesSum(s);
    Complement(s, r);
    ZeroExactly(b[at := lo][at + 1 := hi]);
  }

  /** The two bytes to store, low byte first; with them in the field the receiver's checksum is zero. */
  lemma FieldVerifies(b: seq<byte>, at: nat) returns (lo: byte, hi: byte)
    requires at % 2 == 0 && at + 1 < |b| && b[at] == 0 && b[at + 1] == 0
    ensures lo as nat + hi as nat * 256 == ChecksumOf(b) <= 0xffff
    ensures ChecksumOf(b[at := lo][at + 1 := hi]) == 0
  {
    var c := ChecksumOf(b);
    lo, hi := c % 256, c / 256;
    StoredVerifies(b, at, lo, hi);
  }

  lemma Complement(s: nat, r: nat)
    requires r == OnesSum(s)
    ensures s + (0xffff - r) != 0 && (s + (0xffff - r)) % 0xffff == 0
  {
    if s > 0 {
      var q := (s - 1) / 0xffff;
      assert s == q * 0xffff + r;
      ModAdd(q + 1, 0);
    }
  }
}
