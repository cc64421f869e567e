/**
 32-bit TCP sequence numbers (section 3.3 of RFC 793). The code compares two of them by moving
 one to 0x00010000 and comparing the results as unsigned numbers.
 */
module SequenceNumbers {
  type u32 = x: nat | x < 0x1_0000_0000

  const Origin: u32 := 0x1_0000

  function Wrap(x: int): u32 {
    x % 0x1_0000_0000
  }

  /** Where sequence number s comes to lie when r is moved to the origin. */
  function Rel(s: u32, r: u32): u32 {
    Wrap(s - r + 0x1_0000)
  }

  lemma WrapAdd(x: int, y: int)
    ensures Wrap(Wrap(x) + y) == Wrap(x + y)
  {
  }

  lemma WrapSub(x: int, y: int)
    ensures Wrap(x - Wrap(y)) == Wrap(x - y)
  {
  }

  lemma WrapSame(x: int)
    requires 0 <= x < 0x1_0000_0000
    ensures Wrap(x) == x
  {
  }

  /** A number k bytes after s lies k after it, unless it goes past the largest number. */
  lemma RelLater(s: u32, r: u32, k: nat)
    requires Rel(s, r) + k < 0x1_0000_0000
    ensures Rel(Wrap(s + k), r) == Rel(s, r) + k
  {
    WrapAdd(s + k, 0x1_0000 - r);
    WrapAdd(s - r + 0x1_0000, k);
    WrapSame(Rel(s, r) + k);
  }

  /** Numbers that lie k apart are k bytes apart. */
  lemma RelApart(s: u32, t: u32, r: u32, k: nat)
    requires Rel(t, r) == Rel(s, r) + k
    ensures t == Wrap(s + k)
  {
    RelLater(s, r, k);
    RelInjective(t, Wrap(s + k), r);
  }

  lemma RelInjective(s: u32, t: u32, r: u32)
    requires Rel(s, r) == Rel(t, r)
    ensures s == t
  {
  }

  /** Moving the origin forward by k moves every number that lies beyond it back by k. */
  lemma RelMoved(s: u32, r: u32, k: nat)
    requires Rel(s, r) >= k
    ensures Rel(s, Wrap(r + k)) == Rel(s, r) - k
  {
    var moved: int := s + 0x1_0000;
    WrapSub(moved, r + k);
    WrapBack(moved - r, k);
  }

  lemma WrapBack(x: int, k: nat)
    requires Wrap(x) >= k
    ensures Wrap(x - k) == Wrap(x) - k
  {
  }

  /** compare_seq: the sign of s - t, as far as the code can tell. */
  function CompareSeq(s: u32, t: u32): (c: int)
  {
    var moved := Rel(t, s);
    if 0x1_0000 < moved then -1 else if 0x1_0000 > moved then 1 else 0
  }

  /**
   compare_seq is the order of two stream positions exactly if the first is at most 65536 bytes
   ahead of the second and less than 2^32 - 65536 bytes behind it.
   */
  lemma CompareSeqExactly(isn: u32, p: nat, q: nat)
    requires -0x1_0000_0000 < q - p < 0x1_0000_0000
    ensures
      CompareSeq(Wrap(isn + p), Wrap(isn + q)) == (if p < q then -1 else if p > q then 1 else 0) <==>
      -0x1_0000 <= q - p < 0x1_0000_0000 - 0x1_0000
  {
    PositionsApart(isn, p, q);
  }

  lemma PositionsApart(isn: u32, p: nat, q: nat)
    ensures Rel(Wrap(isn + q), Wrap(isn + p)) == Wrap(q - p + 0x1_0000)
  {
    var t: int := Wrap(isn + q);
    WrapSub(t + 0x1_0000, isn + p);
    var d: int := 0x1_0000 - isn - p;
    WrapAdd(isn + q, d);
  }
}
