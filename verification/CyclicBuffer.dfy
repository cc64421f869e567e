/**
 Bytes kept in a fixed array that is used round and round: the network rings (net/ringbuff.c)
 and the buffer of a pipe (fs/read.c, fs/write.c).
 */
module CyclicBuffer {
  import opened Blocks
  import opened Sequences

  /** The cell i places after start. */
  function Cell(start: nat, i: nat, size: nat): nat {
    if start + i < size then start + i else start + i - size
  }

  /** The n bytes from start on, around the end of the array. */
  ghost function Cells(data: seq<byte>, start: nat, n: nat): (r: seq<byte>)
    requires start < |data| && n <= |data|
    ensures |r| == n && forall i :: 0 <= i < n ==> r[i] == data[Cell(start, i, |data|)]
  {
    seq(n, i requires 0 <= i < n => data[Cell(start, i, |data|)])
  }

  /** A run written behind the bytes there, where it does not go past the end of the array. */
  lemma AppendRun(data: seq<byte>, start: nat, n: nat, d: seq<byte>)
    requires start < |data| && n + |d| <= |data| && n < |data|
    requires Cell(start, n, |data|) + |d| <= |data|
    ensures Cells(Splice(data, Cell(start, n, |data|), d), start, n + |d|) == Cells(data, start, n) + d
  {
    var w := Cell(start, n, |data|);
    var data' := Splice(data, w, d);
    forall i | 0 <= i < n + |d| ensures Cells(data', start, n + |d|)[i] == (Cells(data, start, n) + d)[i] {
      var c := Cell(start, i, |data|);
      if i < n {
        assert c < w || c >= w + |d|;
      } else {
        assert c == w + (i - n);
      }
    }
  }

  /** The first m bytes, where they do not go past the end of the array, and the rest. */
  lemma TakeRun(data: seq<byte>, start: nat, n: nat, m: nat)
    requires start < |data| && m <= n <= |data| && start + m <= |data|
    ensures Cells(data, start, n)[..m] == data[start..start + m]
    ensures Cells(data, start, n)[m..] == Cells(data, if start + m == |data| then 0 else start + m, n - m)
  {
  }

  /** memcpy into the array. */
  method Memcpy(dst: array<byte>, at: nat, src: seq<byte>)
    requires at + |src| <= dst.Length
    modifies dst
    ensures dst[..] == Splice(old(dst[..]), at, src)
  {
    forall i | 0 <= i < |src| {
      dst[at + i] := src[i];
    }
  }

  /** Bytes put behind the n there, in one piece or in two. */
  method Deposit(data: array<byte>, ghost start: nat, ghost n: nat, at: nat, src: seq<byte>)
    requires start < data.Length && n < data.Length && n + |src| <= data.Length && at == Cell(start, n, data.Length)
    modifies data
    ensures Cells(data[..], start, n + |src|) == old(Cells(data[..], start, n)) + src
  {
    hide Cells, Splice;
    var len := data.Length - at;
    if len >= |src| {
      AppendRun(data[..], start, n, src);
      Memcpy(data, at, src);
    } else {
      AppendTwo(data[..], start, n, src[..len], src[len..]);
      assert src == src[..len] + src[len..];
      Memcpy(data, at, src[..len]);
      Memcpy(data, 0, src[len..]);
    }
  }

  /** len bytes from cell idx on, in one piece or in two. */
  method Collect(data: array<byte>, idx: nat, len: nat) returns (dst: seq<byte>)
    requires idx < data.Length && len <= data.Length
    ensures dst == Cells(data[..], idx, len)
  {
    if data.Length - idx >= len {
      dst := data[idx..idx + len];
    } else {
      dst := data[idx..] + data[..len - (data.Length - idx)];
    }
  }

  function OldestOf(head: nat, count: nat, size: nat): (start: nat)
    requires head < size && count <= size
    ensures start < size
  {
    if head < count then head - count + size else head - count
  }

  /** The n bytes from the one off places behind the oldest on. */
  lemma CopiedFrom(data: seq<byte>, head: nat, count: nat, off: nat, n: nat)
    requires head < |data| && off < count <= |data| && n <= count
    ensures
      var place := head - count + off;
      var dst := Cells(data, if place < 0 then place + |data| else place, n);
      var all := Cells(data, OldestOf(head, count, |data|), count);
      && (off + n <= count ==> dst == all[off..off + n])
      && (off + n > count ==> dst[..count - off] == all[off..] && dst[count - off] == data[head])
  {
    hide Cells;
    var start := OldestOf(head, count, |data|);
    if off + n <= count {
      Middle(data, start, count, off, n);
    } else {
      TooFar(data, start, count, off, n);
    }
  }

  /** Without its first n bytes the queue is the rest of it. */
  lemma Shorter(data: seq<byte>, head: nat, count: nat, n: nat)
    requires head < |data| && n <= count <= |data|
    ensures
      var all := Cells(data, OldestOf(head, count, |data|), count);
      all == all[0..n] + Cells(data, OldestOf(head, count - n, |data|), count - n)
  {
  }

  /** ring_buffer_t: head is where the next byte goes, behind the count bytes there. */
  class Ring {
    const size: nat
    const data: array<byte>
    var head: nat
    var count: nat

    ghost predicate Valid()
      reads this, data
    {
      data.Length == size && count <= size && (if size == 0 then head == 0 else head < size)
    }

    /** The place of the oldest byte. */
    function Oldest(): (start: nat)
      requires Valid() && size > 0
      reads this, data
      ensures start < size && Cell(start, count, size) == head
    {
      OldestOf(head, count, size)
    }

    ghost function Contents(): seq<byte>
      requires Valid()
      reads this, data
    {
      if size == 0 then [] else Cells(data[..], Oldest(), count)
    }

    constructor (size: nat)
      ensures Valid() && fresh(data) && this.size == size && Contents() == []
    {
      this.size := size;
      data := new byte[size];
      head, count := 0, 0;
    }

    /** copy_to_ring: as much as there is room for, at the end of the queue. */
    method CopyTo(src: seq<byte>) returns (n: nat)
      requires Valid()
      modifies this, data
      ensures Valid() && n == Min(|src|, size - old(count))
      ensures Contents() == old(Contents()) + src[..n] && count == old(count) + n
    {
      if count >= size {
        return 0;
      }
      hide Cells;
      n := Min(|src|, size - count);
      Deposit(data, Oldest(), count, head, src[..n]);
      head := if head + n >= size then head + n - size else head + n;
      count := count + n;
    }

    /**
     copy_from_ring without deletion: len bytes, but not more than there are, from off on. They
     are the queue's bytes if they end before it does; else the queue's rest is followed by the
     byte in the cell where the next one will go, and more.
     */
    method CopyFrom(len: nat, off: nat) returns (dst: seq<byte>)
      requires Valid() && (count > 0 ==> off < count)
      ensures |dst| == Min(len, count)
      ensures off + |dst| <= count ==> dst == Contents()[off..off + |dst|]
      ensures off + |dst| > count && count > 0 ==>
        dst[..count - off] == Contents()[off..] && dst[count - off] == data[head]
    {
      if count == 0 {
        return [];
      }
      hide Cells, Cell, OldestOf;
      var n := Min(len, count);
      CopiedFrom(data[..], head, count, off, n);
      var idx := head - count + off;
      if idx < 0 {
        idx := idx + size;
      }
      dst := Collect(data, idx, n);
    }

    /** copy_from_ring with deletion, from the front: the bytes leave the queue. */
    method Remove(len: nat) returns (dst: seq<byte>)
      requires Valid()
      modifies `count
      ensures Valid() && |dst| == Min(len, old(count))
      ensures old(Contents()) == dst + Contents()
    {
      if count == 0 {
        return [];
      }
      hide Cells, Cell, OldestOf;
      dst := CopyFrom(len, 0);
      Shorter(data[..], head, count, |dst|);
      count := count - |dst|;
    }
  }

  lemma AppendTwo(data: seq<byte>, start: nat, n: nat, d: seq<byte>, e: seq<byte>)
    requires start < |data| && n + |d| + |e| <= |data| && n < |data| && e != []
    requires Cell(start, n, |data|) + |d| == |data|
    ensures
      Cells(Splice(Splice(data, Cell(start, n, |data|), d), 0, e), start, n + |d| + |e|) ==
        Cells(data, start, n) + (d + e)
  {
    AppendRun(data, start, n, d);
    AppendRun(Splice(data, Cell(start, n, |data|), d), start, n + |d|, e);
  }

  lemma Middle(data: seq<byte>, start: nat, n: nat, off: nat, m: nat)
    requires start < |data| && off + m <= n <= |data| && off < |data|
    ensures Cells(data, Cell(start, off, |data|), m) == Cells(data, start, n)[off..off + m]
  {
  }

  lemma TooFar(data: seq<byte>, start: nat, count: nat, off: nat, n: nat)
    requires start < |data| && off < count <= |data| && n <= count < off + n
    ensures
      var dst := Cells(data, Cell(start, off, |data|), n);
      && dst[..count - off] == Cells(data, start, count)[off..]
      && dst[count - off] == data[Cell(start, count, |data|)]
  {
  }
}
