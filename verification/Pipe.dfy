/**
 Pipes (the PIPE_I branches of do_read and do_write, fs/read.c and fs/write.c): a queue of at most
 4096 bytes in a cyclic buffer. A method is one pass from the check of the buffer to the next
 point where the process sleeps or returns, so interleavings of readers and writers are
 sequences of passes. Signals are not modelled.
 */
module Pipe {
  import opened Blocks
  import opened Chains
  import opened CyclicBuffer
  import opened Sequences

  class Pipe {
    const buffer: array<byte>
    var readp: nat
    var writep: nat
    var size: nat

    ghost predicate Valid()
      reads this, buffer
    {
      buffer.Length == 4096 && readp < 4096 && size <= 4096 && writep == Cell(readp, size, 4096)
    }

    ghost function Contents(): seq<byte>
      requires Valid()
      reads this, buffer
    {
      Cells(buffer[..], readp, size)
    }

    constructor ()
      ensures Valid() && fresh(buffer) && Contents() == []
    {
      buffer := new byte[4096];
      readp, writep, size := 0, 0, 0;
    }

    /** One memcpy of do_read's loop: up to the end of the buffer. */
    method ReadPiece(left: nat) returns (piece: seq<byte>)
      requires Valid() && 0 < left <= size
      modifies `readp, `size
      ensures Valid() && 0 < |piece| <= left && size == old(size) - |piece|
      ensures old(Contents()) == piece + Contents()
    {
      hide Cells;
      var reading := Min(4096 - readp, left);
      TakeRun(buffer[..], readp, size, reading);
      ghost var all := Contents();
      assert all == all[..reading] + all[reading..];
      piece := buffer[readp..readp + reading];
      readp := if readp + reading >= 4096 then 0 else readp + reading;
      size := size - reading;
    }

    /** A pass of do_read: the oldest bytes, up to count of them; none if the pipe is empty. */
    method ReadPass(count: nat) returns (got: seq<byte>)
      requires Valid()
      modifies `readp, `size
      ensures Valid() && |got| == Min(count, old(size))
      ensures old(Contents()) == got + Contents()
    {
      hide Cells;
      got := [];
      var left := Min(count, size);
      while left > 0
        invariant 0 <= left <= size && Valid() && |got| + left == Min(count, old(size))
        invariant old(Contents()) == got + Contents()
      {
        var piece := ReadPiece(left);
        Associates(got, piece, Contents());
        got := got + piece;
        left := left - |piece|;
      }
    }

    /** One memcpy of do_write's loop: up to the end of the buffer. */
    method WritePiece(piece: seq<byte>)
      requires Valid() && |piece| <= 4096 - size && |piece| <= 4096 - writep && size < 4096
      modifies this, buffer
      ensures Valid() && size == old(size) + |piece|
      ensures Contents() == old(Contents()) + piece
    {
      hide Cells, Splice;
      AppendRun(buffer[..], readp, size, piece);
      Memcpy(buffer, writep, piece);
      writep := if writep + |piece| >= 4096 then 0 else writep + |piece|;
      size := size + |piece|;
    }

    /** A pass of do_write: as many bytes as there is room for; none if the pipe is full. */
    method WritePass(src: seq<byte>) returns (n: nat)
      requires Valid()
      modifies this, buffer
      ensures Valid() && n == Min(|src|, 4096 - old(size))
      ensures Contents() == old(Contents()) + src[..n]
    {
      hide Cells;
      n := 0;
      var left := Min(|src|, 4096 - size);
      while left > 0
        invariant 0 <= left <= 4096 - size && Valid() && 0 <= n && n + left == Min(|src|, 4096 - old(size))
        invariant Contents() == old(Contents()) + src[..n]
      {
        var writing := Min(4096 - writep, left);
        var piece := src[n..n + writing];
        WritePiece(piece);
        assert src[..n + writing] == src[..n] + piece;
        Associates(old(Contents()), src[..n], piece);
        n := n + writing;
        left := left - writing;
      }
    }
  }

  datatype Pass = Reading(count: nat) | Writing(src: seq<byte>)

  /**
   Any interleaving of passes of readers and writers: what was read, followed by what is in the
   pipe, is what was in it at first followed by what was written, byte for byte.
   */
  method Interleave(pipe: Pipe, passes: seq<Pass>) returns (read: seq<byte>, written: seq<byte>)
    requires pipe.Valid()
    modifies pipe, pipe.buffer
    ensures pipe.Valid() && read + pipe.Contents() == old(pipe.Contents()) + written
  {
    hide Cells;
    read, written := [], [];
    for i := 0 to |passes|
      invariant pipe.Valid() && read + pipe.Contents() == old(pipe.Contents()) + written
    {
      match passes[i]
      case Reading(count) =>
        var got := pipe.ReadPass(count);
        Associates(read, got, pipe.Contents());
        read := read + got;
      case Writing(src) =>
        ghost var before := pipe.Contents();
        var n := pipe.WritePass(src);
        Associates(read, before, src[..n]);
        Associates(old(pipe.Contents()), written, src[..n]);
        written := written + src[..n];
    }
  }
}
