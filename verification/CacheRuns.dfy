/**
 Runs of the buffer cache: a process that lets the disk catch up between its operations sees the
 blocks as an array, and a sync puts that array on the disk.
 */
module CacheRuns {
  import opened Blocks
  import opened RequestQueue
  import opened CacheViews
  import opened BufferCache

  /** A block read, or a delayed write of a whole block. */
  datatype Op = ReadBlock(k: Key) | WriteBlock(k: Key, d: Block)

  ghost function Contents(v: View): imap<Key, Block> {
    imap k: Key | true :: Logical(v, k)
  }

  /** The array after the operations, and what each of them had in its hands. */
  ghost function Final(f: imap<Key, Block>, ops: seq<Op>): imap<Key, Block> {
    if ops == [] then f
    else
      var g, op := Final(f, ops[..|ops| - 1]), ops[|ops| - 1];
      if op.ReadBlock? then g else g[op.k := op.d]
  }

  ghost function Answer(f: imap<Key, Block>, ops: seq<Op>, i: nat): Block
    requires i < |ops|
  {
    var g := Final(f, ops[..i]);
    if ops[i].WriteBlock? then ops[i].d else if ops[i].k in g then g[ops[i].k] else ZeroBlock()
  }

  ghost predicate Resting(v: View) {
    v.queue == [] && forall b :: 0 <= b < |v.bufs| ==> !v.bufs[b].busy
  }

  /** The blocks in use are among the given ones, whose sectors differ. */
  ghost predicate Known(v: View, sector: Key -> nat, keys: iset<Key>) {
    && (forall k :: k in v.index ==> k in keys)
    && (forall k, k' :: k in keys && k' in keys && sector(k) == sector(k') ==> k == k')
  }

  lemma KnownApart(v: View, sector: Key -> nat, keys: iset<Key>, k: Key)
    requires Shape(v, sector) && Known(v, sector, keys) && k in keys
    ensures Apart(v, sector) && ApartFrom(v, sector, k)
  {
  }

  /** The busy buffers are h, with its data there or on their way, and some on their way to the disk. */
  ghost predicate Pending(v: View, h: nat) {
    && (forall b :: 0 <= b < |v.bufs| && v.bufs[b].busy && b != h ==> v.bufs[b].asy && Queued(v.queue, b))
    && (h < |v.bufs| ==> v.bufs[h].busy && !v.bufs[h].asy && (v.bufs[h].done || Queued(v.queue, h)))
  }

  lemma QueuedTail(queue: seq<Request>, b: nat)
    requires queue != [] && Queued(queue, b)
    ensures queue[0].buf == b || Queued(queue[1..], b)
  {
    var i :| 0 <= i < |queue| && queue[i].buf == b;
    if i > 0 {
      assert queue[1..][i - 1].buf == b;
    }
  }

  lemma PendingStep(v: View, h: nat)
    requires Pending(v, h) && v.queue != [] && v.queue[0].buf < |v.bufs|
    ensures Pending(Served(v, Ended(v)), h)
  {
    hide Queued;
    forall b | Queued(v.queue, b) ensures v.queue[0].buf == b || Queued(v.queue[1..], b) {
      QueuedTail(v.queue, b);
    }
  }

  lemma PendingIdle(v: View, h: nat)
    requires Pending(v, h) && v.queue == []
    ensures forall b :: 0 <= b < |v.bufs| ==> (v.bufs[b].busy <==> b == h)
    ensures h < |v.bufs| ==> v.bufs[h].done
  {
  }

  ghost predicate SameClean(v: View, v': View) {
    && v'.index == v.index && |v'.bufs| == |v.bufs|
    && forall b :: 0 <= b < |v.bufs| ==> v'.bufs[b].dirty == v.bufs[b].dirty && v'.bufs[b].key == v.bufs[b].key
  }

  /** The disk serves everything; h is the buffer a process holds, if it holds one. */
  method Quiesce(c: BufferCache, ghost h: nat)
    requires c.Valid() && Pending(c.Now(), h)
    modifies c`bufs, c`free, c`queue, c`disk
    ensures c.Valid() && c.queue == [] && SameClean(old(c.Now()), c.Now())
    ensures c.orderly ==> SameLogical(old(c.Now()), c.Now())
    ensures Pending(c.Now(), h)
  {
    hide BufferCache.Valid, Pending, Agrees, SameLogical;
    LogicalRefl(c.Now());
    while c.queue != []
      invariant c.Valid() && SameClean(old(c.Now()), c.Now()) && Pending(c.Now(), h)
      invariant c.orderly ==> SameLogical(old(c.Now()), c.Now())
      decreases |c.queue|
    {
      ghost var v := c.Now();
      var r := c.Complete();
      PendingStep(v, h);
      if c.orderly {
        SameLogicalTrans(old(c.Now()), v, c.Now());
      }
    }
  }

  lemma RestingOrder(v: View, free: seq<nat>, sector: Key -> nat, keys: iset<Key>, k: Key)
    requires Resting(v) && Shape(v, sector) && Known(v, sector, keys) && k in keys
    ensures Apart(v, sector) && ApartFrom(v, sector, k) && KeepsOrder(v, free, sector, k) && Clear(v, sector)
    ensures !Overtaken(v.queue, sector(k))
  {
    KnownApart(v, sector, keys, k);
    IdleInOrder(v, sector, free);
  }

  /** With nothing busy, a block that cannot be had at once can be had when the dirty buffers have been written. */
  lemma RestingGets(v: View, free: seq<nat>, sector: Key -> nat, k: Key)
    requires Resting(v) && FreeList(v.bufs, free) && Shape(v, sector) && |v.bufs| > 0
    ensures CanGet(v, free, k) || (k !in v.index && forall b :: 0 <= b < |v.bufs| ==> v.bufs[b].dirty)
    ensures (forall b :: 0 <= b < |v.bufs| ==> !v.bufs[b].dirty) ==> CanGet(v, free, k)
  {
    if forall b :: 0 <= b < |v.bufs| ==> !v.bufs[b].dirty {
      assert 0 in free;
    }
    if b :| 0 <= b < |v.bufs| && !v.bufs[b].dirty {
      assert b in free;
    }
  }

  lemma GotPending(v: View, k: Key, o: Outcome, v': View)
    requires Resting(v) && OnlyFor(v, k, o, v')
    requires o.Got? ==> v'.bufs[o.b].busy && (v'.bufs[o.b].done || ReadQueued(v'.queue, o.b))
    ensures Pending(v', if o.Got? then o.b else |v'.bufs|)
  {
    if o.Got? && ReadQueued(v'.queue, o.b) {
      var i :| 0 <= i < |v'.queue| && v'.queue[i].buf == o.b && !v'.queue[i].write;
      assert Queued(v'.queue, o.b);
    }
  }

  lemma GotKnown(v: View, sector: Key -> nat, keys: iset<Key>, k: Key, o: Outcome, v': View)
    requires Known(v, sector, keys) && k in keys && OnlyFor(v, k, o, v')
    ensures Known(v', sector, keys)
  {
  }

  /** What holds when a process that had nothing has got block k. */
  ghost predicate Holding(v: View, b: nat, k: Key) {
    v.queue == [] && k in v.index && v.index[k] == b < |v.bufs| && v.bufs[b].key == k && v.bufs[b].done && Pending(v, b)
  }

  /** bread with the disk idle, once: the process may find every buffer on its way to the disk. */
  method TryFetch(c: BufferCache, k: Key, ghost keys: iset<Key>) returns (o: Outcome)
    requires c.Valid() && c.orderly && Resting(c.Now()) && Known(c.Now(), c.sector, keys)
    requires k in keys && k.dev != NoDev && |c.bufs| > 0
    modifies c
    ensures c.Valid() && c.orderly && |c.bufs| == old(|c.bufs|) && Known(c.Now(), c.sector, keys)
    ensures SameLogical(old(c.Now()), c.Now())
    ensures o.Got? ==> Holding(c.Now(), o.b, k)
    ensures !o.Got? ==> Resting(c.Now()) && old(exists b :: 0 <= b < |c.bufs| && c.bufs[b].dirty)
    ensures !o.Got? ==> forall b :: 0 <= b < |c.bufs| ==> !c.bufs[b].dirty
  {
    hide Agrees, SameLogical, KeepsOrder, CanGet, Apart, ApartFrom, Overtaken, Queued, ReadQueued, Chained;
    hide Indexed, DirtyHashed, Addressed, Logical, InOrder, Clear;
    var ready;
    ghost var v := c.Now();
    RestingOrder(v, c.free, c.sector, keys, k);
    RestingGets(v, c.free, c.sector, k);
    o, ready := c.Bread(k);
    ghost var v1 := c.Now();
    GotPending(v, k, o, v1);
    GotKnown(v, c.sector, keys, k, o, v1);
    Quiesce(c, if o.Got? then o.b else |c.bufs|);
    PendingIdle(c.Now(), if o.Got? then o.b else |c.bufs|);
    SameLogicalTrans(v, v1, c.Now());
  }

  /** bread with the disk idle: block k is got, at the latest when the dirty buffers have been written. */
  method Fetch(c: BufferCache, k: Key, ghost keys: iset<Key>) returns (b: nat)
    requires c.Valid() && c.orderly && Resting(c.Now()) && Known(c.Now(), c.sector, keys)
    requires k in keys && k.dev != NoDev && |c.bufs| > 0
    modifies c
    ensures c.Valid() && c.orderly && |c.bufs| == old(|c.bufs|) && Known(c.Now(), c.sector, keys)
    ensures SameLogical(old(c.Now()), c.Now()) && Holding(c.Now(), b, k)
  {
    hide BufferCache.Valid, Holding, SameLogical, Known;
    var o := TryFetch(c, k, keys);
    if !o.Got? {
      ghost var v := c.Now();
      o := TryFetch(c, k, keys);
      SameLogicalTrans(old(c.Now()), v, c.Now());
    }
    b := o.b;
  }

  lemma SameContents(v: View, v': View)
    requires SameLogical(v, v')
    ensures Contents(v') == Contents(v)
  {
    hide Logical;
  }

  lemma ChangedContents(v: View, v': View, k: Key, d: Block)
    requires Logical(v', k) == d && forall k' :: k' != k ==> Logical(v', k') == Logical(v, k')
    ensures Contents(v') == Contents(v)[k := d]
  {
    hide Logical;
  }

  lemma HoldingBusy(v: View, b: nat, k: Key)
    requires Holding(v, b, k)
    ensures forall c :: 0 <= c < |v.bufs| ==> (v.bufs[c].busy <==> c == b)
    ensures !ReadQueued(v.queue, b) && v.bufs[b].data == Logical(v, k)
  {
    PendingIdle(v, b);
  }

  /** One operation and the disk's work for it. */
  method Perform(c: BufferCache, op: Op, ghost keys: iset<Key>) returns (d: Block)
    requires c.Valid() && c.orderly && Resting(c.Now()) && Known(c.Now(), c.sector, keys)
    requires op.k in keys && op.k.dev != NoDev && |c.bufs| > 0
    modifies c
    ensures c.Valid() && c.orderly && |c.bufs| == old(|c.bufs|) && Known(c.Now(), c.sector, keys)
    ensures Resting(c.Now())
    ensures d == if op.WriteBlock? then op.d else Logical(old(c.Now()), op.k)
    ensures Contents(c.Now()) == if op.WriteBlock? then Contents(old(c.Now()))[op.k := d] else Contents(old(c.Now()))
  {
    hide BufferCache.Valid, Logical, Contents, ReadQueued;
    var b := Fetch(c, op.k, keys);
    ghost var v := c.Now();
    HoldingBusy(v, b, op.k);
    SameContents(old(c.Now()), v);
    d := c.bufs[b].data;
    if op.WriteBlock? {
      d := op.d;
      c.Fill(b, d);
      ChangedContents(v, c.Now(), op.k, d);
    }
    ghost var v1 := c.Now();
    c.Release(b);
    SameContents(v1, c.Now());
  }

  /** The operations of one process, with the disk at rest in between, on an array of blocks. */
  method Run(c: BufferCache, ops: seq<Op>, ghost keys: iset<Key>) returns (answers: seq<Block>)
    requires c.Valid() && c.orderly && Resting(c.Now()) && Known(c.Now(), c.sector, keys) && |c.bufs| > 0
    requires forall i :: 0 <= i < |ops| ==> ops[i].k in keys && ops[i].k.dev != NoDev
    modifies c
    ensures c.Valid() && c.orderly && Resting(c.Now()) && Known(c.Now(), c.sector, keys)
    ensures |answers| == |ops| && forall i :: 0 <= i < |ops| ==> answers[i] == Answer(old(Contents(c.Now())), ops, i)
    ensures Contents(c.Now()) == Final(old(Contents(c.Now())), ops)
  {
    hide BufferCache.Valid, Resting, Known, Logical;
    answers := [];
    ghost var f := Contents(c.Now());
    assert ops[..0] == [];
    for i := 0 to |ops|
      invariant c.Valid() && c.orderly && Resting(c.Now()) && Known(c.Now(), c.sector, keys) && |c.bufs| > 0
      invariant |answers| == i && forall j :: 0 <= j < i ==> answers[j] == Answer(f, ops, j)
      invariant Contents(c.Now()) == Final(f, ops[..i])
    {
      ghost var v := c.Now();
      var d := Perform(c, ops[i], keys);
      assert ops[..i + 1][..i] == ops[..i];
      assert d == Answer(f, ops, i);
      answers := answers + [d];
    }
    assert ops[..|ops|] == ops;
  }

  /** bsync and the disk's work for it: the disk then holds every block. */
  method Sync(c: BufferCache, ghost keys: iset<Key>)
    requires c.Valid() && c.orderly && Resting(c.Now()) && Known(c.Now(), c.sector, keys)
    modifies c
    ensures c.Valid() && c.orderly && Resting(c.Now()) && Known(c.Now(), c.sector, keys)
    ensures Contents(c.Now()) == old(Contents(c.Now()))
    ensures forall k :: (if k in c.disk then c.disk[k] else ZeroBlock()) == old(Contents(c.Now()))[k]
  {
    hide Agrees, SameLogical, Logical, Chained, Addressed, Contents, Overtaken;
    ghost var v := c.Now();
    SyncOrdered(v, c.free, c.sector, keys);
    c.Bsync();
    ghost var v1 := c.Now();
    Quiesce(c, |c.bufs|);
    PendingIdle(c.Now(), |c.bufs|);
    SameLogicalTrans(v, v1, c.Now());
    SameContents(v, c.Now());
    AllClean(c.Now());
    ContentsAt(c.Now());
  }

  lemma SyncOrdered(v: View, free: seq<nat>, sector: Key -> nat, keys: iset<Key>)
    requires Resting(v) && Shape(v, sector) && Known(v, sector, keys)
    ensures Apart(v, sector) && Clear(v, sector)
  {
    IdleInOrder(v, sector, free);
  }

  lemma ContentsAt(v: View)
    requires v.queue == [] && forall k :: Settled(v, k) == Logical(v, k)
    ensures forall k :: (if k in v.disk then v.disk[k] else ZeroBlock()) == Contents(v)[k]
  {
    hide Logical;
  }

  /** getblk of a block that is not hashed, with a clean buffer at the head of the free list. */
  method TakeClean(c: BufferCache, k: Key) returns (b: nat)
    requires c.Valid() && k.dev != NoDev && k !in c.index && c.free != []
    requires c.free[0] < |c.bufs| && !c.bufs[c.free[0]].dirty
    modifies c
    ensures c.Valid() && b == old(c.free[0]) && c.free == old(c.free[1..])
    ensures c.Now() == Recycled(old(c.Now()), b, k) && c.orderly == (old(c.orderly) && !Queued(old(c.queue), b))
  {
    hide Agrees, Shape, Chained, SameLogical, Queued;
    b := c.free[0];
    WithoutHead(c.free);
    ghost var inOrder;
    var o;
    o, inOrder := c.GetblkOnce(k);
  }

  /** A whole block written without reading it first, with a clean buffer at the head of the free list. */
  method PutAside(c: BufferCache, k: Key, d: Block) returns (b: nat)
    requires c.Valid() && k.dev != NoDev && k !in c.index && c.free != []
    requires c.free[0] < |c.bufs| && !c.bufs[c.free[0]].dirty && !Queued(c.queue, c.free[0])
    modifies c
    ensures c.Valid() && c.orderly == old(c.orderly) && c.queue == old(c.queue) && c.disk == old(c.disk)
    ensures b == old(c.free[0]) && c.free == old(c.free[1..]) + [b]
    ensures c.bufs == old(c.bufs)[b := Buf(k, false, true, true, true, false, d)]
    ensures c.index == Unhashed(old(c.Now()), b)[k := b]
  {
    hide BufferCache.Valid, SameLogical, Logical;
    assert !ReadQueued(c.queue, c.free[0]);
    b := TakeClean(c, k);
    c.Fill(b, d);
    c.Release(b);
  }

  /** getblk of a block that is not hashed, with a dirty buffer at the head of the free list. */
  method PushOut(c: BufferCache, k: Key) returns (b: nat)
    requires c.Valid() && k.dev != NoDev && k !in c.index && c.free != []
    requires c.free[0] < |c.bufs| && c.bufs[c.free[0]].dirty
    modifies c
    ensures c.Valid() && b == old(c.free[0]) && c.free == old(c.free[1..])
    ensures
      var x := old(c.bufs)[b];
      && c.Now() == WriteQueued(old(c.Now()), c.sector, b,
                                x.(busy := true, asy := true, dirty := false, read := false), true)
      && c.orderly == (old(c.orderly) && !Overtaken(old(c.queue), c.sector(x.key)))
  {
    hide Agrees, Shape, Chained, SameLogical, Overtaken, WriteQueued;
    b := c.free[0];
    WithoutHead(c.free);
    ghost var inOrder;
    var o;
    o, inOrder := c.GetblkOnce(k);
  }

  /** While a block is read, another one is written. */
  method ReadAndWritten(sector: Key -> nat, disk: map<Key, Block>, blank: Block, low: Key, k: Key, d: Block)
    returns (c: BufferCache)
    requires low.dev != NoDev && k.dev != NoDev && low != k
    ensures fresh(c) && c.Valid() && c.sector == sector && c.free == [0, 1] && |c.bufs| == 3
    ensures c.bufs[0].key.dev == NoDev && !c.bufs[0].dirty && c.bufs[1] == Buf(k, false, true, true, true, false, d)
    ensures c.index == map[low := 2, k := 1] && c.queue == [Request(2, low, sector(low), false)]
  {
    hide BufferCache.Valid, SameLogical, Settled, Logical, Overtaken;
    c := new BufferCache(3, sector, disk, blank);
    assert c.free == [2, 1, 0];
    var b := TakeClean(c, low);
    c.IssueRead(b);
    assert c.queue == [Request(2, low, sector(low), false)];
    b := PutAside(c, k, d);
  }

  /** That one, with a higher sector, is pushed out. */
  method PushedOut(sector: Key -> nat, disk: map<Key, Block>, blank: Block, low: Key, k: Key, x: Key, y: Key, d: Block)
    returns (c: BufferCache)
    requires low.dev != NoDev && k.dev != NoDev && x.dev != NoDev && y.dev != NoDev
    requires low != k && low != x && low != y && k != x && k != y && x != y
    ensures fresh(c) && c.Valid() && c.sector == sector && c.free == [0] && |c.bufs| == 3 && !c.bufs[0].dirty
    ensures c.index.Keys == {low, x} && c.bufs[1].data == d
    ensures c.queue == [Request(2, low, sector(low), false), Request(1, k, sector(k), true)]
  {
    hide BufferCache.Valid, SameLogical, Settled, Logical, Overtaken;
    c := ReadAndWritten(sector, disk, blank, low, k, d);
    var b := TakeClean(c, x);
    c.Release(b);
    b := PushOut(c, y);
  }

  /** Written again in the other buffer and pushed out, the block's second request goes in before its first. */
  method PushedOutAgain(c: BufferCache, low: Key, k: Key, y: Key, d: Block)
    requires c.Valid() && c.free == [0] && |c.bufs| == 3 && !c.bufs[0].dirty && k.dev != NoDev && y.dev != NoDev
    requires k !in c.index && y !in c.index && k != y && c.sector(low) < c.sector(k)
    requires c.queue == [Request(2, low, c.sector(low), false), Request(1, k, c.sector(k), true)]
    modifies c
    ensures c.Valid() && !c.orderly && |c.bufs| == 3 && k !in c.index
    ensures c.bufs[1] == old(c.bufs[1]) && c.bufs[0].data == d
    ensures c.queue == [Request(2, low, c.sector(low), false), Request(0, k, c.sector(k), true),
                        Request(1, k, c.sector(k), true)]
  {
    hide BufferCache.Valid, SameLogical, Settled, Logical;
    ghost var queue := c.queue;
    var b := PutAside(c, k, d);
    assert Fits(queue, c.sector(k), 1);
    assert queue[0].sec < c.sector(k) == queue[1].sec;
    b := PushOut(c, y);
  }

  /**
   A block is read, and its request is in service. Meanwhile another block, with a higher sector, is
   written, pushed out, written again in another buffer and pushed out again. When all requests are
   served, the block is what was written first.
   */
  method PushedOutTwice(sector: Key -> nat, disk: map<Key, Block>, blank: Block, low: Key, k: Key, x: Key, y: Key,
                        d1: Block, d2: Block) returns (c: BufferCache)
    requires low.dev != NoDev && k.dev != NoDev && x.dev != NoDev && y.dev != NoDev
    requires low != k && low != x && low != y && k != x && k != y && x != y && sector(low) < sector(k)
    ensures fresh(c) && c.Valid() && !c.orderly && c.queue == [] && Logical(c.Now(), k) == d1
  {
    hide BufferCache.Valid, SameLogical;
    c := PushedOut(sector, disk, blank, low, k, x, y, d1);
    PushedOutAgain(c, low, k, y, d2);
    var r := c.Complete();
    r := c.Complete();
    r := c.Complete();
  }

  /**
   A block is written and synced: bsync releases the buffer with its write still queued. Recycled at
   once, the buffer shows the old block's data as the new block when that write ends.
   */
  method SyncedThenRecycled(sector: Key -> nat, disk: map<Key, Block>, blank: Block, k: Key, d: Block, k': Key)
    returns (c: BufferCache)
    requires k != k' && k.dev != NoDev && k'.dev != NoDev
    ensures fresh(c) && c.Valid() && !c.orderly && c.queue == [] && c.disk == disk[k := d]
    ensures Logical(c.Now(), k') == d
  {
    hide Agrees, Chained, FreeList, Shape, Settled;
    c := new BufferCache(1, sector, disk, blank);
    var b := PutAside(c, k, d);
    c.SyncOne(b);
    assert c.queue == [Request(b, k, sector(k), true)];
    assert c.queue[0].buf == b;
    c.Recycle(b, k');
    var r := c.Complete();
  }
}
