/**
 The buffer cache of fs/buffer.c over the disk driver's request queue. A method runs from one
 point where a process may sleep to the next, so any interleaving of processes and disk
 interrupts is a sequence of calls; a process that must sleep gets that as the answer.
 Transfers succeed, and take effect when they end.
 */
module BufferCache {
  import opened Blocks
  import opened RequestQueue
  import opened CacheViews
  import opened Sequences

  const NrHash: nat := 2048

  /** How one pass of getblk ends. */
  datatype Outcome =
    | Got(b: nat)        // the caller holds buffer b for the block
    | MustWait(b: nat)   // someone else holds it
    | NoneFree           // every buffer is held
    | Evicting(b: nat)   // a dirty buffer is on its way to the disk; try again

  function HashOf(k: Key): (h: nat)
    ensures h < NrHash
  {
    ((k.block % 0x1_0000_0000) as bv32 ^ (k.dev % 0x1_0000_0000) as bv32) as nat % NrHash
  }

  /** list_del1 on a list that b may not be in. */
  function Without(list: seq<nat>, b: nat): (r: seq<nat>)
    ensures forall x :: x in r <==> x in list && x != b
    ensures |r| <= |list| && (b in list ==> |r| < |list|)
  {
    if list == [] then []
    else if list[0] == b then Without(list[1..], b)
    else [list[0]] + Without(list[1..], b)
  }

  lemma {:induction false} WithoutDistinct(list: seq<nat>, b: nat)
    requires Distinct(list)
    ensures Distinct(Without(list, b))
  {
    if list != [] {
      WithoutDistinct(list[1..], b);
      assert list[0] !in list[1..];
    }
  }

  lemma {:induction false} WithoutAbsent(list: seq<nat>, b: nat)
    requires b !in list
    ensures Without(list, b) == list
  {
    if list != [] {
      WithoutAbsent(list[1..], b);
    }
  }

  lemma UnhashedIndexed(v: View, b: nat, v': View)
    requires Indexed(v) && b < |v.bufs| == |v'.bufs| && v'.bufs == v.bufs[b := v'.bufs[b]] && v'.index == Unhashed(v, b)
    ensures Indexed(v')
  {
  }

  /** The chains hold the indexed buffers, each once, in the chain of its block. */
  ghost predicate Chained(bufs: seq<Buf>, chains: seq<seq<nat>>, index: map<Key, nat>) {
    && |chains| == NrHash
    && (forall k :: k in index ==> index[k] in chains[HashOf(k)])
    && (forall h, b: nat {:trigger b in chains[h]} :: 0 <= h < NrHash && b in chains[h] ==>
          b < |bufs| && bufs[b].key in index && index[bufs[b].key] == b && HashOf(bufs[b].key) == h)
    && (forall h :: 0 <= h < NrHash ==> Distinct(chains[h]))
  }

  /** The free list holds the buffers that are not busy, each once; B_ASY is set on busy buffers only. */
  ghost predicate FreeList(bufs: seq<Buf>, free: seq<nat>) {
    && Distinct(free)
    && (forall b: nat :: b in free <==> b < |bufs| && !bufs[b].busy)
    && (forall b :: 0 <= b < |bufs| && bufs[b].asy ==> bufs[b].busy)
  }

  lemma ChainedSameKey(bufs: seq<Buf>, chains: seq<seq<nat>>, index: map<Key, nat>, b: nat, x: Buf)
    requires Chained(bufs, chains, index) && b < |bufs| && x.key == bufs[b].key
    ensures Chained(bufs[b := x], chains, index)
  {
    hide HashOf, Distinct;
  }

  /** Unlinking buffer b from its chain, whether or not it is there. */
  lemma ChainedUnlink(v: View, chains: seq<seq<nat>>, b: nat, x: Buf)
    requires Indexed(v) && Chained(v.bufs, chains, v.index) && b < |v.bufs|
    ensures
      var h := HashOf(v.bufs[b].key);
      var chains' := chains[h := Without(chains[h], b)];
      Chained(v.bufs[b := x], chains', Unhashed(v, b)) && forall g :: 0 <= g < NrHash ==> b !in chains'[g]
  {
    hide HashOf, Distinct, Without, Chained, Indexed;
    ChainedSizes(v.bufs, chains, v.index);
    var h := HashOf(v.bufs[b].key);
    var chains' := chains[h := Without(chains[h], b)];
    forall g, c: nat {:trigger c in chains'[g]} | 0 <= g < NrHash
      ensures c in chains'[g] <==> c in chains[g] && c != b
    {
      UnlinkedAt(v.bufs, chains, v.index, b, g, c);
    }
    forall g | 0 <= g < NrHash ensures Distinct(chains'[g]) {
      WithoutDistinct(chains[h], b);
    }
    ChainedFewer(v, chains, chains', b, x);
  }

  lemma ChainedSizes(bufs: seq<Buf>, chains: seq<seq<nat>>, index: map<Key, nat>)
    requires Chained(bufs, chains, index)
    ensures |chains| == NrHash && forall g :: 0 <= g < NrHash ==> Distinct(chains[g])
  {
  }

  lemma UnlinkedAt(bufs: seq<Buf>, chains: seq<seq<nat>>, index: map<Key, nat>, b: nat, g: nat, c: nat)
    requires Chained(bufs, chains, index) && b < |bufs| && g < NrHash
    ensures
      var h := HashOf(bufs[b].key);
      c in chains[h := Without(chains[h], b)][g] <==> c in chains[g] && c != b
  {
    hide HashOf, Distinct, Without;
  }

  lemma ChainedFewer(v: View, chains: seq<seq<nat>>, chains': seq<seq<nat>>, b: nat, x: Buf)
    requires Indexed(v) && Chained(v.bufs, chains, v.index) && b < |v.bufs|
    requires |chains'| == NrHash && forall g :: 0 <= g < NrHash ==> Distinct(chains'[g])
    requires forall g, c: nat {:trigger c in chains'[g]} :: 0 <= g < NrHash ==>
      (c in chains'[g] <==> c in chains[g] && c != b)
    ensures Chained(v.bufs[b := x], chains', Unhashed(v, b))
  {
    hide HashOf, Distinct;
  }

  /** Linking a buffer that is in no chain into the chain of its new block. */
  lemma ChainedLink(bufs: seq<Buf>, chains: seq<seq<nat>>, index: map<Key, nat>, b: nat, x: Buf)
    requires Chained(bufs, chains, index) && b < |bufs| && x.key !in index
    requires forall g :: 0 <= g < NrHash ==> b !in chains[g]
    ensures
      var h := HashOf(x.key);
      Chained(bufs[b := x], chains[h := [b] + chains[h]], index[x.key := b])
  {
    hide HashOf;
  }

  lemma FreeListTake(bufs: seq<Buf>, free: seq<nat>, b: nat, x: Buf)
    requires FreeList(bufs, free) && b < |bufs| && x.busy
    ensures FreeList(bufs[b := x], Without(free, b))
  {
    hide Distinct, Without;
    WithoutDistinct(free, b);
  }

  lemma FreeListPut(bufs: seq<Buf>, free: seq<nat>, b: nat, x: Buf)
    requires FreeList(bufs, free) && b < |bufs| && bufs[b].busy && !x.busy && !x.asy
    ensures FreeList(bufs[b := x], free + [b])
  {
  }

  lemma FreeListSame(bufs: seq<Buf>, free: seq<nat>, b: nat, x: Buf)
    requires FreeList(bufs, free) && b < |bufs| && x.busy == bufs[b].busy && (x.asy ==> x.busy)
    ensures FreeList(bufs[b := x], free)
  {
    hide Distinct;
  }

  /** What one pass of getblk for block k answers and leaves, and whether it kept the order of requests. */
  ghost predicate GetblkStep(v: View, free: seq<nat>, sector: Key -> nat, k: Key, o: Outcome, inOrder: bool, v': View,
      free': seq<nat>) {
    match o
    case MustWait(b) =>
      k in v.index && v.index[k] == b < |v.bufs| && v.bufs[b].busy && v' == v && free' == free && inOrder
    case NoneFree =>
      k !in v.index && free == [] && v' == v && free' == free && inOrder
    case Got(b) =>
      && b < |v.bufs| && !v.bufs[b].busy && free' == Without(free, b)
      && if k in v.index then
           v.index[k] == b && v' == v.(bufs := v.bufs[b := v.bufs[b].(busy := true)]) && inOrder
         else
           free != [] && b == free[0] && !v.bufs[b].dirty && v' == Recycled(v, b, k) && inOrder == !Queued(v.queue, b)
    case Evicting(b) =>
      && k !in v.index && free != [] && b == free[0] && b < |v.bufs| && v.bufs[b].dirty && free' == Without(free, b)
      && v' == WriteQueued(v, sector, b, v.bufs[b].(busy := true, asy := true, dirty := false, read := false), true)
      && inOrder == !Overtaken(v.queue, sector(v.bufs[b].key))
  }

  /** Getting block k disturbs no order: it is hashed, or the free list is in order. */
  ghost predicate KeepsOrder(v: View, free: seq<nat>, sector: Key -> nat, k: Key) {
    k in v.index || InOrder(v, sector, free)
  }

  /** Block k can be had without sleeping: its buffer is not busy, or there is a clean one to recycle. */
  ghost predicate CanGet(v: View, free: seq<nat>, k: Key) {
    if k in v.index then v.index[k] < |v.bufs| && !v.bufs[v.index[k]].busy
    else exists b :: b in free && b < |v.bufs| && !v.bufs[b].dirty
  }

  lemma WithoutHead(list: seq<nat>)
    requires Distinct(list) && list != []
    ensures Without(list, list[0]) == list[1..] && list[0] !in list[1..]
  {
    WithoutAbsent(list[1..], list[0]);
  }

  /** What is in order before a pass of getblk is in order after it, exactly if the pass kept the order. */
  lemma PassOrder(v: View, free: seq<nat>, sector: Key -> nat, k: Key, o: Outcome, inOrder: bool, v': View,
      free': seq<nat>)
    requires GetblkStep(v, free, sector, k, o, inOrder, v', free') && Apart(v, sector) && FreeList(v.bufs, free)
    ensures KeepsOrder(v, free, sector, k) <==> inOrder && (o.Evicting? ==> KeepsOrder(v', free', sector, k))
    ensures o.Evicting? ==> Apart(v', sector)
  {
    hide Overtaken, Queued, Insert, Without, Distinct, Apart;
    if o.Evicting? {
      WithoutHead(free);
      var x := v.bufs[o.b].(busy := true, asy := true, dirty := false, read := false);
      WriteKeepsApart(v, sector, o.b, x, true);
      WriteKeepsInOrder(v, sector, o.b, x, true, free[1..]);
    }
  }

  lemma PassGets(v: View, free: seq<nat>, sector: Key -> nat, k: Key, o: Outcome, inOrder: bool, v': View,
      free': seq<nat>)
    requires GetblkStep(v, free, sector, k, o, inOrder, v', free') && FreeList(v.bufs, free) && Indexed(v)
    ensures CanGet(v, free, k) <==> if o.Evicting? then CanGet(v', free', k) else o.Got?
    ensures (o.Evicting? ==> k !in v.index && k !in v'.index) && (o.MustWait? ==> k in v.index)
    ensures o.Got? ==> o.b < |v'.bufs| && v'.bufs[o.b].done == (k in v.index && v.bufs[o.b].done)
    ensures o.Got? && k in v.index ==> o.b == v.index[k]
  {
    hide Overtaken, Queued, Insert, Distinct;
    if o.Got? && k !in v.index {
      assert o.b in free;
    }
  }

  /** A pass of getblk for block k does not change whether a read of it would overtake. */
  lemma PassOvertaken(v: View, free: seq<nat>, sector: Key -> nat, k: Key, o: Outcome, inOrder: bool, v': View,
      free': seq<nat>)
    requires GetblkStep(v, free, sector, k, o, inOrder, v', free') && ApartFrom(v, sector, k) && DirtyHashed(v)
    ensures Overtaken(v'.queue, sector(k)) <==> Overtaken(v.queue, sector(k))
    ensures o.Evicting? ==> ApartFrom(v', sector, k)
  {
    hide Overtaken, Queued, Insert, Without;
    if o.Evicting? {
      var key := v.bufs[o.b].key;
      InsertOvertaken(v.queue, Request(o.b, key, sector(key), true), sector(k));
      WriteKeepsApart(v, sector, o.b, v.bufs[o.b].(busy := true, asy := true, dirty := false, read := false), true);
    }
  }

  /**
   What getting a block adds to the cache is for that block, and the buffers that have become
   busy are the one that was got and those on their way to the disk.
   */
  ghost predicate OnlyFor(v: View, k: Key, o: Outcome, v': View) {
    && |v'.bufs| == |v.bufs|
    && (forall k' :: k' in v'.index ==> k' in v.index || k' == k)
    && (forall b :: 0 <= b < |v.bufs| && v'.bufs[b].busy && !(o.Got? && b == o.b) ==>
          v.bufs[b].busy || (v'.bufs[b].asy && !v'.bufs[b].dirty && Queued(v'.queue, b)))
    && (o.Got? ==> o.b < |v'.bufs| && !v'.bufs[o.b].asy)
  }

  lemma PassOnlyFor(v: View, free: seq<nat>, sector: Key -> nat, k: Key, o: Outcome, inOrder: bool, v': View,
      free': seq<nat>)
    requires GetblkStep(v, free, sector, k, o, inOrder, v', free') && FreeList(v.bufs, free)
    ensures OnlyFor(v, k, o, v')
    ensures forall b :: 0 <= b < |v.bufs| && v.bufs[b].busy ==> v'.bufs[b] == v.bufs[b]
    ensures forall b :: 0 <= b < |v.bufs| && v.bufs[b].busy && Queued(v.queue, b) ==> Queued(v'.queue, b)
  {
    hide Insert, Overtaken, Without, Queued;
    if o.Evicting? {
      assert o.b in free;
      var r := Request(o.b, v.bufs[o.b].key, sector(v.bufs[o.b].key), true);
      InsertedQueued(v.queue, r);
      forall b | 0 <= b < |v.bufs| && v.bufs[b].busy ensures Queued(v'.queue, b) <==> Queued(v.queue, b) {
        InsertOthersQueued(v.queue, r, b);
      }
    }
  }

  lemma InsertedQueued(queue: seq<Request>, r: Request)
    ensures Queued(Insert(queue, r), r.buf)
  {
    InsertedAt(queue, r, Place(queue, r.sec));
    assert Insert(queue, r)[Place(queue, r.sec)].buf == r.buf;
  }

  lemma OnlyForTrans(v: View, k: Key, o1: Outcome, v1: View, free1: seq<nat>, sector: Key -> nat, o: Outcome,
      inOrder: bool, v2: View, free2: seq<nat>)
    requires OnlyFor(v, k, o1, v1) && !o1.Got? && FreeList(v1.bufs, free1)
    requires GetblkStep(v1, free1, sector, k, o, inOrder, v2, free2)
    ensures OnlyFor(v, k, o, v2)
  {
    hide Queued, GetblkStep, FreeList;
    PassOnlyFor(v1, free1, sector, k, o, inOrder, v2, free2);
  }

  lemma OnlyForRead(v: View, k: Key, o: Outcome, v': View, r: Request)
    requires OnlyFor(v, k, o, v') && o.Got? && r.buf == o.b
    ensures OnlyFor(v, k, o, v'.(queue := Insert(v'.queue, r)))
  {
    hide Queued, Insert;
    forall b | 0 <= b < |v.bufs| && b != r.buf ensures Queued(Insert(v'.queue, r), b) <==> Queued(v'.queue, b) {
      InsertOthersQueued(v'.queue, r, b);
    }
  }

  lemma PassFacts(v: View, free: seq<nat>, sector: Key -> nat, k: Key, o: Outcome, inOrder: bool, v': View,
      free': seq<nat>)
    requires GetblkStep(v, free, sector, k, o, inOrder, v', free')
    requires FreeList(v.bufs, free) && Indexed(v) && DirtyHashed(v)
    ensures |v'.bufs| == |v.bufs| && v'.disk == v.disk && |free'| <= |free| && (o.Evicting? ==> |free'| < |free|)
    ensures Apart(v, sector) ==>
      && (KeepsOrder(v, free, sector, k) <==> inOrder && (o.Evicting? ==> KeepsOrder(v', free', sector, k)))
      && (o.Evicting? ==> Apart(v', sector))
    ensures CanGet(v, free, k) <==> if o.Evicting? then CanGet(v', free', k) else o.Got?
    ensures (o.Evicting? ==> k !in v.index && k !in v'.index) && (o.MustWait? ==> k in v.index)
    ensures o.Got? ==> o.b < |v'.bufs| && v'.bufs[o.b].done == (k in v.index && v.bufs[o.b].done)
    ensures o.Got? && k in v.index ==> o.b == v.index[k]
    ensures ApartFrom(v, sector, k) ==>
      && (Overtaken(v'.queue, sector(k)) <==> Overtaken(v.queue, sector(k)))
      && (o.Evicting? ==> ApartFrom(v', sector, k))
  {
    PassGets(v, free, sector, k, o, inOrder, v', free');
    if Apart(v, sector) {
      PassOrder(v, free, sector, k, o, inOrder, v', free');
    }
    if ApartFrom(v, sector, k) {
      PassOvertaken(v, free, sector, k, o, inOrder, v', free');
    }
    assert o.Evicting? ==> o.b in free;
    hide *;
  }

  /** The buffers in the order that adding each at the head leaves them in. */
  function Down(n: nat): (r: seq<nat>)
    ensures |r| == n && (forall b :: b in r <==> 0 <= b < n) && (forall i :: 0 <= i < n ==> r[i] == n - 1 - i)
  {
    if n == 0 then [] else [n - 1] + Down(n - 1)
  }

  lemma NothingHashed(bufs: seq<Buf>, chains: seq<seq<nat>>)
    requires |chains| == NrHash && forall h :: 0 <= h < NrHash ==> chains[h] == []
    ensures Chained(bufs, chains, map[])
  {
  }

  lemma AllFree(bufs: seq<Buf>)
    requires forall b :: 0 <= b < |bufs| ==> !bufs[b].busy && !bufs[b].asy
    ensures FreeList(bufs, Down(|bufs|))
  {
  }

  lemma NothingCached(v: View, sector: Key -> nat)
    requires v.index == map[] && v.queue == [] && forall b :: 0 <= b < |v.bufs| ==> !v.bufs[b].dirty
    ensures Shape(v, sector) && Agrees(v)
    ensures forall k :: Logical(v, k) == if k in v.disk then v.disk[k] else ZeroBlock()
  {
  }

  class BufferCache {
    const sector: Key -> nat
    var bufs: seq<Buf>
    var chains: seq<seq<nat>>
    var free: seq<nat>
    var queue: seq<Request>
    var disk: map<Key, Block>
    /** The hashed buffer of each block that has one. */
    ghost var index: map<Key, nat>
    /** No request has overtaken another for the same block, and no buffer was recycled with a request queued. */
    ghost var orderly: bool

    ghost function Now(): View
      reads this
    {
      View(bufs, index, queue, disk)
    }

    ghost predicate Lists()
      reads this
    {
      Chained(bufs, chains, index) && FreeList(bufs, free)
    }

    ghost predicate Valid()
      reads this
    {
      Lists() && Shape(Now(), sector) && (orderly ==> Agrees(Now()))
    }

    /** buf_init: no buffer holds a block, and all are free. */
    constructor (n: nat, sector: Key -> nat, disk: map<Key, Block>, blank: Block)
      ensures Valid() && orderly && this.sector == sector && this.disk == disk
      ensures |bufs| == n
      ensures forall b :: 0 <= b < n ==> bufs[b] == Buf(Key(NoDev, 0), false, false, false, false, false, blank)
      ensures free == Down(n) && queue == [] && index == map[]
      ensures forall k :: Logical(Now(), k) == if k in disk then disk[k] else ZeroBlock()
    {
      this.sector, this.disk := sector, disk;
      bufs := seq(n, _ => Buf(Key(NoDev, 0), false, false, false, false, false, blank));
      chains := seq(NrHash, _ => []);
      free := Down(n);
      queue, index, orderly := [], map[], true;
      new;
      hide Chained, FreeList, Shape, Agrees;
      NothingHashed(bufs, chains);
      AllFree(bufs);
      NothingCached(Now(), sector);
    }

    /** getblk_from_hash. */
    method Find(k: Key) returns (found: bool, b: nat)
      requires Lists() && Indexed(Now())
      ensures found <==> k in index
      ensures found ==> b == index[k] && b < |bufs|
    {
      hide HashOf, Distinct, FreeList;
      var chain := chains[HashOf(k)];
      forall j | 0 <= j < |chain|
        ensures chain[j] < |bufs| && bufs[chain[j]].key in index && index[bufs[chain[j]].key] == chain[j]
      {
        assert chain[j] in chain;
      }
      found, b := false, 0;
      for i := 0 to |chain|
        invariant found ==> b in chain && bufs[b].key == k
        invariant !found ==> forall j :: 0 <= j < i ==> bufs[chain[j]].key != k
      {
        if !found && bufs[chain[i]].key == k {
          found, b := true, chain[i];
        }
      }
    }

    /** notavail: takes a buffer off the free list and, on demand, out of the hash table. */
    method Notavail(b: nat, unhash: bool)
      requires Lists() && Indexed(Now()) && b < |bufs|
      modifies `bufs, `chains, `free, `index
      ensures Lists() && (!unhash ==> chains == old(chains))
      ensures bufs == old(bufs[b := bufs[b].(busy := true)])
      ensures free == Without(old(free), b)
      ensures index == if unhash then Unhashed(old(Now()), b) else old(index)
      ensures unhash ==> forall g :: 0 <= g < NrHash ==> b !in chains[g]
    {
      hide HashOf, Distinct, FreeList, Without, Chained, Indexed;
      var x := bufs[b].(busy := true);
      FreeListTake(bufs, free, b, x);
      if unhash {
        ChainedUnlink(Now(), chains, b, x);
        ChainedSizes(bufs, chains, index);
        var h := HashOf(bufs[b].key);
        chains := chains[h := Without(chains[h], b)];
        index := Unhashed(Now(), b);
      } else {
        ChainedSameKey(bufs, chains, index, b, x);
      }
      bufs := bufs[b := x];
      free := Without(free, b);
    }

    /** putblk_to_hash, after the buffer was given to its block. */
    method PutInHash(b: nat, x: Buf)
      requires Lists() && b < |bufs| && bufs[b].busy && x.busy && x.key !in index
      requires forall g :: 0 <= g < NrHash ==> b !in chains[g]
      modifies `bufs, `chains, `index
      ensures Lists() && bufs == old(bufs)[b := x] && index == old(index)[x.key := b]
    {
      hide HashOf, Distinct, FreeList, Chained;
      ChainedSizes(bufs, chains, index);
      ChainedLink(bufs, chains, index, b, x);
      FreeListSame(bufs, free, b, x);
      var h := HashOf(x.key);
      bufs := bufs[b := x];
      chains := chains[h := [b] + chains[h]];
      index := index[x.key := b];
    }

    /** brelse: a busy buffer goes to the end of the free list. */
    method Brelse(b: nat)
      requires Lists() && b < |bufs|
      modifies `bufs, `free
      ensures Lists()
      ensures bufs == if old(bufs[b].busy) then old(bufs)[b := old(bufs[b]).(busy := false, asy := false)]
        else old(bufs)
      ensures free == if old(bufs[b].busy) then old(free) + [b] else old(free)
    {
      hide FreeList, Chained;
      if bufs[b].busy {
        var x := bufs[b].(busy := false, asy := false);
        ChainedSameKey(bufs, chains, index, b, x);
        FreeListPut(bufs, free, b, x);
        bufs := bufs[b := x];
        free := free + [b];
      }
    }

    /**
     bwrite on a busy buffer. A synchronous write should wait for the transfer, but iowait
     returns at once if B_DONE is set from before, and then the buffer is released.
     */
    method Bwrite(b: nat) returns (waits: bool)
      requires Lists() && b < |bufs| && bufs[b].busy
      modifies `bufs, `free, `queue
      ensures Lists() && queue == Insert(old(queue), Request(b, old(bufs[b].key), sector(old(bufs[b].key)), true))
      ensures
        var y := old(bufs[b]).(read := false, dirty := false);
        && waits == (!y.asy && !y.done)
        && bufs == old(bufs)[b := if y.asy || waits then y else y.(busy := false, asy := false)]
        && free == if y.asy || waits then old(free) else old(free) + [b]
    {
      hide FreeList, Chained;
      var x := bufs[b].(read := false, dirty := false);
      ChainedSameKey(bufs, chains, index, b, x);
      FreeListSame(bufs, free, b, x);
      bufs := bufs[b := x];
      queue := Enqueue(queue, Request(b, x.key, sector(x.key), true));
      waits := !x.asy && !x.done;
      if !x.asy && x.done {
        Brelse(b);
      }
    }

    /** B_ASY set and B_DIRTY cleared. */
    method MarkAsync(b: nat)
      requires Lists() && b < |bufs| && bufs[b].busy
      modifies `bufs
      ensures Lists() && bufs == old(bufs)[b := old(bufs[b]).(asy := true, dirty := false)]
    {
      hide FreeList, Chained;
      var x := bufs[b].(asy := true, dirty := false);
      ChainedSameKey(bufs, chains, index, b, x);
      FreeListSame(bufs, free, b, x);
      bufs := bufs[b := x];
    }

    /** getblk on a hashed buffer that is not busy. */
    method Claim(b: nat)
      requires Valid() && b < |bufs| && !bufs[b].busy
      modifies `bufs, `chains, `free, `index
      ensures Valid() && SameLogical(old(Now()), Now())
      ensures bufs == old(bufs[b := bufs[b].(busy := true)]) && index == old(index) && free == Without(old(free), b)
    {
      hide Lists, Agrees, Shape, SameLogical;
      ShapeParts(Now(), sector);
      FlagStep(Now(), sector, b, bufs[b].(busy := true));
      Notavail(b, false);
    }

    /** getblk on a dirty buffer from the free list: it leaves the hash table and is written. */
    method Evict(b: nat)
      requires Valid() && b < |bufs| && !bufs[b].busy && bufs[b].dirty
      modifies `bufs, `chains, `free, `index, `queue, `orderly
      ensures Valid()
      ensures orderly == (old(orderly) && !Overtaken(old(queue), sector(old(bufs[b].key))))
      ensures orderly ==> SameLogical(old(Now()), Now())
      ensures bufs == old(bufs)[b := old(bufs[b]).(busy := true, asy := true, dirty := false, read := false)]
      ensures index == old(index) - {old(bufs[b].key)} && free == Without(old(free), b)
      ensures queue == Insert(old(queue), Request(b, old(bufs[b].key), sector(old(bufs[b].key)), true))
    {
      hide Agrees, Shape, SameLogical, Insert, Overtaken, Without, Chained, FreeList, Indexed;
      ghost var v := Now();
      ShapeParts(v, sector);
      ghost var x := bufs[b].(busy := true, asy := true, dirty := false, read := false);
      WriteStep(v, sector, b, x, true);
      Notavail(b, true);
      MarkAsync(b);
      UnhashedIndexed(v, b, Now());
      WithoutAbsent(free, b);
      Notavail(b, false);
      var waits := Bwrite(b);
      orderly := orderly && !Overtaken(v.queue, sector(x.key));
      assert Now() == WriteQueued(v, sector, b, x, true);
    }

    /** getblk on a clean buffer from the free list: it changes blocks. */
    method Recycle(b: nat, k: Key)
      requires Valid() && b < |bufs| && !bufs[b].busy && !bufs[b].dirty && k !in index && k.dev != NoDev
      modifies `bufs, `chains, `free, `index, `orderly
      ensures Valid()
      ensures orderly == (old(orderly) && !Queued(old(queue), b))
      ensures orderly ==> SameLogical(old(Now()), Now())
      ensures Now() == Recycled(old(Now()), b, k) && free == Without(old(free), b)
    {
      hide Agrees, Shape, SameLogical, Queued, Without, Chained, FreeList, Indexed;
      ghost var v := Now();
      ShapeParts(v, sector);
      RecycleStep(v, sector, b, k);
      Notavail(b, true);
      PutInHash(b, Buf(k, true, false, false, true, false, bufs[b].data));
      orderly := orderly && !Queued(v.queue, b);
      assert Now() == Recycled(v, b, k);
    }

    /** One pass of getblk's loop. */
    method GetblkOnce(k: Key) returns (o: Outcome, ghost inOrder: bool)
      requires Valid() && k.dev != NoDev
      modifies `bufs, `chains, `free, `index, `queue, `orderly
      ensures Valid() && GetblkStep(old(Now()), old(free), sector, k, o, inOrder, Now(), free)
      ensures orderly == (old(orderly) && inOrder) && (orderly ==> SameLogical(old(Now()), Now()))
    {
      hide Agrees, SameLogical, Queued, Overtaken, Insert, Without, Chained, Addressed, HashOf, Distinct, Logical;
      inOrder := true;
      var found, b := Find(k);
      LogicalRefl(Now());
      if found {
        if bufs[b].busy {
          o := MustWait(b);
        } else {
          Claim(b);
          o := Got(b);
        }
      } else if free == [] {
        o := NoneFree;
      } else {
        b := free[0];
        assert b in free;
        if bufs[b].dirty {
          inOrder := !Overtaken(queue, sector(bufs[b].key));
          Evict(b);
          o := Evicting(b);
        } else {
          inOrder := !Queued(queue, b);
          Recycle(b, k);
          o := Got(b);
        }
      }
    }

    /**
     getblk, up to where the caller holds the buffer or must sleep. Its evictions leave every
     logical block as it was as long as requests stay in order.
     */
    method Getblk(k: Key) returns (o: Outcome)
      requires Valid() && k.dev != NoDev
      modifies `bufs, `chains, `free, `index, `queue, `orderly
      ensures Valid() && |bufs| == old(|bufs|) && disk == old(disk)
      ensures orderly ==> old(orderly) && SameLogical(old(Now()), Now())
      ensures Apart(old(Now()), sector) ==> orderly == (old(orderly) && KeepsOrder(old(Now()), old(free), sector, k))
      ensures !o.Evicting? && (o.Got? <==> CanGet(old(Now()), old(free), k))
      ensures o.Got? ==> k in index && index[k] == o.b < |bufs| && bufs[o.b].busy && bufs[o.b].key == k
      ensures o.Got? ==> bufs[o.b].done == (k in old(index) && old(bufs)[o.b].done)
      ensures o.Got? && k in old(index) ==> o.b == old(index)[k]
      ensures o.Got? && orderly ==> !ReadQueued(queue, o.b)
      ensures OnlyFor(old(Now()), k, o, Now())
      ensures ApartFrom(old(Now()), sector, k) ==> (Overtaken(queue, sector(k)) <==> Overtaken(old(queue), sector(k)))
      ensures o.MustWait? ==> k in old(index) && k in index && index[k] == o.b < |bufs| && bufs[o.b].busy
      ensures o.NoneFree? ==> k !in index && forall b :: 0 <= b < |bufs| ==> bufs[b].busy
    {
      hide Agrees, Shape, SameLogical, Queued, ReadQueued, Overtaken, Insert, Chained, FreeList;
      hide Apart, ApartFrom, KeepsOrder, CanGet, GetblkStep, Indexed, DirtyHashed, Addressed, OnlyFor;
      ghost var v, free0, inOrder := Now(), free, true;
      ShapeParts(v, sector);
      o, inOrder := GetblkOnce(k);
      PassFacts(v, free0, sector, k, o, inOrder, Now(), free);
      PassOnlyFor(v, free0, sector, k, o, inOrder, Now(), free);
      while o.Evicting?
        invariant Valid() && |bufs| == old(|bufs|) && disk == old(disk)
        invariant orderly ==> old(orderly) && SameLogical(old(Now()), Now())
        invariant GetblkStep(v, free0, sector, k, o, inOrder, Now(), free)
        invariant Shape(v, sector) && FreeList(v.bufs, free0) && (orderly ==> Agrees(v) && inOrder)
        invariant Apart(old(Now()), sector) ==>
          && (o.Evicting? ==> Apart(Now(), sector))
          && ((old(orderly) && KeepsOrder(old(Now()), old(free), sector, k)) <==>
              orderly && (o.Evicting? ==> KeepsOrder(Now(), free, sector, k)))
        invariant CanGet(old(Now()), old(free), k) <==> if o.Evicting? then CanGet(Now(), free, k) else o.Got?
        invariant (o.Evicting? ==> k !in old(index) && k !in index) && (o.MustWait? ==> k in old(index))
        invariant OnlyFor(old(Now()), k, o, Now())
        invariant o.Got? ==> o.b < |bufs| && bufs[o.b].done == (k in old(index) && old(bufs)[o.b].done)
        invariant o.Got? && k in old(index) ==> o.b == old(index)[k]
        invariant ApartFrom(old(Now()), sector, k) ==>
          && (o.Evicting? ==> ApartFrom(Now(), sector, k))
          && (Overtaken(queue, sector(k)) <==> Overtaken(old(queue), sector(k)))
        decreases |free|, o.Evicting?
      {
        ghost var o0 := o;
        v, free0 := Now(), free;
        ShapeParts(v, sector);
        o, inOrder := GetblkOnce(k);
        PassFacts(v, free0, sector, k, o, inOrder, Now(), free);
        OnlyForTrans(old(Now()), k, o0, v, free0, sector, o, inOrder, Now(), free);
        if orderly {
          SameLogicalTrans(old(Now()), v, Now());
        }
      }
      GotFacts(v, free0, sector, k, o, inOrder, Now(), free, orderly);
    }

    /** ll_rw_block: a read request for a claimed buffer without valid data. */
    method IssueRead(b: nat)
      requires Valid() && b < |bufs| && bufs[b].key in index && index[bufs[b].key] == b
      requires bufs[b].busy && !bufs[b].done && (orderly ==> !ReadQueued(queue, b))
      modifies `queue, `orderly
      ensures Valid() && queue == Insert(old(queue), Request(b, bufs[b].key, sector(bufs[b].key), false))
      ensures orderly == (old(orderly) && !Overtaken(old(queue), sector(bufs[b].key)))
      ensures orderly ==> SameLogical(old(Now()), Now())
      ensures ReadQueued(queue, b)
    {
      hide Agrees, Shape, SameLogical, ReadQueued, Overtaken, Insert, Chained, FreeList;
      var r := Request(b, bufs[b].key, sector(bufs[b].key), false);
      ReadStep(Now(), sector, b);
      InsertQueued(queue, r);
      orderly := orderly && !Overtaken(queue, r.sec);
      queue := Enqueue(queue, r);
      assert Now() == old(Now()).(queue := Insert(old(queue), r));
    }

    /** bread, up to where the caller holds valid data or must sleep. */
    method Bread(k: Key) returns (o: Outcome, ready: bool)
      requires Valid() && k.dev != NoDev
      modifies `bufs, `chains, `free, `index, `queue, `orderly
      ensures Valid() && |bufs| == old(|bufs|) && disk == old(disk)
      ensures orderly ==> old(orderly) && SameLogical(old(Now()), Now())
      ensures Apart(old(Now()), sector) && ApartFrom(old(Now()), sector, k) ==>
        orderly == (old(orderly) && KeepsOrder(old(Now()), old(free), sector, k) &&
                    (o.Got? && !ready ==> !Overtaken(old(queue), sector(k))))
      ensures !o.Evicting? && (o.Got? <==> CanGet(old(Now()), old(free), k))
      ensures o.Got? ==> k in index && index[k] == o.b < |bufs|
      ensures o.Got? ==> bufs[o.b].busy && bufs[o.b].key == k && bufs[o.b].done == ready
      ensures o.Got? ==> ready == (k in old(index) && old(bufs)[o.b].done)
      ensures o.Got? && k in old(index) ==> o.b == old(index)[k]
      ensures ready ==> o.Got? && bufs[o.b].data == Logical(Now(), k)
      ensures o.Got? && !ready ==> ReadQueued(queue, o.b)
      ensures o.Got? && orderly && ready ==> !ReadQueued(queue, o.b)
      ensures o.MustWait? ==> k in old(index) && k in index && index[k] == o.b < |bufs| && bufs[o.b].busy
      ensures o.NoneFree? ==> k !in index && forall b :: 0 <= b < |bufs| ==> bufs[b].busy
      ensures OnlyFor(old(Now()), k, o, Now())
    {
      hide OnlyFor, Valid, SameLogical, ReadQueued, Overtaken, Insert, Settled, Apart, ApartFrom, KeepsOrder, CanGet;
      o := Getblk(k);
      ready := o.Got? && bufs[o.b].done;
      if o.Got? && !bufs[o.b].done {
        ghost var v := Now();
        OnlyForRead(old(Now()), k, o, v, Request(o.b, k, sector(k), false));
        IssueRead(o.b);
        if orderly {
          SameLogicalTrans(old(Now()), v, Now());
        }
      }
    }

    /** A delayed write: the holder of a buffer changes the data and marks it. */
    method Fill(b: nat, d: Block)
      requires Valid() && b < |bufs| && bufs[b].busy && bufs[b].key in index && index[bufs[b].key] == b
      requires orderly ==> !ReadQueued(queue, b)
      modifies `bufs
      ensures Valid() && Now() == Filled(old(Now()), b, d)
      ensures Logical(Now(), bufs[b].key) == d
      ensures orderly ==> forall k :: k != bufs[b].key ==> Logical(Now(), k) == Logical(old(Now()), k)
    {
      hide Agrees, Shape, ReadQueued, Chained, FreeList, Logical;
      FillStep(Now(), sector, b, d);
      var x := bufs[b].(data := d, dirty := true, done := true);
      AsyncBusy(bufs, free, b);
      ChainedSameKey(bufs, chains, index, b, x);
      FreeListSame(bufs, free, b, x);
      bufs := bufs[b := x];
    }

    /** brelse by the holder of a buffer. */
    method Release(b: nat)
      requires Valid() && b < |bufs| && (orderly ==> !ReadQueued(queue, b))
      modifies `bufs, `free
      ensures Valid() && SameLogical(old(Now()), Now())
      ensures bufs == if old(bufs[b].busy) then old(bufs)[b := old(bufs[b]).(busy := false, asy := false)]
        else old(bufs)
      ensures free == if old(bufs[b].busy) then old(free) + [b] else old(free)
    {
      hide Agrees, Shape, ReadQueued, Chained, FreeList, SameLogical;
      FlagStep(Now(), sector, b, bufs[b].(busy := false, asy := false));
      LogicalRefl(Now());
      Brelse(b);
    }

    /** bwrite by the holder of a buffer with valid data. */
    method WriteThrough(b: nat)
      requires Valid() && b < |bufs| && bufs[b].busy && bufs[b].done && bufs[b].key in index && index[bufs[b].key] == b
      modifies `bufs, `free, `queue, `orderly
      ensures Valid()
      ensures orderly == (old(orderly) && !Overtaken(old(queue), sector(old(bufs[b].key))))
      ensures orderly ==> SameLogical(old(Now()), Now())
      ensures
        var y := old(bufs[b]).(dirty := false, read := false);
        && Now() == WriteQueued(old(Now()), sector, b, if y.asy then y else y.(busy := false), false)
        && free == if y.asy then old(free) else old(free) + [b]
    {
      hide Agrees, Shape, Overtaken, Insert, Chained, FreeList, SameLogical;
      ghost var y := bufs[b].(dirty := false, read := false);
      WriteStep(Now(), sector, b, if y.asy then y else y.(busy := false), false);
      orderly := orderly && !Overtaken(queue, sector(bufs[b].key));
      var waits := Bwrite(b);
    }

    /** What bsync does with a dirty buffer that nobody holds: it is released with the write still to come. */
    method SyncOne(b: nat)
      requires Valid() && b < |bufs| && !bufs[b].busy && bufs[b].dirty
      modifies `bufs, `chains, `free, `index, `queue, `orderly
      ensures Valid()
      ensures orderly == (old(orderly) && !Overtaken(old(queue), sector(old(bufs[b].key))))
      ensures orderly ==> SameLogical(old(Now()), Now())
      ensures Now() == WriteQueued(old(Now()), sector, b, old(bufs[b]).(dirty := false, read := false), false)
      ensures chains == old(chains)
    {
      hide Agrees, SameLogical, Overtaken, Insert, Without, Chained, FreeList;
      ghost var v := Now();
      AsyncBusy(bufs, free, b);
      WriteStep(v, sector, b, bufs[b].(dirty := false, read := false), false);
      ghost var x := bufs[b];
      Notavail(b, false);
      orderly := orderly && !Overtaken(queue, sector(bufs[b].key));
      var waits := Bwrite(b);
      assert Now() == WriteQueued(v, sector, b, x.(dirty := false, read := false), false);
    }

    /** One buffer rewritten, in the same place of the same lists. */
    method SetBuf(b: nat, x: Buf)
      requires Lists() && b < |bufs| && x.key == bufs[b].key && x.busy == bufs[b].busy && (x.asy ==> x.busy)
      modifies `bufs
      ensures Lists() && bufs == old(bufs)[b := x]
    {
      hide Chained, FreeList;
      ChainedSameKey(bufs, chains, index, b, x);
      FreeListSame(bufs, free, b, x);
      bufs := bufs[b := x];
    }

    /** iodone. */
    method Iodone(b: nat)
      requires Lists() && b < |bufs|
      modifies `bufs, `free
      ensures Lists()
      ensures
        var y := old(bufs[b]).(done := true);
        && bufs == old(bufs)[b := if y.asy then y.(busy := false, asy := false) else y.(read := false)]
        && free == if y.asy then old(free) + [b] else old(free)
    {
      hide Chained, FreeList;
      AsyncBusy(bufs, free, b);
      SetBuf(b, bufs[b].(done := true));
      if bufs[b].asy {
        Brelse(b);
      } else if bufs[b].read {
        SetBuf(b, bufs[b].(read := false));
      }
    }

    /** The disk interrupt at the end of a transfer. The process that waits for a read finds the logical block. */
    method Complete() returns (r: Request)
      requires Valid() && queue != []
      modifies `bufs, `free, `queue, `disk
      ensures Valid() && r == old(queue)[0] && queue == old(queue)[1..] && r.buf < |bufs| == old(|bufs|)
      ensures orderly ==> SameLogical(old(Now()), Now())
      ensures disk == if r.write then old(disk)[r.key := old(bufs[queue[0].buf].data)] else old(disk)
      ensures bufs[r.buf].done && Now() == Served(old(Now()), Ended(old(Now())))
      ensures orderly && !r.write ==>
        bufs[r.buf].data == Logical(Now(), r.key) && r.key in index && index[r.key] == r.buf
    {
      hide Agrees, SameLogical, Chained, FreeList, Settled, Logical, Shape;
      ghost var v := Now();
      HeadInRange(v, sector);
      r := queue[0];
      var b := r.buf;
      AsyncBusy(bufs, free, b);
      if r.write {
        disk := disk[r.key := bufs[b].data];
      } else {
        SetBuf(b, bufs[b].(data := if r.key in disk then disk[r.key] else ZeroBlock()));
      }
      Iodone(b);
      queue := queue[1..];
      if r.write {
        ServeWriteStep(v, sector, bufs[b]);
      } else {
        ServeReadStep(v, sector, bufs[b]);
      }
      assert Now() == Served(v, bufs[b]);
      if orderly && !r.write {
        ReaderFinds(v, Now(), r.key);
      }
    }

    /** inval_block, unless the buffer is busy or wanted. The block falls back to what the disk has of it. */
    method InvalBlock(k: Key, wanted: bool) returns (waits: bool)
      requires Valid()
      modifies `bufs, `chains, `index
      ensures Valid()
      ensures waits <==> k in old(index) && (wanted || old(bufs[index[k]].busy))
      ensures waits || k !in old(index) ==> Now() == old(Now())
      ensures !waits ==> k !in index && Logical(Now(), k) == Settled(old(Now()), k)
      ensures orderly ==> forall k' :: k' != k ==> Logical(Now(), k') == Logical(old(Now()), k')
    {
      hide Agrees, Chained, FreeList, Settled, HashOf, Without;
      var found, b := Find(k);
      waits := found && (wanted || bufs[b].busy);
      if found && !waits {
        DropStep(Now(), sector, b);
        var x := Buf(Key(NoDev, 0), false, false, false, false, false, bufs[b].data);
        ChainedUnlink(Now(), chains, b, x);
        ChainedSizes(bufs, chains, index);
        FreeListSame(bufs, free, b, x);
        var h := HashOf(k);
        chains := chains[h := Without(chains[h], b)];
        index := index - {k};
        bufs := bufs[b := x];
      }
    }

    /** bsync over one hash chain. */
    method SyncChain(h: nat)
      requires Valid() && h < NrHash && DirtyFrom(bufs, h)
      modifies `bufs, `chains, `free, `index, `queue, `orderly
      ensures Valid() && DirtyFrom(bufs, h + 1) && SameHolders(old(Now()), Now())
      ensures orderly ==> old(orderly) && SameLogical(old(Now()), Now())
      ensures SyncOrder(old(Now()), sector, old(orderly), Now(), orderly)
    {
      hide Agrees, SameLogical, Chained, FreeList, HashOf, Insert, Overtaken, Addressed, SyncOrder;
      LogicalRefl(Now());
      SyncOrderRefl(Now(), sector, orderly);
      ChainedSizes(bufs, chains, index);
      var chain := chains[h];
      AllHashed(Now(), sector, chains, h, chain);
      var j := 0;
      while j < |chain|
        invariant j <= |chain| && chains == old(chains)
        invariant Valid() && DirtyFrom(bufs, h) && DirtyIn(bufs, h, chain[j..]) && SameHolders(old(Now()), Now())
        invariant orderly ==> old(orderly) && SameLogical(old(Now()), Now())
        invariant SyncOrder(old(Now()), sector, old(orderly), Now(), orderly)
      {
        ghost var v, was := Now(), orderly;
        ChainMembers(bufs, chains, index, h, j);
        if bufs[chain[j]].dirty {
          SyncOne(chain[j]);
          SyncOneOrder(old(Now()), sector, old(orderly), v, was, chain[j]);
          if orderly {
            SameLogicalTrans(old(Now()), v, Now());
          }
        }
        DirtyLess(v.bufs, bufs, h, chain, j);
        j := j + 1;
      }
    }

    /**
     bsync while no dirty buffer is held. No buffer is dirty afterwards, no logical block has
     changed, and once the requests are served the disk holds every logical block.
     */
    method Bsync()
      requires Valid() && forall b :: 0 <= b < |bufs| && bufs[b].dirty ==> !bufs[b].busy
      modifies `bufs, `chains, `free, `index, `queue, `orderly
      ensures Valid() && SameHolders(old(Now()), Now()) && forall b :: 0 <= b < |bufs| ==> !bufs[b].dirty
      ensures orderly ==> old(orderly) && SameLogical(old(Now()), Now())
      ensures orderly ==> forall k :: Settled(Now(), k) == Logical(Now(), k)
      ensures Apart(old(Now()), sector) ==> orderly == (old(orderly) && Clear(old(Now()), sector))
    {
      hide Agrees, SameLogical, Chained, FreeList, HashOf, Shape, SyncOrder, Apart, Overtaken;
      LogicalRefl(Now());
      SyncOrderRefl(Now(), sector, orderly);
      var h := 0;
      while h < NrHash
        invariant h <= NrHash && Valid() && DirtyFrom(bufs, h) && SameHolders(old(Now()), Now())
        invariant orderly ==> old(orderly) && SameLogical(old(Now()), Now())
        invariant SyncOrder(old(Now()), sector, old(orderly), Now(), orderly)
      {
        ghost var v, was := Now(), orderly;
        SyncChain(h);
        SyncOrderTrans(old(Now()), sector, old(orderly), v, was, Now(), orderly);
        if orderly {
          SameLogicalTrans(old(Now()), v, Now());
        }
        h := h + 1;
      }
      if orderly {
        AllClean(Now());
      }
      SyncOrderDone(old(Now()), sector, old(orderly), Now(), orderly);
    }
  }

  /** The same blocks are cached in the same buffers, and the same ones are busy. */
  ghost predicate SameHolders(v: View, v': View) {
    && v'.index == v.index && v'.disk == v.disk && |v'.bufs| == |v.bufs|
    && forall b :: 0 <= b < |v.bufs| ==> v'.bufs[b].busy == v.bufs[b].busy
  }

  /** What writing back dirty buffers does to the order of requests, if their sectors differ. */
  ghost predicate SyncOrder(v: View, sector: Key -> nat, orderly: bool, v': View, orderly': bool) {
    Apart(v, sector) ==> Apart(v', sector) && ((orderly && Clear(v, sector)) <==> orderly' && Clear(v', sector))
  }

  lemma SyncOrderRefl(v: View, sector: Key -> nat, orderly: bool)
    ensures SyncOrder(v, sector, orderly, v, orderly)
  {
  }

  lemma SyncOrderTrans(v: View, sector: Key -> nat, orderly: bool, v1: View, orderly1: bool, v2: View, orderly2: bool)
    requires SyncOrder(v, sector, orderly, v1, orderly1) && SyncOrder(v1, sector, orderly1, v2, orderly2)
    ensures SyncOrder(v, sector, orderly, v2, orderly2)
  {
    hide Apart, Clear;
  }

  lemma SyncOneOrder(v: View, sector: Key -> nat, orderly: bool, v1: View, orderly1: bool, b: nat)
    requires SyncOrder(v, sector, orderly, v1, orderly1) && b < |v1.bufs| && v1.bufs[b].dirty
    ensures
      var v2 := WriteQueued(v1, sector, b, v1.bufs[b].(dirty := false, read := false), false);
      SyncOrder(v, sector, orderly, v2, orderly1 && !Overtaken(v1.queue, sector(v1.bufs[b].key)))
  {
    hide Apart, Clear, WriteQueued, Overtaken;
    var x := v1.bufs[b].(dirty := false, read := false);
    WriteKeepsApart(v1, sector, b, x, false);
    if Apart(v1, sector) {
      WriteKeepsClear(v1, sector, b, x, false);
    }
  }

  lemma SyncOrderDone(v: View, sector: Key -> nat, orderly: bool, v': View, orderly': bool)
    requires SyncOrder(v, sector, orderly, v', orderly') && forall b :: 0 <= b < |v'.bufs| ==> !v'.bufs[b].dirty
    ensures Apart(v, sector) ==> orderly' == (orderly && Clear(v, sector))
  {
    hide Apart, Overtaken;
  }

  /** The dirty buffers are those nobody holds, in chain h or later. */
  ghost predicate DirtyFrom(bufs: seq<Buf>, h: nat) {
    forall b :: 0 <= b < |bufs| && bufs[b].dirty ==> !bufs[b].busy && HashOf(bufs[b].key) >= h
  }

  ghost predicate DirtyIn(bufs: seq<Buf>, h: nat, chain: seq<nat>) {
    forall b :: 0 <= b < |bufs| && bufs[b].dirty && HashOf(bufs[b].key) == h ==> b in chain
  }

  lemma AllHashed(v: View, sector: Key -> nat, chains: seq<seq<nat>>, h: nat, chain: seq<nat>)
    requires Shape(v, sector) && Chained(v.bufs, chains, v.index) && h < NrHash && chain == chains[h]
    ensures DirtyIn(v.bufs, h, chain[0..])
  {
    hide HashOf;
    assert chain[0..] == chain;
  }

  lemma ChainMembers(bufs: seq<Buf>, chains: seq<seq<nat>>, index: map<Key, nat>, h: nat, j: nat)
    requires Chained(bufs, chains, index) && h < NrHash && j < |chains[h]|
    ensures chains[h][j] < |bufs| && HashOf(bufs[chains[h][j]].key) == h
  {
    hide HashOf;
    assert chains[h][j] in chains[h];
  }

  lemma DirtyLess(bufs: seq<Buf>, bufs': seq<Buf>, h: nat, chain: seq<nat>, j: nat)
    requires j < |chain| && chain[j] < |bufs| == |bufs'| && DirtyFrom(bufs, h) && DirtyIn(bufs, h, chain[j..])
    requires bufs' == bufs[chain[j] := bufs'[chain[j]]] && !bufs'[chain[j]].dirty
    ensures DirtyFrom(bufs', h) && DirtyIn(bufs', h, chain[j + 1..])
  {
    hide HashOf;
    assert chain[j..] == [chain[j]] + chain[j + 1..];
  }

  lemma AllClean(v: View)
    requires Agrees(v) && forall b :: 0 <= b < |v.bufs| ==> !v.bufs[b].dirty
    ensures forall k :: Settled(v, k) == Logical(v, k)
  {
    hide Settled;
  }

  lemma AsyncBusy(bufs: seq<Buf>, free: seq<nat>, b: nat)
    requires FreeList(bufs, free) && b < |bufs|
    ensures bufs[b].asy ==> bufs[b].busy
  {
  }

  lemma InsertQueued(queue: seq<Request>, r: Request)
    requires !r.write
    ensures ReadQueued(Insert(queue, r), r.buf)
  {
    InsertedAt(queue, r, Place(queue, r.sec));
    assert Insert(queue, r)[Place(queue, r.sec)] == r;
  }

  /** What a caller of getblk can rely on. */
  lemma GotFacts(v: View, free: seq<nat>, sector: Key -> nat, k: Key, o: Outcome, inOrder: bool, v': View,
      free': seq<nat>, orderly: bool)
    requires GetblkStep(v, free, sector, k, o, inOrder, v', free') && Shape(v, sector) && FreeList(v.bufs, free)
    requires orderly ==> Agrees(v) && inOrder
    ensures o.Got? ==> k in v'.index && v'.index[k] == o.b < |v'.bufs| && v'.bufs[o.b].busy && v'.bufs[o.b].key == k
    ensures o.Got? && orderly ==> !ReadQueued(v'.queue, o.b)
    ensures o.MustWait? ==> k in v'.index && v'.index[k] == o.b < |v'.bufs| && v'.bufs[o.b].busy
    ensures o.NoneFree? ==> k !in v'.index && forall b :: 0 <= b < |v'.bufs| ==> v'.bufs[b].busy
  {
    if o.Got? && orderly {
      NotReading(v, sector, o.b);
    }
  }
}
