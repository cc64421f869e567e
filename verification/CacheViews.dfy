/**
 What the buffer cache stands for: the logical contents of every block, and how each kind of
 step on a buffer keeps them.
 */
module CacheViews {
  import opened Blocks
  import opened RequestQueue

  const NoDev: nat := 0x7fff

  /** A buffer head: block, B_BUSY, B_DIRTY, B_DONE, B_READ and B_ASY, and the data. */
  datatype Buf = Buf(key: Key, busy: bool, dirty: bool, done: bool, read: bool, asy: bool, data: Block)

  /** The buffers, the hashed buffer of each block, the disk queue and the disk. */
  datatype View = View(bufs: seq<Buf>, index: map<Key, nat>, queue: seq<Request>, disk: map<Key, Block>)

  ghost function Data(bufs: seq<Buf>): (r: seq<Block>)
    ensures |r| == |bufs| && forall b :: 0 <= b < |r| ==> r[b] == bufs[b].data
  {
    if bufs == [] then [] else Data(bufs[..|bufs| - 1]) + [bufs[|bufs| - 1].data]
  }

  /** What the disk will hold of a block once all requests are served. */
  ghost function Settled(v: View, key: Key): Block {
    After(v.disk, v.queue, Data(v.bufs), key)
  }

  /** A logical block: the data of its hashed buffer if they are valid, else the disk block. */
  ghost function Logical(v: View, key: Key): Block {
    if key in v.index && v.index[key] < |v.bufs| && v.bufs[v.index[key]].done then v.bufs[v.index[key]].data
    else Settled(v, key)
  }

  /** A hashed buffer is that of the block it is hashed under. */
  ghost predicate Indexed(v: View) {
    forall k :: k in v.index ==> k.dev != NoDev && v.index[k] < |v.bufs| && v.bufs[v.index[k]].key == k
  }

  /** A dirty buffer is hashed and holds valid data. */
  ghost predicate DirtyHashed(v: View) {
    forall b :: 0 <= b < |v.bufs| && v.bufs[b].dirty ==>
      v.bufs[b].done && v.bufs[b].key in v.index && v.index[v.bufs[b].key] == b
  }

  ghost predicate Addressed(v: View, sector: Key -> nat) {
    forall i :: 0 <= i < |v.queue| ==> v.queue[i].buf < |v.bufs| && v.queue[i].sec == sector(v.queue[i].key)
  }

  ghost predicate Shape(v: View, sector: Key -> nat) {
    Indexed(v) && DirtyHashed(v) && Addressed(v, sector)
  }

  lemma ShapeParts(v: View, sector: Key -> nat)
    requires Shape(v, sector)
    ensures Indexed(v) && DirtyHashed(v) && Addressed(v, sector)
  {
  }

  lemma HeadInRange(v: View, sector: Key -> nat)
    requires Shape(v, sector) && v.queue != []
    ensures v.queue[0].buf < |v.bufs|
  {
  }

  /** Valid clean data agree with the disk. */
  ghost predicate CleanAgrees(v: View) {
    forall k :: k in v.index && v.index[k] < |v.bufs| && v.bufs[v.index[k]].done && !v.bufs[v.index[k]].dirty ==>
      v.bufs[v.index[k]].data == Settled(v, k)
  }

  /** A buffer with a write queued still holds the block, or none. */
  ghost predicate WritesHold(v: View) {
    forall i :: 0 <= i < |v.queue| && v.queue[i].write && v.queue[i].buf < |v.bufs| ==>
      var b := v.bufs[v.queue[i].buf];
      b.key.dev == NoDev || (b.key == v.queue[i].key && b.done)
  }

  /** A buffer with a read queued is hashed, busy and not valid, and the read is the last request for its block. */
  ghost predicate ReadsWait(v: View) {
    forall i :: 0 <= i < |v.queue| && !v.queue[i].write && v.queue[i].buf < |v.bufs| ==>
      var r := v.queue[i];
      && r.key in v.index && v.index[r.key] == r.buf
      && v.bufs[r.buf].busy && !v.bufs[r.buf].done
      && NoneFrom(v.queue, i + 1, r.key)
  }

  ghost predicate Agrees(v: View) {
    CleanAgrees(v) && WritesHold(v) && ReadsWait(v)
  }

  ghost predicate Queued(queue: seq<Request>, b: nat) {
    exists i :: 0 <= i < |queue| && queue[i].buf == b
  }

  ghost predicate ReadQueued(queue: seq<Request>, b: nat) {
    exists i :: 0 <= i < |queue| && queue[i].buf == b && !queue[i].write
  }

  ghost predicate SameLogical(v: View, v': View) {
    forall k :: Logical(v', k) == Logical(v, k)
  }

  lemma LogicalRefl(v: View)
    ensures SameLogical(v, v)
  {
  }

  lemma SameLogicalTrans(v: View, v1: View, v2: View)
    requires SameLogical(v, v1) && SameLogical(v1, v2)
    ensures SameLogical(v, v2)
  {
    hide Logical;
    forall k ensures Logical(v2, k) == Logical(v, k) {
      assert Logical(v1, k) == Logical(v, k);
    }
  }

  /** A buffer that nobody holds has no read queued. */
  lemma NotReading(v: View, sector: Key -> nat, b: nat)
    requires Addressed(v, sector) && ReadsWait(v) && b < |v.bufs| && !v.bufs[b].busy
    ensures !ReadQueued(v.queue, b)
  {
  }

  /** The new request is behind all requests for its block unless it overtakes one. */
  lemma NotOvertaken(v: View, sector: Key -> nat, key: Key)
    requires Addressed(v, sector) && !Overtaken(v.queue, sector(key))
    ensures NoneFrom(v.queue, Place(v.queue, sector(key)), key)
  {
    OvertakesExactly(v.queue, sector(key));
  }

  lemma SameData(bufs: seq<Buf>, b: nat, x: Buf)
    requires b < |bufs|
    ensures Data(bufs[b := x]) == Data(bufs)[b := x.data]
  {
  }

  /** Data that stay the same settle the same. */
  lemma SettledSame(v: View, v': View)
    requires v'.disk == v.disk && v'.queue == v.queue && Data(v'.bufs) == Data(v.bufs)
    ensures forall k :: Settled(v', k) == Settled(v, k)
  {
  }

  /** Marking a buffer busy, or free, or asynchronous. */
  lemma FlagStep(v: View, sector: Key -> nat, b: nat, x: Buf)
    requires Shape(v, sector) && b < |v.bufs|
    requires var y := v.bufs[b]; x.key == y.key && x.dirty == y.dirty && x.done == y.done && x.data == y.data
    ensures
      var v' := v.(bufs := v.bufs[b := x]);
      Shape(v', sector) && (Agrees(v) && (x.busy || !ReadQueued(v.queue, b)) ==> Agrees(v')) && SameLogical(v, v')
  {
    hide After, Data, Settled;
    var v' := v.(bufs := v.bufs[b := x]);
    SameData(v.bufs, b, x);
    assert Data(v.bufs)[b := x.data] == Data(v.bufs);
    SettledSame(v, v');
  }

  /** What a new write request for the block of a valid hashed buffer leaves on the disk. */
  lemma WriteSettles(v: View, sector: Key -> nat, b: nat, key: Key)
    requires Addressed(v, sector) && b < |v.bufs| && key == v.bufs[b].key && !Overtaken(v.queue, sector(key))
    ensures
      var v' := v.(queue := Insert(v.queue, Request(b, key, sector(key), true)));
      forall k :: Settled(v', k) == if k == key then v.bufs[b].data else Settled(v, k)
  {
    var r := Request(b, key, sector(key), true);
    NotOvertaken(v, sector, key);
    forall k
      ensures After(v.disk, Insert(v.queue, r), Data(v.bufs), k) == if k == key then v.bufs[b].data else Settled(v, k)
    {
      AfterInsert(v.disk, v.queue, Data(v.bufs), r, Place(v.queue, r.sec), k);
    }
  }

  lemma InsertAddressed(v: View, sector: Key -> nat, bufs: seq<Buf>, index: map<Key, nat>, r: Request)
    requires Addressed(v, sector) && r.buf < |v.bufs| == |bufs| && r.sec == sector(r.key)
    ensures Addressed(View(bufs, index, Insert(v.queue, r), v.disk), sector)
  {
    hide Insert, Place;
    forall i | 0 <= i < |Insert(v.queue, r)|
      ensures Insert(v.queue, r)[i].buf < |bufs| && Insert(v.queue, r)[i].sec == sector(Insert(v.queue, r)[i].key)
    {
      InsertedAt(v.queue, r, 0);
      InsertedAt(v.queue, r, i);
    }
  }

  lemma InsertNoneFrom(queue: seq<Request>, r: Request, i: nat, key: Key)
    requires i < |queue| && NoneFrom(queue, i + 1, key)
    requires r.key != key || Place(queue, r.sec) <= i
    ensures NoneFrom(Insert(queue, r), (if i < Place(queue, r.sec) then i else i + 1) + 1, key)
  {
    hide Place;
    var j := if i < Place(queue, r.sec) then i else i + 1;
    forall k | j + 1 <= k < |Insert(queue, r)| ensures Insert(queue, r)[k].key != key {
      InsertedAt(queue, r, k);
    }
  }

  /** A new request leaves the reads that wait as they are, unless it is for the same block. */
  lemma InsertReads(v: View, bufs: seq<Buf>, index: map<Key, nat>, r: Request)
    requires ReadsWait(v) && r.buf < |v.bufs| == |bufs|
    requires forall i :: 0 <= i < |v.queue| && !v.queue[i].write ==> v.queue[i].key != r.key
    requires forall b :: 0 <= b < |v.bufs| && b != r.buf ==> bufs[b] == v.bufs[b]
    requires forall k :: k != r.key ==> (k in index <==> k in v.index) && (k in index ==> index[k] == v.index[k])
    requires forall k :: k in v.index && v.index[k] == r.buf ==> k == r.key
    requires !r.write ==>
      && r.key in index && index[r.key] == r.buf && bufs[r.buf].busy && !bufs[r.buf].done
      && NoneFrom(v.queue, Place(v.queue, r.sec), r.key)
    ensures ReadsWait(View(bufs, index, Insert(v.queue, r), v.disk))
  {
    hide Insert, Place;
    var q' := Insert(v.queue, r);
    var p := Place(v.queue, r.sec);
    InsertedAt(v.queue, r, 0);
    forall i | 0 <= i < |q'| && !q'[i].write && q'[i].buf < |bufs|
      ensures
        && q'[i].key in index && index[q'[i].key] == q'[i].buf
        && bufs[q'[i].buf].busy && !bufs[q'[i].buf].done && NoneFrom(q', i + 1, q'[i].key)
    {
      InsertedAt(v.queue, r, i);
      if i == p {
        forall k | i + 1 <= k < |q'| ensures q'[k].key != r.key {
          InsertedAt(v.queue, r, k);
        }
      } else {
        var j := if i < p then i else i - 1;
        InsertNoneFrom(v.queue, r, j, q'[i].key);
      }
    }
  }

  lemma InsertWrites(v: View, bufs: seq<Buf>, index: map<Key, nat>, r: Request)
    requires WritesHold(v) && r.buf < |v.bufs| == |bufs|
    requires forall b :: 0 <= b < |v.bufs| && b != r.buf ==> bufs[b] == v.bufs[b]
    requires bufs[r.buf].key == v.bufs[r.buf].key && (v.bufs[r.buf].done ==> bufs[r.buf].done)
    requires r.write ==> bufs[r.buf].key == r.key && bufs[r.buf].done
    ensures WritesHold(View(bufs, index, Insert(v.queue, r), v.disk))
  {
    hide Insert, Place;
    var q' := Insert(v.queue, r);
    InsertedAt(v.queue, r, 0);
    forall i | 0 <= i < |q'| && q'[i].write && q'[i].buf < |bufs|
      ensures bufs[q'[i].buf].key.dev == NoDev || (bufs[q'[i].buf].key == q'[i].key && bufs[q'[i].buf].done)
    {
      InsertedAt(v.queue, r, i);
    }
  }

  /** The view after a write request for the block of buffer b, which becomes x and may be unhashed. */
  ghost function WriteQueued(v: View, sector: Key -> nat, b: nat, x: Buf, unhash: bool): View
    requires b < |v.bufs|
  {
    View(v.bufs[b := x], if unhash then v.index - {x.key} else v.index,
         Insert(v.queue, Request(b, x.key, sector(x.key), true)), v.disk)
  }

  /** No read waits for the block of a valid buffer. */
  lemma NoReadOf(v: View, sector: Key -> nat, b: nat)
    requires Addressed(v, sector) && ReadsWait(v)
    requires b < |v.bufs| && v.bufs[b].done && v.bufs[b].key in v.index && v.index[v.bufs[b].key] == b
    ensures forall i :: 0 <= i < |v.queue| && !v.queue[i].write ==> v.queue[i].key != v.bufs[b].key
  {
  }

  lemma WriteAgrees(v: View, sector: Key -> nat, b: nat, x: Buf, unhash: bool)
    requires Shape(v, sector) && b < |v.bufs| && Agrees(v) && !Overtaken(v.queue, sector(x.key))
    requires x.key in v.index && v.index[x.key] == b && v.bufs[b].done
    requires x.key == v.bufs[b].key && x.done && !x.dirty && x.data == v.bufs[b].data
    ensures var v' := WriteQueued(v, sector, b, x, unhash); Agrees(v') && SameLogical(v, v')
  {
    hide After, Data, Settled, Insert, Overtaken, WritesHold, ReadsWait, NoneFrom, Addressed, Place, DirtyHashed;
    var v' := WriteQueued(v, sector, b, x, unhash);
    var r := Request(b, x.key, sector(x.key), true);
    SameData(v.bufs, b, x);
    assert Data(v.bufs)[b := x.data] == Data(v.bufs);
    WriteSettles(v, sector, b, x.key);
    SettledSame(v.(queue := Insert(v.queue, r)), v');
    NoReadOf(v, sector, b);
    InsertReads(v, v'.bufs, v'.index, r);
    InsertWrites(v, v'.bufs, v'.index, r);
  }

  /** Eviction of a dirty buffer, sync, and a client's write: valid data on their way to the disk. */
  lemma WriteStep(v: View, sector: Key -> nat, b: nat, x: Buf, unhash: bool)
    requires Shape(v, sector) && b < |v.bufs|
    requires x.key in v.index && v.index[x.key] == b && v.bufs[b].done
    requires x.key == v.bufs[b].key && x.done && !x.dirty && x.data == v.bufs[b].data
    ensures
      var v' := WriteQueued(v, sector, b, x, unhash);
      Shape(v', sector) &&
      (Agrees(v) && !Overtaken(v.queue, sector(x.key)) ==> Agrees(v') && SameLogical(v, v'))
  {
    hide Agrees, SameLogical, Insert, Overtaken, Addressed;
    var v' := WriteQueued(v, sector, b, x, unhash);
    InsertAddressed(v, sector, v'.bufs, v'.index, Request(b, x.key, sector(x.key), true));
    if Agrees(v) && !Overtaken(v.queue, sector(x.key)) {
      WriteAgrees(v, sector, b, x, unhash);
    }
  }

  /** No two dirty buffers are for the same sector. */
  ghost predicate Apart(v: View, sector: Key -> nat) {
    forall b, c :: 0 <= b < |v.bufs| && 0 <= c < |v.bufs| && b != c && v.bufs[b].dirty && v.bufs[c].dirty ==>
      sector(v.bufs[b].key) != sector(v.bufs[c].key)
  }

  /** No dirty buffer of another block is for the sector of block k. */
  ghost predicate ApartFrom(v: View, sector: Key -> nat, k: Key) {
    forall b :: 0 <= b < |v.bufs| && v.bufs[b].dirty && v.bufs[b].key != k ==> sector(v.bufs[b].key) != sector(k)
  }

  /** No dirty buffer is for a sector that a new request would overtake. */
  ghost predicate Clear(v: View, sector: Key -> nat) {
    forall b :: 0 <= b < |v.bufs| && v.bufs[b].dirty ==> !Overtaken(v.queue, sector(v.bufs[b].key))
  }

  /**
   The dirty buffers that a list starts with can be written without overtaking, and the clean
   one behind them, if there is one, has no request queued.
   */
  ghost predicate InOrder(v: View, sector: Key -> nat, list: seq<nat>) {
    if list == [] || list[0] >= |v.bufs| then true
    else if v.bufs[list[0]].dirty then
      !Overtaken(v.queue, sector(v.bufs[list[0]].key)) && InOrder(v, sector, list[1..])
    else !Queued(v.queue, list[0])
  }

  lemma {:induction false} ClearInOrder(v: View, sector: Key -> nat, list: seq<nat>)
    requires Clear(v, sector)
    requires forall b :: b in list && b < |v.bufs| && !v.bufs[b].dirty ==> !Queued(v.queue, b)
    ensures InOrder(v, sector, list)
    decreases |list|
  {
    if list != [] && list[0] < |v.bufs| && v.bufs[list[0]].dirty {
      ClearInOrder(v, sector, list[1..]);
    }
  }

  /** With the disk idle everything is in order. */
  lemma IdleInOrder(v: View, sector: Key -> nat, list: seq<nat>)
    requires v.queue == []
    ensures Clear(v, sector) && InOrder(v, sector, list)
  {
    ClearInOrder(v, sector, list);
  }

  lemma InsertOthersQueued(queue: seq<Request>, r: Request, b: nat)
    requires b != r.buf
    ensures Queued(Insert(queue, r), b) <==> Queued(queue, b)
  {
    hide Insert;
    var p := Place(queue, r.sec);
    InsertedAt(queue, r, 0);
    if i :| 0 <= i < |queue| && queue[i].buf == b {
      var i' := if i < p then i else i + 1;
      InsertedAt(queue, r, i');
      assert Insert(queue, r)[i'].buf == b;
    }
    if i :| 0 <= i < |Insert(queue, r)| && Insert(queue, r)[i].buf == b {
      InsertedAt(queue, r, i);
      assert queue[if i < p then i else i - 1].buf == b;
    }
  }

  /** Writing back one dirty buffer makes no difference to the order of the others. */
  lemma {:induction false} WriteKeepsInOrder(v: View, sector: Key -> nat, b: nat, x: Buf, unhash: bool, list: seq<nat>)
    requires b < |v.bufs| && v.bufs[b].dirty && x.key == v.bufs[b].key && Apart(v, sector) && b !in list
    ensures InOrder(WriteQueued(v, sector, b, x, unhash), sector, list) <==> InOrder(v, sector, list)
    decreases |list|
  {
    hide Insert, Overtaken, Queued;
    if list != [] && list[0] < |v.bufs| {
      var r := Request(b, x.key, sector(x.key), true);
      if v.bufs[list[0]].dirty {
        InsertOvertaken(v.queue, r, sector(v.bufs[list[0]].key));
        WriteKeepsInOrder(v, sector, b, x, unhash, list[1..]);
      } else {
        InsertOthersQueued(v.queue, r, list[0]);
      }
    }
  }

  lemma WriteKeepsApart(v: View, sector: Key -> nat, b: nat, x: Buf, unhash: bool)
    requires b < |v.bufs| && !x.dirty
    ensures Apart(v, sector) ==> Apart(WriteQueued(v, sector, b, x, unhash), sector)
    ensures forall k :: ApartFrom(v, sector, k) ==> ApartFrom(WriteQueued(v, sector, b, x, unhash), sector, k)
  {
    hide Insert;
  }

  lemma WriteKeepsClear(v: View, sector: Key -> nat, b: nat, x: Buf, unhash: bool)
    requires b < |v.bufs| && v.bufs[b].dirty && x.key == v.bufs[b].key && !x.dirty && Apart(v, sector)
    ensures
      Clear(v, sector) <==>
      !Overtaken(v.queue, sector(x.key)) && Clear(WriteQueued(v, sector, b, x, unhash), sector)
  {
    hide Insert, Overtaken;
    var r := Request(b, x.key, sector(x.key), true);
    forall c | 0 <= c < |v.bufs| && c != b && v.bufs[c].dirty
      ensures Overtaken(Insert(v.queue, r), sector(v.bufs[c].key)) <==> Overtaken(v.queue, sector(v.bufs[c].key))
    {
      InsertOvertaken(v.queue, r, sector(v.bufs[c].key));
    }
    var v' := WriteQueued(v, sector, b, x, unhash);
    assert forall c :: 0 <= c < |v.bufs| && c != b ==> v'.bufs[c] == v.bufs[c];
  }

  /** bread's read request for a buffer just claimed. */
  lemma ReadStep(v: View, sector: Key -> nat, b: nat)
    requires Shape(v, sector) && b < |v.bufs| && v.bufs[b].key in v.index && v.index[v.bufs[b].key] == b
    requires v.bufs[b].busy && !v.bufs[b].done
    ensures
      var key := v.bufs[b].key;
      var v' := v.(queue := Insert(v.queue, Request(b, key, sector(key), false)));
      Shape(v', sector) &&
      (Agrees(v) && !ReadQueued(v.queue, b) && !Overtaken(v.queue, sector(key)) ==> Agrees(v') && SameLogical(v, v'))
  {
    hide Insert, Overtaken, Addressed, After, Data, Place, NoneFrom;
    var key := v.bufs[b].key;
    var r := Request(b, key, sector(key), false);
    var v' := v.(queue := Insert(v.queue, r));
    InsertAddressed(v, sector, v.bufs, v.index, r);
    if Agrees(v) && !ReadQueued(v.queue, b) && !Overtaken(v.queue, sector(key)) {
      NotOvertaken(v, sector, key);
      forall k ensures Settled(v', k) == Settled(v, k) {
        InsertSettles(v, r, k);
      }
      OnlyReadOf(v, sector, b);
      InsertReads(v, v.bufs, v.index, r);
      InsertWrites(v, v.bufs, v.index, r);
    }
  }

  lemma InsertSettles(v: View, r: Request, k: Key)
    requires !r.write && NoneFrom(v.queue, Place(v.queue, r.sec), r.key)
    ensures Settled(v.(queue := Insert(v.queue, r)), k) == Settled(v, k)
  {
    AfterInsert(v.disk, v.queue, Data(v.bufs), r, Place(v.queue, r.sec), k);
  }

  lemma OnlyReadOf(v: View, sector: Key -> nat, b: nat)
    requires Addressed(v, sector) && ReadsWait(v) && !ReadQueued(v.queue, b)
    requires b < |v.bufs| && v.bufs[b].key in v.index && v.index[v.bufs[b].key] == b
    ensures forall i :: 0 <= i < |v.queue| && !v.queue[i].write ==> v.queue[i].key != v.bufs[b].key
  {
  }

  /** The hashed buffers without buffer b, which need not be among them. */
  ghost function Unhashed(v: View, b: nat): map<Key, nat>
    requires b < |v.bufs|
  {
    if v.bufs[b].key in v.index && v.index[v.bufs[b].key] == b then v.index - {v.bufs[b].key} else v.index
  }

  /** Buffer b, not dirty, given to block k. */
  ghost function Recycled(v: View, b: nat, k: Key): View
    requires b < |v.bufs|
  {
    v.(bufs := v.bufs[b := Buf(k, true, false, false, true, false, v.bufs[b].data)], index := Unhashed(v, b)[k := b])
  }

  /** Recycling a clean buffer loses nothing, unless a write of the old block is still to be taken from it. */
  lemma RecycleStep(v: View, sector: Key -> nat, b: nat, k: Key)
    requires Shape(v, sector) && b < |v.bufs| && !v.bufs[b].dirty && k !in v.index && k.dev != NoDev
    ensures
      var v' := Recycled(v, b, k);
      Shape(v', sector) && (Agrees(v) && !Queued(v.queue, b) ==> Agrees(v') && SameLogical(v, v'))
  {
    hide Agrees, SameLogical;
    if Agrees(v) && !Queued(v.queue, b) {
      RecycleAgrees(v, sector, b, k);
    }
  }

  lemma RecycleAgrees(v: View, sector: Key -> nat, b: nat, k: Key)
    requires Shape(v, sector) && b < |v.bufs| && !v.bufs[b].dirty && k !in v.index && k.dev != NoDev
    requires Agrees(v) && !Queued(v.queue, b)
    ensures var v' := Recycled(v, b, k); Agrees(v') && SameLogical(v, v')
  {
    hide After, Data, Settled, NoneFrom, DirtyHashed;
    var v' := Recycled(v, b, k);
    SameData(v.bufs, b, v'.bufs[b]);
    assert Data(v.bufs)[b := v'.bufs[b].data] == Data(v.bufs);
    SettledSame(v, v');
  }

  ghost function Filled(v: View, b: nat, d: Block): View
    requires b < |v.bufs|
  {
    v.(bufs := v.bufs[b := v.bufs[b].(data := d, dirty := true, done := true)])
  }

  lemma FillSettles(v: View, sector: Key -> nat, b: nat, d: Block, k: Key)
    requires Shape(v, sector) && WritesHold(v) && b < |v.bufs| && v.bufs[b].key.dev != NoDev && k != v.bufs[b].key
    ensures Settled(Filled(v, b, d), k) == Settled(v, k)
  {
    SameData(v.bufs, b, Filled(v, b, d).bufs[b]);
    AfterSameData(v.disk, v.queue, Data(v.bufs), Data(Filled(v, b, d).bufs), k);
  }

  /** A client's delayed write to the block of a buffer it holds. */
  lemma FillStep(v: View, sector: Key -> nat, b: nat, d: Block)
    requires Shape(v, sector) && b < |v.bufs| && v.bufs[b].key in v.index && v.index[v.bufs[b].key] == b
    ensures
      var v' := Filled(v, b, d);
      && Shape(v', sector) && Logical(v', v.bufs[b].key) == d
      && (Agrees(v) && !ReadQueued(v.queue, b) ==>
        Agrees(v') && forall k :: k != v.bufs[b].key ==> Logical(v', k) == Logical(v, k))
  {
    hide After, Data, Settled;
    if Agrees(v) && !ReadQueued(v.queue, b) {
      forall k | k != v.bufs[b].key ensures Settled(Filled(v, b, d), k) == Settled(v, k) {
        FillSettles(v, sector, b, d, k);
      }
    }
  }

  ghost function Dropped(v: View, b: nat): View
    requires b < |v.bufs|
  {
    v.(bufs := v.bufs[b := Buf(Key(NoDev, 0), false, false, false, false, false, v.bufs[b].data)],
      index := v.index - {v.bufs[b].key})
  }

  /** inval_block: the block falls back to what the disk has. */
  lemma DropStep(v: View, sector: Key -> nat, b: nat)
    requires Shape(v, sector) && b < |v.bufs| && v.bufs[b].key in v.index && v.index[v.bufs[b].key] == b
    requires !v.bufs[b].busy
    ensures
      var v' := Dropped(v, b);
      && Shape(v', sector) && Logical(v', v.bufs[b].key) == Settled(v, v.bufs[b].key)
      && (Agrees(v) ==> Agrees(v') && forall k :: k != v.bufs[b].key ==> Logical(v', k) == Logical(v, k))
  {
    hide After, Data, Settled;
    var v' := Dropped(v, b);
    SameData(v.bufs, b, v'.bufs[b]);
    assert Data(v.bufs)[b := v'.bufs[b].data] == Data(v.bufs);
    SettledSame(v, v');
  }

  /** The first request served; its buffer becomes x. */
  ghost function Served(v: View, x: Buf): View
    requires v.queue != [] && v.queue[0].buf < |v.bufs|
  {
    var r := v.queue[0];
    View(v.bufs[r.buf := x], v.index, v.queue[1..], if r.write then v.disk[r.key := v.bufs[r.buf].data] else v.disk)
  }

  lemma ServeShape(v: View, sector: Key -> nat, x: Buf)
    requires Shape(v, sector) && v.queue != []
    requires var y := v.bufs[v.queue[0].buf]; x.key == y.key && x.dirty == y.dirty && x.done
    ensures Shape(Served(v, x), sector)
  {
    var v' := Served(v, x);
    forall i | 0 <= i < |v'.queue| ensures v'.queue[i].buf < |v'.bufs| && v'.queue[i].sec == sector(v'.queue[i].key) {
      assert v'.queue[i] == v.queue[i + 1];
    }
  }

  lemma ServeSettles(v: View, x: Buf, k: Key)
    requires v.queue != [] && v.queue[0].buf < |v.bufs| && (v.queue[0].write ==> x.data == v.bufs[v.queue[0].buf].data)
    requires !v.queue[0].write ==>
      WritesHold(v) && !v.bufs[v.queue[0].buf].done && v.bufs[v.queue[0].buf].key.dev != NoDev
    ensures Settled(Served(v, x), k) == Settled(v, k)
  {
    var v' := Served(v, x);
    SameData(v.bufs, v.queue[0].buf, x);
    AfterServe(v.disk, v.queue, Data(v.bufs), k);
    if v.queue[0].write {
      assert Data(v.bufs)[v.queue[0].buf := x.data] == Data(v.bufs);
    } else {
      AfterSameData(v.disk, v'.queue, Data(v.bufs), Data(v'.bufs), k);
    }
  }

  lemma ServedNoneFrom(queue: seq<Request>, i: nat, k: Key)
    requires queue != [] && NoneFrom(queue, i + 1, k)
    ensures NoneFrom(queue[1..], i, k)
  {
    forall j | i <= j < |queue[1..]| ensures queue[1..][j].key != k {
      assert queue[1..][j] == queue[j + 1];
    }
  }

  lemma ServeRequests(v: View, sector: Key -> nat, x: Buf)
    requires Shape(v, sector) && v.queue != [] && WritesHold(v) && ReadsWait(v)
    requires x.key == v.bufs[v.queue[0].buf].key && x.done
    ensures WritesHold(Served(v, x)) && ReadsWait(Served(v, x))
  {
    hide NoneFrom;
    var v' := Served(v, x);
    forall i | 0 <= i < |v'.queue| ensures v'.queue[i] == v.queue[i + 1] {
    }
    forall i | 0 <= i < |v'.queue| && !v'.queue[i].write
      ensures
        var r := v'.queue[i];
        && r.key in v.index && v.index[r.key] == r.buf && v'.bufs[r.buf].busy && !v'.bufs[r.buf].done
        && NoneFrom(v'.queue, i + 1, r.key)
    {
      ServedNoneFrom(v.queue, i + 1, v'.queue[i].key);
      NotServedTwice(v, sector, i + 1);
    }
  }

  /** A read that waits is not for the buffer of the request in service. */
  lemma NotServedTwice(v: View, sector: Key -> nat, i: nat)
    requires Shape(v, sector) && WritesHold(v) && ReadsWait(v) && 0 < i < |v.queue| && !v.queue[i].write
    ensures v.queue[i].buf != v.queue[0].buf
  {
    var r := v.queue[0];
    assert !r.write ==> NoneFrom(v.queue, 1, r.key);
  }

  /** The end of a write transfer. */
  lemma ServeWriteStep(v: View, sector: Key -> nat, x: Buf)
    requires Shape(v, sector) && v.queue != [] && v.queue[0].write
    requires var y := v.bufs[v.queue[0].buf]; x.key == y.key && x.dirty == y.dirty && x.done && x.data == y.data
    ensures var v' := Served(v, x); Shape(v', sector) && (Agrees(v) ==> Agrees(v') && SameLogical(v, v'))
  {
    hide After, Data, Settled, NoneFrom, ReadsWait;
    ServeShape(v, sector, x);
    if Agrees(v) {
      forall k ensures Settled(Served(v, x), k) == Settled(v, k) {
        ServeSettles(v, x, k);
      }
      ServeRequests(v, sector, x);
    }
  }

  lemma ReadGets(v: View, k: Key)
    requires v.queue != [] && !v.queue[0].write && NoneFrom(v.queue, 1, k)
    ensures Settled(v, k) == if k in v.disk then v.disk[k] else ZeroBlock()
  {
    AfterPrefix(v.disk, v.queue, Data(v.bufs), k, 0);
  }

  /** The end of a read transfer: the buffer holds the logical block. */
  lemma ServeReadStep(v: View, sector: Key -> nat, x: Buf)
    requires Shape(v, sector) && v.queue != [] && !v.queue[0].write
    requires
      var r := v.queue[0];
      var y := v.bufs[r.buf];
      && x.key == y.key && x.dirty == y.dirty && x.done
      && x.data == if r.key in v.disk then v.disk[r.key] else ZeroBlock()
    ensures
      var v' := Served(v, x);
      && Shape(v', sector)
      && (Agrees(v) ==> Agrees(v') && SameLogical(v, v') && x.data == Logical(v, v.queue[0].key))
  {
    hide After, Data, Settled, NoneFrom, WritesHold;
    ServeShape(v, sector, x);
    if Agrees(v) {
      ReadGets(v, v.queue[0].key);
      forall k ensures Settled(Served(v, x), k) == Settled(v, k) {
        ServeSettles(v, x, k);
      }
      ServeRequests(v, sector, x);
    }
  }

  lemma ReaderFinds(v: View, v': View, k: Key)
    requires Agrees(v) && SameLogical(v, v') && v.queue != [] && !v.queue[0].write && v.queue[0].buf < |v.bufs|
    requires k == v.queue[0].key
    ensures Logical(v', k) == Logical(v, k) && k in v.index && v.index[k] == v.queue[0].buf
  {
    hide Logical;
  }

  /**
   Writing back a dirty buffer that leaves the hash table keeps the logical blocks exactly if its
   request overtakes none for the block, or the data are what the disk is to hold anyway.
   */
  lemma EvictionExactly(v: View, sector: Key -> nat, b: nat, x: Buf)
    requires Shape(v, sector) && Agrees(v) && b < |v.bufs| && v.bufs[b].dirty
    requires forall k, k' :: sector(k) == sector(k') ==> k == k'
    requires x.key == v.bufs[b].key && x.done && !x.dirty && x.data == v.bufs[b].data
    ensures
      SameLogical(v, WriteQueued(v, sector, b, x, true)) <==>
      !Overtaken(v.queue, sector(x.key)) || x.data == Settled(v, x.key)
  {
    hide Agrees, After, Data;
    var v' := WriteQueued(v, sector, b, x, true);
    if Overtaken(v.queue, sector(x.key)) {
      OvertakenSettles(v, sector, b, x);
      if x.data == Settled(v, x.key) {
        forall k | k != x.key ensures Logical(v', k) == Logical(v, k) {
          OthersSettle(v, sector, b, x, k);
        }
      } else {
        assert Logical(v', x.key) != Logical(v, x.key);
      }
    } else {
      WriteStep(v, sector, b, x, true);
    }
  }

  lemma OvertakenSettles(v: View, sector: Key -> nat, b: nat, x: Buf)
    requires Shape(v, sector) && Agrees(v) && b < |v.bufs| && v.bufs[b].dirty && x.key == v.bufs[b].key
    requires x.data == v.bufs[b].data
    requires forall k, k' :: sector(k) == sector(k') ==> k == k'
    requires Overtaken(v.queue, sector(x.key))
    ensures Settled(WriteQueued(v, sector, b, x, true), x.key) == Settled(v, x.key)
  {
    var p := Place(v.queue, sector(x.key));
    OvertakesExactly(v.queue, sector(x.key));
    var j :| p <= j < |v.queue| && v.queue[j].sec == sector(x.key);
    assert v.queue[j].key == x.key;
    NoReadOf(v, sector, b);
    SameData(v.bufs, b, x);
    assert Data(v.bufs)[b := x.data] == Data(v.bufs);
    AfterInsertAhead(v.disk, v.queue, Data(v.bufs), Request(b, x.key, sector(x.key), true), p, j);
  }

  lemma OthersSettle(v: View, sector: Key -> nat, b: nat, x: Buf, k: Key)
    requires b < |v.bufs| && x.data == v.bufs[b].data && k != x.key
    ensures Settled(WriteQueued(v, sector, b, x, true), k) == Settled(v, k)
  {
    var r := Request(b, x.key, sector(x.key), true);
    SameData(v.bufs, b, x);
    assert Data(v.bufs)[b := x.data] == Data(v.bufs);
    AfterInsert(v.disk, v.queue, Data(v.bufs), r, Place(v.queue, r.sec), k);
  }

  /** The buffer of the first request once its transfer has ended and iodone has run. */
  ghost function Ended(v: View): Buf
    requires v.queue != [] && v.queue[0].buf < |v.bufs|
  {
    var r := v.queue[0];
    var y := v.bufs[r.buf].(done := true);
    var z := if r.write then y else y.(data := if r.key in v.disk then v.disk[r.key] else ZeroBlock());
    if z.asy then z.(busy := false, asy := false) else z.(read := false)
  }

  /** All requests served in turn, with nobody touching the buffers meanwhile. */
  ghost function ServeAll(v: View): View
    decreases |v.queue|
  {
    if v.queue == [] || v.queue[0].buf >= |v.bufs| then v else ServeAll(Served(v, Ended(v)))
  }

  lemma ServeStep(v: View, sector: Key -> nat)
    requires Shape(v, sector) && v.queue != []
    ensures v.queue[0].buf < |v.bufs|
    ensures var v' := Served(v, Ended(v)); Shape(v', sector) && (Agrees(v) ==> Agrees(v') && SameLogical(v, v'))
  {
    hide Agrees, SameLogical;
    if v.queue[0].write {
      ServeWriteStep(v, sector, Ended(v));
    } else {
      ServeReadStep(v, sector, Ended(v));
    }
  }

  /** A cache like w but for buffer b, which w does not have hashed and v1 has under block k. */
  ghost predicate Twin(v: View, w: View, b: nat, k: Key) {
    && v.queue == w.queue && v.disk == w.disk && b < |v.bufs| == |w.bufs|
    && v.bufs == w.bufs[b := v.bufs[b]] && v.bufs[b].data == w.bufs[b].data
    && k !in w.index && v.index == w.index[k := b] && (forall k' :: k' in w.index ==> w.index[k'] != b)
  }

  lemma TwinLogical(v: View, w: View, b: nat, k: Key)
    requires Twin(v, w, b, k)
    ensures forall k' :: k' != k ==> Logical(v, k') == Logical(w, k')
    ensures Logical(v, k) == if v.bufs[b].done then v.bufs[b].data else Logical(w, k)
  {
    hide After, Settled, Data;
    SameData(w.bufs, b, v.bufs[b]);
    assert Data(w.bufs)[b := v.bufs[b].data] == Data(w.bufs);
    SettledSame(w, v);
  }

  lemma TwinStep(v: View, w: View, sector: Key -> nat, b: nat, k: Key)
    requires Twin(v, w, b, k) && v.queue != [] && Shape(w, sector) && ReadsWait(w)
    ensures v.queue[0].buf < |v.bufs|
    ensures
      var v' := Served(v, Ended(v));
      && Twin(v', Served(w, Ended(w)), b, k) && v'.bufs[b].data == v.bufs[b].data
      && v'.bufs[b].done == (v.bufs[b].done || v.queue[0].buf == b)
  {
    HeadInRange(w, sector);
    var r := v.queue[0];
    if r.buf == b {
      assert r.write;
    } else {
      assert v.bufs[r.buf] == w.bufs[r.buf];
    }
    var v', w' := Served(v, Ended(v)), Served(w, Ended(w));
    forall c | 0 <= c < |v.bufs| && c != b ensures v'.bufs[c] == w'.bufs[c] {
      assert v.bufs[c] == w.bufs[c];
    }
  }

  lemma {:induction false} TwinServed(v: View, w: View, sector: Key -> nat, b: nat, k: Key)
    requires Twin(v, w, b, k) && Shape(w, sector) && Agrees(w)
    ensures forall k' :: k' != k ==> Logical(ServeAll(v), k') == Logical(w, k')
    ensures Logical(ServeAll(v), k) == if v.bufs[b].done || Queued(v.queue, b) then v.bufs[b].data else Logical(w, k)
    decreases |v.queue|
  {
    hide Logical, Served, Ended, Twin, Agrees, Shape;
    if v.queue == [] {
      TwinLogical(v, w, b, k);
    } else {
      assert Queued(v.queue, b) <==> v.queue[0].buf == b || Queued(v.queue[1..], b) by {
        if i :| 0 < i < |v.queue| && v.queue[i].buf == b {
          assert v.queue[1..][i - 1].buf == b;
        }
      }
      assert ReadsWait(w) by {
        AgreesParts(w);
      }
      TwinStep(v, w, sector, b, k);
      TwinParts(v, w, b, k);
      ServeStep(w, sector);
      var v', w' := Served(v, Ended(v)), Served(w, Ended(w));
      ServedQueue(v);
      TwinServed(v', w', sector, b, k);
    }
  }

  lemma AgreesParts(v: View)
    requires Agrees(v)
    ensures CleanAgrees(v) && WritesHold(v) && ReadsWait(v)
  {
  }

  lemma TwinParts(v: View, w: View, b: nat, k: Key)
    requires Twin(v, w, b, k)
    ensures v.queue == w.queue && b < |v.bufs| == |w.bufs|
  {
  }

  lemma ServedQueue(v: View)
    requires v.queue != [] && v.queue[0].buf < |v.bufs|
    ensures Served(v, Ended(v)).queue == v.queue[1..]
  {
  }

  /**
   Once the queue is served, recycling a clean free buffer has kept the logical blocks exactly if
   no write was still to be taken from it, or its old data are what the new block holds anyway.
   */
  lemma RecycleExactly(v: View, sector: Key -> nat, b: nat, k: Key)
    requires Shape(v, sector) && Agrees(v) && b < |v.bufs| && !v.bufs[b].busy && !v.bufs[b].dirty
    requires k !in v.index && k.dev != NoDev
    ensures
      SameLogical(v, ServeAll(Recycled(v, b, k))) <==>
      !Queued(v.queue, b) || v.bufs[b].data == Logical(v, k)
  {
    hide Agrees, Shape, Logical, Queued;
    var w := Withdrawn(v, b);
    WithdrawStep(v, sector, b);
    TwinServed(Recycled(v, b, k), w, sector, b, k);
    forall k' ensures Logical(w, k') == Logical(v, k') {
      assert SameLogical(v, w);
    }
  }

  /** Buffer b with its data and no block. */
  ghost function Withdrawn(v: View, b: nat): View
    requires b < |v.bufs|
  {
    v.(bufs := v.bufs[b := Buf(Key(NoDev, 0), false, false, false, false, false, v.bufs[b].data)],
      index := Unhashed(v, b))
  }

  lemma WithdrawStep(v: View, sector: Key -> nat, b: nat)
    requires Shape(v, sector) && Agrees(v) && b < |v.bufs| && !v.bufs[b].busy && !v.bufs[b].dirty
    ensures
      var w := Withdrawn(v, b);
      && Shape(w, sector) && Agrees(w) && SameLogical(v, w)
      && forall k :: k !in v.index ==> Twin(Recycled(v, b, k), w, b, k)
  {
    hide After, Data, Settled, NoneFrom;
    var w := Withdrawn(v, b);
    SameData(v.bufs, b, w.bufs[b]);
    assert Data(v.bufs)[b := w.bufs[b].data] == Data(v.bufs);
    SettledSame(v, w);
  }
}
