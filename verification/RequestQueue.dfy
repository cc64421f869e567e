/**
 The request queue of the disk driver (driver/ide.c): the request in service, then the waiting
 ones in the order in which they will be served. A new request is sorted in by sector.
 */
module RequestQueue {
  import opened Blocks

  datatype Key = Key(dev: nat, block: nat)

  /** A transfer of one block between buffer buf and sector sec, which is that of block key. */
  datatype Request = Request(buf: nat, key: Key, sec: nat, write: bool)

  /** The sector fits between request p - 1 and request p. */
  predicate Fits(queue: seq<Request>, sec: nat, p: nat) {
    1 <= p < |queue| && queue[p - 1].sec < sec <= queue[p].sec
  }

  /** The place the scan from request i on finds for a request for sector sec. */
  function PlaceFrom(queue: seq<Request>, sec: nat, i: nat): (p: nat)
    requires i < |queue|
    ensures i < p <= |queue| && (p < |queue| ==> Fits(queue, sec, p))
    ensures forall q :: i < q < p ==> !Fits(queue, sec, q)
    decreases |queue| - i
  {
    if i + 1 == |queue| then |queue|
    else if queue[i].sec < sec <= queue[i + 1].sec then i + 1
    else PlaceFrom(queue, sec, i + 1)
  }

  /** Where a new request goes: to the first place that fits, the request in service counting as one of the queue. */
  function Place(queue: seq<Request>, sec: nat): (p: nat)
    ensures p <= |queue| && (queue != [] ==> 1 <= p)
    ensures p < |queue| ==> Fits(queue, sec, p)
    ensures forall q :: 0 < q < p ==> !Fits(queue, sec, q)
  {
    if queue == [] then 0 else PlaceFrom(queue, sec, 0)
  }

  function Insert(queue: seq<Request>, r: Request): seq<Request> {
    queue[..Place(queue, r.sec)] + [r] + queue[Place(queue, r.sec)..]
  }

  /** A request for sector sec waits behind one for a lower sector, in service or not. */
  ghost predicate Overtaken(queue: seq<Request>, sec: nat) {
    exists i, j :: 0 <= i < j < |queue| && queue[i].sec < sec == queue[j].sec
  }

  /** Ahead of the place found, no request for the sector or a higher one is behind one for a lower sector. */
  lemma {:induction false} LowStayLow(queue: seq<Request>, sec: nat, j: nat, k: nat)
    requires j <= k < Place(queue, sec) && queue[j].sec < sec
    ensures queue[k].sec < sec
    decreases k
  {
    if j < k {
      LowStayLow(queue, sec, j, k - 1);
      assert !Fits(queue, sec, k);
    }
  }

  /**
   A new request is served after all earlier requests for its sector if and only if none of
   them waits behind a request for a lower sector.
   */
  lemma OvertakesExactly(queue: seq<Request>, sec: nat)
    ensures (forall j :: Place(queue, sec) <= j < |queue| ==> queue[j].sec != sec) <==> !Overtaken(queue, sec)
  {
    var p := Place(queue, sec);
    if j :| p <= j < |queue| && queue[j].sec == sec {
      assert 0 <= p - 1 < j && queue[p - 1].sec < sec == queue[j].sec;
    }
    if i, j :| 0 <= i < j < |queue| && queue[i].sec < sec == queue[j].sec {
      if j < p {
        LowStayLow(queue, sec, i, j);
        assert false;
      }
    }
  }

  /** The requests after an insertion. */
  lemma InsertedAt(queue: seq<Request>, r: Request, i: nat)
    requires i <= |queue|
    ensures
      var p := Place(queue, r.sec);
      |Insert(queue, r)| == |queue| + 1 &&
      Insert(queue, r)[i] == if i < p then queue[i] else if i == p then r else queue[i - 1]
  {
  }

  /** A new request does not bring two requests out of order. */
  lemma InsertKeepsOvertaken(queue: seq<Request>, r: Request, sec: nat)
    requires Overtaken(queue, sec)
    ensures Overtaken(Insert(queue, r), sec)
  {
    hide Insert, Place;
    var p := Place(queue, r.sec);
    var i, j :| 0 <= i < j < |queue| && queue[i].sec < sec == queue[j].sec;
    var i', j' := if i < p then i else i + 1, if j < p then j else j + 1;
    InsertedAt(queue, r, i');
    InsertedAt(queue, r, j');
    assert Insert(queue, r)[i'].sec < sec == Insert(queue, r)[j'].sec;
  }

  /** Ahead of a waiting request, a new one goes in just behind one for a still lower sector. */
  lemma InsertBringsNone(queue: seq<Request>, r: Request, sec: nat)
    requires r.sec != sec && Overtaken(Insert(queue, r), sec)
    ensures Overtaken(queue, sec)
  {
    hide Insert;
    var p := Place(queue, r.sec);
    InsertedAt(queue, r, 0);
    var i, j :| 0 <= i < j < |Insert(queue, r)| && Insert(queue, r)[i].sec < sec == Insert(queue, r)[j].sec;
    InsertedAt(queue, r, i);
    InsertedAt(queue, r, j);
    var i0, j0 := if i < p then i else i - 1, if j < p then j else j - 1;
    assert queue[i0].sec < sec == queue[j0].sec;
  }

  /** A new request for another sector makes no difference to whether a sector is overtaken. */
  lemma InsertOvertaken(queue: seq<Request>, r: Request, sec: nat)
    requires r.sec != sec
    ensures Overtaken(Insert(queue, r), sec) <==> Overtaken(queue, sec)
  {
    hide Insert;
    if Overtaken(queue, sec) {
      InsertKeepsOvertaken(queue, r, sec);
    } else if Overtaken(Insert(queue, r), sec) {
      InsertBringsNone(queue, r, sec);
    }
  }

  /** ide_rw_block: puts a request in its place. */
  method Enqueue(queue: seq<Request>, r: Request) returns (queue': seq<Request>)
    ensures queue' == Insert(queue, r)
    ensures Overtaken(queue, r.sec) <==> exists j :: Place(queue, r.sec) < j < |queue'| && queue'[j].sec == r.sec
  {
    if queue == [] {
      queue' := [r];
    } else {
      var i := 0;
      while i + 1 < |queue| && !(queue[i].sec < r.sec <= queue[i + 1].sec)
        invariant i < |queue|
        invariant Place(queue, r.sec) == PlaceFrom(queue, r.sec, i)
      {
        i := i + 1;
      }
      queue' := queue[..i + 1] + [r] + queue[i + 1..];
    }
    OvertakesExactly(queue, r.sec);
    forall j | Place(queue, r.sec) <= j < |queue| ensures queue'[j + 1] == queue[j] {
    }
  }

  ghost function Held(data: seq<Block>, b: nat): Block {
    if b < |data| then data[b] else ZeroBlock()
  }

  /** What block key holds once the queue is served: the data of the last write to it, or what the disk has. */
  ghost function After(disk: map<Key, Block>, queue: seq<Request>, data: seq<Block>, key: Key): Block
  {
    if queue == [] then (if key in disk then disk[key] else ZeroBlock())
    else
      var r := queue[|queue| - 1];
      if r.write && r.key == key then Held(data, r.buf)
      else After(disk, queue[..|queue| - 1], data, key)
  }

  /** No request for key from place p on. */
  ghost predicate NoneFrom(queue: seq<Request>, p: nat, key: Key) {
    forall j :: p <= j < |queue| ==> queue[j].key != key
  }

  /** Requests behind the last one for a block do not matter to it. */
  lemma {:induction false} AfterPrefix(disk: map<Key, Block>, queue: seq<Request>, data: seq<Block>, key: Key, p: nat)
    requires p <= |queue| && forall j :: p <= j < |queue| ==> !(queue[j].write && queue[j].key == key)
    ensures After(disk, queue, data, key) == After(disk, queue[..p], data, key)
    decreases |queue|
  {
    if p < |queue| {
      var front := queue[..|queue| - 1];
      AfterPrefix(disk, front, data, key, p);
      assert front[..p] == queue[..p];
    } else {
      assert queue[..p] == queue;
    }
  }

  /** What a new request does to the block it is for, and to the others. */
  lemma {:induction false} AfterInsert(disk: map<Key, Block>, queue: seq<Request>, data: seq<Block>, r: Request, p: nat,
      key: Key)
    requires p <= |queue| && (key == r.key ==> NoneFrom(queue, p, key))
    ensures
      After(disk, queue[..p] + [r] + queue[p..], data, key) ==
      if r.write && r.key == key then Held(data, r.buf) else After(disk, queue, data, key)
    decreases |queue|
  {
    var longer := queue[..p] + [r] + queue[p..];
    if p == |queue| {
      assert longer[..|longer| - 1] == queue;
    } else {
      var front := queue[..|queue| - 1];
      AfterInsert(disk, front, data, r, p, key);
      assert longer[..|longer| - 1] == front[..p] + [r] + front[p..];
      assert longer[|longer| - 1] == queue[|queue| - 1];
    }
  }

  /** Serving the first request makes no difference to what the queue leaves. */
  lemma {:induction false} AfterServe(disk: map<Key, Block>, queue: seq<Request>, data: seq<Block>, key: Key)
    requires queue != []
    ensures
      var r := queue[0];
      var disk' := if r.write then disk[r.key := Held(data, r.buf)] else disk;
      After(disk', queue[1..], data, key) == After(disk, queue, data, key)
    decreases |queue|
  {
    var r := queue[0];
    if |queue| > 1 {
      var front := queue[..|queue| - 1];
      AfterServe(disk, front, data, key);
      assert queue[1..][..|queue| - 2] == front[1..];
    } else {
      assert queue[1..] == [] && queue[..0] == [];
      assert After(disk, [], data, key) == if key in disk then disk[key] else ZeroBlock();
    }
  }

  /** Only the data of buffers with a write to the block queued matter to it. */
  lemma {:induction false} AfterSameData(disk: map<Key, Block>, queue: seq<Request>, data: seq<Block>,
      data': seq<Block>, key: Key)
    requires forall i :: 0 <= i < |queue| && queue[i].write && queue[i].key == key ==>
      Held(data', queue[i].buf) == Held(data, queue[i].buf)
    ensures After(disk, queue, data', key) == After(disk, queue, data, key)
    decreases |queue|
  {
    if queue != [] {
      AfterSameData(disk, queue[..|queue| - 1], data, data', key);
    }
  }

  /**
   A read is served with what the requests before it leave. That is what the whole queue leaves,
   whatever the buffers and the disk hold, if and only if no write to the block is behind it.
   */
  lemma ReadSeesAfter(queue: seq<Request>, p: nat, key: Key)
    requires p < |queue| && !queue[p].write && queue[p].key == key
    requires forall i, j ::
      0 <= i < j < |queue| && queue[i].write && queue[j].write &&
      queue[i].key == queue[j].key == key ==>
        queue[i].buf != queue[j].buf
    ensures
      (forall disk, data :: After(disk, queue[..p], data, key) == After(disk, queue, data, key)) <==>
      (forall j :: p < j < |queue| ==> !(queue[j].write && queue[j].key == key))
  {
    if forall j :: p < j < |queue| ==> !(queue[j].write && queue[j].key == key) {
      forall disk, data ensures After(disk, queue[..p], data, key) == After(disk, queue, data, key) {
        AfterPrefix(disk, queue, data, key, p);
      }
    } else {
      var disk, data := StaleRead(queue, p, key);
    }
  }

  /** Contents for which a read ahead of a write gets the old data. */
  lemma {:induction false} StaleRead(queue: seq<Request>, p: nat, key: Key)
    returns (disk: map<Key, Block>, data: seq<Block>)
    requires p < |queue| && exists j :: p < j < |queue| && queue[j].write && queue[j].key == key
    requires forall i, j ::
      0 <= i < j < |queue| && queue[i].write && queue[j].write &&
      queue[i].key == queue[j].key == key ==>
        queue[i].buf != queue[j].buf
    ensures After(disk, queue[..p], data, key) != After(disk, queue, data, key)
  {
    var j := LastWrite(queue, key, |queue|);
    var ones: Block := seq(BlockSize, _ => 1);
    var w := queue[j].buf;
    disk, data := map[], seq(w, _ => ZeroBlock()) + [ones];
    AfterPrefix(disk, queue, data, key, j + 1);
    assert queue[..j + 1][..j] == queue[..j];
    assert After(disk, queue[..j + 1], data, key) == ones;
    AllZero(disk, queue[..p], data, key);
    assert ones[0] != ZeroBlock()[0];
  }

  lemma {:induction false} AllZero(disk: map<Key, Block>, queue: seq<Request>, data: seq<Block>, key: Key)
    requires disk == map[]
    requires forall i :: 0 <= i < |queue| && queue[i].write && queue[i].key == key ==>
      Held(data, queue[i].buf) == ZeroBlock()
    ensures After(disk, queue, data, key) == ZeroBlock()
    decreases |queue|
  {
    if queue != [] {
      AllZero(disk, queue[..|queue| - 1], data, key);
    }
  }

  lemma {:induction false} LastWrite(queue: seq<Request>, key: Key, n: nat) returns (j: nat)
    requires n <= |queue| && exists i :: 0 <= i < n && queue[i].write && queue[i].key == key
    ensures j < n && queue[j].write && queue[j].key == key
    ensures forall i :: j < i < n ==> !(queue[i].write && queue[i].key == key)
    decreases n
  {
    if queue[n - 1].write && queue[n - 1].key == key {
      j := n - 1;
    } else {
      j := LastWrite(queue, key, n - 1);
    }
  }

  /** A request that goes in ahead of a queued write to its block makes no difference to the block. */
  lemma {:induction false} AfterInsertAhead(disk: map<Key, Block>, queue: seq<Request>, data: seq<Block>, r: Request,
      p: nat, j: nat)
    requires p <= j < |queue| && queue[j].write && queue[j].key == r.key
    ensures After(disk, queue[..p] + [r] + queue[p..], data, r.key) == After(disk, queue, data, r.key)
    decreases |queue|
  {
    var longer := queue[..p] + [r] + queue[p..];
    var front := queue[..|queue| - 1];
    assert longer[..|longer| - 1] == front[..p] + [r] + front[p..];
    assert longer[|longer| - 1] == queue[|queue| - 1];
    if j < |queue| - 1 {
      AfterInsertAhead(disk, front, data, r, p, j);
    }
  }

  /** Sector 4 is in service and a request for sector 8 waits: a new request for sector 8 goes in between. */
  lemma OvertakingExample(a: Request, c: Request, r: Request)
    requires a.sec == 4 && c.sec == 8 && r.sec == 8
    ensures Overtaken([a, c], 8) && Insert([a, c], r) == [a, r, c]
  {
    var queue := [a, c];
    assert queue[0].sec < 8 == queue[1].sec;
    assert Fits(queue, 8, 1);
  }
}
