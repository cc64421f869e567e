/**
 The kernel timers of driver/timer.c, with one tick for each run of the timer bottom half. Timers
 of up to HZ ticks count down on list 0; longer ones wait on list 1, which a timer of list 0
 sweeps every HZ ticks. What the timer procedures do happens between ticks.
 */
module Timers {
  const Hz: nat := 100
  /** The timer that sweeps list 1 (sync_sync1). */
  const Sweeper: nat := 0

  datatype Timer = Timer(id: nat, expire: nat)

  /** How often timer id is on the list. */
  function Count(list: seq<Timer>, id: nat): nat {
    if list == [] then 0 else (if list[0].id == id then 1 else 0) + Count(list[1..], id)
  }

  ghost predicate Has(list: seq<Timer>, id: nat, e: int) {
    e >= 0 && Timer(id, e) in list
  }

  lemma {:induction false} CountConcat(a: seq<Timer>, b: seq<Timer>, id: nat)
    ensures Count(a + b, id) == Count(a, id) + Count(b, id)
  {
    if a == [] {
      assert a + b == b;
    } else {
      CountConcat(a[1..], b, id);
      assert (a + b)[1..] == a[1..] + b;
    }
  }

  lemma CountOne(t: Timer, id: nat)
    ensures Count([t], id) == if t.id == id then 1 else 0
  {
  }

  lemma HasAdd(list: seq<Timer>, t: Timer, id: nat, e: int)
    ensures Has(list + [t], id, e) <==> Has(list, id, e) || (t.id == id && t.expire == e)
    ensures Has([t] + list, id, e) <==> Has(list, id, e) || (t.id == id && t.expire == e)
  {
  }

  lemma HasIff(list: seq<Timer>, id: nat, e: nat)
    ensures Has(list, id, e) <==> Timer(id, e) in list
  {
  }

  lemma {:induction false} CountHas(list: seq<Timer>, id: nat, e: int)
    requires Has(list, id, e)
    ensures Count(list, id) >= 1
  {
    if list[0] != Timer(id, e) {
      CountHas(list[1..], id, e);
    }
  }

  lemma {:induction false} CountTwo(list: seq<Timer>, id: nat, e: int, e': int)
    requires Has(list, id, e) && Has(list, id, e') && e != e'
    ensures Count(list, id) >= 2
  {
    if list[0] == Timer(id, e) {
      CountHas(list[1..], id, e');
    } else if list[0] == Timer(id, e') {
      CountHas(list[1..], id, e);
    } else {
      CountTwo(list[1..], id, e, e');
    }
  }

  ghost predicate Long(list1: seq<Timer>) {
    forall i :: 0 <= i < |list1| ==> list1[i].expire > Hz
  }

  /** What one sweep of list 1 makes of its first n timers. */
  ghost predicate Swept(list1: seq<Timer>, moved: seq<Timer>, rest: seq<Timer>) {
    && (forall id, e :: Has(moved, id, e) <==> 0 <= e <= Hz && Later(list1, id, e, Hz))
    && (forall id, e :: Has(rest, id, e) <==> e > Hz && Later(list1, id, e, Hz))
    && (forall id :: Count(moved, id) + Count(rest, id) == Count(list1, id))
  }

  ghost predicate Later(list: seq<Timer>, id: nat, e: int, k: nat) {
    Has(list, id, e + k)
  }

  lemma SweptNext(list1: seq<Timer>, moved: seq<Timer>, rest: seq<Timer>, u: Timer)
    requires Swept(list1, moved, rest) && u.expire > Hz
    ensures
      var t := Timer(u.id, u.expire - Hz);
      if t.expire <= Hz then Swept(list1 + [u], [t] + moved, rest) else Swept(list1 + [u], moved, rest + [t])
  {
    hide Has, Count;
    var t := Timer(u.id, u.expire - Hz);
    forall id, e ensures Later(list1 + [u], id, e, Hz) <==> Later(list1, id, e, Hz) || (t.id == id && t.expire == e) {
      HasAdd(list1, u, id, e + Hz);
    }
    forall id, e ensures Has([t] + moved, id, e) <==> Has(moved, id, e) || (t.id == id && t.expire == e) {
      HasAdd(moved, t, id, e);
    }
    forall id, e ensures Has(rest + [t], id, e) <==> Has(rest, id, e) || (t.id == id && t.expire == e) {
      HasAdd(rest, t, id, e);
    }
    forall id ensures
      && Count(list1 + [u], id) == Count(list1, id) + Count([u], id) && Count([u], id) == Count([t], id)
      && Count([t] + moved, id) == Count(moved, id) + Count([t], id)
      && Count(rest + [t], id) == Count(rest, id) + Count([t], id)
    {
      CountConcat(list1, [u], id);
      CountConcat([t], moved, id);
      CountConcat(rest, [t], id);
      CountOne(u, id);
      CountOne(t, id);
    }
  }

  lemma SweptNone()
    ensures Swept([], [], [])
  {
  }

  /** do_with_sync1: one sweep of list 1, and what it puts at the head of list 0. */
  method SweepLong(list1: seq<Timer>) returns (moved: seq<Timer>, rest: seq<Timer>)
    requires Long(list1)
    ensures Swept(list1, moved, rest)
  {
    hide Swept;
    moved, rest := [], [];
    SweptNone();
    assert list1[..0] == [];
    for i := 0 to |list1|
      invariant Swept(list1[..i], moved, rest)
    {
      assert list1[..i + 1] == list1[..i] + [list1[i]];
      SweptNext(list1[..i], moved, rest, list1[i]);
      var t := Timer(list1[i].id, list1[i].expire - Hz);
      if t.expire <= Hz {
        moved := [t] + moved;
      } else {
        rest := rest + [t];
      }
    }
    assert list1[..|list1|] == list1;
  }

  /** What a tick makes of list 0: the timers that go on, one tick less, and those that expire. */
  ghost predicate Counted(list0: seq<Timer>, kept: seq<Timer>, expired: seq<Timer>) {
    && (forall id, e :: Has(kept, id, e) <==> e >= 1 && Later(list0, id, e, 1))
    && (forall id :: Has(expired, id, 0) <==> Has(list0, id, 1))
    && (forall id :: Count(kept, id) + Count(expired, id) == Count(list0, id))
  }

  lemma CountedNext(list0: seq<Timer>, kept: seq<Timer>, expired: seq<Timer>, u: Timer)
    requires Counted(list0, kept, expired) && u.expire >= 1
    ensures
      if u.expire > 1 then Counted(list0 + [u], kept + [Timer(u.id, u.expire - 1)], expired)
      else Counted(list0 + [u], kept, expired + [Timer(u.id, 0)])
  {
    hide Has, Count;
    var t := if u.expire > 1 then Timer(u.id, u.expire - 1) else Timer(u.id, 0);
    forall id, e ensures Later(list0 + [u], id, e, 1) <==> Later(list0, id, e, 1) || (u.id == id && u.expire - 1 == e) {
      HasAdd(list0, u, id, e + 1);
    }
    forall id ensures Has(list0 + [u], id, 1) <==> Has(list0, id, 1) || (u.id == id && u.expire == 1) {
      HasAdd(list0, u, id, 1);
    }
    forall id, e ensures Has(kept + [t], id, e) <==> Has(kept, id, e) || (t.id == id && t.expire == e) {
      HasAdd(kept, t, id, e);
    }
    forall id, e ensures Has(expired + [t], id, e) <==> Has(expired, id, e) || (t.id == id && t.expire == e) {
      HasAdd(expired, t, id, e);
    }
    forall id ensures
      && Count(list0 + [u], id) == Count(list0, id) + Count([u], id) && Count([u], id) == Count([t], id)
      && Count(kept + [t], id) == Count(kept, id) + Count([t], id)
      && Count(expired + [t], id) == Count(expired, id) + Count([t], id)
    {
      CountConcat(list0, [u], id);
      CountConcat(kept, [t], id);
      CountConcat(expired, [t], id);
      CountOne(u, id);
      CountOne(t, id);
    }
  }

  lemma CountedNone()
    ensures Counted([], [], [])
  {
  }

  ghost predicate Short(list0: seq<Timer>) {
    forall i :: 0 <= i < |list0| ==> 1 <= list0[i].expire <= Hz
  }

  lemma ShortFrom(list: seq<Timer>)
    requires forall id, e :: Has(list, id, e) ==> 1 <= e <= Hz
    ensures Short(list)
  {
    forall i | 0 <= i < |list| ensures 1 <= list[i].expire <= Hz {
      assert Has(list, list[i].id, list[i].expire);
    }
  }

  lemma LongFrom(list: seq<Timer>)
    requires forall id, e :: Has(list, id, e) ==> e > Hz
    ensures Long(list)
  {
    forall i | 0 <= i < |list| ensures list[i].expire > Hz {
      assert Has(list, list[i].id, list[i].expire);
    }
  }

  lemma HasShort(list: seq<Timer>)
    requires Short(list)
    ensures forall id, e :: Has(list, id, e) ==> 1 <= e <= Hz
  {
  }

  lemma HasLong(list: seq<Timer>)
    requires Long(list)
    ensures forall id, e :: Has(list, id, e) ==> e > Hz
  {
  }

  lemma HasConcat(a: seq<Timer>, b: seq<Timer>)
    ensures forall id, e :: Has(a + b, id, e) <==> Has(a, id, e) || Has(b, id, e)
    ensures forall id :: Count(a + b, id) == Count(a, id) + Count(b, id)
  {
    forall id ensures Count(a + b, id) == Count(a, id) + Count(b, id) {
      CountConcat(a, b, id);
    }
  }

  lemma HasOne(t: Timer)
    ensures forall id, e :: Has([t], id, e) <==> t.id == id && t.expire == e
    ensures forall id :: Count([t], id) == if t.id == id then 1 else 0
  {
    forall id ensures Count([t], id) == if t.id == id then 1 else 0 {
      CountOne(t, id);
    }
  }

  /** The sweeper is on list 0 once, so it has one expiry. */
  lemma OneSweep(list0: seq<Timer>, list1: seq<Timer>, sweep: nat, e: int)
    requires Has(list0, Sweeper, sweep) && Count(list0, Sweeper) + Count(list1, Sweeper) <= 1 && Has(list0, Sweeper, e)
    ensures e == sweep
  {
    if e != sweep {
      CountTwo(list0, Sweeper, sweep, e);
    }
  }

  /** Short timers on list 0, long ones on list 1, each at most once; the sweeper goes off in sweep ticks. */
  ghost predicate Sound(list0: seq<Timer>, list1: seq<Timer>, sweep: nat) {
    && Short(list0) && Long(list1) && 1 <= sweep <= Hz && Has(list0, Sweeper, sweep)
    && (forall id :: Count(list0, id) + Count(list1, id) <= 1)
  }

  /** Timer id is due k ticks later than n, with the lists and the time to the sweep as given. */
  ghost predicate DueAfter(list0: seq<Timer>, list1: seq<Timer>, sweep: nat, id: nat, n: int, k: nat) {
    Has(list0, id, n + k) || Has(list1, id, n + k + Hz - sweep)
  }

  /** Of the timers of list 0, those expire in a tick that are due in it, once; and the sweeper if the sweep is due. */
  lemma ExpiredExactly(list0: seq<Timer>, list1: seq<Timer>, sweep: nat, kept: seq<Timer>, expired: seq<Timer>)
    requires Sound(list0, list1, sweep) && Counted(list0, kept, expired)
    ensures Has(expired, Sweeper, 0) <==> sweep == 1
    ensures forall id ::
      (Has(expired, id, 0) <==> DueAfter(list0, list1, sweep, id, 1, 0)) && Count(expired, id) <= 1
  {
    hide Has, Count, Short, Long;
    HasLong(list1);
    if Has(list0, Sweeper, 1) {
      OneSweep(list0, list1, sweep, 1);
    }
  }

  lemma PlainSound(list0: seq<Timer>, list1: seq<Timer>, sweep: nat, kept: seq<Timer>, expired: seq<Timer>)
    requires Sound(list0, list1, sweep) && Counted(list0, kept, expired) && sweep > 1
    ensures Sound(kept, list1, sweep - 1)
  {
    hide Has, Count, Short, Long;
    HasShort(list0);
    assert Later(list0, Sweeper, sweep - 1, 1);
    forall id, e | Has(kept, id, e) ensures 1 <= e <= Hz {
      assert Later(list0, id, e, 1);
    }
    ShortFrom(kept);
  }

  lemma PlainDue(list0: seq<Timer>, list1: seq<Timer>, sweep: nat, kept: seq<Timer>, expired: seq<Timer>, id: nat,
                 n: int)
    requires Counted(list0, kept, expired) && sweep > 1 && n >= 1
    ensures DueAfter(kept, list1, sweep - 1, id, n, 0) <==> DueAfter(list0, list1, sweep, id, n, 1)
  {
    hide Has, Count;
    assert Has(kept, id, n) <==> Later(list0, id, n, 1);
  }

  /** List 0 after a sweep: the sweeper, what it moved, and what went on. */
  function Head(moved: seq<Timer>, kept: seq<Timer>): seq<Timer> {
    [Timer(Sweeper, Hz)] + moved + kept
  }

  lemma HeadHas(moved: seq<Timer>, kept: seq<Timer>, id: nat, e: int)
    ensures Has(Head(moved, kept), id, e) <==> (id == Sweeper && e == Hz) || Has(moved, id, e) || Has(kept, id, e)
    ensures Count(Head(moved, kept), id) == Count(moved, id) + Count(kept, id) + if id == Sweeper then 1 else 0
  {
    hide Has, Count;
    HasOne(Timer(Sweeper, Hz));
    HasConcat([Timer(Sweeper, Hz)], moved);
    HasConcat([Timer(Sweeper, Hz)] + moved, kept);
  }

  lemma SweepShort(list0: seq<Timer>, list1: seq<Timer>, kept: seq<Timer>, expired: seq<Timer>, moved: seq<Timer>,
                   rest: seq<Timer>)
    requires Short(list0) && Long(list1) && Counted(list0, kept, expired) && Swept(list1, moved, rest)
    ensures Short(Head(moved, kept)) && Long(rest)
  {
    hide Has, Count, Short, Long;
    HasShort(list0);
    HasLong(list1);
    forall id, e | Has(Head(moved, kept), id, e) ensures 1 <= e <= Hz {
      HeadHas(moved, kept, id, e);
      assert Has(kept, id, e) ==> Later(list0, id, e, 1);
      assert Has(moved, id, e) ==> Later(list1, id, e, Hz);
    }
    ShortFrom(Head(moved, kept));
    LongFrom(rest);
  }

  lemma SweepSound(list0: seq<Timer>, list1: seq<Timer>, kept: seq<Timer>, expired: seq<Timer>, moved: seq<Timer>,
                   rest: seq<Timer>)
    requires Sound(list0, list1, 1) && Counted(list0, kept, expired) && Swept(list1, moved, rest)
    ensures Sound(Head(moved, kept), rest, Hz)
  {
    hide Has, Count, Short, Long, Head;
    SweepShort(list0, list1, kept, expired, moved, rest);
    HeadHas(moved, kept, Sweeper, Hz);
    assert Has(expired, Sweeper, 0);
    CountHas(expired, Sweeper, 0);
    forall id ensures Count(Head(moved, kept), id) + Count(rest, id) <= 1 {
      HeadHas(moved, kept, id, 0);
      assert Count(list0, id) + Count(list1, id) <= 1;
    }
  }

  lemma SweepDue(list0: seq<Timer>, list1: seq<Timer>, kept: seq<Timer>, expired: seq<Timer>, moved: seq<Timer>,
                 rest: seq<Timer>, id: nat, n: int)
    requires Counted(list0, kept, expired) && Swept(list1, moved, rest) && id != Sweeper && n >= 1
    ensures DueAfter(Head(moved, kept), rest, Hz, id, n, 0) <==> DueAfter(list0, list1, 1, id, n, 1)
  {
    hide Has, Count, Head;
    HeadHas(moved, kept, id, n);
    assert Has(kept, id, n) <==> Later(list0, id, n, 1);
    assert Has(moved, id, n) <==> n <= Hz && Later(list1, id, n, Hz);
    assert Has(rest, id, n) <==> n > Hz && Later(list1, id, n, Hz);
  }

  class Timers {
    var list0: seq<Timer>
    var list1: seq<Timer>
    /** Ticks to the next sweep of list 1. */
    ghost var sweep: nat

    ghost predicate Valid()
      reads this
    {
      Sound(list0, list1, sweep)
    }

    /** Timer id is to go off in n ticks. */
    ghost predicate Due(id: nat, n: int)
      reads this
    {
      DueAfter(list0, list1, sweep, id, n, 0)
    }

    constructor ()
      ensures Valid() && sweep == Hz && forall id, n :: id != Sweeper ==> !Due(id, n)
    {
      list0, list1, sweep := [Timer(Sweeper, Hz)], [], Hz;
    }

    /** synctimer_set for a timer that is not set: up to HZ ticks exactly, more from the next sweep on. */
    method Set(id: nat, expire: nat)
      requires Valid() && Count(list0, id) + Count(list1, id) == 0
      modifies `list0, `list1
      ensures Valid()
      ensures forall id', n :: Due(id', n) <==>
        old(Due(id', n)) || (id' == id && expire > 0 && n == if expire <= Hz then expire else expire - Hz + sweep)
    {
      hide Has, Count;
      var t := Timer(id, expire);
      if expire > Hz {
        forall id', e ensures Has([t] + list1, id', e) <==> Has(list1, id', e) || (id == id' && expire == e) {
          HasAdd(list1, t, id', e);
        }
        forall id' ensures Count([t] + list1, id') == Count(list1, id') + if id' == id then 1 else 0 {
          CountConcat([t], list1, id');
          CountOne(t, id');
        }
        list1 := [t] + list1;
      } else if expire > 0 {
        forall id', e ensures Has([t] + list0, id', e) <==> Has(list0, id', e) || (id == id' && expire == e) {
          HasAdd(list0, t, id', e);
        }
        forall id' ensures Count([t] + list0, id') == Count(list0, id') + if id' == id then 1 else 0 {
          CountConcat([t], list0, id');
          CountOne(t, id');
        }
        list0 := [t] + list0;
      }
    }

    /** One pass of do_with_sync0 over list 0: what stays, what expires and, if it is due, the sweep of list 1. */
    method CountDown() returns (kept: seq<Timer>, expired: seq<Timer>)
      requires Short(list0)
      ensures Counted(list0, kept, expired)
    {
      hide Counted;
      kept, expired := [], [];
      CountedNone();
      assert list0[..0] == [];
      for i := 0 to |list0|
        invariant Counted(list0[..i], kept, expired)
      {
        assert list0[..i + 1] == list0[..i] + [list0[i]];
        CountedNext(list0[..i], kept, expired, list0[i]);
        if list0[i].expire > 1 {
          kept := kept + [Timer(list0[i].id, list0[i].expire - 1)];
        } else {
          expired := expired + [Timer(list0[i].id, 0)];
        }
      }
      assert list0[..|list0|] == list0;
    }

    /**
     The timer bottom half, one tick: the timers due in one tick go off, and every other one is
     due a tick sooner. What the sweep puts on list 0 goes to its head, where this pass over the
     list does not come any more.
     */
    method Tick() returns (expired: seq<Timer>)
      requires Valid()
      modifies this
      ensures Valid() && sweep == if old(sweep) == 1 then Hz else old(sweep) - 1
      ensures forall id, n :: id != Sweeper && n >= 1 ==>
        (Due(id, n) <==> DueAfter(old(list0), old(list1), old(sweep), id, n, 1))
      ensures forall id :: id != Sweeper ==> (Has(expired, id, 0) <==> old(Due(id, 1))) && Count(expired, id) <= 1
    {
      ghost var was0, was1, was := list0, list1, sweep;
      assert Short(list0) && Long(list1) && 1 <= sweep;
      hide Sound, Counted, Swept, DueAfter, Has, Short, Long;
      var kept;
      kept, expired := CountDown();
      ExpiredExactly(list0, list1, sweep, kept, expired);
      HasIff(expired, Sweeper, 0);
      if Timer(Sweeper, 0) in expired {
        var moved;
        moved, list1 := SweepLong(list1);
        SweepSound(was0, was1, kept, expired, moved, list1);
        forall id, n | id != Sweeper && n >= 1
          ensures DueAfter(Head(moved, kept), list1, Hz, id, n, 0) <==> DueAfter(was0, was1, was, id, n, 1)
        {
          SweepDue(was0, was1, kept, expired, moved, list1, id, n);
        }
        list0 := [Timer(Sweeper, Hz)] + moved + kept;
        sweep := Hz;
      } else {
        PlainSound(was0, was1, was, kept, expired);
        forall id, n | id != Sweeper && n >= 1
          ensures DueAfter(kept, list1, was - 1, id, n, 0) <==> DueAfter(was0, was1, was, id, n, 1)
        {
          PlainDue(was0, was1, was, kept, expired, id, n);
        }
        list0 := kept;
        sweep := sweep - 1;
      }
    }
  }

  /** In n ticks a timer goes off in the tick it was due in, and in no other. */
  method Run(timers: Timers, n: nat) returns (log: seq<seq<Timer>>)
    requires timers.Valid()
    modifies timers
    ensures timers.Valid() && |log| == n
    ensures forall j, id :: 0 <= j < n && id != Sweeper ==>
      && (Has(log[j], id, 0) <==> DueAfter(old(timers.list0), old(timers.list1), old(timers.sweep), id, 1, j))
      && Count(log[j], id) <= 1
    ensures forall id, m :: id != Sweeper && m >= 1 ==>
      (timers.Due(id, m) <==> DueAfter(old(timers.list0), old(timers.list1), old(timers.sweep), id, m, n))
  {
    hide Has, Count, Short, Long;
    ghost var list0, list1, sweep := timers.list0, timers.list1, timers.sweep;
    log := [];
    for k := 0 to n
      invariant timers.Valid() && |log| == k
      invariant forall j, id :: 0 <= j < k && id != Sweeper ==>
        (Has(log[j], id, 0) <==> DueAfter(list0, list1, sweep, id, 1, j)) && Count(log[j], id) <= 1
      invariant forall id, m :: id != Sweeper && m >= 1 ==>
        (timers.Due(id, m) <==> DueAfter(list0, list1, sweep, id, m, k))
    {
      ghost var l0, l1, s := timers.list0, timers.list1, timers.sweep;
      forall id, m | id != Sweeper && m >= 1
        ensures DueAfter(l0, l1, s, id, m, 1) <==> DueAfter(list0, list1, sweep, id, m, k + 1)
      {
        assert timers.Due(id, m + 1) <==> DueAfter(list0, list1, sweep, id, m + 1, k);
      }
      var expired := timers.Tick();
      log := log + [expired];
    }
  }
}
