/**
 The ten circular doubly linked lists of free blocks in mm/page_alloc.c.

 A node is a number: frame p is node p, the list head free_area_list[o] is node frames + o.
 The fields prev and next of mem_map entries and of list heads are two arrays over nodes.
 */
module FreeLists {
  import opened BuddyGeometry
  import opened Sequences

  const ListCount: nat := MaxOrder + 1

  /** The node after position k of a list, the head closing the circle. */
  function After(head: nat, list: seq<nat>, k: int): nat {
    if -1 <= k < |list| - 1 then list[k + 1] else head
  }

  /** The node before position k of a list. */
  function Before(head: nat, list: seq<nat>, k: int): nat {
    if 0 < k <= |list| then list[k - 1] else head
  }

  ghost predicate Below(list: seq<nat>, bound: nat) {
    forall k :: 0 <= k < |list| ==> list[k] < bound
  }

  /** The pointers form the circle head, list[0], ..., list[last], head in both directions. */
  ghost predicate Linked(next: seq<nat>, prev: seq<nat>, head: nat, list: seq<nat>)
    requires head < |next| && head < |prev|
    requires Below(list, |next|) && Below(list, |prev|)
  {
    && next[head] == After(head, list, -1)
    && prev[head] == Before(head, list, |list|)
    && (forall k {:trigger next[list[k]]} :: 0 <= k < |list| ==> next[list[k]] == After(head, list, k))
    && (forall k {:trigger prev[list[k]]} :: 0 <= k < |list| ==> prev[list[k]] == Before(head, list, k))
  }

  /** Lists hold frames, each at most once, and no two lists share a frame. */
  ghost predicate Separate(frames: nat, lists: seq<seq<nat>>) {
    && (forall o :: 0 <= o < |lists| ==> Distinct(lists[o]))
    && (forall o :: 0 <= o < |lists| ==> Below(lists[o], frames))
    && (forall o, o', p :: 0 <= o < |lists| && 0 <= o' < |lists| && p in lists[o] && p in lists[o'] ==> o == o')
  }

  ghost predicate Represents(frames: nat, next: seq<nat>, prev: seq<nat>, lists: seq<seq<nat>>) {
    && |lists| == ListCount
    && |next| == |prev| == frames + ListCount
    && Separate(frames, lists)
    && (forall o :: 0 <= o < ListCount ==> Linked(next, prev, frames + o, lists[o]))
  }

  ghost predicate Listed(lists: seq<seq<nat>>, p: nat) {
    exists o :: 0 <= o < |lists| && p in lists[o]
  }

  function Removed(list: seq<nat>, k: nat): seq<nat>
    requires k < |list|
  {
    list[..k] + list[k + 1..]
  }

  lemma RemovedElements(list: seq<nat>, k: nat)
    requires k < |list| && Distinct(list)
    ensures Distinct(Removed(list, k))
    ensures forall p :: p in Removed(list, k) <==> p in list && p != list[k]
  {
    var less := Removed(list, k);
    forall p ensures p in less <==> p in list && p != list[k] {
      if p in list && p != list[k] {
        var j :| 0 <= j < |list| && list[j] == p;
        assert less[if j < k then j else j - 1] == p;
      }
    }
  }

  /** Pointer writes away from a list's nodes leave it linked. */
  lemma LinkedElsewhere(next: seq<nat>, prev: seq<nat>, next': seq<nat>, prev': seq<nat>, head: nat, list: seq<nat>)
    requires head < |next| && |next| == |prev| == |next'| == |prev'|
    requires Below(list, |next|)
    requires Linked(next, prev, head, list)
    requires next'[head] == next[head] && prev'[head] == prev[head]
    requires forall p :: p in list ==> next'[p] == next[p] && prev'[p] == prev[p]
    ensures Linked(next', prev', head, list)
  {
  }

  lemma LinkedInsert(next: seq<nat>, prev: seq<nat>, head: nat, list: seq<nat>, p: nat)
    requires head < |next| && |next| == |prev| && p < |next|
    requires Below(list, |next|)
    requires p != head && p !in list && head !in list && Distinct(list)
    requires Linked(next, prev, head, list)
    ensures next[head] < |prev|
    ensures Linked(next[p := next[head]][head := p], prev[p := head][next[head] := p], head, [p] + list)
  {
    var next', prev', more := next[p := next[head]][head := p], prev[p := head][next[head] := p], [p] + list;
    forall k | 0 <= k < |more|
      ensures next'[more[k]] == After(head, more, k)
      ensures prev'[more[k]] == Before(head, more, k)
    {
      if k > 0 {
        assert more[k] == list[k - 1] && list[k - 1] in list;
        assert next[list[k - 1]] == After(head, list, k - 1);
        assert prev[list[k - 1]] == Before(head, list, k - 1);
      }
    }
  }

  lemma LinkedRemove(next: seq<nat>, prev: seq<nat>, head: nat, list: seq<nat>, k: nat)
    requires head < |next| && |next| == |prev| && k < |list|
    requires Below(list, |next|)
    requires head !in list && Distinct(list)
    requires Linked(next, prev, head, list)
    ensures
      var before, after := prev[list[k]], next[list[k]];
      && (before == head || before in list) && (after == head || after in list)
      && Linked(next[before := after], prev[after := before], head, Removed(list, k))
  {
    hide Distinct, After, Before;
    LinkedRemoveHead(next, prev, head, list, k);
    var before, after := prev[list[k]], next[list[k]];
    var next', prev', less := next[before := after], prev[after := before], Removed(list, k);
    forall i | 0 <= i < |less|
      ensures next'[less[i]] == After(head, less, i) && prev'[less[i]] == Before(head, less, i)
    {
      LinkedRemoveAt(next, prev, head, list, k, i);
    }
  }

  lemma LinkedRemoveHead(next: seq<nat>, prev: seq<nat>, head: nat, list: seq<nat>, k: nat)
    requires head < |next| && |next| == |prev| && k < |list|
    requires Below(list, |next|)
    requires head !in list && Distinct(list)
    requires Linked(next, prev, head, list)
    ensures
      var before, after, less := prev[list[k]], next[list[k]], Removed(list, k);
      && (before == head || before in list) && (after == head || after in list)
      && (if head == before then after else next[head]) == After(head, less, -1)
      && (if head == after then before else prev[head]) == Before(head, less, |less|)
  {
    assert prev[list[k]] == Before(head, list, k) && next[list[k]] == After(head, list, k);
  }

  lemma LinkedRemoveAt(next: seq<nat>, prev: seq<nat>, head: nat, list: seq<nat>, k: nat, i: nat)
    requires head < |next| && |next| == |prev| && k < |list| && i < |list| - 1
    requires Below(list, |next|)
    requires head !in list && Distinct(list)
    requires Linked(next, prev, head, list)
    ensures
      var before, after, less := prev[list[k]], next[list[k]], Removed(list, k);
      && (if less[i] == before then after else next[less[i]]) == After(head, less, i)
      && (if less[i] == after then before else prev[less[i]]) == Before(head, less, i)
  {
    var j := if i < k then i else i + 1;
    assert Removed(list, k)[i] == list[j] && list[j] in list;
    assert next[list[j]] == After(head, list, j);
    assert prev[list[j]] == Before(head, list, j);
    assert prev[list[k]] == Before(head, list, k) && next[list[k]] == After(head, list, k);
  }

  lemma SeparateRemove(frames: nat, lists: seq<seq<nat>>, o: nat, k: nat)
    requires Separate(frames, lists) && o < |lists| && k < |lists[o]|
    ensures Separate(frames, lists[o := Removed(lists[o], k)])
    ensures !Listed(lists[o := Removed(lists[o], k)], lists[o][k])
  {
    RemovedElements(lists[o], k);
  }

  lemma InsertLinks(frames: nat, next: seq<nat>, prev: seq<nat>, lists: seq<seq<nat>>, o: nat, p: nat)
    requires Represents(frames, next, prev, lists) && o < ListCount && p < frames && !Listed(lists, p)
    ensures
      var head := frames + o;
      var first := next[head];
      && first < |prev|
      && Represents(frames, next[p := first][head := p], prev[p := head][first := p], lists[o := [p] + lists[o]])
  {
    var head := frames + o;
    var first := next[head];
    LinkedInsert(next, prev, head, lists[o], p);
    var more := lists[o := [p] + lists[o]];
    var next', prev' := next[p := first][head := p], prev[p := head][first := p];
    assert first == head || first in lists[o];
    assert Distinct([p] + lists[o]);
    forall o' | 0 <= o' < ListCount && o' != o ensures Linked(next', prev', frames + o', more[o']) {
      assert p !in lists[o'] && (first in lists[o] ==> first !in lists[o']);
      LinkedElsewhere(next, prev, next', prev', frames + o', lists[o']);
    }
  }

  lemma RemoveLinks(frames: nat, next: seq<nat>, prev: seq<nat>, lists: seq<seq<nat>>, o: nat, k: nat)
    requires Represents(frames, next, prev, lists) && o < ListCount && k < |lists[o]|
    ensures
      var p := lists[o][k];
      var before, after := prev[p], next[p];
      && before < |next| && after < |prev|
      && Represents(frames, next[before := after], prev[after := before], lists[o := Removed(lists[o], k)])
      && !Listed(lists[o := Removed(lists[o], k)], p)
  {
    var p := lists[o][k];
    LinkedRemove(next, prev, frames + o, lists[o], k);
    SeparateRemove(frames, lists, o, k);
    var before, after := prev[p], next[p];
    var less := lists[o := Removed(lists[o], k)];
    var next', prev' := next[before := after], prev[after := before];
    forall o' | 0 <= o' < ListCount && o' != o ensures Linked(next', prev', frames + o', less[o']) {
      LinkedElsewhere(next, prev, next', prev', frames + o', lists[o']);
    }
  }

  class FreeAreas {
    const frames: nat
    const next: array<nat>
    const prev: array<nat>
    ghost var lists: seq<seq<nat>>

    ghost predicate Valid()
      reads this, next, prev
    {
      next != prev && Represents(frames, next[..], prev[..], lists)
    }

    /** free_area_init: every list head points at itself. */
    constructor (n: nat)
      ensures Valid() && fresh(next) && fresh(prev) && frames == n
      ensures lists == seq(ListCount, _ => [])
    {
      frames := n;
      next := new nat[n + ListCount](k => k);
      prev := new nat[n + ListCount](k => k);
      lists := seq(ListCount, _ => []);
    }

    method IsEmpty(o: nat) returns (empty: bool)
      requires Valid() && o < ListCount
      ensures empty <==> lists[o] == []
    {
      empty := next[frames + o] == frames + o;
      assert Linked(next[..], prev[..], frames + o, lists[o]);
    }

    method Front(o: nat) returns (p: nat)
      requires Valid() && o < ListCount && lists[o] != []
      ensures p == lists[o][0]
    {
      p := next[frames + o];
      assert Linked(next[..], prev[..], frames + o, lists[o]);
    }

    /** The four pointer writes that put a frame at the front of a list. */
    method InsertFront(o: nat, p: nat)
      requires Valid() && o < ListCount && p < frames && !Listed(lists, p)
      modifies this, next, prev
      ensures Valid()
      ensures lists == old(lists)[o := [p] + old(lists)[o]]
    {
      InsertLinks(frames, next[..], prev[..], lists, o, p);
      var head := frames + o;
      var first := next[head];
      next[p] := first;
      prev[p] := head;
      prev[first] := p;
      next[head] := p;
      lists := lists[o := [p] + lists[o]];
      assert next[..] == old(next[..])[p := first][head := p];
      assert prev[..] == old(prev[..])[p := head][first := p];
    }

    /** Unlinks the frame at position k of list o: its neighbours are joined. */
    method Unlink(o: nat, p: nat, ghost k: nat)
      requires Valid() && o < ListCount && k < |lists[o]| && lists[o][k] == p
      modifies this, next, prev
      ensures Valid()
      ensures lists == old(lists)[o := Removed(old(lists)[o], k)] && !Listed(lists, p)
    {
      RemoveLinks(frames, next[..], prev[..], lists, o, k);
      var before, after := prev[p], next[p];
      next[before] := after;
      prev[after] := before;
      lists := lists[o := Removed(lists[o], k)];
      assert next[..] == old(next[..])[before := after];
      assert prev[..] == old(prev[..])[after := before];
    }
  }
}
