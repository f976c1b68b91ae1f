// The slot-pooled, intrusively linked least-recently-used list of src/common/lruCache.h.
//
// Slots live in a growing pool and are named by their index; freed slots are queued and reused
// first-in first-out.  Live slots form a doubly linked list that the scan of old items leaves at the
// first item that is too new, which is right only because the list stays sorted by tick.
module LruCache {
  /** What the cache holds; its users store the ids of buffers and images. */
  type Object(0, !new)

  /** What the list holds at one place: the slot, the object and the tick of its last use. */
  datatype Entry = Entry(id: nat, value: Object, tick: int)

  /** What a visitor does with the item it is shown: leave it, free it (the only item it may free), or
      stop the scan, with or without freeing the item first. */
  datatype Reaction = Keep | Release | Stop | ReleaseAndStop {
    predicate Frees() { Release? || ReleaseAndStop? }

    predicate Stops() { Stop? || ReleaseAndStop? }
  }

  ghost predicate Sorted(list: seq<Entry>) {
    forall a, b :: 0 <= a < b < |list| ==> list[a].tick <= list[b].tick
  }

  ghost predicate Once(list: seq<Entry>) {
    forall a, b :: 0 <= a < b < |list| ==> list[a].id != list[b].id
  }

  ghost predicate Holds(list: seq<Entry>, id: nat) {
    exists k :: 0 <= k < |list| && list[k].id == id
  }

  ghost function Without(list: seq<Entry>, k: nat): seq<Entry>
    requires k < |list|
  {
    list[..k] + list[k + 1..]
  }

  /** The entries used no later than the bound, wherever they stand in the list. */
  ghost function Below(list: seq<Entry>, bound: int): seq<Entry> {
    if list == [] then []
    else (if list[0].tick <= bound then [list[0]] else []) + Below(list[1..], bound)
  }

  /** How many of the offered entries a visitor gets to see; its n-th reaction may depend on n. */
  ghost function Seen(offered: seq<Entry>, visit: (Object, nat) -> Reaction, n: nat): nat {
    if offered == [] then 0
    else if visit(offered[0].value, n).Stops() then 1
    else 1 + Seen(offered[1..], visit, n + 1)
  }

  /** What a visitor that is shown the first `seen` entries leaves of the list. */
  ghost function Survivors(list: seq<Entry>, visit: (Object, nat) -> Reaction, n: nat, seen: nat): seq<Entry>
    requires seen <= |list|
  {
    if seen == 0 then list
    else (if visit(list[0].value, n).Frees() then [] else [list[0]]) + Survivors(list[1..], visit, n + 1, seen - 1)
  }

  class Item {
    var value: Object
    var tick: int
    var next: Item?
    var prev: Item?

    constructor ()
      ensures next == null && prev == null
    {
      next, prev := null, null;
    }
  }

  // ----- links as values -----

  /** The fields of one slot. */
  datatype Slot = Slot(value: Object, tick: int, prev: Item?, next: Item?)

  /** The pool has one object per slot. */
  ghost predicate Distinct(items: seq<Item>) {
    forall i, j :: 0 <= i < j < |items| ==> items[i] != items[j]
  }

  ghost predicate Named(items: seq<Item>, list: seq<Entry>) {
    Distinct(items) && Once(list) && forall k :: 0 <= k < |list| ==> list[k].id < |items|
  }

  /** The slot object at place k of the list; null before and after the list. */
  ghost function At(items: seq<Item>, list: seq<Entry>, k: int): Item?
    requires Named(items, list)
  {
    if 0 <= k < |list| then items[list[k].id] else null
  }

  ghost predicate Node(items: seq<Item>, slots: seq<Slot>, list: seq<Entry>, k: nat)
    requires Named(items, list) && |slots| == |items| && k < |list|
  {
    slots[list[k].id] == Slot(list[k].value, list[k].tick, At(items, list, k - 1), At(items, list, k + 1))
  }

  /** The links mirror each other and spell out the list. */
  ghost predicate Chain(items: seq<Item>, slots: seq<Slot>, list: seq<Entry>) {
    Named(items, list) && |slots| == |items| && forall k :: 0 <= k < |list| ==> Node(items, slots, list, k)
  }

  /** One slot with the neighbours of place k joined over it. */
  ghost function Joined(items: seq<Item>, slots: seq<Slot>, list: seq<Entry>, k: nat, i: nat): Slot
    requires Named(items, list) && |slots| == |items| && k < |list| && i < |slots|
  {
    var s := slots[i];
    Slot(s.value, s.tick,
         if k + 1 < |list| && i == list[k + 1].id then At(items, list, k - 1) else s.prev,
         if k > 0 && i == list[k - 1].id then At(items, list, k + 1) else s.next)
  }

  ghost predicate Cut(items: seq<Item>, slots: seq<Slot>, list: seq<Entry>, k: nat, slots': seq<Slot>)
    requires Named(items, list) && |slots| == |items| && k < |list|
  {
    |slots'| == |slots| && forall i :: 0 <= i < |slots| ==> slots'[i] == Joined(items, slots, list, k, i)
  }

  lemma ChainWithout(items: seq<Item>, slots: seq<Slot>, list: seq<Entry>, k: nat, slots': seq<Slot>)
    requires Chain(items, slots, list) && k < |list| && Cut(items, slots, list, k, slots')
    ensures Chain(items, slots', Without(list, k))
  {
    var list' := Without(list, k);
    forall j | 0 <= j < |list'| ensures Node(items, slots', list', j) {
      var m := if j < k then j else j + 1;
      assert Node(items, slots, list, m);
      assert slots'[list[m].id] == Joined(items, slots, list, k, list[m].id);
    }
  }

  /** The ends of the list without place k. */
  lemma EndsWithout(items: seq<Item>, list: seq<Entry>, k: nat)
    requires Named(items, list) && k < |list| && Named(items, Without(list, k))
    ensures At(items, list, 0) == At(items, list, k) <==> k == 0
    ensures At(items, list, |list| - 1) == At(items, list, k) <==> k == |list| - 1
    ensures At(items, Without(list, k), 0) == At(items, list, if k == 0 then 1 else 0)
    ensures At(items, Without(list, k), |list| - 2) == At(items, list, if k == |list| - 1 then |list| - 2 else |list| - 1)
  {
  }

  /** One slot after slot id is appended to the list. */
  ghost function Appended(items: seq<Item>, slots: seq<Slot>, list: seq<Entry>, id: nat, i: nat): Slot
    requires Named(items, list) && |slots| == |items| && id < |items| && i < |slots|
  {
    var s := slots[i];
    if i == id then Slot(s.value, s.tick, At(items, list, |list| - 1), null)
    else if list != [] && i == list[|list| - 1].id then Slot(s.value, s.tick, s.prev, items[id])
    else s
  }

  ghost predicate Extended(items: seq<Item>, slots: seq<Slot>, list: seq<Entry>, id: nat, slots': seq<Slot>)
    requires Named(items, list) && |slots| == |items| && id < |items|
  {
    |slots'| == |slots| && forall i :: 0 <= i < |slots| ==> slots'[i] == Appended(items, slots, list, id, i)
  }

  lemma ChainAppend(items: seq<Item>, slots: seq<Slot>, list: seq<Entry>, id: nat, slots': seq<Slot>)
    requires Chain(items, slots, list) && id < |items| && !Holds(list, id) && Extended(items, slots, list, id, slots')
    ensures Chain(items, slots', list + [Entry(id, slots[id].value, slots[id].tick)])
  {
    var list' := list + [Entry(id, slots[id].value, slots[id].tick)];
    forall j | 0 <= j < |list'| ensures Node(items, slots', list', j) {
      if j < |list| { assert Node(items, slots, list, j); }
    }
  }

  /** The chain depends only on the listed slots. */
  lemma ChainKept(items: seq<Item>, slots: seq<Slot>, items': seq<Item>, slots': seq<Slot>,
                             list: seq<Entry>)
    requires Chain(items, slots, list) && items <= items' && Distinct(items') && |slots'| == |items'|
    requires forall k :: 0 <= k < |list| ==> slots'[list[k].id] == slots[list[k].id]
    ensures Chain(items', slots', list)
  {
    forall k | 0 <= k < |list| ensures Node(items', slots', list, k) {
      assert Node(items, slots, list, k);
    }
  }

  lemma ChainRetick(items: seq<Item>, slots: seq<Slot>, list: seq<Entry>, k: nat, tick: int,
                               slots': seq<Slot>, list': seq<Entry>)
    requires Chain(items, slots, list) && k < |list| && list' == list[k := list[k].(tick := tick)]
    requires slots' == slots[list[k].id := slots[list[k].id].(tick := tick)]
    ensures Chain(items, slots', list')
  {
    forall j | 0 <= j < |list'| ensures Node(items, slots', list', j) {
      assert Node(items, slots, list, j) && Node(items, slots, list, k);
    }
  }

  /** Every slot is either live, exactly once in the list, or free, exactly once in the queue and
      unlinked. */
  ghost predicate Shared(slots: seq<Slot>, list: seq<Entry>, free: seq<nat>) {
    && (forall i :: 0 <= i < |free| ==> free[i] < |slots| && !Holds(list, free[i])
                                        && slots[free[i]].prev == null && slots[free[i]].next == null)
    && (forall i, j :: 0 <= i < j < |free| ==> free[i] != free[j])
    && (forall id :: 0 <= id < |slots| ==> Holds(list, id) || id in free)
  }

  /** The list is sorted by tick and no tick is ahead of the latest one supplied. */
  ghost predicate Ordered(list: seq<Entry>, now: int) {
    Sorted(list) && forall k :: 0 <= k < |list| ==> list[k].tick <= now
  }

  lemma HoldsWithout(list: seq<Entry>, k: nat, id: nat)
    requires Once(list) && k < |list|
    ensures Holds(Without(list, k), id) <==> Holds(list, id) && id != list[k].id
  {
    var rest := Without(list, k);
    if Holds(list, id) && id != list[k].id {
      var j :| 0 <= j < |list| && list[j].id == id;
      assert rest[if j < k then j else j - 1].id == id;
    }
    if Holds(rest, id) {
      var j :| 0 <= j < |rest| && rest[j].id == id;
      assert list[if j < k then j else j + 1].id == id;
    }
  }

  lemma HoldsAppend(list: seq<Entry>, e: Entry, id: nat)
    ensures Holds(list + [e], id) <==> Holds(list, id) || id == e.id
  {
    var more := list + [e];
    assert more[|list|] == e;
    if Holds(list, id) {
      var j :| 0 <= j < |list| && list[j].id == id;
      assert more[j].id == id;
    }
  }

  lemma FreeShares(slots: seq<Slot>, list: seq<Entry>, free: seq<nat>, k: nat, slots': seq<Slot>)
    requires Once(list) && k < |list| && Shared(slots, list, free) && |slots'| == |slots| && list[k].id < |slots|
    requires slots'[list[k].id].prev == null && slots'[list[k].id].next == null
    requires forall i :: 0 <= i < |slots| && !Holds(list, i) ==> slots'[i] == slots[i]
    ensures Shared(slots', Without(list, k), free + [list[k].id])
  {
    forall id ensures Holds(Without(list, k), id) <==> Holds(list, id) && id != list[k].id {
      HoldsWithout(list, k, id);
    }
    assert Holds(list, list[k].id);
  }

  lemma InsertShares(slots: seq<Slot>, list: seq<Entry>, free: seq<nat>, e: Entry, slots': seq<Slot>, free': seq<nat>)
    requires Shared(slots, list, free) && !Holds(list, e.id) && e.id < |slots'|
    requires if free == [] then e.id == |slots| && |slots'| == |slots| + 1 && free' == []
             else e.id == free[0] && |slots'| == |slots| && free' == free[1..]
    requires forall i :: 0 <= i < |slots| && !Holds(list, i) && i != e.id ==> slots'[i] == slots[i]
    ensures Shared(slots', list + [e], free')
  {
    forall id ensures Holds(list + [e], id) <==> Holds(list, id) || id == e.id {
      HoldsAppend(list, e, id);
    }
    forall id | 0 <= id < |slots'| ensures Holds(list + [e], id) || id in free' {
      if id < |slots| && !Holds(list, id) {
        var j :| 0 <= j < |free| && free[j] == id;
        assert j > 0 ==> free'[j - 1] == id;
      }
    }
    forall i | 0 <= i < |free'| ensures free'[i] == free[i + 1] {}
  }

  /** Moving a live slot leaves the same slots live. */
  lemma TouchShares(slots: seq<Slot>, list: seq<Entry>, free: seq<nat>, slots': seq<Slot>, list': seq<Entry>)
    requires Shared(slots, list, free) && |slots'| == |slots|
    requires forall id: nat :: Holds(list', id) <==> Holds(list, id)
    requires forall i :: 0 <= i < |slots| && !Holds(list, i) ==> slots'[i] == slots[i]
    ensures Shared(slots', list', free)
  {
  }

  lemma OrderedWithout(list: seq<Entry>, k: nat, now: int)
    requires Ordered(list, now) && k < |list|
    ensures Ordered(Without(list, k), now)
  {
  }

  lemma OrderedAppend(list: seq<Entry>, e: Entry, now: int)
    requires Ordered(list, now) && now <= e.tick
    ensures Ordered(list + [e], e.tick)
  {
  }

  lemma AfterCut(items: seq<Item>, slots: seq<Slot>, list: seq<Entry>, k: nat, slots': seq<Slot>)
    requires Chain(items, slots, list) && k < |list| && Cut(items, slots, list, k, slots')
    ensures forall i :: 0 <= i < |slots| && !Holds(list, i) ==> slots'[i] == slots[i]
    ensures slots'[list[k].id] == slots[list[k].id] && !Holds(Without(list, k), list[k].id)
  {
    HoldsWithout(list, k, list[k].id);
    forall i | 0 <= i < |slots| && !Holds(list, i) ensures slots'[i] == slots[i] {
      assert slots'[i] == Joined(items, slots, list, k, i);
    }
    assert slots'[list[k].id] == Joined(items, slots, list, k, list[k].id);
  }

  lemma AfterAppend(items: seq<Item>, slots: seq<Slot>, list: seq<Entry>, id: nat, slots': seq<Slot>)
    requires Chain(items, slots, list) && id < |items| && Extended(items, slots, list, id, slots')
    ensures forall i :: 0 <= i < |slots| && !Holds(list, i) && i != id ==> slots'[i] == slots[i]
  {
    forall i | 0 <= i < |slots| && !Holds(list, i) && i != id ensures slots'[i] == slots[i] {
      assert slots'[i] == Appended(items, slots, list, id, i);
    }
  }

  /** The whole effect of an insertion on the sharing of slots: slot reserved, filled, appended. */
  lemma AfterInsert(items: seq<Item>, built: seq<Slot>, slots: seq<Slot>, list: seq<Entry>,
                               free: seq<nat>, e: Entry, slots': seq<Slot>, free': seq<nat>)
    requires Shared(slots, list, free) && !Holds(list, e.id) && e.id < |built| && slots <= built
    requires if free == [] then e.id == |slots| && |built| == |slots| + 1 && free' == []
             else e.id == free[0] && |built| == |slots| && free' == free[1..]
    requires Chain(items, built[e.id := Slot(e.value, e.tick, null, null)], list)
    requires Extended(items, built[e.id := Slot(e.value, e.tick, null, null)], list, e.id, slots')
    ensures Shared(slots', list + [e], free')
  {
    AfterAppend(items, built[e.id := Slot(e.value, e.tick, null, null)], list, e.id, slots');
    InsertShares(slots, list, free, e, slots', free');
  }

  lemma AfterFree(items: seq<Item>, slots: seq<Slot>, list: seq<Entry>, free: seq<nat>, k: nat,
                             cut: seq<Slot>)
    requires Chain(items, slots, list) && k < |list| && Cut(items, slots, list, k, cut) && Shared(slots, list, free)
    ensures !Holds(Without(list, k), list[k].id)
    ensures cut[list[k].id].value == list[k].value && cut[list[k].id].tick == list[k].tick
    ensures Shared(cut[list[k].id := Slot(list[k].value, list[k].tick, null, null)], Without(list, k), free + [list[k].id])
  {
    AfterCut(items, slots, list, k, cut);
    assert Node(items, slots, list, k);
    assert Holds(list, list[k].id);
    FreeShares(slots, list, free, k, cut[list[k].id := Slot(list[k].value, list[k].tick, null, null)]);
  }

  lemma AfterTouch(items: seq<Item>, slots: seq<Slot>, list: seq<Entry>, free: seq<nat>, k: nat,
                              cut: seq<Slot>, slots': seq<Slot>)
    requires Chain(items, slots, list) && k < |list| && Cut(items, slots, list, k, cut) && Shared(slots, list, free)
    requires Chain(items, cut, Without(list, k)) && Extended(items, cut, Without(list, k), list[k].id, slots')
    ensures Shared(slots', Without(list, k) + [list[k]], free)
  {
    AfterCut(items, slots, list, k, cut);
    AfterAppend(items, cut, Without(list, k), list[k].id, slots');
    assert Holds(list, list[k].id);
    forall id ensures Holds(Without(list, k) + [list[k]], id) <==> Holds(list, id) {
      HoldsWithout(list, k, id);
      HoldsAppend(Without(list, k), list[k], id);
    }
    forall i | 0 <= i < |slots| && !Holds(list, i) ensures slots'[i] == slots[i] {
      HoldsWithout(list, k, i);
    }
    TouchShares(slots, list, free, slots', Without(list, k) + [list[k]]);
  }

  lemma AfterRetick(slots: seq<Slot>, list: seq<Entry>, free: seq<nat>, k: nat, tick: int, slots': seq<Slot>)
    requires k < |list| && list[k].id < |slots| && Shared(slots, list, free)
    requires slots' == slots[list[k].id := slots[list[k].id].(tick := tick)]
    ensures Shared(slots', list[k := list[k].(tick := tick)], free)
  {
    var list' := list[k := list[k].(tick := tick)];
    assert Holds(list, list[k].id);
    forall id ensures Holds(list', id) <==> Holds(list, id) {
      if Holds(list, id) {
        var j :| 0 <= j < |list| && list[j].id == id;
        assert list'[j].id == id;
      }
      if Holds(list', id) {
        var j :| 0 <= j < |list| && list'[j].id == id;
        assert list[j].id == id;
      }
    }
    TouchShares(slots, list, free, slots', list');
  }

  lemma OrderedTouch(list: seq<Entry>, k: nat, e: Entry, now: int)
    requires Ordered(list, now) && k < |list| && now <= e.tick
    ensures Ordered(Without(list, k) + [e], e.tick)
    ensures Without(list[k := e], k) == Without(list, k)
    ensures k == |list| - 1 ==> list[k := e] == Without(list, k) + [e]
  {
    OrderedWithout(list, k, now);
    OrderedAppend(Without(list, k), e, now);
  }

  // ----- the scan -----

  ghost function Values(list: seq<Entry>): seq<Object> {
    seq(|list|, k requires 0 <= k < |list| => list[k].value)
  }

  /** On a sorted list the scan may leave at the first entry that is too new. */
  lemma {:induction false} NoneBelow(list: seq<Entry>, bound: int)
    requires Sorted(list) && (list != [] ==> list[0].tick > bound)
    ensures Below(list, bound) == []
    decreases |list|
  {
    if list != [] { NoneBelow(list[1..], bound); }
  }

  /** What a scan that leaves at the first too new entry is offered. */
  ghost function Prefix(list: seq<Entry>, bound: int): seq<Entry> {
    if list == [] || list[0].tick > bound then [] else [list[0]] + Prefix(list[1..], bound)
  }

  ghost predicate Agree(list: seq<Entry>, bound: int) {
    Prefix(list, bound) == Below(list, bound)
  }

  /** Leaving early is right for every bound exactly when the list is sorted. */
  lemma {:induction false} EarlyExitIffSorted(list: seq<Entry>)
    ensures Sorted(list) <==> forall bound :: Agree(list, bound)
    decreases |list|
  {
    if list != [] {
      var tail := list[1..];
      EarlyExitIffSorted(tail);
      if Sorted(list) {
        forall bound ensures Agree(list, bound) {
          assert Agree(tail, bound);
          if list[0].tick > bound { NoneBelow(list, bound); }
        }
      }
      if forall bound :: Agree(list, bound) {
        forall bound ensures Agree(tail, bound) {
          assert Agree(list, bound);
          if list[0].tick <= bound {
            assert Prefix(list, bound) == [list[0]] + Prefix(tail, bound) && Below(list, bound) == [list[0]] + Below(tail, bound);
            assert Prefix(tail, bound) == Prefix(list, bound)[1..] == Below(list, bound)[1..] == Below(tail, bound);
          }
        }
        if tail != [] {
          assert Agree(list, tail[0].tick);
          assert Below(tail, tail[0].tick) == [tail[0]] + Below(tail[1..], tail[0].tick);
          assert list[0].tick <= tail[0].tick;
          assert forall b :: 1 <= b < |list| ==> list[b] == tail[b - 1] && list[b].tick >= tail[0].tick;
        }
      }
    }
  }

  lemma {:induction false} SeenBound(offered: seq<Entry>, visit: (Object, nat) -> Reaction, n: nat)
    ensures Seen(offered, visit, n) <= |offered|
    decreases |offered|
  {
    if offered != [] { SeenBound(offered[1..], visit, n + 1); }
  }

  /** A visitor that never stops the scan sees every old entry. */
  lemma {:induction false} SeenAll(offered: seq<Entry>, visit: (Object, nat) -> Reaction, n: nat)
    requires forall v, m :: !visit(v, m).Stops()
    ensures Seen(offered, visit, n) == |offered|
    decreases |offered|
  {
    if offered != [] { SeenAll(offered[1..], visit, n + 1); }
  }

  lemma {:induction false} BelowShorter(list: seq<Entry>, bound: int)
    ensures |Below(list, bound)| <= |list|
    decreases |list|
  {
    if list != [] { BelowShorter(list[1..], bound); }
  }

  /** What is still to be shown and to be kept after i items. */
  ghost predicate Progress(was: seq<Entry>, bound: int, visit: (Object, nat) -> Reaction, i: nat, kept: seq<Entry>, shown: seq<Object>)
  {
    var offered, n := Below(was, bound), Seen(Below(was, bound), visit, 0);
    && i <= |was| && n <= |offered| <= |was|
    && shown == Values(was[..i])
    && offered == was[..i] + Below(was[i..], bound)
    && i <= n == i + Seen(Below(was[i..], bound), visit, i)
    && Survivors(was, visit, 0, n) == kept + Survivors(was[i..], visit, i, n - i)
  }

  lemma Start(was: seq<Entry>, bound: int, visit: (Object, nat) -> Reaction)
    ensures Progress(was, bound, visit, 0, [], [])
  {
    assert was[0..] == was;
    BelowShorter(was, bound);
    SeenBound(Below(was, bound), visit, 0);
    var all := Survivors(was, visit, 0, Seen(Below(was, bound), visit, 0));
    assert [] + all == all;
    assert was[..0] + Below(was, bound) == Below(was, bound);
  }

  lemma NextProgress(was: seq<Entry>, bound: int, visit: (Object, nat) -> Reaction, i: nat, kept: seq<Entry>, shown: seq<Object>)
    requires Progress(was, bound, visit, i, kept, shown) && i < |was| && was[i].tick <= bound
    ensures var r := visit(was[i].value, i);
            var kept' := if r.Frees() then kept else kept + [was[i]];
            if r.Stops() then Final(was, bound, visit, kept' + was[i + 1..], shown + [was[i].value])
            else Progress(was, bound, visit, i + 1, kept', shown + [was[i].value])
  {
    var rest := was[i..];
    assert rest[0] == was[i] && rest[1..] == was[i + 1..];
    assert was[..i] + ([was[i]] + Below(was[i + 1..], bound)) == was[..i + 1] + Below(was[i + 1..], bound);
    assert ([was[i]] + Below(was[i + 1..], bound))[1..] == Below(was[i + 1..], bound);
    assert Values(was[..i]) + [was[i].value] == Values(was[..i + 1]);
    SurvivorsNext(was, bound, visit, i, kept, Seen(Below(was, bound), visit, 0) - i);
  }

  lemma SurvivorsNext(was: seq<Entry>, bound: int, visit: (Object, nat) -> Reaction, i: nat, kept: seq<Entry>, n: nat)
    requires i < |was| && 1 <= n <= |was| - i
    ensures var kept' := if visit(was[i].value, i).Frees() then kept else kept + [was[i]];
            kept + Survivors(was[i..], visit, i, n) == kept' + Survivors(was[i + 1..], visit, i + 1, n - 1)
  {
    var rest, tail := was[i..], Survivors(was[i + 1..], visit, i + 1, n - 1);
    assert rest[0] == was[i] && rest[1..] == was[i + 1..];
    if visit(was[i].value, i).Frees() {
      assert [] + tail == tail;
    } else {
      assert kept + ([was[i]] + tail) == kept + [was[i]] + tail;
    }
  }

  /** What the whole scan has to show and to leave. */
  ghost predicate Final(was: seq<Entry>, bound: int, visit: (Object, nat) -> Reaction, list: seq<Entry>, shown: seq<Object>) {
    var n := Seen(Below(was, bound), visit, 0);
    && n <= |Below(was, bound)| && n <= |was|
    && shown == Values(Below(was, bound)[..n])
    && list == Survivors(was, visit, 0, n)
  }

  lemma Done(was: seq<Entry>, bound: int, visit: (Object, nat) -> Reaction, i: nat, kept: seq<Entry>, shown: seq<Object>)
    requires Progress(was, bound, visit, i, kept, shown) && Sorted(was) && (i < |was| ==> was[i].tick > bound)
    ensures Final(was, bound, visit, kept + was[i..], shown)
  {
    NoneBelow(was[i..], bound);
    assert was[..i] + [] == was[..i];
  }

  // ----- the scan in terms of places -----

  lemma {:induction false} PrefixPlaces(list: seq<Entry>, bound: int)
    ensures var n := |Prefix(list, bound)|;
            && n <= |list| && Prefix(list, bound) == list[..n]
            && (forall k :: 0 <= k < n ==> list[k].tick <= bound) && (n < |list| ==> list[n].tick > bound)
    decreases |list|
  {
    if list != [] && list[0].tick <= bound {
      PrefixPlaces(list[1..], bound);
      var n := |Prefix(list[1..], bound)|;
      assert list[..n + 1] == [list[0]] + list[1..][..n];
      forall k | 0 <= k < n + 1 ensures list[k].tick <= bound { assert k > 0 ==> list[k] == list[1..][k - 1]; }
    }
  }

  /** The reaction tells to stop. */
  predicate Ends(r: Reaction) { r == Stop || r == ReleaseAndStop }

  /** The reaction frees the item. */
  predicate Takes(r: Reaction) { r == Release || r == ReleaseAndStop }

  lemma {:induction false} SeenPlaces(offered: seq<Entry>, visit: (Object, nat) -> Reaction, n: nat)
    ensures var m := Seen(offered, visit, n);
            && m <= |offered|
            && (forall k: nat :: k + 1 < m ==> !Ends(visit(offered[k].value, n + k)))
            && (m < |offered| ==> m > 0 && Ends(visit(offered[m - 1].value, n + m - 1)))
    decreases |offered|
  {
    if offered != [] && !visit(offered[0].value, n).Stops() {
      var rest, m := offered[1..], Seen(offered[1..], visit, n + 1);
      SeenPlaces(rest, visit, n + 1);
      forall k: nat | k + 1 < m + 1 ensures !Ends(visit(offered[k].value, n + k)) {
        if k > 0 { assert !Ends(visit(rest[k - 1].value, n + 1 + (k - 1))); }
      }
    }
  }

  lemma {:induction false} SurvivorPlaces(list: seq<Entry>, visit: (Object, nat) -> Reaction, n: nat, seen: nat, k: nat)
    requires seen <= |list| && k < |list| && Once(list)
    ensures list[k] in Survivors(list, visit, n, seen) <==> k >= seen || !Takes(visit(list[k].value, n + k))
    ensures forall e :: e in Survivors(list, visit, n, seen) ==> e in list
    decreases |list|
  {
    if seen > 0 {
      var rest := Survivors(list[1..], visit, n + 1, seen - 1);
      if |list| > 1 { SurvivorPlaces(list[1..], visit, n + 1, seen - 1, if k > 0 then k - 1 else 0); }
      assert k > 0 ==> list[k] == list[1..][k - 1] && list[k].id != list[0].id;
      assert forall e :: e in list[1..] ==> e.id != list[0].id;
    }
  }

  lemma {:induction false} SurvivorOrder(list: seq<Entry>, visit: (Object, nat) -> Reaction, n: nat, seen: nat, a: nat, b: nat)
    returns (p: nat, q: nat)
    requires seen <= |list| && a < b < |Survivors(list, visit, n, seen)|
    ensures p < q < |list| && list[p] == Survivors(list, visit, n, seen)[a] && list[q] == Survivors(list, visit, n, seen)[b]
    decreases |list|
  {
    p, q := a, b;
    if seen > 0 {
      var d := if visit(list[0].value, n).Frees() then 0 else 1;
      if a >= d {
        p, q := SurvivorOrder(list[1..], visit, n + 1, seen - 1, a - d, b - d);
        p, q := p + 1, q + 1;
      } else {
        q := SurvivorIn(list[1..], visit, n + 1, seen - 1, b - 1);
        q := q + 1;
      }
    }
  }

  lemma {:induction false} SurvivorIn(list: seq<Entry>, visit: (Object, nat) -> Reaction, n: nat, seen: nat, b: nat) returns (q: nat)
    requires seen <= |list| && b < |Survivors(list, visit, n, seen)|
    ensures q < |list| && list[q] == Survivors(list, visit, n, seen)[b]
    decreases |list|
  {
    q := b;
    if seen > 0 {
      var d := if visit(list[0].value, n).Frees() then 0 else 1;
      if b >= d {
        q := SurvivorIn(list[1..], visit, n + 1, seen - 1, b - d);
        q := q + 1;
      } else {
        q := 0;
      }
    }
  }

  /** The first n objects are shown: nobody but the last one's visitor said stop, and he did unless there
      was none left to show. */
  ghost predicate StopsAfter(offered: seq<Entry>, visit: (Object, nat) -> Reaction, n: nat) {
    && n <= |offered|
    && (forall k: nat :: k + 1 < n ==> !Ends(visit(offered[k].value, k)))
    && (n < |offered| ==> n > 0 && Ends(visit(offered[n - 1].value, n - 1)))
  }

  lemma SeenStops(offered: seq<Entry>, visit: (Object, nat) -> Reaction)
    ensures StopsAfter(offered, visit, Seen(offered, visit, 0))
  {
    SeenPlaces(offered, visit, 0);
    var m := Seen(offered, visit, 0);
    forall k: nat | k + 1 < m ensures !Ends(visit(offered[k].value, k)) { assert !Ends(visit(offered[k].value, 0 + k)); }
  }

  /** The scan shows the objects from the front of the list on, each used no later than the bound; it goes
      on until the visitor says stop, or the next object is newer or there is none. */
  lemma ScanShows(was: seq<Entry>, bound: int, visit: (Object, nat) -> Reaction, list: seq<Entry>, shown: seq<Object>) returns (m: nat)
    requires Sorted(was) && Final(was, bound, visit, list, shown)
    ensures m <= |was| && (forall k :: 0 <= k < m ==> was[k].tick <= bound) && (m < |was| ==> was[m].tick > bound)
    ensures |shown| <= m && StopsAfter(was[..m], visit, |shown|) && shown == Values(was[..|shown|])
    ensures list == Survivors(was, visit, 0, |shown|)
  {
    EarlyExitIffSorted(was);
    assert Agree(was, bound);
    PrefixPlaces(was, bound);
    m := |Prefix(was, bound)|;
    SeenStops(was[..m], visit);
    var n := Seen(was[..m], visit, 0);
    assert was[..m][..n] == was[..n];
  }

  /** It leaves exactly the entries that were not shown or whose visitor did not free them ... */
  lemma ScanLeaves(was: seq<Entry>, bound: int, visit: (Object, nat) -> Reaction, list: seq<Entry>, shown: seq<Object>, k: nat)
    requires Sorted(was) && Once(was) && Final(was, bound, visit, list, shown) && k < |was|
    ensures was[k] in list <==> k >= |shown| || !Takes(visit(was[k].value, k))
    ensures forall e :: e in list ==> e in was
  {
    var m := ScanShows(was, bound, visit, list, shown);
    SurvivorPlaces(was, visit, 0, |shown|, k);
  }

  /** ... in their order. */
  lemma ScanKeepsOrder(was: seq<Entry>, bound: int, visit: (Object, nat) -> Reaction, list: seq<Entry>, shown: seq<Object>, a: nat, b: nat)
    returns (p: nat, q: nat)
    requires Sorted(was) && Final(was, bound, visit, list, shown) && a < b < |list|
    ensures p < q < |was| && was[p] == list[a] && was[q] == list[b]
  {
    var m := ScanShows(was, bound, visit, list, shown);
    p, q := SurvivorOrder(was, visit, 0, |shown|, a, b);
  }

  class LeastRecentlyUsedCache {
    var m_items: seq<Item>
    var m_free: seq<nat>
    var m_first: Item?
    var m_last: Item?
    ghost var list: seq<Entry>
    ghost var now: int

    ghost function Slots(): (s: seq<Slot>)
      reads this`m_items, m_items
      ensures |s| == |m_items|
    {
      var items := m_items;
      seq(|items|, i requires 0 <= i < |items| reads items => Slot(items[i].value, items[i].tick, items[i].prev, items[i].next))
    }

    ghost predicate Linked()
      reads this`m_items, this`list, this`m_first, this`m_last, m_items
    {
      && Chain(m_items, Slots(), list)
      && m_first == At(m_items, list, 0)
      && m_last == At(m_items, list, |list| - 1)
    }

    /** Links an unlinked slot at the end. */
    method Attach(item: Item, ghost id: nat)
      requires Linked() && id < |m_items| && m_items[id] == item && !Holds(list, id)
      requires m_first == null ==> item.next == null && item.prev == null
      modifies this`m_first, this`m_last, this`list, m_items
      ensures Extended(m_items, old(Slots()), old(list), id, Slots())
      ensures Linked() && list == old(list) + [Entry(id, old(item.value), old(item.tick))]
    {
      ghost var was, slots := list, Slots();
      assert list != [] ==> Node(m_items, slots, list, |list| - 1);
      list := list + [Entry(id, item.value, item.tick)];
      if m_first == null {
        m_first := item;
      }
      if m_last == null {
        m_last := item;
        assert Extended(m_items, slots, was, id, Slots());
        ChainAppend(m_items, slots, was, id, Slots());
        return;
      }
      item.prev := m_last;
      m_last.next := item;
      item.next := null;
      m_last := item;
      ChainAppend(m_items, slots, was, id, Slots());
    }

    /** Unlinks the live slot at place k, leaving its own links as they are. */
    method Detach(item: Item, ghost k: nat)
      requires Linked() && k < |list| && m_items[list[k].id] == item
      modifies this`m_first, this`m_last, this`list, m_items
      ensures Cut(m_items, old(Slots()), old(list), k, Slots())
      ensures Linked() && list == Without(old(list), k)
    {
      ghost var slots := Slots();
      assert Node(m_items, slots, list, k);
      Bypass(item, k);
      ghost var cut := Slots();
      ChainWithout(m_items, slots, list, k, cut);
      EndsWithout(m_items, list, k);
      MoveEnds(item);
      list := Without(list, k);
      assert Slots() == cut;
    }

    /** Lets the ends of the list skip a slot. */
    method MoveEnds(item: Item)
      modifies this`m_first, this`m_last
      ensures m_first == if old(m_first) == item then item.next else old(m_first)
      ensures m_last == if old(m_last) == item then item.prev else old(m_last)
    {
      if m_first == item {
        m_first := item.next;
      }
      if m_last == item {
        m_last := item.prev;
      }
    }

    /** Joins the neighbours of the live slot at place k over it. */
    method Bypass(item: Item, ghost k: nat)
      requires Chain(m_items, Slots(), list) && k < |list| && m_items[list[k].id] == item
      modifies m_items
      ensures Cut(m_items, old(Slots()), list, k, Slots())
      ensures item.prev == old(item.prev) && item.next == old(item.next)
    {
      assert Node(m_items, Slots(), list, k);
      if item.prev != null {
        item.prev.next := item.next;
      }
      if item.next != null {
        item.next.prev := item.prev;
      }
    }

    ghost predicate Valid()
      reads this, m_items
    {
      Linked() && Shared(Slots(), list, m_free) && Ordered(list, now)
    }

    constructor (start: int)
      ensures Valid() && list == [] && m_free == [] && m_items == [] && now == start
    {
      m_items, m_free, m_first, m_last, list, now := [], [], null, null, [], start;
    }

    method Build() returns (id: nat)
      requires Linked() && Shared(Slots(), list, m_free)
      modifies this`m_items, this`m_free
      ensures Linked()
      ensures id == if old(m_free) == [] then old(|m_items|) else old(m_free[0])
      ensures m_free == if old(m_free) == [] then [] else old(m_free[1..])
      ensures id < |m_items| && !Holds(list, id) && Slots()[id].next == null && Slots()[id].prev == null
      ensures old(m_items) <= m_items && |m_items| == old(|m_items|) + (if old(m_free) == [] then 1 else 0)
      ensures forall i :: old(|m_items|) <= i < |m_items| ==> fresh(m_items[i])
      ensures old(Slots()) <= Slots()
    {
      if m_free == [] {
        id := |m_items|;
        Grow();
      } else {
        id := m_free[0];
        m_free := m_free[1..];
        assert Slots() == old(Slots());
      }
    }

    method Grow()
      requires Linked()
      modifies this`m_items
      ensures Linked() && |m_items| == old(|m_items|) + 1 && m_items[..old(|m_items|)] == old(m_items)
      ensures fresh(m_items[old(|m_items|)])
      ensures var s := Slots()[old(|m_items|)]; s.next == null && s.prev == null
      ensures Slots()[..old(|m_items|)] == old(Slots())
    {
      ghost var items, slots := m_items, Slots();
      var item := new Item();
      m_items := m_items + [item];
      assert Slots()[..|items|] == slots;
      ChainKept(items, slots, m_items, Slots(), list);
    }

    /** Stores an object in a slot that is not in the list. */
    method Fill(id: nat, value: Object, tick: int)
      requires Linked() && id < |m_items| && !Holds(list, id)
      modifies m_items
      ensures Linked() && Slots() == old(Slots())[id := Slot(value, tick, old(m_items[id].prev), old(m_items[id].next))]
    {
      ghost var slots := Slots();
      var item := m_items[id];
      item.value := value;
      item.tick := tick;
      assert Slots() == slots[id := Slot(value, tick, item.prev, item.next)];
      ChainKept(m_items, slots, m_items, Slots(), list);
    }

    method Insert(value: Object, tick: int) returns (id: nat)
      requires Valid() && tick >= now
      modifies this, m_items
      ensures Valid() && now == tick
      ensures list == old(list) + [Entry(id, value, tick)]
      ensures id == (if old(m_free) == [] then old(|m_items|) else old(m_free[0])) && !Holds(old(list), id)
      ensures m_free == if old(m_free) == [] then [] else old(m_free[1..])
      ensures old(m_items) <= m_items && forall i :: old(|m_items|) <= i < |m_items| ==> fresh(m_items[i])
    {
      OrderedAppend(list, Entry(if m_free == [] then |m_items| else m_free[0], value, tick), now);
      now := tick;
      id := Build();
      Place(id, value, tick, old(Slots()), old(m_free));
    }

    /** Stores an object in a reserved slot and links the slot at the end. */
    method Place(id: nat, value: Object, tick: int, ghost slots: seq<Slot>, ghost free: seq<nat>)
      requires Linked() && id < |m_items| && !Holds(list, id) && Slots()[id].next == null && Slots()[id].prev == null
      requires Shared(slots, list, free) && slots <= Slots()
      requires if free == [] then id == |slots| && |m_items| == |slots| + 1 && m_free == []
               else id == free[0] && |m_items| == |slots| && m_free == free[1..]
      modifies this`m_first, this`m_last, this`list, m_items
      ensures Linked() && Shared(Slots(), list, m_free) && list == old(list) + [Entry(id, value, tick)]
    {
      ghost var built := Slots();
      Fill(id, value, tick);
      assert Slots()[id] == Slot(value, tick, null, null);
      Attach(m_items[id], id);
      AfterInsert(m_items, built, slots, old(list), free, Entry(id, value, tick), Slots(), m_free);
    }

    method Free(id: nat, ghost k: nat)
      requires Valid() && k < |list| && list[k].id == id
      modifies this, m_items
      ensures Valid() && list == Without(old(list), k) && now == old(now)
      ensures m_free == old(m_free) + [id] && m_items == old(m_items)
    {
      OrderedWithout(list, k, now);
      var item := m_items[id];
      Drop(item, id, k);
      m_free := m_free + [id];
    }

    /** Unlinks a live slot and clears its links. */
    method Drop(item: Item, ghost id: nat, ghost k: nat)
      requires Linked() && Shared(Slots(), list, m_free) && k < |list| && list[k].id == id && m_items[id] == item
      modifies this`m_first, this`m_last, this`list, m_items
      ensures Linked() && Shared(Slots(), list, m_free + [id]) && list == Without(old(list), k)
    {
      ghost var slots, was := Slots(), list;
      Detach(item, k);
      ghost var cut := Slots();
      AfterFree(m_items, slots, was, m_free, k, cut);
      Unlink(item, id);
      assert Slots() == cut[id := Slot(was[k].value, was[k].tick, null, null)];
    }

    method Unlink(item: Item, ghost id: nat)
      requires Linked() && id < |m_items| && m_items[id] == item && !Holds(list, id)
      modifies m_items
      ensures Linked() && Slots() == old(Slots())[id := Slot(old(item.value), old(item.tick), null, null)]
    {
      ghost var slots := Slots();
      item.next := null;
      item.prev := null;
      assert Slots() == slots[id := Slot(old(item.value), old(item.tick), null, null)];
      ChainKept(m_items, slots, m_items, Slots(), list);
    }

    /** Changes the tick of the live slot at place k. */
    method Retick(item: Item, tick: int, ghost k: nat)
      requires Linked() && Shared(Slots(), list, m_free) && k < |list| && m_items[list[k].id] == item
      modifies this`list, m_items
      ensures Linked() && Shared(Slots(), list, m_free) && list == old(list[k := list[k].(tick := tick)])
    {
      ghost var was, slots := list, Slots();
      item.tick := tick;
      list := list[k := list[k].(tick := tick)];
      assert Slots() == slots[was[k].id := slots[was[k].id].(tick := tick)];
      ChainRetick(m_items, slots, was, k, tick, Slots(), list);
      AfterRetick(slots, was, m_free, k, tick, Slots());
    }

    method Touch(id: nat, tick: int, ghost k: nat)
      requires Valid() && tick >= now && k < |list| && list[k].id == id
      modifies this, m_items
      ensures Valid() && now == tick && m_free == old(m_free) && m_items == old(m_items)
      ensures list == if old(list[k].tick) >= tick then old(list)
                      else Without(old(list), k) + [Entry(id, old(list[k].value), tick)]
    {
      now := tick;
      var item := m_items[id];
      assert Node(m_items, Slots(), list, k);
      if item.tick >= tick {
        return;
      }
      OrderedTouch(list, k, list[k].(tick := tick), old(now));
      Renew(item, tick, id, k);
    }

    /** The newest tick puts the item last. */
    method Renew(item: Item, tick: int, ghost id: nat, ghost k: nat)
      requires Linked() && Shared(Slots(), list, m_free) && k < |list| && list[k].id == id && m_items[id] == item
      modifies this`m_first, this`m_last, this`list, m_items
      ensures Linked() && Shared(Slots(), list, m_free) && list == Without(old(list), k) + [old(list[k]).(tick := tick)]
    {
      ghost var last := list[k].(tick := tick);
      Retick(item, tick, k);
      assert k == |list| - 1 ==> list == Without(list, k) + [last];
      if item != m_last {
        MoveToBack(item, id, k);
      }
    }

    method MoveToBack(item: Item, ghost id: nat, ghost k: nat)
      requires Linked() && Shared(Slots(), list, m_free) && k < |list| && list[k].id == id && m_items[id] == item
      requires m_last != item
      modifies this`m_first, this`m_last, this`list, m_items
      ensures Linked() && Shared(Slots(), list, m_free) && list == Without(old(list), k) + [old(list[k])]
    {
      ghost var slots, was := Slots(), list;
      Detach(item, k);
      ghost var cut := Slots();
      AfterCut(m_items, slots, was, k, cut);
      assert Node(m_items, slots, was, k);
      assert slots[id] == cut[id];
      Attach(item, id);
      AfterTouch(m_items, slots, was, m_free, k, cut, Slots());
    }

    /** Shows the visitor the objects used no later than the bound, oldest first, until it says stop.
        The visitor's reaction may depend on how many it has seen; it may free the item it is shown,
        whose slot it knows. */
    method ForEachItemBelow(bound: int, visit: (Object, nat) -> Reaction, slotOf: Object -> nat) returns (shown: seq<Object>)
      requires Valid() && forall k :: 0 <= k < |list| ==> slotOf(list[k].value) == list[k].id
      modifies this, m_items
      ensures Valid() && m_items == old(m_items) && now == old(now)
      ensures Final(old(list), bound, visit, list, shown)
    {
      ghost var was, kept := list, [];
      var i, item, stop := 0, m_first, false;
      shown := [];
      BeginScan(bound, visit, slotOf);
      while item != null && !stop
        invariant Valid() && m_items == old(m_items) && now == old(now)
        invariant Scanning(was, bound, visit, slotOf, i, kept, shown, item, stop)
        decreases |was| - i, !stop
      {
        item, stop, shown, kept, i := ScanItem(item, bound, visit, slotOf, i, was, kept, shown);
      }
      Finish(was, bound, visit, slotOf, i, kept, shown, item, stop);
    }

    /** Between two items of the scan. */
    ghost predicate Scanning(was: seq<Entry>, bound: int, visit: (Object, nat) -> Reaction, slotOf: Object -> nat, i: nat,
                             kept: seq<Entry>, shown: seq<Object>, item: Item?, stop: bool)
      reads this`list, this`m_items
    {
      && i <= |was| && Sorted(was) && Named(m_items, was)
      && (forall k :: 0 <= k < |was| ==> slotOf(was[k].value) == was[k].id)
      && if stop then Final(was, bound, visit, list, shown)
         else list == kept + was[i..] && Progress(was, bound, visit, i, kept, shown) && item == At(m_items, was, i)
    }

    lemma BeginScan(bound: int, visit: (Object, nat) -> Reaction, slotOf: Object -> nat)
      requires Valid() && forall k :: 0 <= k < |list| ==> slotOf(list[k].value) == list[k].id
      ensures Scanning(list, bound, visit, slotOf, 0, [], [], m_first, false)
    {
      Start(list, bound, visit);
      assert list == [] + list[0..];
    }

    lemma Finish(was: seq<Entry>, bound: int, visit: (Object, nat) -> Reaction, slotOf: Object -> nat, i: nat,
                 kept: seq<Entry>, shown: seq<Object>, item: Item?, stop: bool)
      requires Scanning(was, bound, visit, slotOf, i, kept, shown, item, stop) && (item == null || stop)
      ensures Final(was, bound, visit, list, shown)
    {
      if !stop { Done(was, bound, visit, i, kept, shown); }
    }

    /** One turn of the scan. */
    method ScanItem(item: Item, bound: int, visit: (Object, nat) -> Reaction, slotOf: Object -> nat, i: nat,
                    ghost was: seq<Entry>, ghost kept: seq<Entry>, shown: seq<Object>)
      returns (next: Item?, stop: bool, shown': seq<Object>, ghost kept': seq<Entry>, i': nat)
      requires Valid() && Scanning(was, bound, visit, slotOf, i, kept, shown, item, false)
      modifies this, m_items
      ensures Valid() && m_items == old(m_items) && now == old(now) && i < |was| && i' == i + 1
      ensures Scanning(was, bound, visit, slotOf, i', kept', shown', next, stop)
    {
      i' := i + 1;
      ListHead(kept, was, i);
      if item.tick > bound {
        Done(was, bound, visit, i, kept, shown);
        return null, true, shown, kept, i + 1;
      }
      NextProgress(was, bound, visit, i, kept, shown);
      shown' := shown + [item.value];
      var r;
      next, r := ShowItem(item, visit, slotOf, i, kept, was);
      kept' := if r.Frees() then kept else kept + [was[i]];
      stop := r.Stops();
    }

    lemma ListHead(kept: seq<Entry>, was: seq<Entry>, i: nat)
      requires Linked() && i < |was| && list == kept + was[i..] && Named(m_items, was)
      ensures var item := At(m_items, was, i);
              item.tick == was[i].tick && item.value == was[i].value && item.next == At(m_items, was, i + 1)
    {
      assert list[|kept|] == was[i] && Node(m_items, Slots(), list, |kept|);
      assert i + 1 < |was| ==> list[|kept| + 1] == was[i + 1];
    }

    /** Shows one item to the visitor. */
    method ShowItem(item: Item, visit: (Object, nat) -> Reaction, slotOf: Object -> nat, i: nat,
                    ghost kept: seq<Entry>, ghost was: seq<Entry>)
      returns (next: Item?, r: Reaction)
      requires Valid() && Named(m_items, was) && i < |was| && list == kept + was[i..] && item == At(m_items, was, i)
      requires slotOf(was[i].value) == was[i].id
      modifies this, m_items
      ensures Valid() && m_items == old(m_items) && now == old(now)
      ensures r == visit(was[i].value, i) && next == At(m_items, was, i + 1)
      ensures list == (if r.Frees() then kept else kept + [was[i]]) + was[i + 1..]
    {
      ListHead(kept, was, i);
      next := item.next;
      r := visit(item.value, i);
      if r.Frees() {
        Free(slotOf(item.value), |kept|);
        assert list == kept + was[i + 1..];
      }
    }
  }
}
