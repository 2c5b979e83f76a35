/**
 The two ways of emptying the table. Neither gives `newestIndex` back its null value,
 and this is what follows from that.
 */
module SourceRouteReset {
  import opened EmberTypes
  import opened IndexChains
  import opened SourceRoutes
  import opened RecencyOrder

  predicate Below(x: Index, n: nat) {
    x < n
  }

  /** The recency walk starts in `slots` and no older link leads out of them, let alone to an end. */
  ghost predicate Circling(t: Table, slots: set<Index>) {
    && Sized(t)
    && t.newest in slots
    && forall x: Index :: x in slots ==> x < |t.entries| && t.entries[x].olderIndex in slots
  }

  /** The recency walk never ends. */
  ghost predicate Endless(t: Table) {
    exists slots :: Circling(t, slots)
  }

  /** A chain that ends keeps clear of such slots. */
  lemma {:induction false} CirclingChain(t: Table, slots: set<Index>, path: seq<Index>)
    requires Circling(t, slots) && IsChain(Olders(t.entries), path)
    ensures path[0] !in slots
    decreases |path|
  {
    if |path| > 1 {
      CirclingChain(t, slots, path[1..]);
    }
  }

  /** On an endless table no eviction walk ends, so an add completes only if it need not evict. */
  lemma EndlessAddIff(t: Table, id: NodeId, further: Index)
    requires Endless(t) && 0 < |t.entries| && (further == NULL_INDEX || further < |t.entries|)
    ensures AddReady(t, id, further) <==> !NeedsEviction(t, id)
  {
    var slots :| Circling(t, slots);
    if Ends(Olders(t.entries), t.newest) {
      CirclingChain(t, slots, ChainFrom(Olders(t.entries), t.newest));
    }
  }

  lemma PromoteKeepsCircling(t: Table, slots: set<Index>, count: nat, slot: Index)
    requires Circling(t, slots) && slot < count <= |t.entries|
    ensures Circling(Table(Promote(t.entries, count, t.newest, slot), count, slot), slots + {slot})
  {
  }

  /** Whatever an add relinks, the walk from the new newest slot stays endless. */
  lemma EndlessKept(t: Table, id: NodeId, further: Index)
    requires Endless(t) && AddReady(t, id, further)
    ensures Endless(Add(t, id, further))
  {
    EndlessAddIff(t, id, further);
    var slots :| Circling(t, slots);
    var slot, count := SlotFor(t, id), CountAfter(t, id);
    PromoteKeepsCircling(t, slots, count, slot);
    var promoted, t' := Promote(t.entries, count, t.newest, slot), Add(t, id, further);
    forall x: Index | x in slots + {slot} ensures t'.entries[x].olderIndex == promoted[x].olderIndex {
    }
    assert Circling(t', slots + {slot});
  }

  // ----- runs of adds

  datatype AddCall = AddCall(id: NodeId, further: Index)

  ghost predicate Completes(t: Table, call: AddCall) {
    AddReady(t, call.id, call.further)
  }

  ghost function AfterCall(t: Table, call: AddCall): Table {
    if Completes(t, call) then Add(t, call.id, call.further) else t
  }

  /** Every step is possible when its turn comes, and the steps lead from `s` to `s'`. */
  ghost predicate Leads<S, E>(possible: (S, E) -> bool, step: (S, E) -> S, s: S, events: seq<E>, s': S)
    decreases |events|
  {
    if events == [] then s == s'
    else possible(s, events[0]) && Leads(possible, step, step(s, events[0]), events[1..], s')
  }

  lemma {:induction false} LeadsConcat<S, E>(
    possible: (S, E) -> bool, step: (S, E) -> S, s: S, a: seq<E>, s1: S, b: seq<E>, s2: S)
    requires Leads(possible, step, s, a, s1) && Leads(possible, step, s1, b, s2)
    ensures Leads(possible, step, s, a + b, s2)
    decreases |a|
  {
    if a == [] {
      assert a + b == b;
    } else {
      assert (a + b)[1..] == a[1..] + b;
      LeadsConcat(possible, step, step(s, a[0]), a[1..], s1, b, s2);
    }
  }

  /** The adds complete one after the other and lead from `t` to `t'`. */
  ghost predicate RunsTo(t: Table, calls: seq<AddCall>, t': Table) {
    Leads(Completes, AfterCall, t, calls, t')
  }

  /** No run of adds leads to a table on which some add hangs. */
  ghost predicate AlwaysReady(t: Table) {
    forall calls, t', id :: RunsTo(t, calls, t') ==> AddReady(t', id, NULL_INDEX)
  }

  /** Once endless, the table stays endless: whatever was added, an add that must evict hangs. */
  lemma {:induction false} EndlessForever(t: Table, calls: seq<AddCall>, t': Table, id: NodeId)
    requires Endless(t) && RunsTo(t, calls, t') && 0 < |t.entries|
    ensures Endless(t') && |t'.entries| == |t.entries|
    ensures AddReady(t', id, NULL_INDEX) <==> !NeedsEviction(t', id)
    decreases |calls|
  {
    if calls == [] {
      EndlessAddIff(t, id, NULL_INDEX);
    } else {
      EndlessKept(t, calls[0].id, calls[0].further);
      EndlessForever(Add(t, calls[0].id, calls[0].further), calls[1..], t', id);
    }
  }

  /** Adds for `ids`, none of them linked to another one. */
  function NeighbourCalls(ids: seq<NodeId>): (calls: seq<AddCall>)
    ensures |calls| == |ids|
  {
    if ids == [] then [] else [AddCall(ids[0], NULL_INDEX)] + NeighbourCalls(ids[1..])
  }

  lemma {:induction false} NeighbourCallsConcat(a: seq<NodeId>, b: seq<NodeId>)
    ensures NeighbourCalls(a + b) == NeighbourCalls(a) + NeighbourCalls(b)
  {
    if a == [] {
      assert a + b == b;
    } else {
      assert (a + b)[1..] == a[1..] + b;
      NeighbourCallsConcat(a[1..], b);
    }
  }

  /** A new id takes the first unused slot. */
  lemma AddFresh(t: Table, id: NodeId)
    requires Sized(t) && t.count < |t.entries| && !Holds(t, id)
    ensures AddReady(t, id, NULL_INDEX) && SlotFor(t, id) == t.count
    ensures Add(t, id, NULL_INDEX).count == t.count + 1 && |Add(t, id, NULL_INDEX).entries| == |t.entries|
    ensures forall other :: Holds(Add(t, id, NULL_INDEX), other) ==> Holds(t, other) || other == id
  {
    AddDestinations(t, id, NULL_INDEX);
    var t' := Add(t, id, NULL_INDEX);
    forall other | Holds(t', other) ensures Holds(t, other) || other == id {
      assert t'.entries[FindIndex(t', other)].destination == other;
    }
  }

  /** New ids take the unused slots one by one; no chain of older links is needed for that. */
  lemma {:induction false} FillUp(t: Table, ids: seq<NodeId>) returns (t': Table)
    requires Sized(t) && Distinct(ids) && t.count + |ids| <= |t.entries|
    requires forall id :: id in ids ==> !Holds(t, id)
    ensures RunsTo(t, NeighbourCalls(ids), t') && Sized(t')
    ensures t'.count == t.count + |ids| && |t'.entries| == |t.entries|
    ensures forall id :: Holds(t', id) ==> Holds(t, id) || id in ids
    decreases |ids|
  {
    if ids == [] {
      t' := t;
    } else {
      assert ids[0] in ids;
      AddFresh(t, ids[0]);
      var t1 := Add(t, ids[0], NULL_INDEX);
      forall id | id in ids[1..] ensures !Holds(t1, id) {
        assert id in ids;
      }
      assert Distinct(ids[1..]);
      t' := FillUp(t1, ids[1..]);
      assert NeighbourCalls(ids)[1..] == NeighbourCalls(ids[1..]);
    }
  }

  /** An endless table with room for some new ids takes them and then hangs on any further one. */
  lemma EndlessHangs(t: Table, ids: seq<NodeId>, extra: NodeId) returns (t': Table)
    requires Endless(t) && 0 < |t.entries| && t.count + |ids| == |t.entries|
    requires Distinct(ids + [extra]) && forall id :: id in ids + [extra] ==> !Holds(t, id)
    ensures RunsTo(t, NeighbourCalls(ids), t') && !AddReady(t', extra, NULL_INDEX)
  {
    assert forall i :: 0 <= i < |ids| ==> (ids + [extra])[i] == ids[i];
    assert (ids + [extra])[|ids|] == extra;
    assert extra !in ids && extra in ids + [extra];
    t' := FillUp(t, ids);
    EndlessForever(t, NeighbourCalls(ids), t', extra);
  }

  // ----- clearing

  /** Clearing the table keeps its invariant exactly if the table never held an entry. */
  lemma ClearKeepsValidIff(t: Table)
    requires Valid(t)
    ensures Valid(Cleared(t)) <==> t.count == 0
    ensures Endless(Cleared(t)) <==> t.count > 0
    ensures Valid(Cleared(t).(newest := NULL_INDEX)) && RecentIds(Cleared(t).(newest := NULL_INDEX)) == []
  {
    assert Cleared(t).(newest := NULL_INDEX) == Fresh(|t.entries|);
    FreshIsValid(|t.entries|);
    if t.count > 0 {
      assert Recency(t)[0] in Recency(t);
      assert Circling(Cleared(t), set x: Index | Below(x, |t.entries|));
    } else {
      assert Recency(t) == [];
    }
  }

  /**
   The defect: after a used table of n slots is cleared, adding n distinct ids completes, and the
   add of any further id never does.
   */
  lemma ClearThenHang(t: Table, ids: seq<NodeId>, extra: NodeId) returns (t': Table)
    requires Valid(t) && t.count > 0
    requires Distinct(ids + [extra]) && |ids| == |t.entries|
    ensures RunsTo(Cleared(t), NeighbourCalls(ids), t')
    ensures !AddReady(t', extra, NULL_INDEX)
  {
    ClearKeepsValidIff(t);
    t' := EndlessHangs(Cleared(t), ids, extra);
  }

  // ----- resetting only the number of entries

  /** The order that lets slots 0, 1, 2, .. be handed out again. */
  function Ascending(n: nat): (order: seq<int>)
    ensures |order| == n && forall k :: 0 <= k < n ==> order[k] == k
  {
    seq(n, k => k)
  }

  /**
   While entries are handed out again: the links still spell out all the slots of `order`, the first
   `m` of them are the slots below `m`, and those of them not yet handed out stand in ascending order.
   */
  ghost predicate Refilling(t: Table, order: seq<Index>, m: nat) {
    && t.count <= m <= |order| <= |t.entries|
    && IsRecency(t.(count := |order|), order)
    && (forall k :: 0 <= k < m ==> order[k] < m)
    && (forall k :: t.count <= k < m ==> order[k] == k)
  }

  lemma InitRefills(t: Table, m: nat)
    requires Valid(t) && m <= t.count && forall k :: 0 <= k < m ==> Recency(t)[k] == k
    ensures Refilling(t.(count := 0), Recency(t), m)
  {
    assert t.(count := 0).(count := t.count) == t;
  }

  /** The slots below `m` come first in the order. */
  lemma EarlyPlaces(t: Table, order: seq<Index>, m: nat, x: Index)
    requires Refilling(t, order, m) && x < m
    ensures x in order[..m]
  {
    RecencyHasNoRepeats(t.(count := |order|), order);
    DistinctBelowIsAll(order[..m], m, x);
  }

  /** Of these, the slots handed out come first. */
  lemma RefillingPlaces(t: Table, order: seq<Index>, m: nat, k: nat)
    requires Refilling(t, order, m) && k < t.count
    ensures order[k] < t.count
  {
    assert t.count <= order[k] ==> order[order[k]] == order[k];
    RecencyHasNoRepeats(t.(count := |order|), order);
  }

  /** The slot of an add has its place among the slots handed out, or right after them. */
  lemma PlaceOfSlot(t: Table, order: seq<Index>, m: nat, slot: Index) returns (j: nat)
    requires Refilling(t, order, m) && slot <= t.count && slot < m
    ensures j < m && order[j] == slot && j <= t.count && (slot < t.count ==> j < t.count)
  {
    EarlyPlaces(t, order, m, slot);
    j :| 0 <= j < |order[..m]| && order[..m][j] == slot;
  }

  lemma {:induction false} WithoutAt(s: seq<Index>, x: Index, j: nat)
    requires Distinct(s) && j < |s| && s[j] == x
    ensures |Without(s, x)| == |s| - 1
    ensures forall k :: 0 <= k < |s| - 1 ==> Without(s, x)[k] == s[if k < j then k else k + 1]
  {
    if j > 0 {
      assert Distinct(s[1..]);
      WithoutAt(s[1..], x, j - 1);
    }
  }

  /** Moving a slot to the front shifts those before it by one place and no others. */
  lemma MovedPlaces(order: seq<Index>, slot: Index, j: nat)
    requires Distinct(order) && j < |order| && order[j] == slot
    ensures var order' := MoveToFront(order, slot);
            && |order'| == |order| && order'[0] == slot
            && (forall k :: 1 <= k <= j ==> order'[k] == order[k - 1])
            && (forall k :: j < k < |order| ==> order'[k] == order[k])
  {
    WithoutAt(order, slot, j);
  }

  /** If the slot before it in the order was handed out, the search for the predecessor finds it. */
  lemma PromoteFindsPredecessor(t: Table, order: seq<Index>, count: nat, j: nat)
    requires IsRecency(t, order) && j < |order| && count <= t.count && order[j] < count
    requires j > 0 ==> order[j - 1] < count
    ensures Promote(t.entries, count, t.newest, order[j]) == Promote(t.entries, t.count, t.newest, order[j])
  {
    if j > 0 {
      ChainSuffix(Olders(t.entries), order, j - 1);
      assert t.entries[order[j - 1]].olderIndex == order[j];
    }
  }

  /** While slots up to the `m`-th are left, an add takes its slot to the front as if all were in use. */
  lemma RefillPromotes(t: Table, order: seq<Index>, m: nat, id: NodeId, further: Index) returns (j: nat)
    requires Refilling(t, order, m) && t.count < m && (further == NULL_INDEX || further < |t.entries|)
    ensures AddReady(t, id, further) && SlotFor(t, id) <= t.count
    ensures j < CountAfter(t, id) && order[j] == SlotFor(t, id)
    ensures IsRecency(Add(t, id, further).(count := |order|), MoveToFront(order, SlotFor(t, id)))
  {
    var slot, count, all := SlotFor(t, id), CountAfter(t, id), t.(count := |order|);
    j := PlaceOfSlot(t, order, m, slot);
    if j > 0 {
      RefillingPlaces(t, order, m, j - 1);
    }
    PromoteFindsPredecessor(all, order, count, j);
    PromoteMovesToFront(all, order, |order|, slot);
    var promoted, t' := Promote(t.entries, count, t.newest, slot), Add(t, id, further);
    assert Olders(t'.entries) == Olders(promoted);
    assert IsRecency(Table(promoted, |order|, slot), MoveToFront(order, slot));
  }

  lemma RefilledPlaces(order: seq<Index>, order': seq<Index>, m: nat, count: nat, count': nat, j: nat)
    requires |order'| == |order| && j < count' <= m <= |order| && count <= count'
    requires forall k :: 0 <= k < m ==> order[k] < m
    requires forall k :: count <= k < m ==> order[k] == k
    requires order'[0] == order[j] && forall k :: 1 <= k <= j ==> order'[k] == order[k - 1]
    requires forall k :: j < k < |order| ==> order'[k] == order[k]
    ensures forall k :: 0 <= k < m ==> order'[k] < m
    ensures forall k :: count' <= k < m ==> order'[k] == k
    ensures order'[m..] == order[m..]
  {
    forall k | 0 <= k < m ensures order'[k] < m {
      var from := if k == 0 then j else if k <= j then k - 1 else k;
      assert order'[k] == order[from];
    }
  }

  /** So it keeps all the slots from its own place on where they were. */
  lemma RefillStep(t: Table, order: seq<Index>, m: nat, id: NodeId, further: Index)
    requires Refilling(t, order, m) && t.count < m && (further == NULL_INDEX || further < |t.entries|)
    ensures AddReady(t, id, further)
    ensures var order' := MoveToFront(order, SlotFor(t, id));
            && Refilling(Add(t, id, further), order', m)
            && |order'| == |order| && order'[m..] == order[m..]
  {
    var slot := SlotFor(t, id);
    var j := RefillPromotes(t, order, m, id, further);
    RecencyHasNoRepeats(t.(count := |order|), order);
    MovedPlaces(order, slot, j);
    RefilledPlaces(order, MoveToFront(order, slot), m, t.count, CountAfter(t, id), j);
  }

  /** With all of the order ascending, adds never run into a dead end. */
  lemma AscendingStep(t: Table, order: seq<Index>, id: NodeId, further: Index) returns (order': seq<Index>)
    requires Refilling(t, order, |order|) && 0 < |t.entries| && (further == NULL_INDEX || further < |t.entries|)
    ensures AddReady(t, id, further)
    ensures Refilling(Add(t, id, further), order', |order'|)
  {
    if t.count < |order| {
      RefillStep(t, order, |order|, id, further);
      order' := MoveToFront(order, SlotFor(t, id));
    } else {
      assert t.(count := |order|) == t;
      AddMovesToFront(t, order, id, further);
      order' := MoveToFront(order, SlotFor(t, id));
      var t' := Add(t, id, further);
      assert t'.(count := |order'|) == t';
      assert forall k :: 0 <= k < |order'| ==> order'[k] in order';
    }
  }

  lemma {:induction false} AscendingRun(
    t: Table, order: seq<Index>, calls: seq<AddCall>, t': Table, id: NodeId)
    requires Refilling(t, order, |order|) && 0 < |t.entries| && RunsTo(t, calls, t')
    ensures AddReady(t', id, NULL_INDEX)
    decreases |calls|
  {
    if calls == [] {
      var _ := AscendingStep(t, order, id, NULL_INDEX);
    } else {
      var order' := AscendingStep(t, order, calls[0].id, calls[0].further);
      AscendingRun(Add(t, calls[0].id, calls[0].further), order', calls[1..], t', id);
    }
  }

  /** New ids take the slots below `m` and leave the rest of the order as it was. */
  lemma {:induction false} Refill(t: Table, order: seq<Index>, m: nat, ids: seq<NodeId>)
    returns (t': Table, order': seq<Index>)
    requires Refilling(t, order, m) && Distinct(ids) && t.count + |ids| == m
    requires forall id :: id in ids ==> !Holds(t, id)
    ensures RunsTo(t, NeighbourCalls(ids), t') && |t'.entries| == |t.entries|
    ensures Refilling(t', order', m) && t'.count == m && |order'| == |order| && order'[m..] == order[m..]
    ensures forall id :: Holds(t', id) ==> Holds(t, id) || id in ids
    decreases |ids|
  {
    if ids == [] {
      t', order' := t, order;
    } else {
      assert ids[0] in ids;
      AddFresh(t, ids[0]);
      RefillStep(t, order, m, ids[0], NULL_INDEX);
      var t1 := Add(t, ids[0], NULL_INDEX);
      forall id | id in ids[1..] ensures !Holds(t1, id) {
        assert id in ids;
      }
      assert Distinct(ids[1..]);
      t', order' := Refill(t1, MoveToFront(order, SlotFor(t, ids[0])), m, ids[1..]);
      assert NeighbourCalls(ids)[1..] == NeighbourCalls(ids[1..]);
    }
  }

  /** A fresh slot whose predecessor in the order is out of the search's reach closes a circle. */
  lemma OutOfOrderCircles(t: Table, order: seq<Index>, id: NodeId)
    requires Refilling(t, order, t.count) && t.count < |order| && order[t.count] != t.count && !Holds(t, id)
    ensures AddReady(t, id, NULL_INDEX) && Endless(Add(t, id, NULL_INDEX))
  {
    var slot: Index := t.count;
    AddFresh(t, id);
    assert slot in order;
    var j :| 0 <= j < |order| && order[j] == slot;
    NoPredecessorInReach(t, order, j);
    FreshOlders(t, id);
    RecencyHasNoRepeats(t.(count := |order|), order);
    var t' := Add(t, id, NULL_INDEX);
    forall i | 0 <= i <= j ensures order[i] < |t.entries|
                                   && t'.entries[order[i]].olderIndex == order[if i < j then i + 1 else 0]
    {
      assert order[i] in order;
      ChainSuffix(Olders(t.entries), order, i);
    }
    RingIsEndless(t', order[..j + 1]);
  }

  /** Slots linked in a ring, the newest one among them, make a walk that never ends. */
  lemma RingIsEndless(t: Table, ring: seq<Index>)
    requires Sized(t) && ring != [] && t.newest == Last(ring)
    requires forall i :: 0 <= i < |ring| ==>
               ring[i] < |t.entries| && t.entries[ring[i]].olderIndex == ring[if i + 1 < |ring| then i + 1 else 0]
    ensures Endless(t)
  {
    var slots := set x | x in ring;
    forall x: Index | x in slots ensures x < |t.entries| && t.entries[x].olderIndex in slots {
      var i :| 0 <= i < |ring| && ring[i] == x;
      assert ring[if i + 1 < |ring| then i + 1 else 0] in slots;
    }
    assert Circling(t, slots);
  }

  /** If nothing was unlinked, only the fresh slot's own older link changes. */
  lemma FreshOlders(t: Table, id: NodeId)
    requires Sized(t) && t.count < |t.entries| && !Holds(t, id)
    requires t.newest != t.count && Unlink(t.entries, t.count + 1, t.count) == t.entries
    ensures AddReady(t, id, NULL_INDEX)
    ensures forall x :: 0 <= x < |t.entries| ==>
              Add(t, id, NULL_INDEX).entries[x].olderIndex
              == if x == t.count then t.newest else t.entries[x].olderIndex
  {
    AddFresh(t, id);
    assert CountAfter(t, id) == t.count + 1;
    assert Promote(t.entries, t.count + 1, t.newest, t.count)
        == t.entries[t.count := t.entries[t.count].(olderIndex := t.newest)];
  }

  lemma NoPredecessorInReach(t: Table, order: seq<Index>, j: nat)
    requires Refilling(t, order, t.count) && j < |order| && order[j] == t.count && order[t.count] != t.count
    ensures t.newest != t.count
    ensures Unlink(t.entries, t.count + 1, t.count) == t.entries
  {
    RecencyHasNoRepeats(t.(count := |order|), order);
    forall x: Index | x <= t.count ensures t.entries[x].olderIndex != t.count {
      if x < t.count {
        EarlyPlaces(t, order, t.count, x);
      }
      assert x in order;
      var i :| 0 <= i < |order| && order[i] == x && (x < t.count ==> i < t.count);
      ChainSuffix(Olders(t.entries), order, i);
    }
  }

  ghost function FirstOutOfPlace(order: seq<Index>, k: nat): (m: nat)
    requires k <= |order| && order != Ascending(|order|) && forall i :: 0 <= i < k ==> order[i] == i
    ensures m < |order| && order[m] != m && forall i :: 0 <= i < m ==> order[i] == i
    decreases |order| - k
  {
    assert k == |order| ==> order == Ascending(k);
    if order[k] != k then k else FirstOutOfPlace(order, k + 1)
  }

  /** Up to the first slot out of place new ids go in as intended; the next new id closes a circle. */
  lemma InitThenCircles(t: Table, ids: seq<NodeId>, m: nat) returns (t': Table)
    requires Valid(t) && m < t.count && Recency(t)[m] != m && forall k :: 0 <= k < m ==> Recency(t)[k] == k
    requires Distinct(ids) && |ids| == m + 1
    ensures RunsTo(t.(count := 0), NeighbourCalls(ids), t') && Endless(t')
    ensures t'.count == m + 1 && |t'.entries| == |t.entries|
    ensures forall id :: Holds(t', id) ==> id in ids
  {
    var first, id := ids[..m], ids[m];
    InitRefills(t, m);
    var t1, order1 := Refill(t.(count := 0), Recency(t), m, first);
    assert order1[m..][0] == Recency(t)[m..][0];
    assert !Holds(t1, id);
    OutOfOrderCircles(t1, order1, id);
    AddFresh(t1, id);
    t' := Add(t1, id, NULL_INDEX);
    assert RunsTo(t1, NeighbourCalls([id]), t');
    LeadsConcat(Completes, AfterCall, t.(count := 0), NeighbourCalls(first), t1, NeighbourCalls([id]), t');
    NeighbourCallsConcat(first, [id]);
    assert ids == first + [id];
  }

  /** Unless the order was ascending, n distinct ids go in after the reset and any further one hangs. */
  lemma InitThenHang(t: Table, ids: seq<NodeId>, extra: NodeId) returns (t': Table)
    requires Valid(t) && Recency(t) != Ascending(t.count)
    requires Distinct(ids + [extra]) && |ids| == |t.entries|
    ensures RunsTo(t.(count := 0), NeighbourCalls(ids), t')
    ensures !AddReady(t', extra, NULL_INDEX)
  {
    var m := FirstOutOfPlace(Recency(t), 0);
    var first, rest := ids[..m + 1], ids[m + 1..];
    assert forall k :: 0 <= k < |ids| ==> (ids + [extra])[k] == ids[k];
    assert ids == first + rest && ids + [extra] == first + (rest + [extra]);
    var t1 := InitThenCircles(t, first, m);
    DistinctParts(first, rest + [extra]);
    t' := EndlessHangs(t1, rest, extra);
    LeadsConcat(Completes, AfterCall, t.(count := 0), NeighbourCalls(first), t1, NeighbourCalls(rest), t');
    NeighbourCallsConcat(first, rest);
  }

  lemma DistinctParts<T>(a: seq<T>, b: seq<T>)
    requires Distinct(a + b)
    ensures Distinct(b) && forall x :: x in b ==> x !in a
  {
    assert forall k :: 0 <= k < |b| ==> (a + b)[|a| + k] == b[k];
    forall i, j | 0 <= i < |a| && 0 <= j < |b| ensures a[i] != b[j] {
      assert (a + b)[i] == a[i] && (a + b)[|a| + j] == b[j];
    }
  }

  /**
   The second defect, exactly: after `sourceRouteInit` no run of adds ends in a hang if and only if
   the slots stood in ascending order, the newest being slot 0 and the oldest the last one.
   */
  lemma InitStaysReadyIff(t: Table)
    requires Valid(t) && 0 < |t.entries|
    ensures AlwaysReady(t.(count := 0)) <==> Recency(t) == Ascending(t.count)
  {
    var reset := t.(count := 0);
    if Recency(t) == Ascending(t.count) {
      InitRefills(t, t.count);
      forall calls, t', id | RunsTo(reset, calls, t') ensures AddReady(t', id, NULL_INDEX) {
        AscendingRun(reset, Recency(t), calls, t', id);
      }
    } else {
      var ids: seq<NodeId> := seq(|t.entries|, k requires 0 <= k < |t.entries| => k);
      var t' := InitThenHang(t, ids, |t.entries|);
    }
  }

  /** The very next add leaves an ending walk exactly if slot 0 was the newest; later adds are another matter. */
  lemma InitThenAddEndsIff(t: Table, id: NodeId)
    requires Valid(t) && t.count > 0
    ensures AddReady(t.(count := 0), id, NULL_INDEX)
    ensures var t' := Add(t.(count := 0), id, NULL_INDEX);
            Ends(Olders(t'.entries), t'.newest) <==> t.newest == 0
  {
    var order, t' := Recency(t), Add(t.(count := 0), id, NULL_INDEX);
    var links, links' := Olders(t.entries), Olders(t'.entries);
    assert 0 in order;
    var k :| 0 <= k < |order| && order[k] == 0;
    ChainSuffix(links, order, k);
    RecencyHasNoRepeats(t, order);
    if t.newest == 0 {
      assert links' == links;
      ChainFromIs(links', order);
    } else if Ends(links', 0) {
      assert links[0] != 0;
      assert forall x: Index :: x < |links| && x != 0 ==> links'[x] == links[x];
      var path := ChainFrom(links', 0);
      ChainHasNoRepeats(links', path);
      StillMeets(links, links', order, path[1..], 0);
    }
  }

  /** Three ids recorded on three slots, and then the first one again, before the reset. */
  const OUT_OF_ORDER := Table([Entry(1, 0xFF, 2), Entry(2, 0xFF, 0xFF), Entry(3, 0xFF, 1)], 3, 0)

  lemma RunsFirst(t: Table, id: NodeId, ids: seq<NodeId>, t1: Table, t': Table)
    requires AddReady(t, id, NULL_INDEX) && t1 == Add(t, id, NULL_INDEX)
    requires RunsTo(t1, NeighbourCalls(ids), t')
    ensures RunsTo(t, NeighbourCalls([id] + ids), t')
  {
    assert ([id] + ids)[1..] == ids;
    assert NeighbourCalls([id] + ids)[1..] == NeighbourCalls(ids);
  }

  lemma OutOfOrderIsReached()
    ensures RunsTo(Fresh(3), NeighbourCalls([1, 2, 3, 1]), OUT_OF_ORDER)
  {
    var t1 := Table([Entry(1, 0xFF, 0xFF), Entry(0, 0, 0), Entry(0, 0, 0)], 1, 0);
    var t2 := Table([Entry(1, 0xFF, 0xFF), Entry(2, 0xFF, 0), Entry(0, 0, 0)], 2, 1);
    var t3 := Table([Entry(1, 0xFF, 0xFF), Entry(2, 0xFF, 0), Entry(3, 0xFF, 1)], 3, 2);
    RunsFirst(t3, 1, [], OUT_OF_ORDER, OUT_OF_ORDER);
    RunsFirst(t2, 3, [1], t3, OUT_OF_ORDER);
    RunsFirst(t1, 2, [3, 1], t2, OUT_OF_ORDER);
    RunsFirst(Fresh(3), 1, [2, 3, 1], t1, OUT_OF_ORDER);
  }

  lemma OutOfOrderRecency()
    ensures Valid(OUT_OF_ORDER) && Recency(OUT_OF_ORDER) == [0, 2, 1]
  {
    var order: seq<Index> := [0, 2, 1];
    assert order[1..] == [2, 1] && order[1..][1..] == [1];
    assert IsRecency(OUT_OF_ORDER, order);
    RecencyIsUnique(OUT_OF_ORDER, order);
  }

  /** Slot 0 as the newest one does not help: the second add after the reset closes a circle. */
  lemma NewestFirstIsNotEnough()
    ensures RunsTo(Fresh(3), NeighbourCalls([1, 2, 3, 1]), OUT_OF_ORDER)
    ensures Valid(OUT_OF_ORDER) && OUT_OF_ORDER.newest == 0 && Recency(OUT_OF_ORDER) == [0, 2, 1]
    ensures exists t' :: RunsTo(OUT_OF_ORDER.(count := 0), NeighbourCalls([4, 5]), t') && Endless(t')
  {
    OutOfOrderIsReached();
    OutOfOrderRecency();
    var t' := InitThenCircles(OUT_OF_ORDER, [4, 5], 1);
  }
}
