/**
 Runs in which a gateway both handles route records and adds joining nodes in front of
 their parents, as a trust center does, on one table.
 */
module RouteOperations {
  import opened EmberTypes
  import opened IndexChains
  import opened SourceRoutes
  import opened RecencyOrder
  import opened RouteForest
  import opened RouteRecords

  datatype Operation = Handled(record: Record) | Joined(newId: NodeId, closerId: NodeId)

  /** The table after one operation; a node that joins through an unknown parent changes nothing. */
  ghost function Operated(t: Table, op: Operation): (t': Table)
    requires Valid(t)
    ensures Valid(t') && |t'.entries| == |t.entries|
  {
    match op
    case Handled(record) => Recorded(t, record)
    case Joined(newId, closerId) =>
      if Holds(t, closerId) then
        AddWithCloserKeepsValid(t, newId, closerId);
        AddWithCloser(t, newId, closerId)
      else t
  }

  ghost function OperatedAll(t: Table, ops: seq<Operation>): (t': Table)
    requires Valid(t)
    ensures Valid(t') && |t'.entries| == |t.entries|
    decreases |ops|
  {
    if ops == [] then t else OperatedAll(Operated(t, ops[0]), ops[1..])
  }

  // ----- the ids in the table

  /** What an operation does to a bounded most-recently-used list. */
  function TouchedBy(ids: seq<NodeId>, op: Operation, capacity: nat): seq<NodeId> {
    match op
    case Handled(record) => TouchedAll(ids, Ids(record), capacity)
    case Joined(newId, closerId) => if closerId in ids then Touched(ids, newId, capacity) else ids
  }

  function TouchedByAll(ids: seq<NodeId>, ops: seq<Operation>, capacity: nat): seq<NodeId>
    decreases |ops|
  {
    if ops == [] then ids else TouchedByAll(TouchedBy(ids, ops[0], capacity), ops[1..], capacity)
  }

  lemma OperationRefinesTouch(t: Table, op: Operation)
    requires Valid(t) && 0 < |t.entries|
    ensures RecentIds(Operated(t, op)) == TouchedBy(RecentIds(t), op, |t.entries|)
  {
    match op
    case Handled(record) => AddAllRefinesTouches(t, Ids(record), NULL_INDEX);
    case Joined(newId, closerId) =>
      HeldIffRecent(t, closerId);
      if Holds(t, closerId) {
        AddWithCloserRefinesTouch(t, newId, closerId);
      }
  }

  /** Over any mixed run the table stays valid and holds the ids of a most-recently-used list. */
  lemma {:induction false} OperationsRefineTouches(t: Table, ops: seq<Operation>)
    requires Valid(t) && 0 < |t.entries|
    ensures Valid(OperatedAll(t, ops))
    ensures RecentIds(OperatedAll(t, ops)) == TouchedByAll(RecentIds(t), ops, |t.entries|)
    decreases |ops|
  {
    if ops != [] {
      OperationRefinesTouch(t, ops[0]);
      OperationsRefineTouches(Operated(t, ops[0]), ops[1..]);
    }
  }

  // ----- the entry an add takes over

  /** The id whose entry an add for `id` takes over: the oldest one of a full table, or its own. */
  ghost function TakenOver(t: Table, id: NodeId): NodeId
    requires Valid(t) && 0 < t.count
  {
    if NeedsEviction(t, id) then Last(RecentIds(t)) else id
  }

  /** A known node and the relays of its route are the ids of the slots the lookup walks through. */
  lemma RouteIsIdsAt(t: Table, id: NodeId)
    requires Valid(t) && Holds(t, id) && Ends(Closers(t.entries), FindIndex(t, id))
    ensures var path := ChainFrom(Closers(t.entries), FindIndex(t, id));
            && (forall x :: x in path ==> x < t.count)
            && [id] + RouteTo(t, id) == IdsAt(t.entries, path)
  {
    var path := ChainFrom(Closers(t.entries), FindIndex(t, id));
    ChainInTable(Closers(t.entries), path);
    ChainStaysBelow(Closers(t.entries), path, t.count);
  }

  lemma SlotThenId(t: Table, path: seq<Index>, slot: Index)
    requires Sized(t) && slot in path && forall x :: x in path ==> x < t.count
    ensures t.entries[slot].destination in IdsAt(t.entries, path)
  {
    var k :| 0 <= k < |path| && path[k] == slot;
    assert IdsAt(t.entries, path)[k] == t.entries[slot].destination;
  }

  lemma IdThenSlot(t: Table, path: seq<Index>, slot: Index)
    requires Sized(t) && DistinctDestinations(t) && slot < t.count && forall x :: x in path ==> x < t.count
    requires t.entries[slot].destination in IdsAt(t.entries, path)
    ensures slot in path
  {
    var ids := IdsAt(t.entries, path);
    var k :| 0 <= k < |ids| && ids[k] == t.entries[slot].destination;
    assert path[k] in path;
  }

  /** A slot in use is among some exactly if its id is among theirs. */
  lemma SlotIffId(t: Table, path: seq<Index>, slot: Index)
    requires Sized(t) && DistinctDestinations(t) && slot < t.count && forall x :: x in path ==> x < t.count
    ensures slot in path <==> t.entries[slot].destination in IdsAt(t.entries, path)
  {
    if slot in path {
      SlotThenId(t, path, slot);
    } else if t.entries[slot].destination in IdsAt(t.entries, path) {
      IdThenSlot(t, path, slot);
    }
  }

  /** An id on a route is in the table. */
  lemma RouteIsHeld(t: Table, id: NodeId, x: NodeId)
    requires Valid(t) && Holds(t, id) && Ends(Closers(t.entries), FindIndex(t, id)) && x in [id] + RouteTo(t, id)
    ensures Holds(t, x)
  {
    var path := ChainFrom(Closers(t.entries), FindIndex(t, id));
    RouteIsIdsAt(t, id);
    var k :| 0 <= k < |IdsAt(t.entries, path)| && IdsAt(t.entries, path)[k] == x;
    assert path[k] in path && t.entries[path[k]].destination == x;
  }

  lemma OldestId(t: Table)
    requires Valid(t) && 0 < t.count
    ensures Last(Recency(t)) < t.count && Last(RecentIds(t)) == t.entries[Last(Recency(t))].destination
  {
    assert Last(Recency(t)) in Recency(t);
  }

  /** An add takes the slot of the id it takes over, if that is in the table, and else the first unused one. */
  lemma TakenSlot(t: Table, newId: NodeId)
    requires Valid(t) && 0 < t.count
    ensures AddReady(t, newId, NULL_INDEX) && SlotFor(t, newId) <= t.count
    ensures SlotFor(t, newId) < t.count ==> t.entries[SlotFor(t, newId)].destination == TakenOver(t, newId)
    ensures SlotFor(t, newId) == t.count ==> !Holds(t, newId) && TakenOver(t, newId) == newId
  {
    OldestId(t);
    AddMovesToFront(t, Recency(t), newId, NULL_INDEX);
  }

  /** The slot an add takes is on a route exactly if the id whose entry it takes over is. */
  lemma TakenSlotOnRoute(t: Table, newId: NodeId, id: NodeId)
    requires Valid(t) && Holds(t, id) && Ends(Closers(t.entries), FindIndex(t, id))
    ensures AddReady(t, newId, NULL_INDEX)
    ensures SlotFor(t, newId) in ChainFrom(Closers(t.entries), FindIndex(t, id))
            <==> TakenOver(t, newId) in [id] + RouteTo(t, id)
  {
    TakenSlot(t, newId);
    RouteIsIdsAt(t, id);
    if SlotFor(t, newId) < t.count {
      SlotIffId(t, ChainFrom(Closers(t.entries), FindIndex(t, id)), SlotFor(t, newId));
    } else {
      if newId in [id] + RouteTo(t, id) {
        RouteIsHeld(t, id, newId);
      }
    }
  }

  // ----- the routes after a node was added in front of another one

  /** A chain of closer links from the slot of an id is its route. */
  lemma ChainIsFound(t: Table, id: NodeId, path: seq<Index>)
    requires Sized(t) && Holds(t, id) && IsChain(Closers(t.entries), path) && path[0] == FindIndex(t, id)
    ensures forall k :: 0 <= k < |path| ==> path[k] < |t.entries|
    ensures Finds(t, id, RelaysOn(t.entries, path))
  {
    ChainInTable(Closers(t.entries), path);
    ChainFromIs(Closers(t.entries), path);
  }

  /** The ids in the slots after the call: the new one in the slot it took, the others where they were. */
  lemma AddWithCloserFinds(t: Table, newId: NodeId, closerId: NodeId, x: NodeId)
    requires Valid(t) && Holds(t, closerId)
    ensures AddReady(t, newId, NULL_INDEX) && Valid(AddWithCloser(t, newId, closerId))
    ensures var t', slot := AddWithCloser(t, newId, closerId), SlotFor(t, newId);
            && (forall i :: 0 <= i < |t.entries| ==>
                  t'.entries[i].destination == if i == slot then newId else t.entries[i].destination)
            && FindIndex(t', newId) == slot
            && (x != newId ==> FindIndex(t', x) == if FindIndex(t, x) == slot then NULL_INDEX else FindIndex(t, x))
  {
    AddWithCloserKeepsValid(t, newId, closerId);
    AddWithCloserOnlyLinks(t, newId, closerId);
    AddDestinations(t, newId, NULL_INDEX);
    AddKeepsValid(t, newId, NULL_INDEX);
    var added, t' := Add(t, newId, NULL_INDEX), AddWithCloser(t, newId, closerId);
    SameFinds(added, t', newId);
    SameFinds(added, t', x);
    if x != newId {
      AddFinds(t, newId, NULL_INDEX, x);
    }
  }

  lemma SameFinds(t: Table, t': Table, id: NodeId)
    requires Sized(t) && Valid(t') && t'.count == t.count && |t'.entries| == |t.entries|
    requires forall i :: 0 <= i < |t.entries| ==> t'.entries[i].destination == t.entries[i].destination
    ensures FindIndex(t', id) == FindIndex(t, id)
  {
  }

  /**
   The route of the new node: its next hop, and then the next hop's own route. It has this route
   exactly if its entry does not take over that of a node on it.
   */
  lemma JoinedRouteIff(t: Table, newId: NodeId, closerId: NodeId)
    requires Valid(t) && Holds(t, closerId) && Ends(Closers(t.entries), FindIndex(t, closerId))
    ensures Finds(Operated(t, Joined(newId, closerId)), newId, [closerId] + RouteTo(t, closerId))
            <==> TakenOver(t, newId) !in [closerId] + RouteTo(t, closerId)
  {
    var t', slot := Operated(t, Joined(newId, closerId)), SlotForAny(t, newId);
    var known := ChainFrom(Closers(t.entries), FindIndex(t, closerId));
    TakenSlotOnRoute(t, newId, closerId);
    AddWithCloserFinds(t, newId, closerId, newId);
    AddWithCloserLinks(t, newId, closerId);
    AddWithCloserReroutes(t, newId, closerId, known);
    if slot in known {
      if Ends(Closers(t'.entries), slot) {
        ChainSuffix(Closers(t'.entries), ChainFrom(Closers(t'.entries), slot), 1);
      }
    } else {
      ChainInTable(Closers(t.entries), known);
      ChainFrame(Closers(t.entries), Closers(t'.entries), known);
      ChainCons(Closers(t'.entries), slot, known);
      ChainIsFound(t', newId, [slot] + known);
      assert RelaysOn(t'.entries, [slot] + known) == [closerId] + RouteTo(t, closerId);
    }
  }

  /** A route that avoids the node whose entry is taken over is not changed. */
  lemma OtherRouteStays(t: Table, newId: NodeId, closerId: NodeId, x: NodeId)
    requires Valid(t) && Holds(t, closerId) && Ends(Closers(t.entries), FindIndex(t, closerId))
    requires Holds(t, x) && Ends(Closers(t.entries), FindIndex(t, x)) && x != newId
    requires TakenOver(t, newId) !in [x] + RouteTo(t, x)
    ensures Finds(Operated(t, Joined(newId, closerId)), x, RouteTo(t, x))
  {
    var t', path := Operated(t, Joined(newId, closerId)), ChainFrom(Closers(t.entries), FindIndex(t, x));
    TakenSlotOnRoute(t, newId, x);
    AddWithCloserFinds(t, newId, closerId, x);
    AddWithCloserReroutes(t, newId, closerId, path);
    assert path[0] in path;
    ChainIsFound(t', x, path);
    assert forall k :: 0 <= k < |path| ==> path[k] in path;
    assert RelaysOn(t'.entries, path) == RouteTo(t, x);
  }

  /** The walk along a route over that node, once its slot is that of the new one. */
  lemma DivertedChain(t: Table, newId: NodeId, closerId: NodeId, x: NodeId, k: nat)
    requires Valid(t) && Holds(t, closerId) && Ends(Closers(t.entries), FindIndex(t, closerId))
    requires TakenOver(t, newId) !in [closerId] + RouteTo(t, closerId)
    requires Holds(t, x) && Ends(Closers(t.entries), FindIndex(t, x)) && x != newId
    requires k < |RouteTo(t, x)| && RouteTo(t, x)[k] == TakenOver(t, newId)
    ensures AddReady(t, newId, NULL_INDEX)
    ensures var path, known := ChainFrom(Closers(t.entries), FindIndex(t, x)),
                               ChainFrom(Closers(t.entries), FindIndex(t, closerId));
            && path[k + 1] == SlotFor(t, newId) && SlotFor(t, newId) !in known
            && IsChain(Closers(AddWithCloser(t, newId, closerId).entries), path[..k + 2] + known)
  {
    var path := ChainFrom(Closers(t.entries), FindIndex(t, x));
    TakenSlot(t, newId);
    TakenSlotOnRoute(t, newId, closerId);
    RouteIsIdsAt(t, x);
    assert path[k + 1] in path && t.entries[path[k + 1]].destination == TakenOver(t, newId);
    RouteIsHeld(t, x, TakenOver(t, newId));
    AddWithCloserReroutes(t, newId, closerId, path);
  }

  /** A route over that node goes over the new one instead, and from there over its next hop. */
  lemma OtherRouteDiverts(t: Table, newId: NodeId, closerId: NodeId, x: NodeId, k: nat)
    requires Valid(t) && Holds(t, closerId) && Ends(Closers(t.entries), FindIndex(t, closerId))
    requires TakenOver(t, newId) !in [closerId] + RouteTo(t, closerId)
    requires Holds(t, x) && Ends(Closers(t.entries), FindIndex(t, x)) && x != newId
    requires k < |RouteTo(t, x)| && RouteTo(t, x)[k] == TakenOver(t, newId)
    ensures Finds(Operated(t, Joined(newId, closerId)), x,
                  RouteTo(t, x)[..k] + [newId, closerId] + RouteTo(t, closerId))
  {
    var t' := Operated(t, Joined(newId, closerId));
    var path, known := ChainFrom(Closers(t.entries), FindIndex(t, x)),
                       ChainFrom(Closers(t.entries), FindIndex(t, closerId));
    DivertedChain(t, newId, closerId, x, k);
    ChainHasNoRepeats(Closers(t.entries), path);
    AddWithCloserFinds(t, newId, closerId, x);
    ChainIsFound(t', x, path[..k + 2] + known);
    ChainInTable(Closers(t.entries), path);
    ChainInTable(Closers(t.entries), known);
    DivertedRelays(t.entries, t'.entries, path, k, known, newId);
    assert t.entries[known[0]].destination == closerId;
    assert RelaysOn(t'.entries, path[..k + 2] + known)
        == RouteTo(t, x)[..k] + [newId, closerId] + RouteTo(t, closerId);
  }

  lemma DivertedRelays(
    entries: seq<Entry>, entries': seq<Entry>, path: seq<Index>, k: nat, known: seq<Index>, newId: NodeId)
    requires |entries'| == |entries| && k + 1 < |path| && known != [] && Distinct(path) && path[k + 1] !in known
    requires forall i :: 0 <= i < |path| ==> path[i] < |entries|
    requires forall i :: 0 <= i < |known| ==> known[i] < |entries|
    requires forall i :: 0 <= i < |entries| ==>
               entries'[i].destination == if i == path[k + 1] then newId else entries[i].destination
    ensures var all := path[..k + 2] + known;
            && (forall i :: 0 <= i < |all| ==> all[i] < |entries|)
            && RelaysOn(entries', all)
               == RelaysOn(entries, path)[..k] + [newId, entries[known[0]].destination] + RelaysOn(entries, known)
  {
    var all := path[..k + 2] + known;
    forall i | 0 <= i < |known| ensures all[k + 2 + i] == known[i] && known[i] != path[k + 1] {
    }
  }

  // ----- cycles in mixed runs

  /** What keeps routes free of cycles: told from the record, or from the parent's own route. */
  ghost predicate Harmless(t: Table, op: Operation)
    requires Valid(t) && Acyclic(t)
  {
    match op
    case Handled(record) => !LoopsAtEnd(Ids(record), |t.entries|)
    case Joined(newId, closerId) => Holds(t, closerId) ==> TakenOver(t, newId) !in [closerId] + RouteTo(t, closerId)
  }

  /** One operation keeps an acyclic table acyclic exactly if it is harmless. */
  lemma OperationKeepsAcyclicIff(t: Table, op: Operation)
    requires Valid(t) && Acyclic(t) && 0 < |t.entries|
    ensures Acyclic(Operated(t, op)) <==> Harmless(t, op)
  {
    match op
    case Handled(record) => RecordKeepsAcyclicIff(t, record);
    case Joined(newId, closerId) =>
      if Holds(t, closerId) {
        AddWithCloserKeepsAcyclicIff(t, newId, closerId);
        TakenSlotOnRoute(t, newId, closerId);
      }
  }

  /** In every state of the run every lookup ends. */
  ghost predicate StaysAcyclic(t: Table, ops: seq<Operation>)
    requires Valid(t)
    decreases |ops|
  {
    Acyclic(t) && (ops == [] || StaysAcyclic(Operated(t, ops[0]), ops[1..]))
  }

  /** Every operation is harmless when its turn comes. */
  ghost predicate AllHarmless(t: Table, ops: seq<Operation>)
    requires Valid(t)
    decreases |ops|
  {
    ops == [] || (Acyclic(t) && Harmless(t, ops[0]) && AllHarmless(Operated(t, ops[0]), ops[1..]))
  }

  /** Over any mixed run, lookups end in every state if and only if every operation is harmless. */
  lemma {:induction false} StaysAcyclicIff(t: Table, ops: seq<Operation>)
    requires Valid(t) && Acyclic(t) && 0 < |t.entries|
    ensures StaysAcyclic(t, ops) <==> AllHarmless(t, ops)
    decreases |ops|
  {
    if ops != [] {
      OperationKeepsAcyclicIff(t, ops[0]);
      if Acyclic(Operated(t, ops[0])) {
        StaysAcyclicIff(Operated(t, ops[0]), ops[1..]);
      }
    }
  }
}
