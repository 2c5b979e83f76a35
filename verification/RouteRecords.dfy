/**
 Route records: recording the relays of a route, looking the route up again, and
 what holds of a table over any run of records.
 */
module RouteRecords {
  import opened EmberTypes
  import opened IndexChains
  import opened SourceRoutes
  import opened RecencyOrder
  import opened RouteForest

  /** A route record: where the message came from and the relays it met, the first one first. */
  datatype Record = Record(source: NodeId, relays: seq<NodeId>)

  /** The nodes of a route, from its source on. */
  function Ids(record: Record): (ids: seq<NodeId>)
    ensures ids != []
  {
    [record.source] + record.relays
  }

  /** Adds the ids in order, each one as the next hop of the one before it. */
  ghost function AddAll(t: Table, ids: seq<NodeId>, previous: Index): (t': Table)
    requires Valid(t) && 0 < |t.entries| && (previous == NULL_INDEX || previous < t.count)
    ensures Valid(t') && |t'.entries| == |t.entries|
    decreases |ids|
  {
    if ids == [] then t
    else
      AddKeepsValid(t, ids[0], previous);
      AddAll(Add(t, ids[0], previous), ids[1..], SlotFor(t, ids[0]))
  }

  /** The table after a route record was handled; a gateway without slots keeps none. */
  ghost function Recorded(t: Table, record: Record): (t': Table)
    requires Valid(t)
    ensures Valid(t') && |t'.entries| == |t.entries|
  {
    if |t.entries| == 0 then t else AddAll(t, Ids(record), NULL_INDEX)
  }

  /** A lookup of `id` comes to an end and reports `relays`. */
  ghost predicate Finds(t: Table, id: NodeId, relays: seq<NodeId>)
    requires Sized(t)
  {
    && FindIndex(t, id) != NULL_INDEX
    && Ends(Closers(t.entries), FindIndex(t, id))
    && RouteTo(t, id) == relays
  }

  // ----- round trip

  function Reverse<T>(s: seq<T>): (r: seq<T>)
    ensures |r| == |s|
    ensures forall k :: 0 <= k < |s| ==> r[k] == s[|s| - 1 - k]
  {
    seq(|s|, k requires 0 <= k < |s| => s[|s| - 1 - k])
  }

  /** The ids added so far sit in `slots`, linked in order, and are the most recent ones. */
  ghost predicate Linked(t: Table, ids: seq<NodeId>, slots: seq<Index>)
    requires Valid(t)
  {
    && IsChain(Closers(t.entries), slots)
    && |slots| == |ids| <= t.count
    && (forall k :: 0 <= k < |slots| ==> slots[k] < t.count && t.entries[slots[k]].destination == ids[k])
    && Recency(t)[..|slots|] == Reverse(slots)
  }

  lemma {:induction false} WithoutKeepsPrefix<T>(s: seq<T>, x: T, n: nat)
    requires n <= |s| && x !in s[..n]
    ensures n <= |Without(s, x)| && Without(s, x)[..n] == s[..n]
  {
    if n > 0 {
      assert s[..n][0] == s[0] && s[..n][1..] == s[1..][..n - 1];
      WithoutKeepsPrefix(s[1..], x, n - 1);
    }
  }

  lemma {:induction false} RerouteAtEnd(path: seq<Index>, cut: Index)
    requires path != [] && Distinct(path) && cut !in path
    ensures Reroute(path, cut, Last(path)) == path + [cut]
  {
    if |path| > 1 {
      assert Distinct(path[1..]) && Last(path[1..]) == Last(path);
      RerouteAtEnd(path[1..], cut);
    }
  }

  /**
   The key step: while there is room for one more id, an add neither finds nor evicts a slot of
   the route being recorded.
   */
  lemma AvoidsRecordedSlots(t: Table, ids: seq<NodeId>, slots: seq<Index>, id: NodeId)
    requires Valid(t) && Linked(t, ids, slots) && id !in ids && |ids| < |t.entries|
    ensures AddReady(t, id, NULL_INDEX) && SlotFor(t, id) !in slots
  {
    AddMovesToFront(t, Recency(t), id, NULL_INDEX);
    var slot := SlotFor(t, id);
    RecencyHasNoRepeats(t, Recency(t));
    forall k | 0 <= k < |slots| ensures slots[k] != slot {
      assert ids[k] in ids;
      assert Recency(t)[|slots| - 1 - k] == Recency(t)[..|slots|][|slots| - 1 - k] == slots[k];
    }
  }

  lemma AddExtendsRoute(t: Table, ids: seq<NodeId>, slots: seq<Index>, id: NodeId)
    requires Valid(t) && Linked(t, ids, slots) && id !in ids && |ids| < |t.entries|
    ensures AddReady(t, id, Last(slots)) && Valid(Add(t, id, Last(slots)))
    ensures Linked(Add(t, id, Last(slots)), ids + [id], slots + [SlotFor(t, id)])
  {
    var further, links := Last(slots), Closers(t.entries);
    AvoidsRecordedSlots(t, ids, slots, id);
    AddKeepsValid(t, id, further);
    AddMovesToFront(t, Recency(t), id, further);
    var t', slot := Add(t, id, further), SlotFor(t, id);
    AddReroutes(t, id, further, slots);
    ChainHasNoRepeats(links, slots);
    RerouteAtEnd(slots, slot);
    AddDestinations(t, id, further);
    RecencyAfterAdd(t, slots, slot, Recency(t'));
    assert forall k :: 0 <= k < |slots| ==> slots[k] in slots;
  }

  lemma RecencyAfterAdd(t: Table, slots: seq<Index>, slot: Index, order': seq<Index>)
    requires Valid(t) && |slots| <= t.count && Recency(t)[..|slots|] == Reverse(slots) && slot !in slots
    requires order' == MoveToFront(Recency(t), slot)
    ensures |slots| < |order'| && order'[..|slots| + 1] == Reverse(slots + [slot])
  {
    var n := |slots|;
    assert slot !in Reverse(slots);
    WithoutKeepsPrefix(Recency(t), slot, n);
    assert order'[..n + 1] == [slot] + Reverse(slots);
  }

  /** Adding the rest of a route, from its `n`-th node on, extends what is linked so far. */
  lemma {:induction false} AddAllExtendsRoute(t: Table, ids: seq<NodeId>, n: nat, slots: seq<Index>)
    returns (slots': seq<Index>)
    requires 0 < n <= |ids| <= |t.entries| && Distinct(ids)
    requires Valid(t) && Linked(t, ids[..n], slots)
    ensures Linked(AddAll(t, ids[n..], Last(slots)), ids, slots')
    decreases |ids| - n
  {
    if n == |ids| {
      assert ids[..n] == ids;
      slots' := slots;
    } else {
      assert ids[n] !in ids[..n] && ids[..n] + [ids[n]] == ids[..n + 1] && ids[n..][1..] == ids[n + 1..];
      AddExtendsRoute(t, ids[..n], slots, ids[n]);
      slots' := AddAllExtendsRoute(Add(t, ids[n], Last(slots)), ids, n + 1, slots + [SlotFor(t, ids[n])]);
    }
  }

  /** A lookup of any id of a linked list of slots reports the ids after it. */
  lemma LinkedIsFound(t: Table, ids: seq<NodeId>, slots: seq<Index>, k: nat)
    requires Valid(t) && Linked(t, ids, slots) && k < |ids|
    ensures Finds(t, ids[k], ids[k + 1..])
  {
    var links := Closers(t.entries);
    assert FindIndex(t, ids[k]) == slots[k];
    ChainSuffix(links, slots, k);
    ChainFromIs(links, slots[k..]);
    ChainInTable(links, slots[k..]);
    assert RouteTo(t, ids[k]) == ids[k + 1..];
  }

  /** Recording a route makes the route to its source, and to every relay on it, known. */
  lemma RecordIsFound(t: Table, record: Record)
    requires Valid(t) && Distinct(Ids(record)) && |record.relays| + 1 <= |t.entries|
    ensures Finds(Recorded(t, record), record.source, record.relays)
    ensures forall k :: 0 <= k < |record.relays| ==>
              Finds(Recorded(t, record), record.relays[k], record.relays[k + 1..])
  {
    var source := record.source;
    AddKeepsValid(t, source, NULL_INDEX);
    var t1, slot := Add(t, source, NULL_INDEX), SlotFor(t, source);
    AddClosers(t, source, NULL_INDEX);
    AddDestinations(t, source, NULL_INDEX);
    assert Recency(t1)[..1] == [slot] == Reverse([slot]);
    assert Linked(t1, [source], [slot]);
    var ids, t' := Ids(record), Recorded(t, record);
    assert ids[..1] == [source] && ids[1..] == record.relays;
    var slots := AddAllExtendsRoute(t1, ids, 1, [slot]);
    LinkedIsFound(t', ids, slots, 0);
    forall k | 0 <= k < |record.relays| ensures Finds(t', record.relays[k], record.relays[k + 1..]) {
      LinkedIsFound(t', ids, slots, k + 1);
      assert ids[k + 2..] == record.relays[k + 1..];
    }
  }

  /**
   Round trip, from any table reachable by adds, full or not: a recorded route is found again,
   relay by relay, exactly if its nodes are pairwise distinct and fit into the table.
   */
  lemma RecordRoundTripIff(t: Table, record: Record)
    requires Valid(t)
    ensures Finds(Recorded(t, record), record.source, record.relays)
            <==> Distinct(Ids(record)) && |record.relays| + 1 <= |t.entries|
  {
    var t' := Recorded(t, record);
    if Finds(t', record.source, record.relays) {
      RouteIsLoopFree(t', record.source);
    } else if Distinct(Ids(record)) && |record.relays| + 1 <= |t.entries| {
      RecordIsFound(t, record);
    }
  }

  // ----- cycles

  /** The slot that holds `id` is linked to itself. */
  ghost predicate Looped(t: Table, id: NodeId)
    requires Sized(t)
  {
    Holds(t, id) && t.entries[FindIndex(t, id)].closerIndex == FindIndex(t, id)
  }

  /** The last id is added to the slot of the one before it: both are the same, or there is one slot. */
  predicate LoopsAtEnd(ids: seq<NodeId>, size: nat) {
    2 <= |ids| && (size == 1 || ids[|ids| - 1] == ids[|ids| - 2])
  }

  /** An add leaves the other ids where they are, but for the one it evicts. */
  lemma AddFinds(t: Table, id: NodeId, further: Index, x: NodeId)
    requires Valid(t) && 0 < |t.entries| && (further == NULL_INDEX || further < t.count) && x != id
    ensures AddReady(t, id, further) && Valid(Add(t, id, further))
    ensures FindIndex(Add(t, id, further), x)
            == if FindIndex(t, x) == SlotFor(t, id) then NULL_INDEX else FindIndex(t, x)
  {
    AddKeepsValid(t, id, further);
    AddDestinations(t, id, further);
    var found, found' := FindIndex(t, x), FindIndex(Add(t, id, further), x);
    if found' != NULL_INDEX {
      assert t.entries[found'].destination == x;
    }
  }

  /** Which ids are looped after one add. */
  lemma AddLoops(t: Table, id: NodeId, further: Index, x: NodeId)
    requires Valid(t) && 0 < |t.entries| && (further == NULL_INDEX || further < t.count)
    ensures AddReady(t, id, further) && Valid(Add(t, id, further))
    ensures var t' := Add(t, id, further);
            Looped(t', x)
            <==> if x == id then further == SlotFor(t, id)
                 else Looped(t, x) && Holds(t', x) && (further == NULL_INDEX || x != t.entries[further].destination)
  {
    AddKeepsValid(t, id, further);
    AddClosers(t, id, further);
    if x != id {
      AddFinds(t, id, further, x);
    }
  }

  /** An id that is not added is not in the table after the adds unless it was before. */
  lemma {:induction false} HeldBefore(t: Table, ids: seq<NodeId>, previous: Index, x: NodeId)
    requires Valid(t) && 0 < |t.entries| && (previous == NULL_INDEX || previous < t.count)
    requires x !in ids && Holds(AddAll(t, ids, previous), x)
    ensures Holds(t, x)
    decreases |ids|
  {
    if ids != [] {
      AddFinds(t, ids[0], previous, x);
      AddKeepsValid(t, ids[0], previous);
      HeldBefore(Add(t, ids[0], previous), ids[1..], SlotFor(t, ids[0]), x);
    }
  }

  /** Which ids are looped after one more relay, `next`, was added behind `id`. */
  lemma RelayLoops(t: Table, id: NodeId, next: NodeId, x: NodeId)
    requires Valid(t) && 0 < t.count && FindIndex(t, id) == t.newest
    ensures AddReady(t, next, t.newest) && Valid(Add(t, next, t.newest))
    ensures var t' := Add(t, next, t.newest);
            && 0 < t'.count && FindIndex(t', next) == t'.newest == SlotFor(t, next)
            && (Looped(t', x)
                <==> if x == next then id == next || |t.entries| == 1 else Looped(t, x) && Holds(t', x) && x != id)
  {
    AddLoops(t, next, t.newest, x);
    AddKeepsValid(t, next, t.newest);
    SlotIsNewestIff(t, id, next);
  }

  /** How a list ends does not depend on an id put before two or more. */
  lemma LongerEndsAlike(id: NodeId, ids: seq<NodeId>, size: nat)
    requires 2 <= |ids|
    ensures LoopsAtEnd([id] + ids, size) <==> LoopsAtEnd(ids, size)
    ensures Last([id] + ids) == Last(ids) == Last(ids[1..])
    ensures ids == [ids[0]] + ids[1..]
    ensures forall x :: x in [id] + ids <==> x == id || x in ids
  {
  }

  /** Which ids are looped after the relays of a record were added behind `id`. */
  lemma {:induction false} AddAllLoops(t: Table, id: NodeId, ids: seq<NodeId>, x: NodeId)
    requires Valid(t) && 0 < t.count && FindIndex(t, id) == t.newest && ids != []
    ensures var t' := AddAll(t, ids, t.newest);
            Looped(t', x)
            <==> if x in [id] + ids then x == Last(ids) && LoopsAtEnd([id] + ids, |t.entries|)
                 else Looped(t, x) && Holds(t', x)
    decreases |ids|
  {
    var next := ids[0];
    var t1 := Add(t, next, t.newest);
    RelayLoops(t, id, next, x);
    if |ids| > 1 {
      AddAllLoops(t1, next, ids[1..], x);
      LongerEndsAlike(id, ids, |t.entries|);
      if x !in ids && Holds(AddAll(t1, ids[1..], t1.newest), x) {
        HeldBefore(t1, ids[1..], t1.newest, x);
      }
    } else {
      assert ids == [next];
    }
  }

  /** An add goes to the newest slot exactly if it is for the newest id or there is just one slot. */
  lemma SlotIsNewestIff(t: Table, id: NodeId, next: NodeId)
    requires Valid(t) && 0 < t.count && FindIndex(t, id) == t.newest
    ensures AddReady(t, next, NULL_INDEX)
    ensures SlotFor(t, next) == t.newest <==> id == next || |t.entries| == 1
  {
    var order := Recency(t);
    AddMovesToFront(t, order, next, NULL_INDEX);
    RecencyHasNoRepeats(t, order);
    assert order[0] in order && order[t.count - 1] in order;
  }

  /** Which ids are looped after a record: at most its own last one, and others that were before. */
  lemma RecordLoops(t: Table, record: Record, x: NodeId)
    requires Valid(t) && 0 < |t.entries|
    ensures var t' := Recorded(t, record);
            Looped(t', x)
            <==> if x in Ids(record) then x == Last(Ids(record)) && LoopsAtEnd(Ids(record), |t.entries|)
                 else Looped(t, x) && Holds(t', x)
  {
    var source := record.source;
    AddLoops(t, source, NULL_INDEX, x);
    AddKeepsValid(t, source, NULL_INDEX);
    var t1 := Add(t, source, NULL_INDEX);
    assert Ids(record)[1..] == record.relays;
    assert Recorded(t, record) == AddAll(t1, record.relays, t1.newest);
    if record.relays == [] {
      assert Ids(record) == [source];
    } else {
      AddAllLoops(t1, source, record.relays, x);
      if x !in Ids(record) && Holds(Recorded(t, record), x) {
        HeldBefore(t1, record.relays, t1.newest, x);
      }
    }
  }

  lemma {:induction false} AddAllKeepsOnlySelfLinks(t: Table, ids: seq<NodeId>, previous: Index)
    requires Valid(t) && OnlySelfLinks(t) && 0 < |t.entries| && (previous == NULL_INDEX || previous < t.count)
    ensures OnlySelfLinks(AddAll(t, ids, previous))
    decreases |ids|
  {
    if ids != [] {
      AddKeepsValid(t, ids[0], previous);
      AddKeepsOnlySelfLinks(t, ids[0], previous);
      AddAllKeepsOnlySelfLinks(Add(t, ids[0], previous), ids[1..], SlotFor(t, ids[0]));
    }
  }

  lemma AcyclicIffNoneLooped(t: Table)
    requires Valid(t) && OnlySelfLinks(t)
    ensures Acyclic(t) <==> forall x :: !Looped(t, x)
  {
    AcyclicIffNoSelfLink(t);
    forall x | Looped(t, x) ensures FindIndex(t, x) in SelfLinked(t) {
    }
    forall i: Index | i in SelfLinked(t) ensures Looped(t, t.entries[i].destination) {
      assert FindIndex(t, t.entries[i].destination) == i;
    }
  }

  /**
   Handling a route record keeps an acyclic table acyclic exactly if the record has no relays,
   or the table has two slots or more and the last two ids of the record differ.
   */
  lemma RecordKeepsAcyclicIff(t: Table, record: Record)
    requires Valid(t) && Acyclic(t) && 0 < |t.entries|
    ensures Acyclic(Recorded(t, record)) <==> !LoopsAtEnd(Ids(record), |t.entries|)
  {
    AcyclicHasNoSelfLink(t);
    AddAllKeepsOnlySelfLinks(t, Ids(record), NULL_INDEX);
    AcyclicIffNoneLooped(t);
    AcyclicIffNoneLooped(Recorded(t, record));
    forall x ensures Looped(Recorded(t, record), x)
                     <==> x == Last(Ids(record)) && LoopsAtEnd(Ids(record), |t.entries|)
    {
      RecordLoops(t, record, x);
    }
    assert Looped(Recorded(t, record), Last(Ids(record))) <==> LoopsAtEnd(Ids(record), |t.entries|);
  }

  // ----- runs

  ghost function Run(t: Table, records: seq<Record>): (t': Table)
    requires Valid(t)
    ensures Valid(t') && |t'.entries| == |t.entries|
    decreases |records|
  {
    if records == [] then t else Run(Recorded(t, records[0]), records[1..])
  }

  function Touches(records: seq<Record>): seq<NodeId> {
    if records == [] then [] else Ids(records[0]) + Touches(records[1..])
  }

  /** Record `i` leaves its last id, `x`, looped, and no later record of the run mentions it. */
  ghost predicate LeavesLooped(records: seq<Record>, size: nat, i: nat, x: NodeId)
    requires i < |records|
  {
    LoopsAtEnd(Ids(records[i]), size) && x == Last(Ids(records[i])) && x !in Touches(records[i + 1..])
  }

  ghost predicate SomeLeavesLooped(records: seq<Record>, size: nat, x: NodeId) {
    exists i :: 0 <= i < |records| && LeavesLooped(records, size, i, x)
  }

  lemma LeavesLoopedRest(records: seq<Record>, size: nat, x: NodeId)
    requires records != []
    ensures SomeLeavesLooped(records, size, x)
            <==> LeavesLooped(records, size, 0, x) || SomeLeavesLooped(records[1..], size, x)
  {
    forall i | 0 <= i < |records| - 1
      ensures LeavesLooped(records[1..], size, i, x) <==> LeavesLooped(records, size, i + 1, x)
    {
      assert records[1..][i + 1..] == records[i + 2..];
    }
    if i :| 1 <= i < |records| && LeavesLooped(records, size, i, x) {
      assert LeavesLooped(records[1..], size, i - 1, x);
    }
    if i :| 0 <= i < |records| - 1 && LeavesLooped(records[1..], size, i, x) {
      assert LeavesLooped(records, size, i + 1, x);
    }
  }

  lemma {:induction false} HeldBeforeRun(t: Table, records: seq<Record>, x: NodeId)
    requires Valid(t) && 0 < |t.entries| && x !in Touches(records) && Holds(Run(t, records), x)
    ensures Holds(t, x)
    decreases |records|
  {
    if records != [] {
      HeldBeforeRun(Recorded(t, records[0]), records[1..], x);
      HeldBefore(t, Ids(records[0]), NULL_INDEX, x);
    }
  }

  /** Which ids are looped after a run. */
  lemma {:induction false} RunLoops(t: Table, records: seq<Record>, x: NodeId)
    requires Valid(t) && 0 < |t.entries|
    ensures Looped(Run(t, records), x)
            <==> Holds(Run(t, records), x)
                 && ((Looped(t, x) && x !in Touches(records)) || SomeLeavesLooped(records, |t.entries|, x))
    decreases |records|
  {
    if records != [] {
      var t1, rest := Recorded(t, records[0]), records[1..];
      RecordLoops(t, records[0], x);
      RunLoops(t1, rest, x);
      LeavesLoopedRest(records, |t.entries|, x);
      assert records[0 + 1..] == rest;
      if x !in Touches(rest) && Holds(Run(t, records), x) {
        HeldBeforeRun(t1, rest, x);
      }
    }
  }

  /** The ids a run touches, in order, act on a most-recently-used list like the table does. */
  function TouchedAll(ids: seq<NodeId>, touches: seq<NodeId>, capacity: nat): seq<NodeId>
    decreases |touches|
  {
    if touches == [] then ids else TouchedAll(Touched(ids, touches[0], capacity), touches[1..], capacity)
  }

  lemma {:induction false} AddAllRefinesTouches(t: Table, ids: seq<NodeId>, previous: Index)
    requires Valid(t) && 0 < |t.entries| && (previous == NULL_INDEX || previous < t.count)
    ensures RecentIds(AddAll(t, ids, previous)) == TouchedAll(RecentIds(t), ids, |t.entries|)
    decreases |ids|
  {
    if ids != [] {
      AddRefinesTouch(t, ids[0], previous);
      AddKeepsValid(t, ids[0], previous);
      AddAllRefinesTouches(Add(t, ids[0], previous), ids[1..], SlotFor(t, ids[0]));
    }
  }

  lemma {:induction false} TouchedAllConcat(ids: seq<NodeId>, a: seq<NodeId>, b: seq<NodeId>, capacity: nat)
    ensures TouchedAll(ids, a + b, capacity) == TouchedAll(TouchedAll(ids, a, capacity), b, capacity)
    decreases |a|
  {
    if a == [] {
      assert a + b == b;
    } else {
      assert (a + b)[0] == a[0] && (a + b)[1..] == a[1..] + b;
      TouchedAllConcat(Touched(ids, a[0], capacity), a[1..], b, capacity);
    }
  }

  /**
   Over a whole run the table holds exactly the ids a bounded most-recently-used list would hold,
   in the same order of last touch.
   */
  lemma {:induction false} RunRefinesTouches(t: Table, records: seq<Record>)
    requires Valid(t) && 0 < |t.entries|
    ensures RecentIds(Run(t, records)) == TouchedAll(RecentIds(t), Touches(records), |t.entries|)
    decreases |records|
  {
    if records != [] {
      var ids := Ids(records[0]);
      AddAllRefinesTouches(t, ids, NULL_INDEX);
      RunRefinesTouches(Recorded(t, records[0]), records[1..]);
      TouchedAllConcat(RecentIds(t), ids, Touches(records[1..]), |t.entries|);
    }
  }

  // ----- cycles after a run

  lemma {:induction false} RunKeepsOnlySelfLinks(t: Table, records: seq<Record>)
    requires Valid(t) && OnlySelfLinks(t) && 0 < |t.entries|
    ensures OnlySelfLinks(Run(t, records))
    decreases |records|
  {
    if records != [] {
      AddAllKeepsOnlySelfLinks(t, Ids(records[0]), NULL_INDEX);
      RunKeepsOnlySelfLinks(Recorded(t, records[0]), records[1..]);
    }
  }

  lemma HeldIffRecent(t: Table, x: NodeId)
    requires Valid(t)
    ensures Holds(t, x) <==> x in RecentIds(t)
  {
    FoundInOrder(t, Recency(t), x);
  }

  /**
   Over any run of records, told from the records alone: every lookup in an acyclic table still ends
   if and only if each id that some record left looped, and none after it mentioned, was evicted.
   */
  lemma RunKeepsAcyclicIff(t: Table, records: seq<Record>)
    requires Valid(t) && Acyclic(t) && 0 < |t.entries|
    ensures Acyclic(Run(t, records))
            <==> forall x :: SomeLeavesLooped(records, |t.entries|, x) ==>
                   x !in TouchedAll(RecentIds(t), Touches(records), |t.entries|)
  {
    AcyclicHasNoSelfLink(t);
    AcyclicIffNoneLooped(t);
    RunKeepsOnlySelfLinks(t, records);
    AcyclicIffNoneLooped(Run(t, records));
    RunRefinesTouches(t, records);
    forall x ensures Looped(Run(t, records), x)
                     <==> SomeLeavesLooped(records, |t.entries|, x) && x in RecentIds(Run(t, records))
    {
      RunLoops(t, records, x);
      HeldIffRecent(Run(t, records), x);
    }
  }

  /** In particular, records that never end in a loop leave every lookup terminating. */
  lemma RunKeepsAcyclic(t: Table, records: seq<Record>)
    requires Valid(t) && Acyclic(t) && 0 < |t.entries|
    requires forall r :: r in records ==> !LoopsAtEnd(Ids(r), |t.entries|)
    ensures Acyclic(Run(t, records))
  {
    RunKeepsAcyclicIff(t, records);
    assert forall i :: 0 <= i < |records| ==> records[i] in records;
  }

  /** Ids and cycles after a run from static initialisation. */
  lemma RunFromStart(size: nat, records: seq<Record>)
    requires 1 <= size <= 0xFF
    ensures Valid(Fresh(size))
    ensures var ids := TouchedAll([], Touches(records), size);
            && RecentIds(Run(Fresh(size), records)) == ids
            && (Acyclic(Run(Fresh(size), records))
                <==> forall x :: SomeLeavesLooped(records, size, x) ==> x !in ids)
  {
    FreshIsValid(size);
    RunRefinesTouches(Fresh(size), records);
    RunKeepsAcyclicIff(Fresh(size), records);
  }
}
