/**
 The closer links as a forest of routes towards the gateway: what one add does to
 every route, when a table is free of cycles, and why a route never repeats a node.
 */
module RouteForest {
  import opened EmberTypes
  import opened IndexChains
  import opened SourceRoutes
  import opened RecencyOrder

  /** Every route in the table reaches the gateway. */
  ghost predicate Acyclic(t: Table)
    requires Sized(t)
  {
    AllEnd(Closers(t.entries), t.count)
  }

  // ----- one add, seen from every route

  /**
   After an add, the walk from any slot follows its old route until it meets the slot just
   stored, where it ends, or the entry one hop further, from where it goes on to the stored slot.
   */
  lemma AddReroutes(t: Table, id: NodeId, further: Index, path: seq<Index>)
    requires AddReady(t, id, further) && further != SlotFor(t, id)
    requires IsChain(Closers(t.entries), path)
    ensures IsChain(Closers(Add(t, id, further).entries), Reroute(path, SlotFor(t, id), further))
    ensures Reroute(path, SlotFor(t, id), further)[0] == path[0]
    ensures SlotFor(t, id) !in path && further !in path ==> Reroute(path, SlotFor(t, id), further) == path
  {
    var slot := SlotFor(t, id);
    AddClosers(t, id, further);
    RerouteIsChain(Closers(t.entries), Closers(Add(t, id, further).entries), path, slot, further);
    if slot !in path && further !in path {
      RerouteElsewhere(path, slot, further);
    }
  }

  /** An add that goes into the further entry itself loops it: only routes that avoid it still end. */
  lemma AddIntoFurther(t: Table, id: NodeId, further: Index, path: seq<Index>)
    requires AddReady(t, id, further) && further == SlotFor(t, id)
    requires IsChain(Closers(t.entries), path)
    ensures Ends(Closers(Add(t, id, further).entries), path[0]) <==> further !in path
    ensures further !in path ==> IsChain(Closers(Add(t, id, further).entries), path)
  {
    AddClosers(t, id, further);
    var links, links' := Closers(t.entries), Closers(Add(t, id, further).entries);
    ChainInTable(links, path);
    if further !in path {
      assert forall x :: x in path ==> x < |links| && links'[x] == links[x];
      ChainFrame(links, links', path);
    } else if Ends(links', path[0]) {
      var path' := ChainFrom(links', path[0]);
      StillMeets(links, links', path, path', further);
      var k :| 0 <= k < |path'| && path'[k] == further;
      ChainSuffix(links', path', k);
      SelfLinkNeverEnds(links', further);
    }
  }

  // ----- cycles

  /** The links with every self-link cut. */
  function CutSelfLinks(links: seq<Index>): (cut: seq<Index>) {
    seq<Index>(|links|, i requires 0 <= i < |links| => if links[i] == i then NULL_INDEX else links[i])
  }

  ghost function SelfLinked(t: Table): set<Index>
    requires Sized(t)
  {
    set i: Index | i < t.count && t.entries[i].closerIndex == i
  }

  /** No cycle but slots linked to themselves. */
  ghost predicate OnlySelfLinks(t: Table)
    requires Sized(t)
  {
    AllEnd(CutSelfLinks(Closers(t.entries)), t.count)
  }

  /** A table whose only cycles are self-links is acyclic exactly if no slot in use links to itself. */
  lemma AcyclicIffNoSelfLink(t: Table)
    requires Valid(t) && OnlySelfLinks(t)
    ensures Acyclic(t) <==> SelfLinked(t) == {}
  {
    var links := Closers(t.entries);
    if i: Index :| i in SelfLinked(t) {
      SelfLinkNeverEnds(links, i);
      assert !Acyclic(t);
    } else {
      assert SelfLinked(t) == {};
      forall k: Index | k < t.count ensures CutSelfLinks(links)[k] == links[k] {
        assert k !in SelfLinked(t);
      }
      forall i: Index | i < t.count ensures Ends(links, i) {
        var path := ChainFrom(CutSelfLinks(links), i);
        ChainStaysBelow(CutSelfLinks(links), path, t.count);
        ChainFrame(CutSelfLinks(links), links, path);
      }
    }
  }

  lemma AcyclicHasNoSelfLink(t: Table)
    requires Valid(t) && Acyclic(t)
    ensures OnlySelfLinks(t) && SelfLinked(t) == {}
  {
    var links := Closers(t.entries);
    forall i: Index | i < t.count ensures links[i] != i && Ends(CutSelfLinks(links), i) {
      if links[i] == i {
        SelfLinkNeverEnds(links, i);
      }
      var path := ChainFrom(links, i);
      ChainHasNoRepeats(links, path);
      ChainInTable(links, path);
      forall x | x in path ensures x < |links| && CutSelfLinks(links)[x] == links[x] {
        var k :| 0 <= k < |path| && path[k] == x;
        ChainSuffix(links, path, k);
      }
      ChainFrame(links, CutSelfLinks(links), path);
    }
    forall i: Index | i < t.count ensures i !in SelfLinked(t) {
      assert links[i] != i;
    }
  }

  /** Which slots link to themselves after an add. */
  lemma AddSelfLinked(t: Table, id: NodeId, further: Index)
    requires Valid(t) && AddReady(t, id, further) && (further == NULL_INDEX || further < t.count)
    ensures SelfLinked(Add(t, id, further))
            == if further == SlotFor(t, id) then SelfLinked(t) + {further}
               else SelfLinked(t) - {SlotFor(t, id), further}
  {
    AddMovesToFront(t, Recency(t), id, further);
    AddClosers(t, id, further);
    var t', slot := Add(t, id, further), SlotFor(t, id);
    forall i: Index | i < t'.count
      ensures i in SelfLinked(t')
              <==> i in if further == slot then SelfLinked(t) + {further} else SelfLinked(t) - {slot, further}
    {
    }
  }

  /** Self-links are the only cycles adds can make. */
  lemma AddKeepsOnlySelfLinks(t: Table, id: NodeId, further: Index)
    requires Valid(t) && OnlySelfLinks(t) && 0 < |t.entries|
    requires further == NULL_INDEX || further < t.count
    ensures AddReady(t, id, further) && Valid(Add(t, id, further))
    ensures OnlySelfLinks(Add(t, id, further))
  {
    AddKeepsValid(t, id, further);
    AddClosers(t, id, further);
    var t', slot := Add(t, id, further), SlotFor(t, id);
    var cut, cut' := CutSelfLinks(Closers(t.entries)), CutSelfLinks(Closers(t'.entries));
    var from := if further == slot then NULL_INDEX else further;
    assert cut'[slot] == NULL_INDEX;
    forall i: Index | i < t'.count ensures Ends(cut', i) {
      if i < t.count {
        RerouteIsChain(cut, cut', ChainFrom(cut, i), slot, from);
      } else {
        assert i == slot && IsChain(cut', [i]);
      }
    }
  }

  /**
   An add keeps an acyclic table acyclic exactly if there is no entry one hop further, or it is
   another slot than the one stored.
   */
  lemma AddKeepsAcyclicIff(t: Table, id: NodeId, further: Index)
    requires Valid(t) && Acyclic(t) && 0 < |t.entries|
    requires further == NULL_INDEX || further < t.count
    ensures AddReady(t, id, further) && Valid(Add(t, id, further))
    ensures Acyclic(Add(t, id, further)) <==> further == NULL_INDEX || further != SlotFor(t, id)
  {
    AcyclicHasNoSelfLink(t);
    AddKeepsOnlySelfLinks(t, id, further);
    AddSelfLinked(t, id, further);
    AcyclicIffNoSelfLink(Add(t, id, further));
    if further == SlotFor(t, id) {
      assert further in SelfLinked(Add(t, id, further));
    }
  }

  // ----- adding an entry in front of a known next hop

  /** The call changes an added table only in the closer link of the new entry. */
  lemma AddWithCloserOnlyLinks(t: Table, newId: NodeId, closerId: NodeId)
    requires AddReady(t, newId, NULL_INDEX) && FindIndex(t, closerId) != NULL_INDEX
    ensures var added, t' := Add(t, newId, NULL_INDEX), AddWithCloser(t, newId, closerId);
            && Olders(t'.entries) == Olders(added.entries)
            && (forall i :: 0 <= i < |t.entries| ==> t'.entries[i].destination == added.entries[i].destination)
            && (forall i :: 0 <= i < |t.entries| && i != SlotFor(t, newId) ==>
                  t'.entries[i].closerIndex == added.entries[i].closerIndex)
  {
  }

  /** The closer links after the call: the new entry's leads to the next hop's own slot, the others stay. */
  lemma AddWithCloserLinks(t: Table, newId: NodeId, closerId: NodeId)
    requires AddReady(t, newId, NULL_INDEX) && FindIndex(t, closerId) != NULL_INDEX
    ensures var links, links' := Closers(t.entries), Closers(AddWithCloser(t, newId, closerId).entries);
            && links'[SlotFor(t, newId)] == FindIndex(t, closerId)
            && (forall x: Index :: x < |links| && x != SlotFor(t, newId) ==> links'[x] == links[x])
  {
    AddClosers(t, newId, NULL_INDEX);
    AddWithCloserOnlyLinks(t, newId, closerId);
  }

  /**
   After the call, the walk from any slot is as before if it avoids the filled slot. Otherwise it
   goes on from there along the next hop's own route, or for ever if that route meets the slot too.
   */
  lemma AddWithCloserReroutes(t: Table, newId: NodeId, closerId: NodeId, path: seq<Index>)
    requires AddReady(t, newId, NULL_INDEX) && FindIndex(t, closerId) != NULL_INDEX
    requires Ends(Closers(t.entries), FindIndex(t, closerId)) && IsChain(Closers(t.entries), path)
    ensures var slot, known := SlotFor(t, newId), ChainFrom(Closers(t.entries), FindIndex(t, closerId));
            var links' := Closers(AddWithCloser(t, newId, closerId).entries);
            && (slot !in path ==> IsChain(links', path))
            && (slot !in known ==> forall k :: 0 <= k < |path| && path[k] == slot ==>
                  IsChain(links', path[..k + 1] + known))
            && (slot in known ==> (Ends(links', path[0]) <==> slot !in path))
  {
    var slot, known := SlotFor(t, newId), ChainFrom(Closers(t.entries), FindIndex(t, closerId));
    var links, links' := Closers(t.entries), Closers(AddWithCloser(t, newId, closerId).entries);
    AddWithCloserLinks(t, newId, closerId);
    ChainInTable(links, path);
    ChainInTable(links, known);
    ChainHasNoRepeats(links, path);
    if slot !in path {
      ChainFrame(links, links', path);
    }
    if slot !in known {
      ChainFrame(links, links', known);
      forall k | 0 <= k < |path| && path[k] == slot ensures IsChain(links', path[..k + 1] + known) {
        RelinkDiverts(links, links', path, k, known);
      }
    } else if slot in path {
      RelinkedRing(links, links', path, known, slot);
    }
  }

  /** The call keeps the table valid: it is an add followed by one more link between slots in use. */
  lemma AddWithCloserKeepsValid(t: Table, newId: NodeId, closerId: NodeId)
    requires Valid(t) && FindIndex(t, closerId) != NULL_INDEX
    ensures AddReady(t, newId, NULL_INDEX) && Valid(Add(t, newId, NULL_INDEX))
    ensures Valid(AddWithCloser(t, newId, closerId))
    ensures Recency(AddWithCloser(t, newId, closerId)) == Recency(Add(t, newId, NULL_INDEX))
  {
    AddKeepsValid(t, newId, NULL_INDEX);
    AddWithCloserOnlyLinks(t, newId, closerId);
    var added, t' := Add(t, newId, NULL_INDEX), AddWithCloser(t, newId, closerId);
    assert IsRecency(t', Recency(added));
    RecencyIsUnique(t', Recency(added));
  }

  lemma SameIds(t: Table, t': Table)
    requires Valid(t) && Valid(t') && Recency(t) == Recency(t') && |t'.entries| == |t.entries|
    requires forall i :: 0 <= i < |t.entries| ==> t'.entries[i].destination == t.entries[i].destination
    ensures RecentIds(t) == RecentIds(t')
  {
    IdsFrame(t.entries, t'.entries, Recency(t));
  }

  /** To the recency list the call is a touch of the new id, and nothing if the next hop is unknown. */
  lemma AddWithCloserRefinesTouch(t: Table, newId: NodeId, closerId: NodeId)
    requires Valid(t) && FindIndex(t, closerId) != NULL_INDEX
    ensures AddReady(t, newId, NULL_INDEX) && Valid(AddWithCloser(t, newId, closerId))
    ensures RecentIds(AddWithCloser(t, newId, closerId)) == Touched(RecentIds(t), newId, |t.entries|)
  {
    AddWithCloserKeepsValid(t, newId, closerId);
    AddWithCloserOnlyLinks(t, newId, closerId);
    SameIds(Add(t, newId, NULL_INDEX), AddWithCloser(t, newId, closerId));
    AddRefinesTouch(t, newId, NULL_INDEX);
  }

  /**
   Adding an entry in front of a known next hop keeps an acyclic table acyclic exactly if the
   slot it fills is not on the next hop's own route to the gateway.
   */
  lemma AddWithCloserKeepsAcyclicIff(t: Table, newId: NodeId, closerId: NodeId)
    requires Valid(t) && Acyclic(t) && FindIndex(t, closerId) != NULL_INDEX
    ensures AddReady(t, newId, NULL_INDEX) && Valid(AddWithCloser(t, newId, closerId))
    ensures Ends(Closers(t.entries), FindIndex(t, closerId))
    ensures Acyclic(AddWithCloser(t, newId, closerId))
            <==> SlotFor(t, newId) !in ChainFrom(Closers(t.entries), FindIndex(t, closerId))
  {
    var closer, slot := FindIndex(t, closerId), SlotForAny(t, newId);
    AddWithCloserKeepsValid(t, newId, closerId);
    AddKeepsAcyclicIff(t, newId, NULL_INDEX);
    AddMovesToFront(t, Recency(t), newId, NULL_INDEX);
    var added, t' := Add(t, newId, NULL_INDEX), AddWithCloser(t, newId, closerId);
    var links, links' := Closers(added.entries), Closers(t'.entries);
    var known := ChainFrom(Closers(t.entries), closer);
    var tail := Reroute(known, slot, NULL_INDEX);
    AddReroutes(t, newId, NULL_INDEX, known);
    ChainInTable(Closers(t.entries), known);
    RerouteMembers(known, slot);
    if slot !in known {
      forall i: Index | i < t'.count ensures Ends(links', i) {
        RelinkExtends(links, links', ChainFrom(links, i), tail, slot);
      }
    } else if Ends(links', slot) {
      var path := ChainFrom(links', slot);
      ChainHasNoRepeats(links', path);
      StillMeets(links, links', tail, path[1..], slot);
    }
  }

  /** In particular, a node that is in the table and put in front of itself makes a cycle. */
  lemma AddWithItselfAsCloser(t: Table, id: NodeId)
    requires Valid(t) && Acyclic(t) && Holds(t, id)
    ensures AddReady(t, id, NULL_INDEX) && Valid(AddWithCloser(t, id, id))
    ensures !Acyclic(AddWithCloser(t, id, id))
  {
    AddWithCloserKeepsAcyclicIff(t, id, id);
  }

  /** The slot an add fills, for a table on which every add is ready. */
  ghost function SlotForAny(t: Table, id: NodeId): Index
    requires Valid(t) && 0 < |t.entries|
  {
    AddMovesToFront(t, Recency(t), id, NULL_INDEX);
    SlotFor(t, id)
  }

  // ----- routes are loop-free

  /** A route lists pairwise distinct relays, none of them its destination, and fits the table. */
  lemma RouteIsLoopFree(t: Table, id: NodeId)
    requires Valid(t) && FindIndex(t, id) != NULL_INDEX && Ends(Closers(t.entries), FindIndex(t, id))
    ensures Distinct(RouteTo(t, id)) && id !in RouteTo(t, id)
    ensures |RouteTo(t, id)| <= t.count - 1
  {
    var links := Closers(t.entries);
    var path := ChainFrom(links, FindIndex(t, id));
    ChainInTable(links, path);
    ChainStaysBelow(links, path, t.count);
    ChainHasNoRepeats(links, path);
    forall i, j | 0 <= i < j < |path| ensures t.entries[path[i]].destination != t.entries[path[j]].destination {
      assert path[i] in path && path[j] in path && path[i] != path[j];
    }
  }
}
