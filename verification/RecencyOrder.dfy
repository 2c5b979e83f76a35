/**
 The older links keep the slots in use in order of last touch, so that a full
 table gives up the least recently touched id. The reference definition is
 `Touched`, a list of ids that knows nothing of slots or links.
 */
module RecencyOrder {
  import opened EmberTypes
  import opened IndexChains
  import opened SourceRoutes

  /** `s` without the first occurrence of `x`. */
  function Without<T(==)>(s: seq<T>, x: T): (r: seq<T>)
    ensures x !in s ==> r == s
    ensures forall y :: y in r ==> y in s
    ensures forall y :: y in s && y != x ==> y in r
    ensures x in s ==> |r| == |s| - 1
  {
    if s == [] then []
    else if s[0] == x then s[1..]
    else [s[0]] + Without(s[1..], x)
  }

  function MoveToFront(order: seq<Index>, slot: Index): seq<Index> {
    [slot] + Without(order, slot)
  }

  /** A recency list of ids with room for `capacity` of them, after `id` was touched. */
  function Touched(ids: seq<NodeId>, id: NodeId, capacity: nat): seq<NodeId> {
    if id in ids then [id] + Without(ids, id)
    else if |ids| < capacity then [id] + ids
    else if ids == [] then [id]
    else [id] + ids[..|ids| - 1]
  }

  /** `order` lists the slots in use, newest first, and is what the older links spell out. */
  ghost predicate IsRecency(t: Table, order: seq<Index>) {
    && Sized(t)
    && |order| == t.count
    && (forall i: Index :: i in order <==> i < t.count)
    && if order == [] then t.newest == NULL_INDEX
       else order[0] == t.newest && IsChain(Olders(t.entries), order)
  }

  ghost predicate DistinctDestinations(t: Table)
    requires Sized(t)
  {
    forall i, j :: 0 <= i < j < t.count ==> t.entries[i].destination != t.entries[j].destination
  }

  /** Routes never leave the slots in use. */
  ghost predicate LinksLive(t: Table)
    requires Sized(t)
  {
    forall i :: 0 <= i < t.count ==> t.entries[i].closerIndex == NULL_INDEX || t.entries[i].closerIndex < t.count
  }

  /** The invariant of the table from static initialisation on. */
  ghost predicate Valid(t: Table) {
    && Sized(t)
    && DistinctDestinations(t)
    && LinksLive(t)
    && exists order :: IsRecency(t, order)
  }

  ghost function Recency(t: Table): (order: seq<Index>)
    requires Valid(t)
    ensures IsRecency(t, order)
  {
    var order :| IsRecency(t, order);
    order
  }

  function IdsAt(entries: seq<Entry>, order: seq<Index>): (ids: seq<NodeId>)
    requires forall x :: x in order ==> x < |entries|
    ensures |ids| == |order|
    ensures forall k :: 0 <= k < |order| ==> order[k] in order && ids[k] == entries[order[k]].destination
  {
    if order == [] then []
    else
      assert order[0] in order;
      assert forall x :: x in order[1..] ==> x in order;
      [entries[order[0]].destination] + IdsAt(entries, order[1..])
  }

  /** The ids in the table, most recently touched first. */
  ghost function RecentIds(t: Table): (ids: seq<NodeId>)
    requires Valid(t)
    ensures |ids| == t.count
  {
    IdsAt(t.entries, Recency(t))
  }

  lemma RecencyIsUnique(t: Table, order: seq<Index>)
    requires Valid(t) && IsRecency(t, order)
    ensures order == Recency(t)
  {
    if order != [] {
      ChainIsUnique(Olders(t.entries), order, Recency(t));
    }
  }

  lemma RecencyHasNoRepeats(t: Table, order: seq<Index>)
    requires IsRecency(t, order)
    ensures Distinct(order)
  {
    if order != [] {
      ChainHasNoRepeats(Olders(t.entries), order);
    }
  }

  lemma FreshIsValid(size: nat)
    requires size <= 0xFF
    ensures Valid(Fresh(size)) && RecentIds(Fresh(size)) == []
  {
    assert IsRecency(Fresh(size), []);
  }

  // ----- relinking

  /** `links'` agrees with `links`, except that every slot on `path` but `slot` skips `slot`. */
  ghost predicate Skips(links: seq<Index>, links': seq<Index>, path: seq<Index>, slot: Index) {
    && |links'| == |links|
    && slot < |links| && slot != NULL_INDEX
    && forall x: Index :: x in path && x < |links| && x != slot ==>
         links'[x] == if links[x] == slot then links[slot] else links[x]
  }

  /** The part of a chain beyond `slot` does not notice that `slot` is skipped. */
  lemma SkipBeyond(links: seq<Index>, links': seq<Index>, path: seq<Index>, slot: Index)
    requires IsChain(links, path) && path[0] == slot && |path| > 1 && Skips(links, links', path, slot)
    ensures IsChain(links', path[1..])
  {
    ChainHasNoRepeats(links, path);
    ChainInTable(links, path);
    forall x | x in path[1..] ensures x < |links| && links'[x] == links[x] {
      var k :| 1 <= k < |path| && path[k] == x;
      assert path[k] in path;
      ChainSuffix(links, path, k);
    }
    ChainFrame(links, links', path[1..]);
  }

  /** If every other slot skips `slot`, the chain without `slot` is a chain. */
  lemma {:induction false} SkipKeepsChain(links: seq<Index>, links': seq<Index>, path: seq<Index>, slot: Index)
    requires IsChain(links, path) && path[0] != slot && Skips(links, links', path, slot)
    ensures IsChain(links', Without(path, slot)) && Without(path, slot)[0] == path[0]
  {
    assert path[0] in path;
    if |path| > 1 {
      var rest := path[1..];
      assert IsChain(links, rest) && links[path[0]] == rest[0];
      assert forall x :: x in rest ==> x in path;
      assert Without(path, slot) == [path[0]] + Without(rest, slot);
      if rest[0] != slot {
        SkipKeepsChain(links, links', rest, slot);
        ChainCons(links', path[0], Without(rest, slot));
      } else if |rest| > 1 {
        SkipBeyond(links, links', rest, slot);
        ChainCons(links', path[0], rest[1..]);
      } else {
        assert Without(path, slot) == [path[0]];
      }
    }
  }

  /** Unlinking a slot makes every slot in use skip it. */
  lemma UnlinkSkips(t: Table, order: seq<Index>, count: nat, slot: Index)
    requires IsRecency(t, order) && order != [] && t.count <= count <= |t.entries|
    requires slot < count && (slot in order || slot == t.count)
    ensures forall x: Index :: x < t.count && x != slot ==>
              Olders(Unlink(t.entries, count, slot))[x]
              == if Olders(t.entries)[x] == slot then Olders(t.entries)[slot] else Olders(t.entries)[x]
  {
    var links := Olders(t.entries);
    var p := FirstOlderLinkTo(t.entries, count, slot, 0);
    forall x: Index, y: Index | x < t.count && y < t.count && links[x] == slot && links[y] == slot ensures x == y {
      assert x in order && y in order;
      var i :| 0 <= i < |order| && order[i] == x;
      var j :| 0 <= j < |order| && order[j] == y;
      ChainSuffix(links, order, i);
      ChainSuffix(links, order, j);
      RecencyHasNoRepeats(t, order);
    }
    if p < count {
      assert links[p] == slot;
    }
    forall x: Index | x < t.count && links[x] == slot ensures x == p {
      assert t.entries[x].olderIndex == slot;
      assert p <= x;
      assert links[p] == slot;
    }
  }

  /** Promoting an older slot, or the first unused one, puts it before the rest of the chain. */
  lemma PromoteOlder(t: Table, order: seq<Index>, count: nat, slot: Index)
    requires IsRecency(t, order) && order != [] && slot < count <= |t.entries| && slot != t.newest
    requires (slot in order && count == t.count) || (slot == t.count && count == t.count + 1)
    ensures IsChain(Olders(Promote(t.entries, count, t.newest, slot)), MoveToFront(order, slot))
  {
    var links, skipped := Olders(t.entries), Olders(Unlink(t.entries, count, slot));
    var links' := Olders(Promote(t.entries, count, t.newest, slot));
    var rest := Without(order, slot);
    RecencyHasNoRepeats(t, order);
    WithoutIsGone(order, slot);
    UnlinkSkips(t, order, count, slot);
    SkipKeepsChain(links, skipped, order, slot);
    ChainInTable(skipped, rest);
    assert forall x: Index :: x < |links| && x != slot ==> links'[x] == skipped[x];
    ChainFrame(skipped, links', rest);
    ChainCons(links', slot, rest);
  }

  /** Promoting a slot in use, or the first unused one, moves it to the front of the order. */
  lemma PromoteMovesToFront(t: Table, order: seq<Index>, count: nat, slot: Index)
    requires IsRecency(t, order) && slot < count <= |t.entries|
    requires (slot in order && count == t.count) || (slot == t.count && count == t.count + 1)
    ensures IsRecency(Table(Promote(t.entries, count, t.newest, slot), count, slot), MoveToFront(order, slot))
  {
    if slot == t.newest {
      assert order != [] && MoveToFront(order, slot) == order;
    } else if order == [] {
      assert Olders(Promote(t.entries, count, t.newest, slot))[slot] == NULL_INDEX;
    } else {
      PromoteOlder(t, order, count, slot);
    }
  }

  lemma {:induction false} WithoutIsGone<T>(s: seq<T>, x: T)
    requires Distinct(s)
    ensures x !in Without(s, x) && Distinct(Without(s, x))
  {
    if s != [] {
      if s[0] == x {
        assert forall k :: 0 <= k < |s[1..]| ==> s[1..][k] == s[k + 1];
      } else {
        assert Distinct(s[1..]);
        WithoutIsGone(s[1..], x);
        assert s[0] !in s[1..];
      }
    }
  }

  // ----- what one add does

  /** An add always knows where to go, moves its slot to the front and keeps the rest in order. */
  lemma AddMovesToFront(t: Table, order: seq<Index>, id: NodeId, further: Index)
    requires IsRecency(t, order) && 0 < |t.entries|
    requires further == NULL_INDEX || further < |t.entries|
    ensures AddReady(t, id, further)
    ensures NeedsEviction(t, id) ==> order != [] && SlotFor(t, id) == Last(order)
    ensures SlotFor(t, id) < CountAfter(t, id)
    ensures IsRecency(Add(t, id, further), MoveToFront(order, SlotFor(t, id)))
  {
    if t.count > 0 {
      ChainFromIs(Olders(t.entries), order);
    }
    var slot, count := SlotFor(t, id), CountAfter(t, id);
    PromoteMovesToFront(t, order, count, slot);
    var promoted := Promote(t.entries, count, t.newest, slot);
    var t' := Add(t, id, further);
    assert Olders(t'.entries) == Olders(promoted);
    assert IsRecency(Table(promoted, count, slot), MoveToFront(order, slot));
  }

  /** The entries an add leaves alone keep their id; the chosen slot gets the new one. */
  lemma AddDestinations(t: Table, id: NodeId, further: Index)
    requires AddReady(t, id, further)
    ensures forall i :: 0 <= i < |t.entries| ==>
              Add(t, id, further).entries[i].destination == if i == SlotFor(t, id) then id else t.entries[i].destination
  {
  }

  /** The entries an add leaves alone keep their closer link. */
  lemma AddClosers(t: Table, id: NodeId, further: Index)
    requires AddReady(t, id, further)
    ensures var slot := SlotFor(t, id);
            forall i :: 0 <= i < |t.entries| ==>
              Add(t, id, further).entries[i].closerIndex
              == if i == further then slot else if i == slot then NULL_INDEX else t.entries[i].closerIndex
  {
  }

  lemma AddKeepsValid(t: Table, id: NodeId, further: Index)
    requires Valid(t) && 0 < |t.entries|
    requires further == NULL_INDEX || further < t.count
    ensures AddReady(t, id, further) && Valid(Add(t, id, further))
    ensures SlotFor(t, id) < Add(t, id, further).count
    ensures Recency(Add(t, id, further)) == MoveToFront(Recency(t), SlotFor(t, id))
    ensures FindIndex(Add(t, id, further), id) == SlotFor(t, id)
  {
    var order := Recency(t);
    AddMovesToFront(t, order, id, further);
    AddDestinations(t, id, further);
    AddClosers(t, id, further);
    var t' := Add(t, id, further);
    RecencyIsUnique(t', MoveToFront(order, SlotFor(t, id)));
  }

  // ----- the recency list refines the list of ids

  lemma IdsCons(entries: seq<Entry>, slot: Index, order: seq<Index>)
    requires slot < |entries| && forall x :: x in order ==> x < |entries|
    ensures forall x :: x in [slot] + order ==> x < |entries|
    ensures IdsAt(entries, [slot] + order) == [entries[slot].destination] + IdsAt(entries, order)
  {
    assert ([slot] + order)[1..] == order;
  }

  lemma {:induction false} IdsWithout(t: Table, order: seq<Index>, slot: Index)
    requires Sized(t) && DistinctDestinations(t) && slot < t.count
    requires forall x :: x in order ==> x < t.count
    ensures IdsAt(t.entries, Without(order, slot)) == Without(IdsAt(t.entries, order), t.entries[slot].destination)
  {
    if order != [] {
      var rest, id := order[1..], t.entries[slot].destination;
      assert forall x :: x in rest ==> x in order;
      assert order[0] in order;
      if order[0] != slot {
        IdsWithout(t, rest, slot);
        assert t.entries[order[0]].destination != id;
        IdsCons(t.entries, order[0], Without(rest, slot));
      }
    }
  }

  lemma {:induction false} WithoutLast<T>(s: seq<T>)
    requires s != [] && Distinct(s)
    ensures Without(s, Last(s)) == s[..|s| - 1]
  {
    if |s| > 1 {
      assert Distinct(s[1..]);
      WithoutLast(s[1..]);
      assert s[..|s| - 1] == [s[0]] + s[1..][..|s| - 2];
    }
  }

  lemma {:induction false} IdsFrame(entries: seq<Entry>, entries': seq<Entry>, order: seq<Index>)
    requires |entries'| == |entries| && forall x :: x in order ==> x < |entries|
    requires forall x: Index :: x in order && x < |entries| ==> entries'[x].destination == entries[x].destination
    ensures IdsAt(entries', order) == IdsAt(entries, order)
  {
    if order != [] {
      assert order[0] in order && forall x :: x in order[1..] ==> x in order;
      IdsFrame(entries, entries', order[1..]);
    }
  }

  /** The ids after an add: the new one, then those of the other slots in their old order. */
  lemma IdsAfterAdd(t: Table, id: NodeId, further: Index)
    requires Valid(t) && 0 < |t.entries|
    requires further == NULL_INDEX || further < t.count
    ensures AddReady(t, id, further) && Valid(Add(t, id, further))
    ensures var rest := Without(Recency(t), SlotFor(t, id));
            RecentIds(Add(t, id, further)) == [id] + IdsAt(t.entries, rest)
  {
    AddKeepsValid(t, id, further);
    AddDestinations(t, id, further);
    var t', slot := Add(t, id, further), SlotFor(t, id);
    var rest := Without(Recency(t), slot);
    RecencyHasNoRepeats(t, Recency(t));
    WithoutIsGone(Recency(t), slot);
    IdsFrame(t.entries, t'.entries, rest);
    assert Recency(t')[1..] == rest;
  }

  lemma TouchKnown(t: Table, order: seq<Index>, slot: Index)
    requires IsRecency(t, order) && DistinctDestinations(t) && slot in order
    ensures var id := t.entries[slot].destination;
            [id] + IdsAt(t.entries, Without(order, slot)) == Touched(IdsAt(t.entries, order), id, |t.entries|)
  {
    IdsWithout(t, order, slot);
    var k :| 0 <= k < |order| && order[k] == slot;
    assert IdsAt(t.entries, order)[k] == t.entries[slot].destination;
  }

  lemma {:induction false} IdsPrefix(entries: seq<Entry>, order: seq<Index>, n: nat)
    requires n <= |order| && forall x :: x in order ==> x < |entries|
    ensures forall x :: x in order[..n] ==> x in order
    ensures IdsAt(entries, order[..n]) == IdsAt(entries, order)[..n]
  {
    assert forall k :: 0 <= k < n ==> order[..n][k] == order[k];
  }

  lemma TouchOldest(t: Table, order: seq<Index>, id: NodeId)
    requires IsRecency(t, order) && order != [] && |order| == |t.entries| && id !in IdsAt(t.entries, order)
    ensures [id] + IdsAt(t.entries, Without(order, Last(order)))
            == Touched(IdsAt(t.entries, order), id, |t.entries|)
  {
    RecencyHasNoRepeats(t, order);
    WithoutLast(order);
    IdsPrefix(t.entries, order, |order| - 1);
  }

  /** Dropping the touched slot from the order is what a touch does to the list of ids. */
  lemma OtherIds(t: Table, order: seq<Index>, id: NodeId)
    requires IsRecency(t, order) && DistinctDestinations(t) && 0 < |t.entries|
    ensures AddReady(t, id, NULL_INDEX)
    ensures [id] + IdsAt(t.entries, Without(order, SlotFor(t, id)))
            == Touched(IdsAt(t.entries, order), id, |t.entries|)
  {
    AddMovesToFront(t, order, id, NULL_INDEX);
    FoundInOrder(t, order, id);
    if FindIndex(t, id) != NULL_INDEX {
      TouchKnown(t, order, FindIndex(t, id));
    } else if t.count == |t.entries| {
      TouchOldest(t, order, id);
    } else {
      assert SlotFor(t, id) !in order;
    }
  }

  /** Each add acts on the ids in the table as a touch of a bounded most-recently-used list. */
  lemma AddRefinesTouch(t: Table, id: NodeId, further: Index)
    requires Valid(t) && 0 < |t.entries|
    requires further == NULL_INDEX || further < t.count
    ensures AddReady(t, id, further) && Valid(Add(t, id, further))
    ensures RecentIds(Add(t, id, further)) == Touched(RecentIds(t), id, |t.entries|)
  {
    IdsAfterAdd(t, id, further);
    OtherIds(t, Recency(t), id);
  }

  lemma FoundInOrder(t: Table, order: seq<Index>, id: NodeId)
    requires IsRecency(t, order)
    ensures id in IdsAt(t.entries, order) <==> FindIndex(t, id) != NULL_INDEX
  {
    if FindIndex(t, id) != NULL_INDEX {
      assert FindIndex(t, id) in order;
      var k :| 0 <= k < |order| && order[k] == FindIndex(t, id);
      assert IdsAt(t.entries, order)[k] == id;
    }
  }
}
