/**
 The source route table of a gateway: what one call does to it, as functions on
 table values. The class in SourceRouteTable.dfy updates the table in place and
 is proved against these functions.
 */
module SourceRoutes {
  import opened EmberTypes
  import opened IndexChains

  datatype Entry = Entry(destination: NodeId, closerIndex: Index, olderIndex: Index)

  /** The slots, how many of them are in use, and the most recently touched one. */
  datatype Table = Table(entries: seq<Entry>, count: nat, newest: Index)

  function Closers(entries: seq<Entry>): (links: seq<Index>) {
    seq(|entries|, i requires 0 <= i < |entries| => entries[i].closerIndex)
  }

  function Olders(entries: seq<Entry>): (links: seq<Index>) {
    seq(|entries|, i requires 0 <= i < |entries| => entries[i].olderIndex)
  }

  /** One-byte indices limit the table to 255 slots. */
  predicate Sized(t: Table) {
    t.count <= |t.entries| <= 0xFF
  }

  // ----- lookup by id

  function FindFrom(t: Table, id: NodeId, start: nat): (index: Index)
    requires Sized(t) && start <= t.count
    ensures index == NULL_INDEX ==> forall i :: start <= i < t.count ==> t.entries[i].destination != id
    ensures index != NULL_INDEX ==> start <= index < t.count && t.entries[index].destination == id
    ensures index != NULL_INDEX ==> forall i :: start <= i < index ==> t.entries[i].destination != id
    decreases t.count - start
  {
    if start == t.count then NULL_INDEX
    else if t.entries[start].destination == id then start
    else FindFrom(t, id, start + 1)
  }

  /** The slot in use that holds `id`, or the null index. */
  function FindIndex(t: Table, id: NodeId): Index
    requires Sized(t)
  {
    FindFrom(t, id, 0)
  }

  predicate Holds(t: Table, id: NodeId)
    requires Sized(t)
  {
    FindIndex(t, id) != NULL_INDEX
  }

  // ----- adding an entry

  predicate NeedsEviction(t: Table, id: NodeId)
    requires Sized(t)
  {
    FindIndex(t, id) == NULL_INDEX && t.count == |t.entries|
  }

  /** What a caller must provide: slots exist, and a needed eviction walk comes to an end. */
  ghost predicate AddReady(t: Table, id: NodeId, further: Index) {
    && Sized(t)
    && 0 < |t.entries|
    && (further == NULL_INDEX || further < |t.entries|)
    && (NeedsEviction(t, id) ==> Ends(Olders(t.entries), t.newest))
  }

  /** The slot an add for `id` uses: its own, else a fresh one, else the end of the recency chain. */
  ghost function SlotFor(t: Table, id: NodeId): (slot: Index)
    requires AddReady(t, id, NULL_INDEX)
    ensures slot < |t.entries|
  {
    var found := FindIndex(t, id);
    if found != NULL_INDEX then found
    else if t.count < |t.entries| then t.count
    else
      var walk := ChainFrom(Olders(t.entries), t.newest);
      ChainSuffix(Olders(t.entries), walk, |walk| - 1);
      Last(walk)
  }

  function CountAfter(t: Table, id: NodeId): nat
    requires Sized(t)
  {
    if FindIndex(t, id) == NULL_INDEX && t.count < |t.entries| then t.count + 1 else t.count
  }

  /** The first slot in `start..count` whose older link is `slot`, or `count`. */
  function FirstOlderLinkTo(entries: seq<Entry>, count: nat, slot: Index, start: nat): (i: nat)
    requires start <= count <= |entries|
    ensures start <= i <= count
    ensures forall k :: start <= k < i ==> entries[k].olderIndex != slot
    ensures i < count ==> entries[i].olderIndex == slot
    decreases count - start
  {
    if start == count || entries[start].olderIndex == slot then start
    else FirstOlderLinkTo(entries, count, slot, start + 1)
  }

  /** Takes `slot` out of the recency chain: whoever links to it now links past it. */
  function Unlink(entries: seq<Entry>, count: nat, slot: Index): (entries': seq<Entry>)
    requires slot < |entries| && count <= |entries|
    ensures |entries'| == |entries|
  {
    var p := FirstOlderLinkTo(entries, count, slot, 0);
    if p == count then entries
    else entries[p := entries[p].(olderIndex := entries[slot].olderIndex)]
  }

  /** Makes `slot` the newest one of the recency chain. */
  function Promote(entries: seq<Entry>, count: nat, newest: Index, slot: Index): (entries': seq<Entry>)
    requires slot < |entries| && count <= |entries|
    ensures |entries'| == |entries|
  {
    if slot == newest then entries
    else
      var unlinked := Unlink(entries, count, slot);
      unlinked[slot := unlinked[slot].(olderIndex := newest)]
  }

  /** Stores `id` at `slot` as a neighbour of the gateway and routes `further` through it. */
  function Store(entries: seq<Entry>, slot: Index, id: NodeId, further: Index): (entries': seq<Entry>)
    requires slot < |entries| && (further == NULL_INDEX || further < |entries|)
    ensures |entries'| == |entries|
  {
    var stored := entries[slot := Entry(id, NULL_INDEX, entries[slot].olderIndex)];
    if further == NULL_INDEX then stored
    else stored[further := stored[further].(closerIndex := slot)]
  }

  /** The table after `sourceRouteAddEntry`; the call returns `SlotFor(t, id)`. */
  ghost function Add(t: Table, id: NodeId, further: Index): (t': Table)
    requires AddReady(t, id, further)
    ensures |t'.entries| == |t.entries|
  {
    var slot := SlotFor(t, id);
    var count := CountAfter(t, id);
    Table(Store(Promote(t.entries, count, t.newest, slot), slot, id, further), count, slot)
  }

  /** The table after `sourceRouteAddEntryWithCloserNextHop`, when the closer node is known. */
  ghost function AddWithCloser(t: Table, newId: NodeId, closerNodeId: NodeId): (t': Table)
    requires AddReady(t, newId, NULL_INDEX) && FindIndex(t, closerNodeId) != NULL_INDEX
    ensures |t'.entries| == |t.entries|
  {
    var added := Add(t, newId, NULL_INDEX);
    var slot := SlotFor(t, newId);
    added.(entries := added.entries[slot := added.entries[slot].(closerIndex := FindIndex(t, closerNodeId))])
  }

  // ----- initial and reset tables

  function Fresh(size: nat): Table {
    Table(seq(size, _ => Entry(0, 0, 0)), 0, NULL_INDEX)
  }

  /** The table after `sourceRouteClearTable`: zeroed slots, but still the old newest index. */
  function Cleared(t: Table): Table {
    Fresh(|t.entries|).(newest := t.newest)
  }

  // ----- routes

  /** The ids of the relays on the way from a slot to the gateway, given the slots of its chain. */
  function RelaysOn(entries: seq<Entry>, path: seq<Index>): (relays: seq<NodeId>)
    requires path != [] && forall k :: 0 <= k < |path| ==> path[k] < |entries|
    ensures |relays| == |path| - 1
    ensures forall k :: 0 <= k < |relays| ==> relays[k] == entries[path[k + 1]].destination
  {
    seq<NodeId>(|path| - 1, k requires 0 <= k < |path| - 1 => entries[path[k + 1]].destination)
  }

  /** The relays recorded for `id`, the one closest to `id` first. */
  ghost function RouteTo(t: Table, id: NodeId): seq<NodeId>
    requires Sized(t) && FindIndex(t, id) != NULL_INDEX
    requires Ends(Closers(t.entries), FindIndex(t, id))
  {
    var path := ChainFrom(Closers(t.entries), FindIndex(t, id));
    ChainInTable(Closers(t.entries), path);
    RelaysOn(t.entries, path)
  }
}
