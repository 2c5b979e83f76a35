/**
 The source route table as the gateway keeps it: one array of entries and two
 counters, updated in place. Every method is tied to a function of the table's
 old contents.
 */
module SourceRouteTables {
  import opened EmberTypes
  import opened IndexChains
  import opened SourceRoutes

  class SourceRouteTable {
    const table: array<Entry>
    var entryCount: nat
    var newestIndex: Index

    ghost function Contents(): Table
      reads this, table
    {
      Table(table[..], entryCount, newestIndex)
    }

    ghost predicate Sound()
      reads this, table
    {
      Sized(Contents())
    }

    /** Static initialisation: zeroed entries, none in use, no newest entry. */
    constructor (size: nat)
      requires size <= 0xFF
      ensures Contents() == Fresh(size) && fresh(table)
    {
      table := new Entry[size](_ => Entry(0, 0, 0));
      entryCount, newestIndex := 0, NULL_INDEX;
      new;
      assert table[..] == Fresh(size).entries;
    }

    method FindIndex(id: NodeId) returns (index: Index)
      requires Sound()
      ensures index == SourceRoutes.FindIndex(Contents(), id)
    {
      var i := 0;
      while i < entryCount
        invariant i <= entryCount
        invariant SourceRoutes.FindIndex(Contents(), id) == FindFrom(Contents(), id, i)
      {
        if table[i].destination == id {
          return i;
        }
        i := i + 1;
      }
      return NULL_INDEX;
    }

    /** The eviction walk of AddEntry. It has no guard of its own: the chain must be known to end. */
    method FindOldest() returns (index: Index)
      requires Sound() && Ends(Olders(table[..]), newestIndex)
      ensures index == Last(ChainFrom(Olders(table[..]), newestIndex)) && index < table.Length
    {
      ghost var links := Olders(table[..]);
      ghost var walk := ChainFrom(links, newestIndex);
      ghost var k := 0;
      index := newestIndex;
      while table[index].olderIndex != NULL_INDEX
        invariant k < |walk| && index == walk[k] && index < table.Length
        decreases |walk| - k
      {
        ChainSuffix(links, walk, k);
        assert links[index] == table[index].olderIndex;
        index := table[index].olderIndex;
        k := k + 1;
        ChainSuffix(links, walk, k);
      }
      ChainSuffix(links, walk, k);
      assert links[index] == NULL_INDEX;
      if k + 1 < |walk| {
        ChainSuffix(links, walk, k + 1);
      }
    }

    /** First stage of AddEntry: the slot the id gets. */
    method ChooseSlot(id: NodeId) returns (index: Index)
      requires AddReady(Contents(), id, NULL_INDEX)
      modifies this`entryCount
      ensures index == SlotFor(old(Contents()), id)
      ensures Contents() == old(Contents()).(count := CountAfter(old(Contents()), id))
    {
      index := FindIndex(id);
      if index == NULL_INDEX {
        if entryCount < table.Length {
          index := entryCount;
          entryCount := entryCount + 1;
        } else {
          index := FindOldest();
        }
      }
    }

    /** Second stage of AddEntry: the slot becomes the newest one. */
    method PromoteSlot(index: Index)
      requires Sound() && index < table.Length
      modifies this`newestIndex, table
      ensures Contents() == Table(Promote(old(table[..]), entryCount, old(newestIndex), index), entryCount, index)
    {
      ghost var entries := table[..];
      if index != newestIndex {
        var i := 0;
        while i < entryCount
          invariant i <= entryCount && table[..] == entries
          invariant FirstOlderLinkTo(entries, entryCount, index, 0) == FirstOlderLinkTo(entries, entryCount, index, i)
        {
          if table[i].olderIndex == index {
            table[i] := table[i].(olderIndex := table[index].olderIndex);
            break;
          }
          i := i + 1;
        }
        assert table[..] == Unlink(entries, entryCount, index);
        table[index] := table[index].(olderIndex := newestIndex);
        newestIndex := index;
      }
    }

    /** Last stage of AddEntry: the id is stored and the further entry relinked. */
    method StoreEntry(index: Index, id: NodeId, furtherIndex: Index)
      requires index < table.Length && (furtherIndex == NULL_INDEX || furtherIndex < table.Length)
      modifies table
      ensures table[..] == Store(old(table[..]), index, id, furtherIndex)
    {
      table[index] := table[index].(destination := id);
      table[index] := table[index].(closerIndex := NULL_INDEX);
      if furtherIndex != NULL_INDEX {
        table[furtherIndex] := table[furtherIndex].(closerIndex := index);
      }
    }

    method AddEntry(id: NodeId, furtherIndex: Index) returns (index: Index)
      requires AddReady(Contents(), id, furtherIndex)
      modifies this, table
      ensures index == SlotFor(old(Contents()), id)
      ensures Contents() == Add(old(Contents()), id, furtherIndex)
    {
      index := ChooseSlot(id);
      PromoteSlot(index);
      StoreEntry(index, id, furtherIndex);
    }

    method AddEntryWithCloserNextHop(newId: NodeId, closerNodeId: NodeId) returns (index: Index)
      requires Sound()
      requires SourceRoutes.FindIndex(Contents(), closerNodeId) != NULL_INDEX ==>
                 AddReady(Contents(), newId, NULL_INDEX)
      modifies this, table
      ensures SourceRoutes.FindIndex(old(Contents()), closerNodeId) == NULL_INDEX ==>
                index == NULL_INDEX && Contents() == old(Contents())
      ensures SourceRoutes.FindIndex(old(Contents()), closerNodeId) != NULL_INDEX ==>
                index == SlotFor(old(Contents()), newId)
                && Contents() == AddWithCloser(old(Contents()), newId, closerNodeId)
    {
      var closerIndex := FindIndex(closerNodeId);
      if closerIndex != NULL_INDEX {
        index := AddEntry(newId, NULL_INDEX);
        if index != NULL_INDEX {
          table[index] := table[index].(closerIndex := closerIndex);
        }
        return index;
      }
      return NULL_INDEX;
    }

    /** Forgets every entry and zeroes the slots. `newestIndex` keeps its value. */
    method ClearTable()
      modifies this, table
      ensures Contents() == Cleared(old(Contents()))
    {
      entryCount := 0;
      forall i | 0 <= i < table.Length {
        table[i] := Entry(0, 0, 0);
      }
      assert table[..] == Cleared(old(Contents())).entries;
    }

    /** Forgets how many entries are in use, and nothing else. */
    method Init()
      modifies this
      ensures Contents() == old(Contents()).(count := 0)
    {
      entryCount := 0;
    }
  }
}
