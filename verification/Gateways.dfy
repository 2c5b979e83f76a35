/**
 The callbacks of the two kinds of gateway that keep a source route table: one that
 runs on the node itself and appends routes to packet headers, and one on a host that
 copies routes into a caller's array.
 */
module Gateways {
  import opened EmberTypes
  import opened IndexChains
  import opened SourceRoutes
  import opened SourceRouteTables
  import opened RecencyOrder
  import opened RouteForest
  import opened RouteRecords
  import opened RouteHeaders

  /** A chain of packet buffers. Growing it can fail; new bytes hold whatever was there before. */
  class MessageBuffer {
    var bytes: seq<Byte>

    constructor (bytes: seq<Byte>)
      ensures this.bytes == bytes
    {
      this.bytes := bytes;
    }

    method SetLength(length: Byte, available: bool, stale: seq<Byte>) returns (ok: bool)
      requires |bytes| <= length <= |bytes| + |stale|
      modifies this
      ensures ok == available
      ensures bytes == if ok then old(bytes) + stale[..length - |old(bytes)|] else old(bytes)
    {
      if available {
        bytes := bytes + stale[..length - |bytes|];
      }
      return available;
    }

    method SetByte(index: Byte, value: Byte)
      requires index < |bytes|
      modifies this
      ensures bytes == old(bytes)[index := value]
    {
      bytes := bytes[index := value];
    }

    method SetLowHigh(index: Byte, value: NodeId)
      requires index + 1 < |bytes|
      modifies this
      ensures bytes == old(bytes)[..index] + [value % 0x100, value / 0x100] + old(bytes)[index + 2..]
    {
      bytes := bytes[index := value % 0x100];
      bytes := bytes[index + 1 := value / 0x100];
    }

    method GetLowHigh(index: Byte) returns (value: NodeId)
      requires index + 1 < |bytes|
      ensures value == LowHigh(bytes, index)
    {
      return LowHigh(bytes, index);
    }
  }

  // ----- recording

  /** Adds the next id of a route record; `ids` are those of the record, `i` of which are to come before it. */
  method AddNext(table: SourceRouteTable, id: NodeId, previous: Index, ghost ids: seq<NodeId>, ghost i: nat)
    returns (index: Index)
    requires Valid(table.Contents()) && 0 < table.table.Length
    requires previous == NULL_INDEX || previous < table.entryCount
    requires i < |ids| && ids[i] == id
    modifies table, table.table
    ensures Valid(table.Contents()) && index < table.entryCount
    ensures AddAll(table.Contents(), ids[i + 1..], index) == AddAll(old(table.Contents()), ids[i..], previous)
  {
    AddKeepsValid(table.Contents(), id, previous);
    index := table.AddEntry(id, previous);
    assert ids[i..][1..] == ids[i + 1..];
  }

  method ReadRelay(header: MessageBuffer, relayListIndex: Byte, i: Byte, ghost relayCount: Byte) returns (id: NodeId)
    requires i < relayCount && relayListIndex + 2 * relayCount <= |header.bytes| <= 0xFF
    ensures id == Decode(header.bytes, relayListIndex, relayCount)[i]
  {
    var index := ToByte(relayListIndex + ToByte(i * 2));
    id := header.GetLowHigh(index);
  }

  method FetchRelay(relayList: array<Byte>, i: Byte, ghost relayCount: Byte) returns (id: NodeId)
    requires i < relayCount && 2 * relayCount <= relayList.Length
    ensures id == Decode(relayList[..], 0, relayCount)[i]
  {
    return (relayList[i * 2] as int) + 0x100 * (relayList[i * 2 + 1] as int);
  }

  /** Node-based gateway. The relay list must lie within the header. */
  method NodeIncomingRouteRecord(
    table: SourceRouteTable, source: NodeId, relayCount: Byte, header: MessageBuffer, relayListIndex: Byte)
    requires Valid(table.Contents())
    requires relayCount <= MAX_RELAY_COUNT ==> relayListIndex + 2 * relayCount <= |header.bytes| <= 0xFF
    modifies table, table.table
    ensures relayCount > MAX_RELAY_COUNT ==> table.Contents() == old(table.Contents())
    ensures relayCount <= MAX_RELAY_COUNT ==>
              table.Contents()
              == RecordedByNode(old(table.Contents()),
                                Record(source, Decode(header.bytes, relayListIndex, relayCount)))
  {
    if table.table.Length == 0 || relayCount > MAX_RELAY_COUNT {
      return;
    }
    ghost var relays := Decode(header.bytes, relayListIndex, relayCount);
    ghost var ids := [source] + relays;
    ghost var recorded := AddAll(table.Contents(), ids, NULL_INDEX);
    assert ids[0..] == ids;
    var previous: Index := AddNext(table, source, NULL_INDEX, ids, 0);
    var i := 0;
    while i < relayCount
      invariant i <= relayCount
      invariant Valid(table.Contents()) && previous < table.entryCount
      invariant AddAll(table.Contents(), ids[i + 1..], previous) == recorded
    {
      var id := ReadRelay(header, relayListIndex, i, relayCount);
      previous := AddNext(table, id, previous, ids, i + 1);
      i := i + 1;
    }
  }

  /** Host-based gateway: no limit on the number of relays. */
  method HostIncomingRouteRecord(table: SourceRouteTable, source: NodeId, relayCount: Byte, relayList: array<Byte>)
    requires Valid(table.Contents())
    requires 2 * relayCount <= relayList.Length
    modifies table, table.table
    ensures table.Contents() == Recorded(old(table.Contents()), Record(source, Decode(relayList[..], 0, relayCount)))
  {
    if table.table.Length == 0 {
      return;
    }
    ghost var bytes := relayList[..];
    ghost var relays := Decode(bytes, 0, relayCount);
    ghost var ids := [source] + relays;
    ghost var recorded := AddAll(table.Contents(), ids, NULL_INDEX);
    assert ids[0..] == ids;
    var previous: Index := AddNext(table, source, NULL_INDEX, ids, 0);
    var i := 0;
    while i < relayCount
      invariant i <= relayCount && relayList[..] == bytes
      invariant Valid(table.Contents()) && previous < table.entryCount
      invariant AddAll(table.Contents(), ids[i + 1..], previous) == recorded
    {
      var id := FetchRelay(relayList, i, relayCount);
      previous := AddNext(table, id, previous, ids, i + 1);
      i := i + 1;
    }
  }

  // ----- lookups

  /** Host-based gateway: copies the route into an array with room for the longest route. */
  method FindSourceRoute(table: SourceRouteTable, destination: NodeId, relayList: array<NodeId>)
    returns (found: bool, relayCount: Byte)
    requires Valid(table.Contents()) && LookupEnds(table.Contents(), destination)
    requires table.entryCount <= relayList.Length + 1
    modifies relayList
    ensures found <==> FindIndex(table.Contents(), destination) != NULL_INDEX
    ensures found ==> relayCount <= relayList.Length
                      && relayList[..relayCount] == RouteTo(table.Contents(), destination)
    ensures forall k :: (if found then relayCount else 0) <= k < relayList.Length ==> relayList[k] == old(relayList[k])
  {
    var index := table.FindIndex(destination);
    if index == NULL_INDEX {
      return false, 0;
    }
    ghost var links := Closers(table.table[..]);
    ghost var path := ChainFrom(links, index);
    ghost var route := RouteTo(table.Contents(), destination);
    RouteIsLoopFree(table.Contents(), destination);
    ChainInTable(links, path);
    relayCount := 0;
    while table.table[index].closerIndex != NULL_INDEX
      invariant relayCount < |path| <= table.entryCount && index == path[relayCount]
      invariant relayList[..relayCount] == route[..relayCount]
      invariant forall k :: relayCount <= k < relayList.Length ==> relayList[k] == old(relayList[k])
      decreases |path| - relayCount
    {
      ChainSuffix(links, path, relayCount);
      index := table.table[index].closerIndex;
      relayList[relayCount] := table.table[index].destination;
      relayCount := relayCount + 1;
    }
    ChainSuffix(links, path, relayCount);
    return true, relayCount;
  }

  /** The overhead of a route, counted in one byte. */
  method GetSourceRouteOverhead(table: SourceRouteTable, destination: NodeId) returns (overhead: Byte)
    requires Valid(table.Contents()) && LookupEnds(table.Contents(), destination)
    ensures overhead == Overhead(table.Contents(), destination)
  {
    overhead := 0;
    var index := table.FindIndex(destination);
    if index != NULL_INDEX {
      overhead := WalkOverhead(table, index, ChainFrom(Closers(table.table[..]), index));
    }
  }

  lemma OverheadStep(k: nat)
    ensures ToByte((2 + 2 * k) % 0x100 + 2) == (2 + 2 * (k + 1)) % 0x100
  {
  }

  method WalkOverhead(table: SourceRouteTable, foundIndex: Index, ghost path: seq<Index>) returns (overhead: Byte)
    requires table.Sound() && IsChain(Closers(table.table[..]), path) && path[0] == foundIndex
    ensures overhead == (2 + 2 * (|path| - 1)) % 0x100
  {
    ghost var links := Closers(table.table[..]);
    ChainInTable(links, path);
    overhead := 2;
    var index: Index := foundIndex;
    ghost var k := 0;
    while table.table[index].closerIndex != NULL_INDEX
      invariant k < |path| && index == path[k] && overhead == (2 + 2 * k) % 0x100
      decreases |path| - k
    {
      ChainSuffix(links, path, k);
      OverheadStep(k);
      overhead := ToByte(overhead + 2);
      index := table.table[index].closerIndex;
      k := k + 1;
    }
    ChainSuffix(links, path, k);
  }

  /** The number of relays from a slot to the gateway. */
  method CountRelays(table: SourceRouteTable, foundIndex: Index) returns (relayCount: Byte)
    requires Valid(table.Contents()) && foundIndex < table.entryCount && Ends(Closers(table.table[..]), foundIndex)
    ensures relayCount == |ChainFrom(Closers(table.table[..]), foundIndex)| - 1
  {
    ghost var links := Closers(table.table[..]);
    ghost var path := ChainFrom(links, foundIndex);
    ChainInTable(links, path);
    ChainStaysBelow(links, path, table.entryCount);
    relayCount := 0;
    var i := foundIndex;
    while table.table[i].closerIndex != NULL_INDEX
      invariant relayCount < |path| <= 0xFF && i == path[relayCount]
      decreases |path| - relayCount
    {
      ChainSuffix(links, path, relayCount);
      i := table.table[i].closerIndex;
      relayCount := relayCount + 1;
    }
    ChainSuffix(links, path, relayCount);
  }

  /** Writes the relays of the route along `path` from `at` to the end of the header. */
  method FillRelays(
    table: SourceRouteTable, foundIndex: Index, header: MessageBuffer, at: Byte, ghost path: seq<Index>)
    requires table.Sound() && IsChain(Closers(table.table[..]), path) && path[0] == foundIndex
    requires at + 2 * (|path| - 1) == |header.bytes| <= 0xFF
    modifies header
    ensures forall k :: 0 <= k < |path| ==> path[k] < table.table.Length
    ensures header.bytes == old(header.bytes)[..at] + Encode(RelaysOn(table.table[..], path))
  {
    ghost var links := Closers(table.table[..]);
    ChainInTable(links, path);
    ghost var relays := RelaysOn(table.table[..], path);
    ghost var front := header.bytes[..at];
    var i: Index, bufferIndex := foundIndex, at;
    ghost var k := 0;
    assert relays[..0] == [];
    while table.table[i].closerIndex != NULL_INDEX
      invariant k < |path| && i == path[k] && bufferIndex == at + 2 * k
      invariant |header.bytes| == at + 2 * |relays|
      invariant header.bytes[..bufferIndex] == front + Encode(relays[..k])
      decreases |path| - k
    {
      ChainSuffix(links, path, k);
      i := table.table[i].closerIndex;
      ghost var written := header.bytes[..bufferIndex];
      header.SetLowHigh(bufferIndex, table.table[i].destination);
      assert header.bytes[..bufferIndex + 2] == written + [relays[k] % 0x100, relays[k] / 0x100];
      EncodeNext(relays, k);
      bufferIndex := bufferIndex + 2;
      k := k + 1;
    }
    ChainSuffix(links, path, k);
    assert relays[..k] == relays;
    assert header.bytes[..bufferIndex] == header.bytes;
  }

  lemma EncodeNext(relays: seq<NodeId>, k: nat)
    requires k < |relays|
    ensures Encode(relays[..k + 1]) == Encode(relays[..k]) + [relays[k] % 0x100, relays[k] / 0x100]
  {
    EncodeConcat(relays[..k], [relays[k]]);
    assert relays[..k + 1] == relays[..k] + [relays[k]];
    assert Encode([relays[k]]) == [relays[k] % 0x100, relays[k] / 0x100];
  }

  /** Grows the header by a subframe for `relayCount` relays and writes its two counts. */
  method StartSubframe(header: MessageBuffer, relayCount: Byte, available: bool, stale: seq<Byte>) returns (ok: bool)
    requires |header.bytes| + 2 + 2 * relayCount <= 0xFF && 2 + 2 * relayCount <= |stale|
    modifies header
    ensures ok == available
    ensures !ok ==> header.bytes == old(header.bytes)
    ensures ok ==> |header.bytes| == old(|header.bytes|) + 2 + 2 * relayCount
    ensures ok ==> header.bytes[..old(|header.bytes|) + 2]
                   == old(header.bytes) + [relayCount, if 0 < relayCount then relayCount - 1 else 0]
  {
    var bufferIndex: Byte := |header.bytes|;
    ok := header.SetLength(bufferIndex + 2 + relayCount * 2, available, stale);
    if ok {
      header.SetByte(bufferIndex, relayCount);
      header.SetByte(bufferIndex + 1, if 0 < relayCount then relayCount - 1 else 0);
    }
  }

  /** Appends the subframe of the route along `path`. */
  method WriteSubframe(
    table: SourceRouteTable, foundIndex: Index, relayCount: Byte, header: MessageBuffer,
    available: bool, stale: seq<Byte>, ghost path: seq<Index>)
    returns (ok: bool)
    requires table.Sound() && IsChain(Closers(table.table[..]), path) && path[0] == foundIndex
    requires relayCount == |path| - 1 <= MAX_RELAY_COUNT
    requires |header.bytes| + 2 + 2 * relayCount <= 0xFF && 2 + 2 * relayCount <= |stale|
    modifies header
    ensures ok == available
    ensures !ok ==> header.bytes == old(header.bytes)
    ensures forall k :: 0 <= k < |path| ==> path[k] < table.table.Length
    ensures ok ==> header.bytes == old(header.bytes) + Subframe(RelaysOn(table.table[..], path))
  {
    ChainInTable(Closers(table.table[..]), path);
    var bufferIndex: Byte := |header.bytes|;
    ok := StartSubframe(header, relayCount, available, stale);
    if ok {
      FillRelays(table, foundIndex, header, bufferIndex + 2, path);
    }
  }

  /**
   Node-based gateway: appends the route to a header, or only reports its size if there is no
   header. `available` tells whether the stack has buffers left, `stale` what they hold.
   */
  method AppendSourceRoute(
    table: SourceRouteTable, destination: NodeId, header: MessageBuffer?, available: bool, stale: seq<Byte>)
    returns (addedBytes: Byte)
    requires Valid(table.Contents()) && LookupEnds(table.Contents(), destination)
    requires header != null ==>
               var subframe := Appended(table.Contents(), destination);
               subframe == [] || (|header.bytes| + |subframe| <= 0xFF && |subframe| <= |stale|)
    modifies header
    ensures header == null || available ==> addedBytes == |Appended(table.Contents(), destination)|
    ensures header != null && available ==> header.bytes == old(header.bytes) + Appended(table.Contents(), destination)
    ensures header != null && !available ==> addedBytes == 0 && header.bytes == old(header.bytes)
  {
    var foundIndex := table.FindIndex(destination);
    if foundIndex == NULL_INDEX {
      return 0;
    }
    ghost var path := ChainFrom(Closers(table.table[..]), foundIndex);
    var relayCount := CountRelays(table, foundIndex);
    if MAX_RELAY_COUNT < relayCount {
      return 0;
    }
    addedBytes := 2 + ToByte(relayCount * 2);
    if header != null {
      var ok := WriteSubframe(table, foundIndex, relayCount, header, available, stale, path);
      if !ok {
        return 0;
      }
    }
  }
}
