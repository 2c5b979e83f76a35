/**
 The sink's view of the sensors it serves: the first entries of the stack's address
 table, and for each of them a count of the quarter seconds since its sensor was heard.
 */
module SinkTable {
  import opened EmberTypes

  const SINK_ADDRESS_TABLE_SIZE := 15
  const TRUST_CENTER_CACHE_SIZE := 5
  const ADDRESS_TABLE_SIZE := SINK_ADDRESS_TABLE_SIZE + TRUST_CENTER_CACHE_SIZE
  const NULL_ADDRESS_TABLE_INDEX := 0xFF

  /** MISS_PACKET_TOLERANCE * SEND_DATA_RATE, in quarter seconds. */
  const LAST_LIVE_TICK := 3 * 80

  /** The counter value of an entry that is not being timed. */
  const NOT_TIMED := 0xFFFF

  type Ticks = t: int | 0 <= t <= 0xFFFF

  datatype AddressEntry = AddressEntry(eui: Eui64, nodeId: NodeId) {
    predicate InUse() {
      nodeId != UNUSED_NODE_ID
    }
  }

  datatype Sink = Sink(addresses: seq<AddressEntry>, ticks: seq<Ticks>)

  predicate Shaped(s: Sink) {
    |s.addresses| == ADDRESS_TABLE_SIZE && |s.ticks| == SINK_ADDRESS_TABLE_SIZE
  }

  // ----- searches

  /** The first entry in use from `start` on that is for `eui`. */
  function FindEui(s: Sink, eui: Eui64, start: nat): (index: nat)
    requires Shaped(s) && start <= SINK_ADDRESS_TABLE_SIZE
    ensures index == NULL_ADDRESS_TABLE_INDEX || start <= index < SINK_ADDRESS_TABLE_SIZE
    ensures index == NULL_ADDRESS_TABLE_INDEX ==>
              forall i :: start <= i < SINK_ADDRESS_TABLE_SIZE ==> s.addresses[i].InUse() ==> s.addresses[i].eui != eui
    ensures index != NULL_ADDRESS_TABLE_INDEX ==> s.addresses[index].InUse() && s.addresses[index].eui == eui
    decreases |s.ticks| - start
  {
    if start == SINK_ADDRESS_TABLE_SIZE then NULL_ADDRESS_TABLE_INDEX
    else if s.addresses[start].InUse() && s.addresses[start].eui == eui then start
    else FindEui(s, eui, start + 1)
  }

  /** The first entry from `start` on that is not in use. */
  function FindFree(s: Sink, start: nat): (index: nat)
    requires Shaped(s) && start <= SINK_ADDRESS_TABLE_SIZE
    ensures index == NULL_ADDRESS_TABLE_INDEX || start <= index < SINK_ADDRESS_TABLE_SIZE
    ensures index == NULL_ADDRESS_TABLE_INDEX ==>
              forall i :: start <= i < SINK_ADDRESS_TABLE_SIZE ==> s.addresses[i].InUse()
    ensures index != NULL_ADDRESS_TABLE_INDEX ==>
              !s.addresses[index].InUse() && forall i :: start <= i < index ==> s.addresses[i].InUse()
    decreases |s.ticks| - start
  {
    if start == SINK_ADDRESS_TABLE_SIZE then NULL_ADDRESS_TABLE_INDEX
    else if !s.addresses[start].InUse() then start
    else FindFree(s, start + 1)
  }

  // ----- what the sink does

  /** What the stack reports while a SELECT is handled: both calls of the handler can fail. */
  datatype Resources = Resources(euiSet: bool, buffer: bool)

  /** The entry at `index` was heard. */
  function Restart(s: Sink, index: nat): Sink
    requires Shaped(s) && index < SINK_ADDRESS_TABLE_SIZE
  {
    s.(ticks := s.ticks[index := 0])
  }

  /** The entry at `index` got (or kept) its sensor and the reply is due; without a buffer it is given up. */
  function Answer(s: Sink, index: nat, buffer: bool): Sink
    requires Shaped(s) && index < SINK_ADDRESS_TABLE_SIZE
  {
    var timed := Restart(s, index);
    if buffer then timed
    else timed.(addresses := timed.addresses[index := timed.addresses[index].(nodeId := UNUSED_NODE_ID)])
  }

  /** The sink after a SELECT. */
  function Select(s: Sink, eui: Eui64, sender: NodeId, r: Resources): Sink
    requires Shaped(s)
  {
    var known := FindEui(s, eui, 0);
    if known != NULL_ADDRESS_TABLE_INDEX then Answer(s, known, r.buffer)
    else
      var free := FindFree(s, 0);
      if free == NULL_ADDRESS_TABLE_INDEX || !r.euiSet then s
      else Answer(s.(addresses := s.addresses[free := AddressEntry(eui, sender)]), free, r.buffer)
  }

  /** Whether a SELECT is answered by a READY. */
  predicate Replies(s: Sink, eui: Eui64, r: Resources)
    requires Shaped(s)
  {
    r.buffer && (FindEui(s, eui, 0) != NULL_ADDRESS_TABLE_INDEX
                 || (FindFree(s, 0) != NULL_ADDRESS_TABLE_INDEX && r.euiSet))
  }

  /** The sink after a DATA message. */
  function Data(s: Sink, eui: Eui64): Sink
    requires Shaped(s)
  {
    var known := FindEui(s, eui, 0);
    if known == NULL_ADDRESS_TABLE_INDEX then s else Restart(s, known)
  }

  /** One tick takes an entry out of use when its counter passes the limit. */
  predicate Expires(t: Ticks) {
    t != NOT_TIMED && t + 1 > LAST_LIVE_TICK
  }

  function AgedTicks(t: Ticks): Ticks {
    if t == NOT_TIMED || Expires(t) then NOT_TIMED else t + 1
  }

  function AgedEntry(a: AddressEntry, t: Ticks): AddressEntry {
    if Expires(t) then a.(nodeId := UNUSED_NODE_ID) else a
  }

  /** The sink after a serviced tick: every entry is aged. */
  function Tick(s: Sink): (s': Sink)
    requires Shaped(s)
    ensures Shaped(s')
    ensures forall i :: SINK_ADDRESS_TABLE_SIZE <= i < ADDRESS_TABLE_SIZE ==> s'.addresses[i] == s.addresses[i]
  {
    Sink(
      seq(ADDRESS_TABLE_SIZE, i requires 0 <= i < ADDRESS_TABLE_SIZE =>
        if i < SINK_ADDRESS_TABLE_SIZE then AgedEntry(s.addresses[i], s.ticks[i]) else s.addresses[i]),
      seq<Ticks>(SINK_ADDRESS_TABLE_SIZE, i requires 0 <= i < SINK_ADDRESS_TABLE_SIZE => AgedTicks(s.ticks[i])))
  }

  /** The sink at start-up: no entry in use, no entry timed. */
  predicate Initial(s: Sink) {
    && Shaped(s)
    && (forall i :: 0 <= i < SINK_ADDRESS_TABLE_SIZE ==> !s.addresses[i].InUse() && s.ticks[i] == NOT_TIMED)
  }

  // ----- the sink as a program

  class SinkNode {
    const addressTable: array<AddressEntry>
    const ticksSinceLastHeard: array<Ticks>

    ghost predicate Sound()
      reads this, addressTable, ticksSinceLastHeard
    {
      Shaped(Contents())
    }

    ghost function Contents(): Sink
      reads this, addressTable, ticksSinceLastHeard
    {
      Sink(addressTable[..], ticksSinceLastHeard[..])
    }

    /** The stack starts with an address table none of whose entries is in use. */
    constructor (addressTable: array<AddressEntry>)
      requires addressTable.Length == ADDRESS_TABLE_SIZE
      requires forall i :: 0 <= i < ADDRESS_TABLE_SIZE ==> !addressTable[i].InUse()
      ensures this.addressTable == addressTable && fresh(ticksSinceLastHeard)
      ensures Initial(Contents()) && addressTable[..] == old(addressTable[..])
    {
      this.addressTable := addressTable;
      ticksSinceLastHeard := new Ticks[SINK_ADDRESS_TABLE_SIZE](_ => 0);
      new;
      var i := 0;
      while i < SINK_ADDRESS_TABLE_SIZE
        invariant i <= SINK_ADDRESS_TABLE_SIZE
        invariant forall k :: 0 <= k < i ==> ticksSinceLastHeard[k] == NOT_TIMED
      {
        ticksSinceLastHeard[i] := NOT_TIMED;
        i := i + 1;
      }
    }

    method FindAddressTableLocation(eui: Eui64) returns (index: nat)
      requires Sound()
      ensures index == FindEui(Contents(), eui, 0)
    {
      var i := 0;
      while i < SINK_ADDRESS_TABLE_SIZE
        invariant i <= SINK_ADDRESS_TABLE_SIZE && FindEui(Contents(), eui, 0) == FindEui(Contents(), eui, i)
      {
        if addressTable[i].nodeId != UNUSED_NODE_ID {
          if addressTable[i].eui == eui {
            return i;
          }
        }
        i := i + 1;
      }
      return NULL_ADDRESS_TABLE_INDEX;
    }

    method FindFreeAddressTableLocation() returns (index: nat)
      requires Sound()
      ensures index == FindFree(Contents(), 0)
    {
      var i := 0;
      while i < SINK_ADDRESS_TABLE_SIZE
        invariant i <= SINK_ADDRESS_TABLE_SIZE && FindFree(Contents(), 0) == FindFree(Contents(), i)
      {
        if addressTable[i].nodeId == UNUSED_NODE_ID {
          return i;
        }
        i := i + 1;
      }
      return NULL_ADDRESS_TABLE_INDEX;
    }

    /** Handles a SELECT; the result tells whether a READY is sent back. */
    method HandleSensorSelectSink(eui: Eui64, sender: NodeId, r: Resources) returns (replied: bool)
      requires Sound()
      modifies addressTable, ticksSinceLastHeard
      ensures Contents() == Select(old(Contents()), eui, sender, r)
      ensures replied == Replies(old(Contents()), eui, r)
    {
      var index := FindAddressTableLocation(eui);
      if index == NULL_ADDRESS_TABLE_INDEX {
        index := FindFreeAddressTableLocation();
        if index == NULL_ADDRESS_TABLE_INDEX {
          return false;
        }
        if !r.euiSet {
          return false;
        }
        addressTable[index] := addressTable[index].(eui := eui);
        addressTable[index] := addressTable[index].(nodeId := sender);
        assert addressTable[..] == old(addressTable[..])[index := AddressEntry(eui, sender)];
      }
      AnswerSelect(index, r.buffer);
      return r.buffer;
    }

    /** The end of the handler: the entry is heard and, without a buffer for the reply, given up. */
    method AnswerSelect(index: nat, buffer: bool)
      requires Sound() && index < SINK_ADDRESS_TABLE_SIZE
      modifies addressTable, ticksSinceLastHeard
      ensures Contents() == Answer(old(Contents()), index, buffer)
    {
      ticksSinceLastHeard[index] := 0;
      if !buffer {
        addressTable[index] := addressTable[index].(nodeId := UNUSED_NODE_ID);
      }
    }

    method HandleData(eui: Eui64)
      requires Sound()
      modifies ticksSinceLastHeard
      ensures Contents() == Data(old(Contents()), eui)
    {
      var index := FindAddressTableLocation(eui);
      if index != NULL_ADDRESS_TABLE_INDEX {
        ticksSinceLastHeard[index] := 0;
      }
    }

    /** The part of a serviced tick that invalidates silent entries. */
    method AgeEntries()
      requires Sound()
      modifies addressTable, ticksSinceLastHeard
      ensures Contents() == Tick(old(Contents()))
    {
      ghost var aged := Tick(Contents());
      var i := 0;
      while i < SINK_ADDRESS_TABLE_SIZE
        invariant i <= SINK_ADDRESS_TABLE_SIZE
        invariant forall k :: 0 <= k < i ==> addressTable[k] == aged.addresses[k]
        invariant forall k :: 0 <= k < i ==> ticksSinceLastHeard[k] == aged.ticks[k]
        invariant forall k :: i <= k < ADDRESS_TABLE_SIZE ==> addressTable[k] == old(addressTable[k])
        invariant forall k :: i <= k < SINK_ADDRESS_TABLE_SIZE ==>
                    ticksSinceLastHeard[k] == old(ticksSinceLastHeard[k])
      {
        if ticksSinceLastHeard[i] != NOT_TIMED {
          ticksSinceLastHeard[i] := ticksSinceLastHeard[i] + 1;
          if ticksSinceLastHeard[i] > LAST_LIVE_TICK {
            addressTable[i] := addressTable[i].(nodeId := UNUSED_NODE_ID);
            ticksSinceLastHeard[i] := NOT_TIMED;
          }
        }
        i := i + 1;
      }
    }
  }
}
