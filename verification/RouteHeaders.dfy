/**
 The source route subframe a node-based gateway appends to a packet header, and the
 relay list it reads from a route record: relay count, relay index, then the relays as
 little-endian short ids (section 3.4.1.9 of the ZigBee specification).
 */
module RouteHeaders {
  import opened EmberTypes
  import opened IndexChains
  import opened SourceRoutes
  import opened RecencyOrder
  import opened RouteForest
  import opened RouteRecords

  /** Source routes with more relays than this are neither recorded nor appended. */
  const MAX_RELAY_COUNT := 11

  // ----- bytes

  function Encode(ids: seq<NodeId>): (bytes: seq<Byte>)
    ensures |bytes| == 2 * |ids|
  {
    if ids == [] then [] else [ids[0] % 0x100, ids[0] / 0x100] + Encode(ids[1..])
  }

  function LowHigh(bytes: seq<Byte>, at: nat): NodeId
    requires at + 1 < |bytes|
  {
    (bytes[at] as int) + 0x100 * (bytes[at + 1] as int)
  }

  /** The `n` short ids stored from offset `at` on. */
  function Decode(bytes: seq<Byte>, at: nat, n: nat): (ids: seq<NodeId>)
    requires at + 2 * n <= |bytes|
    ensures |ids| == n
    ensures forall k :: 0 <= k < n ==> ids[k] == LowHigh(bytes, at + 2 * k)
  {
    seq<NodeId>(n, k requires 0 <= k < n => LowHigh(bytes, at + 2 * k))
  }

  lemma DecodeAt(bytes: seq<Byte>, at: nat, n: nat, k: nat)
    requires at + 2 * n <= |bytes| && k < n
    ensures Decode(bytes, at, n)[k] == LowHigh(bytes, at + 2 * k)
  {
  }

  /** The subframe for a list of relays. */
  function Subframe(relays: seq<NodeId>): (bytes: seq<Byte>)
    requires |relays| <= MAX_RELAY_COUNT
  {
    [|relays|, if 0 < |relays| then |relays| - 1 else 0] + Encode(relays)
  }

  lemma {:induction false} EncodeAt(ids: seq<NodeId>, k: nat)
    requires k < |ids|
    ensures LowHigh(Encode(ids), 2 * k) == ids[k]
  {
    var bytes := Encode(ids);
    if k > 0 {
      EncodeAt(ids[1..], k - 1);
      assert bytes[2 * k] == Encode(ids[1..])[2 * (k - 1)];
      assert bytes[2 * k + 1] == Encode(ids[1..])[2 * (k - 1) + 1];
    }
  }

  lemma {:induction false} EncodeConcat(a: seq<NodeId>, b: seq<NodeId>)
    ensures Encode(a + b) == Encode(a) + Encode(b)
  {
    if a == [] {
      assert a + b == b;
    } else {
      assert (a + b)[1..] == a[1..] + b;
      EncodeConcat(a[1..], b);
    }
  }

  lemma LowHighInside(before: seq<Byte>, bytes: seq<Byte>, after: seq<Byte>, at: nat)
    requires at + 1 < |bytes|
    ensures LowHigh(before + bytes + after, |before| + at) == LowHigh(bytes, at)
  {
    var whole := before + bytes + after;
    assert whole[|before| + at] == bytes[at] && whole[|before| + at + 1] == bytes[at + 1];
  }

  lemma DecodeEncodeAt(before: seq<Byte>, ids: seq<NodeId>, after: seq<Byte>, k: nat)
    requires k < |ids|
    ensures Decode(before + Encode(ids) + after, |before|, |ids|)[k] == ids[k]
  {
    var whole := before + Encode(ids) + after;
    DecodeAt(whole, |before|, |ids|, k);
    EncodeAt(ids, k);
    LowHighInside(before, Encode(ids), after, 2 * k);
  }

  /** Decoding finds the encoded ids wherever they were put. */
  lemma DecodeEncode(before: seq<Byte>, ids: seq<NodeId>, after: seq<Byte>)
    ensures Decode(before + Encode(ids) + after, |before|, |ids|) == ids
  {
    var decoded := Decode(before + Encode(ids) + after, |before|, |ids|);
    forall k | 0 <= k < |ids| ensures decoded[k] == ids[k] {
      DecodeEncodeAt(before, ids, after, k);
    }
  }

  // ----- handlers

  /** The table after a node-based gateway handled a route record. */
  ghost function RecordedByNode(t: Table, record: Record): (t': Table)
    requires Valid(t)
    ensures Valid(t') && |t'.entries| == |t.entries|
  {
    if |record.relays| > MAX_RELAY_COUNT then t else Recorded(t, record)
  }

  /** A node-based gateway ignores records with more than 11 relays, and finds the routes of shorter ones. */
  lemma RecordedByNodeIff(t: Table, record: Record)
    requires Valid(t)
    ensures |record.relays| > 11 ==> RecordedByNode(t, record) == t
    ensures |record.relays| <= 11 ==>
              (Finds(RecordedByNode(t, record), record.source, record.relays)
               <==> Distinct(Ids(record)) && |record.relays| < |t.entries|)
  {
    RecordRoundTripIff(t, record);
  }

  ghost predicate LookupEnds(t: Table, id: NodeId)
    requires Sized(t)
  {
    FindIndex(t, id) != NULL_INDEX ==> Ends(Closers(t.entries), FindIndex(t, id))
  }

  /** The bytes the append handler adds for a destination: nothing without a short enough route. */
  ghost function Appended(t: Table, id: NodeId): seq<Byte>
    requires Sized(t) && LookupEnds(t, id)
  {
    if FindIndex(t, id) == NULL_INDEX || |RouteTo(t, id)| > MAX_RELAY_COUNT then []
    else Subframe(RouteTo(t, id))
  }

  /** The one-byte overhead of the source route to `id`. */
  ghost function Overhead(t: Table, id: NodeId): Byte
    requires Sized(t) && LookupEnds(t, id)
  {
    if FindIndex(t, id) == NULL_INDEX then 0 else (2 + 2 * |RouteTo(t, id)|) % 0x100
  }

  /** Where the parts of a subframe are once it was appended to a header. */
  lemma SubframeLayout(header: seq<Byte>, relays: seq<NodeId>)
    requires |relays| <= MAX_RELAY_COUNT
    ensures var bytes, n := header + Subframe(relays), |relays|;
            && |bytes| == |header| + 2 + 2 * n
            && bytes[|header|] == n
            && bytes[|header| + 1] == (if 0 < n then n - 1 else 0)
            && Decode(bytes, |header| + 2, n) == relays
  {
    var front := header + [|relays|, if 0 < |relays| then |relays| - 1 else 0];
    assert header + Subframe(relays) == front + Encode(relays) + [];
    DecodeEncode(front, relays, []);
  }

  /** What the append handler adds: the relay count, the relay index, and the relays in order. */
  lemma AppendLayout(t: Table, id: NodeId, header: seq<Byte>)
    requires Valid(t) && LookupEnds(t, id) && Appended(t, id) != []
    ensures var bytes, n := header + Appended(t, id), |RouteTo(t, id)|;
            && |bytes| == |header| + 2 + 2 * n
            && bytes[|header|] == n <= 11
            && bytes[|header| + 1] == (if 0 < n then n - 1 else 0)
            && Decode(bytes, |header| + 2, n) == RouteTo(t, id)
  {
    SubframeLayout(header, RouteTo(t, id));
  }

  /**
   Header round trip: the relay list read back from the appended bytes, recorded in any table,
   makes that table append the same bytes again exactly if the route fits into it.
   */
  lemma AppendRoundTrip(t: Table, id: NodeId, header: seq<Byte>, t2: Table)
    requires Valid(t) && LookupEnds(t, id) && Appended(t, id) != [] && Valid(t2)
    ensures |header| + 2 + 2 * |RouteTo(t, id)| == |header + Appended(t, id)|
    ensures var relays := Decode(header + Appended(t, id), |header| + 2, |RouteTo(t, id)|);
            var t3 := RecordedByNode(t2, Record(id, relays));
            (LookupEnds(t3, id) && Finds(t3, id, RouteTo(t, id)) && Appended(t3, id) == Appended(t, id))
            <==> |RouteTo(t, id)| < |t2.entries|
  {
    var relays := RouteTo(t, id);
    AppendLayout(t, id, header);
    RouteIsLoopFree(t, id);
    assert Distinct([id] + relays);
    RecordRoundTripIff(t2, Record(id, relays));
  }

  /**
   The two size computations agree exactly for routes of at most 11 relays, and for one of 127,
   whose overhead wraps around to the 0 the append handler gives.
   */
  lemma OverheadAgreesIff(t: Table, id: NodeId)
    requires Valid(t) && LookupEnds(t, id)
    ensures Overhead(t, id) == |Appended(t, id)|
            <==> FindIndex(t, id) == NULL_INDEX || |RouteTo(t, id)| <= 11 || |RouteTo(t, id)| == 127
  {
    if FindIndex(t, id) != NULL_INDEX {
      RouteIsLoopFree(t, id);
    }
  }

  /** The overhead is the true frame size exactly for routes of at most 126 relays; 127 slots ensure that. */
  lemma OverheadIsExactIff(t: Table, id: NodeId)
    requires Valid(t) && LookupEnds(t, id) && FindIndex(t, id) != NULL_INDEX
    ensures Overhead(t, id) == 2 + 2 * |RouteTo(t, id)| <==> |RouteTo(t, id)| <= 126
    ensures |t.entries| <= 127 ==> |RouteTo(t, id)| <= 126
  {
    RouteIsLoopFree(t, id);
  }

  lemma OverheadOfFound(t: Table, id: NodeId, relays: seq<NodeId>)
    requires Valid(t) && Finds(t, id, relays)
    ensures LookupEnds(t, id) && (Overhead(t, id) == 0 <==> |relays| == 127)
  {
    RouteIsLoopFree(t, id);
  }

  /** The overhead of a route just recorded is 0 exactly if it has 127 relays; that takes 128 slots. */
  lemma OverheadWrapsToZero(t: Table, record: Record)
    requires Valid(t) && Distinct(Ids(record)) && |record.relays| + 1 <= |t.entries|
    ensures Finds(Recorded(t, record), record.source, record.relays)
    ensures Overhead(Recorded(t, record), record.source) == 0 <==> |record.relays| == 127
  {
    RecordIsFound(t, record);
    OverheadOfFound(Recorded(t, record), record.source, record.relays);
  }
}
