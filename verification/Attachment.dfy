/**
 The attachment protocol: one sink, any number of sensors of both kinds, and a network
 that may lose, duplicate and reorder what they send. Every message ever sent stays
 deliverable, so a delivery may happen never, once, or many times, in any order.
 */
module Attachment {
  import opened EmberTypes
  import opened SinkLinks
  import SinkTable
  import SinkRuns
  import SensorNode
  import SensorRuns
  import SleepySensor
  import SleepyRuns

  datatype Message =
    | AdvertiseMsg(advert: Advert)
    | SelectMsg(sender: NodeId, eui: Eui64)
    | ReadyMsg(addressee: NodeId)
    | DataMsg(sender: NodeId, eui: Eui64)
    | QueryMsg(sender: NodeId)

  datatype Node =
    | Line(eui: Eui64, line: SensorNode.Sensor)
    | Sleepy(eui: Eui64, mobile: bool, sleepy: SleepySensor.Sleepy)
  {
    predicate HasSink() {
      if Line? then line.link.found else sleepy.link.found
    }

    /** The sink this node would name, and send its own messages to. */
    function SinkAddress(): Advert {
      if Line? then line.sink else sleepy.sink
    }

    predicate Valid() {
      if Line? then SensorRuns.Valid(line) else SleepyRuns.Valid(sleepy)
    }
  }

  /** `granted` are the nodes the sink has ever answered with a READY. */
  datatype World = World(sink: SinkTable.Sink, nodes: map<NodeId, Node>, sent: set<Message>, granted: set<NodeId>)

  datatype Action =
    | SinkTicks(advertises: bool)
    | SinkGetsSelect(from: NodeId, eui: Eui64, resources: SinkTable.Resources)
    | SinkGetsData(from: NodeId, eui: Eui64)
    | SinkGetsQuery(from: NodeId, buffer: bool)
    | CacheWritten(index: nat, entry: SinkTable.AddressEntry)
    | LineGetsAdvertise(id: NodeId, advert: Advert, random: nat)
    | LineGetsReady(id: NodeId)
    | LineGetsQuery(id: NodeId, from: NodeId, buffer: bool)
    | LineReports(id: NodeId, delivered: bool)
    | LineTicks(id: NodeId, tick: SensorNode.TickInput)
    | SleepyGetsAdvertise(id: NodeId, advert: Advert, euiSet: bool, buffer: bool)
    | SleepyGetsReady(id: NodeId)
    | SleepyReports(id: NodeId, delivered: bool)
    | SleepyLosesNetwork(id: NodeId)
    | SleepyWakes(id: NodeId, wake: SleepySensor.WakeInput)

  /** A node of the right kind, and a delivered message only if it was sent. */
  predicate Enabled(w: World, a: Action) {
    match a
    case SinkTicks(_) => true
    case SinkGetsSelect(from, eui, _) => SelectMsg(from, eui) in w.sent
    case SinkGetsData(from, eui) => DataMsg(from, eui) in w.sent
    case SinkGetsQuery(from, _) => QueryMsg(from) in w.sent
    case CacheWritten(index, _) =>
      SinkTable.SINK_ADDRESS_TABLE_SIZE <= index < SinkTable.ADDRESS_TABLE_SIZE
    case LineGetsAdvertise(id, advert, _) => IsLine(w, id) && AdvertiseMsg(advert) in w.sent
    case LineGetsReady(id) => IsLine(w, id) && ReadyMsg(id) in w.sent
    case LineGetsQuery(id, from, _) => IsLine(w, id) && QueryMsg(from) in w.sent
    case LineReports(id, _) => IsLine(w, id)
    case LineTicks(id, _) => IsLine(w, id)
    case SleepyGetsAdvertise(id, advert, _, _) => IsSleepy(w, id) && AdvertiseMsg(advert) in w.sent
    case SleepyGetsReady(id) => IsSleepy(w, id) && ReadyMsg(id) in w.sent
    case SleepyReports(id, _) => IsSleepy(w, id)
    case SleepyLosesNetwork(id) => IsSleepy(w, id)
    case SleepyWakes(id, _) => IsSleepy(w, id)
  }

  predicate IsLine(w: World, id: NodeId) {
    id in w.nodes && w.nodes[id].Line?
  }

  predicate IsSleepy(w: World, id: NodeId) {
    id in w.nodes && w.nodes[id].Sleepy?
  }

  function SetLine(w: World, id: NodeId, line: SensorNode.Sensor): World
    requires IsLine(w, id)
  {
    w.(nodes := w.nodes[id := w.nodes[id].(line := line)])
  }

  function SetSleepy(w: World, id: NodeId, sleepy: SleepySensor.Sleepy): World
    requires IsSleepy(w, id)
  {
    w.(nodes := w.nodes[id := w.nodes[id].(sleepy := sleepy)])
  }

  function Send(w: World, sends: bool, m: Message): World {
    if sends then w.(sent := w.sent + {m}) else w
  }

  /** The world after an action; `self` is the sink's own address. */
  function Act(w: World, a: Action, self: Advert): World
    requires SinkTable.Shaped(w.sink) && Enabled(w, a)
  {
    match a
    case SinkTicks(advertises) =>
      Send(w.(sink := SinkTable.Tick(w.sink)), advertises, AdvertiseMsg(self))
    case SinkGetsSelect(from, eui, resources) =>
      var replies := SinkTable.Replies(w.sink, eui, resources);
      var w1 := w.(sink := SinkTable.Select(w.sink, eui, from, resources),
                   granted := if replies then w.granted + {from} else w.granted);
      Send(w1, replies, ReadyMsg(from))
    case SinkGetsData(_, eui) => w.(sink := SinkTable.Data(w.sink, eui))
    case SinkGetsQuery(_, buffer) => Send(w, buffer, AdvertiseMsg(self))
    case CacheWritten(index, entry) =>
      w.(sink := w.sink.(addresses := w.sink.addresses[index := entry]))
    case LineGetsAdvertise(id, advert, random) =>
      SetLine(w, id, SensorNode.OnAdvertise(w.nodes[id].line, advert, random))
    case LineGetsReady(id) => SetLine(w, id, SensorNode.OnReady(w.nodes[id].line))
    case LineGetsQuery(id, _, buffer) =>
      Send(w, SensorNode.AnswersQuery(w.nodes[id].line, buffer), AdvertiseMsg(w.nodes[id].line.sink))
    case LineReports(id, delivered) => SetLine(w, id, SensorNode.OnDataSent(w.nodes[id].line, delivered))
    case LineTicks(id, tick) =>
      var s := w.nodes[id].line;
      var w1 := SetLine(w, id, SensorNode.Tick(s, tick));
      var w2 := Send(w1, SensorNode.SelectsSink(s, tick), SelectMsg(id, w.nodes[id].eui));
      Send(w2, SensorNode.SendsData(s, tick), DataMsg(id, w.nodes[id].eui))
    case SleepyGetsAdvertise(id, advert, euiSet, buffer) =>
      var s := w.nodes[id].sleepy;
      var w1 := SetSleepy(w, id, SleepySensor.OnAdvertise(s, advert, euiSet, buffer));
      Send(w1, SleepySensor.TakesUp(s) && euiSet && buffer, SelectMsg(id, w.nodes[id].eui))
    case SleepyGetsReady(id) =>
      SetSleepy(w, id, SleepySensor.OnReady(w.nodes[id].sleepy, w.nodes[id].mobile))
    case SleepyReports(id, delivered) =>
      SetSleepy(w, id, SleepySensor.OnDataSent(w.nodes[id].sleepy, delivered))
    case SleepyLosesNetwork(id) => SetSleepy(w, id, SleepySensor.OnNetworkDown(w.nodes[id].sleepy))
    case SleepyWakes(id, wake) =>
      var s := w.nodes[id].sleepy;
      var w1 := SetSleepy(w, id, SleepySensor.Wake(s, wake));
      var w2 := Send(w1, SleepySensor.Queries(SleepySensor.AfterWaits(s, wake), wake), QueryMsg(id));
      Send(w2, SleepySensor.SendsData(s, wake), DataMsg(id, w.nodes[id].eui))
  }

  // ----- the invariant

  /** Nothing sent yet, no entry in use, every sensor freshly started; every node has a short id. */
  ghost predicate Start(w: World) {
    && SinkTable.Initial(w.sink)
    && w.sent == {} && w.granted == {}
    && UNUSED_NODE_ID !in w.nodes
    && (forall id :: id in w.nodes ==>
          match w.nodes[id]
          case Line(_, s) => exists zeroes :: s == SensorNode.Initial(zeroes)
          case Sleepy(_, _, s) => exists zeroes :: s == SleepySensor.Initial(zeroes))
  }

  /** Every message in flight tells the truth about its sender. */
  ghost predicate Truthful(w: World, m: Message, self: Advert) {
    match m
    case AdvertiseMsg(advert) => advert == self
    case SelectMsg(sender, eui) =>
      sender in w.nodes && w.nodes[sender].eui == eui && w.nodes[sender].SinkAddress() == self
    case ReadyMsg(addressee) =>
      addressee in w.granted && addressee in w.nodes && SelectMsg(addressee, w.nodes[addressee].eui) in w.sent
    case DataMsg(sender, eui) => sender in w.nodes && w.nodes[sender].eui == eui
    case QueryMsg(sender) => sender in w.nodes
  }

  /** A node with a sink was granted one, by the real sink; one about to answer heard of the real sink. */
  ghost predicate Faithful(w: World, id: NodeId, self: Advert)
    requires id in w.nodes
  {
    var n := w.nodes[id];
    && n.Valid()
    && (n.HasSink() ==> id in w.granted && n.SinkAddress() == self)
    && (n.Line? && n.line.waitingToRespond ==> n.line.dataBuffer == self)
    && (id in w.granted ==> SelectMsg(id, n.eui) in w.sent)
  }

  /** An entry in use stands for a node that asked for it. */
  ghost predicate Genuine(w: World, entry: SinkTable.AddressEntry) {
    && entry.nodeId in w.nodes
    && entry.eui == w.nodes[entry.nodeId].eui
    && SelectMsg(entry.nodeId, entry.eui) in w.sent
  }

  ghost predicate Inv(w: World, self: Advert) {
    && SinkRuns.Valid(w.sink)
    && UNUSED_NODE_ID !in w.nodes
    && (forall m :: m in w.sent ==> Truthful(w, m, self))
    && (forall id :: id in w.nodes ==> Faithful(w, id, self))
    && (forall i :: 0 <= i < SinkTable.SINK_ADDRESS_TABLE_SIZE ==>
          w.sink.addresses[i].InUse() ==> Genuine(w, w.sink.addresses[i]))
  }

  lemma StartInv(w: World, self: Advert)
    requires Start(w)
    ensures Inv(w, self)
  {
    SinkRuns.InitialIsValid(w.sink);
    forall id | id in w.nodes ensures Faithful(w, id, self) {
      match w.nodes[id]
      case Line(_, s) => SensorRuns.InitialIsValid(s.sink);
      case Sleepy(_, _, s) => SleepyRuns.InitialIsValid(s.sink);
    }
  }

  // ----- preservation, one kind of change at a time

  /** A node changes its state, keeping what others rely on. */
  lemma NodeChange(w: World, id: NodeId, n: Node, self: Advert)
    requires Inv(w, self) && id in w.nodes && n.eui == w.nodes[id].eui
    requires n.Valid()
    requires n.SinkAddress() == self || n.SinkAddress() == w.nodes[id].SinkAddress()
    requires n.HasSink() ==> id in w.granted
    requires n.Line? && n.line.waitingToRespond ==> n.line.dataBuffer == self
    ensures Inv(w.(nodes := w.nodes[id := n]), self)
  {
    var w' := w.(nodes := w.nodes[id := n]);
    forall m | m in w'.sent ensures Truthful(w', m, self) {
      assert Truthful(w, m, self);
    }
    forall k | k in w'.nodes ensures Faithful(w', k, self) {
      assert Faithful(w, k, self);
      if k == id && id in w.granted {
        assert Truthful(w, SelectMsg(id, n.eui), self);
      }
    }
    forall i | 0 <= i < SinkTable.SINK_ADDRESS_TABLE_SIZE && w'.sink.addresses[i].InUse()
      ensures Genuine(w', w'.sink.addresses[i])
    {
      assert Genuine(w, w.sink.addresses[i]);
    }
  }

  lemma SendKeeps(w: World, sends: bool, m: Message, self: Advert)
    requires Inv(w, self) && (sends ==> Truthful(w, m, self))
    ensures Inv(Send(w, sends, m), self)
  {
    var w' := Send(w, sends, m);
    forall k | k in w'.sent ensures Truthful(w', k, self) {
      assert Truthful(w, k, self);
    }
    forall id | id in w'.nodes ensures Faithful(w', id, self) {
      assert Faithful(w, id, self);
    }
    forall i | 0 <= i < SinkTable.SINK_ADDRESS_TABLE_SIZE && w'.sink.addresses[i].InUse()
      ensures Genuine(w', w'.sink.addresses[i])
    {
      assert Genuine(w, w.sink.addresses[i]);
    }
  }

  lemma SinkChange(w: World, sink: SinkTable.Sink, self: Advert)
    requires Inv(w, self) && SinkRuns.Valid(sink)
    requires forall i :: 0 <= i < SinkTable.SINK_ADDRESS_TABLE_SIZE ==>
               sink.addresses[i].InUse() ==> Genuine(w, sink.addresses[i])
    ensures Inv(w.(sink := sink), self)
  {
    var w' := w.(sink := sink);
    forall m | m in w'.sent ensures Truthful(w', m, self) {
      assert Truthful(w, m, self);
    }
    forall id | id in w'.nodes ensures Faithful(w', id, self) {
      assert Faithful(w, id, self);
    }
  }

  lemma SelectKeepsInv(w: World, from: NodeId, eui: Eui64, resources: SinkTable.Resources, self: Advert)
    requires Inv(w, self) && SelectMsg(from, eui) in w.sent
    ensures Inv(Act(w, SinkGetsSelect(from, eui, resources), self), self)
  {
    assert Truthful(w, SelectMsg(from, eui), self);
    var sink := SinkTable.Select(w.sink, eui, from, resources);
    SinkRuns.SelectKeepsValid(w.sink, eui, from, resources);
    forall i | 0 <= i < SinkTable.SINK_ADDRESS_TABLE_SIZE && sink.addresses[i].InUse()
      ensures Genuine(w, sink.addresses[i])
    {
      if sink.addresses[i] != SinkTable.AddressEntry(eui, from) {
        assert sink.addresses[i] == w.sink.addresses[i];
      }
    }
    SinkChange(w, sink, self);
    var w1 := w.(sink := sink);
    if SinkTable.Replies(w.sink, eui, resources) {
      var w2 := w1.(granted := w1.granted + {from});
      GrantKeepsInv(w1, from, self);
      SendKeeps(w2, true, ReadyMsg(from), self);
    }
  }

  lemma GrantKeepsInv(w: World, id: NodeId, self: Advert)
    requires Inv(w, self) && id in w.nodes && SelectMsg(id, w.nodes[id].eui) in w.sent
    ensures Inv(w.(granted := w.granted + {id}), self)
  {
    var w' := w.(granted := w.granted + {id});
    forall m | m in w'.sent ensures Truthful(w', m, self) {
      assert Truthful(w, m, self);
    }
    forall k | k in w'.nodes ensures Faithful(w', k, self) {
      assert Faithful(w, k, self);
    }
    forall i | 0 <= i < SinkTable.SINK_ADDRESS_TABLE_SIZE && w'.sink.addresses[i].InUse()
      ensures Genuine(w', w'.sink.addresses[i])
    {
      assert Genuine(w, w.sink.addresses[i]);
    }
  }

  lemma LineTickKeepsInv(w: World, id: NodeId, tick: SensorNode.TickInput, self: Advert)
    requires Inv(w, self) && IsLine(w, id)
    ensures Inv(Act(w, LineTicks(id, tick), self), self)
  {
    assert Faithful(w, id, self);
    var s, n := w.nodes[id].line, w.nodes[id];
    var s' := SensorNode.Tick(s, tick);
    SensorRuns.TickCountsDown(s, tick);
    NodeChange(w, id, n.(line := s'), self);
    var w1 := SetLine(w, id, s');
    SendKeeps(w1, SensorNode.SelectsSink(s, tick), SelectMsg(id, n.eui), self);
    var w2 := Send(w1, SensorNode.SelectsSink(s, tick), SelectMsg(id, n.eui));
    SendKeeps(w2, SensorNode.SendsData(s, tick), DataMsg(id, n.eui), self);
  }

  lemma SleepyWakeNode(w: World, id: NodeId, wake: SleepySensor.WakeInput, self: Advert)
    requires Inv(w, self) && IsSleepy(w, id)
    ensures Inv(SetSleepy(w, id, SleepySensor.Wake(w.nodes[id].sleepy, wake)), self)
  {
    assert Faithful(w, id, self);
    var s, n := w.nodes[id].sleepy, w.nodes[id];
    SleepyRuns.WakeKeepsValid(s, wake);
    SleepyRuns.WakeKeepsSink(s, wake);
    NodeChange(w, id, n.(sleepy := SleepySensor.Wake(s, wake)), self);
  }

  lemma SleepyWakeKeepsInv(w: World, id: NodeId, wake: SleepySensor.WakeInput, self: Advert)
    requires Inv(w, self) && IsSleepy(w, id)
    ensures Inv(Act(w, SleepyWakes(id, wake), self), self)
  {
    var s, n := w.nodes[id].sleepy, w.nodes[id];
    SleepyWakeNode(w, id, wake, self);
    var w1 := SetSleepy(w, id, SleepySensor.Wake(s, wake));
    var queries := SleepySensor.Queries(SleepySensor.AfterWaits(s, wake), wake);
    SendKeeps(w1, queries, QueryMsg(id), self);
    SendKeeps(Send(w1, queries, QueryMsg(id)), SleepySensor.SendsData(s, wake), DataMsg(id, n.eui), self);
  }

  lemma LineMessageKeepsInv(w: World, a: Action, self: Advert)
    requires Inv(w, self) && Enabled(w, a)
    requires a.LineGetsAdvertise? || a.LineGetsReady? || a.LineReports?
    ensures Inv(Act(w, a, self), self)
  {
    var n := w.nodes[a.id];
    assert Faithful(w, a.id, self);
    var event := match a
      case LineGetsAdvertise(_, advert, random) => SensorRuns.Advertised(advert, random)
      case LineGetsReady(_) => SensorRuns.ReadyArrived
      case LineReports(_, delivered) => SensorRuns.DataReported(delivered);
    SensorRuns.StepKeepsValid(n.line, event);
    if a.LineGetsAdvertise? {
      assert Truthful(w, AdvertiseMsg(a.advert), self);
    } else if a.LineGetsReady? {
      assert Truthful(w, ReadyMsg(a.id), self);
      assert Truthful(w, SelectMsg(a.id, n.eui), self);
    }
    NodeChange(w, a.id, n.(line := SensorRuns.Step(n.line, event)), self);
  }

  lemma SleepyMessageKeepsInv(w: World, a: Action, self: Advert)
    requires Inv(w, self) && Enabled(w, a)
    requires a.SleepyGetsAdvertise? || a.SleepyGetsReady? || a.SleepyReports? || a.SleepyLosesNetwork?
    ensures Inv(Act(w, a, self), self)
  {
    var n := w.nodes[a.id];
    assert Faithful(w, a.id, self);
    var event := match a
      case SleepyGetsAdvertise(_, advert, euiSet, buffer) => SleepyRuns.Advertised(advert, euiSet, buffer)
      case SleepyGetsReady(_) => SleepyRuns.ReadyArrived(n.mobile)
      case SleepyReports(_, delivered) => SleepyRuns.DataReported(delivered)
      case SleepyLosesNetwork(_) => SleepyRuns.NetworkDown;
    SleepyRuns.StepKeepsValid(n.sleepy, event);
    if a.SleepyGetsAdvertise? {
      assert Truthful(w, AdvertiseMsg(a.advert), self);
    } else if a.SleepyGetsReady? {
      assert Truthful(w, ReadyMsg(a.id), self);
      assert Truthful(w, SelectMsg(a.id, n.eui), self);
    }
    var n' := n.(sleepy := SleepyRuns.Step(n.sleepy, event));
    NodeChange(w, a.id, n', self);
    if a.SleepyGetsAdvertise? {
      SendKeeps(w.(nodes := w.nodes[a.id := n']), SleepySensor.TakesUp(n.sleepy) && a.euiSet && a.buffer,
                SelectMsg(a.id, n.eui), self);
    }
  }

  /** Every action of every party keeps the invariant. */
  lemma ActKeepsInv(w: World, a: Action, self: Advert)
    requires Inv(w, self) && Enabled(w, a)
    ensures Inv(Act(w, a, self), self)
  {
    match a
    case SinkTicks(advertises) =>
      SinkRuns.StepKeepsValid(w.sink, SinkRuns.Ticked);
      SinkChange(w, SinkTable.Tick(w.sink), self);
      SendKeeps(w.(sink := SinkTable.Tick(w.sink)), advertises, AdvertiseMsg(self), self);
    case SinkGetsSelect(from, eui, resources) => SelectKeepsInv(w, from, eui, resources, self);
    case SinkGetsData(_, eui) =>
      SinkRuns.StepKeepsValid(w.sink, SinkRuns.DataFrom(eui));
      SinkChange(w, SinkTable.Data(w.sink, eui), self);
    case SinkGetsQuery(_, buffer) => SendKeeps(w, buffer, AdvertiseMsg(self), self);
    case CacheWritten(index, entry) =>
      SinkRuns.StepKeepsValid(w.sink, SinkRuns.CacheWrite(index, entry));
      SinkChange(w, w.sink.(addresses := w.sink.addresses[index := entry]), self);
    case LineGetsQuery(id, _, buffer) =>
      assert Faithful(w, id, self);
      SendKeeps(w, SensorNode.AnswersQuery(w.nodes[id].line, buffer), AdvertiseMsg(w.nodes[id].line.sink), self);
    case LineTicks(id, tick) => LineTickKeepsInv(w, id, tick, self);
    case SleepyWakes(id, wake) => SleepyWakeKeepsInv(w, id, wake, self);
    case LineGetsAdvertise(_, _, _) => LineMessageKeepsInv(w, a, self);
    case LineGetsReady(_) => LineMessageKeepsInv(w, a, self);
    case LineReports(_, _) => LineMessageKeepsInv(w, a, self);
    case _ => SleepyMessageKeepsInv(w, a, self);
  }

  // ----- runs

  /** The world after a run; an action that is not possible when its turn comes does not happen. */
  ghost function After(w: World, actions: seq<Action>, self: Advert): (w': World)
    requires Inv(w, self)
    ensures Inv(w', self)
    decreases |actions|
  {
    if actions == [] then w
    else
      var before := After(w, actions[..|actions| - 1], self);
      var last := actions[|actions| - 1];
      if !Enabled(before, last) then before
      else
        ActKeepsInv(before, last, self);
        Act(before, last, self)
  }

  lemma ActKeepsNodes(w: World, a: Action, self: Advert)
    requires SinkTable.Shaped(w.sink) && Enabled(w, a)
    ensures Act(w, a, self).nodes.Keys == w.nodes.Keys
    ensures forall id :: id in w.nodes ==> Act(w, a, self).nodes[id].eui == w.nodes[id].eui
  {
  }

  /** No action adds, removes or renames a node. */
  lemma {:induction false} NodesStay(w: World, actions: seq<Action>, self: Advert)
    requires Inv(w, self)
    ensures After(w, actions, self).nodes.Keys == w.nodes.Keys
    ensures forall id :: id in w.nodes ==> After(w, actions, self).nodes[id].eui == w.nodes[id].eui
    decreases |actions|
  {
    if actions != [] {
      var front, last := actions[..|actions| - 1], actions[|actions| - 1];
      NodesStay(w, front, self);
      if Enabled(After(w, front, self), last) {
        ActKeepsNodes(After(w, front, self), last, self);
      }
    }
  }

  /**
   Any READY, the first one to a node or a later one, answers a SELECT that its addressee did send,
   and goes out exactly if the addressee is registered right after, its age reset.
   */
  lemma ReadyMeansRegistered(w: World, a: Action, self: Advert)
    requires Inv(w, self) && Enabled(w, a) && a.SinkGetsSelect?
    ensures a.from in w.nodes && w.nodes[a.from].eui == a.eui && Act(w, a, self).nodes == w.nodes
    ensures var r := SinkRuns.View(Act(w, a, self).sink, a.eui);
            && (SinkTable.Replies(w.sink, a.eui, a.resources) <==> r.Present?)
            && (r.Present? ==> r.age == 0)
  {
    assert Truthful(w, SelectMsg(a.from, a.eui), self);
    SinkRuns.SelectRefinesSame(w.sink, a.eui, a.from, a.resources);
  }

  /** Nothing but answering a SELECT sends a READY or grants a node its first one. */
  lemma OnlySelectsAreGranted(w: World, a: Action, self: Advert, id: NodeId)
    requires Inv(w, self) && Enabled(w, a)
    requires (ReadyMsg(id) in Act(w, a, self).sent && ReadyMsg(id) !in w.sent)
             || (id in Act(w, a, self).granted && id !in w.granted)
    ensures a.SinkGetsSelect? && a.from == id && SinkTable.Replies(w.sink, a.eui, a.resources)
  {
  }

  /** The sink's table lists a node under its own short id, if long addresses are unique. */
  lemma RegisteredUnderOwnId(w: World, self: Advert, id: NodeId)
    requires Inv(w, self) && id in w.nodes && SinkRuns.View(w.sink, w.nodes[id].eui).Present?
    requires forall k :: k in w.nodes && k != id ==> w.nodes[k].eui != w.nodes[id].eui
    ensures SinkRuns.View(w.sink, w.nodes[id].eui).nodeId == id
  {
    var slot := SinkRuns.View(w.sink, w.nodes[id].eui).slot;
    assert Genuine(w, w.sink.addresses[slot]);
  }

  /** The sink has the sensor registered and heard of it this instant. */
  ghost predicate JustRegistered(w: World, eui: Eui64)
    requires SinkTable.Shaped(w.sink)
  {
    SinkRuns.View(w.sink, eui).Present? && SinkRuns.View(w.sink, eui).age == 0
  }

  /** The last action of a run, if it was possible. */
  lemma GrantedAtLast(w: World, actions: seq<Action>, self: Advert, id: NodeId)
    requires Inv(w, self) && actions != [] && id in w.nodes
    requires id in After(w, actions, self).granted
    requires id !in After(w, actions[..|actions| - 1], self).granted
    ensures actions[|actions| - 1].SinkGetsSelect? && actions[|actions| - 1].from == id
    ensures JustRegistered(After(w, actions, self), w.nodes[id].eui)
  {
    var front, last := actions[..|actions| - 1], actions[|actions| - 1];
    var before := After(w, front, self);
    NodesStay(w, front, self);
    OnlySelectsAreGranted(before, last, self, id);
    ReadyMeansRegistered(before, last, self);
  }

  /** The sink takes a SELECT of `id` as action `k` of a run, and has it registered right after. */
  ghost predicate RegisteredAt(w: World, actions: seq<Action>, self: Advert, id: NodeId, k: nat)
    requires Inv(w, self)
  {
    && id in w.nodes
    && k < |actions| && actions[k].SinkGetsSelect? && actions[k].from == id
    && JustRegistered(After(w, actions[..k + 1], self), w.nodes[id].eui)
  }

  lemma RegisteredAtExtends(w: World, actions: seq<Action>, self: Advert, id: NodeId, k: nat, n: nat)
    requires Inv(w, self) && n <= |actions| && RegisteredAt(w, actions[..n], self, id, k)
    ensures RegisteredAt(w, actions, self, id, k)
  {
    assert actions[..n][..k + 1] == actions[..k + 1];
  }

  /** Whoever was granted a READY during a run was registered right after the sink took its SELECT. */
  lemma {:induction false} GrantedWasRegistered(w: World, actions: seq<Action>, self: Advert, id: NodeId)
    returns (k: nat)
    requires Inv(w, self) && id !in w.granted && id in w.nodes
    requires id in After(w, actions, self).granted
    ensures RegisteredAt(w, actions, self, id, k)
    decreases |actions|
  {
    var n := |actions|;
    var front := actions[..n - 1];
    if id in After(w, front, self).granted {
      k := GrantedWasRegistered(w, front, self, id);
      RegisteredAtExtends(w, actions, self, id, k, n - 1);
    } else {
      GrantedAtLast(w, actions, self, id);
      assert actions[..n] == actions;
      k := n - 1;
    }
  }

  /** The world after a run from start-up. */
  ghost function RunFrom(w: World, actions: seq<Action>, self: Advert): (w': World)
    requires Start(w)
    ensures Inv(w', self)
  {
    StartInv(w, self);
    After(w, actions, self)
  }

  /**
   Safety of the protocol. In every state of every run from start-up, a node that has a sink has
   the real one, and at some earlier step of the run the sink took a SELECT of that very node and
   had it registered right after.
   */
  lemma AttachedWasRegistered(w: World, actions: seq<Action>, self: Advert, id: NodeId) returns (k: nat)
    requires Start(w) && id in RunFrom(w, actions, self).nodes
    requires RunFrom(w, actions, self).nodes[id].HasSink()
    ensures RunFrom(w, actions, self).nodes[id].SinkAddress() == self
    ensures Inv(w, self) && RegisteredAt(w, actions, self, id, k)
  {
    StartInv(w, self);
    NodesStay(w, actions, self);
    assert Faithful(After(w, actions, self), id, self);
    k := GrantedWasRegistered(w, actions, self, id);
  }

  // ----- staying registered

  /** What an action means to the sink's table, if anything. */
  function SinkEvents(a: Action): seq<SinkRuns.Event> {
    match a
    case SinkTicks(_) => [SinkRuns.Ticked]
    case SinkGetsSelect(from, eui, resources) => [SinkRuns.Selected(eui, from, resources)]
    case SinkGetsData(_, eui) => [SinkRuns.DataFrom(eui)]
    case CacheWritten(index, entry) => [SinkRuns.CacheWrite(index, entry)]
    case _ => []
  }

  /** What the sink's table goes through from action `k` of a run on. */
  ghost function SinkEventsFrom(w: World, actions: seq<Action>, self: Advert, k: nat): seq<SinkRuns.Event>
    requires Inv(w, self)
    decreases |actions|
  {
    if |actions| <= k then []
    else
      var front, last := actions[..|actions| - 1], actions[|actions| - 1];
      SinkEventsFrom(w, front, self, k) + if Enabled(After(w, front, self), last) then SinkEvents(last) else []
  }

  lemma ActIsSinkStep(w: World, a: Action, self: Advert)
    requires Inv(w, self) && Enabled(w, a)
    ensures SinkEvents(a) == [] ==> Act(w, a, self).sink == w.sink
    ensures SinkEvents(a) != [] ==>
              && |SinkEvents(a)| == 1 && SinkEvents(a)[0].Proper()
              && Act(w, a, self).sink == SinkRuns.Step(w.sink, SinkEvents(a)[0])
  {
    if a.SinkGetsSelect? {
      assert Truthful(w, SelectMsg(a.from, a.eui), self);
    }
  }

  /** To the sink's table, a run of the protocol is the run of these events. */
  lemma {:induction false} SinkRunsEvents(w: World, actions: seq<Action>, self: Advert, k: nat)
    requires Inv(w, self) && k <= |actions|
    ensures var events := SinkEventsFrom(w, actions, self, k);
            && SinkRuns.AllProper(events)
            && After(w, actions, self).sink == SinkRuns.Run(After(w, actions[..k], self).sink, events)
    decreases |actions|
  {
    if k == |actions| {
      assert actions[..k] == actions;
    } else {
      var front, last := actions[..|actions| - 1], actions[|actions| - 1];
      var before, events := After(w, front, self), SinkEventsFrom(w, front, self, k);
      SinkRunsEvents(w, front, self, k);
      assert front[..k] == actions[..k];
      if Enabled(before, last) {
        ActIsSinkStep(before, last, self);
        if SinkEvents(last) != [] {
          SinkRuns.RunSnoc(After(w, actions[..k], self).sink, events, SinkEvents(last)[0]);
          assert SinkEvents(last) == [SinkEvents(last)[0]];
        } else {
          assert events + SinkEvents(last) == events;
        }
      } else {
        assert events + [] == events;
      }
    }
  }

  /** The sink has the sensor registered after the first `j` actions of a run. */
  ghost predicate RegisteredAfter(w: World, actions: seq<Action>, self: Advert, eui: Eui64, j: nat)
    requires Inv(w, self) && j <= |actions|
  {
    SinkRuns.View(After(w, actions[..j], self).sink, eui).Present?
  }

  /** The sink has the sensor registered in every state of the run from action `k` on. */
  ghost predicate RegisteredFrom(w: World, actions: seq<Action>, self: Advert, eui: Eui64, k: nat)
    requires Inv(w, self)
  {
    forall j :: k <= j <= |actions| ==> RegisteredAfter(w, actions, self, eui, j)
  }

  lemma SameStart(w: World, actions: seq<Action>, self: Advert, eui: Eui64, n: nat, j: nat)
    requires Inv(w, self) && j <= n <= |actions|
    ensures RegisteredAfter(w, actions[..n], self, eui, j) <==> RegisteredAfter(w, actions, self, eui, j)
  {
    assert actions[..n][..j] == actions[..j];
  }

  lemma RegisteredFromFront(w: World, actions: seq<Action>, self: Advert, eui: Eui64, k: nat)
    requires Inv(w, self) && k < |actions| && RegisteredFrom(w, actions, self, eui, k)
    ensures RegisteredFrom(w, actions[..|actions| - 1], self, eui, k)
  {
    var n := |actions| - 1;
    forall j | k <= j <= n ensures RegisteredAfter(w, actions[..n], self, eui, j) {
      SameStart(w, actions, self, eui, n, j);
    }
  }

  lemma RegisteredFromSnoc(w: World, actions: seq<Action>, self: Advert, eui: Eui64, k: nat)
    requires Inv(w, self) && k < |actions|
    ensures RegisteredFrom(w, actions, self, eui, k)
            <==> RegisteredFrom(w, actions[..|actions| - 1], self, eui, k)
                 && RegisteredAfter(w, actions, self, eui, |actions|)
  {
    var n := |actions| - 1;
    if RegisteredFrom(w, actions, self, eui, k) {
      RegisteredFromFront(w, actions, self, eui, k);
    } else if RegisteredFrom(w, actions[..n], self, eui, k) {
      forall j | k <= j <= n ensures RegisteredAfter(w, actions, self, eui, j) {
        SameStart(w, actions, self, eui, n, j);
      }
    }
  }

  /** What reaches the sink from action `k` on keeps the sensor's registration alive. */
  ghost predicate KeptAliveFrom(w: World, actions: seq<Action>, self: Advert, eui: Eui64, k: nat)
    requires Inv(w, self) && k <= |actions| && RegisteredAfter(w, actions, self, eui, k)
  {
    SinkRuns.KeepsAlive(SinkEventsFrom(w, actions, self, k), eui,
                        SinkRuns.View(After(w, actions[..k], self).sink, eui).age)
  }

  lemma KeptAliveSnoc(w: World, actions: seq<Action>, self: Advert, eui: Eui64, k: nat)
    requires Inv(w, self) && k < |actions| && RegisteredAfter(w, actions, self, eui, k)
    ensures var front := actions[..|actions| - 1];
            && RegisteredAfter(w, front, self, eui, k)
            && ((KeptAliveFrom(w, front, self, eui, k) ==> RegisteredAfter(w, front, self, eui, |front|)) ==>
                  (KeptAliveFrom(w, actions, self, eui, k)
                   <==> KeptAliveFrom(w, front, self, eui, k) && RegisteredAfter(w, actions, self, eui, |actions|)))
  {
    var front, last := actions[..|actions| - 1], actions[|actions| - 1];
    var s, before := After(w, actions[..k], self).sink, After(w, front, self);
    var events := SinkEventsFrom(w, front, self, k);
    assert front[..k] == actions[..k] && front[..|front|] == front && actions[..|actions|] == actions;
    if Enabled(before, last) {
      ActIsSinkStep(before, last, self);
    }
    if Enabled(before, last) && SinkEvents(last) != [] {
      var event := SinkEvents(last)[0];
      SinkRunsEvents(w, front, self, k);
      SinkRuns.KeepsAliveSnoc(s, events, event, eui);
      assert SinkEventsFrom(w, actions, self, k) == events + [event];
      assert After(w, actions, self).sink == SinkRuns.Step(before.sink, event);
    } else {
      assert SinkEventsFrom(w, actions, self, k) == events;
      assert After(w, actions, self).sink == before.sink;
    }
  }

  /**
   How long a registration lasts, exactly: from a state in which a sensor is registered on, the sink
   has it registered in every state of the run if and only if what reaches the sink keeps it alive,
   that is, the sensor is heard at least every 240 ticks and never left without an answer buffer.
   */
  lemma {:induction false} RegisteredIffKeptAlive(w: World, actions: seq<Action>, self: Advert, eui: Eui64, k: nat)
    requires Inv(w, self) && k <= |actions| && RegisteredAfter(w, actions, self, eui, k)
    ensures RegisteredFrom(w, actions, self, eui, k) <==> KeptAliveFrom(w, actions, self, eui, k)
    decreases |actions|
  {
    if k < |actions| {
      KeptAliveSnoc(w, actions, self, eui, k);
      RegisteredIffKeptAlive(w, actions[..|actions| - 1], self, eui, k);
      RegisteredFromSnoc(w, actions, self, eui, k);
    }
  }

  /**
   So an attached node, registered right after some earlier action `k`, was registered ever since
   if and only if what then reached the sink kept it alive.
   */
  lemma AttachedStaysRegisteredIff(w: World, actions: seq<Action>, self: Advert, id: NodeId) returns (k: nat)
    requires Start(w) && id in RunFrom(w, actions, self).nodes
    requires RunFrom(w, actions, self).nodes[id].HasSink()
    ensures Inv(w, self) && RegisteredAt(w, actions, self, id, k)
    ensures RegisteredFrom(w, actions, self, w.nodes[id].eui, k + 1)
            <==> SinkRuns.KeepsAlive(SinkEventsFrom(w, actions, self, k + 1), w.nodes[id].eui, 0)
  {
    k := AttachedWasRegistered(w, actions, self, id);
    RegisteredIffKeptAlive(w, actions, self, w.nodes[id].eui, k + 1);
  }

  /** Action `j` of the run is a SELECT of the sensor that takes place and that the sink answers READY. */
  ghost predicate AnsweredAt(w: World, actions: seq<Action>, self: Advert, eui: Eui64, j: nat)
    requires Inv(w, self)
  {
    && j < |actions| && actions[j].SinkGetsSelect? && actions[j].eui == eui
    && Enabled(After(w, actions[..j], self), actions[j])
    && SinkTable.Replies(After(w, actions[..j], self).sink, eui, actions[j].resources)
  }

  lemma AnsweredIsRegistered(w: World, actions: seq<Action>, self: Advert, eui: Eui64, j: nat)
    requires Inv(w, self) && AnsweredAt(w, actions, self, eui, j)
    ensures JustRegistered(After(w, actions[..j + 1], self), eui)
  {
    assert actions[..j + 1][..j] == actions[..j];
    ReadyMeansRegistered(After(w, actions[..j], self), actions[j], self);
  }

  /** An action that makes a sensor registered is a SELECT of it that is answered. */
  lemma BecomesRegistered(w: World, a: Action, self: Advert, eui: Eui64)
    requires Inv(w, self) && Enabled(w, a) && SinkRuns.View(w.sink, eui).Absent?
    requires SinkRuns.View(Act(w, a, self).sink, eui).Present?
    ensures a.SinkGetsSelect? && a.eui == eui && SinkTable.Replies(w.sink, eui, a.resources)
  {
    ActIsSinkStep(w, a, self);
    SinkRuns.StepRefinesNext(w.sink, SinkEvents(a)[0], eui);
    ReadyMeansRegistered(w, a, self);
  }

  lemma RegisteredByAnswer(w: World, actions: seq<Action>, self: Advert, eui: Eui64, j: nat)
    requires Inv(w, self) && j < |actions|
    requires !RegisteredAfter(w, actions, self, eui, j) && RegisteredAfter(w, actions, self, eui, j + 1)
    ensures AnsweredAt(w, actions, self, eui, j)
  {
    assert actions[..j + 1][..j] == actions[..j];
    BecomesRegistered(After(w, actions[..j], self), actions[j], self, eui);
  }

  /** Whatever holds last but not first has held since some last moment at which it did not. */
  lemma {:induction false} LastGap(p: seq<bool>) returns (j: nat)
    requires p != [] && !p[0] && p[|p| - 1]
    ensures j + 1 < |p| && !p[j] && forall i :: j < i < |p| ==> p[i]
    decreases |p|
  {
    if p[|p| - 2] {
      j := LastGap(p[..|p| - 1]);
    } else {
      j := |p| - 2;
    }
  }

  /** Whether the sink has the sensor registered, state by state of a run. */
  ghost function Presence(w: World, actions: seq<Action>, self: Advert, eui: Eui64): (p: seq<bool>)
    requires Inv(w, self)
    ensures |p| == |actions| + 1
    ensures forall j :: 0 <= j <= |actions| ==> p[j] == RegisteredAfter(w, actions, self, eui, j)
  {
    seq(|actions| + 1, j requires 0 <= j <= |actions| => RegisteredAfter(w, actions, self, eui, j))
  }

  lemma PresentFrom(w: World, actions: seq<Action>, self: Advert, eui: Eui64, k: nat)
    requires Inv(w, self)
    requires forall j :: k <= j <= |actions| ==> Presence(w, actions, self, eui)[j]
    ensures RegisteredFrom(w, actions, self, eui, k)
  {
    forall j | k <= j <= |actions| ensures RegisteredAfter(w, actions, self, eui, j) {
      assert Presence(w, actions, self, eui)[j];
    }
  }

  /** A registration goes back, without a gap, to a SELECT that was answered. */
  lemma RegisteredSinceAnswer(w: World, actions: seq<Action>, self: Advert, eui: Eui64) returns (j: nat)
    requires Inv(w, self) && !RegisteredAfter(w, actions, self, eui, 0)
    requires RegisteredAfter(w, actions, self, eui, |actions|)
    ensures AnsweredAt(w, actions, self, eui, j) && RegisteredFrom(w, actions, self, eui, j + 1)
  {
    j := LastGap(Presence(w, actions, self, eui));
    PresentFrom(w, actions, self, eui, j + 1);
    RegisteredByAnswer(w, actions, self, eui, j);
  }

  /**
   Being registered now, exactly: after a run from start-up the sink has a sensor registered if and
   only if it answered a SELECT of it READY, the first or a later one, and since then was kept alive:
   it heard the sensor at least every 240 ticks and never lacked a buffer to answer it.
   */
  lemma RegisteredNowIff(w: World, actions: seq<Action>, self: Advert, eui: Eui64)
    requires Start(w)
    ensures Inv(w, self)
    ensures SinkRuns.View(RunFrom(w, actions, self).sink, eui).Present?
            <==> exists j: nat :: AnsweredAt(w, actions, self, eui, j)
                             && SinkRuns.KeepsAlive(SinkEventsFrom(w, actions, self, j + 1), eui, 0)
  {
    StartInv(w, self);
    SinkRuns.InitialIsValid(w.sink);
    assert actions[..0] == [] && actions[..|actions|] == actions;
    if RegisteredAfter(w, actions, self, eui, |actions|) {
      var j := RegisteredSinceAnswer(w, actions, self, eui);
      AnsweredIsRegistered(w, actions, self, eui, j);
      RegisteredIffKeptAlive(w, actions, self, eui, j + 1);
    } else {
      forall j: nat | AnsweredAt(w, actions, self, eui, j)
        ensures !SinkRuns.KeepsAlive(SinkEventsFrom(w, actions, self, j + 1), eui, 0)
      {
        AnsweredIsRegistered(w, actions, self, eui, j);
        RegisteredIffKeptAlive(w, actions, self, eui, j + 1);
      }
    }
  }

  // ----- every node can attach

  lemma AfterSnoc(w: World, actions: seq<Action>, a: Action, self: Advert)
    requires Inv(w, self) && Enabled(After(w, actions, self), a)
    ensures After(w, actions + [a], self) == Act(After(w, actions, self), a, self)
  {
    assert (actions + [a])[..|actions|] == actions;
  }

  /** The node has yet to answer an advertisement, or to hear one. */
  predicate StillLooking(n: Node) {
    if n.Line? then n.line.waitingToRespond else n.sleepy.waitingForSinkAdv
  }

  /** The node waits for nothing; a line-powered one has the whole time to its next data message before it. */
  predicate Settled(n: Node) {
    && !StillLooking(n)
    && if n.Line? then !n.line.waitingForSinkReady && n.line.sendDataCountdown == 80
       else !n.sleepy.waitingForSinkReady
  }

  /** The end of an attachment: the SELECT in flight is taken with both resources, and the READY arrives. */
  lemma AnsweredSelectAttaches(w: World, actions: seq<Action>, self: Advert, id: NodeId) returns (actions': seq<Action>)
    requires Inv(w, self) && id in w.nodes
    requires !After(w, actions, self).sink.addresses[0].InUse()
    requires SelectMsg(id, w.nodes[id].eui) in After(w, actions, self).sent
    requires id in After(w, actions, self).nodes && !StillLooking(After(w, actions, self).nodes[id])
    ensures var w' := After(w, actions', self);
            && id in w'.nodes && w'.nodes[id].HasSink() && Settled(w'.nodes[id])
            && JustRegistered(w', w.nodes[id].eui)
  {
    var w1, eui := After(w, actions, self), w.nodes[id].eui;
    NodesStay(w, actions, self);
    var select := SinkGetsSelect(id, eui, SinkTable.Resources(true, true));
    AfterSnoc(w, actions, select, self);
    ReadyMeansRegistered(w1, select, self);
    var w2 := After(w, actions + [select], self);
    assert SinkTable.Replies(w1.sink, eui, select.resources);
    var ready := if w2.nodes[id].Line? then LineGetsReady(id) else SleepyGetsReady(id);
    AfterSnoc(w, actions + [select], ready, self);
    actions' := actions + [select] + [ready];
  }

  /** Up to its SELECT, a sleepy node needs the sink to advertise and its own stack to have resources. */
  lemma SleepySelects(w: World, self: Advert, id: NodeId) returns (actions: seq<Action>)
    requires Start(w) && Inv(w, self) && IsSleepy(w, id)
    ensures id in After(w, actions, self).nodes && !StillLooking(After(w, actions, self).nodes[id])
    ensures !After(w, actions, self).sink.addresses[0].InUse()
    ensures SelectMsg(id, w.nodes[id].eui) in After(w, actions, self).sent
  {
    var advertise, hear := SinkTicks(true), SleepyGetsAdvertise(id, self, true, true);
    AfterSnoc(w, [], advertise, self);
    AfterSnoc(w, [] + [advertise], hear, self);
    actions := [] + [advertise] + [hear];
  }

  /** A line-powered node that delays its answer gives it when the delay is over. */
  lemma {:induction false} LineAnswers(w: World, actions: seq<Action>, self: Advert, id: NodeId)
    returns (actions': seq<Action>)
    requires Inv(w, self) && IsLine(After(w, actions, self), id)
    requires After(w, actions, self).nodes[id].line.waitingToRespond
    ensures After(w, actions', self).sink == After(w, actions, self).sink
    ensures id in After(w, actions', self).nodes && !StillLooking(After(w, actions', self).nodes[id])
    ensures SelectMsg(id, After(w, actions, self).nodes[id].eui) in After(w, actions', self).sent
    decreases After(w, actions, self).nodes[id].line.respondTimer
  {
    var w1, tick := After(w, actions, self), LineTicks(id, SensorNode.TickInput(false, true, true, NoBuffer));
    assert Faithful(w1, id, self);
    AfterSnoc(w, actions, tick, self);
    if SensorNode.AnswersNow(w1.nodes[id].line) {
      actions' := actions + [tick];
    } else {
      actions' := LineAnswers(w, actions + [tick], self, id);
    }
  }

  /** Up to its SELECT, so does a line-powered node, whatever delay it draws. */
  lemma LineSelects(w: World, self: Advert, id: NodeId, random: nat) returns (actions: seq<Action>)
    requires Start(w) && Inv(w, self) && IsLine(w, id)
    ensures id in After(w, actions, self).nodes && !StillLooking(After(w, actions, self).nodes[id])
    ensures !After(w, actions, self).sink.addresses[0].InUse()
    ensures SelectMsg(id, w.nodes[id].eui) in After(w, actions, self).sent
  {
    var advertise, hear := SinkTicks(true), LineGetsAdvertise(id, self, random);
    AfterSnoc(w, [], advertise, self);
    AfterSnoc(w, [] + [advertise], hear, self);
    actions := LineAnswers(w, [] + [advertise] + [hear], self, id);
  }

  /** From every start, every node of either kind can be brought to have a sink and be registered by it. */
  lemma EveryNodeCanAttach(w: World, self: Advert, id: NodeId) returns (actions: seq<Action>)
    requires Start(w) && id in w.nodes
    ensures var w' := RunFrom(w, actions, self);
            && id in w'.nodes && w'.nodes[id].HasSink() && Settled(w'.nodes[id])
            && JustRegistered(w', w.nodes[id].eui)
  {
    StartInv(w, self);
    if w.nodes[id].Line? {
      actions := LineSelects(w, self, id, 0);
    } else {
      actions := SleepySelects(w, self, id);
    }
    actions := AnsweredSelectAttaches(w, actions, self, id);
  }

  // ----- what the protocol does not promise

  /** The run goes on with `n` ticks of the sink, and nothing else happens. */
  function ThenSilence(actions: seq<Action>, n: nat): seq<Action> {
    if n == 0 then actions else ThenSilence(actions, n - 1) + [SinkTicks(false)]
  }

  /** The nodes are as in `w1`, and the sink is as in `w1` after `n` ticks. */
  ghost predicate OnlyTicked(w: World, w1: World, n: nat)
    requires SinkRuns.Valid(w1.sink)
  {
    w.nodes == w1.nodes && w.sink == SinkRuns.TickedFor(w1.sink, n)
  }

  lemma OneMoreTick(w: World, actions: seq<Action>, self: Advert, w1: World, n: nat)
    requires Inv(w, self) && SinkRuns.Valid(w1.sink) && OnlyTicked(After(w, actions, self), w1, n)
    ensures OnlyTicked(After(w, actions + [SinkTicks(false)], self), w1, n + 1)
  {
    AfterSnoc(w, actions, SinkTicks(false), self);
  }

  lemma {:induction false} SilenceOnlyTicks(w: World, actions: seq<Action>, n: nat, self: Advert)
    requires Inv(w, self)
    ensures OnlyTicked(After(w, ThenSilence(actions, n), self), After(w, actions, self), n)
  {
    if n > 0 {
      SilenceOnlyTicks(w, actions, n - 1, self);
      OneMoreTick(w, ThenSilence(actions, n - 1), self, After(w, actions, self), n - 1);
    }
  }

  /** Having a sink does not mean being registered: a long silence undoes one and not the other. */
  lemma AttachedMayBeForgotten(w: World, actions: seq<Action>, self: Advert, id: NodeId, n: nat)
    requires Inv(w, self) && id in After(w, actions, self).nodes && After(w, actions, self).nodes[id].HasSink()
    requires 240 < n
    ensures var w' := After(w, ThenSilence(actions, n), self);
            id in w'.nodes && w'.nodes[id].HasSink() && SinkRuns.View(w'.sink, w'.nodes[id].eui).Absent?
  {
    var w1 := After(w, actions, self);
    SinkRuns.LongSilence(w1.sink, n, w1.nodes[id].eui);
    SilenceOnlyTicks(w, actions, n, self);
  }

  /** This happens to every node, in some run from every start. */
  lemma EveryNodeMayBeForgotten(w: World, self: Advert, id: NodeId, n: nat) returns (actions: seq<Action>)
    requires Start(w) && id in w.nodes && 240 < n
    ensures var w' := RunFrom(w, actions, self);
            id in w'.nodes && w'.nodes[id].HasSink() && SinkRuns.View(w'.sink, w'.nodes[id].eui).Absent?
  {
    StartInv(w, self);
    actions := EveryNodeCanAttach(w, self, id);
    AttachedMayBeForgotten(w, actions, self, id, n);
    actions := ThenSilence(actions, n);
  }
}
