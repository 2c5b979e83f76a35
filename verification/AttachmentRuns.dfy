/**
 The protocol seen from its messages and its nodes: exactly which action sends what, each
 node's own run within a run of the protocol, and a node whose data keeps it registered.
 */
module AttachmentRuns {
  import opened EmberTypes
  import opened Attachment
  import opened SinkLinks
  import SinkTable
  import SinkRuns
  import SensorNode
  import SensorRuns
  import SleepySensor
  import SleepyRuns

  // ----- what goes out

  /** A line-powered node's countdown runs out in this tick, it keeps its sink and the stack takes the message. */
  ghost predicate LineReportsNow(w: World, a: Action, self: Advert, id: NodeId)
    requires Inv(w, self) && Enabled(w, a)
  {
    && a.LineTicks? && a.id == id && w.nodes[id].line.link.found && w.nodes[id].line.sendDataCountdown == 1
    && a.tick.send.Submitted? && id in Act(w, a, self).nodes && Act(w, a, self).nodes[id].HasSink()
  }

  /** A sleepy node's countdown runs out in this run of its event handler, parent and stack permitting. */
  ghost predicate SleepyReportsNow(w: World, a: Action, id: NodeId)
    requires Enabled(w, a)
  {
    && a.SleepyWakes? && a.id == id && w.nodes[id].sleepy.link.found && !a.wake.leavePressed
    && a.wake.parentResponsive && a.wake.send.Submitted? && SleepyRuns.DataDue(w.nodes[id].sleepy, a.wake)
  }

  /** Data of a node goes out in these actions and no others. */
  lemma DataSentIff(w: World, a: Action, self: Advert, id: NodeId)
    requires Inv(w, self) && Enabled(w, a) && id in w.nodes
    ensures var m := DataMsg(id, w.nodes[id].eui);
            m in Act(w, a, self).sent <==> m in w.sent || LineReportsNow(w, a, self, id) || SleepyReportsNow(w, a, id)
  {
    assert Faithful(w, id, self);
    if a.LineTicks? && a.id == id {
      SensorRuns.SendsDataIff(w.nodes[id].line, a.tick);
    } else if a.SleepyWakes? && a.id == id {
      SleepyRuns.SendsDataIff(w.nodes[id].sleepy, a.wake);
    }
  }

  /** A SELECT goes out when a delay is over, or a sleepy node takes up an advertisement, with both resources. */
  lemma SelectSentIff(w: World, a: Action, self: Advert, id: NodeId)
    requires Inv(w, self) && Enabled(w, a) && id in w.nodes
    ensures var m := SelectMsg(id, w.nodes[id].eui);
            m in Act(w, a, self).sent
            <==> || m in w.sent
                 || (a.LineTicks? && a.id == id && w.nodes[id].line.waitingToRespond
                     && w.nodes[id].line.respondTimer == 1 && a.tick.euiSet && a.tick.buffer)
                 || (a.SleepyGetsAdvertise? && a.id == id && !w.nodes[id].sleepy.link.found
                     && !w.nodes[id].sleepy.waitingForSinkReady && a.euiSet && a.buffer)
  {
  }

  /** A query goes out exactly from a joined sleepy node without a sink that has nothing left to wait for. */
  lemma QuerySentIff(w: World, a: Action, self: Advert, id: NodeId)
    requires Inv(w, self) && Enabled(w, a) && id in w.nodes
    ensures QueryMsg(id) in Act(w, a, self).sent
            <==> QueryMsg(id) in w.sent || (a.SleepyWakes? && a.id == id && AsksNow(w.nodes[id].sleepy, a.wake))
  {
    assert Faithful(w, id, self);
    if a.SleepyWakes? && a.id == id {
      SleepyRuns.AsksIff(w.nodes[id].sleepy, a.wake);
    }
  }

  predicate AsksNow(s: SleepySensor.Sleepy, wake: SleepySensor.WakeInput) {
    && (!s.link.found || wake.leavePressed) && wake.joined && wake.queryBuffer
    && (s.waitingForSinkAdv ==> s.timeToWaitForSinkAdv <= SleepyRuns.QuarterSeconds(wake))
    && (s.waitingForSinkReady ==>
          s.timeToWaitForSinkReady <= SleepyRuns.Least(SleepyRuns.QuarterSeconds(wake), SleepyRuns.Waits(s)))
  }

  /** The sink is advertised by itself, and to whoever asks it, or asks a line-powered node that has it. */
  lemma AdvertiseSentIff(w: World, a: Action, self: Advert)
    requires Inv(w, self) && Enabled(w, a)
    ensures AdvertiseMsg(self) in Act(w, a, self).sent
            <==> || AdvertiseMsg(self) in w.sent || (a.SinkTicks? && a.advertises)
                 || (a.SinkGetsQuery? && a.buffer)
                 || (a.LineGetsQuery? && a.buffer && w.nodes[a.id].HasSink())
  {
    if a.LineGetsQuery? {
      assert Faithful(w, a.id, self);
    }
  }

  /** READY goes out in answer to SELECTs, exactly those after which the sender is registered. */
  lemma ReadySentIff(w: World, a: Action, self: Advert, id: NodeId)
    requires Inv(w, self) && Enabled(w, a) && id in w.nodes
    ensures ReadyMsg(id) in Act(w, a, self).sent
            <==> || ReadyMsg(id) in w.sent
                 || (a.SinkGetsSelect? && a.from == id && SinkRuns.View(Act(w, a, self).sink, a.eui).Present?)
  {
    if a.SinkGetsSelect? {
      ReadyMeansRegistered(w, a, self);
    }
  }

  // ----- each node's own run

  /** What an action means to the line-powered node `id`, if anything. */
  function LineEvents(a: Action, id: NodeId): seq<SensorRuns.Event> {
    match a
    case LineGetsAdvertise(i, advert, random) => if i == id then [SensorRuns.Advertised(advert, random)] else []
    case LineGetsReady(i) => if i == id then [SensorRuns.ReadyArrived] else []
    case LineReports(i, delivered) => if i == id then [SensorRuns.DataReported(delivered)] else []
    case LineTicks(i, tick) => if i == id then [SensorRuns.Ticked(tick)] else []
    case _ => []
  }

  ghost function LineEventsIn(w: World, actions: seq<Action>, self: Advert, id: NodeId): seq<SensorRuns.Event>
    requires Inv(w, self)
    decreases |actions|
  {
    if actions == [] then []
    else
      var front, last := actions[..|actions| - 1], actions[|actions| - 1];
      LineEventsIn(w, front, self, id)
      + if Enabled(After(w, front, self), last) then LineEvents(last, id) else []
  }

  lemma LineActs(w: World, a: Action, self: Advert, id: NodeId)
    requires Inv(w, self) && Enabled(w, a) && IsLine(w, id)
    ensures IsLine(Act(w, a, self), id)
    ensures Act(w, a, self).nodes[id].line == SensorRuns.Run(w.nodes[id].line, LineEvents(a, id))
  {
    var events := LineEvents(a, id);
    if events != [] {
      assert events == [events[0]];
      RunOfOne(SensorRuns.Step, w.nodes[id].line, events[0]);
    }
  }

  /** To a line-powered node, a run of the protocol is a run of what happens to it. */
  lemma {:induction false} LineRunsEvents(w: World, actions: seq<Action>, self: Advert, id: NodeId)
    requires Inv(w, self) && IsLine(w, id)
    ensures IsLine(After(w, actions, self), id)
    ensures After(w, actions, self).nodes[id].line
            == SensorRuns.Run(w.nodes[id].line, LineEventsIn(w, actions, self, id))
    decreases |actions|
  {
    if actions != [] {
      var front, last := actions[..|actions| - 1], actions[|actions| - 1];
      var before, events := After(w, front, self), LineEventsIn(w, front, self, id);
      LineRunsEvents(w, front, self, id);
      if Enabled(before, last) {
        LineActs(before, last, self, id);
        RunOfConcat(SensorRuns.Step, w.nodes[id].line, events, LineEvents(last, id));
      } else {
        assert events + [] == events;
      }
    }
  }

  /** What an action means to the sleepy node `id`, if anything. */
  function SleepyEvents(a: Action, id: NodeId, mobile: bool): seq<SleepyRuns.Event> {
    match a
    case SleepyGetsAdvertise(i, advert, euiSet, buffer) =>
      if i == id then [SleepyRuns.Advertised(advert, euiSet, buffer)] else []
    case SleepyGetsReady(i) => if i == id then [SleepyRuns.ReadyArrived(mobile)] else []
    case SleepyReports(i, delivered) => if i == id then [SleepyRuns.DataReported(delivered)] else []
    case SleepyLosesNetwork(i) => if i == id then [SleepyRuns.NetworkDown] else []
    case SleepyWakes(i, wake) => if i == id then [SleepyRuns.Woken(wake)] else []
    case _ => []
  }

  ghost function SleepyEventsIn(w: World, actions: seq<Action>, self: Advert, id: NodeId): seq<SleepyRuns.Event>
    requires Inv(w, self) && IsSleepy(w, id)
    decreases |actions|
  {
    if actions == [] then []
    else
      var front, last := actions[..|actions| - 1], actions[|actions| - 1];
      SleepyEventsIn(w, front, self, id)
      + if Enabled(After(w, front, self), last) then SleepyEvents(last, id, w.nodes[id].mobile) else []
  }

  lemma SleepyActs(w: World, a: Action, self: Advert, id: NodeId)
    requires Inv(w, self) && Enabled(w, a) && IsSleepy(w, id)
    ensures IsSleepy(Act(w, a, self), id) && Act(w, a, self).nodes[id].mobile == w.nodes[id].mobile
    ensures Act(w, a, self).nodes[id].sleepy
            == SleepyRuns.Run(w.nodes[id].sleepy, SleepyEvents(a, id, w.nodes[id].mobile))
  {
    var events := SleepyEvents(a, id, w.nodes[id].mobile);
    if events != [] {
      assert events == [events[0]];
      RunOfOne(SleepyRuns.Step, w.nodes[id].sleepy, events[0]);
    }
  }

  /** And so it is to a sleepy node. */
  lemma {:induction false} SleepyRunsEvents(w: World, actions: seq<Action>, self: Advert, id: NodeId)
    requires Inv(w, self) && IsSleepy(w, id)
    ensures IsSleepy(After(w, actions, self), id)
    ensures After(w, actions, self).nodes[id].mobile == w.nodes[id].mobile
    ensures After(w, actions, self).nodes[id].sleepy
            == SleepyRuns.Run(w.nodes[id].sleepy, SleepyEventsIn(w, actions, self, id))
    decreases |actions|
  {
    if actions != [] {
      var front, last := actions[..|actions| - 1], actions[|actions| - 1];
      var before, events := After(w, front, self), SleepyEventsIn(w, front, self, id);
      SleepyRunsEvents(w, front, self, id);
      if Enabled(before, last) {
        SleepyActs(before, last, self, id);
        RunOfConcat(SleepyRuns.Step, w.nodes[id].sleepy, events, SleepyEvents(last, id, w.nodes[id].mobile));
      } else {
        assert events + [] == events;
      }
    }
  }

  // ----- a node's own data keeps it registered

  /** The node has a sink and waits for nothing; a line-powered one is `t` ticks past its last data message. */
  ghost predicate Reporting(w: World, id: NodeId, t: nat) {
    && id in w.nodes
    && match w.nodes[id]
       case Line(_, s) => s.link.found && SensorNode.Idle(s) && s.sendDataCountdown == 80 - t % 80
       case Sleepy(_, _, s) => SleepyRuns.Settled(s)
  }

  ghost predicate RegisteredAged(w: World, eui: Eui64, age: nat)
    requires SinkTable.Shaped(w.sink)
  {
    SinkRuns.View(w.sink, eui).Present? && SinkRuns.View(w.sink, eui).age == age
  }

  function QuietTick(id: NodeId): Action {
    LineTicks(id, SensorNode.TickInput(false, true, true, Submitted))
  }

  function QuietWake(id: NodeId): Action {
    SleepyWakes(id, SleepySensor.WakeInput(80, false, true, true, Submitted, true))
  }

  /**
   One more tick of the sink, and of the node if it is line-powered. At every 80th one the node's data
   goes out, from a sleepy node that slept meanwhile, and reaches the sink, once.
   */
  function ThenRound(actions: seq<Action>, id: NodeId, eui: Eui64, line: bool, t: nat): seq<Action> {
    var ticked := actions + [SinkTicks(false)];
    var served := if line then ticked + [QuietTick(id)] else if t % 80 == 0 then ticked + [QuietWake(id)] else ticked;
    if t % 80 == 0 then served + [SinkGetsData(id, eui)] else served
  }

  function ThenReports(actions: seq<Action>, id: NodeId, eui: Eui64, line: bool, n: nat): seq<Action> {
    if n == 0 then actions else ThenRound(ThenReports(actions, id, eui, line, n - 1), id, eui, line, n)
  }

  lemma SinkTicksBy(w: World, self: Advert, id: NodeId, eui: Eui64, t: nat, age: nat)
    requires Inv(w, self) && Reporting(w, id, t) && RegisteredAged(w, eui, age) && age < 240
    ensures Reporting(Act(w, SinkTicks(false), self), id, t)
    ensures RegisteredAged(Act(w, SinkTicks(false), self), eui, age + 1)
  {
    SinkRuns.TickRefines(w.sink, eui);
  }

  lemma LineReportsOn(w: World, self: Advert, id: NodeId, t: nat)
    requires Inv(w, self) && IsLine(w, id) && Reporting(w, id, t)
    ensures Reporting(Act(w, QuietTick(id), self), id, t + 1) && Act(w, QuietTick(id), self).sink == w.sink
    ensures (t + 1) % 80 == 0 <==> LineReportsNow(w, QuietTick(id), self, id)
    ensures (t + 1) % 80 == 0 ==> DataMsg(id, w.nodes[id].eui) in Act(w, QuietTick(id), self).sent
  {
    assert Faithful(w, id, self);
    var s, tick := w.nodes[id].line, QuietTick(id).tick;
    SensorRuns.SinkKeptIff(s, SensorRuns.Ticked(tick));
    SensorRuns.StepKeepsValid(s, SensorRuns.Ticked(tick));
    SensorRuns.CountdownStep(s, SensorRuns.Ticked(tick));
    DataSentIff(w, QuietTick(id), self, id);
  }

  lemma SleepyReportsOn(w: World, self: Advert, id: NodeId, t: nat)
    requires Inv(w, self) && IsSleepy(w, id) && Reporting(w, id, t)
    ensures Reporting(Act(w, QuietWake(id), self), id, t) && Act(w, QuietWake(id), self).sink == w.sink
    ensures SleepyReportsNow(w, QuietWake(id), id)
    ensures DataMsg(id, w.nodes[id].eui) in Act(w, QuietWake(id), self).sent
  {
    assert Faithful(w, id, self);
    var s, wake := w.nodes[id].sleepy, QuietWake(id).wake;
    SleepyRuns.SinkKeptIff(s, SleepyRuns.Woken(wake));
    SleepyRuns.SettledStep(s, SleepyRuns.Woken(wake));
    assert SleepyRuns.Waits(s) == [];
    DataSentIff(w, QuietWake(id), self, id);
  }

  lemma DataArrives(w: World, self: Advert, id: NodeId, eui: Eui64, t: nat, age: nat)
    requires Inv(w, self) && Reporting(w, id, t) && RegisteredAged(w, eui, age) && DataMsg(id, eui) in w.sent
    ensures Reporting(Act(w, SinkGetsData(id, eui), self), id, t)
    ensures RegisteredAged(Act(w, SinkGetsData(id, eui), self), eui, 0)
  {
    SinkRuns.DataRefines(w.sink, eui, eui);
  }

  lemma StillRegistered(w: World, actions: seq<Action>, a: Action, self: Advert, eui: Eui64, k: nat)
    requires Inv(w, self) && k <= |actions| && RegisteredFrom(w, actions, self, eui, k)
    requires Enabled(After(w, actions, self), a)
    requires SinkRuns.View(Act(After(w, actions, self), a, self).sink, eui).Present?
    ensures After(w, actions + [a], self) == Act(After(w, actions, self), a, self)
    ensures RegisteredFrom(w, actions + [a], self, eui, k)
  {
    var all := actions + [a];
    AfterSnoc(w, actions, a, self);
    assert all[..|all| - 1] == actions && all[..|all|] == all;
    RegisteredFromSnoc(w, all, self, eui, k);
  }

  /** After the run the node reports and is registered, as it was ever since action `k`. */
  ghost predicate OnTrack(
    w: World, actions: seq<Action>, self: Advert, id: NodeId, eui: Eui64, k: nat, t: nat, age: nat)
    requires Inv(w, self)
  {
    var w' := After(w, actions, self);
    && Reporting(w', id, t) && w'.nodes[id].eui == eui && RegisteredAged(w', eui, age)
    && k <= |actions| && RegisteredFrom(w, actions, self, eui, k)
  }

  lemma TrackTick(
    w: World, actions: seq<Action>, self: Advert, id: NodeId, eui: Eui64, k: nat, t: nat, age: nat)
    requires Inv(w, self) && OnTrack(w, actions, self, id, eui, k, t, age) && age < 240
    ensures OnTrack(w, actions + [SinkTicks(false)], self, id, eui, k, t, age + 1)
    ensures After(w, actions + [SinkTicks(false)], self).nodes == After(w, actions, self).nodes
  {
    SinkTicksBy(After(w, actions, self), self, id, eui, t, age);
    StillRegistered(w, actions, SinkTicks(false), self, eui, k);
  }

  lemma TrackLine(
    w: World, actions: seq<Action>, self: Advert, id: NodeId, eui: Eui64, k: nat, t: nat, age: nat)
    requires Inv(w, self) && OnTrack(w, actions, self, id, eui, k, t, age) && IsLine(After(w, actions, self), id)
    ensures OnTrack(w, actions + [QuietTick(id)], self, id, eui, k, t + 1, age)
    ensures (t + 1) % 80 == 0 ==> DataMsg(id, eui) in After(w, actions + [QuietTick(id)], self).sent
  {
    LineReportsOn(After(w, actions, self), self, id, t);
    StillRegistered(w, actions, QuietTick(id), self, eui, k);
  }

  lemma TrackSleepy(
    w: World, actions: seq<Action>, self: Advert, id: NodeId, eui: Eui64, k: nat, t: nat, age: nat)
    requires Inv(w, self) && OnTrack(w, actions, self, id, eui, k, t, age) && IsSleepy(After(w, actions, self), id)
    ensures OnTrack(w, actions + [QuietWake(id)], self, id, eui, k, t, age)
    ensures DataMsg(id, eui) in After(w, actions + [QuietWake(id)], self).sent
  {
    SleepyReportsOn(After(w, actions, self), self, id, t);
    StillRegistered(w, actions, QuietWake(id), self, eui, k);
  }

  lemma TrackData(
    w: World, actions: seq<Action>, self: Advert, id: NodeId, eui: Eui64, k: nat, t: nat, age: nat)
    requires Inv(w, self) && OnTrack(w, actions, self, id, eui, k, t, age)
    requires DataMsg(id, eui) in After(w, actions, self).sent
    ensures OnTrack(w, actions + [SinkGetsData(id, eui)], self, id, eui, k, t, 0)
  {
    DataArrives(After(w, actions, self), self, id, eui, t, age);
    StillRegistered(w, actions, SinkGetsData(id, eui), self, eui, k);
  }

  lemma TrackLineRound(w: World, actions: seq<Action>, self: Advert, id: NodeId, eui: Eui64, k: nat, t: nat)
    requires Inv(w, self) && OnTrack(w, actions, self, id, eui, k, t, t % 80) && IsLine(After(w, actions, self), id)
    ensures OnTrack(w, ThenRound(actions, id, eui, true, t + 1), self, id, eui, k, t + 1, (t + 1) % 80)
  {
    hide OnTrack, After;
    var ticked := actions + [SinkTicks(false)];
    TrackTick(w, actions, self, id, eui, k, t, t % 80);
    TrackLine(w, ticked, self, id, eui, k, t, t % 80 + 1);
    if (t + 1) % 80 == 0 {
      TrackData(w, ticked + [QuietTick(id)], self, id, eui, k, t + 1, t % 80 + 1);
    }
  }

  /** When a sleepy node sends next is its own affair. */
  lemma TrackAnyTime(
    w: World, actions: seq<Action>, self: Advert, id: NodeId, eui: Eui64, k: nat, t: nat, t': nat, age: nat)
    requires Inv(w, self) && OnTrack(w, actions, self, id, eui, k, t, age) && IsSleepy(After(w, actions, self), id)
    ensures OnTrack(w, actions, self, id, eui, k, t', age)
  {
  }

  lemma TrackSleepyRound(w: World, actions: seq<Action>, self: Advert, id: NodeId, eui: Eui64, k: nat, t: nat)
    requires Inv(w, self) && OnTrack(w, actions, self, id, eui, k, t, t % 80) && IsSleepy(After(w, actions, self), id)
    ensures OnTrack(w, ThenRound(actions, id, eui, false, t + 1), self, id, eui, k, t + 1, (t + 1) % 80)
  {
    hide OnTrack, After;
    var ticked := actions + [SinkTicks(false)];
    TrackTick(w, actions, self, id, eui, k, t, t % 80);
    TrackAnyTime(w, ticked, self, id, eui, k, t, t + 1, t % 80 + 1);
    if (t + 1) % 80 == 0 {
      TrackSleepy(w, ticked, self, id, eui, k, t + 1, t % 80 + 1);
      TrackData(w, ticked + [QuietWake(id)], self, id, eui, k, t + 1, t % 80 + 1);
    }
  }

  /** The node reports every 80 ticks, and the sink has it registered all the time. */
  lemma {:induction false} ReportsKeepRegistered(
    w: World, actions: seq<Action>, self: Advert, id: NodeId, eui: Eui64, line: bool, n: nat)
    requires Inv(w, self) && OnTrack(w, actions, self, id, eui, |actions|, 0, 0)
    requires id in w.nodes && w.nodes[id].Line? == line
    ensures OnTrack(w, ThenReports(actions, id, eui, line, n), self, id, eui, |actions|, n, n % 80)
    decreases n
  {
    hide OnTrack, After, ThenRound;
    if n > 0 {
      var before := ThenReports(actions, id, eui, line, n - 1);
      ReportsKeepRegistered(w, actions, self, id, eui, line, n - 1);
      if line {
        LineRunsEvents(w, before, self, id);
        TrackLineRound(w, before, self, id, eui, |actions|, n - 1);
      } else {
        SleepyRunsEvents(w, before, self, id);
        TrackSleepyRound(w, before, self, id, eui, |actions|, n - 1);
      }
    }
  }

  lemma AttachedIsOnTrack(w: World, actions: seq<Action>, self: Advert, id: NodeId)
    requires Inv(w, self) && id in After(w, actions, self).nodes
    requires After(w, actions, self).nodes[id].HasSink() && Settled(After(w, actions, self).nodes[id])
    requires JustRegistered(After(w, actions, self), After(w, actions, self).nodes[id].eui)
    ensures OnTrack(w, actions, self, id, After(w, actions, self).nodes[id].eui, |actions|, 0, 0)
  {
    assert actions[..|actions|] == actions;
  }

  /**
   From every start, every node can attach and then stay registered for any number `n` of ticks by its
   own data alone, as no SELECT reaches the sink any more.
   */
  lemma DataKeepsRegistered(w: World, self: Advert, id: NodeId, n: nat) returns (actions: seq<Action>)
    requires Start(w) && id in w.nodes
    ensures Inv(w, self)
    ensures var all := ThenReports(actions, id, w.nodes[id].eui, w.nodes[id].Line?, n);
            && OnTrack(w, all, self, id, w.nodes[id].eui, |actions|, n, n % 80)
            && GoesOn(actions, all, n)
  {
    StartInv(w, self);
    actions := EveryNodeCanAttach(w, self, id);
    NodesStay(w, actions, self);
    AttachedIsOnTrack(w, actions, self, id);
    ReportsKeepRegistered(w, actions, self, id, w.nodes[id].eui, w.nodes[id].Line?, n);
    ReportsGoOn(actions, id, w.nodes[id].eui, w.nodes[id].Line?, n);
  }

  function SinkTickCount(actions: seq<Action>): nat {
    if actions == [] then 0
    else SinkTickCount(actions[..|actions| - 1]) + if actions[|actions| - 1].SinkTicks? then 1 else 0
  }

  /** A run goes on with `n` ticks of the sink and no SELECT. */
  ghost predicate GoesOn(actions: seq<Action>, all: seq<Action>, n: nat) {
    && |actions| <= |all| && SinkTickCount(all) == SinkTickCount(actions) + n
    && (forall i :: 0 <= i < |actions| ==> all[i] == actions[i])
    && (forall i :: |actions| <= i < |all| ==> !all[i].SinkGetsSelect?)
  }

  lemma GoesOnSnoc(actions: seq<Action>, all: seq<Action>, n: nat, a: Action)
    requires GoesOn(actions, all, n) && !a.SinkGetsSelect?
    ensures GoesOn(actions, all + [a], if a.SinkTicks? then n + 1 else n)
  {
    assert (all + [a])[..|all|] == all;
  }

  lemma RoundGoesOn(actions: seq<Action>, all: seq<Action>, id: NodeId, eui: Eui64, line: bool, n: nat)
    requires GoesOn(actions, all, n)
    ensures GoesOn(actions, ThenRound(all, id, eui, line, n + 1), n + 1)
  {
    hide GoesOn;
    var ticked := all + [SinkTicks(false)];
    GoesOnSnoc(actions, all, n, SinkTicks(false));
    GoesOnSnoc(actions, ticked, n + 1, QuietTick(id));
    GoesOnSnoc(actions, ticked, n + 1, QuietWake(id));
    GoesOnSnoc(actions, ticked + [QuietTick(id)], n + 1, SinkGetsData(id, eui));
    GoesOnSnoc(actions, ticked + [QuietWake(id)], n + 1, SinkGetsData(id, eui));
  }

  /** These `n` rounds are `n` ticks of the sink, and none of their actions is a SELECT. */
  lemma {:induction false} ReportsGoOn(actions: seq<Action>, id: NodeId, eui: Eui64, line: bool, n: nat)
    ensures GoesOn(actions, ThenReports(actions, id, eui, line, n), n)
    decreases n
  {
    if n > 0 {
      hide GoesOn, ThenRound;
      ReportsGoOn(actions, id, eui, line, n - 1);
      RoundGoesOn(actions, ThenReports(actions, id, eui, line, n - 1), id, eui, line, n - 1);
    }
  }
}
