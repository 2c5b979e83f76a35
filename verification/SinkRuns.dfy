/**
 Runs of the sink: whatever the sensors send, the shared table serves each sensor as if
 it had an expiry timer of its own. The reference definition is `Registration`, the
 state of one sensor's timer, which knows nothing of the other sensors.
 */
module SinkRuns {
  import opened EmberTypes
  import opened SinkTable

  /** What can happen to the address table, the trust center's part of it included. */
  datatype Event =
    | Selected(eui: Eui64, sender: NodeId, resources: Resources)
    | DataFrom(eui: Eui64)
    | Ticked
    | CacheWrite(index: nat, entry: AddressEntry)
  {
    /** Senders have a short id; the trust center keeps to its own entries. */
    predicate Proper() {
      match this
      case Selected(_, sender, _) => sender != UNUSED_NODE_ID
      case CacheWrite(index, _) => SINK_ADDRESS_TABLE_SIZE <= index < ADDRESS_TABLE_SIZE
      case _ => true
    }

    /** The sink hears from `e`. */
    predicate Hears(e: Eui64) {
      (Selected? || DataFrom?) && eui == e
    }
  }

  function Step(s: Sink, event: Event): Sink
    requires Shaped(s) && event.Proper()
  {
    match event
    case Selected(eui, sender, resources) => Select(s, eui, sender, resources)
    case DataFrom(eui) => Data(s, eui)
    case Ticked => Tick(s)
    case CacheWrite(index, entry) => s.(addresses := s.addresses[index := entry])
  }

  // ----- what every step keeps

  ghost predicate Valid(s: Sink) {
    && Shaped(s)
    && (forall i :: 0 <= i < SINK_ADDRESS_TABLE_SIZE ==> s.ticks[i] <= LAST_LIVE_TICK || s.ticks[i] == NOT_TIMED)
    && (forall i :: 0 <= i < SINK_ADDRESS_TABLE_SIZE ==> s.addresses[i].InUse() ==> s.ticks[i] <= LAST_LIVE_TICK)
    && (forall i, j :: 0 <= i < j < SINK_ADDRESS_TABLE_SIZE ==>
          s.addresses[i].InUse() && s.addresses[j].InUse() ==> s.addresses[i].eui != s.addresses[j].eui)
  }

  lemma InitialIsValid(s: Sink)
    requires Initial(s)
    ensures Valid(s) && forall eui :: View(s, eui) == Absent
  {
  }

  /** No event gives two entries the same sensor, leaves one in use untimed, or reaches the cache. */
  lemma StepKeepsValid(s: Sink, event: Event)
    requires Valid(s) && event.Proper()
    ensures Valid(Step(s, event))
    ensures !event.CacheWrite? ==>
              Step(s, event).addresses[SINK_ADDRESS_TABLE_SIZE..] == s.addresses[SINK_ADDRESS_TABLE_SIZE..]
  {
    match event
    case Selected(eui, sender, resources) =>
      SelectKeepsValid(s, eui, sender, resources);
    case _ =>
  }

  lemma SelectKeepsValid(s: Sink, eui: Eui64, sender: NodeId, r: Resources)
    requires Valid(s) && sender != UNUSED_NODE_ID
    ensures Valid(Select(s, eui, sender, r))
    ensures Select(s, eui, sender, r).addresses[SINK_ADDRESS_TABLE_SIZE..] == s.addresses[SINK_ADDRESS_TABLE_SIZE..]
  {
    var known, free := FindEui(s, eui, 0), FindFree(s, 0);
    if known != NULL_ADDRESS_TABLE_INDEX {
      AnswerKeepsValid(s, known, r.buffer);
    } else if free != NULL_ADDRESS_TABLE_INDEX && r.euiSet {
      var stored := s.(addresses := s.addresses[free := AddressEntry(eui, sender)]);
      assert Valid(Restart(stored, free));
      AnswerKeepsValid(Restart(stored, free), free, r.buffer);
      assert Answer(Restart(stored, free), free, r.buffer) == Answer(stored, free, r.buffer);
    }
  }

  lemma AnswerKeepsValid(s: Sink, index: nat, buffer: bool)
    requires Valid(s) && index < SINK_ADDRESS_TABLE_SIZE
    ensures Valid(Answer(s, index, buffer))
  {
  }

  // ----- one sensor's view

  /** A sensor either is not registered, or has an entry with its short id and an age in ticks. */
  datatype Registration = Absent | Present(slot: nat, nodeId: NodeId, age: nat)

  function View(s: Sink, eui: Eui64): Registration
    requires Shaped(s)
  {
    var index := FindEui(s, eui, 0);
    if index == NULL_ADDRESS_TABLE_INDEX then Absent
    else Present(index, s.addresses[index].nodeId, s.ticks[index])
  }

  /**
   What an event means to the sensor `eui` alone; `free` is the entry a new sensor would get.
   A registered sensor keeps its entry and short id, and forgets its age when heard; it is dropped
   by the tick after its 240th silent one, or when the sink has no buffer to answer it.
   */
  function Next(r: Registration, event: Event, eui: Eui64, free: nat): Registration {
    match event
    case Ticked =>
      if r.Absent? then Absent
      else if r.age < LAST_LIVE_TICK then r.(age := r.age + 1)
      else Absent
    case DataFrom(e) =>
      if r.Present? && e == eui then r.(age := 0) else r
    case CacheWrite(_, _) => r
    case Selected(e, sender, resources) =>
      if e != eui then r
      else if r.Present? then (if resources.buffer then r.(age := 0) else Absent)
      else if free != NULL_ADDRESS_TABLE_INDEX && resources.euiSet && resources.buffer then Present(free, sender, 0)
      else Absent
  }

  /** An entry in use for `eui` is the one a search finds. */
  lemma ViewIs(s: Sink, eui: Eui64, i: nat)
    requires Valid(s) && i < SINK_ADDRESS_TABLE_SIZE && s.addresses[i].InUse() && s.addresses[i].eui == eui
    ensures View(s, eui) == Present(i, s.addresses[i].nodeId, s.ticks[i])
  {
    var found := FindEui(s, eui, 0);
    assert s.addresses[found].InUse() && s.addresses[found].eui == eui;
  }

  lemma ViewIsAbsent(s: Sink, eui: Eui64)
    requires Shaped(s)
    requires forall i :: 0 <= i < SINK_ADDRESS_TABLE_SIZE ==> s.addresses[i].InUse() ==> s.addresses[i].eui != eui
    ensures View(s, eui) == Absent
  {
  }

  lemma TickRefines(s: Sink, eui: Eui64)
    requires Valid(s)
    ensures View(Tick(s), eui) == Next(View(s, eui), Ticked, eui, FindFree(s, 0))
  {
    StepKeepsValid(s, Ticked);
    var i, s' := FindEui(s, eui, 0), Tick(s);
    if i != NULL_ADDRESS_TABLE_INDEX && s.ticks[i] < LAST_LIVE_TICK {
      ViewIs(s', eui, i);
    } else {
      forall k | 0 <= k < SINK_ADDRESS_TABLE_SIZE && s'.addresses[k].InUse() ensures s'.addresses[k].eui != eui {
        assert s.addresses[k].InUse() && s.addresses[k].eui == s'.addresses[k].eui;
        if k != i && i != NULL_ADDRESS_TABLE_INDEX {
          assert s.addresses[i].InUse();
        }
      }
      ViewIsAbsent(s', eui);
    }
  }

  lemma DataRefines(s: Sink, eui: Eui64, heard: Eui64)
    requires Valid(s)
    ensures View(Data(s, heard), eui) == Next(View(s, eui), DataFrom(heard), eui, FindFree(s, 0))
  {
    StepKeepsValid(s, DataFrom(heard));
    var i, s' := FindEui(s, eui, 0), Data(s, heard);
    if i != NULL_ADDRESS_TABLE_INDEX {
      ViewIs(s', eui, i);
    } else {
      ViewIsAbsent(s', eui);
    }
  }

  lemma SelectRefinesOther(s: Sink, eui: Eui64, heard: Eui64, sender: NodeId, r: Resources)
    requires Valid(s) && sender != UNUSED_NODE_ID && heard != eui
    ensures View(Select(s, heard, sender, r), eui) == View(s, eui)
  {
    SelectKeepsValid(s, heard, sender, r);
    var i, s' := FindEui(s, eui, 0), Select(s, heard, sender, r);
    if i != NULL_ADDRESS_TABLE_INDEX {
      ViewIs(s', eui, i);
    } else {
      ViewIsAbsent(s', eui);
    }
  }

  lemma SelectRefinesSame(s: Sink, eui: Eui64, sender: NodeId, r: Resources)
    requires Valid(s) && sender != UNUSED_NODE_ID
    ensures View(Select(s, eui, sender, r), eui)
            == Next(View(s, eui), Selected(eui, sender, r), eui, FindFree(s, 0))
    ensures View(Select(s, eui, sender, r), eui).Present? <==> Replies(s, eui, r)
  {
    SelectKeepsValid(s, eui, sender, r);
    var known, free, s' := FindEui(s, eui, 0), FindFree(s, 0), Select(s, eui, sender, r);
    if known != NULL_ADDRESS_TABLE_INDEX {
      if r.buffer {
        ViewIs(s', eui, known);
      } else {
        forall k | 0 <= k < SINK_ADDRESS_TABLE_SIZE && s'.addresses[k].InUse() ensures s'.addresses[k].eui != eui {
          assert k != known && s.addresses[k].InUse() && s.addresses[known].InUse();
        }
        ViewIsAbsent(s', eui);
      }
    } else if free != NULL_ADDRESS_TABLE_INDEX && r.euiSet && r.buffer {
      ViewIs(s', eui, free);
    } else {
      ViewIsAbsent(s', eui);
    }
  }

  /** A new sensor is taken on exactly if one of the 15 entries is free and the stack has both resources. */
  lemma NewSensorIff(s: Sink, eui: Eui64, sender: NodeId, r: Resources)
    requires Valid(s) && sender != UNUSED_NODE_ID && View(s, eui).Absent?
    ensures View(Select(s, eui, sender, r), eui).Present?
            <==> r.euiSet && r.buffer && exists i :: 0 <= i < 15 && !s.addresses[i].InUse()
  {
    SelectRefinesSame(s, eui, sender, r);
  }

  /** Every event moves every sensor's view of the shared table like a timer of its own. */
  lemma StepRefinesNext(s: Sink, event: Event, eui: Eui64)
    requires Valid(s) && event.Proper()
    ensures View(Step(s, event), eui) == Next(View(s, eui), event, eui, FindFree(s, 0))
  {
    match event
    case Selected(heard, sender, r) =>
      if heard == eui {
        SelectRefinesSame(s, eui, sender, r);
      } else {
        SelectRefinesOther(s, eui, heard, sender, r);
      }
    case DataFrom(heard) => DataRefines(s, eui, heard);
    case Ticked => TickRefines(s, eui);
    case CacheWrite(index, entry) =>
      var i, s' := FindEui(s, eui, 0), Step(s, event);
      if i != NULL_ADDRESS_TABLE_INDEX {
        ViewIs(s', eui, i);
      } else {
        ViewIsAbsent(s', eui);
      }
  }

  // ----- runs

  ghost predicate AllProper(events: seq<Event>) {
    forall e :: e in events ==> e.Proper()
  }

  ghost function Run(s: Sink, events: seq<Event>): (s': Sink)
    requires Valid(s) && AllProper(events)
    ensures Valid(s')
    decreases |events|
  {
    if events == [] then s
    else
      assert events[0] in events;
      StepKeepsValid(s, events[0]);
      Run(Step(s, events[0]), events[1..])
  }

  function TickCount(events: seq<Event>): nat {
    if events == [] then 0 else (if events[0].Ticked? then 1 else 0) + TickCount(events[1..])
  }

  /** The registration of a sensor that was not heard for `silent` more ticks. */
  function Aged(r: Registration, silent: nat): Registration {
    if r.Absent? || r.age + silent > LAST_LIVE_TICK then Absent else r.(age := r.age + silent)
  }

  lemma SilentStep(s: Sink, event: Event, eui: Eui64)
    requires Valid(s) && event.Proper() && !event.Hears(eui)
    ensures Valid(Step(s, event))
    ensures View(Step(s, event), eui) == Aged(View(s, eui), if event.Ticked? then 1 else 0)
  {
    StepKeepsValid(s, event);
    StepRefinesNext(s, event, eui);
  }

  /** The sink after `n` ticks and nothing else. */
  ghost function TickedFor(s: Sink, n: nat): (s': Sink)
    requires Valid(s)
    ensures Valid(s')
  {
    if n == 0 then s
    else
      StepKeepsValid(TickedFor(s, n - 1), Ticked);
      Tick(TickedFor(s, n - 1))
  }

  lemma NotYetAged(s: Sink, eui: Eui64)
    requires Valid(s)
    ensures Aged(View(s, eui), 0) == View(s, eui)
  {
  }

  lemma TickAges(s: Sink, eui: Eui64, r: Registration, n: nat)
    requires Valid(s) && View(s, eui) == Aged(r, n)
    ensures View(Tick(s), eui) == Aged(r, n + 1)
  {
    TickRefines(s, eui);
  }

  lemma {:induction false} TickedForAges(s: Sink, n: nat, eui: Eui64)
    requires Valid(s)
    ensures View(TickedFor(s, n), eui) == Aged(View(s, eui), n)
  {
    if n == 0 {
      NotYetAged(s, eui);
    } else {
      var before, r := TickedFor(s, n - 1), View(s, eui);
      assert View(before, eui) == Aged(r, n - 1) by {
        TickedForAges(s, n - 1, eui);
      }
      TickAges(before, eui, r, n - 1);
    }
  }

  lemma LongSilence(s: Sink, n: nat, eui: Eui64)
    requires Valid(s) && LAST_LIVE_TICK < n
    ensures View(TickedFor(s, n), eui).Absent?
  {
    TickedForAges(s, n, eui);
  }

  /**
   Expiry is exact: over a run in which the sink does not hear a registered sensor, the sensor is
   dropped by the tick that brings its age past 240, and not before; a dropped one stays dropped.
   */
  lemma {:induction false} SilentRun(s: Sink, events: seq<Event>, eui: Eui64)
    requires Valid(s) && AllProper(events)
    requires forall e :: e in events ==> !e.Hears(eui)
    ensures View(Run(s, events), eui) == Aged(View(s, eui), TickCount(events))
    decreases |events|
  {
    if events != [] {
      assert events[0] in events;
      SilentStep(s, events[0], eui);
      assert forall e :: e in events[1..] ==> e in events;
      SilentRun(Step(s, events[0]), events[1..], eui);
    } else {
      NotYetAged(s, eui);
    }
  }

  /** Heard often enough: never more than 240 ticks apart, and never left without an answer buffer. */
  predicate KeepsAlive(events: seq<Event>, eui: Eui64, age: nat)
    decreases |events|
  {
    events == [] ||
    match events[0]
    case Ticked => age < LAST_LIVE_TICK && KeepsAlive(events[1..], eui, age + 1)
    case DataFrom(e) => KeepsAlive(events[1..], eui, if e == eui then 0 else age)
    case Selected(e, _, resources) =>
      (e == eui ==> resources.buffer) && KeepsAlive(events[1..], eui, if e == eui then 0 else age)
    case CacheWrite(_, _) => KeepsAlive(events[1..], eui, age)
  }

  /** The sensor is registered in the same entry in every state of the run. */
  ghost predicate StaysAt(s: Sink, events: seq<Event>, eui: Eui64, slot: nat, nodeId: NodeId)
    requires Valid(s) && AllProper(events)
    decreases |events|
  {
    && View(s, eui).Present? && View(s, eui).slot == slot && View(s, eui).nodeId == nodeId
    && (events == [] ||
        (assert events[0] in events;
         StepKeepsValid(s, events[0]);
         StaysAt(Step(s, events[0]), events[1..], eui, slot, nodeId)))
  }

  /** One event of a run: the registration survives it and the rest of the run keeps it alive. */
  lemma KeepsAliveStep(events: seq<Event>, eui: Eui64, r: Registration, free: nat)
    requires events != [] && r.Present?
    ensures var r' := Next(r, events[0], eui, free);
            && (r'.Present? ==> r'.slot == r.slot && r'.nodeId == r.nodeId)
            && (KeepsAlive(events, eui, r.age) <==> r'.Present? && KeepsAlive(events[1..], eui, r'.age))
  {
  }

  /** A registered sensor keeps its entry through a whole run exactly if it is heard often enough. */
  lemma {:induction false} StaysAtIffKeepsAlive(s: Sink, events: seq<Event>, eui: Eui64)
    requires Valid(s) && AllProper(events) && View(s, eui).Present?
    ensures StaysAt(s, events, eui, View(s, eui).slot, View(s, eui).nodeId)
            <==> KeepsAlive(events, eui, View(s, eui).age)
    decreases |events|
  {
    if events != [] {
      assert events[0] in events;
      StepKeepsValid(s, events[0]);
      StepRefinesNext(s, events[0], eui);
      KeepsAliveStep(events, eui, View(s, eui), FindFree(s, 0));
      assert forall e :: e in events[1..] ==> e in events;
      if View(Step(s, events[0]), eui).Present? {
        StaysAtIffKeepsAlive(Step(s, events[0]), events[1..], eui);
      }
    }
  }

  lemma ProperSnoc(events: seq<Event>, event: Event)
    requires AllProper(events) && event.Proper()
    ensures AllProper(events + [event])
  {
  }

  /** One more event: the run ends in what it makes of the state before. */
  lemma {:induction false} RunSnoc(s: Sink, events: seq<Event>, event: Event)
    requires Valid(s) && AllProper(events) && event.Proper()
    ensures AllProper(events + [event])
    ensures Run(s, events + [event]) == Step(Run(s, events), event)
    decreases |events|
  {
    ProperSnoc(events, event);
    var all := events + [event];
    if events == [] {
      assert all[1..] == [];
    } else {
      assert events[0] in events;
      StepKeepsValid(s, events[0]);
      assert forall e :: e in events[1..] ==> e in events;
      assert all[1..] == events[1..] + [event];
      RunSnoc(Step(s, events[0]), events[1..], event);
    }
  }

  /** So the registration lasts if it lasted until then and is still there. */
  lemma {:induction false} StaysAtSnoc(s: Sink, events: seq<Event>, event: Event, eui: Eui64, slot: nat, nodeId: NodeId)
    requires Valid(s) && AllProper(events) && event.Proper() && AllProper(events + [event])
    ensures StaysAt(s, events + [event], eui, slot, nodeId)
            <==> StaysAt(s, events, eui, slot, nodeId) && View(Step(Run(s, events), event), eui).Present?
    decreases |events|
  {
    var all := events + [event];
    if events == [] {
      StepKeepsValid(s, event);
      StepRefinesNext(s, event, eui);
      assert all[1..] == [];
    } else {
      assert events[0] in events;
      StepKeepsValid(s, events[0]);
      assert forall e :: e in events[1..] ==> e in events;
      assert all[1..] == events[1..] + [event];
      ProperSnoc(events[1..], event);
      StaysAtSnoc(Step(s, events[0]), events[1..], event, eui, slot, nodeId);
    }
  }

  /** Heard often enough so far, and still registered after one more event, is heard often enough. */
  lemma KeepsAliveSnoc(s: Sink, events: seq<Event>, event: Event, eui: Eui64)
    requires Valid(s) && AllProper(events) && event.Proper() && View(s, eui).Present?
    ensures KeepsAlive(events + [event], eui, View(s, eui).age)
            <==> KeepsAlive(events, eui, View(s, eui).age) && View(Step(Run(s, events), event), eui).Present?
  {
    ProperSnoc(events, event);
    StaysAtIffKeepsAlive(s, events, eui);
    StaysAtIffKeepsAlive(s, events + [event], eui);
    StaysAtSnoc(s, events, event, eui, View(s, eui).slot, View(s, eui).nodeId);
  }
}
