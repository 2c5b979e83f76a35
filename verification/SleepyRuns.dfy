/**
 Runs of a sleepy sensor: despite the truncated and shared amount, every armed timer goes
 down with every run of the event handler, none below zero, and no wait lasts for ever.
 */
module SleepyRuns {
  import opened EmberTypes
  import opened SinkLinks
  import opened SleepySensor

  /** Armed timers are positive and within their range. */
  predicate Valid(s: Sleepy) {
    && (s.waitingForSinkAdv ==> 1 <= s.timeToWaitForSinkAdv <= TIME_TO_WAIT_FOR_SINK_ADVERTISE)
    && (s.waitingForSinkReady ==> 1 <= s.timeToWaitForSinkReady <= SLEEPY_TIME_TO_WAIT_FOR_SINK_READY)
    && 1 <= s.sendDataCountdown <= SEND_DATA_RATE
    && s.link.failed < MISS_PACKET_TOLERANCE
  }

  lemma InitialIsValid(sink: Advert)
    ensures Valid(Initial(sink))
    ensures !Initial(sink).link.found && Initial(sink).link.failed == 0 && Waits(Initial(sink)) == []
  {
  }

  /** The least of an amount and the timers it is taken from. */
  function Least(q: int, timers: seq<int>): int
    decreases |timers|
  {
    if timers == [] then q else Least(if timers[0] < q then timers[0] else q, timers[1..])
  }

  function Armed(armed: bool, timer: int): seq<int> {
    if armed then [timer] else []
  }

  /** The timers of the two waits that are armed, in the order they are served. */
  function Waits(s: Sleepy): seq<int> {
    Armed(s.waitingForSinkAdv, s.timeToWaitForSinkAdv) + Armed(s.waitingForSinkReady, s.timeToWaitForSinkReady)
  }

  lemma AmountsAreLeast(s: Sleepy, q: Byte)
    ensures AdvAmount(s, q) == Least(q, Armed(s.waitingForSinkAdv, s.timeToWaitForSinkAdv))
    ensures ReadyAmount(s, AdvAmount(s, q)) == Least(q, Waits(s))
    ensures Clamp(ReadyAmount(s, AdvAmount(s, q)), s.sendDataCountdown) == Least(q, Waits(s) + [s.sendDataCountdown])
  {
    var adv, ready := Armed(s.waitingForSinkAdv, s.timeToWaitForSinkAdv),
                      Armed(s.waitingForSinkReady, s.timeToWaitForSinkReady);
    var q1 := AdvAmount(s, q);
    LeastOfOne(q, s.timeToWaitForSinkAdv);
    LeastOfOne(q1, s.timeToWaitForSinkReady);
    LeastOfOne(ReadyAmount(s, q1), s.sendDataCountdown);
    LeastConcat(q, adv, ready);
    LeastConcat(q, Waits(s), [s.sendDataCountdown]);
  }

  lemma WaitsKeepValid(s: Sleepy, q: Byte)
    requires Valid(s) && 1 <= q
    ensures 1 <= AdvAmount(s, q) && Valid(AdvTick(s, AdvAmount(s, q)))
    ensures 1 <= ReadyAmount(s, q) && Valid(ReadyTick(s, ReadyAmount(s, q)))
  {
  }

  lemma DataTickKeepsValid(s: Sleepy, q: Byte, input: WakeInput)
    requires Valid(s) && 1 <= q
    ensures Valid(DataTick(s, q, input))
  {
  }

  /** A run of the event handler may cost the sink, but never finds or changes one. */
  lemma WakeKeepsSink(s: Sleepy, input: WakeInput)
    ensures Wake(s, input).sink == s.sink
    ensures Wake(s, input).link.found ==> s.link.found
  {
  }

  lemma WakeKeepsValid(s: Sleepy, input: WakeInput)
    requires Valid(s)
    ensures Valid(Wake(s, input))
  {
    var s0, q0 := OnLeave(s, input.leavePressed), Elapsed(input.elapsed);
    WaitsKeepValid(s0, q0);
    var s1, q1 := AdvTick(s0, AdvAmount(s0, q0)), AdvAmount(s0, q0);
    WaitsKeepValid(s1, q1);
    var s2 := AfterWaits(s, input);
    assert Valid(s2);
    if s2.link.found {
      assert DataAmount(s, input) == ReadyAmount(s1, q1);
      DataTickKeepsValid(s2, DataAmount(s, input), input);
    }
  }

  /** The time one run of the event handler takes off: a byte of what has elapsed, but at least one. */
  function QuarterSeconds(input: WakeInput): int {
    if input.elapsed % 0x100 == 0 then 1 else input.elapsed % 0x100
  }

  /** The two waits, served in order, and what is left for the data countdown. */
  lemma WaitsAreServed(s: Sleepy, input: WakeInput)
    requires Valid(s)
    ensures var q, after := QuarterSeconds(input), AfterWaits(s, input);
            && after.link == (if input.leavePressed then SinkLink(false, 0) else s.link)
            && after.sendDataCountdown == s.sendDataCountdown && after.waitingForDataAck == s.waitingForDataAck
            && (after.waitingForSinkAdv <==> s.waitingForSinkAdv && q < s.timeToWaitForSinkAdv)
            && (s.waitingForSinkAdv ==>
                  after.timeToWaitForSinkAdv == s.timeToWaitForSinkAdv - Least(q, [s.timeToWaitForSinkAdv]))
            && (after.waitingForSinkReady
                <==> s.waitingForSinkReady && Least(q, Waits(s)) < s.timeToWaitForSinkReady)
            && (s.waitingForSinkReady ==>
                  after.timeToWaitForSinkReady == s.timeToWaitForSinkReady - Least(q, Waits(s)))
            && DataAmount(s, input) == Least(q, Waits(s)) >= 1
  {
    var q := QuarterSeconds(input);
    assert Elapsed(input.elapsed) == q;
    AmountsAreLeast(s, q);
    LeastOfOne(q, s.timeToWaitForSinkAdv);
    LeastOfOne(AdvAmount(s, q), s.timeToWaitForSinkReady);
  }

  lemma DataTickKeepsWaits(s: Sleepy, q: Byte, input: WakeInput)
    ensures var s' := DataTick(s, q, input);
            && s'.waitingForSinkReady == s.waitingForSinkReady && s'.timeToWaitForSinkReady == s.timeToWaitForSinkReady
            && s'.waitingForSinkAdv == s.waitingForSinkAdv && s'.timeToWaitForSinkAdv == s.timeToWaitForSinkAdv
            && s'.sink == s.sink
  {
  }

  /** After the waits a run of the handler touches the wait for an advertisement only to ask for one. */
  lemma WakeAfterWaits(s: Sleepy, input: WakeInput)
    ensures var after := AfterWaits(s, input);
            && Wake(s, input).waitingForSinkReady == after.waitingForSinkReady
            && Wake(s, input).timeToWaitForSinkReady == after.timeToWaitForSinkReady
            && (Wake(s, input).waitingForSinkAdv <==> after.waitingForSinkAdv || Queries(after, input))
            && Wake(s, input).timeToWaitForSinkAdv == if Queries(after, input) then 40 else after.timeToWaitForSinkAdv
  {
    DataTickKeepsWaits(AfterWaits(s, input), DataAmount(s, input), input);
  }

  lemma WakeServesData(s: Sleepy, input: WakeInput)
    requires Valid(s) && s.link.found && !input.leavePressed
    ensures var left := s.sendDataCountdown - Least(QuarterSeconds(input), Waits(s) + [s.sendDataCountdown]);
            && 0 <= left < s.sendDataCountdown
            && Wake(s, input).sendDataCountdown == if left > 0 then left else SEND_DATA_RATE
  {
    WaitsAreServed(s, input);
    LeastConcat(QuarterSeconds(input), Waits(s), [s.sendDataCountdown]);
    LeastOfOne(DataAmount(s, input), s.sendDataCountdown);
  }

  /**
   One run of the event handler takes off each armed timer the least of the elapsed time (one byte
   of it, at least one) and the armed timers served so far, itself included; so every armed timer
   goes down, and stays armed exactly if it is not used up.
   */
  lemma WakeServesTimers(s: Sleepy, input: WakeInput)
    requires Valid(s)
    ensures s.waitingForSinkAdv ==>
              var q := if input.elapsed % 0x100 == 0 then 1 else input.elapsed % 0x100;
              var left := s.timeToWaitForSinkAdv - Least(q, [s.timeToWaitForSinkAdv]);
              && 0 <= left < s.timeToWaitForSinkAdv
              && AfterWaits(s, input).timeToWaitForSinkAdv == left
              && (AfterWaits(s, input).waitingForSinkAdv <==> left > 0)
              && (left > 0 ==> Wake(s, input).waitingForSinkAdv && Wake(s, input).timeToWaitForSinkAdv == left)
    ensures s.waitingForSinkReady ==>
              var q := if input.elapsed % 0x100 == 0 then 1 else input.elapsed % 0x100;
              var left := s.timeToWaitForSinkReady - Least(q, Waits(s));
              && 0 <= left < s.timeToWaitForSinkReady
              && Wake(s, input).timeToWaitForSinkReady == left && (Wake(s, input).waitingForSinkReady <==> left > 0)
    ensures s.link.found && !input.leavePressed ==>
              var q := if input.elapsed % 0x100 == 0 then 1 else input.elapsed % 0x100;
              var left := s.sendDataCountdown - Least(q, Waits(s) + [s.sendDataCountdown]);
              && 0 <= left < s.sendDataCountdown
              && Wake(s, input).sendDataCountdown == if left > 0 then left else SEND_DATA_RATE
  {
    WaitsAreServed(s, input);
    WakeAfterWaits(s, input);
    LeastOfOne(QuarterSeconds(input), s.timeToWaitForSinkAdv);
    if s.link.found && !input.leavePressed {
      WakeServesData(s, input);
    }
  }

  lemma LeastOfOne(q: int, timer: int)
    ensures Least(q, [timer]) == if timer < q then timer else q
  {
    assert [timer][1..] == [];
  }

  lemma {:induction false} LeastConcat(q: int, a: seq<int>, b: seq<int>)
    ensures Least(q, a + b) == Least(Least(q, a), b)
    decreases |a|
  {
    if a == [] {
      assert a + b == b;
    } else {
      assert (a + b)[1..] == a[1..] + b;
      LeastConcat(if a[0] < q then a[0] else q, a[1..], b);
    }
  }

  // ----- runs

  datatype Event =
    | Advertised(advert: Advert, euiSet: bool, buffer: bool)
    | ReadyArrived(mobile: bool)
    | DataReported(delivered: bool)
    | NetworkDown
    | Woken(input: WakeInput)

  function Step(s: Sleepy, event: Event): Sleepy {
    match event
    case Advertised(advert, euiSet, buffer) => OnAdvertise(s, advert, euiSet, buffer)
    case ReadyArrived(mobile) => OnReady(s, mobile)
    case DataReported(delivered) => OnDataSent(s, delivered)
    case NetworkDown => OnNetworkDown(s)
    case Woken(input) => Wake(s, input)
  }

  /**
   Every event keeps the timers in range. While a wait goes on, a run of the event handler brings
   its timer down and nothing else moves it.
   */
  lemma StepKeepsValid(s: Sleepy, event: Event)
    requires Valid(s)
    ensures Valid(Step(s, event))
    ensures s.waitingForSinkReady && Step(s, event).waitingForSinkReady ==>
              if event.Woken? then Step(s, event).timeToWaitForSinkReady < s.timeToWaitForSinkReady
              else Step(s, event).timeToWaitForSinkReady == s.timeToWaitForSinkReady
    ensures s.waitingForSinkAdv && Step(s, event).waitingForSinkAdv && !Requeries(s, event) ==>
              if event.Woken? then Step(s, event).timeToWaitForSinkAdv < s.timeToWaitForSinkAdv
              else Step(s, event).timeToWaitForSinkAdv == s.timeToWaitForSinkAdv
  {
    if event.Woken? {
      WakeKeepsValid(s, event.input);
      WakeServesTimers(s, event.input);
    }
  }

  /** The wait for an advertisement runs out and the parent is asked again at once. */
  predicate Requeries(s: Sleepy, event: Event) {
    event.Woken? && s.waitingForSinkAdv && Queries(AfterWaits(s, event.input), event.input)
  }

  function WakeCount(events: seq<Event>): nat {
    if events == [] then 0 else (if events[0].Woken? then 1 else 0) + WakeCount(events[1..])
  }

  /** In some state of the run no READY is being waited for. */
  predicate PassesReadyWait(s: Sleepy, events: seq<Event>)
    decreases |events|
  {
    !s.waitingForSinkReady || (events != [] && PassesReadyWait(Step(s, events[0]), events[1..]))
  }

  /** At some point of the run the wait for an advertisement is over, or the parent is asked again. */
  predicate PassesAdvWait(s: Sleepy, events: seq<Event>)
    decreases |events|
  {
    || !s.waitingForSinkAdv
    || (events != [] && (Requeries(s, events[0]) || PassesAdvWait(Step(s, events[0]), events[1..])))
  }

  lemma {:induction false} ReadyWaitEnds(s: Sleepy, events: seq<Event>)
    requires Valid(s) && (s.waitingForSinkReady ==> s.timeToWaitForSinkReady <= WakeCount(events))
    ensures PassesReadyWait(s, events)
    decreases |events|
  {
    if s.waitingForSinkReady {
      StepKeepsValid(s, events[0]);
      ReadyWaitEnds(Step(s, events[0]), events[1..]);
    }
  }

  lemma {:induction false} AdvWaitEnds(s: Sleepy, events: seq<Event>)
    requires Valid(s) && (s.waitingForSinkAdv ==> s.timeToWaitForSinkAdv <= WakeCount(events))
    ensures PassesAdvWait(s, events)
    decreases |events|
  {
    if s.waitingForSinkAdv && !Requeries(s, events[0]) {
      StepKeepsValid(s, events[0]);
      AdvWaitEnds(Step(s, events[0]), events[1..]);
    }
  }

  /** No wait outlasts its initial value in runs of the event handler, however short the sleeps. */
  lemma WaitsEnd(s: Sleepy, events: seq<Event>)
    requires Valid(s)
    ensures SLEEPY_TIME_TO_WAIT_FOR_SINK_READY <= WakeCount(events) ==> PassesReadyWait(s, events)
    ensures TIME_TO_WAIT_FOR_SINK_ADVERTISE <= WakeCount(events) ==> PassesAdvWait(s, events)
  {
    if SLEEPY_TIME_TO_WAIT_FOR_SINK_READY <= WakeCount(events) {
      ReadyWaitEnds(s, events);
    }
    if TIME_TO_WAIT_FOR_SINK_ADVERTISE <= WakeCount(events) {
      AdvWaitEnds(s, events);
    }
  }

  function Run(s: Sleepy, events: seq<Event>): Sleepy {
    RunOf(Step, s, events)
  }

  /** In every state of every run from start-up the timers are in range. */
  lemma {:induction false} RunKeepsValid(zeroes: Advert, events: seq<Event>)
    ensures Valid(Run(Initial(zeroes), events))
    decreases |events|
  {
    if events == [] {
      InitialIsValid(zeroes);
    } else {
      var front, last := events[..|events| - 1], events[|events| - 1];
      RunKeepsValid(zeroes, front);
      assert events == front + [last];
      RunOfSnoc(Step, Initial(zeroes), front, last);
      StepKeepsValid(Run(Initial(zeroes), front), last);
    }
  }

  // ----- sleeping through a wait

  /** A run of the event handler after a sleep short enough for its byte. */
  predicate ShortSleep(event: Event) {
    event.Woken? && 1 <= event.input.elapsed <= 0xFF
  }

  function SleptTicks(events: seq<Event>): nat {
    if events == [] then 0
    else (if events[0].Woken? then events[0].input.elapsed else 0) + SleptTicks(events[1..])
  }

  /** The wait for an advertisement takes the time slept off its timer, to the tick, until that runs out. */
  lemma {:induction false} AdvWaitCountsSleep(s: Sleepy, events: seq<Event>)
    requires Valid(s) && s.waitingForSinkAdv && SleptTicks(events) < s.timeToWaitForSinkAdv
    requires forall e :: e in events ==> ShortSleep(e)
    ensures var s' := Run(s, events);
            Valid(s') && s'.waitingForSinkAdv && s'.timeToWaitForSinkAdv == s.timeToWaitForSinkAdv - SleptTicks(events)
    decreases |events|
  {
    if events != [] {
      assert events[0] in events && forall e :: e in events[1..] ==> e in events;
      StepKeepsValid(s, events[0]);
      WakeServesTimers(s, events[0].input);
      LeastOfOne(QuarterSeconds(events[0].input), s.timeToWaitForSinkAdv);
      AdvWaitCountsSleep(Step(s, events[0]), events[1..]);
    }
  }

  /** So it is over in the run of the handler that reaches the timer's value, and in none before. */
  lemma AdvWaitRunsOutIff(s: Sleepy, events: seq<Event>, input: WakeInput)
    requires Valid(s) && s.waitingForSinkAdv && SleptTicks(events) < s.timeToWaitForSinkAdv
    requires forall e :: e in events + [Woken(input)] ==> ShortSleep(e)
    ensures AfterWaits(Run(s, events), input).waitingForSinkAdv
            <==> SleptTicks(events) + input.elapsed < s.timeToWaitForSinkAdv
  {
    assert forall e :: e in events ==> e in events + [Woken(input)];
    assert Woken(input) in events + [Woken(input)];
    AdvWaitCountsSleep(s, events);
    WakeServesTimers(Run(s, events), input);
    LeastOfOne(QuarterSeconds(input), Run(s, events).timeToWaitForSinkAdv);
  }

  /** The same for the wait for a READY, if it is the only one. */
  lemma {:induction false} ReadyWaitCountsSleep(s: Sleepy, events: seq<Event>)
    requires Valid(s) && s.waitingForSinkReady && !s.waitingForSinkAdv
    requires SleptTicks(events) < s.timeToWaitForSinkReady && forall e :: e in events ==> ShortSleep(e)
    ensures var s' := Run(s, events);
            && Valid(s') && s'.waitingForSinkReady && !s'.waitingForSinkAdv
            && s'.timeToWaitForSinkReady == s.timeToWaitForSinkReady - SleptTicks(events)
    decreases |events|
  {
    if events != [] {
      assert events[0] in events && forall e :: e in events[1..] ==> e in events;
      StepKeepsValid(s, events[0]);
      WakeServesTimers(s, events[0].input);
      OnlyReadyWait(s, QuarterSeconds(events[0].input));
      ReadyWaitCountsSleep(Step(s, events[0]), events[1..]);
    }
  }

  lemma OnlyReadyWait(s: Sleepy, q: int)
    requires s.waitingForSinkReady && !s.waitingForSinkAdv
    ensures Least(q, Waits(s)) == if s.timeToWaitForSinkReady < q then s.timeToWaitForSinkReady else q
  {
    assert Waits(s) == [s.timeToWaitForSinkReady];
    LeastOfOne(q, s.timeToWaitForSinkReady);
  }

  lemma ReadyWaitRunsOutIff(s: Sleepy, events: seq<Event>, input: WakeInput)
    requires Valid(s) && s.waitingForSinkReady && !s.waitingForSinkAdv
    requires SleptTicks(events) < s.timeToWaitForSinkReady
    requires forall e :: e in events + [Woken(input)] ==> ShortSleep(e)
    ensures Wake(Run(s, events), input).waitingForSinkReady
            <==> SleptTicks(events) + input.elapsed < s.timeToWaitForSinkReady
  {
    assert forall e :: e in events ==> e in events + [Woken(input)];
    assert Woken(input) in events + [Woken(input)];
    ReadyWaitCountsSleep(s, events);
    WakeServesTimers(Run(s, events), input);
    OnlyReadyWait(Run(s, events), QuarterSeconds(input));
  }

  // ----- taking up an advertisement, and asking for one

  /** A sensor with a sink, or waiting for one to be ready, ignores advertisements. */
  lemma BusyIgnoresAdvertise(s: Sleepy, advert: Advert, euiSet: bool, buffer: bool)
    requires s.link.found || s.waitingForSinkReady
    ensures Step(s, Advertised(advert, euiSet, buffer)) == s
  {
  }

  /**
   Any other one stops waiting for advertisements. If it could select the sink, it waits for the
   READY, for 80 ticks of sleep and no longer; else it waits for nothing.
   */
  lemma SelectionWaits(s: Sleepy, advert: Advert, euiSet: bool, buffer: bool, events: seq<Event>, input: WakeInput)
    requires Valid(s) && !s.link.found && !s.waitingForSinkReady
    requires forall e :: e in events + [Woken(input)] ==> ShortSleep(e)
    ensures var s1 := Step(s, Advertised(advert, euiSet, buffer));
            && !s1.waitingForSinkAdv && !s1.link.found && (s1.waitingForSinkReady <==> euiSet && buffer)
            && s1.sink == (if euiSet then advert else s.sink)
            && (euiSet && buffer && SleptTicks(events) < 80 ==>
                  (Wake(Run(s1, events), input).waitingForSinkReady <==> SleptTicks(events) + input.elapsed < 80))
  {
    var s1 := Step(s, Advertised(advert, euiSet, buffer));
    if euiSet && buffer && SleptTicks(events) < 80 {
      ReadyWaitRunsOutIff(s1, events, input);
    }
  }

  /**
   The parent is asked exactly if there is no sink, the network is joined, both waits are over or
   run out just now, and there is a buffer; then an advertisement is waited for, for 40 ticks.
   */
  lemma AsksIff(s: Sleepy, input: WakeInput)
    requires Valid(s)
    ensures Queries(AfterWaits(s, input), input)
            <==> && (!s.link.found || input.leavePressed) && input.joined && input.queryBuffer
                 && (s.waitingForSinkAdv ==> s.timeToWaitForSinkAdv <= QuarterSeconds(input))
                 && (s.waitingForSinkReady ==> s.timeToWaitForSinkReady <= Least(QuarterSeconds(input), Waits(s)))
    ensures Queries(AfterWaits(s, input), input) ==>
              Wake(s, input).waitingForSinkAdv && Wake(s, input).timeToWaitForSinkAdv == 40
  {
    WaitsAreServed(s, input);
    WakeAfterWaits(s, input);
  }

  // ----- when data goes out

  /** The data countdown runs out in this run of the event handler. */
  predicate DataDue(s: Sleepy, input: WakeInput) {
    s.sendDataCountdown <= Least(QuarterSeconds(input), Waits(s))
  }

  /** Data goes out exactly if there is a sink, the countdown runs out, and parent and stack take it. */
  lemma SendsDataIff(s: Sleepy, input: WakeInput)
    requires Valid(s)
    ensures SendsData(s, input)
            <==> && s.link.found && !input.leavePressed && DataDue(s, input)
                 && input.parentResponsive && input.send.Submitted?
  {
    WaitsAreServed(s, input);
  }

  /** The data countdown of a sensor that waits for nothing, told from what was slept. */
  function CountdownAfter(c: int, events: seq<Event>): int
    decreases |events|
  {
    if events == [] then c
    else if !events[0].Woken? then CountdownAfter(c, events[1..])
    else
      var q := QuarterSeconds(events[0].input);
      CountdownAfter(if q < c then c - q else 80, events[1..])
  }

  /** Without a READY a lost sink stays lost. */
  lemma {:induction false} LostStaysLost(s: Sleepy, events: seq<Event>)
    requires !s.link.found && forall e :: e in events ==> !e.ReadyArrived?
    ensures !Run(s, events).link.found
    decreases |events|
  {
    if events != [] {
      assert events[0] in events && forall e :: e in events[1..] ==> e in events;
      LostStaysLost(Step(s, events[0]), events[1..]);
    }
  }

  /** A sensor with a sink that waits for nothing. */
  predicate Settled(s: Sleepy) {
    s.link.found && !s.waitingForSinkAdv && !s.waitingForSinkReady
  }

  lemma SettledStep(s: Sleepy, event: Event)
    requires Valid(s) && Settled(s) && !event.ReadyArrived? && Step(s, event).link.found
    ensures Valid(Step(s, event)) && Settled(Step(s, event))
    ensures Step(s, event).sendDataCountdown == CountdownAfter(s.sendDataCountdown, [event])
  {
    StepKeepsValid(s, event);
    assert [event][1..] == [];
    if event.Woken? {
      WakeServesTimers(s, event.input);
      assert Waits(s) + [s.sendDataCountdown] == [s.sendDataCountdown];
      LeastOfOne(QuarterSeconds(event.input), s.sendDataCountdown);
    }
  }

  /**
   While such a sensor keeps its sink, its countdown follows from what was slept alone, and the runs
   of the handler that send are those in which it runs out, parent and stack permitting.
   */
  lemma {:induction false} DataFollowsSleep(s: Sleepy, events: seq<Event>, input: WakeInput)
    requires Valid(s) && Settled(s) && Run(s, events).link.found
    requires forall e :: e in events ==> !e.ReadyArrived?
    ensures Run(s, events).sendDataCountdown == CountdownAfter(s.sendDataCountdown, events)
    ensures SendsData(Run(s, events), input)
            <==> && !input.leavePressed && input.parentResponsive && input.send.Submitted?
                 && CountdownAfter(s.sendDataCountdown, events) <= QuarterSeconds(input)
    decreases |events|
  {
    if events == [] {
      SendsDataIff(s, input);
      assert Waits(s) == [];
    } else {
      assert events[0] in events && forall e :: e in events[1..] ==> e in events;
      var s1 := Step(s, events[0]);
      if s1.link.found {
        SettledStep(s, events[0]);
        assert [events[0]][1..] == [];
        DataFollowsSleep(s1, events[1..], input);
      } else {
        LostStaysLost(s1, events[1..]);
      }
    }
  }

  /** A READY ends the wait for it and gives a sink; a mobile sensor sends next, another one after 80 ticks. */
  lemma ReadyAttaches(s: Sleepy, mobile: bool, input: WakeInput)
    requires Valid(s)
    ensures var s1 := Step(s, ReadyArrived(mobile));
            && s1.link == SinkLink(true, s.link.failed) && s1.sink == s.sink
            && !s1.waitingForSinkReady && s1.waitingForSinkAdv == s.waitingForSinkAdv
            && (SendsData(s1, input)
                <==> && !input.leavePressed && input.parentResponsive && input.send.Submitted?
                     && (mobile || 80 <= Least(QuarterSeconds(input), Waits(s1))))
  {
    var s1 := Step(s, ReadyArrived(mobile));
    StepKeepsValid(s, ReadyArrived(mobile));
    SendsDataIff(s1, input);
    if s1.waitingForSinkAdv {
      assert Waits(s1) == [s1.timeToWaitForSinkAdv];
      LeastOfOne(QuarterSeconds(input), s1.timeToWaitForSinkAdv);
    } else {
      assert Waits(s1) == [];
    }
  }

  /** The acknowledgement of a data message is waited for from its submission to the stack's report. */
  lemma AwaitsAckIff(s: Sleepy, event: Event)
    requires Valid(s)
    ensures Step(s, event).waitingForDataAck
            <==> !event.DataReported? && (s.waitingForDataAck || (event.Woken? && SendsData(s, event.input)))
  {
    if event.Woken? {
      WaitsAreServed(s, event.input);
    }
  }

  // ----- losing the sink

  /** Whether there is a sink after an event, in each case. */
  lemma SinkKeptIff(s: Sleepy, event: Event)
    requires Valid(s)
    ensures Step(s, event).link.found
            <==> match event
                 case Advertised(_, _, _) => s.link.found
                 case ReadyArrived(_) => true
                 case DataReported(delivered) => s.link.found && (delivered || s.link.failed < 2)
                 case NetworkDown => false
                 case Woken(input) =>
                   && s.link.found && !input.leavePressed
                   && !(DataDue(s, input) && input.parentResponsive && input.send.Rejected? && s.link.failed == 2)
    ensures event.Woken? && event.input.leavePressed ==> Step(s, event).link.failed == 0
  {
    if event.Woken? {
      WaitsAreServed(s, event.input);
    }
  }

  /** What an event says about a data message: delivered, failed, or nothing. */
  function Outcome(s: Sleepy, event: Event): seq<bool> {
    match event
    case DataReported(delivered) => [delivered]
    case Woken(input) => if HandsOver(s, input) && input.send.Rejected? then [false] else []
    case _ => []
  }

  /** All of these, the failures the sensor has counted before first. */
  function Outcomes(s: Sleepy, events: seq<Event>): seq<bool> {
    Failures(s.link.failed) + OutcomesOf(Step, Outcome, s, events)
  }

  /** No READY, no leaving, and the network stays up. */
  predicate OnlyDataMatters(event: Event) {
    !event.ReadyArrived? && !event.NetworkDown? && (event.Woken? ==> !event.input.leavePressed)
  }

  lemma StepFollowsOutcome(s: Sleepy, event: Event)
    requires OnlyDataMatters(event)
    ensures Step(s, event).link == Reports(s.link, Outcome(s, event))
  {
    ReportsOne(s.link, true);
    ReportsOne(s.link, false);
  }

  /** An attached sleepy sensor, too, gives its sink up exactly if three data messages in a row failed. */
  lemma SinkLostIff(s: Sleepy, events: seq<Event>)
    requires s.link.found && s.link.failed < MISS_PACKET_TOLERANCE
    requires forall e :: e in events ==> OnlyDataMatters(e)
    ensures Run(s, events).link.found <==> !ThreeFailures(Outcomes(s, events))
  {
    forall now: Sleepy, e | e in events ensures Step(now, e).link == Reports(now.link, Outcome(now, e)) {
      StepFollowsOutcome(now, e);
    }
    LinkFollowsOutcomes(Step, Outcome, (now: Sleepy) => now.link, s, events);
    SinkLostFrom(s.link, OutcomesOf(Step, Outcome, s, events));
  }
}
