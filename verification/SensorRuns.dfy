/**
 Runs of a line-powered sensor: its timers never run below zero, and every attempt to
 attach to a sink ends within 59 ticks.
 */
module SensorRuns {
  import opened SensorNode
  import opened SinkLinks

  datatype Event =
    | Advertised(advert: Advert, random: nat)
    | ReadyArrived
    | DataReported(delivered: bool)
    | Ticked(input: TickInput)

  function Step(s: Sensor, event: Event): Sensor {
    match event
    case Advertised(advert, random) => OnAdvertise(s, advert, random)
    case ReadyArrived => OnReady(s)
    case DataReported(delivered) => OnDataSent(s, delivered)
    case Ticked(input) => Tick(s, input)
  }

  /** Armed timers are positive and within their range; the two waits exclude each other. */
  predicate Valid(s: Sensor) {
    && (s.waitingToRespond ==>
          !s.waitingForSinkReady && 1 <= s.respondTimer <= 20
          && s.timeToWaitForSinkReady == TIME_TO_WAIT_FOR_SINK_READY)
    && (s.waitingForSinkReady ==> 1 <= s.timeToWaitForSinkReady < TIME_TO_WAIT_FOR_SINK_READY)
    && 1 <= s.sendDataCountdown <= SEND_DATA_RATE
    && s.link.failed < MISS_PACKET_TOLERANCE
  }

  lemma InitialIsValid(sink: Advert)
    ensures Valid(Initial(sink)) && Idle(Initial(sink))
    ensures !Initial(sink).link.found && Initial(sink).link.failed == 0
  {
  }

  /** The ticks left until the current attempt to attach is over. */
  function PendingTicks(s: Sensor): nat {
    if s.waitingToRespond then s.respondTimer + TIME_TO_WAIT_FOR_SINK_READY - 1
    else if s.waitingForSinkReady then s.timeToWaitForSinkReady
    else 0
  }

  lemma TickCountsDown(s: Sensor, input: TickInput)
    requires Valid(s)
    ensures Valid(Tick(s, input))
    ensures PendingTicks(Tick(s, input)) == if PendingTicks(s) == 0 then 0 else PendingTicks(s) - 1
  {
    var s1 := RespondTick(OnLeave(s, input.leavePressed), input);
    var s2 := ReadyTick(s1);
    assert Valid(s2) && PendingTicks(s2) == if PendingTicks(s) == 0 then 0 else PendingTicks(s) - 1;
  }

  /**
   Every event keeps the timers in range; a tick takes exactly one off a pending attempt, and
   nothing but an advertisement to an idle sensor adds to it.
   */
  lemma StepKeepsValid(s: Sensor, event: Event)
    requires Valid(s)
    ensures Valid(Step(s, event))
    ensures event.Ticked? ==>
              PendingTicks(Step(s, event)) == if PendingTicks(s) == 0 then 0 else PendingTicks(s) - 1
    ensures !event.Ticked? && !Idle(s) ==> PendingTicks(Step(s, event)) <= PendingTicks(s)
    ensures PendingTicks(Step(s, event)) <= 59
    ensures PendingTicks(s) == 0 <==> Idle(s)
  {
    if event.Ticked? {
      TickCountsDown(s, event.input);
    }
  }

  function TickCount(events: seq<Event>): nat {
    if events == [] then 0 else (if events[0].Ticked? then 1 else 0) + TickCount(events[1..])
  }

  function Run(s: Sensor, events: seq<Event>): Sensor {
    RunOf(Step, s, events)
  }

  /** Some state of the run, the first and the last included, has neither wait pending. */
  predicate PassesIdle(s: Sensor, events: seq<Event>)
    decreases |events|
  {
    Idle(s) || (events != [] && PassesIdle(Step(s, events[0]), events[1..]))
  }

  /** Whatever messages arrive, an attempt is over once its pending ticks were serviced. */
  lemma {:induction false} AttemptsEnd(s: Sensor, events: seq<Event>)
    requires Valid(s) && PendingTicks(s) <= TickCount(events)
    ensures PassesIdle(s, events)
    decreases |events|
  {
    StepKeepsValid(s, ReadyArrived);
    if !Idle(s) {
      StepKeepsValid(s, events[0]);
      AttemptsEnd(Step(s, events[0]), events[1..]);
    }
  }

  /** Hence 59 serviced ticks end every attempt of every reachable state. */
  lemma AttemptsEndWithin59Ticks(s: Sensor, events: seq<Event>)
    requires Valid(s) && 59 <= TickCount(events)
    ensures PassesIdle(s, events)
  {
    AttemptsEnd(s, events);
  }

  /** Without a READY the bound is exact: the attempt is over after its pending ticks and not before. */
  lemma {:induction false} UnansweredAttemptEndsIff(s: Sensor, events: seq<Event>)
    requires Valid(s) && forall e :: e in events ==> !e.ReadyArrived?
    ensures PassesIdle(s, events) <==> PendingTicks(s) <= TickCount(events)
    decreases |events|
  {
    StepKeepsValid(s, ReadyArrived);
    if PendingTicks(s) <= TickCount(events) {
      AttemptsEnd(s, events);
    } else if events != [] {
      assert events[0] in events && forall e :: e in events[1..] ==> e in events;
      StepKeepsValid(s, events[0]);
      assert events[0].Ticked? || PendingTicks(Step(s, events[0])) == PendingTicks(s);
      UnansweredAttemptEndsIff(Step(s, events[0]), events[1..]);
    }
  }

  /** In every state of every run from start-up the timers are in range. */
  lemma {:induction false} RunKeepsValid(zeroes: Advert, events: seq<Event>)
    ensures Valid(Run(Initial(zeroes), events))
    decreases |events|
  {
    if events == [] {
      InitialIsValid(zeroes);
    } else {
      var front, last := events[..|events| - 1], events[|events| - 1];
      RunKeepsValid(zeroes, front);
      assert events == front + [last];
      RunOfSnoc(Step, Initial(zeroes), front, last);
      StepKeepsValid(Run(Initial(zeroes), front), last);
    }
  }

  // ----- when messages go out

  /** While an answer is delayed, its timer counts the serviced ticks, whatever else happens. */
  lemma {:induction false} DelayCountsDown(s: Sensor, events: seq<Event>)
    requires Valid(s) && s.waitingToRespond && TickCount(events) < s.respondTimer
    ensures var s' := Run(s, events);
            && s'.waitingToRespond && s'.dataBuffer == s.dataBuffer
            && s'.respondTimer == s.respondTimer - TickCount(events)
    decreases |events|
  {
    if events != [] {
      StepKeepsValid(s, events[0]);
      DelayCountsDown(Step(s, events[0]), events[1..]);
    }
  }

  /**
   An idle sensor without a sink answers the advertisement it heard, and no later one, in exactly
   one tick, 4 to 20 ticks on: the sink it then names is the advertised one.
   */
  lemma AnswerFallsDue(s: Sensor, advert: Advert, random: nat, events: seq<Event>, input: TickInput)
    requires Valid(s) && Idle(s) && !s.link.found
    ensures OnAdvertise(s, advert, random).respondTimer == 4 + random % 17
    ensures var s1 := OnAdvertise(s, advert, random);
            TickCount(events) < s1.respondTimer ==>
              && (AnswersNow(Run(s1, events)) <==> TickCount(events) == s1.respondTimer - 1)
              && (AnswersNow(Run(s1, events)) ==> Tick(Run(s1, events), input).sink == advert)
  {
    var s1 := OnAdvertise(s, advert, random);
    StepKeepsValid(s, Advertised(advert, random));
    if TickCount(events) < s1.respondTimer {
      DelayCountsDown(s1, events);
    }
  }

  /** A sensor with a sink, or busy with an attempt to attach, ignores advertisements. */
  lemma BusyIgnoresAdvertise(s: Sensor, advert: Advert, random: nat)
    requires s.link.found || !Idle(s)
    ensures Step(s, Advertised(advert, random)) == s
  {
  }

  /** No READY, and no leaving. */
  predicate Stays(event: Event) {
    !event.ReadyArrived? && (event.Ticked? ==> !event.input.leavePressed)
  }

  /** Without a READY a lost sink stays lost. */
  lemma {:induction false} LostStaysLost(s: Sensor, events: seq<Event>)
    requires !s.link.found && forall e :: e in events ==> Stays(e)
    ensures !Run(s, events).link.found
    decreases |events|
  {
    if events != [] {
      assert events[0] in events && forall e :: e in events[1..] ==> e in events;
      LostStaysLost(Step(s, events[0]), events[1..]);
    }
  }

  /** With a sink before and after, a tick takes one off the data countdown, or starts it again. */
  lemma CountdownStep(s: Sensor, event: Event)
    requires Valid(s) && Stays(event) && s.link.found && Step(s, event).link.found
    ensures Step(s, event).sendDataCountdown
            == if !event.Ticked? then s.sendDataCountdown
               else if s.sendDataCountdown == 1 then SEND_DATA_RATE else s.sendDataCountdown - 1
  {
  }

  lemma WrapsAround(n: nat)
    ensures (SEND_DATA_RATE + n) % SEND_DATA_RATE == n % SEND_DATA_RATE
  {
  }

  /**
   While a sensor keeps its sink, the data countdown counts the ticks and nothing else, whatever it
   overhears, waits for, and fails to deliver in between: it sends data every 80 ticks.
   */
  lemma {:induction false} DataEvery80Ticks(s: Sensor, events: seq<Event>)
    requires Valid(s) && Run(s, events).link.found && forall e :: e in events ==> Stays(e)
    ensures var s', elapsed := Run(s, events), SEND_DATA_RATE - s.sendDataCountdown + TickCount(events);
            && s'.sendDataCountdown == SEND_DATA_RATE - elapsed % SEND_DATA_RATE
            && (SendsNow(s') <==> elapsed % SEND_DATA_RATE == SEND_DATA_RATE - 1)
    decreases |events|
  {
    if events != [] {
      assert events[0] in events && forall e :: e in events[1..] ==> e in events;
      StepKeepsValid(s, events[0]);
      var s1, ticks := Step(s, events[0]), TickCount(events[1..]);
      if !s.link.found {
        LostStaysLost(s, events);
      } else if !s1.link.found {
        LostStaysLost(s1, events[1..]);
      } else {
        CountdownStep(s, events[0]);
        DataEvery80Ticks(s1, events[1..]);
        WrapsAround(SEND_DATA_RATE - s1.sendDataCountdown + ticks);
      }
    }
  }

  lemma SendsDataIff(s: Sensor, input: TickInput)
    requires Valid(s)
    ensures SendsData(s, input)
            <==> && s.link.found && Tick(s, input).link.found
                 && s.sendDataCountdown == 1 && input.send.Submitted?
  {
  }

  /**
   The ticks in which data goes out, told from the events: those 80 apart, if the sensor keeps its
   sink through them and the stack takes the message.
   */
  lemma DataSentIff(s: Sensor, events: seq<Event>, input: TickInput)
    requires Valid(s) && forall e :: e in events ==> Stays(e)
    ensures SendsData(Run(s, events), input)
            <==> && Run(s, events).link.found && Run(s, events + [Ticked(input)]).link.found
                 && (80 - s.sendDataCountdown + TickCount(events)) % 80 == 79 && input.send.Submitted?
  {
    RunStaysValid(s, events);
    RunOfSnoc(Step, s, events, Ticked(input));
    SendsDataIff(Run(s, events), input);
    if Run(s, events).link.found {
      DataEvery80Ticks(s, events);
    }
  }

  lemma {:induction false} RunStaysValid(s: Sensor, events: seq<Event>)
    requires Valid(s)
    ensures Valid(Run(s, events))
    decreases |events|
  {
    if events != [] {
      StepKeepsValid(s, events[0]);
      RunStaysValid(Step(s, events[0]), events[1..]);
    }
  }

  /** A READY ends the wait for it, gives a sink, and starts the 80 ticks to the next data message. */
  lemma ReadyAttaches(s: Sensor, events: seq<Event>, input: TickInput)
    requires Valid(s) && forall e :: e in events ==> Stays(e)
    ensures var s1 := Step(s, ReadyArrived);
            && s1.link == SinkLink(true, s.link.failed) && s1.sink == s.sink
            && PendingTicks(s1) == (if s.waitingToRespond then PendingTicks(s) else 0)
            && (SendsData(Run(s1, events), input)
                <==> && Run(s1, events).link.found && Run(s1, events + [Ticked(input)]).link.found
                     && TickCount(events) % 80 == 79 && input.send.Submitted?)
  {
    StepKeepsValid(s, ReadyArrived);
    DataSentIff(Step(s, ReadyArrived), events, input);
  }

  /** No leaving, no data message rejected or lost, and no further READY. */
  predicate Quiet(event: Event) {
    match event
    case Advertised(_, _) => true
    case ReadyArrived => false
    case DataReported(delivered) => delivered
    case Ticked(input) => !input.leavePressed && !input.send.Rejected?
  }

  /** If no data message fails, an attached sensor keeps its sink and ignores advertisements. */
  lemma {:induction false} QuietKeepsSink(s: Sensor, events: seq<Event>)
    requires Valid(s) && Idle(s) && s.link.found && forall e :: e in events ==> Quiet(e)
    ensures Idle(Run(s, events)) && Run(s, events).link.found
    decreases |events|
  {
    if events != [] {
      assert events[0] in events && forall e :: e in events[1..] ==> e in events;
      StepKeepsValid(s, events[0]);
      QuietKeepsSink(Step(s, events[0]), events[1..]);
    }
  }

  // ----- losing the sink

  /** Whether there is a sink after an event, in each case. */
  lemma SinkKeptIff(s: Sensor, event: Event)
    requires Valid(s)
    ensures Step(s, event).link.found
            <==> match event
                 case Advertised(_, _) => s.link.found
                 case ReadyArrived => true
                 case DataReported(delivered) => s.link.found && (delivered || s.link.failed < 2)
                 case Ticked(input) =>
                   && s.link.found && !input.leavePressed
                   && !(s.waitingToRespond && s.respondTimer == 1 && input.euiSet && !input.buffer)
                   && !(s.sendDataCountdown == 1 && input.send.Rejected? && s.link.failed == 2)
    ensures event.Ticked? && event.input.leavePressed ==> Step(s, event).link.failed == 0
  {
  }

  /** A SELECT goes out exactly when the delay is over and the stack has both resources. */
  lemma SelectsSinkIff(s: Sensor, input: TickInput)
    ensures SelectsSink(s, input)
            <==> s.waitingToRespond && s.respondTimer == 1 && input.euiSet && input.buffer
  {
  }

  /** What an event says about a data message: delivered, failed, or nothing. */
  function Outcome(s: Sensor, event: Event): seq<bool> {
    match event
    case DataReported(delivered) => [delivered]
    case Ticked(input) =>
      if SendsNow(ReadyTick(RespondTick(s, input))) && input.send.Rejected? then [false] else []
    case _ => []
  }

  /** All of these, the failures the sensor has counted before first. */
  function Outcomes(s: Sensor, events: seq<Event>): seq<bool> {
    Failures(s.link.failed) + OutcomesOf(Step, Outcome, s, events)
  }

  /** No READY, no leaving, and no SELECT that fails for want of a buffer. */
  predicate OnlyDataMatters(event: Event) {
    && !event.ReadyArrived?
    && (event.Ticked? ==> !event.input.leavePressed && (event.input.euiSet ==> event.input.buffer))
  }

  lemma StepFollowsOutcome(s: Sensor, event: Event)
    requires OnlyDataMatters(event)
    ensures Step(s, event).link == Reports(s.link, Outcome(s, event))
  {
    ReportsOne(s.link, true);
    ReportsOne(s.link, false);
  }

  /**
   Over a run, whether data messages fail when handed to the stack or on their way, an attached
   sensor gives its sink up exactly if three of them in a row failed.
   */
  lemma SinkLostIff(s: Sensor, events: seq<Event>)
    requires s.link.found && s.link.failed < MISS_PACKET_TOLERANCE
    requires forall e :: e in events ==> OnlyDataMatters(e)
    ensures Run(s, events).link.found <==> !ThreeFailures(Outcomes(s, events))
  {
    forall now: Sensor, e | e in events ensures Step(now, e).link == Reports(now.link, Outcome(now, e)) {
      StepFollowsOutcome(now, e);
    }
    LinkFollowsOutcomes(Step, Outcome, (now: Sensor) => now.link, s, events);
    SinkLostFrom(s.link, OutcomesOf(Step, Outcome, s, events));
  }
}
