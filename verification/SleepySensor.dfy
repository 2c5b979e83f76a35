/**
 A sleepy or mobile sensor. It may sleep between two runs of its event handler, so each
 run takes the slept time off its timers: one shared amount, cut down by every armed
 timer it is taken from.
 */
module SleepySensor {
  import opened EmberTypes
  import opened SinkLinks

  const SLEEPY_TIME_TO_WAIT_FOR_SINK_READY := 80
  const TIME_TO_WAIT_FOR_SINK_ADVERTISE := 40

  datatype Sleepy = Sleepy(
    link: SinkLink,
    waitingForDataAck: bool,
    waitingForSinkReady: bool,
    timeToWaitForSinkReady: Byte,
    waitingForSinkAdv: bool,
    timeToWaitForSinkAdv: Byte,
    sendDataCountdown: Byte,
    sink: Advert)

  /** What the outside world decides during one run of the event handler. */
  datatype WakeInput = WakeInput(
    elapsed: nat,
    leavePressed: bool,
    joined: bool,
    parentResponsive: bool,
    send: SendOutcome,
    queryBuffer: bool)

  function Initial(sink: Advert): Sleepy {
    Sleepy(SinkLink(false, 0), false, false, SLEEPY_TIME_TO_WAIT_FOR_SINK_READY,
           false, TIME_TO_WAIT_FOR_SINK_ADVERTISE, SEND_DATA_RATE, sink)
  }

  // ----- callbacks

  /** An advertisement is taken up unless there is a sink or one is being waited for. */
  predicate TakesUp(s: Sleepy) {
    !s.link.found && !s.waitingForSinkReady
  }

  function OnAdvertise(s: Sleepy, advert: Advert, euiSet: bool, buffer: bool): Sleepy {
    if !TakesUp(s) then s
    else if !euiSet then s.(waitingForSinkAdv := false)
    else if !buffer then s.(waitingForSinkAdv := false, sink := advert)
    else s.(waitingForSinkAdv := false, sink := advert, waitingForSinkReady := true,
            timeToWaitForSinkReady := SLEEPY_TIME_TO_WAIT_FOR_SINK_READY)
  }

  function OnReady(s: Sleepy, mobile: bool): Sleepy {
    s.(waitingForSinkReady := false, link := s.link.(found := true),
       sendDataCountdown := if mobile then 1 else SEND_DATA_RATE)
  }

  function OnDataSent(s: Sleepy, delivered: bool): Sleepy {
    s.(waitingForDataAck := false, link := Report(s.link, delivered))
  }

  /** The network went down. */
  function OnNetworkDown(s: Sleepy): Sleepy {
    s.(link := s.link.(found := false))
  }

  // ----- the event handler

  function OnLeave(s: Sleepy, pressed: bool): Sleepy {
    if pressed then s.(link := SinkLink(false, 0)) else s
  }

  /** The elapsed quarter seconds, truncated to one byte, but at least one. */
  function Elapsed(elapsed: nat): (q: Byte)
    ensures 1 <= q
  {
    if ToByte(elapsed) == 0 then 1 else ToByte(elapsed)
  }

  function Clamp(q: Byte, timer: Byte): Byte {
    if q > timer then timer else q
  }

  function AdvAmount(s: Sleepy, q: Byte): Byte {
    if s.waitingForSinkAdv then Clamp(q, s.timeToWaitForSinkAdv) else q
  }

  function AdvTick(s: Sleepy, q: Byte): Sleepy
    requires s.waitingForSinkAdv ==> q <= s.timeToWaitForSinkAdv
  {
    if !s.waitingForSinkAdv then s
    else s.(timeToWaitForSinkAdv := s.timeToWaitForSinkAdv - q, waitingForSinkAdv := s.timeToWaitForSinkAdv != q)
  }

  function ReadyAmount(s: Sleepy, q: Byte): Byte {
    if s.waitingForSinkReady then Clamp(q, s.timeToWaitForSinkReady) else q
  }

  function ReadyTick(s: Sleepy, q: Byte): Sleepy
    requires s.waitingForSinkReady ==> q <= s.timeToWaitForSinkReady
  {
    if !s.waitingForSinkReady then s
    else s.(timeToWaitForSinkReady := s.timeToWaitForSinkReady - q,
            waitingForSinkReady := s.timeToWaitForSinkReady != q)
  }

  function OnSend(s: Sleepy, outcome: SendOutcome): Sleepy {
    match outcome
    case NoBuffer => s
    case Rejected => s.(link := Failure(s.link))
    case Submitted => s.(waitingForDataAck := true)
  }

  function DataTick(s: Sleepy, q: Byte, input: WakeInput): Sleepy {
    var amount := Clamp(q, s.sendDataCountdown);
    if s.sendDataCountdown != amount then s.(sendDataCountdown := s.sendDataCountdown - amount)
    else if !input.parentResponsive then s.(sendDataCountdown := SEND_DATA_RATE)
    else OnSend(s.(sendDataCountdown := SEND_DATA_RATE), input.send)
  }

  /** A data message is handed to the stack during this run of the event handler. */
  predicate HandsOver(s: Sleepy, input: WakeInput) {
    var s2 := AfterWaits(s, input);
    s2.link.found && s2.sendDataCountdown <= DataAmount(s, input) && input.parentResponsive
  }

  /** A data message goes out during this run of the event handler. */
  predicate SendsData(s: Sleepy, input: WakeInput) {
    HandsOver(s, input) && input.send.Submitted?
  }

  /** Without a sink and with nothing to wait for, the parent is asked. */
  predicate Queries(s: Sleepy, input: WakeInput) {
    !s.link.found && input.joined && !s.waitingForSinkAdv && !s.waitingForSinkReady && input.queryBuffer
  }

  function QueryTick(s: Sleepy, input: WakeInput): Sleepy {
    if Queries(s, input)
    then s.(waitingForSinkAdv := true, timeToWaitForSinkAdv := TIME_TO_WAIT_FOR_SINK_ADVERTISE)
    else s
  }

  /** The state after the two waits were served. */
  function AfterWaits(s: Sleepy, input: WakeInput): Sleepy {
    var s0, q0 := OnLeave(s, input.leavePressed), Elapsed(input.elapsed);
    var q1 := AdvAmount(s0, q0);
    var s1 := AdvTick(s0, q1);
    ReadyTick(s1, ReadyAmount(s1, q1))
  }

  /** The amount left to take off the data countdown. */
  function DataAmount(s: Sleepy, input: WakeInput): Byte {
    var q1 := AdvAmount(s, Elapsed(input.elapsed));
    ReadyAmount(s, q1)
  }

  function Wake(s: Sleepy, input: WakeInput): Sleepy {
    var s2 := AfterWaits(s, input);
    if s2.link.found then DataTick(s2, DataAmount(s, input), input) else QueryTick(s2, input)
  }

  // ----- the sensor as a program

  class SleepyProgram {
    const mobile: bool
    var mainSinkFound: bool
    var waitingForDataAck: bool
    var waitingForSinkReady: bool
    var timeToWaitForSinkReady: Byte
    var waitingForSinkAdv: bool
    var timeToWaitForSinkAdv: Byte
    var sendDataCountdown: Byte
    var failedDataMessages: Byte
    var sink: Advert
    var lastRunTime: NodeId

    ghost function State(): Sleepy
      reads this
    {
      Sleepy(SinkLink(mainSinkFound, failedDataMessages), waitingForDataAck, waitingForSinkReady,
             timeToWaitForSinkReady, waitingForSinkAdv, timeToWaitForSinkAdv, sendDataCountdown, sink)
    }

    constructor (mobile: bool, zeroes: Advert)
      ensures State() == Initial(zeroes) && this.mobile == mobile && lastRunTime == 0
    {
      this.mobile := mobile;
      mainSinkFound, waitingForDataAck, waitingForSinkReady, waitingForSinkAdv := false, false, false, false;
      timeToWaitForSinkReady := SLEEPY_TIME_TO_WAIT_FOR_SINK_READY;
      timeToWaitForSinkAdv := TIME_TO_WAIT_FOR_SINK_ADVERTISE;
      sendDataCountdown, failedDataMessages := SEND_DATA_RATE, 0;
      sink, lastRunTime := zeroes, 0;
    }

    /** Takes up an advertisement at once; the result tells whether a SELECT is sent. */
    method IncomingAdvertise(advert: Advert, euiSet: bool, buffer: bool) returns (selected: bool)
      modifies this
      ensures State() == OnAdvertise(old(State()), advert, euiSet, buffer)
      ensures selected == (TakesUp(old(State())) && euiSet && buffer) && lastRunTime == old(lastRunTime)
    {
      selected := false;
      if !mainSinkFound && !waitingForSinkReady {
        waitingForSinkAdv := false;
        if !euiSet {
          return;
        }
        sink := advert;
        if !buffer {
          mainSinkFound := false;
          return;
        }
        selected := true;
        waitingForSinkReady := true;
        timeToWaitForSinkReady := SLEEPY_TIME_TO_WAIT_FOR_SINK_READY;
      }
    }

    method IncomingReady()
      modifies this
      ensures State() == OnReady(old(State()), mobile) && lastRunTime == old(lastRunTime)
    {
      waitingForSinkReady := false;
      mainSinkFound := true;
      sendDataCountdown := if mobile then 1 else SEND_DATA_RATE;
    }

    method CountFailure()
      modifies this
      ensures State() == old(State()).(link := Failure(old(State()).link)) && lastRunTime == old(lastRunTime)
    {
      failedDataMessages := ToByte(failedDataMessages + 1);
      if failedDataMessages >= MISS_PACKET_TOLERANCE {
        mainSinkFound := false;
        failedDataMessages := 0;
      }
    }

    method DataMessageSent(delivered: bool)
      modifies this
      ensures State() == OnDataSent(old(State()), delivered) && lastRunTime == old(lastRunTime)
    {
      waitingForDataAck := false;
      if !delivered {
        CountFailure();
      } else {
        failedDataMessages := 0;
      }
    }

    method SendData(outcome: SendOutcome)
      modifies this
      ensures State() == OnSend(old(State()), outcome) && lastRunTime == old(lastRunTime)
    {
      match outcome
      case NoBuffer =>
      case Rejected => CountFailure();
      case Submitted => waitingForDataAck := true;
    }

    /** The timers of the two waits; returns what is left to take off the data countdown. */
    method ServeWaits(elapsed: Byte) returns (qsTicksToTakeOff: Byte)
      modifies this
      ensures var s0 := old(State());
              var q1 := AdvAmount(s0, if elapsed == 0 then 1 else elapsed);
              var s1 := AdvTick(s0, q1);
              qsTicksToTakeOff == ReadyAmount(s1, q1) && State() == ReadyTick(s1, qsTicksToTakeOff)
      ensures lastRunTime == old(lastRunTime)
    {
      qsTicksToTakeOff := elapsed;
      if qsTicksToTakeOff == 0 {
        qsTicksToTakeOff := 1;
      }
      if waitingForSinkAdv {
        if qsTicksToTakeOff > timeToWaitForSinkAdv {
          qsTicksToTakeOff := timeToWaitForSinkAdv;
        }
        timeToWaitForSinkAdv := timeToWaitForSinkAdv - qsTicksToTakeOff;
        if timeToWaitForSinkAdv == 0 {
          waitingForSinkAdv := false;
        }
      }
      if waitingForSinkReady {
        if qsTicksToTakeOff > timeToWaitForSinkReady {
          qsTicksToTakeOff := timeToWaitForSinkReady;
        }
        timeToWaitForSinkReady := timeToWaitForSinkReady - qsTicksToTakeOff;
        if timeToWaitForSinkReady == 0 {
          waitingForSinkReady := false;
        }
      }
    }

    /** The data countdown, with `amount` left to take off it. */
    method ServeData(amount: Byte, input: WakeInput) returns (sent: bool)
      modifies this
      ensures State() == DataTick(old(State()), amount, input) && lastRunTime == old(lastRunTime)
      ensures sent == (old(sendDataCountdown) <= amount && input.parentResponsive && input.send.Submitted?)
    {
      sent := false;
      var qsTicksToTakeOff := amount;
      if qsTicksToTakeOff > sendDataCountdown {
        qsTicksToTakeOff := sendDataCountdown;
      }
      sendDataCountdown := sendDataCountdown - qsTicksToTakeOff;
      if sendDataCountdown == 0 {
        sendDataCountdown := SEND_DATA_RATE;
        if input.parentResponsive {
          SendData(input.send);
          sent := input.send.Submitted?;
        }
      }
    }

    method SendSinkQuery(buffer: bool) returns (queried: bool)
      modifies this
      ensures queried == buffer && lastRunTime == old(lastRunTime)
      ensures State() == if buffer
                         then old(State()).(waitingForSinkAdv := true,
                                            timeToWaitForSinkAdv := TIME_TO_WAIT_FOR_SINK_ADVERTISE)
                         else old(State())
    {
      if !buffer {
        return false;
      }
      waitingForSinkAdv := true;
      timeToWaitForSinkAdv := TIME_TO_WAIT_FOR_SINK_ADVERTISE;
      return true;
    }

    /** One run of the event handler at quarter-second time `now`. */
    method EventHandler(now: NodeId, input: WakeInput) returns (queried: bool, sent: bool)
      requires input.elapsed == (now - lastRunTime) % 0x1_0000
      modifies this
      ensures State() == Wake(old(State()), input) && lastRunTime == now
      ensures queried == Queries(AfterWaits(old(State()), input), input)
      ensures sent == SendsData(old(State()), input)
    {
      queried, sent := false, false;
      var elapsed := ToByte((now - lastRunTime) % 0x1_0000);
      lastRunTime := now;
      if input.leavePressed {
        mainSinkFound := false;
        failedDataMessages := 0;
      }
      var qsTicksToTakeOff := ServeWaits(elapsed);
      assert State() == AfterWaits(old(State()), input) && qsTicksToTakeOff == DataAmount(old(State()), input);
      if mainSinkFound {
        sent := ServeData(qsTicksToTakeOff, input);
      } else if input.joined && !waitingForSinkAdv && !waitingForSinkReady {
        queried := SendSinkQuery(input.queryBuffer);
      }
    }
  }
}
