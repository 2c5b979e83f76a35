/**
 A line-powered sensor looking for a sink: it hears an advertisement, waits a random
 time, selects the sink, waits for its READY, and then sends data until three messages
 in a row fail.
 */
module SensorNode {
  import opened EmberTypes
  import opened SinkLinks

  const TIME_TO_WAIT_FOR_SINK_READY := 40

  datatype Sensor = Sensor(
    link: SinkLink,
    waitingToRespond: bool,
    respondTimer: Byte,
    waitingForSinkReady: bool,
    timeToWaitForSinkReady: Byte,
    sendDataCountdown: Byte,
    sink: Advert,
    dataBuffer: Advert)

  /** What the outside world decides during a serviced tick. */
  datatype TickInput = TickInput(leavePressed: bool, euiSet: bool, buffer: bool, send: SendOutcome)

  // ----- callbacks and ticks, as functions of the state

  function Initial(sink: Advert): Sensor {
    Sensor(SinkLink(false, 0), false, 0, false, TIME_TO_WAIT_FOR_SINK_READY, SEND_DATA_RATE, sink, sink)
  }

  predicate Idle(s: Sensor) {
    !s.waitingToRespond && !s.waitingForSinkReady
  }

  /** An advertisement is taken up only by an idle sensor without a sink. */
  function OnAdvertise(s: Sensor, advert: Advert, random: nat): Sensor {
    if s.link.found || !Idle(s) then s
    else s.(waitingToRespond := true, dataBuffer := advert, respondTimer := random % 17 + 4,
            timeToWaitForSinkReady := TIME_TO_WAIT_FOR_SINK_READY)
  }

  function OnReady(s: Sensor): Sensor {
    s.(waitingForSinkReady := false, link := s.link.(found := true), sendDataCountdown := SEND_DATA_RATE)
  }

  function OnDataSent(s: Sensor, delivered: bool): Sensor {
    s.(link := Report(s.link, delivered))
  }

  function OnSend(s: Sensor, outcome: SendOutcome): Sensor {
    if outcome.Rejected? then s.(link := Failure(s.link)) else s
  }

  function OnLeave(s: Sensor, pressed: bool): Sensor {
    if pressed then s.(link := SinkLink(false, 0)) else s
  }

  /** A parent answers a child's query if it has a sink to name, and a buffer to name it in. */
  predicate AnswersQuery(s: Sensor, buffer: bool) {
    s.link.found && buffer
  }

  /** The delayed answer to an advertisement falls due. */
  predicate AnswersNow(s: Sensor) {
    s.waitingToRespond && s.respondTimer == 1
  }

  predicate SelectsSink(s: Sensor, input: TickInput) {
    AnswersNow(s) && input.euiSet && input.buffer
  }

  function RespondTick(s: Sensor, input: TickInput): Sensor {
    if !s.waitingToRespond then s
    else if s.respondTimer != 1 then s.(respondTimer := ToByte(s.respondTimer - 1))
    else s.(respondTimer := 0, sink := s.dataBuffer, waitingToRespond := false, waitingForSinkReady := true,
            link := s.link.(found := s.link.found && !(input.euiSet && !input.buffer)))
  }

  function ReadyTick(s: Sensor): Sensor {
    if !s.waitingForSinkReady then s
    else
      var left := ToByte(s.timeToWaitForSinkReady - 1);
      s.(timeToWaitForSinkReady := left, waitingForSinkReady := left != 0)
  }

  predicate SendsNow(s: Sensor) {
    s.link.found && s.sendDataCountdown == 1
  }

  /** A data message goes out during this tick. */
  predicate SendsData(s: Sensor, input: TickInput) {
    SendsNow(ReadyTick(RespondTick(OnLeave(s, input.leavePressed), input))) && input.send.Submitted?
  }

  function DataTick(s: Sensor, outcome: SendOutcome): Sensor {
    if !s.link.found then s
    else if s.sendDataCountdown != 1 then s.(sendDataCountdown := ToByte(s.sendDataCountdown - 1))
    else OnSend(s.(sendDataCountdown := SEND_DATA_RATE), outcome)
  }

  /** A serviced quarter-second tick. */
  function Tick(s: Sensor, input: TickInput): Sensor {
    DataTick(ReadyTick(RespondTick(OnLeave(s, input.leavePressed), input)), input.send)
  }

  // ----- the sensor as a program

  class SensorProgram {
    var mainSinkFound: bool
    var waitingToRespond: bool
    var respondTimer: Byte
    var waitingForSinkReady: bool
    var timeToWaitForSinkReady: Byte
    var sendDataCountdown: Byte
    var failedDataMessages: Byte
    var sink: Advert
    var dataBuffer: Advert

    ghost function State(): Sensor
      reads this
    {
      Sensor(SinkLink(mainSinkFound, failedDataMessages), waitingToRespond, respondTimer, waitingForSinkReady,
             timeToWaitForSinkReady, sendDataCountdown, sink, dataBuffer)
    }

    constructor (zeroes: Advert)
      ensures State() == Initial(zeroes)
    {
      mainSinkFound, waitingToRespond, waitingForSinkReady := false, false, false;
      respondTimer, timeToWaitForSinkReady := 0, TIME_TO_WAIT_FOR_SINK_READY;
      sendDataCountdown, failedDataMessages := SEND_DATA_RATE, 0;
      sink, dataBuffer := zeroes, zeroes;
    }

    method IncomingAdvertise(advert: Advert, random: nat)
      modifies this
      ensures State() == OnAdvertise(old(State()), advert, random)
    {
      if !mainSinkFound && !waitingForSinkReady && !waitingToRespond {
        waitingToRespond := true;
        dataBuffer := advert;
        respondTimer := random % 17 + 4;
        timeToWaitForSinkReady := TIME_TO_WAIT_FOR_SINK_READY;
      }
    }

    method IncomingReady()
      modifies this
      ensures State() == OnReady(old(State()))
    {
      waitingForSinkReady := false;
      mainSinkFound := true;
      sendDataCountdown := SEND_DATA_RATE;
    }

    /** A child asks who the sink is; the answer is an advertisement, if there is one to give. */
    method IncomingQuery(buffer: bool) returns (answer: bool, advert: Advert)
      ensures answer == AnswersQuery(State(), buffer) && advert == State().sink
    {
      answer, advert := false, sink;
      if mainSinkFound {
        if !buffer {
          return;
        }
        answer := true;
      }
    }

    method CountFailure()
      modifies this
      ensures State() == old(State()).(link := Failure(old(State()).link))
    {
      failedDataMessages := ToByte(failedDataMessages + 1);
      if failedDataMessages >= MISS_PACKET_TOLERANCE {
        mainSinkFound := false;
        failedDataMessages := 0;
      }
    }

    method DataMessageSent(delivered: bool)
      modifies this
      ensures State() == OnDataSent(old(State()), delivered)
    {
      if !delivered {
        CountFailure();
      } else {
        failedDataMessages := 0;
      }
    }

    /** Saves the advertised sink and selects it, if the stack has the resources. */
    method HandleSinkAdvertise(euiSet: bool, buffer: bool) returns (selected: bool)
      modifies this
      ensures selected == (euiSet && buffer)
      ensures State() == old(State()).(
                           sink := old(dataBuffer),
                           link := old(State()).link.(found := old(mainSinkFound) && !(euiSet && !buffer)),
                           waitingForSinkReady := old(waitingForSinkReady) || selected)
    {
      sink := dataBuffer;
      if !euiSet {
        return false;
      }
      if !buffer {
        mainSinkFound := false;
        return false;
      }
      waitingForSinkReady := true;
      return true;
    }

    /** The part of a tick that answers an advertisement when its random delay is over. */
    method ServeResponse(input: TickInput) returns (selected: bool)
      modifies this
      ensures State() == RespondTick(old(State()), input)
      ensures selected == SelectsSink(old(State()), input)
    {
      selected := false;
      if waitingToRespond {
        respondTimer := ToByte(respondTimer - 1);
        if respondTimer == 0 {
          selected := HandleSinkAdvertise(input.euiSet, input.buffer);
          waitingToRespond := false;
          waitingForSinkReady := true;
        }
      }
    }

    /** The part of a tick that sends data. */
    method ServeData(outcome: SendOutcome) returns (sent: bool)
      modifies this
      ensures State() == DataTick(old(State()), outcome)
      ensures sent == (SendsNow(old(State())) && outcome.Submitted?)
    {
      sent := false;
      if mainSinkFound {
        sendDataCountdown := ToByte(sendDataCountdown - 1);
        if sendDataCountdown == 0 {
          sendDataCountdown := SEND_DATA_RATE;
          sent := outcome.Submitted?;
          if outcome.Rejected? {
            CountFailure();
          }
        }
      }
    }

    method ApplicationTick(input: TickInput) returns (selected: bool, sent: bool)
      modifies this
      ensures State() == Tick(old(State()), input)
      ensures selected == SelectsSink(old(State()), input)
      ensures sent == SendsData(old(State()), input)
    {
      if input.leavePressed {
        mainSinkFound := false;
        failedDataMessages := 0;
      }
      selected := ServeResponse(input);
      if waitingForSinkReady {
        timeToWaitForSinkReady := ToByte(timeToWaitForSinkReady - 1);
        if timeToWaitForSinkReady == 0 {
          waitingForSinkReady := false;
        }
      }
      sent := ServeData(input.send);
    }
  }
}
