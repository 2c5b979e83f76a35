# Verified model of the source route table and the sensor/sink sample application

This project models two parts of a ZigBee code base and proves what they keep over whole runs.

**The source route table of a gateway** (`app/util/source-route*.c`). One array of entries carries two
linked structures through one-byte slot indices: `olderIndex` orders the entries by last touch, so that
a full table evicts the least recently touched one, and `closerIndex` links each node to the next hop
towards the gateway. Every lookup is an unguarded walk to the null index 0xFF. The model proves that the
older links implement a bounded most-recently-used list, what one add does to every route, exactly when
routes stay free of cycles, exactly when a recorded route can be looked up again, that appended headers
can be read back, and what follows from `newestIndex` surviving a reset.

**The attachment protocol of the sensor sample** (`app/sensor/*.c`). A sink advertises itself, a sensor
selects it after a random delay, the sink registers the sensor in its address table and answers READY, and
silent sensors expire after 240 quarter seconds. The model has the sink, line-powered sensors, sleepy and
mobile sensors, the just-in-time messages parents hand to sleeping children, the network in between, and the
fixed-point printing routine the sensors use.

## How it is organised

| file | contents |
|---|---|
| `EmberTypes.dfy`, `IndexChains.dfy` | fixed-width types; chains threaded through a table by slot indices |
| `SourceRoutes.dfy`, `SourceRouteTable.dfy` | one call's effect on a table, as functions; the class that updates the table in place |
| `RecencyOrder.dfy`, `RouteForest.dfy`, `RouteRecords.dfy` | the recency list; routes and cycles; recording, looking up, runs |
| `RouteOperations.dfy` | runs of route records and of nodes added in front of their parents |
| `RouteHeaders.dfy`, `Gateways.dfy` | the header subframe and its round trip; the callbacks of node- and host-based gateways |
| `SourceRouteReset.dfy` | clearing and re-initialising the table |
| `Sink.dfy`, `SinkRuns.dfy` | the sink's address table; each sensor's view of it over runs |
| `SinkLinks.dfy`, `Sensor.dfy`, `SensorRuns.dfy` | failure counting; the line-powered sensor and its runs |
| `SleepySensor.dfy`, `SleepyRuns.dfy` | the sleepy and mobile sensor and its runs |
| `Attachment.dfy` | the protocol as a state machine of all parties and the network |
| `AttachmentRuns.dfy` | which action sends which message; each node's own run; nodes kept registered by their data |
| `JitMessages.dfy`, `FormatFixed.dfy` | just-in-time messages; decimal printing and a parser that undoes it |

Code that works on shared state is a class (or a method over arrays) whose contract ties the new state to a
function of the old one; the properties are lemmas about these functions and about runs of them.

## Findings

Where a property does not hold of the code for every input, the model says exactly when it does.

- `sourceRouteClearTable` and `sourceRouteInit` leave `newestIndex` alone. After clearing a table of n slots that
  held an entry, n adds of distinct ids complete and the next new id never does (`ClearThenHang`).
  `sourceRouteInit` also leaves the older links alone, and whether adds keep completing after it depends on the
  whole order of last touch: they do if and only if slots 0, 1, 2, .. stood in just this order, the newest first
  (`InitStaysReadyIff`). Otherwise n adds of distinct ids complete and the next new id hangs (`InitThenHang`).
  That slot 0 was the newest is enough for the next add only (`InitThenAddEndsIff`): with the order 0, 2, 1 the
  second add makes the eviction walk endless (`NewestFirstIsNotEnough`). No later add mends such a table
  (`EndlessForever`).
- A route record leaves a slot linked to itself exactly if its last two ids are equal, or the table has one
  slot and there is a relay (`RecordKeepsAcyclicIff`). Repetitions elsewhere in a record do no harm, and a later
  record that mentions the id, or evicts it, mends it: whether a run of records leaves a lookup that never ends can
  be told from the ids in its records alone (`RunKeepsAcyclicIff`).
- Adding an entry in front of a known next hop makes a cycle exactly if the id whose entry it takes over, its own or
  the oldest one of a full table, is the next hop or on the next hop's route (`AddWithCloserKeepsAcyclicIff`,
  `OperationKeepsAcyclicIff`). A known node added in front of itself is the simplest case (`AddWithItselfAsCloser`).
  A trust center adds every node that did not join through itself in front of the reported parent this way
  (`app/framework/security/af-trust-center.c:133-137`); over runs that mix this with route records the condition is
  exact as well (`StaysAcyclicIff`).
- The overhead of a route of 127 relays wraps around to 0 (`OverheadAgreesIff`, `OverheadWrapsToZero`).
- The comment above `createAndStoreJitMessage` says a new message replaces the stored data; the code keeps the
  first one (`FirstHelloStays`). The model follows the code.
- A hello that finds no buffer is announced to the children all the same; their polls then hand a null buffer to the
  stack (`AttemptedOnceIff`, `DeliveredOnceIff`).
- A sensor that has a sink was registered once, but may since have expired. Every node can get there from every start
  (`EveryNodeMayBeForgotten`). It is registered now if and only if the sink answered some SELECT of it, the first one
  or one delivered again later, and was kept alive from then on (`RegisteredNowIff`); it was registered ever since it
  was first granted a sink if and only if it was kept alive from that step on (`AttachedStaysRegisteredIff`).

## Assumptions about code that is not shown

The stack is known from its headers only. Its calls become parameters: whether a buffer is available, whether the
address table takes an EUI64, whether a message is accepted for sending, random numbers and the time. A message
buffer is a byte sequence whose growth may fail and exposes arbitrary old bytes. The stack starts with no address
table entry in use, never reports the reserved short id 0xFFFF as a sender, and gives a newly taken child slot a
cleared message flag. Messages are taken as already decoded; packets too short for their type are ignored by the
code and do not occur. Negating the least 32-bit integer, which C leaves undefined, is taken to wrap around.

## Model

| member | source | states |
|---|---|---|
| SourceRouteTables.SourceRouteTable.constructor | app/util/source-route-common.c:14-18 | static initialisation: no entry in use, no newest entry, zeroed slots |
| SourceRouteTables.SourceRouteTable.FindIndex | app/util/source-route-common.c:21-30 | the search loop finds the slot in use that holds the id, or the null index |
| SourceRouteTables.SourceRouteTable.FindOldest | app/util/source-route-common.c:55-58 | the eviction walk ends at the last slot of the recency chain, if that chain ends |
| SourceRouteTables.SourceRouteTable.ChooseSlot | app/util/source-route-common.c:45-60 | an add uses the id's own slot, else a fresh one, else the oldest |
| SourceRouteTables.SourceRouteTable.PromoteSlot | app/util/source-route-common.c:63-72 | in-place relinking of the older links |
| SourceRouteTables.SourceRouteTable.StoreEntry | app/util/source-route-common.c:75-82 | in-place store of id and closer link, and relinking of the further entry |
| SourceRouteTables.SourceRouteTable.AddEntry | app/util/source-route-common.c:42-86 | the whole in-place update and the returned slot, as a function of the old table |
| SourceRouteTables.SourceRouteTable.AddEntryWithCloserNextHop | app/util/source-route-common.c:88-100 | nothing happens for an unknown next hop; otherwise an add plus one link |
| SourceRouteTables.SourceRouteTable.ClearTable | app/util/source-route-common.c:32-38 | zeroes every slot and the count, keeps `newestIndex` |
| SourceRouteTables.SourceRouteTable.Init | app/util/source-route-common.c:102-105 | resets the count and nothing else |
| SourceRoutes.FindFrom | app/util/source-route-common.c:21-30 | the index found is the first slot in use with the id; the null index means no slot in use has it |
| RecencyOrder.FreshIsValid | app/util/source-route-common.c:14-18 | the table invariant holds at static initialisation, with no id in the recency list |
| RecencyOrder.AddMovesToFront | app/util/source-route-common.c:45-72 | an add always completes, evicts only the last slot of the recency order, and moves its slot to the front |
| RecencyOrder.AddKeepsValid | app/util/source-route-common.c:42-86 | the older chain visits each slot in use once, ids stay distinct, routes stay inside the slots in use, and the id is found where it was put |
| RecencyOrder.AddRefinesTouch | app/util/source-route-common.c:45-72 | an add acts on the ids as a touch of a bounded most-recently-used list: move to front, prepend, or drop the last and prepend |
| RouteForest.AddReroutes | app/util/source-route-common.c:74-82 | what one add does to every route: cut at the stored slot, or led from the further entry to it, or unchanged |
| RouteForest.AddIntoFurther | app/util/source-route-common.c:74-82 | an add that goes into the further entry itself: a route still ends, unchanged, if and only if it avoids that entry |
| RouteForest.AddKeepsOnlySelfLinks | app/util/source-route-common.c:74-82 | adds can create no cycle but a slot linked to itself |
| RouteForest.AddSelfLinked | app/util/source-route-common.c:76-82 | which slots link to themselves after an add |
| RouteForest.AddKeepsAcyclicIff | app/util/source-route-common.c:74-82 | an add keeps all routes ending if and only if the further index is null or another slot |
| RouteForest.AddWithCloserLinks | app/util/source-route-common.c:91-95 | after the call the new entry is linked to the slot of its next hop itself, and no other closer link has changed |
| RouteForest.AddWithCloserReroutes | app/util/source-route-common.c:88-100 | what the call does to every walk: unchanged off the filled slot, else on from there along the next hop's own route, or for ever exactly if that route passes the slot |
| RouteForest.AddWithCloserKeepsValid | app/util/source-route-common.c:88-100 | adding in front of a known next hop keeps the table invariant and the order of an add |
| RouteForest.AddWithCloserRefinesTouch | app/util/source-route-common.c:88-100 | to the recency list it is a touch of the new id |
| RouteForest.AddWithCloserKeepsAcyclicIff | app/util/source-route-common.c:88-100 | it keeps all routes ending if and only if the filled slot is not on the next hop's own route |
| RouteForest.AddWithItselfAsCloser | app/util/source-route-common.c:88-100 | a known node added in front of itself always makes a cycle |
| RouteForest.RouteIsLoopFree | app/util/source-route-host.c:63-77 | a route's relays are pairwise distinct, exclude the destination, and number less than the entries in use |
| RouteRecords.AvoidsRecordedSlots | app/util/source-route-common.c:44-60 | while there is room, recording a route neither finds nor evicts a slot of that route |
| RouteRecords.RecordIsFound | app/util/source-route-host.c:47-54 | a recorded route is known to its source and to every relay on it |
| RouteRecords.RecordRoundTripIff | app/util/source-route-host.c:31-78 | record then look up returns the relays in order if and only if the nodes are distinct and fit the table |
| RouteRecords.AddLoops | app/util/source-route-common.c:74-82 | which ids have an entry linked to itself after an add: the added one if it went into the further entry, others as before unless evicted or relinked |
| RouteRecords.RecordLoops | app/util/source-route.c:64-72 | after a record, of its own ids at most the last one is linked to itself, exactly if it repeats the one before or there is one slot; other ids as before, unless evicted |
| RouteRecords.RecordKeepsAcyclicIff | app/util/source-route.c:64-72 | a record keeps all routes ending if and only if it has no relays, or there are two slots and its last two ids differ |
| RouteRecords.RunLoops | app/util/source-route.c:64-72 | which ids have an entry linked to itself after any run of records, from any table |
| RouteRecords.RunKeepsAcyclicIff | app/util/source-route.c:64-72 | over any run of records every lookup still terminates if and only if each id that a record left linked to itself and no later one mentions is missing from the most-recently-used list of the ids |
| RouteRecords.RunKeepsAcyclic | app/util/source-route.c:64-72 | so records that never end that way leave every lookup terminating |
| RouteRecords.RunRefinesTouches | app/util/source-route-common.c:45-72 | over any run the table holds the ids of a most-recently-used list, in its order |
| RouteRecords.RunFromStart | app/util/source-route-common.c:14-18 | from static initialisation: the ids in the table, and when every lookup terminates, both told from the records alone |
| RouteOperations.OperationsRefineTouches | app/util/source-route-common.c:42-100 | over any run of records and of nodes added in front of known or unknown parents the table stays valid and holds the ids of a most-recently-used list |
| RouteOperations.TakenSlotOnRoute | app/util/source-route-common.c:44-60 | the slot an add takes is on a route if and only if the id it replaces, or its own, is |
| RouteOperations.JoinedRouteIff | app/util/source-route-common.c:88-100 | the new node's route is its next hop followed by the next hop's route, if and only if the entry it takes over is not on that |
| RouteOperations.OtherRouteStays | app/util/source-route-common.c:88-100 | a route that avoids the entry taken over is the same afterwards |
| RouteOperations.OtherRouteDiverts | app/util/source-route-common.c:88-100 | a route over that entry goes over the new node instead, and then over its next hop |
| RouteOperations.OperationKeepsAcyclicIff | app/framework/security/af-trust-center.c:133-137 | one such operation keeps every lookup ending if and only if a record does not loop its last id, or the id replaced by the new node is not on its parent's route |
| RouteOperations.StaysAcyclicIff | app/framework/security/af-trust-center.c:133-137 | over any mixed run every lookup ends in every state if and only if each operation meets that condition when its turn comes |
| RouteHeaders.DecodeEncode | app/util/source-route.c:67-69 | little-endian relay lists are read back wherever they were put |
| RouteHeaders.RecordedByNodeIff | app/util/source-route.c:53-72 | records with more than 11 relays change nothing; a shorter one is found again if and only if its nodes are distinct and fit |
| RouteHeaders.AppendLayout | app/util/source-route.c:112-140 | the appended bytes are the relay count, the relay index and the relays, closest to the destination first |
| RouteHeaders.AppendRoundTrip | app/util/source-route.c:66-143 | read back and recorded in any table, they make it append the same bytes if and only if the route fits |
| RouteHeaders.OverheadAgreesIff | app/util/source-route-common.c:112-129 | overhead and appended size agree if and only if there is no route, or at most 11 relays, or exactly 127 |
| RouteHeaders.OverheadIsExactIff | app/util/source-route-common.c:112-129 | the one-byte overhead is exact if and only if there are at most 126 relays, which 127 slots ensure |
| RouteHeaders.OverheadWrapsToZero | app/util/source-route-common.c:120-126 | the overhead of a recorded route is 0 if and only if it has 127 relays |
| Gateways.NodeIncomingRouteRecord | app/util/source-route.c:40-73 | the loop over the header's relay list records the route; more than 11 relays are ignored |
| Gateways.HostIncomingRouteRecord | app/util/source-route-host.c:31-55 | the loop over the caller's bytes records the route |
| Gateways.FindSourceRoute | app/util/source-route-host.c:59-78 | the walk terminates, copies exactly the route, and touches nothing else of the array |
| Gateways.GetSourceRouteOverhead | app/util/source-route-common.c:112-129 | the walk terminates and counts two bytes per relay in one byte |
| Gateways.CountRelays | app/util/source-route.c:88-93 | the counting walk terminates without overflowing its byte |
| Gateways.FillRelays | app/util/source-route.c:131-140 | the filling walk writes the route's relays in order and keeps the bytes before them |
| Gateways.AppendSourceRoute | app/util/source-route.c:75-144 | old bytes are kept, the subframe is appended if it fits the one-byte length, and its size returned; 0 and no change without a route or buffers |
| SourceRouteReset.ClearKeepsValidIff | app/util/source-route-common.c:32-38 | clearing keeps the invariant if and only if the table held nothing; resetting `newestIndex` too restores it |
| SourceRouteReset.EndlessAddIff | app/util/source-route-common.c:54-59 | on an endless table an add completes if and only if it need not evict |
| SourceRouteReset.EndlessKept | app/util/source-route-common.c:62-72 | no add makes an endless recency walk end again, whatever it relinks |
| SourceRouteReset.EndlessForever | app/util/source-route-common.c:54-72 | after any run of completed adds the walk is still endless and an add completes if and only if it need not evict |
| SourceRouteReset.ClearThenHang | app/util/source-route-common.c:32-60 | clear a used table of n slots: n distinct ids go in, any further one hangs |
| SourceRouteReset.RefillStep | app/util/source-route-common.c:45-72 | after the reset, while early slots are handed out again, an add moves its slot to the front of the order kept by the old links and leaves the later places alone |
| SourceRouteReset.InitStaysReadyIff | app/util/source-route-common.c:102-105 | after a reset of the count alone, every run of adds completes if and only if the slots stood in ascending order of last touch |
| SourceRouteReset.InitThenHang | app/util/source-route-common.c:54-72 | otherwise, on n slots, n distinct ids go in and any further one hangs |
| SourceRouteReset.InitThenAddEndsIff | app/util/source-route-common.c:102-105 | the very next add, and that one only, leaves an ending walk if and only if slot 0 was newest |
| SourceRouteReset.NewestFirstIsNotEnough | app/util/source-route-common.c:62-72 | four adds from static initialisation lead to slot 0 newest in order 0, 2, 1; two adds after the reset then make the walk endless |
| SinkTable.SinkNode.constructor | app/sensor/sink.c:1123-1135 | no entry is timed at start-up |
| SinkTable.SinkNode.FindAddressTableLocation | app/sensor/sink.c:1006-1025 | the search loop over the sink's own entries |
| SinkTable.SinkNode.FindFreeAddressTableLocation | app/sensor/sink.c:988-1003 | the search loop for an unused entry |
| SinkTable.FindEui | app/sensor/sink.c:1006-1025 | finds an entry in use for the EUI64, or there is none |
| SinkTable.FindFree | app/sensor/sink.c:988-1003 | finds the lowest unused entry, or all are in use |
| SinkTable.SinkNode.HandleSensorSelectSink | app/sensor/sink.c:907-985 | the in-place update for a SELECT, and whether READY is sent |
| SinkTable.SinkNode.HandleData | app/sensor/sink.c:507-511 | a data message restarts the counter of its sender's entry only |
| SinkTable.SinkNode.AgeEntries | app/sensor/sink.c:764-776 | the aging loop counts every timed entry and frees those past the limit |
| SinkTable.Tick | app/sensor/sink.c:764-776 | aging never touches the trust center's entries |
| SinkRuns.InitialIsValid | app/sensor/sink.c:1132-1134 | at start-up the invariant holds and no sensor is registered |
| SinkRuns.StepKeepsValid | app/sensor/sink.c:907-955 | counters stay in 0..240 or untimed, entries in use are timed, no two entries have the same EUI64, the trust center's entries are not touched |
| SinkRuns.SelectRefinesSame | app/sensor/sink.c:921-976 | a SELECT keeps a known sensor's entry, gives a new one the lowest free entry, and is answered if and only if the sensor ends up registered |
| SinkRuns.NewSensorIff | app/sensor/sink.c:921-976 | a new sensor is registered if and only if one of the 15 entries is unused and the stack has both resources |
| SinkRuns.SelectRefinesOther | app/sensor/sink.c:907-985 | a SELECT changes no other sensor's registration |
| SinkRuns.TickRefines | app/sensor/sink.c:764-776 | a tick ages every sensor's registration, or drops it past 240 |
| SinkRuns.DataRefines | app/sensor/sink.c:507-511 | data resets the age of its sender's registration and no other |
| SinkRuns.StepRefinesNext | app/sensor/sink.c:764-985 | to each sensor, every event moves the shared table like an expiry timer of its own |
| SinkRuns.SilentRun | app/sensor/sink.c:763-776 | expiry is exact: a sensor not heard is dropped by the tick after age 240 and not before |
| SinkRuns.StaysAtIffKeepsAlive | app/sensor/sink.c:124-132 | a sensor keeps its entry through a run if and only if it is heard at least every 240 ticks and never left without an answer buffer |
| SinkLinks.SinkLostIffThreeFailures | app/sensor/sensor.c:380-404 | the sink is dropped if and only if three data messages in a row failed |
| SinkLinks.SinkLostFrom | app/sensor/sensor.c:947-961 | failures counted before the first report are part of the row |
| SensorNode.SensorProgram.IncomingAdvertise | app/sensor/sensor.c:487-501 | taken up only when idle and without a sink |
| SensorNode.SensorProgram.IncomingReady | app/sensor/sensor.c:510-517 | accepted unconditionally |
| SensorNode.SensorProgram.IncomingQuery | app/sensor/common.c:446-492 | a parent answers with its own sink, if it has one and a buffer |
| SensorNode.SensorProgram.CountFailure | app/sensor/sensor.c:948-960 | failure counting in place |
| SensorNode.SensorProgram.DataMessageSent | app/sensor/sensor.c:380-404 | success resets the counter, failure counts |
| SensorNode.SensorProgram.HandleSinkAdvertise | app/sensor/sensor.c:1030-1096 | the sink is saved in every case; SELECT goes out only with both resources |
| SensorNode.SensorProgram.ApplicationTick | app/sensor/sensor.c:674-726 | one serviced tick: delayed answer, READY timeout, data countdown |
| SensorRuns.StepKeepsValid | app/sensor/sensor.c:487-495 | the two waits exclude each other, armed timers are positive and in range, a tick takes one off a pending attempt and no message adds to it |
| SensorRuns.RunKeepsValid | app/sensor/sensor.c:487-495 | hence timers are in range in every state of every run from start-up |
| SensorRuns.TickCountsDown | app/sensor/sensor.c:685-707 | no timer underflows and the attempt's measure drops by one per tick |
| SensorRuns.AttemptsEnd | app/sensor/sensor.c:685-707 | an attempt is over once its pending ticks were serviced, whatever messages arrive |
| SensorRuns.AttemptsEndWithin59Ticks | app/sensor/sensor.c:685-707 | hence within 59 ticks from every state |
| SensorRuns.UnansweredAttemptEndsIff | app/sensor/sensor.c:685-707 | without a READY the bound is exact |
| SensorRuns.AnswerFallsDue | app/sensor/sensor.c:489-499 | the answer comes in exactly one tick, 4 + random % 17 ticks after the advertisement, and names the advertised sink |
| SensorRuns.BusyIgnoresAdvertise | app/sensor/sensor.c:487-489 | a sensor with a sink, or with an attempt pending, ignores advertisements |
| SensorRuns.SelectsSinkIff | app/sensor/sensor.c:685-691 | SELECT goes out if and only if the delay ends in this tick and both resources are there |
| SensorRuns.SinkKeptIff | app/sensor/sensor.c:830-842 | for each event, when there is a sink afterwards: leaving, a SELECT without a buffer and a third failure give it up |
| SensorRuns.SinkLostIff | app/sensor/sensor.c:947-961 | over a run, rejected and undelivered messages alike, failures counted before included, the sink is dropped if and only if three in a row failed |
| SensorRuns.DataEvery80Ticks | app/sensor/sensor.c:713-724 | while a sensor keeps its sink and hears no further READY, its countdown counts the ticks modulo 80 and nothing else, so that it sends every 80 ticks whatever it overhears, waits for or fails to deliver |
| SensorRuns.DataSentIff | app/sensor/sensor.c:713-724 | over a run, data goes out in exactly the ticks at distance 79 modulo 80, if the sink is kept and the stack takes the message |
| SensorRuns.ReadyAttaches | app/sensor/sensor.c:510-517 | READY gives a sink, ends the wait for it, and starts the 80 ticks to the next data message anew |
| SensorRuns.QuietKeepsSink | app/sensor/sensor.c:380-404 | an idle sensor with a sink keeps both if no data message fails |
| SleepySensor.SleepyProgram.IncomingAdvertise | app/sensor/sleepy-sensor.c:493-501 | taken up at once; the three outcomes of selecting the sink |
| SleepySensor.SleepyProgram.IncomingReady | app/sensor/sleepy-sensor.c:510-522 | accepted unconditionally; a mobile sensor sends next |
| SleepySensor.SleepyProgram.DataMessageSent | app/sensor/sleepy-sensor.c:381-412 | clears the wait for the acknowledgement and counts failures |
| SleepySensor.SleepyProgram.SendData | app/sensor/sleepy-sensor.c:1284-1324 | failure counting and the wait for the acknowledgement |
| SleepySensor.SleepyProgram.ServeWaits | app/sensor/sleepy-sensor.c:1015-1056 | one shared amount is cut down by each armed timer it is taken from |
| SleepySensor.SleepyProgram.SendSinkQuery | app/sensor/sleepy-sensor.c:1338-1379 | the wait for an advertisement starts only with a buffer |
| SleepySensor.SleepyProgram.EventHandler | app/sensor/sleepy-sensor.c:981-1087 | one run of the event handler, the truncation of the elapsed time included |
| SleepyRuns.WakeServesTimers | app/sensor/sleepy-sensor.c:1002-1068 | each armed timer loses the least of the low byte of the elapsed time, or 1 if that is 0, and the timers served so far; it strictly decreases, not below zero |
| SleepyRuns.AdvWaitCountsSleep | app/sensor/sleepy-sensor.c:1023-1037 | over runs with short sleeps the advertisement timer drops by exactly the time slept |
| SleepyRuns.AdvWaitRunsOutIff | app/sensor/sleepy-sensor.c:1023-1037 | and runs out in the run that reaches its value |
| SleepyRuns.ReadyWaitCountsSleep | app/sensor/sleepy-sensor.c:1043-1056 | the same for the READY timer |
| SleepyRuns.ReadyWaitRunsOutIff | app/sensor/sleepy-sensor.c:1043-1056 | and for its end |
| SleepyRuns.SelectionWaits | app/sensor/sleepy-sensor.c:493-501 | an advertisement taken up ends the wait for one; a SELECT starts a READY wait of 80 slept ticks |
| SleepyRuns.BusyIgnoresAdvertise | app/sensor/sleepy-sensor.c:493-501 | a sensor with a sink, or waiting for its READY, ignores advertisements |
| SleepyRuns.ReadyAttaches | app/sensor/sleepy-sensor.c:510-522 | READY gives a sink; a mobile sensor sends in the next run, another one after 80 ticks |
| SleepyRuns.AsksIff | app/sensor/sleepy-sensor.c:1076-1086 | the parent is asked if and only if there is no sink, the network is joined, no wait goes on and there is a buffer; it then waits 40 ticks |
| SleepyRuns.SendsDataIff | app/sensor/sleepy-sensor.c:1062-1074 | data goes out if and only if there is a sink, the countdown runs out, the parent responds and the stack takes it |
| SleepyRuns.DataFollowsSleep | app/sensor/sleepy-sensor.c:1062-1074 | over runs, countdown and sending follow from what was slept alone |
| SleepyRuns.AwaitsAckIff | app/sensor/sleepy-sensor.c:381-412 | an acknowledgement is awaited from a submission to the stack's report |
| SleepyRuns.WakeKeepsValid | app/sensor/sleepy-sensor.c:1002-1087 | a run of the event handler keeps the ranges 1..40, 1..80 and 1..80 and the failure count below 3 |
| SleepyRuns.StepKeepsValid | app/sensor/sleepy-sensor.c:457-552 | so does every callback, and none of them moves the timer of a wait that goes on |
| SleepyRuns.RunKeepsValid | app/sensor/sleepy-sensor.c:457-552 | hence timers are in range in every state of every run from start-up |
| SleepyRuns.WaitsEnd | app/sensor/sleepy-sensor.c:1023-1056 | within 80 runs of the handler the READY wait ends, within 40 the advertisement wait ends or the parent is asked again |
| SleepyRuns.SinkKeptIff | app/sensor/sleepy-sensor.c:1308-1324 | for each event, when there is a sink afterwards |
| SleepyRuns.SinkLostIff | app/sensor/sleepy-sensor.c:1308-1324 | the same for the sleepy sensor |
| Attachment.StartInv | app/sensor/sink.c:1123-1135 | the protocol invariant holds at start-up |
| Attachment.ActKeepsInv | app/sensor/sink.c:459-545 | every action of every party keeps it: messages in flight are true of their senders, sinks and table entries are genuine, timers in range |
| Attachment.SelectKeepsInv | app/sensor/sink.c:907-985 | for the sink's handling of a SELECT |
| Attachment.LineTickKeepsInv | app/sensor/sensor.c:660-727 | for a sensor's tick |
| Attachment.LineMessageKeepsInv | app/sensor/sensor.c:475-517 | for a sensor's messages |
| Attachment.SleepyWakeKeepsInv | app/sensor/sleepy-sensor.c:981-1087 | for a sleepy sensor's event handler |
| Attachment.SleepyMessageKeepsInv | app/sensor/sleepy-sensor.c:481-522 | for a sleepy sensor's messages |
| Attachment.ReadyMeansRegistered | app/sensor/sink.c:921-976 | every SELECT, first or repeated, comes from a node that sent it, and is answered READY if and only if that node is registered right after, its age reset |
| Attachment.OnlySelectsAreGranted | app/sensor/sink.c:956-984 | no other action sends a READY |
| Attachment.RegisteredUnderOwnId | app/sensor/sink.c:937-945 | with unique EUI64s, a node is registered under its own short id |
| Attachment.AttachedWasRegistered | app/sensor/sensor.c:510-517 | in every run with loss, duplication and reordering, a node with a sink has the real one and was registered by it at an earlier step |
| Attachment.SinkRunsEvents | app/sensor/sink.c:459-545 | to the sink's table, a run of the protocol is the run of the ticks, SELECTs and data messages that take place in it |
| Attachment.RegisteredIffKeptAlive | app/sensor/sink.c:763-776 | in every run, a registered sensor is registered in every later state if and only if it is heard at least every 240 ticks and never left without an answer buffer |
| Attachment.AttachedStaysRegisteredIff | app/sensor/sink.c:763-776 | an attached node was registered at an earlier step, and ever since if and only if what reached the sink after that step kept it alive |
| Attachment.RegisteredNowIff | app/sensor/sink.c:763-776 | after any run from start-up a sensor is registered if and only if the sink answered some SELECT of it and it was kept alive from then on |
| Attachment.EveryNodeCanAttach | app/sensor/sensor.c:510-517 | from every start, some run brings any node of either kind to have a sink, wait for nothing, and be registered |
| Attachment.AttachedMayBeForgotten | app/sensor/sink.c:763-776 | having a sink does not imply being registered now: 241 silent ticks undo the registration |
| Attachment.EveryNodeMayBeForgotten | app/sensor/sink.c:763-776 | some run from every start ends with any given node attached but not registered |
| AttachmentRuns.DataSentIff | app/sensor/sensor.c:713-724 | over all actions of all parties, data of a node goes out in its own ticks or runs in which its countdown ends with a sink kept, and in no other action |
| AttachmentRuns.SelectSentIff | app/sensor/sensor.c:685-691 | the same for SELECT: a delay that ends, or an advertisement taken up, with both resources |
| AttachmentRuns.QuerySentIff | app/sensor/sleepy-sensor.c:1076-1086 | the same for a query of the parent |
| AttachmentRuns.AdvertiseSentIff | app/sensor/common.c:446-492 | the same for advertisements: the sink's own, and answers to queries |
| AttachmentRuns.ReadySentIff | app/sensor/sink.c:921-976 | the same for READY: the SELECTs after which the sender is registered |
| AttachmentRuns.LineRunsEvents | app/sensor/sensor.c:475-517 | to a line-powered node, a run of the protocol is a run of its own events |
| AttachmentRuns.SleepyRunsEvents | app/sensor/sleepy-sensor.c:481-522 | and so it is to a sleepy node |
| AttachmentRuns.DataKeepsRegistered | app/sensor/sink.c:507-511 | from every start every node can attach and stay registered through any number of ticks by its data every 80 ticks, without another SELECT |
| JitMessages.ClearBitSlots | app/sensor/common.c:622-632 | and-ing with the inverted bit takes that child, and no other, out of the mask |
| JitMessages.FullMaskSlots | app/sensor/common.c:564 | the full mask covers the first 16 children and no others |
| JitMessages.ParentNode.StoreJitMessage | app/sensor/common.c:514-548 | a message is stored only if none is |
| JitMessages.ParentNode.AddJitForAllChildren | app/sensor/common.c:556-586 | sets every mask bit and every present child's flag |
| JitMessages.ParentNode.PollHandler | app/sensor/common.c:594-707 | one poll: whether a unicast is attempted and with which stored message, if any, and which bit and flag are cleared |
| JitMessages.ParentNode.ChildJoinHandler | app/sensor/common.c:782-803 | a joining mobile child has its flag set |
| JitMessages.PollServes | app/sensor/common.c:622-661 | a flagged poll clears the slot's flag and bit, whatever is stored; other slots are not touched |
| JitMessages.FlagIff | app/sensor/common.c:645-661 | after any run a slot's flag is set if and only if a mobile join was the last thing to happen to it, or nothing did and it was set before |
| JitMessages.ChildIff | app/sensor/common.c:782-803 | after any run a slot holds whoever joined last, unless it was left since |
| JitMessages.FlagAfterHello | app/sensor/common.c:556-661 | after any run following a hello: flags and mask bits, told from the events |
| JitMessages.AttemptedOnceIff | app/sensor/common.c:556-661 | between two hellos one unicast to a slot is attempted, with what is stored, if it is one of the first 16 and polls flagged, else none |
| JitMessages.DeliveredOnceIff | app/sensor/common.c:525-661 | and one message is sent if and only if, besides, one is stored; its contents are those of the message stored first |
| JitMessages.PresentChildGetsMessage | app/sensor/common.c:573-585 | a child present at the hello, in one of the first 16 slots, that polls before it is replaced is served exactly once |
| JitMessages.FirstHelloStays | app/sensor/common.c:525-546 | the stored message is that of the first hello with a buffer |
| FixedPoint.FormatRoundTrip | app/sensor/common.c:945-969 | for every 32-bit value the text parses back to it, with max(minDig, digits) digits, `dot` of them after the point, and no point if there are no more |
| FixedPoint.FormatSign | app/sensor/common.c:950-957 | a minus is printed exactly in front of negative values, a plus exactly in front of others if asked for, no sign elsewhere; the length of the text |
| FixedPoint.FormatIsInjective | app/sensor/common.c:945-969 | different values, or different places of the point, never print alike |
| FixedPoint.DigitsFitIff | app/sensor/common.c:947-962 | the scratch buffer is never overrun if and only if minDig is at most 20 |
| FixedPoint.FillScratch | app/sensor/common.c:959-962 | the digit loop |
| FixedPoint.PrintDigits | app/sensor/common.c:963-967 | the print loop writes the digits and the point and nothing else |
| FixedPoint.FormatFixed | app/sensor/common.c:945-969 | the buffer holds the text and its terminating zero, and is otherwise unchanged |

## Left out

- AppendSourceRoute: does not model a header that the route makes longer than 255 bytes, whose length wraps around one byte, because the bytes then addressed lie outside the buffer and their fate is the stack's.
- NodeIncomingRouteRecord: does not model relay lists that reach beyond the header, for the same reason.
- FormatFixed: does not model minDig above 20, which overruns the scratch buffer (`DigitsFitIff`).
- AddEntry: is not called on a table without slots; its callers return early, and so do the modelled ones.
- `securityAddToAddressCache`, the trust center and key switching: the implementations are not part of this model.
- Advertisement timing (`timeBeforeSinkAdvertise`): the sink may advertise at any tick, so the protocol holds for every timing.
- A node leaving and rejoining under another short id: nodes keep their short ids.
- Parent loss and rejoining (`numQsParentGone`, `findAndRejoinTimer`) and sleeping itself: only the effect on the timers is modelled.
- Sensor data and ADC conversion, serial output, CLI, LEDs, buttons other than leaving the network.
- Bootloader, PHY bridge and manufacturing test branches: conditional code around libraries that are not part of this model.
