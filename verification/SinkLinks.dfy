/**
 A sensor's tie to its sink, as both kinds of sensor keep it: whether there is a sink,
 and how many data messages to it failed in a row. Exactly three failures in a row end
 the tie.
 */
module SinkLinks {
  import opened EmberTypes

  const MISS_PACKET_TOLERANCE := 3

  /** Quarter seconds between two data messages. */
  const SEND_DATA_RATE := 80

  /** The payload of an advertisement: the sink's long and short address. */
  datatype Advert = Advert(eui: Eui64, shortId: NodeId)

  /** What an attempt to send a data message runs into. */
  datatype SendOutcome = NoBuffer | Rejected | Submitted

  datatype SinkLink = SinkLink(found: bool, failed: Byte)

  /** One failed data message; the third in a row gives the sink up. */
  function Failure(link: SinkLink): SinkLink {
    var failed := ToByte(link.failed + 1);
    if failed >= MISS_PACKET_TOLERANCE then SinkLink(false, 0) else link.(failed := failed)
  }

  /** The stack reports what became of a data message. */
  function Report(link: SinkLink, delivered: bool): SinkLink {
    if delivered then link.(failed := 0) else Failure(link)
  }

  /** The failures since the last success. */
  function TrailingFailures(reports: seq<bool>): nat {
    if reports == [] || reports[|reports| - 1] then 0 else 1 + TrailingFailures(reports[..|reports| - 1])
  }

  /** Somewhere three reports in a row are failures. */
  ghost predicate ThreeFailures(reports: seq<bool>) {
    exists i :: 0 <= i <= |reports| - 3 && !reports[i] && !reports[i + 1] && !reports[i + 2]
  }

  function Reports(link: SinkLink, reports: seq<bool>): SinkLink
    decreases |reports|
  {
    if reports == [] then link
    else Report(Reports(link, reports[..|reports| - 1]), reports[|reports| - 1])
  }

  /** Three failures at the end of the reports. */
  predicate EndsInThree(reports: seq<bool>) {
    var n := |reports|;
    3 <= n && !reports[n - 1] && !reports[n - 2] && !reports[n - 3]
  }

  lemma TrailingThree(reports: seq<bool>)
    ensures 3 <= TrailingFailures(reports) <==> EndsInThree(reports)
  {
    if reports != [] {
      var once := reports[..|reports| - 1];
      if once != [] {
        var twice := once[..|once| - 1];
        assert TrailingFailures(reports) == if reports[|reports| - 1] then 0 else 1 + TrailingFailures(once);
        assert TrailingFailures(once) == if once[|once| - 1] then 0 else 1 + TrailingFailures(twice);
      }
    }
  }

  /** One more report completes three failures in a row, or leaves the question as it was. */
  lemma ThreeFailuresStep(reports: seq<bool>, last: bool)
    ensures ThreeFailures(reports + [last]) <==> ThreeFailures(reports) || EndsInThree(reports + [last])
  {
    var all := reports + [last];
    assert forall i :: 0 <= i < |reports| ==> all[i] == reports[i];
    if i :| 0 <= i <= |reports| - 3 && !reports[i] && !reports[i + 1] && !reports[i + 2] {
      assert !all[i] && !all[i + 1] && !all[i + 2];
    }
    if EndsInThree(all) {
      var i := |all| - 3;
      assert !all[i] && !all[i + 1] && !all[i + 2];
    }
  }

  /**
   The failure counter is the number of failures since the last success, modulo three, and the
   sink is given up exactly if three reports in a row were failures.
   */
  lemma {:induction false} SinkLostIffThreeFailures(link: SinkLink, reports: seq<bool>)
    requires link.failed == 0
    ensures Reports(link, reports).failed == TrailingFailures(reports) % 3
    ensures Reports(link, reports).found <==> link.found && !ThreeFailures(reports)
    decreases |reports|
  {
    if reports != [] {
      var before, last := reports[..|reports| - 1], reports[|reports| - 1];
      assert before + [last] == reports;
      SinkLostIffThreeFailures(link, before);
      ThreeFailuresStep(before, last);
      TrailingThree(reports);
      if 3 <= TrailingFailures(before) {
        TrailingThree(before);
        EndIsThree(before);
      }
    }
  }

  lemma EndIsThree(reports: seq<bool>)
    requires EndsInThree(reports)
    ensures ThreeFailures(reports)
  {
    var i := |reports| - 3;
    assert !reports[i] && !reports[i + 1] && !reports[i + 2];
  }

  lemma {:induction false} ReportsConcat(link: SinkLink, a: seq<bool>, b: seq<bool>)
    ensures Reports(link, a + b) == Reports(Reports(link, a), b)
    decreases |b|
  {
    if b == [] {
      assert a + b == a;
    } else {
      assert (a + b)[..|a + b| - 1] == a + b[..|b| - 1];
      ReportsConcat(link, a, b[..|b| - 1]);
    }
  }

  // ----- links that already counted failures

  function Failures(n: nat): seq<bool> {
    seq(n, _ => false)
  }

  lemma {:induction false} FewFailures(found: bool, n: nat)
    requires n < MISS_PACKET_TOLERANCE
    ensures Reports(SinkLink(found, 0), Failures(n)) == SinkLink(found, n)
    decreases n
  {
    if n > 0 {
      FewFailures(found, n - 1);
      assert Failures(n)[..n - 1] == Failures(n - 1);
    }
  }

  /** The failures a link has counted before are part of the row. */
  lemma SinkLostFrom(link: SinkLink, reports: seq<bool>)
    requires link.failed < MISS_PACKET_TOLERANCE
    ensures Reports(link, reports).failed == TrailingFailures(Failures(link.failed) + reports) % 3
    ensures Reports(link, reports).found <==> link.found && !ThreeFailures(Failures(link.failed) + reports)
  {
    var unused := SinkLink(link.found, 0);
    FewFailures(link.found, link.failed);
    ReportsConcat(unused, Failures(link.failed), reports);
    SinkLostIffThreeFailures(unused, Failures(link.failed) + reports);
  }

  // ----- links as part of a larger state, driven by events

  function RunOf<S, E>(step: (S, E) -> S, s: S, events: seq<E>): S
    decreases |events|
  {
    if events == [] then s else RunOf(step, step(s, events[0]), events[1..])
  }

  lemma {:induction false} RunOfConcat<S, E>(step: (S, E) -> S, s: S, a: seq<E>, b: seq<E>)
    ensures RunOf(step, s, a + b) == RunOf(step, RunOf(step, s, a), b)
    decreases |a|
  {
    if a == [] {
      assert a + b == b;
    } else {
      assert (a + b)[1..] == a[1..] + b;
      RunOfConcat(step, step(s, a[0]), a[1..], b);
    }
  }

  lemma RunOfOne<S, E>(step: (S, E) -> S, s: S, event: E)
    ensures RunOf(step, s, [event]) == step(s, event)
  {
    assert [event][1..] == [];
  }

  lemma RunOfSnoc<S, E>(step: (S, E) -> S, s: S, events: seq<E>, last: E)
    ensures RunOf(step, s, events + [last]) == step(RunOf(step, s, events), last)
  {
    RunOfConcat(step, s, events, [last]);
    RunOfOne(step, RunOf(step, s, events), last);
  }

  /** What the events of a run say about data messages, in order. */
  function OutcomesOf<S, E>(step: (S, E) -> S, outcome: (S, E) -> seq<bool>, s: S, events: seq<E>): seq<bool>
    decreases |events|
  {
    if events == [] then []
    else outcome(s, events[0]) + OutcomesOf(step, outcome, step(s, events[0]), events[1..])
  }

  /** If every step treats the link as its outcome says, the whole run does. */
  lemma {:induction false} LinkFollowsOutcomes<S(!new), E>(
    step: (S, E) -> S, outcome: (S, E) -> seq<bool>, link: S -> SinkLink, s: S, events: seq<E>)
    requires forall s, e :: e in events ==> link(step(s, e)) == Reports(link(s), outcome(s, e))
    ensures link(RunOf(step, s, events)) == Reports(link(s), OutcomesOf(step, outcome, s, events))
    decreases |events|
  {
    if events != [] {
      assert events[0] in events && forall e :: e in events[1..] ==> e in events;
      var s1 := step(s, events[0]);
      LinkFollowsOutcomes(step, outcome, link, s1, events[1..]);
      ReportsConcat(link(s), outcome(s, events[0]), OutcomesOf(step, outcome, s1, events[1..]));
    }
  }

  lemma ReportsOne(link: SinkLink, delivered: bool)
    ensures Reports(link, [delivered]) == Report(link, delivered)
  {
    assert [delivered][..0] == [];
  }
}
