/**
 Just-in-time messages: a parent keeps one multicast hello for its sleeping children and
 hands it to each of them when it polls. One mask bit per child tells who has still to
 get it; the stack keeps a message flag per child that makes the child's poll count.
 */
module JitMessages {
  import opened EmberTypes

  /** A slot of the child table. */
  type ChildIndex = Byte

  /** The children a 16-bit mask has room for. */
  const MASKED_CHILDREN := 16

  predicate Masked(index: ChildIndex) {
    index < MASKED_CHILDREN
  }

  /** The stack's children and message flags, by slot; the slots still to be served; the stored message. */
  datatype Parent = Parent(
    children: map<ChildIndex, NodeId>, flags: set<ChildIndex>, pending: set<ChildIndex>, stored: Option<seq<Byte>>)

  // ----- what the parent does

  /** A hello arrives: it is stored if nothing is, and announced to every child. */
  function Add(p: Parent, data: seq<Byte>, buffer: bool): Parent {
    p.(pending := (set i: ChildIndex | Masked(i)),
       stored := if p.stored.None? && buffer then Some(data) else p.stored,
       flags := p.flags + p.children.Keys)
  }

  /** A child polls; if its flag is set it is served, and it need not poll for this message again. */
  function Poll(p: Parent, index: ChildIndex): Parent {
    if index !in p.flags then p
    else
      p.(pending := p.pending - {index}, flags := p.flags - {index})
  }

  /** Whether a poll makes the parent hand the stored message, if any, to the stack for this child. */
  predicate Attempts(p: Parent, index: ChildIndex) {
    index in p.flags && index in p.pending
  }

  /** The stack gives a slot to a new child without a flag; a mobile one gets the flag at once. */
  function Join(p: Parent, index: ChildIndex, id: NodeId, mobile: bool): Parent {
    p.(children := p.children[index := id], flags := if mobile then p.flags + {index} else p.flags - {index})
  }

  function Leave(p: Parent, index: ChildIndex): Parent {
    p.(children := p.children - {index}, flags := p.flags - {index})
  }

  // ----- the mask

  /** An unsigned 16-bit word, least significant bit first. */
  type Word16 = w: seq<bool> | |w| == 16 witness [false, false, false, false, false, false, false, false,
    false, false, false, false, false, false, false, false]

  function AllOnes(): Word16 {
    seq(16, _ => true)
  }

  function AllZeroes(): Word16 {
    seq(16, _ => false)
  }

  function And(a: Word16, b: Word16): Word16 {
    seq(16, k requires 0 <= k < 16 => a[k] && b[k])
  }

  function Xor(a: Word16, b: Word16): Word16 {
    seq(16, k requires 0 <= k < 16 => a[k] != b[k])
  }

  /** The low half of 1U << index: no bit at all from the 17th child on. */
  function Bit(index: ChildIndex): Word16 {
    seq(16, k => k == index)
  }

  predicate HasBit(mask: Word16, index: ChildIndex) {
    And(Bit(index), mask) != AllZeroes()
  }

  lemma HasBitIff(mask: Word16, index: ChildIndex)
    ensures HasBit(mask, index) <==> Masked(index) && mask[index]
  {
    var w := And(Bit(index), mask);
    if Masked(index) && mask[index] {
      assert w[index] != AllZeroes()[index];
    } else {
      assert forall k :: 0 <= k < 16 ==> w[k] == AllZeroes()[k];
    }
  }

  /** The slots whose bit is set. */
  function Slots(mask: Word16): set<ChildIndex> {
    set i: ChildIndex | HasBit(mask, i)
  }

  /** The full mask has the bits of the first 16 children. */
  lemma FullMaskSlots()
    ensures Slots(AllOnes()) == set i: ChildIndex | Masked(i)
  {
    forall i: ChildIndex ensures HasBit(AllOnes(), i) <==> Masked(i) {
      HasBitIff(AllOnes(), i);
    }
  }

  lemma NoSlots()
    ensures Slots(AllZeroes()) == {}
  {
    forall i: ChildIndex ensures !HasBit(AllZeroes(), i) {
      HasBitIff(AllZeroes(), i);
    }
  }

  /** And-ing with the inverted bit takes the child's slot, and no other, out of the mask. */
  lemma ClearBitSlots(mask: Word16, index: ChildIndex)
    ensures Slots(And(mask, Xor(Bit(index), AllOnes()))) == Slots(mask) - {index}
  {
    var cleared := And(mask, Xor(Bit(index), AllOnes()));
    forall i: ChildIndex ensures HasBit(cleared, i) <==> HasBit(mask, i) && i != index {
      HasBitIff(cleared, i);
      HasBitIff(mask, i);
    }
  }

  // ----- the parent as a program

  class ParentNode {
    const maxChildCount: ChildIndex
    var children: map<ChildIndex, NodeId>
    var flags: set<ChildIndex>
    var jitMask: Word16
    var jitMessage: Option<seq<Byte>>

    ghost function Contents(): Parent
      reads this
    {
      Parent(children, flags, Slots(jitMask), jitMessage)
    }

    /** The stack's child table has `maxChildCount` slots. */
    ghost predicate Sound()
      reads this
    {
      forall i :: i in children ==> i < maxChildCount
    }

    constructor (maxChildCount: ChildIndex)
      ensures Sound() && Contents() == Parent(map[], {}, {}, None) && this.maxChildCount == maxChildCount
    {
      this.maxChildCount := maxChildCount;
      children, flags, jitMask, jitMessage := map[], {}, AllZeroes(), None;
      new;
      NoSlots();
    }

    method StoreJitMessage(data: seq<Byte>, buffer: bool)
      modifies this`jitMessage
      ensures jitMessage == if old(jitMessage).None? && buffer then Some(data) else old(jitMessage)
    {
      if jitMessage.None? {
        if buffer {
          jitMessage := Some(data);
        }
      }
    }

    method AddJitForAllChildren(data: seq<Byte>, buffer: bool)
      requires Sound()
      modifies this
      ensures Sound() && Contents() == Add(old(Contents()), data, buffer)
    {
      jitMask := AllOnes();
      FullMaskSlots();
      StoreJitMessage(data, buffer);
      FlagAllChildren();
    }

    method FlagAllChildren()
      requires Sound()
      modifies this`flags
      ensures flags == old(flags) + children.Keys
    {
      var i := 0;
      while i < maxChildCount
        invariant i <= maxChildCount && children == old(children)
        invariant flags == old(flags) + set k | k in children && k < i
      {
        if i in children {
          flags := flags + {i};
        }
        i := i + 1;
      }
      assert children.Keys == set k | k in children && k < i;
    }

    /** Handles a poll; the results tell whether a unicast to the child is attempted, and with what. */
    method PollHandler(index: ChildIndex, transmitExpected: bool)
      returns (attempted: bool, message: Option<seq<Byte>>)
      requires transmitExpected == (index in flags)
      modifies this`jitMask, this`flags
      ensures Contents() == Poll(old(Contents()), index)
      ensures attempted == Attempts(old(Contents()), index)
      ensures message == if attempted then old(jitMessage) else None
    {
      attempted, message := false, None;
      if transmitExpected {
        if HasBit(jitMask, index) {
          attempted, message := true, jitMessage;
          ClearBitSlots(jitMask, index);
          jitMask := And(jitMask, Xor(Bit(index), AllOnes()));
        }
        if !HasBit(jitMask, index) {
          flags := flags - {index};
        }
      }
    }

    /** A child took the slot; the stack has cleared its flag, and a mobile child gets it set. */
    method ChildJoinHandler(index: ChildIndex, id: NodeId, mobile: bool)
      requires Sound() && index < maxChildCount
      modifies this`children, this`flags
      ensures Sound() && Contents() == Join(old(Contents()), index, id, mobile)
    {
      children, flags := children[index := id], flags - {index};
      if mobile {
        flags := flags + {index};
      }
    }
  }

  // ----- between two hellos

  datatype Event =
    | Polled(index: ChildIndex)
    | Joined(index: ChildIndex, id: NodeId, mobile: bool)
    | Left(index: ChildIndex)

  function Step(p: Parent, event: Event): Parent {
    match event
    case Polled(index) => Poll(p, index)
    case Joined(index, id, mobile) => Join(p, index, id, mobile)
    case Left(index) => Leave(p, index)
  }

  /** What is handed to the stack for the child at `index`, attempt by attempt; nothing stored is None. */
  function Handed(p: Parent, events: seq<Event>, index: ChildIndex): seq<Option<seq<Byte>>>
    decreases |events|
  {
    if events == [] then []
    else
      (if events[0] == Polled(index) && Attempts(p, index) then [p.stored] else [])
      + Handed(Step(p, events[0]), events[1..], index)
  }

  /** The attempts that have a message to send, by its contents. */
  function Messages(handed: seq<Option<seq<Byte>>>): seq<seq<Byte>> {
    if handed == [] then []
    else (if handed[0].Some? then [handed[0].value] else []) + Messages(handed[1..])
  }

  /** Whoever sits at `index` polls while its flag is set; joining and leaving set and clear the flag. */
  predicate PollsFlagged(events: seq<Event>, index: ChildIndex, flag: bool)
    decreases |events|
  {
    events != [] &&
    if events[0].index != index then PollsFlagged(events[1..], index, flag)
    else
      match events[0]
      case Polled(_) => flag || PollsFlagged(events[1..], index, flag)
      case Joined(_, _, mobile) => PollsFlagged(events[1..], index, mobile)
      case Left(_) => PollsFlagged(events[1..], index, false)
  }

  lemma {:induction false} NoAttemptWithoutBit(p: Parent, events: seq<Event>, index: ChildIndex)
    requires index !in p.pending
    ensures Handed(p, events, index) == []
    decreases |events|
  {
    if events != [] {
      NoAttemptWithoutBit(Step(p, events[0]), events[1..], index);
    }
  }

  /** While its bit is set, a child is served at most once, and once exactly if it polls flagged. */
  lemma {:induction false} AttemptsOnceIffPolls(p: Parent, events: seq<Event>, index: ChildIndex)
    requires index in p.pending
    ensures Handed(p, events, index) == if PollsFlagged(events, index, index in p.flags) then [p.stored] else []
    decreases |events|
  {
    if events != [] {
      var p' := Step(p, events[0]);
      if events[0] == Polled(index) && index in p.flags {
        NoAttemptWithoutBit(p', events[1..], index);
      } else {
        AttemptsOnceIffPolls(p', events[1..], index);
      }
    }
  }

  /**
   Between one hello and the next, one unicast to a child's slot is attempted, with what is stored, if
   the slot is one of the first 16 and its occupant polls with the flag set, and otherwise none.
   */
  lemma AttemptedOnceIff(p: Parent, data: seq<Byte>, buffer: bool, events: seq<Event>, index: ChildIndex)
    ensures Handed(Add(p, data, buffer), events, index)
            == if index < MASKED_CHILDREN && PollsFlagged(events, index, index in p.flags || index in p.children)
               then [Add(p, data, buffer).stored] else []
  {
    if index < MASKED_CHILDREN {
      AttemptsOnceIffPolls(Add(p, data, buffer), events, index);
    } else {
      NoAttemptWithoutBit(Add(p, data, buffer), events, index);
    }
  }

  /**
   Delivery: the slot is sent one message exactly if such an attempt is made and there is a message,
   stored before or with this hello's buffer; it is the one stored before, if there was one.
   */
  lemma DeliveredOnceIff(p: Parent, data: seq<Byte>, buffer: bool, events: seq<Event>, index: ChildIndex)
    ensures Messages(Handed(Add(p, data, buffer), events, index))
            == if && index < MASKED_CHILDREN
                  && PollsFlagged(events, index, index in p.flags || index in p.children)
                  && (p.stored.Some? || buffer)
               then [if p.stored.Some? then p.stored.value else data] else []
  {
    AttemptedOnceIff(p, data, buffer, events, index);
  }

  /** Polling before being replaced is polling flagged. */
  lemma {:induction false} PollsBeforeReplaced(events: seq<Event>, index: ChildIndex, k: nat)
    requires k < |events| && events[k] == Polled(index)
    requires forall j :: 0 <= j < k ==> events[j].index != index || events[j].Polled?
    ensures PollsFlagged(events, index, true)
    decreases k
  {
    if k > 0 {
      assert forall j :: 0 <= j < k - 1 ==> events[1..][j] == events[j + 1];
      PollsBeforeReplaced(events[1..], index, k - 1);
    }
  }

  /** So a child present at the hello, in one of the first 16 slots, gets the message once when it polls. */
  lemma PresentChildGetsMessage(
    p: Parent, data: seq<Byte>, buffer: bool, events: seq<Event>, index: ChildIndex, k: nat)
    requires index in p.children && index < MASKED_CHILDREN
    requires k < |events| && events[k] == Polled(index)
    requires forall j :: 0 <= j < k ==> events[j].index != index || events[j].Polled?
    ensures |Handed(Add(p, data, buffer), events, index)| == 1
    ensures p.stored.None? && buffer ==> Messages(Handed(Add(p, data, buffer), events, index)) == [data]
  {
    PollsBeforeReplaced(events, index, k);
    DeliveredOnceIff(p, data, buffer, events, index);
    AttemptedOnceIff(p, data, buffer, events, index);
  }

  // ----- flags, mask and children over a run

  /** A poll with the flag set clears the slot's flag and bit, and without it changes nothing. */
  lemma PollServes(p: Parent, index: ChildIndex)
    ensures index !in p.flags ==> Poll(p, index) == p
    ensures index in p.flags ==> index !in Poll(p, index).flags && index !in Poll(p, index).pending
    ensures Poll(p, index).children == p.children && Poll(p, index).stored == p.stored
    ensures forall i: ChildIndex :: i != index ==>
              && (i in Poll(p, index).flags <==> i in p.flags)
              && (i in Poll(p, index).pending <==> i in p.pending)
  {
  }

  function Run(p: Parent, events: seq<Event>): Parent
    decreases |events|
  {
    if events == [] then p else Run(Step(p, events[0]), events[1..])
  }

  /** The events of one slot. */
  function EventsOf(events: seq<Event>, index: ChildIndex): seq<Event> {
    if events == [] then []
    else (if events[0].index == index then [events[0]] else []) + EventsOf(events[1..], index)
  }

  /** The events in which a slot changes hands. */
  function Changes(events: seq<Event>, index: ChildIndex): seq<Event> {
    if events == [] then []
    else
      (if events[0].index == index && !events[0].Polled? then [events[0]] else []) + Changes(events[1..], index)
  }

  /**
   After a run a slot's flag is set exactly if the last thing that happened to the slot was that a
   mobile child joined, or nothing happened to it and its flag was set before.
   */
  lemma {:induction false} FlagIff(p: Parent, events: seq<Event>, index: ChildIndex)
    ensures var own := EventsOf(events, index);
            index in Run(p, events).flags
            <==> if own == [] then index in p.flags else own[|own| - 1].Joined? && own[|own| - 1].mobile
    decreases |events|
  {
    if events != [] {
      FlagIff(Step(p, events[0]), events[1..], index);
    }
  }

  /** After a run a slot is taken exactly if a child joined last, or nobody did and left and it was taken before. */
  lemma {:induction false} ChildIff(p: Parent, events: seq<Event>, index: ChildIndex)
    ensures var changes, p' := Changes(events, index), Run(p, events);
            if changes == [] then
              (index in p'.children <==> index in p.children)
              && (index in p.children ==> p'.children[index] == p.children[index])
            else
              (index in p'.children <==> changes[|changes| - 1].Joined?)
              && (index in p'.children ==> p'.children[index] == changes[|changes| - 1].id)
    decreases |events|
  {
    if events != [] {
      ChildIff(Step(p, events[0]), events[1..], index);
    }
  }

  /** After a run a slot's bit is set exactly if it was before and the slot never polled flagged. */
  lemma {:induction false} BitIff(p: Parent, events: seq<Event>, index: ChildIndex)
    ensures index in Run(p, events).pending
            <==> index in p.pending && !PollsFlagged(events, index, index in p.flags)
    ensures Run(p, events).stored == p.stored
    decreases |events|
  {
    if events != [] {
      BitIff(Step(p, events[0]), events[1..], index);
    }
  }

  /** From a hello on: flags of slots that nothing happened to are those set before and those of present children. */
  lemma FlagAfterHello(p: Parent, data: seq<Byte>, buffer: bool, events: seq<Event>, index: ChildIndex)
    ensures var own, p' := EventsOf(events, index), Run(Add(p, data, buffer), events);
            && (index in p'.flags
                <==> if own == [] then index in p.flags || index in p.children
                     else own[|own| - 1].Joined? && own[|own| - 1].mobile)
            && (index in p'.pending
                <==> index < 16 && !PollsFlagged(events, index, index in p.flags || index in p.children))
  {
    FlagIff(Add(p, data, buffer), events, index);
    BitIff(Add(p, data, buffer), events, index);
  }

  // ----- the stored message

  datatype Hello = Hello(data: seq<Byte>, buffer: bool)

  function AddAll(p: Parent, hellos: seq<Hello>): Parent
    decreases |hellos|
  {
    if hellos == [] then p else AddAll(Add(p, hellos[0].data, hellos[0].buffer), hellos[1..])
  }

  /**
   The stored message is that of the first hello for which a buffer was available: later hellos are
   announced, but their contents are not stored.
   */
  lemma {:induction false} FirstHelloStays(p: Parent, hellos: seq<Hello>, k: nat)
    requires p.stored.None? && k < |hellos| && hellos[k].buffer
    requires forall j :: 0 <= j < k ==> !hellos[j].buffer
    ensures AddAll(p, hellos).stored == Some(hellos[k].data)
    decreases |hellos|
  {
    var p1 := Add(p, hellos[0].data, hellos[0].buffer);
    if k == 0 {
      StoredStays(p1, hellos[1..]);
    } else {
      assert forall j :: 0 <= j < k - 1 ==> hellos[1..][j] == hellos[j + 1];
      FirstHelloStays(p1, hellos[1..], k - 1);
    }
  }

  lemma {:induction false} StoredStays(p: Parent, hellos: seq<Hello>)
    requires p.stored.Some?
    ensures AddAll(p, hellos).stored == p.stored
    decreases |hellos|
  {
    if hellos != [] {
      StoredStays(Add(p, hellos[0].data, hellos[0].buffer), hellos[1..]);
    }
  }
}
