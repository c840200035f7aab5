/** The event queue of `event_loop.c` as one thread sees it while it holds the
    lock: a ring of 256 slots, bounded, first in first out. */
module EventQueue {
  import opened Machine

  datatype Payload = Timer(id: nat) | Input(code: int)

  datatype Event = Event(payload: Payload, timestamp: nat)

  const QUEUE_SIZE := 256

  /** The time stamp of an event pushed at tick `ticks`. */
  function Stamp(ticks: nat): nat {
    ticks * 10
  }

  /** The slot `i` places behind `head`, going round. */
  function Slot(head: nat, i: nat): (s: nat)
    ensures s < 256
  {
    (head + i) % 256
  }

  /** The `count` slots from `head` on. */
  ghost function Ring(events: seq<Event>, head: nat, count: nat): (r: seq<Event>)
    requires |events| == QUEUE_SIZE
    ensures |r| == count && forall i {:trigger r[i]} :: 0 <= i < count ==> r[i] == events[Slot(head, i)]
  {
    seq(count, i requires 0 <= i < count => events[Slot(head, i)])
  }

  /** Writing the slot behind the last and counting it appends. */
  lemma RingPush(events: seq<Event>, head: nat, count: nat, e: Event)
    requires |events| == QUEUE_SIZE && head < 256 && count < 256
    ensures Ring(events[Slot(head, count) := e], head, count) == Ring(events, head, count)
    ensures Ring(events[Slot(head, count) := e], head, count + 1) == Ring(events, head, count) + [e]
  {
    assert forall i :: 0 <= i < count ==> Slot(head, i) != Slot(head, count);
  }

  /** Moving the head on and counting down drops the first. */
  lemma RingPop(events: seq<Event>, head: nat, count: nat)
    requires |events| == QUEUE_SIZE && head < 256 && 0 < count <= 256
    ensures Ring(events, head, count)[0] == events[head]
    ensures Ring(events, Slot(head, 1), count - 1) == Ring(events, head, count)[1..]
  {
    assert forall i :: 0 <= i < count - 1 ==> Slot(Slot(head, 1), i) == Slot(head, i + 1);
  }

  class EventQueue {
    const events: array<Event>
    var head: nat
    var tail: nat
    var count: nat

    ghost predicate Valid()
      reads this, events
    {
      && events.Length == QUEUE_SIZE && head < 256 && tail < 256 && count <= 256
      && tail == Slot(head, count)
    }

    ghost function Contents(): (c: seq<Event>)
      requires Valid()
      reads this, events
      ensures |c| == count
    {
      Ring(events[..], head, count)
    }

    constructor ()
      ensures Valid() && Contents() == [] && fresh(events)
    {
      events := new Event[QUEUE_SIZE](_ => Event(Input(0), 0));
      head, tail, count := 0, 0, 0;
    }

    /** Stamps and appends the event, and gives it back as the caller then has it; a full queue drops it. */
    method Push(event: Event, ticks: nat) returns (given: Event)
      requires Valid()
      modifies `tail, `count, events
      ensures Valid()
      ensures Contents() ==
        if |old(Contents())| < QUEUE_SIZE then old(Contents()) + [event.(timestamp := Stamp(ticks))]
            else old(Contents())
      ensures given == if |old(Contents())| < QUEUE_SIZE then event.(timestamp := Stamp(ticks)) else event
    {
      given := event;
      if count < QUEUE_SIZE {
        var e := event.(timestamp := ticks * 10);
        given := e;
        RingPush(events[..], head, count, e);
        ghost var slots := events[..];
        events[tail] := e;
        assert events[..] == slots[tail := e];
        tail := (tail + 1) % QUEUE_SIZE;
        count := count + 1;
      }
    }

    /** Takes the oldest event out, if there is one. */
    method Poll() returns (r: Option<Event>)
      requires Valid()
      modifies `head, `count
      ensures Valid()
      ensures old(Contents()) == [] ==> r == None && Contents() == []
      ensures old(Contents()) != [] ==> r == Some(old(Contents())[0]) && Contents() == old(Contents())[1..]
    {
      if count == 0 { return None; }
      RingPop(events[..], head, count);
      r := Some(events[head]);
      head := (head + 1) % QUEUE_SIZE;
      count := count - 1;
    }
  }
}
