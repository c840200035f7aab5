/** The timer list of `event_loop.c`: a singly linked list, walked and cut through
    a pointer to the link that leads to the current entry. */
module Timers {
  import opened Machine
  import opened EventQueue

  // ---------- What a pass over the timers does ----------

  datatype TimerView = TimerView(id: nat, fireTime: nat, interval: nat, repeat: bool)

  predicate Due(t: TimerView, now: nat) {
    t.fireTime <= now
  }

  predicate Survives(t: TimerView, now: nat) {
    !Due(t, now) || t.repeat
  }

  function Rescheduled(t: TimerView, now: nat): TimerView {
    if Due(t, now) then t.(fireTime := now + t.interval) else t
  }

  /** The timers that fire, in list order. */
  function Fired(ts: seq<TimerView>, now: nat): seq<nat> {
    if ts == [] then []
    else Fired(ts[..|ts| - 1], now) + if Due(ts[|ts| - 1], now) then [ts[|ts| - 1].id] else []
  }

  /** The timers that stay. */
  function Remaining(ts: seq<TimerView>, now: nat): seq<TimerView> {
    if ts == [] then []
    else Remaining(ts[..|ts| - 1], now) + if Survives(ts[|ts| - 1], now) then [Rescheduled(ts[|ts| - 1], now)] else []
  }

  /** The queue after a timer event for each id: what does not fit is dropped. */
  function Announced(q: seq<Event>, ids: seq<nat>, ticks: nat): seq<Event> {
    if ids == [] then q
    else var p := Announced(q, ids[..|ids| - 1], ticks);
         if |p| < QUEUE_SIZE then p + [Event(Timer(ids[|ids| - 1]), Stamp(ticks))] else p
  }

  function TimerEvents(ids: seq<nat>, ticks: nat): (r: seq<Event>)
    ensures |r| == |ids|
  {
    seq(|ids|, i requires 0 <= i < |ids| => Event(Timer(ids[i]), Stamp(ticks)))
  }

  /** The events of a pass are appended in order, up to the capacity of the queue. */
  lemma {:induction false} AnnouncedPrefix(q: seq<Event>, ids: seq<nat>, ticks: nat)
    requires |q| <= QUEUE_SIZE
    ensures var room := QUEUE_SIZE - |q|;
            var n := if |ids| < room then |ids| else room;
            Announced(q, ids, ticks) == q + TimerEvents(ids, ticks)[..n]
  {
    if ids != [] {
      var m := |ids| - 1;
      AnnouncedPrefix(q, ids[..m], ticks);
      assert TimerEvents(ids, ticks) == TimerEvents(ids[..m], ticks) + [Event(Timer(ids[m]), Stamp(ticks))];
    }
  }

  function CountDue(ts: seq<TimerView>, now: nat): nat {
    if ts == [] then 0 else CountDue(ts[..|ts| - 1], now) + if Due(ts[|ts| - 1], now) then 1 else 0
  }

  function CountSurviving(ts: seq<TimerView>, now: nat): nat {
    if ts == [] then 0 else CountSurviving(ts[..|ts| - 1], now) + if Survives(ts[|ts| - 1], now) then 1 else 0
  }

  /** Each due timer fires once, at its turn: after the due ones before it. None other fires. */
  lemma {:induction false} FiredInTurn(ts: seq<TimerView>, now: nat, i: nat)
    requires i < |ts|
    ensures |Fired(ts, now)| == CountDue(ts, now)
    ensures Due(ts[i], now) ==>
              && CountDue(ts[..i], now) < CountDue(ts, now)
              && Fired(ts, now)[CountDue(ts[..i], now)] == ts[i].id
  {
    var m := |ts| - 1;
    if i < m {
      FiredInTurn(ts[..m], now, i);
      assert ts[..m][..i] == ts[..i];
    } else if m > 0 {
      FiredInTurn(ts[..m], now, 0);
    }
  }

  /** Each survivor keeps its turn, with its next time if it was due. One-shots that were due are gone. */
  lemma {:induction false} RemainingInTurn(ts: seq<TimerView>, now: nat, i: nat)
    requires i < |ts|
    ensures |Remaining(ts, now)| == CountSurviving(ts, now)
    ensures Survives(ts[i], now) ==>
              CountSurviving(ts[..i], now) < CountSurviving(ts, now)
              && Remaining(ts, now)[CountSurviving(ts[..i], now)] == Rescheduled(ts[i], now)
  {
    var m := |ts| - 1;
    if i < m {
      RemainingInTurn(ts[..m], now, i);
      assert ts[..m][..i] == ts[..i];
    } else if m > 0 {
      RemainingInTurn(ts[..m], now, 0);
    }
  }

  /** A due repeating timer without an interval is due again at once. */
  predicate Restless(t: TimerView, now: nat) {
    Due(t, now) && t.repeat && t.interval == 0
  }

  function RestlessIds(ts: seq<TimerView>, now: nat): seq<nat> {
    if ts == [] then []
    else RestlessIds(ts[..|ts| - 1], now) + if Restless(ts[|ts| - 1], now) then [ts[|ts| - 1].id] else []
  }

  /** A second pass at the same time fires exactly these, in list order; it is silent exactly when there are none. */
  lemma {:induction false} SecondPass(ts: seq<TimerView>, now: nat)
    ensures Fired(Remaining(ts, now), now) == RestlessIds(ts, now)
    ensures Fired(Remaining(ts, now), now) == [] <==> forall i :: 0 <= i < |ts| ==> !Restless(ts[i], now)
  {
    if ts != [] {
      var m := |ts| - 1;
      SecondPass(ts[..m], now);
      SecondPassLast(ts, now);
      assert forall i :: 0 <= i < m ==> ts[..m][i] == ts[i];
    }
  }

  lemma SecondPassLast(ts: seq<TimerView>, now: nat)
    requires ts != []
    ensures var m := |ts| - 1;
            Fired(Remaining(ts, now), now) ==
            Fired(Remaining(ts[..m], now), now) + if Restless(ts[m], now) then [ts[m].id] else []
  {
    var m := |ts| - 1;
    var r, x := Remaining(ts[..m], now), Rescheduled(ts[m], now);
    if Survives(ts[m], now) {
      assert (r + [x])[..|r|] == r;
      assert Due(x, now) <==> Restless(ts[m], now);
    } else {
      assert r + [] == r;
    }
  }

  /** Where the first timer of that id is, or the length of the list. */
  function IndexOf(ts: seq<TimerView>, id: nat): (i: nat)
    ensures i <= |ts| && (i < |ts| ==> ts[i].id == id) && forall j :: 0 <= j < i ==> ts[j].id != id
  {
    if ts == [] || ts[0].id == id then 0 else 1 + IndexOf(ts[1..], id)
  }

  /** The list without its first timer of that id. */
  function WithoutId(ts: seq<TimerView>, id: nat): seq<TimerView> {
    var i := IndexOf(ts, id);
    if i < |ts| then ts[..i] + ts[i + 1..] else ts
  }

  // ---------- The list ----------

  class TimerEntry {
    const id: nat
    const interval: nat
    const repeat: bool
    var fireTime: nat
    var next: TimerEntry?

    constructor (id: nat, fireTime: nat, interval: nat, repeat: bool, next: TimerEntry?)
      ensures this.id == id && this.interval == interval && this.repeat == repeat
      ensures this.fireTime == fireTime && this.next == next
    {
      this.id, this.interval, this.repeat, this.fireTime, this.next := id, interval, repeat, fireTime, next;
    }

    ghost function View(): TimerView
      reads `fireTime
    {
      TimerView(id, fireTime, interval, repeat)
    }
  }

  ghost function Views(list: seq<TimerEntry>): (v: seq<TimerView>)
    reads list
    ensures |v| == |list| && forall i {:trigger v[i]} :: 0 <= i < |v| ==> v[i] == list[i].View()
  {
    seq(|list|, i requires 0 <= i < |list| reads list => list[i].View())
  }

  ghost predicate Linked(list: seq<TimerEntry>, head: TimerEntry?)
    reads list
  {
    && (forall i, j :: 0 <= i < j < |list| ==> list[i] != list[j])
    && (forall i {:trigger list[i].next} :: 0 <= i < |list| - 1 ==> list[i].next == list[i + 1])
    && (if list == [] then head == null else head == list[0] && list[|list| - 1].next == null)
  }

  lemma ViewsCut(list: seq<TimerEntry>, k: nat)
    requires k < |list|
    ensures Views(list[..k] + list[k + 1..]) == Views(list)[..k] + Views(list)[k + 1..]
  {
  }

  /** One more timer of the pass. */
  lemma PassNext(ts: seq<TimerView>, now: nat, i: nat)
    requires i < |ts|
    ensures Fired(ts[..i + 1], now) == Fired(ts[..i], now) + if Due(ts[i], now) then [ts[i].id] else []
    ensures Remaining(ts[..i + 1], now) == Remaining(ts[..i], now) +
            if Survives(ts[i], now) then [Rescheduled(ts[i], now)] else []
  {
    assert ts[..i + 1][..i] == ts[..i];
  }

  class TimerList {
    var head: TimerEntry?
    var nextId: nat
    const queue: EventQueue
    ghost var list: seq<TimerEntry>

    ghost predicate Valid()
      reads this, list, queue, queue.events
    {
      Linked(list, head) && queue.Valid()
    }

    ghost function Timers(): seq<TimerView>
      reads `list, list
    {
      Views(list)
    }

    constructor (queue: EventQueue)
      requires queue.Valid()
      ensures Valid() && Timers() == [] && this.queue == queue && nextId == 1
    {
      this.queue, head, nextId, list := queue, null, 1, [];
    }

    /** Puts a new timer in front. */
    method AddTimer(interval: nat, repeat: bool, ticks: nat) returns (id: nat)
      requires Valid()
      modifies `head, `nextId, `list
      ensures Valid() && id == old(nextId) && nextId == Wrap32(old(nextId) + 1)
      ensures Timers() == [TimerView(id, ticks * 10 + interval, interval, repeat)] + old(Timers())
    {
      id := nextId;
      nextId := Wrap32(nextId + 1);
      var timer := new TimerEntry(id, ticks * 10 + interval, interval, repeat, head);
      head := timer;
      list := [timer] + list;
    }

    /** Cuts out the entry behind `prev`. */
    method Cut(prev: TimerEntry?, timer: TimerEntry, ghost k: nat)
      requires Linked(list, head) && k < |list| && list[k] == timer && prev == (if k == 0 then null else list[k - 1])
      modifies `head, `list, list`next
      ensures Linked(list, head) && list == old(list)[..k] + old(list)[k + 1..]
    {
      if prev == null { head := timer.next; } else { prev.next := timer.next; }
      list := list[..k] + list[k + 1..];
    }

    /** The link to the first timer of that id. */
    method FindTimer(id: nat) returns (prev: TimerEntry?, current: TimerEntry?, ghost k: nat)
      requires Linked(list, head)
      ensures k == IndexOf(Timers(), id) && k <= |list|
      ensures current == (if k < |list| then list[k] else null) && prev == (if k == 0 then null else list[k - 1])
    {
      prev := null;
      current := head;
      k := 0;
      while current != null && current.id != id
        invariant k <= |list| && current == (if k < |list| then list[k] else null)
        invariant prev == (if k == 0 then null else list[k - 1])
        invariant k <= IndexOf(Timers(), id)
        decreases |list| - k
      {
        assert Timers()[k] == current.View();
        prev := current;
        current := current.next;
        k := k + 1;
      }
      assert current != null ==> Timers()[k] == current.View();
    }

    method RemoveTimer(id: nat)
      requires Valid()
      modifies `head, `list, list`next
      ensures Valid() && Timers() == WithoutId(old(Timers()), id)
    {
      ghost var ts := Timers();
      var prev, current, k := FindTimer(id);
      if current != null {
        Cut(prev, current, k);
        assert Views(old(list)) == ts;
        ViewsCut(old(list), k);
      }
    }

    /** The callback of a due timer is called, and an event tells of it. */
    method Fire(timer: TimerEntry, now: nat, ticks: nat, fired: seq<nat>, ghost q: seq<Event>)
        returns (fired': seq<nat>)
      requires queue.Valid() && queue.Contents() == Announced(q, fired, ticks)
      modifies queue, queue.events
      ensures queue.Valid() && fired' == fired + [timer.id] && queue.Contents() == Announced(q, fired', ticks)
    {
      fired' := fired + [timer.id];
      var _ := queue.Push(Event(Timer(timer.id), now), ticks);
      assert fired'[..|fired|] == fired;
    }

    /** The list in the middle of a pass: `done` at its front, what is left of `ts` behind. */
    ghost predicate Halfway(done: seq<TimerView>, left: seq<TimerView>)
      reads `list, `head, list
    {
      && Linked(list, head) && |list| == |done| + |left|
      && (forall i {:trigger done[i]} :: 0 <= i < |done| ==> list[i].View() == done[i])
      && (forall i {:trigger left[i]} :: 0 <= i < |left| ==> list[|done| + i].View() == left[i])
    }

    /** Where the walk is: `prev` is the last of the front, `current` the first of what is left. */
    ghost predicate Walking(done: seq<TimerView>, left: seq<TimerView>, prev: TimerEntry?, current: TimerEntry?)
      reads `list, `head, list
    {
      && Halfway(done, left)
      && current == (if left == [] then null else list[|done|])
      && prev == (if done == [] then null else list[|done| - 1])
    }

    /** On to the next entry, this one staying as it is. */
    lemma WalkOn(done: seq<TimerView>, left: seq<TimerView>, prev: TimerEntry?, current: TimerEntry)
      requires Walking(done, left, prev, current)
      ensures Walking(done + [left[0]], left[1..], current, current.next)
    {
      assert left[1..] == [] || list[|done|].next == list[|done| + 1];
    }

    lemma WalkEnds(done: seq<TimerView>, left: seq<TimerView>, prev: TimerEntry?, current: TimerEntry?)
      requires Walking(done, left, prev, current) && left == []
      ensures Timers() == done && Linked(list, head)
    {
    }

    lemma WalkStarts()
      requires Linked(list, head)
      ensures Walking([], Timers(), null, head)
    {
    }

    method Reschedule(timer: TimerEntry, time: nat, ghost done: seq<TimerView>, ghost left: seq<TimerView>,
        ghost prev: TimerEntry?)
      requires Walking(done, left, prev, timer)
      modifies timer`fireTime
      ensures Walking(done + [left[0].(fireTime := time)], left[1..], timer, timer.next)
    {
      assert timer.View() == left[0];
      timer.fireTime := time;
      ghost var left' := [left[0].(fireTime := time)] + left[1..];
      assert Walking(done, left', prev, timer);
      WalkOn(done, left', prev, timer);
    }

    method CutHere(timer: TimerEntry, prev: TimerEntry?, ghost done: seq<TimerView>, ghost left: seq<TimerView>)
        returns (next: TimerEntry?)
      requires Walking(done, left, prev, timer)
      modifies `head, `list, list`next
      ensures Walking(done, left[1..], prev, next) && forall i :: 0 <= i < |list| ==> list[i] in old(list)
    {
      next := timer.next;
      assert left[1..] == [] || list[|done|].next == list[|done| + 1];
      Cut(prev, timer, |done|);
    }

    /** One entry of the walk: what is due fires, and is given a new time or an end. */
    method Visit(prev: TimerEntry?, timer: TimerEntry, now: nat, ghost done: seq<TimerView>, ghost left: seq<TimerView>)
      returns (prev': TimerEntry?, current': TimerEntry?)
      requires Walking(done, left, prev, timer)
      modifies `head, `list, list`next, list`fireTime
      ensures Walking(done + (if Survives(left[0], now) then [Rescheduled(left[0], now)] else []),
                      left[1..], prev', current')
      ensures forall i :: 0 <= i < |list| ==> list[i] in old(list)
    {
      assert timer.View() == left[0];
      if timer.fireTime <= now {
        if timer.repeat {
          Reschedule(timer, now + timer.interval, done, left, prev);
          prev', current' := timer, timer.next;
        } else {
          assert done + [] == done;
          current' := CutHere(timer, prev, done, left);
          prev' := prev;
        }
      } else {
        WalkOn(done, left, prev, timer);
        prev', current' := timer, timer.next;
      }
    }

    /** One turn of the loop. */
    method Turn(prev: TimerEntry?, timer: TimerEntry, now: nat, ticks: nat, fired: seq<nat>,
                ghost q: seq<Event>, ghost done: seq<TimerView>, ghost left: seq<TimerView>)
      returns (prev': TimerEntry?, current': TimerEntry?, fired': seq<nat>)
      requires Walking(done, left, prev, timer)
      requires queue.Valid() && queue.Contents() == Announced(q, fired, ticks)
      modifies `head, `list, list`next, list`fireTime, queue, queue.events
      ensures Walking(done + (if Survives(left[0], now) then [Rescheduled(left[0], now)] else []),
                      left[1..], prev', current')
      ensures forall i :: 0 <= i < |list| ==> list[i] in old(list)
      ensures fired' == fired + if Due(left[0], now) then [left[0].id] else []
      ensures queue.Valid() && queue.Contents() == Announced(q, fired', ticks)
    {
      assert timer.View() == left[0];
      fired' := fired;
      if timer.fireTime <= now { fired' := Fire(timer, now, ticks, fired, q); }
      prev', current' := Visit(prev, timer, now, done, left);
    }

    /** The first `n` timers have had their turn. */
    ghost predicate Passed(ts: seq<TimerView>, n: nat, now: nat, ticks: nat, q: seq<Event>,
                           prev: TimerEntry?, current: TimerEntry?, fired: seq<nat>)
      reads `list, `head, list, queue, queue.events
    {
      && n <= |ts| && fired == Fired(ts[..n], now)
      && Walking(Remaining(ts[..n], now), ts[n..], prev, current)
      && queue.Valid() && queue.Contents() == Announced(q, fired, ticks)
    }

    method PassOne(prev: TimerEntry?, timer: TimerEntry, now: nat, ticks: nat, fired: seq<nat>,
                   ghost q: seq<Event>, ghost ts: seq<TimerView>, ghost n: nat)
      returns (prev': TimerEntry?, current': TimerEntry?, fired': seq<nat>)
      requires Passed(ts, n, now, ticks, q, prev, timer, fired)
      modifies `head, `list, list`next, list`fireTime, queue, queue.events
      ensures Passed(ts, n + 1, now, ticks, q, prev', current', fired')
      ensures forall i :: 0 <= i < |list| ==> list[i] in old(list)
    {
      PassNext(ts, now, n);
      assert ts[n..][0] == ts[n] && ts[n..][1..] == ts[n + 1..];
      prev', current', fired' := Turn(prev, timer, now, ticks, fired, q, Remaining(ts[..n], now), ts[n..]);
    }

    /** Fires what is due: callback and event for each, a new time for the repeating, an end for the rest. */
    method ProcessTimers(now: nat, ticks: nat) returns (fired: seq<nat>)
      requires Valid()
      modifies `head, `list, list`next, list`fireTime, queue, queue.events
      ensures Valid()
      ensures fired == Fired(old(Timers()), now) && Timers() == Remaining(old(Timers()), now)
      ensures queue.Contents() == Announced(old(queue.Contents()), fired, ticks)
    {
      fired := [];
      var prev: TimerEntry? := null;
      var current := head;
      ghost var n, ts, q := 0, Timers(), queue.Contents();
      WalkStarts();
      assert ts[0..] == ts;
      while current != null
        invariant Passed(ts, n, now, ticks, q, prev, current, fired)
        invariant forall i :: 0 <= i < |list| ==> list[i] in old(list)
        decreases |ts| - n
      {
        prev, current, fired := PassOne(prev, current, now, ticks, fired, q, ts, n);
        n := n + 1;
      }
      assert ts[..n] == ts;
      WalkEnds(Remaining(ts, now), ts[n..], prev, current);
    }
  }
}
