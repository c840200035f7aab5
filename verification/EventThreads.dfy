/** Any number of threads at the event queue of `event_loop.c`, one memory access
    a step, the lock being taken by test-and-set.

    The steps of different threads interleave in any way. A thread that calls
    `event_push` or `event_poll` spins, works on the ring while it holds the lock,
    and lets go. */
module EventThreads {
  import opened Machine
  import opened EventQueue

  type Tid = nat

  /** Where a thread is in `event_push` or `event_poll`. */
  datatype Pc =
    | Idle
    | PushSpin(e: Event)
    | PushCheck(e: Event)
    | PushStamp(e: Event)
    | PushStore(e: Event)
    | PushTail(e: Event)
    | PushCount(e: Event)
    | PushRelease(e: Event, accepted: bool)
    | PushReturn
    | PollSpin
    | PollCheck
    | PollRead
    | PollHead(e: Event)
    | PollCount(e: Event)
    | PollRelease(result: Option<Event>)
    | PollReturn(result: Option<Event>)

  /** Between taking the lock and letting go of it. */
  predicate Inside(pc: Pc) {
    !pc.Idle? && !pc.PushSpin? && !pc.PollSpin? && !pc.PushReturn? && !pc.PollReturn?
  }

  /** What a thread did while it held the lock. */
  datatype Entry =
    | Pushed(tid: Tid, e: Event, accepted: bool)
    | Polled(tid: Tid, result: Option<Event>)

  /** What can be seen of a thread: a call, with the event handed to `event_push`; the end of its critical
      section; the return, with the event that `event_poll` gives back. */
  datatype Mark =
    | Called(tid: Tid, pushed: Option<Event>)
    | Logged(tid: Tid, entry: Entry)
    | Returned(tid: Tid, result: Option<Event>)

  /** The shared memory, the clock, the threads; and as ghosts of the proof, who took the lock, in which
      order, what was done under it, and all calls and returns. */
  datatype State = State(lock: bool, events: seq<Event>, head: nat, tail: nat, count: nat, ticks: nat,
                         threads: map<Tid, Pc>, acquired: seq<Tid>, log: seq<Entry>, history: seq<Mark>)

  datatype Action =
    | CallPush(tid: Tid, e: Event)
    | CallPoll(tid: Tid)
    | Go(tid: Tid)
    | Tick

  function PcOf(s: State, t: Tid): Pc {
    if t in s.threads then s.threads[t] else Idle
  }

  function At(s: State, t: Tid, pc: Pc): State {
    s.(threads := s.threads[t := pc])
  }

  function Marked(s: State, mark: Mark): State {
    s.(history := s.history + [mark])
  }

  /** Thread `t` lets go of the lock. */
  function Left(s: State, t: Tid, pc: Pc, entry: Entry): State {
    Marked(At(s, t, pc).(lock := false, log := s.log + [entry]), Logged(t, entry))
  }

  /** The next memory access of thread `t`, or its return. */
  function Step(s: State, t: Tid): State
    requires |s.events| == QUEUE_SIZE && s.head < QUEUE_SIZE && s.tail < QUEUE_SIZE
  {
    match PcOf(s, t)
    case Idle => s
    case PushSpin(e) => if s.lock then s else At(s, t, PushCheck(e)).(lock := true, acquired := s.acquired + [t])
    case PushCheck(e) => if s.count < QUEUE_SIZE then At(s, t, PushStamp(e)) else At(s, t, PushRelease(e, false))
    case PushStamp(e) => At(s, t, PushStore(e.(timestamp := s.ticks * 10)))
    case PushStore(e) => At(s, t, PushTail(e)).(events := s.events[s.tail := e])
    case PushTail(e) => At(s, t, PushCount(e)).(tail := (s.tail + 1) % QUEUE_SIZE)
    case PushCount(e) => At(s, t, PushRelease(e, true)).(count := s.count + 1)
    case PushRelease(e, accepted) => Left(s, t, PushReturn, Pushed(t, e, accepted))
    case PushReturn => Marked(At(s, t, Idle), Returned(t, None))
    case PollSpin => if s.lock then s else At(s, t, PollCheck).(lock := true, acquired := s.acquired + [t])
    case PollCheck => if s.count == 0 then At(s, t, PollRelease(None)) else At(s, t, PollRead)
    case PollRead => At(s, t, PollHead(s.events[s.head]))
    case PollHead(e) => At(s, t, PollCount(e)).(head := (s.head + 1) % QUEUE_SIZE)
    case PollCount(e) => At(s, t, PollRelease(Some(e))).(count := if s.count > 0 then s.count - 1 else 0)
    case PollRelease(result) => Left(s, t, PollReturn(result), Polled(t, result))
    case PollReturn(result) => Marked(At(s, t, Idle), Returned(t, result))
  }

  /** One action of the system. A thread that is busy takes no new call. */
  function Next(s: State, a: Action): State
    requires |s.events| == QUEUE_SIZE && s.head < QUEUE_SIZE && s.tail < QUEUE_SIZE
  {
    match a
    case CallPush(t, e) => if PcOf(s, t).Idle? then Marked(At(s, t, PushSpin(e)), Called(t, Some(e))) else s
    case CallPoll(t) => if PcOf(s, t).Idle? then Marked(At(s, t, PollSpin), Called(t, None)) else s
    case Go(t) => Step(s, t)
    case Tick => s.(ticks := s.ticks + 1)
  }

  // ---------- The sequential queue ----------

  /** The queue after one entry of the log, done all at once. */
  function Apply(q: seq<Event>, entry: Entry): seq<Event> {
    match entry
    case Pushed(_, e, accepted) => if accepted then q + [e] else q
    case Polled(_, result) => if result.Some? && q != [] then q[1..] else q
  }

  /** What a bounded first-in first-out queue answers: full drops, empty gives nothing, else the oldest. */
  predicate Answers(q: seq<Event>, entry: Entry) {
    match entry
    case Pushed(_, _, accepted) => accepted <==> |q| < QUEUE_SIZE
    case Polled(_, result) => result == if q == [] then None else Some(q[0])
  }

  function Replay(log: seq<Entry>): seq<Event> {
    if log == [] then [] else Apply(Replay(log[..|log| - 1]), log[|log| - 1])
  }

  predicate Sequential(log: seq<Entry>) {
    log == [] || (Sequential(log[..|log| - 1]) && Answers(Replay(log[..|log| - 1]), log[|log| - 1]))
  }

  lemma LogSnoc(log: seq<Entry>, entry: Entry)
    ensures Replay(log + [entry]) == Apply(Replay(log), entry)
    ensures Sequential(log + [entry]) <==> Sequential(log) && Answers(Replay(log), entry)
  {
    assert (log + [entry])[..|log|] == log;
  }

  // ---------- The invariant ----------

  /** At most one thread is inside, and one is exactly while the lock is taken. */
  ghost predicate Exclusive(s: State) {
    && (forall t, u :: Inside(PcOf(s, t)) && Inside(PcOf(s, u)) ==> t == u)
    && (s.lock <==> exists t :: Inside(PcOf(s, t)))
  }

  /** The ring, when nobody is at work on it. */
  ghost predicate Whole(s: State) {
    && |s.events| == QUEUE_SIZE && s.head < QUEUE_SIZE && s.count <= QUEUE_SIZE
    && s.tail == Slot(s.head, s.count) && Ring(s.events, s.head, s.count) == Replay(s.log)
  }

  /** The ring while a thread is at `pc`, with `q` the queue it found. */
  ghost predicate AtWork(s: State, pc: Pc, q: seq<Event>) {
    && |s.events| == QUEUE_SIZE && s.head < QUEUE_SIZE && s.count <= QUEUE_SIZE
    && match pc
       case PushCheck(_) => s.tail == Slot(s.head, s.count) && Ring(s.events, s.head, s.count) == q
       case PushStamp(_) => s.count < QUEUE_SIZE && s.tail == Slot(s.head, s.count)
           && Ring(s.events, s.head, s.count) == q
       case PushStore(_) => s.count < QUEUE_SIZE && s.tail == Slot(s.head, s.count)
           && Ring(s.events, s.head, s.count) == q
       case PushTail(e) => s.count < QUEUE_SIZE && s.tail == Slot(s.head, s.count)
           && Ring(s.events, s.head, s.count + 1) == q + [e]
       case PushCount(e) => s.count < QUEUE_SIZE && s.tail == Slot(s.head, s.count + 1)
           && Ring(s.events, s.head, s.count + 1) == q + [e]
       case PushRelease(e, accepted) =>
         s.tail == Slot(s.head, s.count) && (accepted <==> |q| < QUEUE_SIZE)
         && Ring(s.events, s.head, s.count) == if accepted then q + [e] else q
       case PollCheck => s.tail == Slot(s.head, s.count) && Ring(s.events, s.head, s.count) == q
       case PollRead => s.count > 0 && s.tail == Slot(s.head, s.count) && Ring(s.events, s.head, s.count) == q
       case PollHead(e) => s.count > 0 && s.tail == Slot(s.head, s.count) && Ring(s.events, s.head, s.count) == q
           && e == q[0]
       case PollCount(e) => s.count > 0 && s.tail == Slot(s.head, s.count - 1) && q != [] && e == q[0]
                            && Ring(s.events, s.head, s.count - 1) == q[1..]
       case PollRelease(result) =>
         s.tail == Slot(s.head, s.count) && result == (if q == [] then None else Some(q[0]))
         && Ring(s.events, s.head, s.count) == if q == [] then q else q[1..]
       case _ => false
  }

  /** The log lists the threads in the order in which they took the lock. */
  ghost predicate InLockOrder(s: State) {
    && |s.acquired| == |s.log| + (if s.lock then 1 else 0)
    && (forall i :: 0 <= i < |s.log| ==> s.log[i].tid == s.acquired[i])
    && (forall t :: Inside(PcOf(s, t)) ==> s.lock && s.acquired[|s.log|] == t)
  }

  /** Accepted events, and delivered ones, in the order of the log. */
  function Accepted(log: seq<Entry>): seq<Event> {
    if log == [] then []
    else match log[|log| - 1]
      case Pushed(_, e, accepted) => if accepted then Accepted(log[..|log| - 1]) + [e] else Accepted(log[..|log| - 1])
      case Polled(_, _) => Accepted(log[..|log| - 1])
  }

  function Delivered(log: seq<Entry>): seq<Event> {
    if log == [] then []
    else match log[|log| - 1]
      case Pushed(_, _, _) => Delivered(log[..|log| - 1])
      case Polled(_, result) =>
        if result.Some? then Delivered(log[..|log| - 1]) + [result.value] else Delivered(log[..|log| - 1])
  }

  ghost predicate InTime(events: seq<Event>) {
    forall i, j :: 0 <= i < j < |events| ==> events[i].timestamp <= events[j].timestamp
  }

  ghost predicate NotAfter(events: seq<Event>, time: nat) {
    forall i :: 0 <= i < |events| ==> events[i].timestamp <= time
  }

  /** The event a thread is about to add, stamped already. */
  ghost predicate StampOk(s: State, pc: Pc) {
    match pc
    case PushStore(e) => NotAfter(Accepted(s.log), e.timestamp) && e.timestamp <= s.ticks * 10
    case PushTail(e) => NotAfter(Accepted(s.log), e.timestamp) && e.timestamp <= s.ticks * 10
    case PushCount(e) => NotAfter(Accepted(s.log), e.timestamp) && e.timestamp <= s.ticks * 10
    case PushRelease(e, accepted) => accepted ==> NotAfter(Accepted(s.log), e.timestamp) && e.timestamp <= s.ticks * 10
    case _ => true
  }

  ghost predicate Stamped(s: State) {
    && InTime(Accepted(s.log)) && NotAfter(Accepted(s.log), s.ticks * 10)
    && forall t :: Inside(PcOf(s, t)) ==> StampOk(s, PcOf(s, t))
  }

  ghost predicate Inv(s: State) {
    && |s.events| == QUEUE_SIZE && s.head < QUEUE_SIZE && s.tail < QUEUE_SIZE
    && Exclusive(s) && InLockOrder(s) && Sequential(s.log) && Stamped(s)
    && (forall t :: Inside(PcOf(s, t)) ==> AtWork(s, PcOf(s, t), Replay(s.log)))
    && (!s.lock ==> Whole(s))
  }

  /** All memory zero, nobody at the queue. */
  ghost predicate Initial(s: State) {
    && |s.events| == QUEUE_SIZE && !s.lock && s.head == s.tail == s.count == 0
    && s.threads == map[] && s.acquired == [] && s.log == [] && s.history == []
  }

  lemma InitialInv(s: State)
    requires Initial(s)
    ensures Inv(s) && Recorded(s)
  {
    assert Ring(s.events, 0, 0) == [];
  }

  // ---------- Each step keeps it ----------

  /** A step of a pushing thread inside, up to but without the release. */
  lemma PushStep(s: State, t: Tid, q: seq<Event>)
    requires PcOf(s, t).PushCheck? || PcOf(s, t).PushStamp? || PcOf(s, t).PushStore? || PcOf(s, t).PushTail?
             || PcOf(s, t).PushCount?
    requires AtWork(s, PcOf(s, t), q)
    requires s.tail < QUEUE_SIZE
    ensures AtWork(Step(s, t), PcOf(Step(s, t), t), q)
  {
    if PcOf(s, t).PushStore? { RingPush(s.events, s.head, s.count, PcOf(s, t).e); }
  }

  /** A step of a polling thread inside. */
  lemma PollStep(s: State, t: Tid, q: seq<Event>)
    requires PcOf(s, t).PollCheck? || PcOf(s, t).PollRead? || PcOf(s, t).PollHead? || PcOf(s, t).PollCount?
    requires AtWork(s, PcOf(s, t), q)
    requires s.tail < QUEUE_SIZE
    ensures AtWork(Step(s, t), PcOf(Step(s, t), t), q)
  {
    if s.count > 0 { RingPop(s.events, s.head, s.count); }
  }

  lemma WorkStep(s: State, t: Tid)
    requires Inv(s) && Inside(PcOf(s, t)) && !PcOf(s, t).PushRelease? && !PcOf(s, t).PollRelease?
    ensures var u := Step(s, t);
            AtWork(u, PcOf(u, t), Replay(s.log)) && Inside(PcOf(u, t)) && u.lock && u.log == s.log
                && u.acquired == s.acquired
  {
    match PcOf(s, t)
    case PollCheck => PollStep(s, t, Replay(s.log));
    case PollRead => PollStep(s, t, Replay(s.log));
    case PollHead(_) => PollStep(s, t, Replay(s.log));
    case PollCount(_) => PollStep(s, t, Replay(s.log));
    case _ => PushStep(s, t, Replay(s.log));
  }

  /** Nobody else is inside before or after a step of the one who is. */
  lemma OthersOutside(s: State, u: State, t: Tid, pc: Pc)
    requires Inv(s) && u.threads == s.threads[t := pc] && (Inside(PcOf(s, t)) || !s.lock)
    ensures forall x :: x != t ==> PcOf(u, x) == PcOf(s, x) && !Inside(PcOf(u, x))
    ensures PcOf(u, t) == pc
  {
  }

  lemma StepInside(s: State, t: Tid)
    requires Inv(s) && Inside(PcOf(s, t)) && !PcOf(s, t).PushRelease? && !PcOf(s, t).PollRelease?
    ensures Inv(Step(s, t))
  {
    var u := Step(s, t);
    WorkStep(s, t);
    OthersOutside(s, u, t, PcOf(u, t));
    assert StampOk(s, PcOf(s, t));
    assert StampOk(u, PcOf(u, t));
  }

  /** The release appends to the log what was done. */
  ghost predicate Releases(s: State, t: Tid, pc: Pc, entry: Entry) {
    && (pc.PushReturn? || pc.PollReturn?)
    && match PcOf(s, t)
       case PushRelease(e, accepted) => entry == Pushed(t, e, accepted)
       case PollRelease(result) => entry == Polled(t, result)
       case _ => false
  }

  lemma ReleaseInOrder(s: State, t: Tid, pc: Pc, entry: Entry)
    requires Inv(s) && Releases(s, t, pc, entry)
    ensures Exclusive(Left(s, t, pc, entry)) && InLockOrder(Left(s, t, pc, entry))
  {
    OthersOutside(s, Left(s, t, pc, entry), t, pc);
  }

  lemma ReleaseWhole(s: State, t: Tid, pc: Pc, entry: Entry)
    requires Inv(s) && Releases(s, t, pc, entry)
    ensures Sequential(Left(s, t, pc, entry).log) && Whole(Left(s, t, pc, entry))
  {
    LogSnoc(s.log, entry);
    assert AtWork(s, PcOf(s, t), Replay(s.log));
  }

  lemma AcceptedSnoc(log: seq<Entry>, entry: Entry)
    ensures Accepted(log + [entry]) == Accepted(log) + if entry.Pushed? && entry.accepted then [entry.e] else []
  {
    assert (log + [entry])[..|log|] == log;
  }

  lemma InTimeSnoc(events: seq<Event>, e: Event, time: nat)
    requires InTime(events) && NotAfter(events, e.timestamp) && e.timestamp <= time
    ensures InTime(events + [e]) && NotAfter(events + [e], time)
  {
  }

  lemma ReleaseStamped(s: State, t: Tid, pc: Pc, entry: Entry)
    requires Inv(s) && Releases(s, t, pc, entry)
    ensures Stamped(Left(s, t, pc, entry))
  {
    OthersOutside(s, Left(s, t, pc, entry), t, pc);
    AcceptedSnoc(s.log, entry);
    assert StampOk(s, PcOf(s, t));
    if entry.Pushed? && entry.accepted {
      InTimeSnoc(Accepted(s.log), entry.e, s.ticks * 10);
    }
  }

  lemma StepRelease(s: State, t: Tid, pc: Pc, entry: Entry)
    requires Inv(s) && Releases(s, t, pc, entry)
    ensures Inv(Left(s, t, pc, entry))
  {
    ReleaseInOrder(s, t, pc, entry);
    ReleaseWhole(s, t, pc, entry);
    ReleaseStamped(s, t, pc, entry);
    OthersOutside(s, Left(s, t, pc, entry), t, pc);
  }

  lemma StepAcquire(s: State, t: Tid)
    requires Inv(s) && (PcOf(s, t).PushSpin? || PcOf(s, t).PollSpin?) && !s.lock
    ensures Inv(Step(s, t))
  {
    var u := Step(s, t);
    OthersOutside(s, u, t, PcOf(u, t));
    assert Inside(PcOf(u, t));
  }

  /** A call or a return: nothing at the ring changes, and nobody comes in. */
  lemma StepOutside(s: State, t: Tid, pc: Pc, mark: Mark)
    requires Inv(s) && !Inside(PcOf(s, t)) && !Inside(pc)
    ensures Inv(Marked(At(s, t, pc), mark))
  {
    var u := Marked(At(s, t, pc), mark);
    assert forall x :: Inside(PcOf(u, x)) <==> Inside(PcOf(s, x));
    assert forall x :: Inside(PcOf(u, x)) ==> PcOf(u, x) == PcOf(s, x);
  }

  /** The clock goes on: what was in time stays in time. */
  lemma StepTick(s: State)
    requires Inv(s)
    ensures Inv(s.(ticks := s.ticks + 1))
  {
    var u := s.(ticks := s.ticks + 1);
    assert forall x :: PcOf(u, x) == PcOf(s, x);
    assert forall x :: Inside(PcOf(s, x)) ==> StampOk(s, PcOf(s, x));
  }

  lemma StepInv(s: State, a: Action)
    requires Inv(s)
    ensures Inv(Next(s, a))
  {
    match a
    case CallPush(t, e) => if PcOf(s, t).Idle? { StepOutside(s, t, PushSpin(e), Called(t, Some(e))); }
    case CallPoll(t) => if PcOf(s, t).Idle? { StepOutside(s, t, PollSpin, Called(t, None)); }
    case Tick => StepTick(s);
    case Go(t) => StepGo(s, t);
  }

  lemma StepGo(s: State, t: Tid)
    requires Inv(s)
    ensures Inv(Step(s, t))
  {
    match PcOf(s, t)
    case Idle =>
    case PushSpin(_) => if !s.lock { StepAcquire(s, t); }
    case PollSpin => if !s.lock { StepAcquire(s, t); }
    case PushRelease(e, accepted) => StepRelease(s, t, PushReturn, Pushed(t, e, accepted));
    case PollRelease(result) => StepRelease(s, t, PollReturn(result), Polled(t, result));
    case PushReturn => StepOutside(s, t, Idle, Returned(t, None));
    case PollReturn(result) => StepOutside(s, t, Idle, Returned(t, result));
    case _ => StepInside(s, t);
  }

  // ---------- Calls and returns ----------

  /** The place of the last mark of a thread, or -1. */
  function LastMark(h: seq<Mark>, t: Tid): (i: int)
    ensures -1 <= i < |h| && (i >= 0 ==> h[i].tid == t)
    ensures forall j {:trigger h[j]} :: i < j < |h| ==> h[j].tid != t
  {
    if h == [] then -1 else if h[|h| - 1].tid == t then |h| - 1 else LastMark(h[..|h| - 1], t)
  }

  /** What the critical section did is what the call asked for: the payload is the one handed in. */
  predicate Serves(pushed: Option<Event>, entry: Entry) {
    match entry
    case Pushed(_, e, _) => pushed.Some? && e.payload == pushed.value.payload
    case Polled(_, _) => pushed.None?
  }

  /** What is returned is what was found under the lock. */
  predicate Reports(entry: Entry, result: Option<Event>) {
    match entry
    case Pushed(_, _, _) => result.None?
    case Polled(_, found) => result == found
  }

  /** A mark fits what its thread did last: call, critical section and return take turns. */
  predicate Follows(h: seq<Mark>, mark: Mark) {
    var i := LastMark(h, mark.tid);
    match mark
    case Called(_, _) => i < 0 || h[i].Returned?
    case Logged(t, entry) => i >= 0 && h[i].Called? && entry.tid == t && Serves(h[i].pushed, entry)
    case Returned(_, result) => i >= 0 && h[i].Logged? && Reports(h[i].entry, result)
  }

  predicate WellFormed(h: seq<Mark>) {
    forall j {:trigger h[j]} :: 0 <= j < |h| ==> Follows(h[..j], h[j])
  }

  function LogOf(h: seq<Mark>): seq<Entry> {
    if h == [] then []
    else LogOf(h[..|h| - 1]) + if h[|h| - 1].Logged? then [h[|h| - 1].entry] else []
  }

  /** A thread at `pc` has last left this mark. */
  predicate Doing(pc: Pc, h: seq<Mark>, t: Tid) {
    var i := LastMark(h, t);
    match pc
    case Idle => i < 0 || h[i].Returned?
    case PushSpin(e) => i >= 0 && h[i].Called? && h[i].pushed.Some? && e.payload == h[i].pushed.value.payload
    case PushCheck(e) => i >= 0 && h[i].Called? && h[i].pushed.Some? && e.payload == h[i].pushed.value.payload
    case PushStamp(e) => i >= 0 && h[i].Called? && h[i].pushed.Some? && e.payload == h[i].pushed.value.payload
    case PushStore(e) => i >= 0 && h[i].Called? && h[i].pushed.Some? && e.payload == h[i].pushed.value.payload
    case PushTail(e) => i >= 0 && h[i].Called? && h[i].pushed.Some? && e.payload == h[i].pushed.value.payload
    case PushCount(e) => i >= 0 && h[i].Called? && h[i].pushed.Some? && e.payload == h[i].pushed.value.payload
    case PushRelease(e, _) => i >= 0 && h[i].Called? && h[i].pushed.Some? && e.payload == h[i].pushed.value.payload
    case PushReturn => i >= 0 && h[i].Logged? && h[i].entry.Pushed?
    case PollReturn(result) => i >= 0 && h[i].Logged? && h[i].entry == Polled(t, result)
    case _ => i >= 0 && h[i].Called? && h[i].pushed.None?
  }

  /** The history is that of the threads, and the log is part of it. */
  ghost predicate Recorded(s: State) {
    && WellFormed(s.history) && LogOf(s.history) == s.log
    && forall t {:trigger PcOf(s, t)} :: Doing(PcOf(s, t), s.history, t)
  }

  lemma LastMarkSnoc(h: seq<Mark>, mark: Mark, t: Tid)
    ensures LastMark(h + [mark], t) == if mark.tid == t then |h| else LastMark(h, t)
  {
    assert (h + [mark])[..|h|] == h;
  }

  lemma WellFormedSnoc(h: seq<Mark>, mark: Mark)
    requires WellFormed(h) && Follows(h, mark)
    ensures WellFormed(h + [mark])
    ensures LogOf(h + [mark]) == LogOf(h) + if mark.Logged? then [mark.entry] else []
  {
    var h' := h + [mark];
    assert h'[..|h|] == h;
    forall j | 0 <= j < |h'| ensures Follows(h'[..j], h'[j]) {
      if j < |h| { assert h'[..j] == h[..j] && h'[j] == h[j]; }
    }
  }

  lemma DoingKept(pc: Pc, h: seq<Mark>, mark: Mark, t: Tid)
    requires Doing(pc, h, t) && mark.tid != t
    ensures Doing(pc, h + [mark], t)
  {
    LastMarkSnoc(h, mark, t);
  }

  /** A step that leaves a mark. */
  lemma MarkRecorded(s: State, u: State, t: Tid, pc: Pc, mark: Mark)
    requires Recorded(s) && mark.tid == t && u.history == s.history + [mark] && u.threads == s.threads[t := pc]
    requires u.log == s.log + if mark.Logged? then [mark.entry] else []
    requires Follows(s.history, mark) && Doing(pc, u.history, t)
    ensures Recorded(u)
  {
    WellFormedSnoc(s.history, mark);
    forall x {:trigger PcOf(u, x)} ensures Doing(PcOf(u, x), u.history, x) {
      if x != t {
        assert PcOf(u, x) == PcOf(s, x);
        DoingKept(PcOf(s, x), s.history, mark, x);
      }
    }
  }

  /** A step that leaves none. */
  lemma QuietRecorded(s: State, u: State, t: Tid, pc: Pc)
    requires Recorded(s) && u.history == s.history && u.log == s.log && u.threads == s.threads[t := pc]
    requires Doing(pc, s.history, t)
    ensures Recorded(u)
  {
    forall x {:trigger PcOf(u, x)} ensures Doing(PcOf(u, x), u.history, x) {
      if x != t { assert PcOf(u, x) == PcOf(s, x); }
    }
  }

  lemma CallRecorded(s: State, t: Tid, pc: Pc, pushed: Option<Event>)
    requires Recorded(s) && PcOf(s, t).Idle?
    requires pc == match pushed case Some(e) => PushSpin(e) case None => PollSpin
    ensures Recorded(Marked(At(s, t, pc), Called(t, pushed)))
  {
    assert Doing(Idle, s.history, t);
    LastMarkSnoc(s.history, Called(t, pushed), t);
    MarkRecorded(s, Marked(At(s, t, pc), Called(t, pushed)), t, pc, Called(t, pushed));
  }

  lemma TickRecorded(s: State)
    requires Recorded(s)
    ensures Recorded(s.(ticks := s.ticks + 1))
  {
    assert forall x {:trigger PcOf(s.(ticks := s.ticks + 1), x)} :: PcOf(s.(ticks := s.ticks + 1), x) == PcOf(s, x);
  }

  lemma StepRecorded(s: State, a: Action)
    requires |s.events| == QUEUE_SIZE && s.head < QUEUE_SIZE && s.tail < QUEUE_SIZE && Recorded(s)
    ensures Recorded(Next(s, a))
  {
    match a
    case CallPush(t, e) => if PcOf(s, t).Idle? { CallRecorded(s, t, PushSpin(e), Some(e)); }
    case CallPoll(t) => if PcOf(s, t).Idle? { CallRecorded(s, t, PollSpin, None); }
    case Tick => TickRecorded(s);
    case Go(t) => GoRecorded(s, t);
  }

  lemma GoRecorded(s: State, t: Tid)
    requires |s.events| == QUEUE_SIZE && s.head < QUEUE_SIZE && s.tail < QUEUE_SIZE && Recorded(s)
    ensures Recorded(Step(s, t))
  {
    match PcOf(s, t)
    case Idle =>
    case PushRelease(e, accepted) => LeftRecorded(s, t, PushReturn, Pushed(t, e, accepted));
    case PollRelease(result) => LeftRecorded(s, t, PollReturn(result), Polled(t, result));
    case PushReturn => ReturnRecorded(s, t, None);
    case PollReturn(result) => ReturnRecorded(s, t, result);
    case _ => WorkRecorded(s, t);
  }

  lemma LeftRecorded(s: State, t: Tid, pc: Pc, entry: Entry)
    requires Recorded(s) && entry.tid == t
    requires match PcOf(s, t)
      case PushRelease(e, accepted) => entry == Pushed(t, e, accepted) && pc == PushReturn
      case PollRelease(result) => entry == Polled(t, result) && pc == PollReturn(result)
      case _ => false
    ensures Recorded(Left(s, t, pc, entry))
  {
    assert Doing(PcOf(s, t), s.history, t);
    LastMarkSnoc(s.history, Logged(t, entry), t);
    MarkRecorded(s, Left(s, t, pc, entry), t, pc, Logged(t, entry));
  }

  lemma ReturnRecorded(s: State, t: Tid, result: Option<Event>)
    requires Recorded(s) && PcOf(s, t) ==
             (if result.Some? || PcOf(s, t).PollReturn? then PollReturn(result) else PushReturn)
    ensures Recorded(Marked(At(s, t, Idle), Returned(t, result)))
  {
    assert Doing(PcOf(s, t), s.history, t);
    LastMarkSnoc(s.history, Returned(t, result), t);
    MarkRecorded(s, Marked(At(s, t, Idle), Returned(t, result)), t, Idle, Returned(t, result));
  }

  lemma WorkRecorded(s: State, t: Tid)
    requires |s.events| == QUEUE_SIZE && s.head < QUEUE_SIZE && s.tail < QUEUE_SIZE && Recorded(s)
    requires var pc := PcOf(s, t);
             !pc.Idle? && !pc.PushRelease? && !pc.PollRelease? && !pc.PushReturn? && !pc.PollReturn?
    ensures Recorded(Step(s, t))
  {
    var u := Step(s, t);
    assert Doing(PcOf(s, t), s.history, t);
    if u != s { QuietRecorded(s, u, t, PcOf(u, t)); }
  }

  lemma {:induction false} LogGrows(h: seq<Mark>, a: nat, b: nat)
    requires a < b <= |h| && h[a].Logged?
    ensures |LogOf(h[..a])| < |LogOf(h[..b])| && LogOf(h[..b])[|LogOf(h[..a])|] == h[a].entry
  {
    assert h[..b][..b - 1] == h[..b - 1];
    if a < b - 1 { LogGrows(h, a, b - 1); }
  }

  /** Real time: an operation that returned at `i`, before another that is logged at `b` was called, stands
      before it in the log; it returned what the log says, and the other did what it was called for. */
  lemma RealTime(h: seq<Mark>, i: nat, b: nat)
    requires WellFormed(h) && i < |h| && h[i].Returned? && b < |h| && h[b].Logged?
    ensures var c := LastMark(h[..b], h[b].tid); 0 <= c && h[c].Called? && Serves(h[c].pushed, h[b].entry)
    ensures var a := LastMark(h[..i], h[i].tid); 0 <= a && h[a].Logged? && Reports(h[a].entry, h[i].result)
    ensures var a, c := LastMark(h[..i], h[i].tid), LastMark(h[..b], h[b].tid);
            i < c ==>
              var m, n := |LogOf(h[..a])|, |LogOf(h[..b])|;
              m < n < |LogOf(h)| && LogOf(h)[m] == h[a].entry && LogOf(h)[n] == h[b].entry
  {
    assert Follows(h[..b], h[b]) && Follows(h[..i], h[i]);
    var a, c := LastMark(h[..i], h[i].tid), LastMark(h[..b], h[b].tid);
    assert h[..i][a] == h[a] && h[..b][c] == h[c] && h[..|h|] == h;
    if i < c {
      LogGrows(h, a, b);
      LogGrows(h, a, |h|);
      LogGrows(h, b, |h|);
    }
  }

  // ---------- Runs ----------

  ghost predicate Reaches(s: State, actions: seq<Action>, u: State)
    decreases actions
  {
    if actions == [] then u == s
    else
      && |s.events| == QUEUE_SIZE && s.head < QUEUE_SIZE && s.tail < QUEUE_SIZE
      && Reaches(Next(s, actions[0]), actions[1..], u)
  }

  lemma {:induction false} RunInv(s: State, actions: seq<Action>, u: State)
    requires Inv(s) && Recorded(s) && Reaches(s, actions, u)
    ensures Inv(u) && Recorded(u)
    decreases actions
  {
    if actions != [] {
      StepInv(s, actions[0]);
      StepRecorded(s, actions[0]);
      RunInv(Next(s, actions[0]), actions[1..], u);
    }
  }

  /** In a sequential log, what was accepted is what was delivered, then what is still queued: each event
      once, and in order. */
  lemma {:induction false} FirstInFirstOut(log: seq<Entry>)
    requires Sequential(log)
    ensures Accepted(log) == Delivered(log) + Replay(log)
    ensures |Replay(log)| <= QUEUE_SIZE
  {
    if log != [] {
      FirstInFirstOut(log[..|log| - 1]);
    }
  }

  /** Whatever the interleaving: the critical sections, in the order in which the lock was taken, are a
      run of the sequential queue; at most one thread is inside; the ring is whole when nobody is; stamps
      do not decrease; and the log is that of the recorded calls and returns (see `RealTime`). */
  lemma Linearizable(s: State, actions: seq<Action>, u: State)
    requires Initial(s) && Reaches(s, actions, u)
    ensures Exclusive(u) && InLockOrder(u) && Sequential(u.log)
    ensures Accepted(u.log) == Delivered(u.log) + Replay(u.log) && InTime(Accepted(u.log))
    ensures !u.lock ==> Whole(u)
    ensures WellFormed(u.history) && LogOf(u.history) == u.log
  {
    InitialInv(s);
    RunInv(s, actions, u);
    FirstInFirstOut(u.log);
  }
}
