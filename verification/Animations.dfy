/** The animation list of `animation.c`: a tick writes every target and takes out what has
    finished, up to 32 at a time. */
module Animations {
  import opened Machine
  import opened Easing

  const REMOVE_MAX := 32

  type Channel = c: int | 0 <= c < 256

  datatype Value = Number(n: int) | Color(r: Channel, g: Channel, b: Channel, a: Channel)

  /** A color channel on its way. */
  function ChannelTween(from: Channel, to: Channel, e: Progress): Channel {
    (from as int + Scaled((to as int - from as int) * e)) % 256
  }

  function Blend(from: Value, to: Value, e: Progress): Value {
    match (from, to)
    case (Number(f), Number(t)) => Number(Tween(f, t, e))
    case (Color(r, g, b, a), Color(r', g', b', a')) =>
      Color(ChannelTween(r, r', e), ChannelTween(g, g', e), ChannelTween(b, b', e), ChannelTween(a, a', e))
    case _ => from
  }

  datatype View = View(startTime: nat, duration: nat, ease: Ease, active: bool, loop: bool, from: Value, to: Value)

  /** Time passed, in 64 bits. */
  function Elapsed(now: nat, start: nat): nat {
    Wrap64(now - start)
  }

  /** How far an animation has come; the exact quotient, rounded down. */
  function Come(elapsed: nat, duration: nat): Progress {
    if elapsed >= duration then 65536
    else
      QuotientBelow(elapsed, duration);
      elapsed * 65536 / duration
  }

  lemma QuotientBelow(elapsed: nat, duration: nat)
    requires elapsed < duration
    ensures 0 <= elapsed * 65536 / duration <= 65536
  {
    var q := elapsed * 65536 / duration;
    assert q * duration <= elapsed * 65536 < duration * 65536;
  }

  predicate Complete(v: View, now: nat) {
    Elapsed(now, v.startTime) >= v.duration
  }

  predicate Finishes(v: View, now: nat) {
    v.active && Complete(v, now) && !v.loop
  }

  /** What a tick writes. */
  function Written(v: View, now: nat): Value {
    var t := Come(Elapsed(now, v.startTime), v.duration);
    EasingInRange(v.ease, t);
    Blend(v.from, v.to, Apply(v.ease, t))
  }

  function AfterTick(v: View, now: nat): View {
    if v.active && Complete(v, now) then if v.loop then v.(startTime := now) else v.(active := false)
    else v
  }

  // ---------- What the values do ----------

  lemma ChannelMoves(from: Channel, to: Channel, e: Progress, e': Progress)
    requires e <= e'
    ensures if from <= to then from <= ChannelTween(from, to, e) <= ChannelTween(from, to, e') <= to
            else to <= ChannelTween(from, to, e') <= ChannelTween(from, to, e) <= from
    ensures ChannelTween(from, to, 0) == from && ChannelTween(from, to, FP_ONE) == to
  {
    ChannelExact(from, to, e);
    ChannelExact(from, to, e');
    ChannelExact(from, to, 0);
    ChannelExact(from, to, FP_ONE);
    Ordered(to as int - from as int, e, e');
  }

  lemma ChannelExact(from: Channel, to: Channel, e: Progress)
    ensures var r := to as int - from as int;
            ChannelTween(from, to, e) as int == from as int + Scaled(r * e)
            && if 0 <= r then 0 <= Scaled(r * e) <= r else r <= Scaled(r * e) <= 0
  {
    ScaledBetween(to as int - from as int, e);
  }

  predicate Fits(from: Value, to: Value) {
    match (from, to)
    case (Number(f), Number(t)) => Int32(f) && Int32(t) && Near(f, t)
    case (Color(_, _, _, _), Color(_, _, _, _)) => true
    case _ => false
  }

  predicate Between(lo: int, v: int, hi: int) {
    lo <= v <= hi || hi <= v <= lo
  }

  /** `v` lies between the ends, in every channel. */
  predicate Within(from: Value, v: Value, to: Value) {
    match (from, v, to)
    case (Number(f), Number(n), Number(t)) => Between(f, n, t)
    case (Color(r, g, b, a), Color(r', g', b', a'), Color(r'', g'', b'', a'')) =>
      Between(r, r', r'') && Between(g, g', g'') && Between(b, b', b'') && Between(a, a', a'')
    case _ => false
  }

  lemma BlendMoves(from: Value, to: Value, e: Progress, e': Progress)
    requires Fits(from, to) && e <= e'
    ensures Within(from, Blend(from, to, e), Blend(from, to, e')) && Within(Blend(from, to, e), Blend(from, to, e'), to)
    ensures Within(from, Blend(from, to, e), to)
    ensures Blend(from, to, 0) == from && Blend(from, to, FP_ONE) == to
  {
    match (from, to)
    case (Number(f), Number(t)) => TweenMoves(f, t, e, e');
    case (Color(r, g, b, a), Color(r', g', b', a')) =>
      ChannelMoves(r, r', e, e');
      ChannelMoves(g, g', e, e');
      ChannelMoves(b, b', e, e');
      ChannelMoves(a, a', e, e');
  }

  lemma ComeGrows(elapsed: nat, later: nat, duration: nat)
    requires elapsed <= later
    ensures Come(elapsed, duration) <= Come(later, duration)
  {
    if later < duration {
      QuotientBelow(later, duration);
      var q, q' := elapsed * 65536 / duration, later * 65536 / duration;
      assert q * duration <= elapsed * 65536 <= later * 65536 < (q' + 1) * duration;
    }
  }

  /** An animated value leaves its start and moves one way as time passes. */
  lemma WrittenMoves(v: View, now: nat, later: nat)
    requires Fits(v.from, v.to)
    requires v.startTime <= now <= later < 0x1_0000_0000_0000_0000
    ensures Within(v.from, Written(v, now), Written(v, later)) && Within(Written(v, now), Written(v, later), v.to)
  {
    var t, t' := Come(Elapsed(now, v.startTime), v.duration), Come(Elapsed(later, v.startTime), v.duration);
    assert t <= t' by {
      assert Elapsed(now, v.startTime) <= Elapsed(later, v.startTime);
      ComeGrows(Elapsed(now, v.startTime), Elapsed(later, v.startTime), v.duration);
    }
    EasedMoves(v, t, t');
  }

  lemma EasedMoves(v: View, t: Progress, t': Progress)
    requires Fits(v.from, v.to) && t <= t'
    ensures 0 <= Apply(v.ease, t) <= Apply(v.ease, t') <= FP_ONE
    ensures var x, y := Blend(v.from, v.to, Apply(v.ease, t)), Blend(v.from, v.to, Apply(v.ease, t'));
            Within(v.from, x, y) && Within(x, y, v.to)
  {
    EasingInRange(v.ease, t);
    EasingInRange(v.ease, t');
    EasingMonotone(v.ease, t, t');
    BlendMoves(v.from, v.to, Apply(v.ease, t), Apply(v.ease, t'));
  }

  /** The target has the kind of the start, and numbers are those of the source's type. */
  predicate Typed(from: Value, to: Value) {
    match (from, to)
    case (Number(f), Number(t)) => Int32(f) && Int32(t)
    case (Color(_, _, _, _), Color(_, _, _, _)) => true
    case _ => false
  }

  /** A complete animation has written exactly the value asked for: a color always, a number exactly if its distance
      fits into 16 signed bits. */
  lemma WrittenEnds(v: View, now: nat)
    requires Typed(v.from, v.to) && Complete(v, now)
    ensures Written(v, now) == v.to <==>
            (v.from.Number? ==> -32768 <= Signed32(v.to.n - v.from.n) <= 32767)
  {
    EasingInRange(v.ease, FP_ONE);
    if v.from.Number? {
      TweenEnds(v.from.n, v.to.n);
    } else {
      BlendMoves(v.from, v.to, FP_ONE, FP_ONE);
    }
  }

  // ---------- The list ----------

  class Target {
    var value: Value

    constructor (value: Value)
      ensures this.value == value
    {
      this.value := value;
    }
  }

  class Animation {
    const target: Target
    const from: Value
    const to: Value
    const duration: nat
    const ease: Ease
    const loop: bool
    var startTime: nat
    var active: bool
    var next: Animation?

    constructor (target: Target, from: Value, to: Value, duration: nat, ease: Ease, startTime: nat, next: Animation?)
      ensures this.target == target && this.next == next
      ensures Now() == View(startTime, duration, ease, true, false, from, to)
    {
      this.target, this.from, this.to, this.duration, this.ease, loop := target, from, to, duration, ease, false;
      this.startTime, active, this.next := startTime, true, next;
    }

    function Now(): View
      reads `startTime, `active
    {
      View(startTime, duration, ease, active, loop, from, to)
    }
  }

  ghost predicate Linked(list: seq<Animation>, head: Animation?)
    reads list`next
  {
    && NoDup(list)
    && (forall i {:trigger list[i].next} :: 0 <= i < |list| - 1 ==> list[i].next == list[i + 1])
    && (if list == [] then head == null else head == list[0] && list[|list| - 1].next == null)
  }

  ghost function Views(list: seq<Animation>): (v: seq<View>)
    reads list`startTime, list`active
    ensures |v| == |list| && forall i {:trigger v[i]} :: 0 <= i < |v| ==> v[i] == list[i].Now()
  {
    if list == [] then [] else Views(list[..|list| - 1]) + [list[|list| - 1].Now()]
  }

  function Finishing(vs: seq<View>, now: nat): nat {
    if vs == [] then 0 else Finishing(vs[..|vs| - 1], now) + if Finishes(vs[|vs| - 1], now) then 1 else 0
  }

  /** The animations a tick takes out: the first 32 of those that finish. */
  ghost function Picked(list: seq<Animation>, vs: seq<View>, now: nat): (r: seq<Animation>)
    requires |list| == |vs|
    ensures |r| == if Finishing(vs, now) < REMOVE_MAX then Finishing(vs, now) else REMOVE_MAX
    ensures forall a :: a in r ==> a in list
  {
    if list == [] then []
    else
      var m := |list| - 1;
      Picked(list[..m], vs[..m], now) + if Finishes(vs[m], now) && Finishing(vs[..m], now) < REMOVE_MAX
          then [list[m]] else []
  }

  lemma PickedNext(list: seq<Animation>, vs: seq<View>, now: nat, i: nat)
    requires |list| == |vs| && i < |list|
    ensures Picked(list[..i + 1], vs[..i + 1], now) == Picked(list[..i], vs[..i], now) +
            if Finishes(vs[i], now) && |Picked(list[..i], vs[..i], now)| < REMOVE_MAX then [list[i]] else []
  {
    assert list[..i + 1][..i] == list[..i] && vs[..i + 1][..i] == vs[..i];
  }

  /** `list` without the members of `gone`. */
  ghost function Pruned(list: seq<Animation>, gone: seq<Animation>): seq<Animation> {
    if list == [] then []
    else Pruned(list[..|list| - 1], gone) + if list[|list| - 1] in gone then [] else [list[|list| - 1]]
  }

  /** What a target shows when the first animations of the list have written: the last of them wins. */
  ghost function Drawn(list: seq<Animation>, vs: seq<View>, now: nat, t: Target, was: Value): Value
    requires |list| == |vs|
  {
    if list == [] then was
    else
      var m := |list| - 1;
      if list[m].target == t && vs[m].active then Written(vs[m], now) else Drawn(list[..m], vs[..m], now, t, was)
  }

  lemma DrawnNext(list: seq<Animation>, vs: seq<View>, now: nat, i: nat, t: Target, was: Value)
    requires |list| == |vs| && i < |list|
    ensures Drawn(list[..i + 1], vs[..i + 1], now, t, was) ==
            if list[i].target == t && vs[i].active then Written(vs[i], now) else Drawn(list[..i], vs[..i], now, t, was)
  {
    assert list[..i + 1][..i] == list[..i] && vs[..i + 1][..i] == vs[..i];
  }

  // ---------- What a tick takes out ----------

  /** An animation is taken out when it finishes among the first 32. */
  lemma {:induction false} PickedIs(list: seq<Animation>, vs: seq<View>, now: nat, j: nat)
    requires |list| == |vs| && NoDup(list) && j < |list|
    ensures list[j] in Picked(list, vs, now) <==> Finishes(vs[j], now) && Finishing(vs[..j], now) < REMOVE_MAX
  {
    var m := |list| - 1;
    if j < m {
      PickedIs(list[..m], vs[..m], now, j);
      assert vs[..m][..j] == vs[..j];
    } else {
      assert list[m] !in list[..m];
    }
  }

  lemma {:induction false} PrunedMembers(list: seq<Animation>, gone: seq<Animation>)
    ensures forall a :: a in Pruned(list, gone) <==> a in list && a !in gone
  {
    if list != [] { PrunedMembers(list[..|list| - 1], gone); }
  }

  lemma {:induction false} FinishingGrows(vs: seq<View>, now: nat, i: nat, j: nat)
    requires i <= j <= |vs|
    ensures Finishing(vs[..i], now) <= Finishing(vs[..j], now)
  {
    if i < j {
      FinishingGrows(vs, now, i, j - 1);
      assert vs[..j][..j - 1] == vs[..j - 1];
    }
  }

  lemma {:induction false} LastFinishing(vs: seq<View>, now: nat) returns (j: nat)
    requires Finishing(vs, now) > 0
    ensures j < |vs| && Finishes(vs[j], now) && Finishing(vs[..j], now) == Finishing(vs, now) - 1
  {
    var m := |vs| - 1;
    if Finishes(vs[m], now) {
      j := m;
    } else {
      j := LastFinishing(vs[..m], now);
      assert vs[..m][..j] == vs[..j];
    }
  }

  /** All that finished is out of the list exactly when no more than 32 finish at once;
      what is left behind is inactive, and no later tick will take it out. */
  lemma AllTakenOut(list: seq<Animation>, vs: seq<View>, now: nat)
    requires |list| == |vs| && NoDup(list)
    ensures (forall j :: 0 <= j < |list| && Finishes(vs[j], now) ==> list[j] !in Pruned(list, Picked(list, vs, now)))
       <==> Finishing(vs, now) <= REMOVE_MAX
    ensures forall v: View, later: nat {:trigger Finishes(v, later)} :: !v.active ==>
        !Finishes(v, later) && AfterTick(v, later) == v
  {
    PrunedMembers(list, Picked(list, vs, now));
    forall j | 0 <= j < |list| && Finishes(vs[j], now)
      ensures list[j] in Picked(list, vs, now) <==> Finishing(vs[..j], now) < REMOVE_MAX
      ensures Finishing(vs[..j], now) < Finishing(vs, now)
    {
      PickedIs(list, vs, now, j);
      FinishingGrows(vs, now, j + 1, |vs|);
      assert vs[..j + 1][..j] == vs[..j] && vs[..|vs|] == vs;
    }
    if Finishing(vs, now) > REMOVE_MAX {
      var j := LastFinishing(vs, now);
      assert list[j] in list;
    }
  }

  lemma {:induction false} PrunedOne(list: seq<Animation>, k: nat)
    requires NoDup(list) && k < |list|
    ensures Pruned(list, [list[k]]) == list[..k] + list[k + 1..]
  {
    var m := |list| - 1;
    if k == m {
      PrunedNone(list[..m], [list[k]]);
    } else {
      PrunedOne(list[..m], k);
      assert list[k + 1..] == list[..m][k + 1..] + [list[m]];
    }
  }

  lemma {:induction false} PrunedNone(list: seq<Animation>, gone: seq<Animation>)
    requires forall i :: 0 <= i < |list| ==> list[i] !in gone
    ensures Pruned(list, gone) == list
  {
    if list != [] { PrunedNone(list[..|list| - 1], gone); }
  }

  lemma {:induction false} PrunedNext(list: seq<Animation>, gone: seq<Animation>, a: Animation)
    ensures Pruned(Pruned(list, gone), [a]) == Pruned(list, gone + [a])
  {
    if list != [] {
      var m := |list| - 1;
      var rest := Pruned(list[..m], gone);
      PrunedNext(list[..m], gone, a);
      if list[m] in gone {
        assert Pruned(list, gone) == rest;
      } else {
        assert Pruned(list, gone) == rest + [list[m]] && (rest + [list[m]])[..|rest|] == rest;
      }
    }
  }

  ghost predicate InSet(list: seq<Animation>, members: set<Animation>) {
    forall i :: 0 <= i < |list| ==> list[i] in members
  }

  lemma PrunedInSet(list: seq<Animation>, gone: seq<Animation>, members: set<Animation>)
    requires InSet(list, members)
    ensures InSet(Pruned(list, gone), members)
  {
    PrunedMembers(list, gone);
    forall i | 0 <= i < |Pruned(list, gone)| ensures Pruned(list, gone)[i] in members {
      assert Pruned(list, gone)[i] in list;
    }
  }

  lemma PrunedFrom(list: seq<Animation>, gone: seq<Animation>, k: nat)
    requires k < |gone|
    ensures Pruned(Pruned(list, gone[..k]), [gone[k]]) == Pruned(list, gone[..k + 1])
    ensures forall i {:trigger Pruned(list, gone[..k])[i]} :: 0 <= i < |Pruned(list, gone[..k])| ==>
        Pruned(list, gone[..k])[i] in list
  {
    PrunedMembers(list, gone[..k]);
    PrunedNext(list, gone[..k], gone[k]);
    assert gone[..k + 1] == gone[..k] + [gone[k]];
  }

  /** What the targets of the list hold. */
  ghost function Shown(list: seq<Animation>): (v: seq<Value>)
    reads Targets(list)
    ensures |v| == |list| && forall i {:trigger v[i]} :: 0 <= i < |v| ==> v[i] == list[i].target.value
  {
    if list == [] then []
    else
      assert Targets(list[..|list| - 1]) <= Targets(list);
      Shown(list[..|list| - 1]) + [list[|list| - 1].target.value]
  }

  ghost function Targets(list: seq<Animation>): set<Target> {
    set a | a in list :: a.target
  }

  /** How far a tick has come: the first `i` of the list have had their turn. */
  ghost predicate Ticking(list: seq<Animation>, vs: seq<View>, was: seq<Value>, now: nat, i: nat)
    reads list`startTime, list`active, Targets(list)`value
  {
    && |vs| == |was| == |list| && i <= |list|
    && (forall j {:trigger list[j]} :: 0 <= j < |list| ==>
          && list[j].Now() == (if j < i then AfterTick(vs[j], now) else vs[j])
          && list[j].target.value == Drawn(list[..i], vs[..i], now, list[j].target, was[j]))
  }

  /** The counter after `n` decrements. */
  function CountedDown(count: nat, n: nat): nat {
    if n == 0 then count else Wrap32(CountedDown(count, n - 1) - 1)
  }

  lemma {:induction false} CountedDownIs(count: nat, n: nat)
    requires count < 0x1_0000_0000
    ensures CountedDown(count, n) == Wrap32(count - n)
  {
    if n > 0 { CountedDownIs(count, n - 1); }
  }

  class AnimationList {
    var head: Animation?
    var count: nat
    ghost var list: seq<Animation>

    ghost predicate Valid()
      reads this, list`next
    {
      Linked(list, head)
    }

    constructor ()
      ensures Valid() && list == [] && count == 0
    {
      head, count, list := null, 0, [];
    }

    /** Starts an animation of a target from where it stands. */
    method Animate(target: Target, to: Value, duration: nat, ease: Ease, ticks: nat) returns (anim: Animation?)
      requires Valid()
      modifies `head, `count, `list
      ensures Valid()
      ensures anim == null <==> duration == 0
      ensures anim == null ==> list == old(list) && count == old(count)
      ensures anim != null ==> count == Wrap32(old(count) + 1)
      ensures anim != null ==>
                && fresh(anim) && list == [anim] + old(list) && anim.target == target
                && anim.Now() == View(ticks * 10, duration, ease, true, false, target.value, to)
    {
      if duration == 0 { return null; }
      anim := new Animation(target, target.value, to, duration, ease, ticks * 10, head);
      head := anim;
      count := Wrap32(count + 1);
      list := [anim] + list;
    }

    method Cut(prev: Animation?, anim: Animation, ghost k: nat)
      requires Linked(list, head) && k < |list| && list[k] == anim && prev == (if k == 0 then null else list[k - 1])
      modifies `head, `list, list`next
      ensures Linked(list, head) && list == old(list)[..k] + old(list)[k + 1..]
    {
      if prev == null { head := anim.next; } else { prev.next := anim.next; }
      list := list[..k] + list[k + 1..];
    }

    /** Takes an animation out of the list, wherever it stands. */
    method Free(anim: Animation)
      requires Linked(list, head)
      modifies `head, `list, `count, list`next
      ensures Linked(list, head) && list == Pruned(old(list), [anim])
      ensures count == Wrap32(old(count) - 1)
    {
      var prev: Animation? := null;
      var current := head;
      ghost var k := 0;
      while current != null && current != anim
        invariant 0 <= k <= |list| && current == (if k < |list| then list[k] else null)
        invariant prev == (if k == 0 then null else list[k - 1])
        invariant forall i :: 0 <= i < k ==> list[i] != anim
        decreases |list| - k
      {
        prev := current;
        current := current.next;
        k := k + 1;
      }
      if current != null {
        PrunedOne(list, k);
        Cut(prev, anim, k);
      } else {
        PrunedNone(list, [anim]);
      }
      count := Wrap32(count - 1);
    }

    /** Ends an animation before its time. */
    method Stop(anim: Animation)
      requires Linked(list, head)
      modifies anim`active, `head, `list, `count, list`next
      ensures Linked(list, head) && list == Pruned(old(list), [anim]) && !anim.active
      ensures count == Wrap32(old(count) - 1)
    {
      anim.active := false;
      Free(anim);
    }

    /** One active animation: its target is written, and a complete one starts over or ends. */
    method Advance(anim: Animation, now: nat) returns (finished: bool)
      requires anim.active
      modifies anim`startTime, anim`active, anim.target`value
      ensures anim.Now() == AfterTick(old(anim.Now()), now)
      ensures anim.target.value == Written(old(anim.Now()), now)
      ensures finished == Finishes(old(anim.Now()), now)
    {
      var elapsed := Elapsed(now, anim.startTime);
      var complete := elapsed >= anim.duration;
      var t := Come(elapsed, anim.duration);
      EasingInRange(anim.ease, t);
      anim.target.value := Blend(anim.from, anim.to, Apply(anim.ease, t));
      finished := false;
      if complete {
        if anim.loop {
          anim.startTime := now;
        } else {
          anim.active := false;
          finished := true;
        }
      }
    }

    /** One turn of the walk over the list. */
    method Turn(anim: Animation, now: nat, toRemove: seq<Animation>, ghost vs: seq<View>, ghost was: seq<Value>,
        ghost i: nat)
      returns (toRemove': seq<Animation>)
      requires Linked(list, head) && Ticking(list, vs, was, now, i) && i < |list| && anim == list[i]
      requires toRemove == Picked(list[..i], vs[..i], now)
      modifies list`startTime, list`active, Targets(list)`value
      ensures Linked(list, head) && Ticking(list, vs, was, now, i + 1)
      ensures toRemove' == Picked(list[..i + 1], vs[..i + 1], now)
    {
      toRemove' := toRemove;
      PickedNext(list, vs, now, i);
      forall j {:trigger list[j]} | 0 <= j < |list| { DrawnNext(list, vs, now, i, list[j].target, was[j]); }
      assert anim.target in Targets(list);
      if anim.active {
        var finished := Advance(anim, now);
        if finished && |toRemove| < REMOVE_MAX {
          toRemove' := toRemove + [anim];
        }
      }
    }

    /** The first loop of a tick. */
    method Walk(now: nat) returns (toRemove: seq<Animation>)
      requires Valid()
      modifies list`startTime, list`active, Targets(list)`value
      ensures Valid() && toRemove == Picked(list, old(Views(list)), now)
      ensures Ticking(list, old(Views(list)), old(Shown(list)), now, |list|)
    {
      ghost var vs, was, i := Views(list), Shown(list), 0;
      var anim := head;
      toRemove := [];
      while anim != null
        invariant i <= |list| && anim == (if i < |list| then list[i] else null)
        invariant Linked(list, head) && Ticking(list, vs, was, now, i)
        invariant toRemove == Picked(list[..i], vs[..i], now)
        decreases |list| - i
      {
        toRemove := Turn(anim, now, toRemove, vs, was, i);
        anim := anim.next;
        i := i + 1;
      }
      assert list[..i] == list && vs[..i] == vs;
    }

    method FreeNext(toRemove: seq<Animation>, k: nat, ghost list0: seq<Animation>, ghost members: set<Animation>)
      requires Linked(list, head) && k < |toRemove| && list == Pruned(list0, toRemove[..k])
      requires InSet(list0, members) && InSet(list, members)
      modifies `head, `list, `count, members`next
      ensures Linked(list, head) && list == Pruned(list0, toRemove[..k + 1]) && InSet(list, members)
      ensures count == Wrap32(old(count) - 1)
    {
      PrunedFrom(list0, toRemove, k);
      Free(toRemove[k]);
      PrunedInSet(list0, toRemove[..k + 1], members);
    }

    /** The second loop of a tick. */
    method FreeAll(toRemove: seq<Animation>, ghost members: set<Animation>)
      requires Linked(list, head) && InSet(list, members)
      modifies `head, `list, `count, members`next
      ensures Linked(list, head) && list == Pruned(old(list), toRemove)
      ensures count == CountedDown(old(count), |toRemove|)
    {
      ghost var list0, count0 := list, count;
      PrunedNone(list, []);
      var k := 0;
      while k < |toRemove|
        invariant k <= |toRemove| && count == CountedDown(count0, k)
        invariant Linked(list, head) && list == Pruned(list0, toRemove[..k]) && InSet(list, members)
      {
        FreeNext(toRemove, k, list0, members);
        k := k + 1;
      }
      assert toRemove[..k] == toRemove;
    }

    /** ... which leaves what the first wrote. */
    method FreeAfter(toRemove: seq<Animation>, now: nat, ghost vs: seq<View>, ghost was: seq<Value>)
      requires Valid() && Ticking(list, vs, was, now, |list|)
      modifies `head, `list, `count, list`next
      ensures Valid() && list == Pruned(old(list), toRemove)
      ensures count == CountedDown(old(count), |toRemove|)
      ensures Ticking(old(list), vs, was, now, |old(list)|)
    {
      ghost var members, list0 := (set a | a in list), list;
      FreeAll(toRemove, members);
      assert Ticking(list0, vs, was, now, |list0|);
    }

    /** Writes every target that an active animation has, and takes out the first 32 that finish. */
    method Tick(now: nat)
      requires Valid()
      modifies `head, `list, `count, list`next, list`startTime, list`active, Targets(list)`value
      ensures Valid() && list == Pruned(old(list), Picked(old(list), old(Views(list)), now))
      ensures Ticking(old(list), old(Views(list)), old(Shown(list)), now, |old(list)|)
      ensures count == CountedDown(old(count), |Picked(old(list), old(Views(list)), now)|)
    {
      ghost var vs, was := Views(list), Shown(list);
      var toRemove := Walk(now);
      FreeAfter(toRemove, now, vs, was);
    }
  }
}
