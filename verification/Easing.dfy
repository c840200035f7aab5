/** The fixed-point easing of `animation.c`: progress and its eased value are numbers
    from 0 to `FP_ONE`. */
module Easing {
  import opened Machine

  const FP_ONE := 65536

  datatype Ease = Linear | EaseIn | EaseOut | EaseInOut | Bounce | Elastic

  type Progress = t: int | 0 <= t <= 65536

  /** The product of two fixed-point numbers, shifted right: rounded down. */
  function MulFp(a: int, b: int): int {
    Signed32(a * b / 65536)
  }

  function Cube(t: int): int {
    MulFp(MulFp(t, t), t)
  }

  /** Division by `FP_ONE` in C: toward zero. */
  function Scaled(p: int): int {
    if p >= 0 then p / 65536 else -(-p / 65536)
  }

  function Apply(ease: Ease, t: Progress): int {
    match ease
    case EaseIn => Cube(t)
    case EaseOut => FP_ONE - Cube(FP_ONE - t)
    case EaseInOut =>
      if t < FP_ONE / 2 then Cube(t * 2) / 2
      else FP_ONE - Cube(FP_ONE * 2 - t * 2) / 2
    case _ => t
  }

  lemma MulInRange(a: Progress, b: Progress)
    ensures 0 <= MulFp(a, b) <= a && MulFp(a, b) * 65536 <= a * b < (MulFp(a, b) + 1) * 65536
  {
    assert 0 <= a * b <= a * 65536;
  }

  lemma MulMonotone(a: Progress, b: Progress, a': Progress, b': Progress)
    requires a <= a' && b <= b'
    ensures MulFp(a, b) <= MulFp(a', b')
  {
    MulInRange(a, b);
    MulInRange(a', b');
    TimesMonotone(a, a', b);
    TimesMonotone(b, b', a');
    assert a * b <= a' * b <= a' * b';
  }

  lemma TimesMonotone(x: int, y: int, z: int)
    requires x <= y && 0 <= z
    ensures x * z <= y * z
  {
  }

  lemma CubeInRange(t: Progress)
    ensures 0 <= Cube(t) <= t && Cube(0) == 0 && Cube(FP_ONE) == FP_ONE
  {
    MulInRange(t, t);
    MulInRange(MulFp(t, t), t);
  }

  lemma CubeMonotone(t: Progress, t': Progress)
    requires t <= t'
    ensures Cube(t) <= Cube(t')
  {
    MulInRange(t, t);
    MulInRange(t', t');
    MulMonotone(t, t, t', t');
    MulMonotone(MulFp(t, t), t, MulFp(t', t'), t');
  }

  /** Every easing leads from 0 to `FP_ONE` and stays between. */
  lemma EasingInRange(ease: Ease, t: Progress)
    ensures 0 <= Apply(ease, t) <= FP_ONE
    ensures Apply(ease, 0) == 0 && Apply(ease, FP_ONE) == FP_ONE
  {
    match ease
    case EaseIn => CubeInRange(t);
    case EaseOut => CubeInRange(FP_ONE - t);
    case EaseInOut =>
      CubeInRange(0);
      if t < FP_ONE / 2 { CubeInRange(t * 2); } else { CubeInRange(FP_ONE * 2 - t * 2); }
    case _ =>
  }

  /** No easing ever goes back. */
  lemma EasingMonotone(ease: Ease, t: Progress, t': Progress)
    requires t <= t'
    ensures Apply(ease, t) <= Apply(ease, t')
  {
    match ease
    case EaseIn => CubeMonotone(t, t');
    case EaseOut => CubeMonotone(FP_ONE - t', FP_ONE - t);
    case EaseInOut =>
      if t' < FP_ONE / 2 {
        CubeMonotone(t * 2, t' * 2);
        CubeInRange(t * 2);
      } else if t < FP_ONE / 2 {
        CubeInRange(t * 2);
        CubeInRange(FP_ONE * 2 - t' * 2);
      } else {
        CubeMonotone(FP_ONE * 2 - t' * 2, FP_ONE * 2 - t * 2);
        CubeInRange(FP_ONE * 2 - t' * 2);
      }
    case _ =>
  }

  /** The easing that undoes another in the mirror of time. */
  function Mirror(ease: Ease): Ease {
    match ease
    case EaseIn => EaseOut
    case EaseOut => EaseIn
    case _ => ease
  }

  /** Run backwards, an easing is its mirror, to the last unit. */
  lemma EasingMirrored(ease: Ease, t: Progress)
    ensures Apply(ease, t) + Apply(Mirror(ease), FP_ONE - t) == FP_ONE
  {
    match ease
    case EaseInOut =>
      assert FP_ONE * 2 - (FP_ONE - t) * 2 == t * 2;
      if t == FP_ONE / 2 {
        assert t * 2 == FP_ONE;
        CubeInRange(FP_ONE);
      }
    case _ =>
  }

  lemma RestBetween(d: int, t: Progress)
    requires 0 <= d < 65536
    ensures 0 <= d * t <= 65536 * t
  {
  }

  lemma RoundedProduct(s: int, q: int, t: Progress)
    requires s * 65536 <= q < (s + 1) * 65536
    ensures s * t * 65536 <= q * t <= s * t * 65536 + 65536 * t
  {
    var d := q - s * 65536;
    RestBetween(d, t);
    assert q * t == (s * 65536 + d) * t == s * 65536 * t + d * t;
    assert s * 65536 * t == s * t * 65536;
  }

  /** Two roundings down cost less than two units. */
  lemma EaseInPrecise(t: Progress)
    ensures Apply(EaseIn, t) * 0x1_0000_0000 <= t * t * t < (Apply(EaseIn, t) + 2) * 0x1_0000_0000
  {
    var s := MulFp(t, t);
    MulInRange(t, t);
    MulInRange(s, t);
    RoundedProduct(s, t * t, t);
  }

  // ---------- Interpolation ----------

  /** The value `animate_int` writes, in 32-bit arithmetic. */
  function Tween(from: int, to: int, e: Progress): int {
    Signed32(from + Scaled(Signed32(Signed32(to - from) * e)))
  }

  /** The range over which no product overflows. */
  predicate Near(from: int, to: int) {
    -32768 <= to - from <= 32767
  }

  lemma TweenExact(from: int, to: int, e: Progress)
    requires Int32(from) && Int32(to) && Near(from, to)
    ensures Tween(from, to, e) == from + Scaled((to - from) * e)
    ensures if from <= to then 0 <= (to - from) * e <= (to - from) * 65536
        else (to - from) * 65536 <= (to - from) * e <= 0
  {
    ScaledBetween(to - from, e);
    assert Int32(to - from) && Int32((to - from) * e) && Int32(from + Scaled((to - from) * e));
  }

  lemma ScaledBetween(r: int, e: Progress)
    ensures if 0 <= r then 0 <= r * e <= r * 65536 && 0 <= Scaled(r * e) <= r
            else r * 65536 <= r * e <= 0 && r <= Scaled(r * e) <= 0
  {
    if r >= 0 {
      ProductBetween(r, e);
    } else {
      ProductBetween(-r, e);
      assert r * e == -(-r * e);
    }
  }

  lemma ProductBetween(r: int, e: Progress)
    requires r >= 0
    ensures 0 <= r * e <= r * 65536
  {
  }

  /** Within its range an animated number stays between its ends, moves one way, and
      ends exactly at its target. */
  lemma TweenMoves(from: int, to: int, e: Progress, e': Progress)
    requires Int32(from) && Int32(to) && Near(from, to) && e <= e'
    ensures if from <= to then from <= Tween(from, to, e) <= Tween(from, to, e') <= to
            else to <= Tween(from, to, e') <= Tween(from, to, e) <= from
    ensures Tween(from, to, 0) == from && Tween(from, to, FP_ONE) == to
  {
    TweenExact(from, to, e);
    TweenExact(from, to, e');
    TweenExact(from, to, 0);
    TweenExact(from, to, FP_ONE);
    Ordered(to - from, e, e');
  }

  lemma Ordered(r: int, e: Progress, e': Progress)
    requires e <= e'
    ensures if r >= 0 then r * e <= r * e' else r * e' <= r * e
  {
    assert r * e' == r * e + r * (e' - e);
  }

  lemma ScaledBack(r: int)
    requires Int32(r)
    ensures var q := Scaled(Signed32(r * 65536)); -32768 <= q <= 32767 && (-32768 <= r <= 32767 ==> q == r)
  {
  }

  /** The one step that leads from a number to another. */
  lemma OneStep(from: int, to: int, q: int)
    requires Int32(from) && Int32(to) && Int32(q)
    ensures Signed32(from + q) == to <==> q == Signed32(to - from)
  {
  }

  /** Outside that range the product overflows: the end is reached exactly when the
      distance fits into 16 bits. */
  lemma TweenEnds(from: int, to: int)
    requires Int32(from) && Int32(to)
    ensures Tween(from, to, FP_ONE) == to <==> -32768 <= Signed32(to - from) <= 32767
  {
    var r := Signed32(to - from);
    var q := Scaled(Signed32(r * FP_ONE));
    assert q == Scaled(Signed32(r * 65536)) && Tween(from, to, FP_ONE) == Signed32(from + q);
    ScaledBack(r);
    OneStep(from, to, q);
  }

  /** A course from one number to another: between them, one way, and to the end. */
  ghost predicate Course(f: Progress -> int, from: int, to: int) {
    && (forall e: Progress, e': Progress {:trigger f(e), f(e')} :: e <= e' ==>
          if from <= to then from <= f(e) <= f(e') <= to else to <= f(e') <= f(e) <= from)
    && f(0) == from && f(65536) == to
  }

  /** The course of an animated number. */
  function Tweening(from: int, to: int): Progress -> int {
    (e: Progress) => Tween(from, to, e)
  }

  /** From one end of the 32-bit range to the other: the distance wraps around to one step the other way. */
  predicate EndToEnd(from: int, to: int) {
    (from == -0x8000_0000 && to == 0x7FFF_FFFF) || (from == 0x7FFF_FFFF && to == -0x8000_0000)
  }

  lemma CourseInOneStep(f: Progress -> int, from: int, to: int)
    requires forall e: Progress :: f(e) == if e == 65536 then to else from
    ensures Course(f, from, to)
  {
  }

  /** Half way, a longer distance that wraps around has led out of the range between the ends. */
  lemma HalfWayOut(from: int, to: int)
    requires Int32(from) && Int32(to) && !Int32(to - from) && !EndToEnd(from, to)
    requires -32768 <= Signed32(to - from) <= 32767
    ensures var t := Tween(from, to, 32768); if from <= to then t < from || t > to else t < to || t > from
  {
    var r := Signed32(to - from);
    assert Signed32(r * 32768) == r * 32768;
    assert to - from == if from <= to then r + 0x1_0000_0000 else r - 0x1_0000_0000;
    HalfOf(r);
  }

  lemma HalfOf(r: int)
    ensures Scaled(r * 32768) == if r >= 0 then r / 2 else -(-r / 2)
  {
  }

  lemma UpEndToEnd(e: Progress)
    ensures Tween(-0x8000_0000, 0x7FFF_FFFF, e) == if e == 65536 then 0x7FFF_FFFF else -0x8000_0000
  {
    var p: int := 0 - e;
    assert Signed32(0x7FFF_FFFF - -0x8000_0000) == -1 && -1 * e == p;
    assert Signed32(p) == p;
    assert Scaled(p) == if e == 65536 then -1 else 0;
    assert Signed32(-0x8000_0001) == 0x7FFF_FFFF && Signed32(-0x8000_0000) == -0x8000_0000;
  }

  lemma DownEndToEnd(e: Progress)
    ensures Tween(0x7FFF_FFFF, -0x8000_0000, e) == if e == 65536 then -0x8000_0000 else 0x7FFF_FFFF
  {
    assert Signed32(-0x8000_0000 - 0x7FFF_FFFF) == 1 && 1 * e == e;
    assert Signed32(e) == e;
    assert Scaled(e) == if e == 65536 then 1 else 0;
    assert Signed32(0x8000_0000) == -0x8000_0000 && Signed32(0x7FFF_FFFF) == 0x7FFF_FFFF;
  }

  lemma EndToEndCourse(from: int, to: int)
    requires EndToEnd(from, to)
    ensures Course(Tweening(from, to), from, to)
  {
    var f := Tweening(from, to);
    forall e: Progress ensures f(e) == if e == 65536 then to else from {
      if from < to { UpEndToEnd(e); } else { DownEndToEnd(e); }
    }
    CourseInOneStep(f, from, to);
  }

  lemma NearCourse(from: int, to: int)
    requires Int32(from) && Int32(to) && Near(from, to)
    ensures Course(Tweening(from, to), from, to)
  {
    var f := Tweening(from, to);
    forall e: Progress, e': Progress {:trigger f(e), f(e')} | e <= e'
      ensures if from <= to then from <= f(e) <= f(e') <= to else to <= f(e') <= f(e) <= from
    {
      TweenMoves(from, to, e, e');
    }
    TweenMoves(from, to, 0, 65536);
  }

  lemma HalfWayBreaks(from: int, to: int)
    requires Int32(from) && Int32(to) && !Int32(to - from) && !EndToEnd(from, to)
    requires -32768 <= Signed32(to - from) <= 32767
    ensures !Course(Tweening(from, to), from, to)
  {
    HalfWayOut(from, to);
    assert Tweening(from, to)(32768) == Tween(from, to, 32768);
  }

  lemma FarBreaks(from: int, to: int)
    requires Int32(from) && Int32(to) && !(-32768 <= Signed32(to - from) <= 32767)
    ensures !Course(Tweening(from, to), from, to)
  {
    TweenEnds(from, to);
    assert Tweening(from, to)(65536) == Tween(from, to, FP_ONE);
  }

  /** A number takes its course exactly over distances of 16 signed bits, and from end to end of its range. */
  lemma MovesExactly(from: int, to: int)
    requires Int32(from) && Int32(to)
    ensures Course(Tweening(from, to), from, to) <==> Near(from, to) || EndToEnd(from, to)
  {
    if Near(from, to) {
      NearCourse(from, to);
    } else if EndToEnd(from, to) {
      EndToEndCourse(from, to);
    } else if -32768 <= Signed32(to - from) <= 32767 {
      HalfWayBreaks(from, to);
    } else {
      FarBreaks(from, to);
    }
  }
}
