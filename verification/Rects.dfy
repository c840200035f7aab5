/** Rectangles and the list of damaged ones: `compositor.h`, and the damage
    bookkeeping of `compositor.c`.

    Coordinates are mathematical integers; the source's are 32 bits wide and
    small enough not to wrap. */
module Rects {
  import opened Machine

  datatype Rect = Rect(x: int, y: int, w: nat, h: nat) {
    predicate Contains(px: int, py: int) {
      x <= px < x + w && y <= py < y + h
    }

    predicate IsEmpty() {
      w == 0 || h == 0
    }
  }

  function Min(a: int, b: int): int {
    if a < b then a else b
  }

  predicate Intersects(a: Rect, b: Rect) {
    !(a.x + a.w <= b.x || b.x + b.w <= a.x || a.y + a.h <= b.y || b.y + b.h <= a.y)
  }

  predicate Adjacent(a: Rect, b: Rect) {
    var gapX := if a.x < b.x then b.x - (a.x + a.w) else a.x - (b.x + b.w);
    var gapY := if a.y < b.y then b.y - (a.y + a.h) else a.y - (b.y + b.h);
    gapX <= 1 && gapY <= 1
  }

  function Merge(a: Rect, b: Rect): Rect {
    var x1, y1 := Min(a.x, b.x), Min(a.y, b.y);
    var x2, y2 := Max(a.x + a.w, b.x + b.w), Max(a.y + a.h, b.y + b.h);
    Rect(x1, y1, x2 - x1, y2 - y1)
  }

  /** Two rectangles that are not empty intersect exactly if they share a pixel. */
  lemma IntersectsMeaning(a: Rect, b: Rect)
    requires !a.IsEmpty() && !b.IsEmpty()
    ensures Intersects(a, b) <==> exists px, py :: a.Contains(px, py) && b.Contains(px, py)
  {
    if Intersects(a, b) {
      var px, py := Max(a.x, b.x), Max(a.y, b.y);
      assert a.Contains(px, py) && b.Contains(px, py);
    }
  }

  ghost predicate Within(a: Rect, b: Rect) {
    forall px, py :: a.Contains(px, py) ==> b.Contains(px, py)
  }

  /** The merged rectangle is the least one that holds both. */
  lemma MergeIsLeast(a: Rect, b: Rect, c: Rect)
    requires !a.IsEmpty() && !b.IsEmpty()
    ensures Within(a, Merge(a, b)) && Within(b, Merge(a, b))
    ensures Within(a, c) && Within(b, c) ==> Within(Merge(a, b), c)
  {
    if Within(a, c) && Within(b, c) {
      assert a.Contains(a.x, a.y) && a.Contains(a.x + a.w - 1, a.y + a.h - 1);
      assert b.Contains(b.x, b.y) && b.Contains(b.x + b.w - 1, b.y + b.h - 1);
    }
  }

  // ---------- Damage ----------

  const MAX_DAMAGE := 64

  /** What of the screen has to be drawn again. */
  datatype Damage = Damage(full: bool, rects: seq<Rect>)

  const NO_DAMAGE := Damage(false, [])
  const ALL_DAMAGED := Damage(true, [])

  ghost predicate OnScreen(w: nat, h: nat, px: int, py: int) {
    0 <= px < w && 0 <= py < h
  }

  ghost predicate InSome(rects: seq<Rect>, px: int, py: int) {
    exists i :: 0 <= i < |rects| && rects[i].Contains(px, py)
  }

  ghost predicate Covered(d: Damage, px: int, py: int) {
    d.full || InSome(d.rects, px, py)
  }

  ghost predicate InBounds(w: nat, h: nat, r: Rect) {
    !r.IsEmpty() && 0 <= r.x && 0 <= r.y && r.x + r.w <= w && r.y + r.h <= h
  }

  /** What holds of the damage in every state. */
  ghost predicate DamageOk(w: nat, h: nat, d: Damage) {
    && |d.rects| <= MAX_DAMAGE
    && (d.full ==> d.rects == [])
    && forall i :: 0 <= i < |d.rects| ==> InBounds(w, h, d.rects[i])
  }

  /** The part of `r` on the screen, if there is one. */
  function Clip(w: nat, h: nat, r: Rect): Option<Rect> {
    var x1, y1 := Max(r.x, 0), Max(r.y, 0);
    var x2, y2 := Min(r.x + r.w, w), Min(r.y + r.h, h);
    if x1 >= x2 || y1 >= y2 then None else Some(Rect(x1, y1, x2 - x1, y2 - y1))
  }

  /** The first rectangle of the list that `c` can be merged into, or the length of the list. */
  function FirstMergeable(rects: seq<Rect>, c: Rect): (i: nat)
    ensures i <= |rects|
  {
    if rects == [] || Intersects(rects[0], c) || Adjacent(rects[0], c) then 0
    else 1 + FirstMergeable(rects[1..], c)
  }

  /** The damage after `r` is reported. */
  function AddDamage(w: nat, h: nat, d: Damage, r: Rect): Damage {
    if d.full then d
    else match Clip(w, h, r)
      case None => d
      case Some(c) =>
        var i := FirstMergeable(d.rects, c);
        if i < |d.rects| then d.(rects := d.rects[i := Merge(d.rects[i], c)])
        else if |d.rects| < MAX_DAMAGE then d.(rects := d.rects + [c])
        else ALL_DAMAGED
  }

  lemma ClipMeaning(w: nat, h: nat, r: Rect, px: int, py: int)
    ensures r.Contains(px, py) && OnScreen(w, h, px, py) <==>
        Clip(w, h, r).Some? && Clip(w, h, r).value.Contains(px, py)
    ensures Clip(w, h, r).Some? ==> InBounds(w, h, Clip(w, h, r).value)
  {
  }

  /** Reported damage is covered, nothing covered is lost, and the list stays in order. */
  lemma AddDamageCovers(w: nat, h: nat, d: Damage, r: Rect)
    requires DamageOk(w, h, d)
    ensures DamageOk(w, h, AddDamage(w, h, d, r))
    ensures forall px, py :: Covered(d, px, py) ==> Covered(AddDamage(w, h, d, r), px, py)
    ensures forall px, py :: r.Contains(px, py) && OnScreen(w, h, px, py) ==> Covered(AddDamage(w, h, d, r), px, py)
  {
    var e := AddDamage(w, h, d, r);
    forall px, py
      ensures Covered(d, px, py) ==> Covered(e, px, py)
      ensures r.Contains(px, py) && OnScreen(w, h, px, py) ==> Covered(e, px, py)
    {
      ClipMeaning(w, h, r, px, py);
      if !d.full && Clip(w, h, r).Some? {
        PointCovered(w, h, d, r, Clip(w, h, r).value, px, py);
      }
    }
    ClipMeaning(w, h, r, 0, 0);
  }

  lemma AddDamageOk(w: nat, h: nat, d: Damage, r: Rect)
    requires DamageOk(w, h, d)
    ensures DamageOk(w, h, AddDamage(w, h, d, r))
  {
    AddDamageCovers(w, h, d, r);
  }

  lemma PointCovered(w: nat, h: nat, d: Damage, r: Rect, c: Rect, px: int, py: int)
    requires DamageOk(w, h, d) && !d.full && Clip(w, h, r) == Some(c)
    ensures Covered(d, px, py) || c.Contains(px, py) ==> Covered(AddDamage(w, h, d, r), px, py)
  {
    var e := AddDamage(w, h, d, r);
    var i := FirstMergeable(d.rects, c);
    if c.Contains(px, py) {
      if i < |d.rects| {
        assert e.rects[i].Contains(px, py);
      } else if !e.full {
        assert e.rects[|d.rects|].Contains(px, py);
      }
    }
    if InSome(d.rects, px, py) {
      var j :| 0 <= j < |d.rects| && d.rects[j].Contains(px, py);
      if !e.full { assert e.rects[j].Contains(px, py); }
    }
  }

  /** With no damage pending, exactly the part of the rectangle on the screen becomes damaged. */
  lemma AddDamageAlone(w: nat, h: nat, r: Rect)
    ensures forall px, py :: Covered(AddDamage(w, h, NO_DAMAGE, r), px, py) <==>
        r.Contains(px, py) && OnScreen(w, h, px, py)
  {
    forall px, py
      ensures Covered(AddDamage(w, h, NO_DAMAGE, r), px, py) <==> r.Contains(px, py) && OnScreen(w, h, px, py)
    {
      ClipMeaning(w, h, r, px, py);
      if Clip(w, h, r).Some? {
        assert AddDamage(w, h, NO_DAMAGE, r).rects == [Clip(w, h, r).value];
        assert AddDamage(w, h, NO_DAMAGE, r).rects[0] == Clip(w, h, r).value;
      }
    }
  }
}
