/** The compositor of `compositor.c`: surfaces in a doubly linked list, a fixed
    array of damaged rectangles, and loops that draw into the composition buffer.

    Every method is proved to take the step of `Scene` that it is named after: for a surface that is not in the
    list that is the step of an unlisted one, or only the damage that is reported. */
module Compositor {
  import opened Machine
  import opened Rects
  import opened Scene

  class Surface {
    var x: int
    var y: int
    var width: nat
    var height: nat
    var front: seq<Pixel>
    var back: seq<Pixel>
    var opacity: Byte
    var visible: bool
    var zOrder: int
    var next: Surface?
    var prev: Surface?

    constructor (width: nat, height: nat)
      ensures View() == SurfaceView(0, 0, width, height, Blank(width * height), Blank(width * height), 255, true, 0)
      ensures next == null && prev == null
    {
      x, y, this.width, this.height := 0, 0, width, height;
      front, back := Blank(width * height), Blank(width * height);
      opacity, visible, zOrder := 255, true, 0;
      next, prev := null, null;
    }

    ghost function View(): SurfaceView
      reads `x, `y, `width, `height, `front, `back, `opacity, `visible, `zOrder
    {
      SurfaceView(x, y, width, height, front, back, opacity, visible, zOrder)
    }

    method Place(x: int, y: int)
      modifies `x, `y
      ensures View() == old(View()).(x := x, y := y)
    {
      this.x, this.y := x, y;
    }

    method SetVisible(visible: bool)
      modifies `visible
      ensures View() == old(View()).(visible := visible)
    {
      this.visible := visible;
    }

    method SetZ(z: int)
      modifies `zOrder
      ensures View() == old(View()).(z := z)
    {
      zOrder := z;
    }

    method SwapBuffers()
      modifies `front, `back
      ensures View() == old(View()).(front := old(back), back := old(front))
    {
      var temp := front;
      front := back;
      back := temp;
    }

    method Resize(width: nat, height: nat, blank: seq<Pixel>)
      modifies `width, `height, `front, `back
      ensures View() == old(View()).(w := width, h := height, front := blank, back := blank)
    {
      front, back := blank, blank;
      this.width, this.height := width, height;
    }
  }

  ghost function Views(stack: seq<Surface>): (v: seq<SurfaceView>)
    reads stack
    ensures |v| == |stack| && forall i {:trigger v[i]} :: 0 <= i < |v| ==> v[i] == stack[i].View()
  {
    seq(|stack|, i requires 0 <= i < |stack| reads stack => stack[i].View())
  }

  lemma ViewsMoved(q: seq<Surface>, k: nat, i: nat)
    requires k < |q| && i < |q|
    ensures Views(Without(q, k)) == Without(Views(q), k)
    ensures Views(Moved(q, k, i)) == Moved(Views(q), k, i)
  {
  }

  lemma MovedMembers<T>(q: seq<T>, k: nat, i: nat)
    requires k < |q| && i < |q|
    ensures forall v :: v in Moved(q, k, i) ==> v in q
  {
  }

  /** A surface that is shifted within the list, or becomes all of it. */
  ghost function Shifted<T>(q: seq<T>, linked: bool, k: nat, i: int, v: T): seq<T>
    requires linked ==> k < |q| && 0 <= i < |q|
  {
    if linked then Moved(q, k, i) else [v]
  }

  lemma ViewsShifted(q: seq<Surface>, linked: bool, k: nat, i: int, surf: Surface)
    requires linked ==> k < |q| && 0 <= i < |q|
    ensures Views(Shifted(q, linked, k, i, surf)) == Shifted(Views(q), linked, k, i, surf.View())
    ensures forall v :: v in Shifted(q, linked, k, i, surf) ==> v in q || v == surf
  {
    if linked {
      ViewsMoved(q, k, i);
      MovedMembers(q, k, i);
    } else {
      assert Views([surf]) == [surf.View()];
    }
  }

  lemma ShiftedOk(s: State, linked: bool, k: nat, i: int, v: SurfaceView)
    requires AllOk(s) && (if linked then k < |s.stack| && 0 <= i < |s.stack| else v.Ok())
    ensures AllOk(s.(stack := Shifted(s.stack, linked, k, i, v)))
  {
    if linked { RearrangedOk(s, k, i); }
  }

  lemma MovedToEnds<T>(q: seq<T>, k: nat)
    requires k < |q|
    ensures Moved(q, k, 0) == [q[k]] + Without(q, k)
    ensures Moved(q, k, |q| - 1) == Without(q, k) + [q[k]]
  {
  }

  /** All surfaces have their pixels. */
  ghost predicate AllOk(s: State) {
    && (forall j {:trigger s.stack[j]} :: 0 <= j < |s.stack| ==> s.stack[j].Ok())
    && (s.cursor.Some? ==> s.cursor.value.Ok())
    && (s.wall.Some? ==> s.wall.value.Ok() && s.wall.value.w > 0 && s.wall.value.h > 0)
  }

  lemma RearrangedOk(s: State, k: nat, i: nat)
    requires AllOk(s) && k < |s.stack| && i < |s.stack|
    ensures AllOk(s.(stack := Moved(s.stack, k, i))) && AllOk(s.(stack := Without(s.stack, k)))
  {
  }

  ghost function ViewOf(s: Surface?): Option<SurfaceView>
    reads s
  {
    if s == null then None else Some(s.View())
  }

  /** The pixel at column `x` of row `y`. */
  ghost function At(buf: seq<Pixel>, stride: nat, h: nat, x: nat, y: nat): Pixel
    requires |buf| == stride * h && x < stride && y < h
  {
    OffsetBound(stride, h, x, y);
    buf[Offset(stride, x, y)]
  }

  /** The rows of a buffer. */
  ghost function Rows(buf: seq<Pixel>, stride: nat, h: nat): (r: Image)
    requires |buf| == stride * h
    ensures |r| == h && forall y :: 0 <= y < h ==> |r[y]| == stride
    ensures forall x: nat, y: nat :: x < stride && y < h ==> r[y][x] == At(buf, stride, h, x, y)
  {
    seq(h, y requires 0 <= y < h => seq(stride, x requires 0 <= x < stride => At(buf, stride, h, x, y)))
  }

  /** One pixel written is one pixel changed. */
  lemma WriteOne(buf: seq<Pixel>, buf': seq<Pixel>, stride: nat, h: nat, x: nat, y: nat, p: Pixel, px: nat, py: nat)
    requires |buf| == stride * h && x < stride && y < h && px < stride && py < h
    requires Offset(stride, x, y) < |buf| && buf' == buf[Offset(stride, x, y) := p]
    ensures At(buf', stride, h, px, py) == if px == x && py == y then p else At(buf, stride, h, px, py)
  {
    OffsetBound(stride, h, px, py);
    OffsetInjective(stride, px, py, x, y);
  }

  lemma WriteAt(buf: seq<Pixel>, buf': seq<Pixel>, stride: nat, h: nat, x: nat, y: nat, p: Pixel)
    requires |buf| == stride * h && x < stride && y < h
    requires Offset(stride, x, y) < |buf| && buf' == buf[Offset(stride, x, y) := p]
    ensures forall px: nat, py: nat :: px < stride && py < h ==>
      At(buf', stride, h, px, py) == if px == x && py == y then p else At(buf, stride, h, px, py)
  {
    forall px: nat, py: nat | px < stride && py < h
      ensures At(buf', stride, h, px, py) == if px == x && py == y then p else At(buf, stride, h, px, py)
    {
      WriteOne(buf, buf', stride, h, x, y, p, px, py);
    }
  }

  /** `stack` is the doubly linked list from `head` to `tail`. */
  ghost predicate Linked(stack: seq<Surface>, head: Surface?, tail: Surface?)
    reads stack
  {
    && (forall i, j :: 0 <= i < j < |stack| ==> stack[i] != stack[j])
    && (forall i {:trigger stack[i].prev} :: 0 < i < |stack| ==> stack[i].prev == stack[i - 1])
    && (forall i {:trigger stack[i].next} :: 0 <= i < |stack| - 1 ==> stack[i].next == stack[i + 1])
    && (if stack == [] then head == null && tail == null
        else head == stack[0] && head.prev == null && tail == stack[|stack| - 1] && tail.next == null)
  }

  /** One more surface of the stack. */
  lemma StackedNext(views: seq<SurfaceView>, i: nat)
    requires i < |views|
    ensures forall px: int, py: int, under: Pixel ::
      Stacked(views[..i + 1], px, py, under) == Through(views[i], px, py, Stacked(views[..i], px, py, under))
  {
    assert views[..i + 1][..i] == views[..i];
  }

  lemma InSomeNext(rects: seq<Rect>, i: nat)
    requires i < |rects|
    ensures forall px: int, py: int :: InSome(rects[..i + 1], px, py) <==>
        InSome(rects[..i], px, py) || rects[i].Contains(px, py)
  {
    forall px: int, py: int
      ensures InSome(rects[..i + 1], px, py) <==> InSome(rects[..i], px, py) || rects[i].Contains(px, py)
    {
      if InSome(rects[..i + 1], px, py) {
        var j :| 0 <= j < i + 1 && rects[..i + 1][j].Contains(px, py);
        if j < i { assert rects[..i][j].Contains(px, py); }
      }
      if InSome(rects[..i], px, py) {
        var j :| 0 <= j < i && rects[..i][j].Contains(px, py);
        assert rects[..i + 1][j].Contains(px, py);
      }
      if rects[i].Contains(px, py) { assert rects[..i + 1][i].Contains(px, py); }
    }
  }

  lemma RowsRedrawn(s: State, buf: seq<Pixel>, buf': seq<Pixel>, stride: nat)
    requires |buf| == |buf'| == stride * s.h && s.w <= stride
    requires forall px: nat, py: nat :: px < stride && py < s.h ==>
      At(buf', stride, s.h, px, py) ==
        if px < s.w && Covered(s.damage, px, py) then ScenePixel(s, px, py) else At(buf, stride, s.h, px, py)
    ensures var t := s.(image := Rows(buf, stride, s.h));
            Sized(t, t.image) && Rows(buf', stride, s.h) == Redrawn(t)
  {
    var t := s.(image := Rows(buf, stride, s.h));
    var r, r' := Redrawn(t), Rows(buf', stride, s.h);
    forall y | 0 <= y < s.h ensures r[y] == r'[y] {
      forall x | 0 <= x < stride ensures r[y][x] == r'[y][x] {
        assert ScenePixel(t, x, y) == ScenePixel(s, x, y);
      }
    }
  }

  lemma RowsPresented(s: State, image: seq<Pixel>, buf: seq<Pixel>, buf': seq<Pixel>, stride: nat)
    requires |image| == |buf| == |buf'| == stride * s.h && s.w <= stride
    requires s.image == Rows(image, stride, s.h) && s.frame == Rows(buf, stride, s.h)
    requires forall px: nat, py: nat :: px < stride && py < s.h ==>
      At(buf', stride, s.h, px, py) ==
        if px < s.w then At(image, stride, s.h, px, py) else At(buf, stride, s.h, px, py)
    ensures Sized(s, s.image) && Sized(s, s.frame) && Rows(buf', stride, s.h) == Presented(s)
  {
    var r, r' := Presented(s), Rows(buf', stride, s.h);
    forall y | 0 <= y < s.h ensures r[y] == r'[y] {
    }
  }

  /** Sorting in anew the surface whose place was set first is what `Restacked` says. */
  /** Without the surface `k`, one of place `z` is sorted in at `i`. */
  ghost predicate SortsAt(q: seq<SurfaceView>, linked: bool, k: nat, z: int, i: nat) {
    linked ==> k < |q| && i < |q| && IsPlace(Without(q, k), z, i)
  }

  lemma RestackedAt(q: seq<SurfaceView>, k: nat, z: int) returns (i: nat)
    requires k < |q| && q[k].z == z
    ensures SortsAt(q, true, k, z, i) && Moved(q, k, i) == Restacked(q, k, z)
  {
    i := Below(Without(q, k), z);
    BelowMeaning(Without(q, k), z, i);
  }

  class Compositor {
    const w: nat
    const h: nat
    const stride: nat
    const framebuffer: array<Pixel>
    const composite: array<Pixel>
    const damage: array<Rect>
    var damageCount: nat
    var fullDamage: bool
    var head: Surface?
    var tail: Surface?
    var cursor: Surface?
    var cursorX: int
    var cursorY: int
    var cursorHotX: int
    var cursorHotY: int
    var wallpaper: Surface?
    ghost var stack: seq<Surface>

    /** The fixed parts: buffers of the right size, none of them shared. */
    ghost predicate Buffers() {
      && w <= stride && composite.Length == stride * h && framebuffer.Length == stride * h
      && composite != framebuffer && damage.Length == MAX_DAMAGE
    }

    ghost function DamageNow(): Damage
      requires damageCount <= damage.Length
      reads `damageCount, `fullDamage, damage
    {
      Damage(fullDamage, damage[..damageCount])
    }

    ghost predicate DamageValid()
      reads `damageCount, `fullDamage, damage
    {
      damageCount <= damage.Length == MAX_DAMAGE && DamageOk(w, h, DamageNow())
    }

    /** Cursor and wallpaper are not in the stack; every surface has its pixels. */
    ghost predicate SurfacesOk()
      reads `stack, `cursor, `wallpaper, stack, cursor, wallpaper
    {
      && (forall i :: 0 <= i < |stack| ==> stack[i].View().Ok() && stack[i] != cursor && stack[i] != wallpaper)
      && (cursor != null ==> cursor.View().Ok())
      && (wallpaper != null ==> wallpaper.View().Ok() && wallpaper.width > 0 && wallpaper.height > 0)
    }

    ghost predicate Valid()
      reads this, damage, stack, cursor, wallpaper
    {
      Buffers() && DamageValid() && Linked(stack, head, tail) && SurfacesOk()
    }

    /** All of the state but the composition buffer. */
    ghost function Rest(): State
      requires Buffers() && damageCount <= damage.Length
      reads this, damage, framebuffer, stack, cursor, wallpaper
    {
      State(w, h, ViewOf(wallpaper), Views(stack), ViewOf(cursor), cursorX, cursorY, cursorHotX, cursorHotY,
            DamageNow(), [], Rows(framebuffer[..], stride, h))
    }

    /** The compositor as the value that `Scene` talks about. */
    ghost function Now(): State
      requires Buffers() && damageCount <= damage.Length
      reads this, damage, composite, framebuffer, stack, cursor, wallpaper
    {
      Rest().(image := Rows(composite[..], stride, h))
    }

    /** Allocates the composition buffer; all of the screen is damaged. */
    constructor (framebuffer: array<Pixel>, w: nat, h: nat, stride: nat)
      requires w <= stride && framebuffer.Length == stride * h
      ensures Valid() && Initial(Now()) && stack == [] && cursor == null && wallpaper == null
      ensures this.w == w && this.h == h && this.stride == stride && this.framebuffer == framebuffer
    {
      this.framebuffer, this.w, this.h, this.stride := framebuffer, w, h, stride;
      composite := new Pixel[stride * h](_ => 0);
      damage := new Rect[MAX_DAMAGE](_ => Rect(0, 0, 0, 0));
      damageCount, fullDamage := 0, true;
      head, tail, stack := null, null, [];
      cursor, cursorX, cursorY, cursorHotX, cursorHotY := null, w / 2, h / 2, 0, 0;
      wallpaper := null;
    }

    /** Reports a damaged rectangle: clipped, merged into the first one near it, or added. */
    method AddDamage(r: Rect)
      requires Buffers() && DamageValid()
      modifies `damageCount, `fullDamage, damage
      ensures DamageValid() && DamageNow() == Rects.AddDamage(w, h, old(DamageNow()), r)
    {
      AddDamageOk(w, h, DamageNow(), r);
      if fullDamage { return; }
      var x1, y1, x2, y2 := r.x, r.y, r.x + r.w, r.y + r.h;
      if x1 < 0 { x1 := 0; }
      if y1 < 0 { y1 := 0; }
      if x2 > w { x2 := w; }
      if y2 > h { y2 := h; }
      if x1 >= x2 || y1 >= y2 { return; }
      var clipped := Rect(x1, y1, x2 - x1, y2 - y1);
      assert Clip(w, h, r) == Some(clipped);
      MergeOrAppend(clipped);
    }

    /** Merges a rectangle into the first one near it, or adds it, or gives up keeping count. */
    method MergeOrAppend(clipped: Rect)
      requires Buffers() && DamageValid()
      modifies `damageCount, `fullDamage, damage
      ensures damageCount <= MAX_DAMAGE
      ensures var rects, i := old(DamageNow()).rects, FirstMergeable(old(DamageNow()).rects, clipped);
        DamageNow() ==
          if i < |rects| then Damage(old(fullDamage), rects[i := Merge(rects[i], clipped)])
          else if |rects| < MAX_DAMAGE then Damage(old(fullDamage), rects + [clipped])
          else ALL_DAMAGED
    {
      ghost var rects := DamageNow().rects;
      ghost var k := FirstMergeable(rects, clipped);
      var i := 0;
      while i < damageCount
        invariant 0 <= i <= damageCount && DamageNow() == old(DamageNow())
        invariant k == i + FirstMergeable(rects[i..], clipped)
      {
        assert damage[i] == rects[i..][0];
        if Intersects(damage[i], clipped) || Adjacent(damage[i], clipped) {
          damage[i] := Merge(damage[i], clipped);
          assert DamageNow().rects == rects[i := Merge(rects[i], clipped)];
          return;
        }
        assert rects[i..][1..] == rects[i + 1..];
        i := i + 1;
      }
      if damageCount < 64 {
        damage[damageCount] := clipped;
        damageCount := damageCount + 1;
        assert DamageNow().rects == rects + [clipped];
      } else {
        fullDamage := true;
        damageCount := 0;
      }
    }

    method ForceRedraw()
      requires Buffers()
      modifies `damageCount, `fullDamage
      ensures DamageValid() && DamageNow() == ALL_DAMAGED
    {
      fullDamage := true;
      damageCount := 0;
    }

    // ---------- Drawing ----------

    /** The pixel of the composition buffer at a place. */
    ghost function Pix(px: nat, py: nat): Pixel
      requires Buffers() && px < stride && py < h
      reads composite
    {
      At(composite[..], stride, h, px, py)
    }

    method WritePixel(x: nat, y: nat, p: Pixel)
      requires Buffers() && x < stride && y < h
      modifies composite
      ensures forall px: nat, py: nat :: px < stride && py < h ==>
        Pix(px, py) == if px == x && py == y then p else old(Pix(px, py))
    {
      OffsetBound(stride, h, x, y);
      ghost var before := composite[..];
      composite[Offset(stride, x, y)] := p;
      WriteAt(before, composite[..], stride, h, x, y, p);
    }

    /** Blends one pixel of a surface, faded by its opacity, over one of the buffer. */
    method BlendPixel(s: Surface, dx: nat, dy: nat, x: nat, y: nat)
      requires Buffers() && s.View().Ok() && dx < s.width && dy < s.height && x < stride && y < h
      requires s.visible && x == s.x + dx && y == s.y + dy
      modifies composite
      ensures forall px: nat, py: nat :: px < stride && py < h ==>
        Pix(px, py) == if px == x && py == y then Through(s.View(), px, py, old(Pix(px, py))) else old(Pix(px, py))
    {
      OffsetBound(s.width, s.height, dx, dy);
      var src := s.front[Offset(s.width, dx, dy)];
      if s.opacity < 255 {
        FadedAlpha(Alpha(src), s.opacity);
        src := Argb(Alpha(src) * s.opacity / 255, Red(src), Green(src), Blue(src));
      }
      OffsetBound(stride, h, x, y);
      WritePixel(x, y, Blend(src, composite[Offset(stride, x, y)]));
    }

    /** Draws one surface inside the rectangle `r`. */
    method BlitSurfaceRegion(s: Surface, r: Rect)
      requires Buffers() && s.View().Ok() && 0 <= r.x && 0 <= r.y && r.x + r.w <= w && r.y + r.h <= h
      modifies composite
      ensures forall px: nat, py: nat :: px < stride && py < h ==>
        Pix(px, py) == if r.Contains(px, py) then Through(s.View(), px, py, old(Pix(px, py))) else old(Pix(px, py))
    {
      if !s.visible { return; }
      var sx2, sy2, rx2, ry2 := s.x + s.width, s.y + s.height, r.x + r.w, r.y + r.h;
      var x1 := if s.x > r.x then s.x else r.x;
      var y1 := if s.y > r.y then s.y else r.y;
      var x2 := if sx2 < rx2 then sx2 else rx2;
      var y2 := if sy2 < ry2 then sy2 else ry2;
      if x1 >= x2 || y1 >= y2 { return; }
      BlitArea(s, Rect(x1, y1, x2 - x1, y2 - y1));
    }

    /** The loops over an area that lies in the surface and on the screen. */
    method BlitArea(s: Surface, area: Rect)
      requires Buffers() && s.View().Ok() && s.visible
      requires 0 <= area.x && 0 <= area.y && area.x + area.w <= w && area.y + area.h <= h
      requires s.x <= area.x && s.y <= area.y && area.x + area.w <= s.x + s.width && area.y + area.h <= s.y + s.height
      modifies composite
      ensures forall px: nat, py: nat :: px < stride && py < h ==>
        Pix(px, py) == if area.Contains(px, py) then Through(s.View(), px, py, old(Pix(px, py))) else old(Pix(px, py))
    {
      ghost var v := s.View();
      var y := 0;
      while y < area.h
        invariant 0 <= y <= area.h
        invariant forall px: nat, py: nat :: px < stride && py < h ==>
          Pix(px, py) == if area.Contains(px, py) && py < area.y + y then Through(v, px, py, old(Pix(px, py)))
              else old(Pix(px, py))
      {
        var x := 0;
        while x < area.w
          invariant 0 <= x <= area.w
          invariant forall px: nat, py: nat :: px < stride && py < h ==>
            Pix(px, py) == if area.Contains(px, py) && (py < area.y + y || (py == area.y + y && px < area.x + x))
              then Through(v, px, py, old(Pix(px, py))) else old(Pix(px, py))
        {
          BlendPixel(s, area.x - s.x + x, area.y - s.y + y, area.x + x, area.y + y);
          x := x + 1;
        }
        y := y + 1;
      }
    }

    /** Draws the wallpaper, or black, into a rectangle. */
    method RenderWallpaper(r: Rect)
      requires Buffers() && 0 <= r.x && 0 <= r.y && r.x + r.w <= w && r.y + r.h <= h
      requires wallpaper != null ==> wallpaper.View().Ok() && wallpaper.width > 0 && wallpaper.height > 0
      modifies composite
      ensures forall px: nat, py: nat :: px < stride && py < h ==>
        Pix(px, py) == if r.Contains(px, py) then Background(ViewOf(wallpaper), px, py) else old(Pix(px, py))
    {
      ghost var wall := ViewOf(wallpaper);
      if wallpaper == null {
        var y := 0;
        while y < r.h
          invariant 0 <= y <= r.h
          invariant forall px: nat, py: nat :: px < stride && py < h ==>
            Pix(px, py) == if r.Contains(px, py) && py < r.y + y then BLACK else old(Pix(px, py))
        {
          var x := 0;
          while x < r.w
            invariant 0 <= x <= r.w
            invariant forall px: nat, py: nat :: px < stride && py < h ==>
              Pix(px, py) == if r.Contains(px, py) && (py < r.y + y || (py == r.y + y && px < r.x + x)) then BLACK
                  else old(Pix(px, py))
          {
            WritePixel(r.x + x, r.y + y, BLACK);
            x := x + 1;
          }
          y := y + 1;
        }
        return;
      }
      var y := 0;
      while y < r.h
        invariant 0 <= y <= r.h
        invariant forall px: nat, py: nat :: px < stride && py < h ==>
          Pix(px, py) == if r.Contains(px, py) && py < r.y + y then Background(wall, px, py) else old(Pix(px, py))
      {
        var x := 0;
        var wpY := (r.y + y) % wallpaper.height;
        while x < r.w
          invariant 0 <= x <= r.w
          invariant forall px: nat, py: nat :: px < stride && py < h ==>
            Pix(px, py) == if r.Contains(px, py) && (py < r.y + y || (py == r.y + y && px < r.x + x))
              then Background(wall, px, py) else old(Pix(px, py))
        {
          var wpX := (r.x + x) % wallpaper.width;
          OffsetBound(wallpaper.width, wallpaper.height, wpX, wpY);
          WritePixel(r.x + x, r.y + y, wallpaper.front[Offset(wallpaper.width, wpX, wpY)]);
          x := x + 1;
        }
        y := y + 1;
      }
    }

    /** Draws all surfaces of the stack into a rectangle, from the bottom up. */
    method RenderStack(r: Rect)
      requires Valid() && 0 <= r.x && 0 <= r.y && r.x + r.w <= w && r.y + r.h <= h
      modifies composite
      ensures forall px: nat, py: nat :: px < stride && py < h ==>
        Pix(px, py) == if r.Contains(px, py) then Stacked(old(Views(stack)), px, py, old(Pix(px, py)))
            else old(Pix(px, py))
    {
      var surf := head;
      ghost var i, views := 0, Views(stack);
      while surf != null
        invariant 0 <= i <= |stack| && surf == if i < |stack| then stack[i] else null
        invariant forall px: nat, py: nat :: px < stride && py < h ==>
          Pix(px, py) == if r.Contains(px, py) then Stacked(views[..i], px, py, old(Pix(px, py))) else old(Pix(px, py))
        decreases |stack| - i
      {
        StackedNext(views, i);
        assert surf == stack[i] && surf.View() == views[i];
        assert surf.next == old(stack[i].next);
        if surf.visible && surf != cursor {
          BlitSurfaceRegion(surf, r);
        }
        surf := surf.next;
        i := i + 1;
      }
      assert views[..i] == views;
    }

    /** Draws the cursor surface, for which it is put in its place and then put back. */
    method DrawCursor(c: Surface, r: Rect)
      requires Buffers() && c.View().Ok() && 0 <= r.x && 0 <= r.y && r.x + r.w <= w && r.y + r.h <= h
      modifies composite, c`x, c`y
      ensures c.x == old(c.x) && c.y == old(c.y)
      ensures forall px: nat, py: nat :: px < stride && py < h ==>
        Pix(px, py) ==
          if r.Contains(px, py) then Through(c.View().(x := cursorX - cursorHotX, y := cursorY - cursorHotY), px, py,
                                                 old(Pix(px, py)))
          else old(Pix(px, py))
    {
      var oldX, oldY := c.x, c.y;
      c.x, c.y := cursorX - cursorHotX, cursorY - cursorHotY;
      BlitSurfaceRegion(c, r);
      c.x, c.y := oldX, oldY;
    }

    method RenderCursor(r: Rect, ghost s: State)
      requires Valid() && 0 <= r.x && 0 <= r.y && r.x + r.w <= w && r.y + r.h <= h && s == Rest()
      modifies composite, cursor
      ensures Linked(stack, head, tail) && SurfacesOk() && Rest() == s
      ensures forall px: nat, py: nat :: px < stride && py < h ==>
        Pix(px, py) == if r.Contains(px, py) then UnderCursor(s, px, py, old(Pix(px, py))) else old(Pix(px, py))
    {
      if cursor != null && cursor.visible {
        DrawCursor(cursor, r);
        assert Views(stack) == s.stack;
      }
    }

    /** Draws a rectangle anew: wallpaper, stack, cursor. */
    method RenderRegion(r: Rect)
      requires Valid() && 0 <= r.x && 0 <= r.y && r.x + r.w <= w && r.y + r.h <= h
      modifies composite, cursor
      ensures Linked(stack, head, tail) && SurfacesOk() && Rest() == old(Rest())
      ensures forall px: nat, py: nat :: px < stride && py < h ==>
        Pix(px, py) == if r.Contains(px, py) then ScenePixel(old(Rest()), px, py) else old(Pix(px, py))
    {
      ghost var s := Rest();
      RenderWallpaper(r);
      RenderBodies(r, s);
    }

    /** Draws stack and cursor over the wallpaper. */
    method RenderBodies(r: Rect, ghost s: State)
      requires Valid() && 0 <= r.x && 0 <= r.y && r.x + r.w <= w && r.y + r.h <= h && s == Rest()
      requires forall px: nat, py: nat :: px < stride && py < h && r.Contains(px, py) ==>
          Pix(px, py) == Background(s.wall, px, py)
      modifies composite, cursor
      ensures Linked(stack, head, tail) && SurfacesOk() && Rest() == s
      ensures forall px: nat, py: nat :: px < stride && py < h ==>
        Pix(px, py) == if r.Contains(px, py) then ScenePixel(s, px, py) else old(Pix(px, py))
    {
      RenderStack(r);
      assert Views(stack) == s.stack;
      RenderCursor(r, s);
    }

    /** Draws the damaged rectangles one by one; where they overlap, again. */
    method RenderRegions()
      requires Valid() && !fullDamage
      modifies composite, cursor
      ensures Linked(stack, head, tail) && SurfacesOk() && Rest() == old(Rest())
      ensures forall px: nat, py: nat :: px < stride && py < h ==>
        Pix(px, py) == if InSome(old(DamageNow()).rects, px, py) then ScenePixel(old(Rest()), px, py)
            else old(Pix(px, py))
    {
      ghost var s := Rest();
      ghost var rects := s.damage.rects;
      var i := 0;
      while i < damageCount
        invariant 0 <= i <= damageCount && Valid() && Rest() == s
        invariant forall px: nat, py: nat :: px < stride && py < h ==>
          Pix(px, py) == if InSome(rects[..i], px, py) then ScenePixel(s, px, py) else old(Pix(px, py))
      {
        var r := damage[i];
        assert DamageNow().rects[i] == r;
        InSomeNext(rects, i);
        RenderRegion(r);
        i := i + 1;
      }
      assert rects[..i] == rects;
    }

    /** Draws all of the screen, or what is damaged of it. */
    method RenderDamage()
      requires Valid()
      modifies composite, cursor
      ensures Linked(stack, head, tail) && SurfacesOk() && Rest() == old(Rest())
      ensures forall px: nat, py: nat :: px < stride && py < h ==>
        Pix(px, py) == if px < w && Covered(old(DamageNow()), px, py) then ScenePixel(old(Rest()), px, py)
            else old(Pix(px, py))
    {
      if fullDamage {
        RenderRegion(Rect(0, 0, w, h));
      } else {
        forall px: int, py: int | InSome(DamageNow().rects, px, py) ensures OnScreen(w, h, px, py) {
          var i :| 0 <= i < |DamageNow().rects| && DamageNow().rects[i].Contains(px, py);
        }
        RenderRegions();
      }
    }

    method ClearDamage()
      requires Valid()
      modifies `damageCount, `fullDamage
      ensures Valid() && Rest() == old(Rest()).(damage := NO_DAMAGE)
    {
      fullDamage := false;
      damageCount := 0;
      assert DamageNow() == NO_DAMAGE;
    }

    /** Draws what is damaged; nothing is damaged any more. */
    method Render()
      requires Valid()
      modifies composite, cursor, `damageCount, `fullDamage
      ensures Valid() && Now() == Rendered(old(Now()))
    {
      if !fullDamage && damageCount == 0 { return; }
      ghost var s, buf := Rest(), composite[..];
      RenderDamage();
      ghost var buf' := composite[..];
      assert forall px: nat, py: nat :: px < stride && py < h ==> At(buf', stride, h, px, py) == Pix(px, py);
      RowsRedrawn(s, buf, buf', stride);
      ClearDamage();
    }

    /** Copies the composition buffer to the framebuffer, row by row. */
    method Present()
      requires Valid()
      modifies framebuffer
      ensures Valid() && Now() == old(Now()).(frame := Presented(old(Now())))
    {
      ghost var buf := framebuffer[..];
      var y := 0;
      while y < h
        invariant 0 <= y <= h
        invariant forall px: nat, py: nat :: px < stride && py < h ==>
          At(framebuffer[..], stride, h, px, py) ==
            if px < w && py < y then Pix(px, py) else At(buf, stride, h, px, py)
      {
        CopyRow(y);
        y := y + 1;
      }
      RowsPresented(old(Now()), composite[..], buf, framebuffer[..], stride);
      assert Views(stack) == old(Views(stack)) && DamageNow() == old(DamageNow());
      assert Now() == old(Now()).(frame := Rows(framebuffer[..], stride, h));
    }

    /** Copies the part of a row that is on the screen. */
    method CopyRow(y: nat)
      requires Buffers() && y < h
      modifies framebuffer
      ensures forall px: nat, py: nat :: px < stride && py < h ==>
        At(framebuffer[..], stride, h, px, py) ==
          if px < w && py == y then Pix(px, py) else old(At(framebuffer[..], stride, h, px, py))
    {
      var x := 0;
      while x < w
        invariant 0 <= x <= w
        invariant forall px: nat, py: nat :: px < stride && py < h ==>
          At(framebuffer[..], stride, h, px, py) ==
            if px < x && py == y then Pix(px, py) else old(At(framebuffer[..], stride, h, px, py))
      {
        OffsetBound(stride, h, x, y);
        ghost var before := framebuffer[..];
        framebuffer[Offset(stride, x, y)] := composite[Offset(stride, x, y)];
        WriteAt(before, framebuffer[..], stride, h, x, y, composite[Offset(stride, x, y)]);
        x := x + 1;
      }
    }

    // ---------- Surfaces ----------

    ghost predicate Has(surf: Surface, k: nat)
      reads `stack
    {
      k < |stack| && stack[k] == surf
    }

    /** Reports damage: nothing but the damage changes. */
    method Damaged(r: Rect)
      requires Valid()
      modifies `damageCount, `fullDamage, damage
      ensures Valid() && Now() == Report(old(Now()), r)
    {
      AddDamage(r);
      assert Views(stack) == old(Views(stack));
    }

    method DamagedSurface(surf: Surface, ghost r: Rect)
      requires Valid() && r == surf.View().Bounds()
      modifies `damageCount, `fullDamage, damage
      ensures Valid() && Now() == Report(old(Now()), r)
    {
      Damaged(Rect(surf.x, surf.y, surf.width, surf.height));
    }

    /** Not in the list, and neither cursor nor wallpaper: nothing on the screen comes from it. */
    ghost predicate Apart(surf: Surface)
      reads `stack, `cursor, `wallpaper
    {
      surf !in stack && surf != cursor && surf != wallpaper
    }

    method PlaceAt(surf: Surface, x: int, y: int, ghost k: nat)
      requires Valid() && (Has(surf, k) || Apart(surf))
      modifies surf`x, surf`y
      ensures Valid() && surf.View() == old(surf.View()).(x := x, y := y)
      ensures Now() == if Has(surf, k) then Put(old(Now()), k, surf.View()) else old(Now())
    {
      surf.Place(x, y);
      assert Linked(stack, head, tail);
      assert Views(stack) == if Has(surf, k) then old(Views(stack))[k := surf.View()] else old(Views(stack));
    }

    method SurfaceMove(surf: Surface, x: int, y: int, ghost k: nat)
      requires Valid() && (Has(surf, k) || Apart(surf))
      modifies surf`x, surf`y, `damageCount, `fullDamage, damage
      ensures Valid() && surf.View() == old(surf.View()).(x := x, y := y)
      ensures Has(surf, k) ==> Now() == MoveSurface(old(Now()), k, x, y)
      ensures !Has(surf, k) ==>
                var v := old(surf.View());
                Now() == ReportIf(ReportIf(old(Now()), v.visible, v.Bounds()), v.visible, Rect(x, y, v.w, v.h))
    {
      if surf.visible { Damaged(Rect(surf.x, surf.y, surf.width, surf.height)); }
      PlaceAt(surf, x, y, k);
      if surf.visible { Damaged(Rect(x, y, surf.width, surf.height)); }
    }

    method SetVisible(surf: Surface, visible: bool, ghost k: nat)
      requires Valid() && (Has(surf, k) || Apart(surf))
      modifies surf`visible
      ensures Valid() && surf.View() == old(surf.View()).(visible := visible)
      ensures Now() == if Has(surf, k) then Put(old(Now()), k, surf.View()) else old(Now())
    {
      surf.SetVisible(visible);
      assert Linked(stack, head, tail);
      assert Views(stack) == if Has(surf, k) then old(Views(stack))[k := surf.View()] else old(Views(stack));
    }

    method SurfaceShow(surf: Surface, ghost k: nat)
      requires Valid() && (Has(surf, k) || Apart(surf))
      modifies surf`visible, `damageCount, `fullDamage, damage
      ensures Valid() && surf.View() == old(surf.View()).(visible := true)
      ensures Has(surf, k) ==> Now() == ShowSurface(old(Now()), k)
      ensures !Has(surf, k) ==> Now() == ReportIf(old(Now()), !old(surf.visible), old(surf.View().Bounds()))
    {
      if surf.visible {
        assert Has(surf, k) ==> Views(stack)[k := surf.View()] == Views(stack);
        return;
      }
      SetVisible(surf, true, k);
      Damaged(Rect(surf.x, surf.y, surf.width, surf.height));
    }

    method SurfaceHide(surf: Surface, ghost k: nat)
      requires Valid() && (Has(surf, k) || Apart(surf))
      modifies surf`visible, `damageCount, `fullDamage, damage
      ensures Valid() && surf.View() == old(surf.View()).(visible := false)
      ensures Has(surf, k) ==> Now() == HideSurface(old(Now()), k)
      ensures !Has(surf, k) ==> Now() == ReportIf(old(Now()), old(surf.visible), old(surf.View().Bounds()))
    {
      if !surf.visible {
        assert Has(surf, k) ==> Views(stack)[k := surf.View()] == Views(stack);
        return;
      }
      SetVisible(surf, false, k);
      Damaged(Rect(surf.x, surf.y, surf.width, surf.height));
    }

    method Swap(surf: Surface, ghost k: nat)
      requires Valid() && (Has(surf, k) || Apart(surf))
      modifies surf`front, surf`back
      ensures Valid() && surf.View() == old(surf.View()).(front := old(surf.back), back := old(surf.front))
      ensures Now() == if Has(surf, k) then Put(old(Now()), k, surf.View()) else old(Now())
    {
      surf.SwapBuffers();
      assert Linked(stack, head, tail);
      assert Views(stack) == if Has(surf, k) then old(Views(stack))[k := surf.View()] else old(Views(stack));
    }

    method SurfaceSwapBuffers(surf: Surface, ghost k: nat)
      requires Valid() && (Has(surf, k) || Apart(surf))
      modifies surf`front, surf`back, `damageCount, `fullDamage, damage
      ensures Valid() && surf.View() == old(surf.View()).(front := old(surf.back), back := old(surf.front))
      ensures Has(surf, k) ==> Now() == SwapSurface(old(Now()), k)
      ensures !Has(surf, k) ==> Now() == ReportIf(old(Now()), surf.visible, old(surf.View().Bounds()))
    {
      Swap(surf, k);
      if surf.visible { Damaged(Rect(surf.x, surf.y, surf.width, surf.height)); }
    }

    /** A client draws into the buffer that is not shown. */
    method SurfaceDraw(surf: Surface, pixels: seq<Pixel>, ghost k: nat)
      requires Valid() && Has(surf, k) && |pixels| == |surf.back|
      modifies surf`back
      ensures Valid() && Now() == DrawSurface(old(Now()), k, pixels)
    {
      surf.back := pixels;
      assert Views(stack) == old(Views(stack))[k := surf.View()];
    }

    method Reallocate(surf: Surface, width: nat, height: nat, blank: seq<Pixel>, ghost k: nat)
      requires Valid() && (Has(surf, k) || Apart(surf)) && |blank| == width * height
      modifies surf`width, surf`height, surf`front, surf`back
      ensures Valid() && surf.View() == old(surf.View()).(w := width, h := height, front := blank, back := blank)
      ensures Now() == if Has(surf, k) then Put(old(Now()), k, surf.View()) else old(Now())
    {
      surf.Resize(width, height, blank);
      assert Linked(stack, head, tail);
      assert Views(stack) == if Has(surf, k) then old(Views(stack))[k := surf.View()] else old(Views(stack));
    }

    method SurfaceResize(surf: Surface, width: nat, height: nat, ghost k: nat)
      requires Valid() && (Has(surf, k) || Apart(surf))
      modifies surf`width, surf`height, surf`front, surf`back, `damageCount, `fullDamage, damage
      ensures Valid()
      ensures surf.View() ==
                if width == 0 || height == 0 then old(surf.View())
                else
                  var blank := Blank(width * height);
                  old(surf.View()).(w := width, h := height, front := blank, back := blank)
      ensures Has(surf, k) ==> Now() == ResizeSurface(old(Now()), k, width, height)
      ensures !Has(surf, k) ==>
                Now() == ReportIf(old(Now()), width > 0 && height > 0, Rect(surf.x, surf.y, width, height))
    {
      if width == 0 || height == 0 { return; }
      Reallocate(surf, width, height, Blank(width * height), k);
      Damaged(Rect(surf.x, surf.y, width, height));
    }

    // ---------- The order of the stack ----------

    ghost predicate Loose(surf: Surface)
      reads `stack, surf
    {
      surf !in stack && surf.next == null && surf.prev == null
    }

    /** A surface of the list, or one beside it that is neither cursor nor wallpaper. */
    ghost predicate Listable(surf: Surface, k: nat)
      reads `stack, `cursor, `wallpaper, surf
    {
      Has(surf, k) || (Loose(surf) && Apart(surf) && surf.View().Ok())
    }

    /** The links of these surfaces are what they were. */
    twostate predicate Untouched(vs: seq<Surface>)
      reads vs
    {
      forall v :: v in vs ==> v.next == old(v.next) && v.prev == old(v.prev)
    }

    /** A surface that is alone in the list is linked to none; it stays so when another one pushes it out. */
    lemma AloneIsLoose()
      requires Valid() && |stack| <= 1
      ensures forall v :: v in stack ==> v.next == null && v.prev == null
    {
    }

    /** Takes a surface out of the list; its own links stay. One that is not in the list empties it. */
    method Unlink(surf: Surface, ghost k: nat)
      requires Linked(stack, head, tail) && (Has(surf, k) || Loose(surf))
      modifies `head, `tail, `stack, stack`next, stack`prev
      ensures Linked(stack, head, tail)
      ensures old(Has(surf, k)) ==> stack == Without(old(stack), k) && surf !in stack
      ensures !old(Has(surf, k)) ==> stack == []
      ensures !old(Has(surf, k)) ==> Untouched(old(stack))
    {
      assert Has(surf, k) ==>
               && surf.prev == (if k == 0 then null else stack[k - 1])
               && surf.next == (if k + 1 == |stack| then null else stack[k + 1]);
      if surf.prev != null { surf.prev.next := surf.next; } else { head := surf.next; }
      if surf.next != null { surf.next.prev := surf.prev; } else { tail := surf.prev; }
      stack := if Has(surf, k) then Without(stack, k) else [];
    }

    method LinkLast(surf: Surface)
      requires Linked(stack, head, tail) && surf !in stack
      modifies `head, `tail, `stack, stack`next, surf`next, surf`prev
      ensures stack == old(stack) + [surf] && Linked(stack, head, tail)
    {
      surf.prev := tail;
      surf.next := null;
      if tail != null { tail.next := surf; }
      tail := surf;
      if head == null { head := surf; }
      stack := stack + [surf];
    }

    method LinkFirst(surf: Surface)
      requires Linked(stack, head, tail) && surf !in stack
      modifies `head, `tail, `stack, stack`prev, surf`next, surf`prev
      ensures stack == [surf] + old(stack) && Linked(stack, head, tail)
    {
      surf.next := head;
      surf.prev := null;
      if head != null { head.prev := surf; }
      head := surf;
      if tail == null { tail := surf; }
      stack := [surf] + stack;
    }

    /** The neighbours of the place for a surface of place `z`. */
    method FindPlace(z: int) returns (before: Surface?, current: Surface?, ghost i: nat)
      requires Linked(stack, head, tail)
      ensures i == Below(Views(stack), z) && i <= |stack|
      ensures current == (if i < |stack| then stack[i] else null) && before == (if i == 0 then null else stack[i - 1])
    {
      ghost var views := Views(stack);
      current := head;
      before := null;
      i := 0;
      while current != null && current.zOrder <= z
        invariant 0 <= i <= |stack| && current == (if i < |stack| then stack[i] else null)
        invariant before == (if i == 0 then null else stack[i - 1])
        invariant Below(views, z) == i + Below(views[i..], z)
        decreases |stack| - i
      {
        assert views[i..][0] == current.View() && views[i..][1..] == views[i + 1..];
        before := current;
        current := current.next;
        i := i + 1;
      }
      if current != null { assert views[i..][0] == current.View(); }
    }

    /** Puts a surface above all those from the bottom up whose place is not above `z`. */
    method LinkByZ(surf: Surface, z: int)
      requires Linked(stack, head, tail) && surf !in stack
      modifies `head, `tail, `stack, stack`next, stack`prev, surf`next, surf`prev
      ensures stack == InsertAt(old(stack), Below(old(Views(stack)), z), surf) && Linked(stack, head, tail)
    {
      var before, current;
      ghost var i;
      before, current, i := FindPlace(z);
      LinkBetween(surf, before, current, i);
    }

    method LinkBetween(surf: Surface, before: Surface?, current: Surface?, ghost i: nat)
      requires Linked(stack, head, tail) && surf !in stack && i <= |stack|
      requires current == (if i < |stack| then stack[i] else null) && before == (if i == 0 then null else stack[i - 1])
      modifies `head, `tail, `stack, stack`next, stack`prev, surf`next, surf`prev
      ensures stack == InsertAt(old(stack), i, surf) && Linked(stack, head, tail)
    {
      surf.next := current;
      surf.prev := before;
      if before != null { before.next := surf; } else { head := surf; }
      if current != null { current.prev := surf; } else { tail := surf; }
      stack := InsertAt(stack, i, surf);
    }

    lemma NowOk()
      requires Valid()
      ensures AllOk(Now()) && cursor !in stack && wallpaper !in stack
    {
    }

    /** The state after a change of the list alone. */
    lemma StackIs(s: State, views: seq<SurfaceView>)
      requires Buffers() && damageCount <= damage.Length && Rest().(stack := s.stack, image := s.image) == s
      requires Views(stack) == views && AllOk(s.(stack := views)) && cursor !in stack && wallpaper !in stack
      ensures SurfacesOk() && Rest().(image := s.image) == s.(stack := views)
    {
      forall i | 0 <= i < |stack| ensures stack[i].View().Ok() {
        assert views[i] == stack[i].View();
      }
    }

    /** The surfaces look as they did: only links have changed. */
    twostate predicate SameLooks(stack0: seq<Surface>)
      reads this, stack0, cursor, wallpaper
    {
      && Views(stack0) == old(Views(stack0))
      && cursor == old(cursor) && ViewOf(cursor) == old(ViewOf(cursor))
      && wallpaper == old(wallpaper) && ViewOf(wallpaper) == old(ViewOf(wallpaper))
    }

    method RelinkLast(surf: Surface, ghost k: nat)
      requires Linked(stack, head, tail) && (Has(surf, k) || Loose(surf))
      modifies `head, `tail, `stack, stack`next, stack`prev, surf`next, surf`prev
      ensures Linked(stack, head, tail)
      ensures stack == Shifted(old(stack), old(Has(surf, k)), k, |old(stack)| - 1, surf)
      ensures !old(Has(surf, k)) ==> Untouched(old(stack))
    {
      if Has(surf, k) { MovedToEnds(stack, k); }
      Unlink(surf, k);
      LinkLast(surf);
    }

    method ShiftLast(surf: Surface, ghost k: nat)
      requires Linked(stack, head, tail) && (Has(surf, k) || Loose(surf))
      modifies `head, `tail, `stack, stack`next, stack`prev, surf`next, surf`prev
      ensures Linked(stack, head, tail) && SameLooks(old(stack)) && surf.View() == old(surf.View())
      ensures stack == Shifted(old(stack), old(Has(surf, k)), k, |old(stack)| - 1, surf)
      ensures !old(Has(surf, k)) ==> Untouched(old(stack))
    {
      ghost var stack0, views, onTop, under := stack, Views(stack), ViewOf(cursor), ViewOf(wallpaper);
      ghost var linked, view := Has(surf, k), surf.View();
      RelinkLast(surf, k);
      assert SameLooks(stack0) by {
        assert Views(stack0) == views;
        assert ViewOf(cursor) == onTop && ViewOf(wallpaper) == under;
      }
      assert stack == Shifted(stack0, linked, k, |stack0| - 1, surf) && surf.View() == view;
    }

    method ShiftViewsLast(surf: Surface, ghost k: nat)
      requires Linked(stack, head, tail) && (Has(surf, k) || Loose(surf))
      modifies `head, `tail, `stack, stack`next, stack`prev, surf`next, surf`prev
      ensures Linked(stack, head, tail) && SameLooks(old(stack)) && (!old(Has(surf, k)) ==> stack == [surf])
      ensures surf.View() == old(surf.View())
      ensures forall v :: v in stack ==> v in old(stack) || v == surf
      ensures Views(stack) == Shifted(old(Views(stack)), old(Has(surf, k)), k, |old(stack)| - 1, old(surf.View()))
      ensures !old(Has(surf, k)) ==> Untouched(old(stack))
    {
      ghost var stack0, linked := stack, Has(surf, k);
      ShiftLast(surf, k);
      ViewsShifted(stack0, linked, k, |stack0| - 1, surf);
    }

    method PutLast(surf: Surface, ghost k: nat, ghost s: State)
      requires Valid() && Listable(surf, k) && s == Now()
      modifies `head, `tail, `stack, stack`next, stack`prev, surf`next, surf`prev
      ensures Linked(stack, head, tail) && SurfacesOk() && (!old(Has(surf, k)) ==> stack == [surf])
      ensures surf.View() == old(surf.View())
      ensures Rest().(image := s.image) ==
              s.(stack := Shifted(s.stack, old(Has(surf, k)), k, |s.stack| - 1, old(surf.View())))
      ensures !old(Has(surf, k)) ==> Untouched(old(stack))
    {
      ghost var linked, view := Has(surf, k), surf.View();
      NowOk();
      ShiftViewsLast(surf, k);
      ShiftedOk(s, linked, k, |s.stack| - 1, view);
      StackIs(s, Shifted(s.stack, linked, k, |s.stack| - 1, view));
    }

    /** Moves a surface to the top. */
    method MoveToTop(surf: Surface, ghost k: nat)
      requires Valid() && Listable(surf, k)
      modifies `head, `tail, `stack, stack`next, stack`prev, surf`next, surf`prev
      ensures Valid() && (!old(Has(surf, k)) ==> stack == [surf]) && surf.View() == old(surf.View())
      ensures Now() == old(Now()).(stack :=
                Shifted(old(Views(stack)), old(Has(surf, k)), k, |old(stack)| - 1, old(surf.View())))
      ensures !old(Has(surf, k)) ==> Untouched(old(stack))
    {
      PutLast(surf, k, Now());
    }

    /** Raises a surface of the list; one beside the list becomes all of it. */
    method SurfaceRaise(surf: Surface, ghost k: nat)
      requires Valid() && Listable(surf, k)
      modifies `head, `tail, `stack, stack`next, stack`prev, surf`next, surf`prev, `damageCount, `fullDamage, damage
      ensures Valid()
      ensures old(Has(surf, k)) ==> Now() == RaiseSurface(old(Now()), k)
      ensures !old(Has(surf, k)) ==>
                stack == [surf] && Now() == RaiseAlone(old(Now()), old(surf.View()))
      ensures !old(Has(surf, k)) ==> Untouched(old(stack))
    {
      ghost var view := surf.View();
      assert Has(surf, k) ==> Now().stack[k] == view;
      MoveToTop(surf, k);
      DamagedSurface(surf, view.Bounds());
    }

    method RelinkFirst(surf: Surface, ghost k: nat)
      requires Linked(stack, head, tail) && (Has(surf, k) || Loose(surf))
      modifies `head, `tail, `stack, stack`next, stack`prev, surf`next, surf`prev
      ensures Linked(stack, head, tail)
      ensures stack == Shifted(old(stack), old(Has(surf, k)), k, 0, surf)
      ensures !old(Has(surf, k)) ==> Untouched(old(stack))
    {
      if Has(surf, k) { MovedToEnds(stack, k); }
      Unlink(surf, k);
      LinkFirst(surf);
    }

    method ShiftFirst(surf: Surface, ghost k: nat)
      requires Linked(stack, head, tail) && (Has(surf, k) || Loose(surf))
      modifies `head, `tail, `stack, stack`next, stack`prev, surf`next, surf`prev
      ensures Linked(stack, head, tail) && SameLooks(old(stack)) && surf.View() == old(surf.View())
      ensures stack == Shifted(old(stack), old(Has(surf, k)), k, 0, surf)
      ensures !old(Has(surf, k)) ==> Untouched(old(stack))
    {
      ghost var stack0, views, onTop, under := stack, Views(stack), ViewOf(cursor), ViewOf(wallpaper);
      ghost var linked, view := Has(surf, k), surf.View();
      RelinkFirst(surf, k);
      assert SameLooks(stack0) by {
        assert Views(stack0) == views;
        assert ViewOf(cursor) == onTop && ViewOf(wallpaper) == under;
      }
      assert stack == Shifted(stack0, linked, k, 0, surf) && surf.View() == view;
    }

    method ShiftViewsFirst(surf: Surface, ghost k: nat)
      requires Linked(stack, head, tail) && (Has(surf, k) || Loose(surf))
      modifies `head, `tail, `stack, stack`next, stack`prev, surf`next, surf`prev
      ensures Linked(stack, head, tail) && SameLooks(old(stack)) && (!old(Has(surf, k)) ==> stack == [surf])
      ensures forall v :: v in stack ==> v in old(stack) || v == surf
      ensures Views(stack) == Shifted(old(Views(stack)), old(Has(surf, k)), k, 0, old(surf.View()))
      ensures !old(Has(surf, k)) ==> Untouched(old(stack))
    {
      ghost var stack0, linked := stack, Has(surf, k);
      ShiftFirst(surf, k);
      ViewsShifted(stack0, linked, k, 0, surf);
    }

    method PutFirst(surf: Surface, ghost k: nat, ghost s: State)
      requires Valid() && Listable(surf, k) && s == Now()
      modifies `head, `tail, `stack, stack`next, stack`prev, surf`next, surf`prev
      ensures Linked(stack, head, tail) && SurfacesOk() && (!old(Has(surf, k)) ==> stack == [surf])
      ensures Rest().(image := s.image) ==
              s.(stack := Shifted(s.stack, old(Has(surf, k)), k, 0, old(surf.View())))
      ensures !old(Has(surf, k)) ==> Untouched(old(stack))
    {
      ghost var linked, view := Has(surf, k), surf.View();
      NowOk();
      ShiftViewsFirst(surf, k);
      ShiftedOk(s, linked, k, 0, view);
      StackIs(s, Shifted(s.stack, linked, k, 0, view));
    }

    /** Moves a surface to the bottom. */
    method MoveToBottom(surf: Surface, ghost k: nat)
      requires Valid() && Listable(surf, k)
      modifies `head, `tail, `stack, stack`next, stack`prev, surf`next, surf`prev
      ensures Valid() && (!old(Has(surf, k)) ==> stack == [surf])
      ensures Now() == old(Now()).(stack := Shifted(old(Views(stack)), old(Has(surf, k)), k, 0, old(surf.View())))
      ensures !old(Has(surf, k)) ==> Untouched(old(stack))
    {
      PutFirst(surf, k, Now());
    }

    method AllDamaged()
      requires Valid()
      modifies `damageCount, `fullDamage
      ensures Valid() && Now() == old(Now()).(damage := ALL_DAMAGED)
    {
      ForceRedraw();
    }

    /** Lowers a surface of the list; one beside the list becomes all of it. */
    method SurfaceLower(surf: Surface, ghost k: nat)
      requires Valid() && Listable(surf, k)
      modifies `head, `tail, `stack, stack`next, stack`prev, surf`next, surf`prev, `damageCount, `fullDamage
      ensures Valid()
      ensures old(Has(surf, k)) ==> Now() == LowerSurface(old(Now()), k)
      ensures !old(Has(surf, k)) ==>
                stack == [surf] && Now() == LowerAlone(old(Now()), old(surf.View()))
      ensures !old(Has(surf, k)) ==> Untouched(old(stack))
    {
      MoveToBottom(surf, k);
      AllDamaged();
    }

    /** Takes a surface out; the others look as they did. */
    method Remove(surf: Surface, ghost k: nat)
      requires Linked(stack, head, tail) && (Has(surf, k) || Loose(surf))
      modifies `head, `tail, `stack, stack`next, stack`prev
      ensures Linked(stack, head, tail) && surf !in stack
      ensures stack == if old(Has(surf, k)) then Without(old(stack), k) else []
      ensures Views(stack) == if old(Has(surf, k)) then Without(old(Views(stack)), k) else []
      ensures !old(Has(surf, k)) ==> Untouched(old(stack))
    {
      ghost var stack0, views, linked := stack, Views(stack), Has(surf, k);
      Unlink(surf, k);
      assert Views(stack0) == views;
      if linked { ViewsMoved(stack0, k, 0); }
    }

    method RelinkByZ(surf: Surface, z: int, ghost k: nat, ghost i: nat)
      requires Linked(stack, head, tail) && (Has(surf, k) || Loose(surf))
      requires SortsAt(Views(stack), Has(surf, k), k, z, i)
      modifies `head, `tail, `stack, stack`next, stack`prev, surf`next, surf`prev
      ensures Linked(stack, head, tail)
      ensures stack == Shifted(old(stack), old(Has(surf, k)), k, i, surf)
      ensures !old(Has(surf, k)) ==> Untouched(old(stack))
    {
      ghost var linked := Has(surf, k);
      Remove(surf, k);
      if linked { BelowMeaning(Views(stack), z, i); }
      LinkByZ(surf, z);
    }

    method ShiftByZ(surf: Surface, z: int, ghost k: nat, ghost i: nat)
      requires Linked(stack, head, tail) && (Has(surf, k) || Loose(surf))
      requires SortsAt(Views(stack), Has(surf, k), k, z, i)
      modifies `head, `tail, `stack, stack`next, stack`prev, surf`next, surf`prev
      ensures Linked(stack, head, tail) && SameLooks(old(stack)) && surf.View() == old(surf.View())
      ensures stack == Shifted(old(stack), old(Has(surf, k)), k, i, surf)
      ensures !old(Has(surf, k)) ==> Untouched(old(stack))
    {
      ghost var stack0, views, onTop, under := stack, Views(stack), ViewOf(cursor), ViewOf(wallpaper);
      ghost var linked, view := Has(surf, k), surf.View();
      RelinkByZ(surf, z, k, i);
      assert SameLooks(stack0) by {
        assert Views(stack0) == views;
        assert ViewOf(cursor) == onTop && ViewOf(wallpaper) == under;
      }
      assert stack == Shifted(stack0, linked, k, i, surf) && surf.View() == view;
    }

    method ShiftViewsByZ(surf: Surface, z: int, ghost k: nat, ghost i: nat)
      requires Linked(stack, head, tail) && (Has(surf, k) || Loose(surf))
      requires SortsAt(Views(stack), Has(surf, k), k, z, i)
      modifies `head, `tail, `stack, stack`next, stack`prev, surf`next, surf`prev
      ensures Linked(stack, head, tail) && SameLooks(old(stack)) && (!old(Has(surf, k)) ==> stack == [surf])
      ensures forall v :: v in stack ==> v in old(stack) || v == surf
      ensures Views(stack) == Shifted(old(Views(stack)), old(Has(surf, k)), k, i, old(surf.View()))
      ensures !old(Has(surf, k)) ==> Untouched(old(stack))
    {
      ghost var stack0, linked := stack, Has(surf, k);
      ShiftByZ(surf, z, k, i);
      ViewsShifted(stack0, linked, k, i, surf);
    }

    method PutByZ(surf: Surface, z: int, ghost k: nat, ghost i: nat, ghost s: State)
      requires Valid() && Listable(surf, k) && s == Now() && SortsAt(s.stack, Has(surf, k), k, z, i)
      modifies `head, `tail, `stack, stack`next, stack`prev, surf`next, surf`prev
      ensures Linked(stack, head, tail) && SurfacesOk() && (!old(Has(surf, k)) ==> stack == [surf])
      ensures Rest().(image := s.image) == s.(stack := Shifted(s.stack, old(Has(surf, k)), k, i, old(surf.View())))
      ensures !old(Has(surf, k)) ==> Untouched(old(stack))
    {
      ghost var linked, view := Has(surf, k), surf.View();
      NowOk();
      ShiftViewsByZ(surf, z, k, i);
      ShiftedOk(s, linked, k, i, view);
      StackIs(s, Shifted(s.stack, linked, k, i, view));
    }

    /** Sorts a surface in anew by its place. */
    method MoveByZ(surf: Surface, z: int, ghost k: nat, ghost i: nat)
      requires Valid() && Listable(surf, k) && SortsAt(Views(stack), Has(surf, k), k, z, i)
      modifies `head, `tail, `stack, stack`next, stack`prev, surf`next, surf`prev
      ensures Valid() && (!old(Has(surf, k)) ==> stack == [surf])
      ensures Now() == old(Now()).(stack :=
                Shifted(old(Views(stack)), old(Has(surf, k)), k, i, old(surf.View())))
      ensures !old(Has(surf, k)) ==> Untouched(old(stack))
    {
      PutByZ(surf, z, k, i, Now());
    }

    method SetPlace(surf: Surface, z: int, ghost k: nat)
      requires Valid() && Listable(surf, k)
      modifies surf`zOrder
      ensures Valid() && Listable(surf, k) && surf.View() == old(surf.View()).(z := z)
      ensures Now() == if Has(surf, k) then Put(old(Now()), k, surf.View()) else old(Now())
    {
      surf.SetZ(z);
      assert Linked(stack, head, tail);
      assert Views(stack) == if Has(surf, k) then old(Views(stack))[k := surf.View()] else old(Views(stack));
    }

    /** Sorts in a surface that has been given its place. */
    method SortIn(surf: Surface, z: int, ghost k: nat)
      requires Valid() && Listable(surf, k) && surf.zOrder == z
      modifies `head, `tail, `stack, stack`next, stack`prev, surf`next, surf`prev
      ensures Valid() && (!old(Has(surf, k)) ==> stack == [surf])
      ensures Now() == old(Now()).(stack :=
                if old(Has(surf, k)) then Restacked(old(Views(stack)), k, z) else [old(surf.View())])
      ensures !old(Has(surf, k)) ==> Untouched(old(stack))
    {
      ghost var i := 0;
      if Has(surf, k) { i := RestackedAt(Views(stack), k, z); }
      MoveByZ(surf, z, k, i);
    }

    method Resort(surf: Surface, z: int, ghost k: nat)
      requires Valid() && Listable(surf, k) && surf.zOrder == z
      modifies `head, `tail, `stack, stack`next, stack`prev, surf`next, surf`prev, `damageCount, `fullDamage
      ensures Valid() && (!old(Has(surf, k)) ==> stack == [surf])
      ensures Now() == old(Now()).(damage := ALL_DAMAGED, stack :=
                if old(Has(surf, k)) then Restacked(old(Views(stack)), k, z) else [old(surf.View())])
      ensures !old(Has(surf, k)) ==> Untouched(old(stack))
    {
      SortIn(surf, z, k);
      AllDamaged();
    }

    /** Gives a surface of the list its place; one beside the list that is given a new place becomes all of it. */
    method SurfaceSetZOrder(surf: Surface, z: int, ghost k: nat)
      requires Valid() && Listable(surf, k)
      modifies `head, `tail, `stack, stack`next, stack`prev, surf`next, surf`prev, surf`zOrder, `damageCount,
          `fullDamage
      ensures Valid()
      ensures old(Has(surf, k)) ==> Now() == RestackSurface(old(Now()), k, z)
      ensures !old(Has(surf, k)) ==> Now() == PlaceAlone(old(Now()), old(surf.View()), z)
      ensures !old(Has(surf, k)) ==> stack == if old(surf.zOrder) == z then old(stack) else [surf]
      ensures !old(Has(surf, k)) ==> Untouched(old(stack))
    {
      if surf.zOrder == z { return; }
      ghost var stack0 := stack;
      SetPlace(surf, z, k);
      assert stack == stack0 && Untouched(stack0);
      Resort(surf, z, k);
    }

    method Detach(surf: Surface, ghost k: nat)
      requires Linked(stack, head, tail) && (Has(surf, k) || Loose(surf))
      modifies `head, `tail, `stack, stack`next, stack`prev
      ensures Linked(stack, head, tail) && SameLooks(old(stack))
      ensures stack == if old(Has(surf, k)) then Without(old(stack), k) else []
      ensures !old(Has(surf, k)) ==> Untouched(old(stack))
    {
      Unlink(surf, k);
    }

    method DetachViews(surf: Surface, ghost k: nat)
      requires Linked(stack, head, tail) && (Has(surf, k) || Loose(surf))
      modifies `head, `tail, `stack, stack`next, stack`prev
      ensures Linked(stack, head, tail) && SameLooks(old(stack)) && forall v :: v in stack ==> v in old(stack)
      ensures Views(stack) == if old(Has(surf, k)) then Without(old(Views(stack)), k) else []
      ensures !old(Has(surf, k)) ==> Untouched(old(stack))
    {
      ghost var stack0, linked := stack, Has(surf, k);
      Detach(surf, k);
      if linked { ViewsMoved(stack0, k, 0); }
    }

    /** The cursor or wallpaper that is destroyed is one no longer. */
    method DropRoles(surf: Surface)
      requires Valid()
      modifies `cursor, `wallpaper
      ensures Valid() && cursor != surf && wallpaper != surf
      ensures Now() == WithoutRoles(old(Now()), old(cursor) == surf, old(wallpaper) == surf)
    {
      if cursor == surf { cursor := null; }
      if wallpaper == surf { wallpaper := null; }
      assert Linked(stack, head, tail);
      assert Views(stack) == old(Views(stack)) && DamageNow() == old(DamageNow());
    }

    method DestroyRemains(surf: Surface, ghost k: nat, ghost s: State)
      requires Valid() && (Has(surf, k) || Loose(surf)) && s == Now()
      modifies `head, `tail, `stack, stack`next, stack`prev
      ensures Valid() && Now() == if old(Has(surf, k)) then DestroySurface(s, k) else s.(stack := [])
      ensures !old(Has(surf, k)) ==> Untouched(old(stack))
    {
      ghost var linked := Has(surf, k);
      NowOk();
      DetachViews(surf, k);
      if linked { RearrangedOk(s, k, 0); }
      StackIs(s, if linked then Without(s.stack, k) else []);
    }

    /** Destroys a surface. One that is in the list goes, and it alone; one that is not, such as a cursor,
        takes the whole list with it. */
    method SurfaceDestroy(surf: Surface, ghost k: nat)
      requires Valid() && (Has(surf, k) || Loose(surf))
      modifies `head, `tail, `stack, `cursor, `wallpaper, stack`next, stack`prev
      ensures Valid()
      ensures old(Has(surf, k)) ==> Now() == DestroySurface(old(Now()), k)
      ensures !old(Has(surf, k)) ==>
                Now() == DestroyAlone(old(Now()), old(cursor) == surf, old(wallpaper) == surf)
      ensures !old(Has(surf, k)) ==> Untouched(old(stack))
    {
      DropRoles(surf);
      DestroyRemains(surf, k, Now());
    }

    // ---------- Cursor and wallpaper ----------

    /** Reports the rectangle under the cursor, if there is one. */
    method CursorDamaged()
      requires Valid()
      modifies `damageCount, `fullDamage, damage
      ensures Valid() && Now() == ReportCursor(old(Now()))
    {
      if cursor != null {
        Damaged(Rect(cursorX - cursorHotX, cursorY - cursorHotY, cursor.width, cursor.height));
      }
    }

    method SetCursorPlace(x: int, y: int)
      requires Valid()
      modifies `cursorX, `cursorY
      ensures Valid() && Now() == old(Now()).(curX := x, curY := y)
    {
      cursorX, cursorY := x, y;
      assert Views(stack) == old(Views(stack)) && DamageNow() == old(DamageNow());
    }

    method MoveCursor(x: int, y: int)
      requires Valid()
      modifies `cursorX, `cursorY, `damageCount, `fullDamage, damage
      ensures Valid() && Now() == PlaceCursor(old(Now()), x, y)
    {
      CursorDamaged();
      SetCursorPlace(x, y);
      CursorDamaged();
    }

    method SetCursorSurface(surface: Surface?)
      requires Valid() && (surface != null ==> surface !in stack && surface.View().Ok())
      modifies `cursor
      ensures Valid() && Now() == old(Now()).(cursor := ViewOf(surface))
    {
      cursor := surface;
      assert Views(stack) == old(Views(stack)) && DamageNow() == old(DamageNow());
    }

    method SetCursor(surface: Surface?)
      requires Valid() && (surface != null ==> surface !in stack && surface.View().Ok())
      modifies `cursor, `damageCount, `fullDamage, damage
      ensures Valid() && Now() == ChangeCursor(old(Now()), old(ViewOf(surface)))
    {
      CursorDamaged();
      SetCursorSurface(surface);
      CursorDamaged();
    }

    method SetWallpaperSurface(surface: Surface?)
      requires Valid()
      requires surface != null ==> surface !in stack && surface.View().Ok() && surface.width > 0 && surface.height > 0
      modifies `wallpaper
      ensures Valid() && Now() == old(Now()).(wall := ViewOf(surface))
    {
      wallpaper := surface;
      assert Views(stack) == old(Views(stack)) && DamageNow() == old(DamageNow());
    }

    method SetWallpaper(surface: Surface?)
      requires Valid()
      requires surface != null ==> surface !in stack && surface.View().Ok() && surface.width > 0 && surface.height > 0
      modifies `wallpaper, `damageCount, `fullDamage
      ensures Valid() && Now() == ChangeWallpaper(old(Now()), old(ViewOf(surface)))
    {
      SetWallpaperSurface(surface);
      AllDamaged();
    }

    // ---------- The frame ----------

    method NeedsRedraw() returns (b: bool)
      requires Valid()
      ensures b <==> DamageNow() != NO_DAMAGE
    {
      assert DamageNow().rects == [] <==> damageCount == 0;
      b := fullDamage || damageCount > 0;
    }

    method Redraw()
      requires Valid() && UpToDate(Now())
      modifies composite, framebuffer, cursor, `damageCount, `fullDamage
      ensures Valid() && UpToDate(Now()) && DamageNow() == NO_DAMAGE
      ensures forall px: nat, py: nat :: px < w && py < h ==> Shows(old(Now()), Now().frame, px, py)
    {
      RefreshUpToDate(Now());
      Render();
      Present();
    }

    /** One frame of the event loop: after it, the framebuffer shows the scene if anything was damaged. */
    method Refresh()
      requires Valid() && UpToDate(Now())
      modifies composite, framebuffer, cursor, `damageCount, `fullDamage
      ensures Valid() && UpToDate(Now()) && DamageNow() == NO_DAMAGE
      ensures old(DamageNow()) != NO_DAMAGE ==>
        forall px: nat, py: nat :: px < w && py < h ==> Shows(old(Now()), Now().frame, px, py)
    {
      var redraw := NeedsRedraw();
      if redraw { Redraw(); }
    }
  }
}
