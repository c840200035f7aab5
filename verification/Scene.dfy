/** What the screen ought to show, pixel by pixel, and the compositor of
    `compositor.c` as a machine over values: each operation, the damage it
    reports, and the redrawing of what is damaged. */
module Scene {
  import opened Machine
  import opened Rects

  // ---------- Pixels ----------

  /** A pixel of 32 bits: alpha, red, green, blue. */
  type Pixel = p: int | 0 <= p < 0x1_0000_0000

  function Alpha(p: Pixel): Byte { p / 0x100_0000 }

  function Red(p: Pixel): Byte { p / 0x1_0000 % 0x100 }

  function Green(p: Pixel): Byte { p / 0x100 % 0x100 }

  function Blue(p: Pixel): Byte { p % 0x100 }

  function Argb(a: Byte, r: Byte, g: Byte, b: Byte): (p: Pixel)
    ensures Alpha(p) == a && Red(p) == r && Green(p) == g && Blue(p) == b
  {
    var p := a * 0x100_0000 + r * 0x1_0000 + g * 0x100 + b;
    assert p / 0x100 == a * 0x1_0000 + r * 0x100 + g;
    assert p / 0x1_0000 == a * 0x100 + r;
    p
  }

  /** The weighted mean of two channels lies between them. */
  function Mix(s: Byte, d: Byte, a: Byte): (m: Byte)
    ensures s <= m <= d || d <= m <= s
  {
    var i := 255 - a;
    if s <= d then MixBounds(s, d, a, i); (s * a + d * i) / 255
    else MixBounds(d, s, i, a); (s * a + d * i) / 255
  }

  lemma MixBounds(lo: Byte, hi: Byte, a: Byte, b: Byte)
    requires lo <= hi && a + b == 255
    ensures 255 * lo <= lo * a + hi * b <= 255 * hi
  {
    ScaleMonotone(lo, hi, a);
    ScaleMonotone(lo, hi, b);
    assert lo * a + lo * b == lo * 255;
    assert hi * a + hi * b == hi * 255;
  }

  lemma ScaleMonotone(x: int, y: int, a: nat)
    requires x <= y
    ensures x * a <= y * a
  {
  }

  const BLACK: Pixel := 0xFF00_0000

  function Blend(src: Pixel, dst: Pixel): Pixel {
    var a := Alpha(src);
    if a == 0 then dst
    else if a == 255 then src
    else Argb(255, Mix(Red(src), Red(dst), a), Mix(Green(src), Green(dst), a), Mix(Blue(src), Blue(dst), a))
  }

  lemma FadedAlpha(a: Byte, opacity: Byte)
    ensures 0 <= a * opacity / 255 < 256
  {
    ScaleMonotone(0, a, opacity);
    ScaleMonotone(a, 255, opacity);
  }

  /** The opacity of the surface scales the alpha of its pixels. */
  function Fade(p: Pixel, opacity: Byte): Pixel {
    if opacity == 255 then p
    else
      FadedAlpha(Alpha(p), opacity);
      Argb(Alpha(p) * opacity / 255, Red(p), Green(p), Blue(p))
  }

  // ---------- Surfaces ----------

  /** A surface: place, size, the two buffers (row by row), opacity, visibility, place in the stack. */
  datatype SurfaceView = SurfaceView(x: int, y: int, w: nat, h: nat, front: seq<Pixel>, back: seq<Pixel>,
                                     opacity: Byte, visible: bool, z: int)
  {
    ghost predicate Ok() {
      |front| == w * h && |back| == w * h
    }

    function Bounds(): Rect {
      Rect(x, y, w, h)
    }
  }

  function Offset(stride: nat, x: nat, y: nat): nat {
    y * stride + x
  }

  lemma OffsetBound(stride: nat, h: nat, x: nat, y: nat)
    requires x < stride && y < h
    ensures Offset(stride, x, y) < stride * h
  {
    assert y * stride + x < (y + 1) * stride <= h * stride;
  }

  lemma OffsetMonotone(stride: nat, x: nat, y: nat, y': nat)
    requires x < stride
    ensures y < y' ==> Offset(stride, x, y) < y' * stride
  {
    if y < y' { ScaleMonotone(y + 1, y', stride); }
  }

  /** Different places have different offsets. */
  lemma OffsetInjective(stride: nat, x: nat, y: nat, x': nat, y': nat)
    requires x < stride && x' < stride
    ensures Offset(stride, x, y) == Offset(stride, x', y') <==> x == x' && y == y'
  {
    OffsetMonotone(stride, x, y, y');
    OffsetMonotone(stride, x', y', y);
  }

  /** The pixel of a surface at its own coordinates. */
  ghost function Texel(s: SurfaceView, dx: nat, dy: nat): Pixel
    requires s.Ok() && dx < s.w && dy < s.h
  {
    OffsetBound(s.w, s.h, dx, dy);
    s.front[Offset(s.w, dx, dy)]
  }

  /** What a surface makes of the pixel under it. */
  ghost function Through(s: SurfaceView, px: int, py: int, under: Pixel): Pixel {
    if s.Ok() && s.visible && s.Bounds().Contains(px, py)
    then Blend(Fade(Texel(s, px - s.x, py - s.y), s.opacity), under)
    else under
  }

  /** All surfaces of the stack, from the bottom up. */
  ghost function Stacked(stack: seq<SurfaceView>, px: int, py: int, under: Pixel): Pixel {
    if stack == [] then under
    else Through(stack[|stack| - 1], px, py, Stacked(stack[..|stack| - 1], px, py, under))
  }

  /** The wallpaper tiles the screen; without one it is black. */
  ghost function Background(wall: Option<SurfaceView>, px: nat, py: nat): Pixel {
    if wall.Some? && wall.value.Ok() && wall.value.w > 0 && wall.value.h > 0
    then Texel(wall.value, px % wall.value.w, py % wall.value.h)
    else BLACK
  }

  // ---------- The compositor ----------

  type Image = seq<seq<Pixel>>

  /** The state of the compositor: `image` is the composition buffer, `frame` the framebuffer. */
  datatype State = State(w: nat, h: nat, wall: Option<SurfaceView>, stack: seq<SurfaceView>,
                         cursor: Option<SurfaceView>, curX: int, curY: int, hotX: int, hotY: int,
                         damage: Damage, image: Image, frame: Image)

  function CursorRect(x: int, y: int, s: State): Rect
    requires s.cursor.Some?
  {
    Rect(x - s.hotX, y - s.hotY, s.cursor.value.w, s.cursor.value.h)
  }

  /** The cursor as it is drawn: a surface at its own place. */
  ghost function Drawn(cursor: SurfaceView, s: State): SurfaceView {
    cursor.(x := s.curX - s.hotX, y := s.curY - s.hotY)
  }

  /** The cursor, if there is one, over what is under it. */
  ghost function UnderCursor(s: State, px: int, py: int, under: Pixel): Pixel {
    if s.cursor.None? then under
    else Through(Drawn(s.cursor.value, s), px, py, under)
  }

  /** The reference: what pixel (px, py) of the screen ought to be. */
  ghost function ScenePixel(s: State, px: nat, py: nat): Pixel {
    UnderCursor(s, px, py, Stacked(s.stack, px, py, Background(s.wall, px, py)))
  }

  ghost predicate Sized(s: State, image: Image) {
    |image| == s.h && forall y :: 0 <= y < s.h ==> |image[y]| >= s.w
  }

  ghost predicate Shows(s: State, image: Image, px: nat, py: nat)
    requires Sized(s, image) && px < s.w && py < s.h
  {
    image[py][px] == ScenePixel(s, px, py)
  }

  /** The central invariant: what no pending damage covers is as it ought to be. */
  ghost predicate UpToDate(s: State) {
    && DamageOk(s.w, s.h, s.damage) && Sized(s, s.image) && Sized(s, s.frame)
    && forall px: nat, py: nat :: px < s.w && py < s.h && !Covered(s.damage, px, py) ==> Shows(s, s.image, px, py)
  }

  // ---------- Operations ----------

  datatype Op =
    | Move(k: nat, x: int, y: int)
    | Show(k: nat)
    | Hide(k: nat)
    | SwapBuffers(k: nat)
    | DrawBack(k: nat, pixels: seq<Pixel>)
    | Resize(k: nat, w: nat, h: nat)
    | Destroy(k: nat)
    | Raise(k: nat)
    | Lower(k: nat)
    | SetZOrder(k: nat, z: int)
    | RaiseUnlisted(v: SurfaceView)
    | LowerUnlisted(v: SurfaceView)
    | PlaceUnlisted(v: SurfaceView, z: int)
    | DestroyUnlisted(isCursor: bool, isWall: bool)
    | MarkDamaged(r: Rect)
    | MoveCursor(x: int, y: int)
    | SetCursor(surface: Option<SurfaceView>)
    | SetWallpaper(wallpaper: Option<SurfaceView>)
    | Render
    | Present

  ghost function Report(s: State, r: Rect): State {
    s.(damage := AddDamage(s.w, s.h, s.damage, r))
  }

  ghost function ReportIf(s: State, b: bool, r: Rect): State {
    if b then Report(s, r) else s
  }

  ghost function Put(s: State, k: nat, v: SurfaceView): State
    requires k < |s.stack|
  {
    s.(stack := s.stack[k := v])
  }

  ghost function Without<T>(q: seq<T>, k: nat): (r: seq<T>)
    requires k < |q|
    ensures |r| == |q| - 1 && forall i {:trigger r[i]} :: 0 <= i < |r| ==> r[i] == if i < k then q[i] else q[i + 1]
  {
    q[..k] + q[k + 1..]
  }

  /** How many surfaces from the bottom have no higher place than `z`, up to the first that has. */
  ghost function Below(q: seq<SurfaceView>, z: int): (i: nat)
    ensures i <= |q|
  {
    if q == [] || q[0].z > z then 0 else 1 + Below(q[1..], z)
  }

  ghost function InsertAt<T>(q: seq<T>, i: nat, v: T): (r: seq<T>)
    requires i <= |q|
    ensures |r| == |q| + 1 && forall j {:trigger r[j]} :: 0 <= j < |r| ==>
        r[j] == if j < i then q[j] else if j == i then v else q[j - 1]
  {
    q[..i] + [v] + q[i..]
  }

  /** The element `k` taken out and put back at position `i`. */
  ghost function Moved<T>(q: seq<T>, k: nat, i: nat): (r: seq<T>)
    requires k < |q| && i < |q|
    ensures |r| == |q|
  {
    InsertAt(Without(q, k), i, q[k])
  }

  /** The stack after the surface `k` was given the place `z`. */
  ghost function Restacked(q: seq<SurfaceView>, k: nat, z: int): seq<SurfaceView>
    requires k < |q|
  {
    var rest := Without(q, k);
    InsertAt(rest, Below(rest, z), q[k].(z := z))
  }

  ghost function Redrawn(s: State): Image
    requires Sized(s, s.image)
  {
    seq(s.h, y requires 0 <= y < s.h =>
      seq(|s.image[y]|, x requires 0 <= x < |s.image[y]| =>
        if x < s.w && Covered(s.damage, x, y) then ScenePixel(s, x, y) else s.image[y][x]))
  }

  ghost function Presented(s: State): Image
    requires Sized(s, s.image) && Sized(s, s.frame)
  {
    seq(s.h, y requires 0 <= y < s.h =>
      seq(|s.frame[y]|, x requires 0 <= x < |s.frame[y]| => if x < s.w then s.image[y][x] else s.frame[y][x]))
  }

  function Blank(n: nat): seq<Pixel> {
    seq(n, _ => 0)
  }

  /** An operation names a surface of the stack, or brings along one that is not in it. */
  ghost predicate Legal(s: State, op: Op) {
    match op
    case Move(k, _, _) => k < |s.stack|
    case Show(k) => k < |s.stack|
    case Hide(k) => k < |s.stack|
    case SwapBuffers(k) => k < |s.stack|
    case DrawBack(k, pixels) => k < |s.stack| && |pixels| == |s.stack[k].back|
    case Resize(k, _, _) => k < |s.stack|
    case Destroy(k) => k < |s.stack|
    case Raise(k) => k < |s.stack|
    case Lower(k) => k < |s.stack|
    case SetZOrder(k, _) => k < |s.stack|
    case RaiseUnlisted(_) => true
    case LowerUnlisted(_) => true
    case PlaceUnlisted(_, _) => true
    case DestroyUnlisted(isCursor, isWall) => (isCursor ==> s.cursor.Some?) && (isWall ==> s.wall.Some?)
    case MarkDamaged(_) => true
    case MoveCursor(_, _) => true
    case SetCursor(_) => true
    case SetWallpaper(_) => true
    case Render => Sized(s, s.image)
    case Present => Sized(s, s.image) && Sized(s, s.frame)
  }

  ghost function MoveSurface(s: State, k: nat, x: int, y: int): State
    requires k < |s.stack|
  {
    var v := s.stack[k];
    ReportIf(Put(ReportIf(s, v.visible, v.Bounds()), k, v.(x := x, y := y)), v.visible, Rect(x, y, v.w, v.h))
  }

  ghost function ShowSurface(s: State, k: nat): State
    requires k < |s.stack|
  {
    var v := s.stack[k];
    ReportIf(Put(s, k, v.(visible := true)), !v.visible, v.Bounds())
  }

  ghost function HideSurface(s: State, k: nat): State
    requires k < |s.stack|
  {
    var v := s.stack[k];
    ReportIf(Put(s, k, v.(visible := false)), v.visible, v.Bounds())
  }

  ghost function SwapSurface(s: State, k: nat): State
    requires k < |s.stack|
  {
    var v := s.stack[k];
    ReportIf(Put(s, k, v.(front := v.back, back := v.front)), v.visible, v.Bounds())
  }

  ghost function DrawSurface(s: State, k: nat, pixels: seq<Pixel>): State
    requires k < |s.stack|
  {
    Put(s, k, s.stack[k].(back := pixels))
  }

  ghost function ResizeSurface(s: State, k: nat, w: nat, h: nat): State
    requires k < |s.stack|
  {
    var v := s.stack[k];
    if w == 0 || h == 0 then s
    else Report(Put(s, k, v.(w := w, h := h, front := Blank(w * h), back := Blank(w * h))), Rect(v.x, v.y, w, h))
  }

  ghost function DestroySurface(s: State, k: nat): State
    requires k < |s.stack|
  {
    s.(stack := Without(s.stack, k))
  }

  ghost function RaiseSurface(s: State, k: nat): State
    requires k < |s.stack|
  {
    Report(s.(stack := Moved(s.stack, k, |s.stack| - 1)), s.stack[k].Bounds())
  }

  ghost function LowerSurface(s: State, k: nat): State
    requires k < |s.stack|
  {
    s.(stack := Moved(s.stack, k, 0), damage := ALL_DAMAGED)
  }

  ghost function RestackSurface(s: State, k: nat, z: int): State
    requires k < |s.stack|
  {
    if s.stack[k].z == z then s
    else s.(stack := Restacked(s.stack, k, z), damage := ALL_DAMAGED)
  }

  /** Without the cursor, without the wallpaper. */
  ghost function WithoutRoles(s: State, cursor: bool, wall: bool): State {
    s.(cursor := if cursor then None else s.cursor, wall := if wall then None else s.wall)
  }

  /** A surface that is not in the stack is raised: it becomes all of the stack, and is reported. */
  ghost function RaiseAlone(s: State, v: SurfaceView): State {
    Report(s.(stack := [v]), v.Bounds())
  }

  ghost function LowerAlone(s: State, v: SurfaceView): State {
    s.(stack := [v], damage := ALL_DAMAGED)
  }

  ghost function PlaceAlone(s: State, v: SurfaceView, z: int): State {
    if v.z == z then s else s.(stack := [v.(z := z)], damage := ALL_DAMAGED)
  }

  /** One that is destroyed takes the stack with it. */
  ghost function DestroyAlone(s: State, isCursor: bool, isWall: bool): State {
    WithoutRoles(s, isCursor, isWall).(stack := [])
  }

  ghost function ReportCursor(s: State): State {
    if s.cursor.Some? then Report(s, CursorRect(s.curX, s.curY, s)) else s
  }

  ghost function PlaceCursor(s: State, x: int, y: int): State {
    ReportCursor(ReportCursor(s).(curX := x, curY := y))
  }

  ghost function ChangeCursor(s: State, surface: Option<SurfaceView>): State {
    ReportCursor(ReportCursor(s).(cursor := surface))
  }

  ghost function ChangeWallpaper(s: State, wallpaper: Option<SurfaceView>): State {
    s.(wall := wallpaper, damage := ALL_DAMAGED)
  }

  ghost function Rendered(s: State): State
    requires Sized(s, s.image)
  {
    if !s.damage.full && s.damage.rects == [] then s
    else s.(image := Redrawn(s), damage := NO_DAMAGE)
  }

  ghost function Next(s: State, op: Op): State
    requires Legal(s, op)
  {
    match op
    case Move(k, x, y) => MoveSurface(s, k, x, y)
    case Show(k) => ShowSurface(s, k)
    case Hide(k) => HideSurface(s, k)
    case SwapBuffers(k) => SwapSurface(s, k)
    case DrawBack(k, pixels) => DrawSurface(s, k, pixels)
    case Resize(k, w, h) => ResizeSurface(s, k, w, h)
    case Destroy(k) => DestroySurface(s, k)
    case Raise(k) => RaiseSurface(s, k)
    case Lower(k) => LowerSurface(s, k)
    case SetZOrder(k, z) => RestackSurface(s, k, z)
    case RaiseUnlisted(v) => RaiseAlone(s, v)
    case LowerUnlisted(v) => LowerAlone(s, v)
    case PlaceUnlisted(v, z) => PlaceAlone(s, v, z)
    case DestroyUnlisted(isCursor, isWall) => DestroyAlone(s, isCursor, isWall)
    case MarkDamaged(r) => Report(s, r)
    case MoveCursor(x, y) => PlaceCursor(s, x, y)
    case SetCursor(surface) => ChangeCursor(s, surface)
    case SetWallpaper(wallpaper) => ChangeWallpaper(s, wallpaper)
    case Render => Rendered(s)
    case Present => s.(frame := Presented(s))
  }

  /** The surface leaves this pixel as it is. */
  ghost predicate Clear(v: SurfaceView, px: int, py: int) {
    !(v.visible && v.Bounds().Contains(px, py))
  }

  /** What can be seen on the screen: a surface of the stack, the cursor, the wallpaper. */
  datatype Site = Listed(k: nat) | TheCursor | TheWallpaper

  /** ... and at which pixels, if nothing hides it. */
  ghost predicate Seen(s: State, site: Site, px: int, py: int) {
    match site
    case Listed(k) => k < |s.stack| && !Clear(s.stack[k], px, py)
    case TheCursor => s.cursor.Some? && s.cursor.value.visible && CursorRect(s.curX, s.curY, s).Contains(px, py)
    case TheWallpaper => s.wall.Some? && s.wall.value.w > 0 && s.wall.value.h > 0
  }

  /** A step takes a pixel from a site: a resize outside the new rectangle, a destruction everywhere, and a raise
      or a destruction beside the stack takes all of the stack. What lowers or gives a place damages everything. */
  ghost predicate Takes(s: State, op: Op, site: Site, px: int, py: int)
    requires Legal(s, op)
  {
    match op
    case Resize(k, w, h) =>
      site == Listed(k) && w > 0 && h > 0 && !Rect(s.stack[k].x, s.stack[k].y, w, h).Contains(px, py)
    case Destroy(k) => site == Listed(k)
    case RaiseUnlisted(_) => site.Listed?
    case DestroyUnlisted(isCursor, isWall) =>
      site.Listed? || (site.TheCursor? && isCursor) || (site.TheWallpaper? && isWall)
    case _ => false
  }

  ghost predicate Lost(s: State, op: Op, px: int, py: int)
    requires Legal(s, op)
  {
    exists site {:trigger Seen(s, site, px, py)} :: Seen(s, site, px, py) && Takes(s, op, site, px, py)
  }

  /** What is reported is enough: each pixel of the screen that is lost is covered, by damage that was pending
      or by what the rectangle that is reported makes of it. A destruction reports nothing. */
  ghost predicate Reported(s: State, op: Op)
    requires Legal(s, op)
  {
    forall px: nat, py: nat {:trigger Lost(s, op, px, py)} :: px < s.w && py < s.h && Lost(s, op, px, py) ==>
      Covered(DamageAfter(s, op), px, py)
  }

  /** The damage after a step that can lose pixels: it depends on places, sizes and damage only. */
  function DamageAfter(s: State, op: Op): Damage {
    if op.Resize? && op.w > 0 && op.h > 0 && op.k < |s.stack|
    then AddDamage(s.w, s.h, s.damage, Rect(s.stack[op.k].x, s.stack[op.k].y, op.w, op.h))
    else if op.RaiseUnlisted? then AddDamage(s.w, s.h, s.damage, op.v.Bounds())
    else s.damage
  }

  // ---------- Incremental redrawing refines full redrawing ----------

  lemma {:induction false} StackedPut(q: seq<SurfaceView>, k: nat, v: SurfaceView, px: int, py: int, under: Pixel)
    requires k < |q|
    requires (Clear(q[k], px, py) && Clear(v, px, py)) || (v == q[k].(back := v.back) && |v.back| == |q[k].back|)
    ensures Stacked(q[k := v], px, py, under) == Stacked(q, px, py, under)
  {
    var m := |q| - 1;
    if k < m {
      assert q[k := v][..m] == q[..m][k := v];
      StackedPut(q[..m], k, v, px, py, under);
    } else {
      assert q[k := v][..m] == q[..m];
    }
  }

  lemma {:induction false} StackedWithout(q: seq<SurfaceView>, k: nat, px: int, py: int, under: Pixel)
    requires k < |q| && Clear(q[k], px, py)
    ensures Stacked(Without(q, k), px, py, under) == Stacked(q, px, py, under)
  {
    var m := |q| - 1;
    if k < m {
      assert Without(q, k)[..m - 1] == Without(q[..m], k);
      StackedWithout(q[..m], k, px, py, under);
    } else {
      assert Without(q, k) == q[..m];
    }
  }

  /** A surface that moves to the top changes nothing where it is not. */
  lemma StackedRaised(q: seq<SurfaceView>, k: nat, px: int, py: int, under: Pixel)
    requires k < |q| && Clear(q[k], px, py)
    ensures Stacked(Moved(q, k, |q| - 1), px, py, under) == Stacked(q, px, py, under)
  {
    StackedWithout(q, k, px, py, under);
    var r := Moved(q, k, |q| - 1);
    assert r[..|r| - 1] == Without(q, k);
  }

  /** `t` differs from `s` only in what its damage covers. */
  ghost predicate Honest(s: State, t: State) {
    && t.w == s.w && t.h == s.h && t.image == s.image && t.frame == s.frame && DamageOk(t.w, t.h, t.damage)
    && forall px: nat, py: nat :: px < s.w && py < s.h && !Covered(t.damage, px, py) ==>
         !Covered(s.damage, px, py) && ScenePixel(t, px, py) == ScenePixel(s, px, py)
  }

  lemma HonestKeeps(s: State, t: State)
    requires UpToDate(s) && Honest(s, t)
    ensures UpToDate(t)
  {
    forall px: nat, py: nat | px < t.w && py < t.h && !Covered(t.damage, px, py)
      ensures Shows(t, t.image, px, py)
    {
      assert Shows(s, s.image, px, py);
    }
  }

  /** What a report, made before or after a change of the scene, has covered. */
  lemma ReportCovers(s: State, r: Rect)
    requires DamageOk(s.w, s.h, s.damage)
    ensures DamageOk(s.w, s.h, Report(s, r).damage)
    ensures forall px: nat, py: nat :: px < s.w && py < s.h && !Covered(Report(s, r).damage, px, py) ==>
              !Covered(s.damage, px, py) && !r.Contains(px, py)
  {
    AddDamageCovers(s.w, s.h, s.damage, r);
  }

  lemma PutHonest(s: State, k: nat, v: SurfaceView, d: Damage)
    requires k < |s.stack| && DamageOk(s.w, s.h, d)
    requires forall px: nat, py: nat :: px < s.w && py < s.h && !Covered(d, px, py) ==>
               !Covered(s.damage, px, py) && Clear(s.stack[k], px, py) && Clear(v, px, py)
    ensures Honest(s, Put(s, k, v).(damage := d))
  {
    var t := Put(s, k, v).(damage := d);
    forall px: nat, py: nat | px < s.w && py < s.h && !Covered(d, px, py)
      ensures ScenePixel(t, px, py) == ScenePixel(s, px, py)
    {
      StackedPut(s.stack, k, v, px, py, Background(s.wall, px, py));
    }
  }

  lemma MoveHonest(s: State, k: nat, x: int, y: int)
    requires k < |s.stack| && DamageOk(s.w, s.h, s.damage)
    ensures Honest(s, Next(s, Move(k, x, y)))
  {
    var v := s.stack[k];
    ReportCovers(s, v.Bounds());
    ReportCovers(ReportIf(s, v.visible, v.Bounds()), Rect(x, y, v.w, v.h));
    PutHonest(s, k, v.(x := x, y := y), Next(s, Move(k, x, y)).damage);
  }

  lemma NotTaken(s: State, op: Op, site: Site, px: int, py: int)
    requires Legal(s, op) && !Lost(s, op, px, py) && Takes(s, op, site, px, py)
    ensures !Seen(s, site, px, py)
  {
  }

  lemma ResizeHonest(s: State, k: nat, w: nat, h: nat)
    requires k < |s.stack| && DamageOk(s.w, s.h, s.damage) && w > 0 && h > 0 && Reported(s, Resize(k, w, h))
    ensures Honest(s, Next(s, Resize(k, w, h)))
  {
    var v, t := s.stack[k], ResizeSurface(s, k, w, h);
    ReportCovers(s, Rect(v.x, v.y, w, h));
    forall px: nat, py: nat | px < s.w && py < s.h && !Covered(t.damage, px, py)
      ensures Clear(v, px, py)
    {
      assert !Lost(s, Resize(k, w, h), px, py);
      NotTaken(s, Resize(k, w, h), Listed(k), px, py);
    }
    PutHonest(s, k, v.(w := w, h := h, front := Blank(w * h), back := Blank(w * h)), t.damage);
  }

  /** Show, hide, and the exchange of the buffers: the rectangle stays the same. */
  lemma InPlaceHonest(s: State, k: nat, v: SurfaceView, b: bool)
    requires k < |s.stack| && DamageOk(s.w, s.h, s.damage)
    requires v.Bounds() == s.stack[k].Bounds() && (!b ==> !v.visible && !s.stack[k].visible)
    ensures Honest(s, ReportIf(Put(s, k, v), b, v.Bounds()))
  {
    ReportCovers(s, v.Bounds());
    PutHonest(s, k, v, ReportIf(Put(s, k, v), b, v.Bounds()).damage);
  }

  lemma PixelRaised(s: State, t: State, k: nat, px: nat, py: nat)
    requires k < |s.stack| && Clear(s.stack[k], px, py)
    requires t == s.(stack := Moved(s.stack, k, |s.stack| - 1), damage := t.damage)
    ensures ScenePixel(t, px, py) == ScenePixel(s, px, py)
  {
    StackedRaised(s.stack, k, px, py, Background(s.wall, px, py));
  }

  lemma RaiseHonest(s: State, k: nat)
    requires k < |s.stack| && DamageOk(s.w, s.h, s.damage)
    ensures Honest(s, Next(s, Raise(k)))
  {
    var t := RaiseSurface(s, k);
    ReportCovers(s, s.stack[k].Bounds());
    forall px: nat, py: nat | px < s.w && py < s.h && !Covered(t.damage, px, py)
      ensures !Covered(s.damage, px, py) && ScenePixel(t, px, py) == ScenePixel(s, px, py)
    {
      PixelRaised(s, t, k, px, py);
    }
  }

  lemma DestroyHonest(s: State, k: nat)
    requires k < |s.stack| && DamageOk(s.w, s.h, s.damage) && Reported(s, Destroy(k))
    ensures Honest(s, Next(s, Destroy(k)))
  {
    var t := DestroySurface(s, k);
    forall px: nat, py: nat | px < s.w && py < s.h && !Covered(t.damage, px, py)
      ensures ScenePixel(t, px, py) == ScenePixel(s, px, py)
    {
      assert !Lost(s, Destroy(k), px, py);
      NotTaken(s, Destroy(k), Listed(k), px, py);
      StackedWithout(s.stack, k, px, py, Background(s.wall, px, py));
    }
  }

  /** Where no surface shows there is only what is under them. */
  lemma {:induction false} StackedClear(q: seq<SurfaceView>, px: int, py: int, under: Pixel)
    requires forall i :: 0 <= i < |q| ==> Clear(q[i], px, py)
    ensures Stacked(q, px, py, under) == under
  {
    if q != [] { StackedClear(q[..|q| - 1], px, py, under); }
  }

  /** What is not lost when the whole stack goes did not show any of it. */
  lemma StackKept(s: State, op: Op, px: int, py: int, under: Pixel)
    requires (op.RaiseUnlisted? || op.DestroyUnlisted?) && Legal(s, op) && !Lost(s, op, px, py)
    ensures Stacked(s.stack, px, py, under) == under
  {
    forall i | 0 <= i < |s.stack| ensures Clear(s.stack[i], px, py) {
      NotTaken(s, op, Listed(i), px, py);
    }
    StackedClear(s.stack, px, py, under);
  }

  lemma RaiseUnlistedHonest(s: State, v: SurfaceView)
    requires DamageOk(s.w, s.h, s.damage) && Reported(s, RaiseUnlisted(v))
    ensures Honest(s, Next(s, RaiseUnlisted(v)))
  {
    var t := RaiseAlone(s, v);
    ReportCovers(s, v.Bounds());
    forall px: nat, py: nat | px < s.w && py < s.h && !Covered(t.damage, px, py)
      ensures !Covered(s.damage, px, py) && ScenePixel(t, px, py) == ScenePixel(s, px, py)
    {
      var under := Background(s.wall, px, py);
      StackKept(s, RaiseUnlisted(v), px, py, under);
      StackedClear([v], px, py, under);
    }
  }

  lemma DestroyUnlistedHonest(s: State, isCursor: bool, isWall: bool)
    requires DamageOk(s.w, s.h, s.damage)
    requires Legal(s, DestroyUnlisted(isCursor, isWall)) && Reported(s, DestroyUnlisted(isCursor, isWall))
    ensures Honest(s, Next(s, DestroyUnlisted(isCursor, isWall)))
  {
    var op := DestroyUnlisted(isCursor, isWall);
    var t := Next(s, op);
    forall px: nat, py: nat | px < s.w && py < s.h && !Covered(t.damage, px, py)
      ensures ScenePixel(t, px, py) == ScenePixel(s, px, py)
    {
      assert !Lost(s, op, px, py);
      if isCursor { NotTaken(s, op, TheCursor, px, py); }
      if isWall { NotTaken(s, op, TheWallpaper, px, py); }
      StackKept(s, op, px, py, Background(s.wall, px, py));
      WallGone(s, isWall, px, py);
      CursorGone(s, t, isCursor, px, py, Background(s.wall, px, py));
    }
  }

  lemma WallGone(s: State, gone: bool, px: nat, py: nat)
    requires gone ==> !Seen(s, TheWallpaper, px, py)
    ensures Background(if gone then None else s.wall, px, py) == Background(s.wall, px, py)
  {
  }

  lemma CursorGone(s: State, t: State, gone: bool, px: int, py: int, under: Pixel)
    requires t.cursor == (if gone then None else s.cursor) && (gone ==> !Seen(s, TheCursor, px, py))
    requires t.curX == s.curX && t.curY == s.curY && t.hotX == s.hotX && t.hotY == s.hotY
    ensures UnderCursor(t, px, py, under) == UnderCursor(s, px, py, under)
  {
  }

  lemma MarkHonest(s: State, r: Rect)
    requires DamageOk(s.w, s.h, s.damage)
    ensures Honest(s, Next(s, MarkDamaged(r)))
  {
    ReportCovers(s, r);
    var t := Report(s, r);
    forall px: nat, py: nat | px < s.w && py < s.h ensures ScenePixel(t, px, py) == ScenePixel(s, px, py) {
      assert UnderCursor(t, px, py, Stacked(s.stack, px, py, Background(s.wall, px, py))) == ScenePixel(s, px, py);
    }
  }

  lemma DrawBackHonest(s: State, k: nat, pixels: seq<Pixel>)
    requires k < |s.stack| && DamageOk(s.w, s.h, s.damage) && |pixels| == |s.stack[k].back|
    ensures Honest(s, Next(s, DrawBack(k, pixels)))
  {
    var t := Next(s, DrawBack(k, pixels));
    forall px: nat, py: nat | px < s.w && py < s.h
      ensures ScenePixel(t, px, py) == ScenePixel(s, px, py)
    {
      StackedPut(s.stack, k, t.stack[k], px, py, Background(s.wall, px, py));
    }
  }

  /** Where the cursor is not, the stack shows. */
  lemma CursorClear(s: State, px: nat, py: nat)
    requires s.cursor.Some? ==> !CursorRect(s.curX, s.curY, s).Contains(px, py)
    ensures ScenePixel(s, px, py) == Stacked(s.stack, px, py, Background(s.wall, px, py))
  {
  }

  /** Another cursor, or another place for it, with the old and the new rectangle covered. */
  lemma CursorHonest(s: State, t: State)
    requires t.(cursor := s.cursor, curX := s.curX, curY := s.curY, damage := s.damage) == s
    requires DamageOk(s.w, s.h, t.damage)
    requires forall px: nat, py: nat :: px < s.w && py < s.h && !Covered(t.damage, px, py) ==>
      && !Covered(s.damage, px, py)
      && (s.cursor.Some? ==> !CursorRect(s.curX, s.curY, s).Contains(px, py))
      && (t.cursor.Some? ==> !CursorRect(t.curX, t.curY, t).Contains(px, py))
    ensures Honest(s, t)
  {
    forall px: nat, py: nat | px < s.w && py < s.h && !Covered(t.damage, px, py)
      ensures ScenePixel(t, px, py) == ScenePixel(s, px, py)
    {
      CursorClear(s, px, py);
      CursorClear(t, px, py);
    }
  }

  lemma MoveCursorHonest(s: State, x: int, y: int)
    requires DamageOk(s.w, s.h, s.damage)
    ensures Honest(s, Next(s, MoveCursor(x, y)))
  {
    if s.cursor.Some? {
      ReportCovers(s, CursorRect(s.curX, s.curY, s));
      ReportCovers(Report(s, CursorRect(s.curX, s.curY, s)), CursorRect(x, y, s));
    }
    CursorHonest(s, Next(s, MoveCursor(x, y)));
  }

  lemma SetCursorHonest(s: State, surface: Option<SurfaceView>)
    requires DamageOk(s.w, s.h, s.damage)
    ensures Honest(s, Next(s, SetCursor(surface)))
  {
    var s1 := if s.cursor.Some? then Report(s, CursorRect(s.curX, s.curY, s)) else s;
    if s.cursor.Some? { ReportCovers(s, CursorRect(s.curX, s.curY, s)); }
    var s2 := s1.(cursor := surface);
    if surface.Some? { ReportCovers(s2, CursorRect(s.curX, s.curY, s2)); }
    CursorHonest(s, Next(s, SetCursor(surface)));
  }

  /** What is drawn again is right, and nothing else is drawn. */
  lemma RenderUpToDate(s: State)
    requires UpToDate(s)
    ensures UpToDate(Next(s, Render))
    ensures forall px: nat, py: nat :: px < s.w && py < s.h ==> Shows(s, Next(s, Render).image, px, py)
  {
    var t := Next(s, Render);
    forall px: nat, py: nat | px < s.w && py < s.h
      ensures Shows(s, t.image, px, py) && Shows(t, t.image, px, py)
    {
      if !Covered(s.damage, px, py) { assert Shows(s, s.image, px, py); }
      assert ScenePixel(t, px, py) == ScenePixel(s, px, py);
    }
  }

  /** Every operation keeps the pixels outside the pending damage as they ought to be. */
  lemma StepUpToDate(s: State, op: Op)
    requires UpToDate(s) && Legal(s, op) && Reported(s, op)
    ensures UpToDate(Next(s, op))
  {
    match op
    case Move(k, x, y) => MoveHonest(s, k, x, y); HonestKeeps(s, Next(s, op));
    case Show(k) =>
      if s.stack[k].visible {
        assert s.stack[k := s.stack[k].(visible := true)] == s.stack;
      } else {
        InPlaceHonest(s, k, s.stack[k].(visible := true), true);
        HonestKeeps(s, Next(s, op));
      }
    case Hide(k) => InPlaceHonest(s, k, s.stack[k].(visible := false), s.stack[k].visible); HonestKeeps(s, Next(s, op));
    case SwapBuffers(k) =>
      var v := s.stack[k];
      InPlaceHonest(s, k, v.(front := v.back, back := v.front), v.visible);
      HonestKeeps(s, Next(s, op));
    case DrawBack(k, pixels) => DrawBackHonest(s, k, pixels); HonestKeeps(s, Next(s, op));
    case Resize(k, w, h) => if w > 0 && h > 0 { ResizeHonest(s, k, w, h); HonestKeeps(s, Next(s, op)); }
    case Destroy(k) => DestroyHonest(s, k); HonestKeeps(s, Next(s, op));
    case Raise(k) => RaiseHonest(s, k); HonestKeeps(s, Next(s, op));
    case Lower(_) => HonestKeeps(s, Next(s, op));
    case SetZOrder(_, _) => HonestKeeps(s, Next(s, op));
    case RaiseUnlisted(v) => RaiseUnlistedHonest(s, v); HonestKeeps(s, Next(s, op));
    case LowerUnlisted(_) => HonestKeeps(s, Next(s, op));
    case PlaceUnlisted(_, _) => HonestKeeps(s, Next(s, op));
    case DestroyUnlisted(isCursor, isWall) =>
      DestroyUnlistedHonest(s, isCursor, isWall);
      HonestKeeps(s, Next(s, op));
    case MarkDamaged(r) => MarkHonest(s, r); HonestKeeps(s, Next(s, op));
    case MoveCursor(x, y) => MoveCursorHonest(s, x, y); HonestKeeps(s, Next(s, op));
    case SetCursor(surface) => SetCursorHonest(s, surface); HonestKeeps(s, Next(s, op));
    case SetWallpaper(_) => HonestKeeps(s, Next(s, op));
    case Render => RenderUpToDate(s);
    case Present => PresentUpToDate(s);
  }

  lemma PresentUpToDate(s: State)
    requires UpToDate(s)
    ensures UpToDate(Next(s, Present))
  {
    var t := Next(s, Present);
    forall px: nat, py: nat | px < s.w && py < s.h && !Covered(s.damage, px, py)
      ensures Shows(t, t.image, px, py)
    {
      assert Shows(s, s.image, px, py);
    }
  }

  // ---------- Runs ----------

  ghost predicate LegalRun(s: State, ops: seq<Op>)
    decreases ops
  {
    ops == [] || (Legal(s, ops[0]) && Reported(s, ops[0]) && LegalRun(Next(s, ops[0]), ops[1..]))
  }

  ghost function Run(s: State, ops: seq<Op>): State
    requires LegalRun(s, ops)
    decreases ops
  {
    if ops == [] then s else Run(Next(s, ops[0]), ops[1..])
  }

  /** The compositor as `compositor_init` leaves it: all of the screen is damaged. */
  ghost predicate Initial(s: State) {
    s.damage == ALL_DAMAGED && Sized(s, s.image) && Sized(s, s.frame)
  }

  lemma {:induction false} RunUpToDate(s: State, ops: seq<Op>)
    requires UpToDate(s) && LegalRun(s, ops)
    ensures UpToDate(Run(s, ops))
    decreases ops
  {
    if ops != [] {
      StepUpToDate(s, ops[0]);
      RunUpToDate(Next(s, ops[0]), ops[1..]);
    }
  }

  /** Rendering the damage and presenting shows the whole scene. */
  lemma RenderAndPresent(s: State, px: nat, py: nat)
    requires UpToDate(s) && px < s.w && py < s.h
    ensures var u := Next(s, Render);
            Legal(u, Present) && Shows(s, Next(u, Present).frame, px, py)
  {
    RenderUpToDate(s);
    var u := Next(s, Render);
    assert Shows(s, u.image, px, py);
    assert Next(u, Present).frame[py][px] == u.image[py][px];
  }

  lemma RefreshUpToDate(s: State)
    requires UpToDate(s)
    ensures var u := Rendered(s); Sized(u, u.image) && Sized(u, u.frame)
    ensures var u := Rendered(s); var f := u.(frame := Presented(u));
            UpToDate(f) && forall px: nat, py: nat :: px < s.w && py < s.h ==> Shows(s, f.frame, px, py)
  {
    StepUpToDate(s, Render);
    StepUpToDate(Rendered(s), Present);
    forall px: nat, py: nat | px < s.w && py < s.h
      ensures Shows(s, Next(Next(s, Render), Present).frame, px, py)
    {
      RenderAndPresent(s, px, py);
    }
  }

  /** After any run from the start, rendering the damage and presenting shows the whole scene. */
  lemma FrameShowsScene(s: State, ops: seq<Op>, px: nat, py: nat)
    requires Initial(s) && LegalRun(s, ops) && px < s.w && py < s.h
    ensures var t := Run(s, ops);
            && t.w == s.w && t.h == s.h && Legal(t, Render) && Legal(Next(t, Render), Present)
            && Shows(t, Next(Next(t, Render), Present).frame, px, py)
  {
    RunUpToDate(s, ops);
    RunKeepsSize(s, ops);
    RenderAndPresent(Run(s, ops), px, py);
  }

  lemma {:induction false} RunKeepsSize(s: State, ops: seq<Op>)
    requires LegalRun(s, ops)
    ensures Run(s, ops).w == s.w && Run(s, ops).h == s.h
    decreases ops
  {
    if ops != [] { RunKeepsSize(Next(s, ops[0]), ops[1..]); }
  }

  /** Rendering the damage leaves on the screen exactly what rendering everything would. */
  lemma IncrementalIsFull(s: State, px: nat, py: nat)
    requires UpToDate(s) && px < s.w && py < s.h
    ensures Next(s, Render).image[py][px] == Next(s.(damage := ALL_DAMAGED), Render).image[py][px]
  {
    var t := s.(damage := ALL_DAMAGED);
    RenderUpToDate(s);
    RenderUpToDate(t);
    assert Shows(s, Next(s, Render).image, px, py) && Shows(t, Next(t, Render).image, px, py);
    assert ScenePixel(s, px, py) == ScenePixel(t, px, py);
  }

  // ---------- Where reporting is not enough ----------

  /** The same surface but for its pixels and its opacity. */
  ghost predicate SameOutline(v: SurfaceView, u: SurfaceView) {
    v.(front := u.front, back := u.back, opacity := u.opacity) == u
  }

  ghost predicate SameRole(v: Option<SurfaceView>, u: Option<SurfaceView>) {
    (v.Some? <==> u.Some?) && (v.Some? ==> SameOutline(v.value, u.value))
  }

  /** `t` is `s` but for pixels and opacities, on the surfaces, in the buffer and on the screen. */
  ghost predicate SameOutlines(s: State, t: State) {
    && t == s.(stack := t.stack, wall := t.wall, cursor := t.cursor, image := t.image, frame := t.frame)
    && |t.stack| == |s.stack| && (forall i {:trigger t.stack[i]} :: 0 <= i < |s.stack| ==>
        SameOutline(s.stack[i], t.stack[i]))
    && SameRole(s.wall, t.wall) && SameRole(s.cursor, t.cursor)
  }

  const WHITE: Pixel := 0xFFFF_FFFF

  /** The surface filled with one pixel value, and opaque. */
  function Filled(v: SurfaceView, p: Pixel): SurfaceView {
    v.(front := seq(v.w * v.h, _ => p), back := seq(v.w * v.h, _ => p), opacity := 255)
  }

  function FilledRole(v: Option<SurfaceView>, p: Pixel): Option<SurfaceView> {
    if v.None? then None else Some(Filled(v.value, p))
  }

  /** All surfaces transparent, but for a white one. */
  function OneWhite(q: seq<SurfaceView>, k: nat): (r: seq<SurfaceView>)
    ensures |r| == |q| && forall i {:trigger r[i]} :: 0 <= i < |r| ==> r[i] == Filled(q[i], if i == k then WHITE else 0)
  {
    seq(|q|, i requires 0 <= i < |q| => Filled(q[i], if i == k then WHITE else 0))
  }

  lemma FilledThrough(v: SurfaceView, px: int, py: int, under: Pixel)
    ensures Through(Filled(v, 0), px, py, under) == under
    ensures Through(Filled(v, WHITE), px, py, under) == if v.visible && v.Bounds().Contains(px, py) then WHITE
        else under
  {
    if v.Bounds().Contains(px, py) { OffsetBound(v.w, v.h, px - v.x, py - v.y); }
  }

  /** Only the white surface can be seen. */
  lemma {:induction false} StackedOneWhite(q: seq<SurfaceView>, k: nat, px: int, py: int, under: Pixel)
    ensures Stacked(OneWhite(q, k), px, py, under) ==
            if k < |q| && q[k].visible && q[k].Bounds().Contains(px, py) then WHITE else under
  {
    if q != [] {
      var m := |q| - 1;
      assert OneWhite(q, k)[..m] == OneWhite(q[..m], k);
      StackedOneWhite(q[..m], k, px, py, under);
      FilledThrough(q[m], px, py, Stacked(OneWhite(q[..m], k), px, py, under));
    }
  }

  lemma FilledBackground(wall: Option<SurfaceView>, p: Pixel, px: nat, py: nat)
    ensures Background(FilledRole(wall, p), px, py) ==
            if wall.Some? && wall.value.w > 0 && wall.value.h > 0 then p else BLACK
  {
    if wall.Some? && wall.value.w > 0 && wall.value.h > 0 {
      OffsetBound(wall.value.w, wall.value.h, px % wall.value.w, py % wall.value.h);
    }
  }

  /** What is on the screen is as it ought to be, all of it. */
  ghost function Perfect(s: State): State {
    var image := seq(s.h, y requires 0 <= y < s.h => seq(s.w, x requires 0 <= x < s.w => ScenePixel(s, x, y)));
    s.(image := image, frame := image)
  }

  lemma PerfectUpToDate(s: State)
    requires DamageOk(s.w, s.h, s.damage)
    ensures UpToDate(Perfect(s))
    ensures forall px: nat, py: nat :: px < s.w && py < s.h ==> Perfect(s).image[py][px] == ScenePixel(s, px, py)
  {
    var t := Perfect(s);
    assert forall px: nat, py: nat :: ScenePixel(t, px, py) == ScenePixel(s, px, py);
  }

  /** `s` with one site white and all else transparent. */
  ghost function Bare(s: State, site: Site): State {
    s.(stack := OneWhite(s.stack, if site.Listed? then site.k else |s.stack|),
       wall := FilledRole(s.wall, if site.TheWallpaper? then WHITE else 0),
       cursor := FilledRole(s.cursor, if site.TheCursor? then WHITE else 0))
  }

  /** ... and the screen right. */
  ghost function Witness(s: State, site: Site): State {
    Perfect(Bare(s, site))
  }

  lemma CursorThrough(t: State, cursor: SurfaceView, p: Pixel, px: int, py: int, under: Pixel)
    requires t.cursor == Some(Filled(cursor, p))
    ensures UnderCursor(t, px, py, under) == Through(Filled(Drawn(cursor, t), p), px, py, under)
  {
    assert Drawn(Filled(cursor, p), t) == Filled(Drawn(cursor, t), p);
  }

  lemma CursorTransparent(t: State, cursor: Option<SurfaceView>, px: int, py: int, under: Pixel)
    requires t.cursor == FilledRole(cursor, 0)
    ensures UnderCursor(t, px, py, under) == under
  {
    if cursor.Some? {
      CursorThrough(t, cursor.value, 0, px, py, under);
      FilledThrough(Drawn(cursor.value, t), px, py, under);
    }
  }

  lemma CursorWhite(t: State, cursor: SurfaceView, px: int, py: int, under: Pixel)
    requires t.cursor == Some(Filled(cursor, WHITE)) && !Clear(Drawn(cursor, t), px, py)
    ensures UnderCursor(t, px, py, under) == WHITE
  {
    CursorThrough(t, cursor, WHITE, px, py, under);
    FilledThrough(Drawn(cursor, t), px, py, under);
  }

  /** The white site shows. */
  lemma BareShows(s: State, site: Site, px: nat, py: nat)
    requires Seen(s, site, px, py)
    ensures ScenePixel(Bare(s, site), px, py) == WHITE
  {
    var t := Bare(s, site);
    var k := if site.Listed? then site.k else |s.stack|;
    var under := Background(t.wall, px, py);
    FilledBackground(s.wall, if site.TheWallpaper? then WHITE else 0, px, py);
    StackedOneWhite(s.stack, k, px, py, under);
    var below := Stacked(t.stack, px, py, under);
    if site.TheCursor? {
      CursorWhite(t, s.cursor.value, px, py, below);
    } else {
      CursorTransparent(t, s.cursor, px, py, below);
    }
  }

  /** With the stack out of the way, and cursor and wallpaper transparent or gone, nothing white is left. */
  lemma NothingWhite(s: State, u: State, px: nat, py: nat)
    requires u.wall == None || u.wall == FilledRole(s.wall, 0)
    requires u.cursor == None || u.cursor == FilledRole(s.cursor, 0)
    requires Stacked(u.stack, px, py, Background(u.wall, px, py)) == Background(u.wall, px, py)
    ensures ScenePixel(u, px, py) != WHITE
  {
    var under := Background(u.wall, px, py);
    FilledBackground(s.wall, 0, px, py);
    if u.cursor.Some? { CursorTransparent(u, s.cursor, px, py, under); }
  }

  lemma WitnessOutlines(s: State, site: Site)
    requires DamageOk(s.w, s.h, s.damage)
    ensures SameOutlines(s, Witness(s, site)) && UpToDate(Witness(s, site))
  {
    PerfectUpToDate(Bare(s, site));
  }

  /** The stack after a resize or a destruction. */
  ghost function StackAfter(s: State, op: Op): seq<SurfaceView>
    requires (op.Destroy? || op.Resize?) && Legal(s, op)
  {
    if op.Destroy? then Without(s.stack, op.k) else s.stack[op.k := s.stack[op.k].(w := op.w, h := op.h)]
  }

  /** A resize or a destruction takes the white surface away, or leaves it transparent. */
  lemma WitnessNext(s: State, op: Op)
    requires (op.Destroy? || (op.Resize? && op.w > 0 && op.h > 0)) && Legal(s, op)
    ensures var t := Witness(s, Listed(op.k));
            Legal(t, op)
            && Next(t, op) == t.(stack := OneWhite(StackAfter(s, op), |StackAfter(s, op)|),
                               damage := DamageAfter(s, op))
  {
    var u := Next(Witness(s, Listed(op.k)), op);
    var rest := StackAfter(s, op);
    forall i | 0 <= i < |rest| ensures u.stack[i] == OneWhite(rest, |rest|)[i] {
    }
  }

  /** The step leaves the damage that was foretold, and nothing of the stack at the pixel that is lost. */
  lemma StackTaken(s: State, op: Op, site: Site, px: nat, py: nat, under: Pixel)
    requires DamageOk(s.w, s.h, s.damage) && Legal(s, op) && px < s.w && py < s.h
    requires Takes(s, op, site, px, py) && !Covered(DamageAfter(s, op), px, py)
    ensures var t := Witness(s, site);
            && Legal(t, op) && Next(t, op).damage == DamageAfter(s, op)
            && Stacked(Next(t, op).stack, px, py, under) == under
  {
    var t := Witness(s, site);
    if op.Resize? || op.Destroy? {
      WitnessNext(s, op);
      var rest := StackAfter(s, op);
      StackedOneWhite(rest, |rest|, px, py, under);
    } else if op.RaiseUnlisted? {
      ReportCovers(s, op.v.Bounds());
      assert Next(t, op).stack == [op.v] && Next(t, op).damage == Report(s, op.v.Bounds()).damage;
      StackedClear([op.v], px, py, under);
    } else {
      assert Next(t, op).stack == [];
    }
  }

  /** A lost pixel that is not covered is stale in the witness. */
  lemma WitnessStale(s: State, op: Op, site: Site, px: nat, py: nat)
    requires DamageOk(s.w, s.h, s.damage) && Legal(s, op) && px < s.w && py < s.h
    requires Seen(s, site, px, py) && Takes(s, op, site, px, py) && !Covered(DamageAfter(s, op), px, py)
    ensures var t := Witness(s, site);
            SameOutlines(s, t) && UpToDate(t) && Legal(t, op) && !UpToDate(Next(t, op))
  {
    var t := Witness(s, site);
    WitnessOutlines(s, site);
    StackTaken(s, op, site, px, py, BLACK);
    var u := Next(t, op);
    StackTaken(s, op, site, px, py, Background(u.wall, px, py));
    WitnessRoles(s, op, site, px, py);
    NothingWhite(s, u, px, py);
    PerfectUpToDate(Bare(s, site));
    BareShows(s, site, px, py);
    Stale(u, px, py);
  }

  lemma WitnessRoles(s: State, op: Op, site: Site, px: int, py: int)
    requires Legal(s, op) && Takes(s, op, site, px, py)
    ensures var t := Witness(s, site);
            && Legal(t, op) && Next(t, op).image == t.image && Next(t, op).w == t.w && Next(t, op).h == t.h
            && (Next(t, op).wall == None || Next(t, op).wall == FilledRole(s.wall, 0))
            && (Next(t, op).cursor == None || Next(t, op).cursor == FilledRole(s.cursor, 0))
  {
  }

  lemma Stale(s: State, px: nat, py: nat)
    requires Sized(s, s.image) && px < s.w && py < s.h && !Covered(s.damage, px, py)
    requires s.image[py][px] != ScenePixel(s, px, py)
    ensures !UpToDate(s)
  {
    assert !Shows(s, s.image, px, py);
  }

  /** Exactly these steps can be trusted, whatever the pixels are: in all other cases there are surfaces of the same
      places and sizes with which the step leaves a stale pixel that no damage covers. */
  lemma ReportedExactly(s: State, op: Op)
    requires DamageOk(s.w, s.h, s.damage) && Legal(s, op)
    ensures Reported(s, op) <==>
            forall t {:trigger SameOutlines(s, t)} :: SameOutlines(s, t) && UpToDate(t) && Legal(t, op) ==>
                UpToDate(Next(t, op))
  {
    if Reported(s, op) {
      forall t {:trigger SameOutlines(s, t)} | SameOutlines(s, t) && UpToDate(t) && Legal(t, op)
          ensures UpToDate(Next(t, op)) {
        SameLost(s, t, op);
        StepUpToDate(t, op);
      }
    } else {
      var px: nat, py: nat :| px < s.w && py < s.h && Lost(s, op, px, py) && !Covered(DamageAfter(s, op), px, py);
      var site :| Seen(s, site, px, py) && Takes(s, op, site, px, py);
      WitnessStale(s, op, site, px, py);
      assert SameOutlines(s, Witness(s, site));
    }
  }

  lemma SameLost(s: State, t: State, op: Op)
    requires SameOutlines(s, t) && Legal(s, op) && Legal(t, op) && Reported(s, op)
    ensures Reported(t, op)
  {
    assert DamageAfter(t, op) == DamageAfter(s, op);
    forall px: nat, py: nat {:trigger Lost(t, op, px, py)} | px < t.w && py < t.h && Lost(t, op, px, py)
      ensures Covered(DamageAfter(t, op), px, py)
    {
      var site :| Seen(t, site, px, py) && Takes(t, op, site, px, py);
      assert Seen(s, site, px, py) && Takes(s, op, site, px, py);
      assert Lost(s, op, px, py);
    }
  }

  /** A white surface that fills a screen one pixel high. */
  function AllWhite(w: nat): State {
    var row := seq(w, _ => WHITE);
    State(w, 1, None, [Filled(SurfaceView(0, 0, w, 1, [], [], 255, true, 0), WHITE)],
          None, 0, 0, 0, 0, NO_DAMAGE, [row], [row])
  }

  lemma AllWhitePixel(w: nat, px: nat)
    requires px < w
    ensures ScenePixel(AllWhite(w), px, 0) == WHITE
  {
    FilledThrough(SurfaceView(0, 0, w, 1, [], [], 255, true, 0), px, 0, BLACK);
    assert Stacked(AllWhite(w).stack[..0], px, 0, BLACK) == BLACK;
  }

  lemma AllWhiteUpToDate(w: nat)
    ensures UpToDate(AllWhite(w))
  {
    var s := AllWhite(w);
    forall px: nat, py: nat | px < s.w && py < s.h ensures Shows(s, s.image, px, py) {
      AllWhitePixel(w, px);
    }
  }

  /** Its destruction leaves it on the screen. */
  lemma DestroyLeavesPicture()
    ensures UpToDate(AllWhite(1)) && Legal(AllWhite(1), Destroy(0)) && !UpToDate(Next(AllWhite(1), Destroy(0)))
  {
    AllWhiteUpToDate(1);
    var t := Next(AllWhite(1), Destroy(0));
    assert t.stack == [] && Stacked([], 0, 0, BLACK) == BLACK;
    assert t.image[0][0] == WHITE;
    assert !Shows(t, t.image, 0, 0);
  }

  lemma ShrunkIsBlack(t: State)
    requires t.wall == None && t.cursor == None && |t.stack| == 1 && !t.stack[0].Bounds().Contains(1, 0)
    ensures ScenePixel(t, 1, 0) == BLACK
  {
    assert t.stack[..0] == [] && Stacked([], 1, 0, BLACK) == BLACK;
  }

  /** Shrunk from two pixels to one, it leaves the other on the screen. */
  lemma ShrinkLeavesPicture()
    ensures UpToDate(AllWhite(2)) && Legal(AllWhite(2), Resize(0, 1, 1))
        && !UpToDate(Next(AllWhite(2), Resize(0, 1, 1)))
  {
    AllWhiteUpToDate(2);
    var t := ResizeSurface(AllWhite(2), 0, 1, 1);
    AddDamageAlone(2, 1, Rect(0, 0, 1, 1));
    assert !Rect(0, 0, 1, 1).Contains(1, 0);
    ShrunkIsBlack(t);
    assert t.image[0][1] == WHITE;
    Stale(t, 1, 0);
  }

  /** A surface of one pixel that is raised from beside the stack wipes out the white one of two pixels, and leaves
      the second pixel on the screen. */
  lemma RaiseLeavesPicture(v: SurfaceView)
    requires v.Bounds() == Rect(0, 0, 1, 1)
    ensures UpToDate(AllWhite(2)) && !UpToDate(Next(AllWhite(2), RaiseUnlisted(v)))
  {
    AllWhiteUpToDate(2);
    var t := RaiseAlone(AllWhite(2), v);
    AddDamageAlone(2, 1, Rect(0, 0, 1, 1));
    assert !Rect(0, 0, 1, 1).Contains(1, 0);
    ShrunkIsBlack(t);
    assert t.image[0][1] == WHITE;
    Stale(t, 1, 0);
  }

  lemma CursorEmpty(s: State, c: SurfaceView, px: nat, py: nat)
    requires s.cursor == None && c.w == 0
    ensures ScenePixel(s.(cursor := Some(c)), px, py) == ScenePixel(s, px, py)
  {
    CursorClear(s.(cursor := Some(c)), px, py);
  }

  /** The end of a cursor of no size takes the stack with it, and leaves its picture on the screen. */
  lemma CursorTakesStack(c: SurfaceView)
    requires c.w == 0
    ensures var s := AllWhite(1).(cursor := Some(c));
            && UpToDate(s) && Legal(s, DestroyUnlisted(true, false))
            && !UpToDate(Next(s, DestroyUnlisted(true, false)))
  {
    var s := AllWhite(1).(cursor := Some(c));
    AllWhiteUpToDate(1);
    forall px: nat, py: nat | px < s.w && py < s.h ensures Shows(s, s.image, px, py) {
      CursorEmpty(AllWhite(1), c, px, py);
      AllWhitePixel(1, px);
    }
    var t := Next(s, DestroyUnlisted(true, false));
    BareIsBlack(t, 0, 0);
    assert t.image[0][0] == WHITE;
    Stale(t, 0, 0);
  }

  lemma BareIsBlack(t: State, px: nat, py: nat)
    requires t.wall == None && t.cursor == None && t.stack == []
    ensures ScenePixel(t, px, py) == BLACK
  {
  }

  // ---------- What the operations make of an empty stack ----------

  /** The first surface that is raised is always reported in full. */
  lemma FirstRaise(s: State, v: SurfaceView)
    requires s.stack == []
    ensures LegalRun(s, [RaiseUnlisted(v)]) && Run(s, [RaiseUnlisted(v)]).stack == [v]
  {
    var op := RaiseUnlisted(v);
    forall px: nat, py: nat {:trigger Lost(s, op, px, py)} | px < s.w && py < s.h ensures !Lost(s, op, px, py) {
    }
    assert [op][1..] == [] && LegalRun(Next(s, op), []);
  }

  /** There is never more than one surface in a stack that was empty: each that comes takes the place of the last. */
  lemma {:induction false} RunLean(s: State, ops: seq<Op>)
    requires |s.stack| <= 1 && LegalRun(s, ops)
    ensures |Run(s, ops).stack| <= 1
    decreases ops
  {
    if ops != [] {
      StepLean(s, ops[0]);
      RunLean(Next(s, ops[0]), ops[1..]);
    }
  }

  lemma StepLean(s: State, op: Op)
    requires |s.stack| <= 1 && Legal(s, op)
    ensures |Next(s, op).stack| <= 1
  {
  }

  // ---------- The order of the stack ----------

  ghost predicate SortedByZ(q: seq<SurfaceView>) {
    forall i, j :: 0 <= i < j < |q| ==> q[i].z <= q[j].z
  }

  /** The first place with a surface above `z`, or the end. */
  ghost predicate IsPlace(q: seq<SurfaceView>, z: int, i: nat) {
    && i <= |q| && (forall j {:trigger q[j]} :: 0 <= j < i ==> q[j].z <= z)
    && (i < |q| ==> q[i].z > z)
  }

  lemma {:induction false} BelowMeaning(q: seq<SurfaceView>, z: int, i: nat)
    ensures i == Below(q, z) <==> IsPlace(q, z, i)
  {
    if q != [] && q[0].z <= z {
      if i > 0 {
        BelowMeaning(q[1..], z, i - 1);
        assert IsPlace(q, z, i) ==> IsPlace(q[1..], z, i - 1);
        assert IsPlace(q[1..], z, i - 1) ==> IsPlace(q, z, i);
      }
    }
  }

  lemma InsertKeepsSorted(q: seq<SurfaceView>, i: nat, v: SurfaceView)
    requires i <= |q| && SortedByZ(q)
    requires forall j :: 0 <= j < i ==> q[j].z <= v.z
    requires forall j :: i <= j < |q| ==> v.z < q[j].z
    ensures SortedByZ(InsertAt(q, i, v)) && Without(InsertAt(q, i, v), i) == q
    ensures forall j :: i < j <= |q| ==> InsertAt(q, i, v)[j].z > v.z
  {
  }

  lemma WithoutSorted(q: seq<SurfaceView>, k: nat)
    requires k < |q| && SortedByZ(q)
    ensures SortedByZ(Without(q, k))
  {
  }

  /** On a sorted stack, a new place keeps the others in their order, and puts the surface on top of its equals. */
  lemma RestackedSorted(q: seq<SurfaceView>, k: nat, z: int)
    requires k < |q| && SortedByZ(q)
    ensures var r, i := Restacked(q, k, z), Below(Without(q, k), z);
            && SortedByZ(r) && i < |r| && r[i] == q[k].(z := z) && Without(r, i) == Without(q, k)
            && forall j :: i < j < |r| ==> r[j].z > z
  {
    var rest := Without(q, k);
    var i := Below(rest, z);
    WithoutSorted(q, k);
    BelowMeaning(rest, z, i);
    assert forall j :: i <= j < |rest| ==> rest[j].z > z;
    InsertKeepsSorted(rest, i, q[k].(z := z));
  }
}
