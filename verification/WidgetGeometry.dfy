/** Layout, painting and hit testing of a widget forest, on the values of its boxes. */
module WidgetGeometry {
  import opened Machine
  import opened WidgetForest

  datatype Kid = Kid(box: Box, style: Style, visible: bool)

  // ---------- Arranging the children of one widget ----------

  predicate Arranges(s: Style) {
    s.layout.Vertical? || s.layout.Horizontal?
  }

  /** Where the first child goes along the axis of the layout. */
  function Start(w: Box, s: Style): int {
    if s.layout.Vertical? then Signed32(w.y + s.padding.top) else Signed32(w.x + s.padding.left)
  }

  /** How far a child with its margins, and the gap after it, reach along the axis. */
  function Extent(s: Style, k: Kid): int {
    var m := k.style.margin;
    if s.layout.Vertical? then k.box.height + m.top + m.bottom + s.spacing
    else k.box.width + m.left + m.right + s.spacing
  }

  /** Where child `i` goes along the axis: hidden children take no room. */
  function Cursor(w: Box, s: Style, ks: seq<Kid>, i: nat): int
    requires i <= |ks|
  {
    if i == 0 then Start(w, s)
    else
      var c := Cursor(w, s, ks, i - 1);
      if ks[i - 1].visible then Signed32(c + Extent(s, ks[i - 1])) else c
  }

  /** The box of a visible child at `c` along the axis. */
  function Placed(w: Box, s: Style, k: Kid, c: int): Box {
    var m, p := k.style.margin, s.padding;
    if s.layout.Vertical? then
      Box(Signed32(Signed32(w.x + p.left) + m.left), Signed32(c + m.top),
          if k.style.hPolicy.Expanding? then Wrap32(Wrap32(w.width - p.left - p.right) - m.left - m.right)
          else k.box.width,
          k.box.height)
    else
      Box(Signed32(c + m.left), Signed32(Signed32(w.y + p.top) + m.top),
          k.box.width,
          if k.style.vPolicy.Expanding? then Wrap32(Wrap32(w.height - p.top - p.bottom) - m.top - m.bottom)
          else k.box.height)
  }

  function ArrangedAt(w: Box, s: Style, ks: seq<Kid>, i: nat): Kid
    requires i < |ks|
  {
    if Arranges(s) && ks[i].visible then ks[i].(box := Placed(w, s, ks[i], Cursor(w, s, ks, i))) else ks[i]
  }

  /** The children of a widget with box `w` and style `s` after their layout. */
  function Arranged(w: Box, s: Style, ks: seq<Kid>): (r: seq<Kid>)
    ensures |r| == |ks|
  {
    seq(|ks|, i requires 0 <= i < |ks| => ArrangedAt(w, s, ks, i))
  }

  lemma {:induction false} CursorKept(w: Box, s: Style, ks: seq<Kid>, i: nat)
    requires i <= |ks| && Arranges(s)
    ensures Cursor(w, s, Arranged(w, s, ks), i) == Cursor(w, s, ks, i)
  {
    if i > 0 { CursorKept(w, s, ks, i - 1); }
  }

  /** Arranging twice is arranging once, even where sums wrap around. */
  lemma ArrangedTwice(w: Box, s: Style, ks: seq<Kid>)
    ensures Arranged(w, s, Arranged(w, s, ks)) == Arranged(w, s, ks)
  {
    forall i | 0 <= i < |ks| ensures Arranged(w, s, Arranged(w, s, ks))[i] == Arranged(w, s, ks)[i] {
      if Arranges(s) { CursorKept(w, s, ks, i); }
    }
  }

  /** The first coordinate of the margin box of a child, and the one after its last. */
  function Near(s: Style, k: Kid): int {
    if s.layout.Vertical? then k.box.y - k.style.margin.top else k.box.x - k.style.margin.left
  }

  function Far(s: Style, k: Kid): int {
    if s.layout.Vertical? then k.box.y + k.box.height + k.style.margin.bottom
    else k.box.x + k.box.width + k.style.margin.right
  }

  /** The cursor if no sum wraps around. */
  function Reach(w: Box, s: Style, ks: seq<Kid>, i: nat): int
    requires i <= |ks|
  {
    if i == 0 then if s.layout.Vertical? then w.y + s.padding.top else w.x + s.padding.left
    else Reach(w, s, ks, i - 1) + if ks[i - 1].visible then Extent(s, ks[i - 1]) else 0
  }

  /** All children fit into the range of `int32_t`. */
  predicate Fits(w: Box, s: Style, ks: seq<Kid>) {
    && -0x8000_0000 <= Reach(w, s, ks, 0) && Reach(w, s, ks, |ks|) < 0x8000_0000
    && forall i :: 0 <= i < |ks| ==> 0 <= ks[i].box.width && 0 <= ks[i].box.height
  }

  lemma {:induction false} ReachGrows(w: Box, s: Style, ks: seq<Kid>, i: nat, j: nat)
    requires i <= j <= |ks| && forall k :: 0 <= k < |ks| ==> 0 <= ks[k].box.width && 0 <= ks[k].box.height
    ensures Reach(w, s, ks, i) <= Reach(w, s, ks, j)
  {
    if i < j { ReachGrows(w, s, ks, i, j - 1); }
  }

  lemma {:induction false} CursorReaches(w: Box, s: Style, ks: seq<Kid>, i: nat)
    requires i <= |ks| && Fits(w, s, ks)
    ensures Cursor(w, s, ks, i) == Reach(w, s, ks, i)
  {
    ReachGrows(w, s, ks, 0, i);
    ReachGrows(w, s, ks, i, |ks|);
    if i > 0 { CursorReaches(w, s, ks, i - 1); }
  }

  lemma NearIsReach(w: Box, s: Style, ks: seq<Kid>, i: nat)
    requires i < |ks| && Arranges(s) && Fits(w, s, ks) && ks[i].visible
    ensures Near(s, Arranged(w, s, ks)[i]) == Reach(w, s, ks, i)
    ensures Far(s, Arranged(w, s, ks)[i]) + s.spacing == Reach(w, s, ks, i + 1)
  {
    CursorReaches(w, s, ks, i);
    ReachGrows(w, s, ks, 0, i);
    ReachGrows(w, s, ks, i + 1, |ks|);
  }

  lemma {:induction false} ReachStays(w: Box, s: Style, ks: seq<Kid>, i: nat, j: nat)
    requires i <= j <= |ks| && forall k :: i <= k < j ==> !ks[k].visible
    ensures Reach(w, s, ks, j) == Reach(w, s, ks, i)
  {
    if i < j { ReachStays(w, s, ks, i, j - 1); }
  }

  /** Without wrap-around, two visible children with none visible between them
      stand with their margins exactly `spacing` apart along the axis. */
  lemma SpacedApart(w: Box, s: Style, ks: seq<Kid>, i: nat, j: nat)
    requires Arranges(s) && Fits(w, s, ks)
    requires i < j < |ks| && ks[i].visible && ks[j].visible && forall k :: i < k < j ==> !ks[k].visible
    ensures Near(s, Arranged(w, s, ks)[j]) == Far(s, Arranged(w, s, ks)[i]) + s.spacing
  {
    NearIsReach(w, s, ks, i);
    NearIsReach(w, s, ks, j);
    ReachStays(w, s, ks, i + 1, j);
  }

  // ---------- Layout of a whole tree ----------

  type Look = map<Widget, Kid>

  ghost function KidAt(s: Shape, k: Look, w: Widget, i: nat): Kid
    requires Agrees(s) && k.Keys == s.Keys && w in s && i < |s[w].children|
  {
    assert s[w].children[i] in s[w].children;
    k[s[w].children[i]]
  }

  ghost function KidsOf(s: Shape, k: Look, w: Widget): (r: seq<Kid>)
    requires Agrees(s) && k.Keys == s.Keys && w in s
    ensures |r| == |s[w].children|
  {
    seq(|s[w].children|, i requires 0 <= i < |s[w].children| => KidAt(s, k, w, i))
  }

  /** The children of `v` stand in `k'` where its box in `k'` puts the children in `k`. */
  ghost predicate Settled(s: Shape, k: Look, k': Look, v: Widget)
    requires Agrees(s) && k.Keys == s.Keys && k'.Keys == s.Keys && v in s
  {
    KidsOf(s, k', v) == Arranged(k'[v].box, k'[v].style, KidsOf(s, k, v))
  }

  /** Layout of the tree under `w` leads from `k` to `k'`: each widget has placed its
      children, and only what is strictly below `w` has moved. */
  ghost predicate LaidOut(s: Shape, p: Paths, k: Look, k': Look, w: Widget)
    requires Traces(s, p) && w in s
  {
    && k.Keys == s.Keys && k'.Keys == s.Keys
    && (forall v {:trigger k'[v]} :: v in s && (v == w || !Under(p, w, v)) ==> k'[v] == k[v])
    && (forall v {:trigger Settled(s, k, k', v)} :: v in s && Under(p, w, v) ==> Settled(s, k, k', v))
  }

  lemma {:induction false} LookKept(s: Shape, p: Paths, k: Look, k1: Look, k2: Look, w: Widget, v: Widget)
    requires Traces(s, p) && w in s && v in s && LaidOut(s, p, k, k1, w) && LaidOut(s, p, k1, k2, w)
    requires Under(p, w, v)
    ensures k2[v] == k1[v]
    decreases |p[v]|
  {
    if v != w {
      ChildOnPath(s, p, w, v);
      var u := s[v].parent;
      assert Traced(s, p, v);
      PathEnds(s, p, u);
      assert p[w] <= p[u];
      LookKept(s, p, k, k1, k2, w, u);
      assert Settled(s, k, k1, u) && Settled(s, k1, k2, u);
      ArrangedTwice(k1[u].box, k1[u].style, KidsOf(s, k, u));
      var i :| 0 <= i < |s[u].children| && s[u].children[i] == v;
      assert KidsOf(s, k2, u)[i] == KidsOf(s, k1, u)[i];
    }
  }

  /** Layout of a tree already laid out moves nothing. */
  lemma LayoutTwice(s: Shape, p: Paths, k: Look, k1: Look, k2: Look, w: Widget)
    requires Traces(s, p) && w in s && LaidOut(s, p, k, k1, w) && LaidOut(s, p, k1, k2, w)
    ensures k2 == k1
  {
    forall v | v in s ensures k2[v] == k1[v] {
      if Under(p, w, v) { LookKept(s, p, k, k1, k2, w, v); }
    }
  }

  /** Layout has one outcome. */
  lemma {:induction false} LayoutDetermined(s: Shape, p: Paths, k: Look, k1: Look, k2: Look, w: Widget, v: Widget)
    requires Traces(s, p) && w in s && v in s && LaidOut(s, p, k, k1, w) && LaidOut(s, p, k, k2, w)
    ensures k1[v] == k2[v]
    decreases |p[v]|
  {
    if v != w && Under(p, w, v) {
      ChildOnPath(s, p, w, v);
      var u := s[v].parent;
      assert Traced(s, p, v);
      PathEnds(s, p, u);
      assert p[w] <= p[u];
      LayoutDetermined(s, p, k, k1, k2, w, u);
      assert Settled(s, k, k1, u) && Settled(s, k, k2, u);
      var i :| 0 <= i < |s[u].children| && s[u].children[i] == v;
      assert KidsOf(s, k2, u)[i] == KidsOf(s, k1, u)[i];
    }
  }

  /** Layout under `w` on its way: the children of `w` are placed, and the trees under
      the first `n` of them are laid out. */
  ghost predicate PartlyLaidOut(s: Shape, p: Paths, k: Look, k': Look, w: Widget, n: nat)
    requires Traces(s, p) && w in s && n <= |s[w].children|
  {
    && k.Keys == s.Keys && k'.Keys == s.Keys
    && Settled(s, k, k', w)
    && (forall v {:trigger k'[v]} :: v in s && (v == w || !Under(p, w, v)) ==> k'[v] == k[v])
    && (forall i, v {:trigger Under(p, s[w].children[i], v)} ::
        0 <= i < |s[w].children| && v in s && s[w].children[i] in s && Under(p, s[w].children[i], v) ==>
          if i < n then Settled(s, k, k', v) else v == s[w].children[i] || k'[v] == k[v])
  }

  lemma KidsUnder(s: Shape, p: Paths, a: Widget, v: Widget)
    requires Traces(s, p) && a in s && v in s && Under(p, a, v)
    ensures forall i :: 0 <= i < |s[v].children| ==>
              s[v].children[i] in s && Under(p, a, s[v].children[i]) && s[v].children[i] != a
  {
    forall i | 0 <= i < |s[v].children|
      ensures s[v].children[i] in s && Under(p, a, s[v].children[i]) && s[v].children[i] != a
    {
      ChildPath(s, p, v, s[v].children[i]);
    }
  }

  /** The trees under two children have nothing in common. */
  lemma KidsApart(s: Shape, p: Paths, w: Widget, i: nat, j: nat)
    requires Traces(s, p) && w in s && i < |s[w].children| && j < |s[w].children| && i != j
    ensures s[w].children[i] in s && s[w].children[j] in s
    ensures !Under(p, s[w].children[j], w)
    ensures forall v {:trigger Under(p, s[w].children[i], v)} :: v in s && Under(p, s[w].children[i], v) ==>
        !Under(p, s[w].children[j], v)
  {
    var a, b := s[w].children[i], s[w].children[j];
    ChildPath(s, p, w, a);
    ChildPath(s, p, w, b);
    assert a != b;
    forall v | v in s && Under(p, a, v) ensures !Under(p, b, v) {
      assert p[v][|p[w]|] == a;
    }
  }

  lemma OutsideOf(p: Paths, w: Widget, c: Widget, v: Widget)
    requires w in p && c in p && v in p && Under(p, w, c) && !Under(p, w, v)
    ensures !Under(p, c, v)
  {
  }

  lemma KidsSame(s: Shape, k1: Look, k2: Look, v: Widget)
    requires Agrees(s) && k1.Keys == s.Keys && k2.Keys == s.Keys && v in s
    requires forall i :: 0 <= i < |s[v].children| ==>
        s[v].children[i] in s && k1[s[v].children[i]] == k2[s[v].children[i]]
    ensures KidsOf(s, k1, v) == KidsOf(s, k2, v)
  {
  }

  lemma LayoutStarts(s: Shape, p: Paths, k: Look, k1: Look, w: Widget)
    requires Traces(s, p) && w in s && k.Keys == s.Keys && k1.Keys == s.Keys
    requires Settled(s, k, k1, w) && forall v {:trigger k1[v]} :: v in s && v !in s[w].children ==> k1[v] == k[v]
    ensures PartlyLaidOut(s, p, k, k1, w, 0)
  {
    forall v | v in s && (v == w || !Under(p, w, v)) ensures k1[v] == k[v] {
      if v in s[w].children { ChildPath(s, p, w, v); }
    }
    forall i, v | 0 <= i < |s[w].children| && v in s && s[w].children[i] in s && Under(p, s[w].children[i], v)
      ensures v == s[w].children[i] || k1[v] == k[v]
    {
      ChildPath(s, p, w, s[w].children[i]);
      if v in s[w].children {
        ChildPath(s, p, w, v);
        assert p[v][|p[w]|] == s[w].children[i];
      }
    }
  }

  lemma LayoutSteps(s: Shape, p: Paths, k: Look, k1: Look, k2: Look, w: Widget, n: nat)
    requires Traces(s, p) && w in s && n < |s[w].children| && s[w].children[n] in s
    requires PartlyLaidOut(s, p, k, k1, w, n) && LaidOut(s, p, k1, k2, s[w].children[n])
    ensures PartlyLaidOut(s, p, k, k2, w, n + 1)
  {
    var c := s[w].children[n];
    ChildPath(s, p, w, c);
    forall v | v in s && (v == w || !Under(p, w, v)) ensures k2[v] == k[v] {
      if v != w { OutsideOf(p, w, c, v); }
      assert !Under(p, c, v);
    }
    KidsUnder(s, p, w, w);
    forall i | 0 <= i < |s[w].children| ensures k2[s[w].children[i]] == k1[s[w].children[i]] {
      if i != n {
        KidsApart(s, p, w, i, n);
        assert Under(p, s[w].children[i], s[w].children[i]);
      }
    }
    KidsSame(s, k1, k2, w);
    forall i, v | 0 <= i < |s[w].children| && v in s && Under(p, s[w].children[i], v)
      ensures if i < n + 1 then Settled(s, k, k2, v) else v == s[w].children[i] || k2[v] == k[v]
    {
      KidsUnder(s, p, s[w].children[i], v);
      if i == n {
        KidsSame(s, k, k1, v);
        assert Settled(s, k1, k2, v);
      } else {
        KidsApart(s, p, w, i, n);
        KidsSame(s, k1, k2, v);
      }
    }
  }

  lemma LayoutEnds(s: Shape, p: Paths, k: Look, k1: Look, w: Widget)
    requires Traces(s, p) && w in s && PartlyLaidOut(s, p, k, k1, w, |s[w].children|)
    ensures LaidOut(s, p, k, k1, w)
  {
    forall v | v in s && Under(p, w, v) ensures Settled(s, k, k1, v) {
      if v != w {
        ChildOnPath(s, p, w, v);
        var i :| 0 <= i < |s[w].children| && s[w].children[i] == p[v][|p[w]|];
        assert Under(p, s[w].children[i], v);
      }
    }
  }

  // ---------- Painting and hit testing ----------

  /** The widgets painted from `w` on, in turn: a widget before what is below it. */
  ghost function PaintOrder(s: Shape, p: Paths, k: Look, w: Widget): seq<Widget>
    requires Traces(s, p) && w in s && k.Keys == s.Keys
    decreases Subtree(p, w), |s[w].children| + 1
  {
    if k[w].visible then [w] + PaintKids(s, p, k, w, |s[w].children|) else []
  }

  ghost function PaintKids(s: Shape, p: Paths, k: Look, w: Widget, n: nat): seq<Widget>
    requires Traces(s, p) && w in s && k.Keys == s.Keys && n <= |s[w].children|
    decreases Subtree(p, w), n
  {
    if n == 0 then []
    else
      ChildPath(s, p, w, s[w].children[n - 1]);
      PaintKids(s, p, k, w, n - 1) + PaintOrder(s, p, k, s[w].children[n - 1])
  }

  /** Every widget from `w` down to `v` is visible. */
  ghost predicate Shown(p: Paths, k: Look, w: Widget, v: Widget)
    requires w in p && v in p
  {
    Under(p, w, v) && forall i :: 0 <= |p[w]| - 1 <= i < |p[v]| ==> p[v][i] in k && k[p[v][i]].visible
  }

  /** Painted is what is under `w` with nothing hidden on the way. */
  lemma {:induction false} PaintedIffShown(s: Shape, p: Paths, k: Look, w: Widget, v: Widget)
    requires Traces(s, p) && w in s && v in s && k.Keys == s.Keys
    ensures v in PaintOrder(s, p, k, w) <==> Shown(p, k, w, v)
    decreases Subtree(p, w), |s[w].children| + 1
  {
    PathEnds(s, p, w);
    PathEnds(s, p, v);
    if k[w].visible {
      PaintedKids(s, p, k, w, v, |s[w].children|);
      if v in PaintKids(s, p, k, w, |s[w].children|) {
        var i :| 0 <= i < |s[w].children| && s[w].children[i] in s && Shown(p, k, s[w].children[i], v);
        ChildPath(s, p, w, s[w].children[i]);
        assert p[v][|p[w]| - 1] == w;
      }
      if v != w && Shown(p, k, w, v) {
        ChildOnPath(s, p, w, v);
        var c := p[v][|p[w]|];
        ChildPath(s, p, w, c);
        assert Shown(p, k, c, v);
      }
    } else if Under(p, w, v) {
      assert p[v][|p[w]| - 1] == w;
    }
  }

  lemma {:induction false} PaintedKids(s: Shape, p: Paths, k: Look, w: Widget, v: Widget, n: nat)
    requires Traces(s, p) && w in s && v in s && k.Keys == s.Keys && n <= |s[w].children|
    ensures v in PaintKids(s, p, k, w, n) <==>
            exists i :: 0 <= i < n && s[w].children[i] in s && Shown(p, k, s[w].children[i], v)
    decreases Subtree(p, w), n
  {
    if n > 0 {
      var c := s[w].children[n - 1];
      ChildPath(s, p, w, c);
      PaintedKids(s, p, k, w, v, n - 1);
      PaintedIffShown(s, p, k, c, v);
    }
  }

  /** Whether a box holds a point: its far sides are computed in 32 bits. */
  predicate Contains(b: Box, x: int, y: int) {
    && b.x <= x < Signed32(b.x + b.width)
    && b.y <= y < Signed32(b.y + b.height)
  }

  /** The last of `q` that holds the point. */
  ghost function Topmost(q: seq<Widget>, k: Look, x: int, y: int): Widget?
  {
    if q == [] then null
    else
      var v := q[|q| - 1];
      if v in k && Contains(k[v].box, x, y) then v else Topmost(q[..|q| - 1], k, x, y)
  }

  lemma {:induction false} TopmostOfBoth(a: seq<Widget>, b: seq<Widget>, k: Look, x: int, y: int)
    ensures Topmost(a + b, k, x, y) == if Topmost(b, k, x, y) != null then Topmost(b, k, x, y) else Topmost(a, k, x, y)
  {
    if b == [] {
      assert a + b == a;
    } else {
      assert (a + b)[..|a + b| - 1] == a + b[..|b| - 1];
      TopmostOfBoth(a, b[..|b| - 1], k, x, y);
    }
  }

  lemma TopmostOfKids(s: Shape, p: Paths, k: Look, w: Widget, i: nat, x: int, y: int)
    requires Traces(s, p) && w in s && k.Keys == s.Keys && i < |s[w].children| && s[w].children[i] in s
    ensures Topmost(PaintKids(s, p, k, w, i + 1), k, x, y) ==
            var hit := Topmost(PaintOrder(s, p, k, s[w].children[i]), k, x, y);
            if hit != null then hit else Topmost(PaintKids(s, p, k, w, i), k, x, y)
  {
    TopmostOfBoth(PaintKids(s, p, k, w, i), PaintOrder(s, p, k, s[w].children[i]), k, x, y);
  }

  lemma TopmostOfTree(s: Shape, p: Paths, k: Look, w: Widget, x: int, y: int)
    requires Traces(s, p) && w in s && k.Keys == s.Keys
    ensures Topmost(PaintOrder(s, p, k, w), k, x, y) ==
            var hit := Topmost(PaintKids(s, p, k, w, |s[w].children|), k, x, y);
            if !k[w].visible then null
            else if hit != null then hit else if Contains(k[w].box, x, y) then w else null
  {
    TopmostOfBoth([w], PaintKids(s, p, k, w, |s[w].children|), k, x, y);
  }

  /** It is there exactly when some widget of `q` holds the point, and none after it does. */
  lemma {:induction false} TopmostIsLast(q: seq<Widget>, k: Look, x: int, y: int)
    ensures var t := Topmost(q, k, x, y);
            if t == null then forall v :: v in q && v in k ==> !Contains(k[v].box, x, y)
            else exists i :: 0 <= i < |q| && q[i] == t && t in k && Contains(k[t].box, x, y)
                   && forall j :: i < j < |q| && q[j] in k ==> !Contains(k[q[j]].box, x, y)
  {
    if q != [] {
      var m := |q| - 1;
      if q[m] in k && Contains(k[q[m]].box, x, y) {
      } else {
        TopmostIsLast(q[..m], k, x, y);
      }
    }
  }
}
