/** The shape of the widget forest of `devilui.c`: who is whose parent, and in what
    order the children stand. Every widget has a path, which leads to it from its
    root; that there are such paths says that the links form trees. */
module WidgetForest {
  import opened Machine

  datatype Layout = LayoutNone | Vertical | Horizontal | OtherLayout

  datatype Policy = Expanding | OtherPolicy

  /** What layout reads and writes. */
  datatype Box = Box(x: int, y: int, width: int, height: int)

  datatype Edges = Edges(top: nat, right: nat, bottom: nat, left: nat)

  /** What layout only reads. */
  datatype Style = Style(layout: Layout, hPolicy: Policy, vPolicy: Policy,
                         margin: Edges, padding: Edges, spacing: nat)

  class Widget {
    const id: nat
    var box: Box
    var style: Style
    var visible: bool
    var parent: Widget?
    var children: seq<Widget>
    var childCapacity: nat
    var next: Widget?
    var prev: Widget?

    constructor (id: nat, box: Box)
      ensures this.id == id && this.box == box && visible
      ensures style == Style(LayoutNone, OtherPolicy, OtherPolicy, Edges(0, 0, 0, 0), Edges(0, 0, 0, 0), 0)
      ensures parent == null && children == [] && childCapacity == 0 && next == null && prev == null
    {
      this.id, this.box, visible := id, box, true;
      style := Style(LayoutNone, OtherPolicy, OtherPolicy, Edges(0, 0, 0, 0), Edges(0, 0, 0, 0), 0);
      parent, children, childCapacity, next, prev := null, [], 0, null, null;
    }
  }

  datatype Links = Links(parent: Widget?, children: seq<Widget>)

  type Shape = map<Widget, Links>

  type Paths = map<Widget, seq<Widget>>

  /** The path of `w` is that of its parent and one step more. */
  ghost predicate Traced(s: Shape, p: Paths, w: Widget)
    requires p.Keys == s.Keys && w in s
  {
    var q := s[w].parent;
    if q == null then p[w] == [w] else q in s && w in s[q].children && p[w] == p[q] + [w]
  }

  /** No child stands twice, and every child knows its parent. */
  ghost predicate Agrees(s: Shape) {
    && (forall w {:trigger s[w]} :: w in s ==> NoDup(s[w].children))
    && (forall w, c {:trigger c in s[w].children} :: w in s && c in s[w].children ==> c in s && s[c].parent == w)
  }

  /** The links form trees, and these are the paths in them. */
  ghost predicate Traces(s: Shape, p: Paths) {
    && p.Keys == s.Keys
    && Agrees(s)
    && (forall w {:trigger Traced(s, p, w)} :: w in s ==> Traced(s, p, w))
  }

  /** `v` is `w` or lies below it. */
  ghost predicate Under(p: Paths, w: Widget, v: Widget)
    requires w in p && v in p
  {
    p[w] <= p[v]
  }

  ghost function Subtree(p: Paths, w: Widget): set<Widget>
    requires w in p
  {
    set v | v in p && p[w] <= p[v]
  }

  lemma PathEnds(s: Shape, p: Paths, w: Widget)
    requires Traces(s, p) && w in s
    ensures |p[w]| > 0 && p[w][|p[w]| - 1] == w
  {
    assert Traced(s, p, w);
  }

  /** What lies below a widget lies under one of its children. */
  lemma {:induction false} ChildOnPath(s: Shape, p: Paths, w: Widget, v: Widget)
    requires Traces(s, p) && w in s && v in s && Under(p, w, v) && v != w
    ensures |p[w]| < |p[v]| && p[v][|p[w]|] in s[w].children && Under(p, p[v][|p[w]|], v)
    decreases |p[v]|
  {
    PathEnds(s, p, w);
    PathEnds(s, p, v);
    assert Traced(s, p, v);
    var q := s[v].parent;
    if q == w {
    } else {
      PathEnds(s, p, q);
      assert p[w] <= p[q];
      ChildOnPath(s, p, w, q);
    }
  }

  lemma ChildPath(s: Shape, p: Paths, w: Widget, c: Widget)
    requires Traces(s, p) && w in s && c in s[w].children
    ensures c in p && p[c] == p[w] + [c]
    ensures Subtree(p, c) < Subtree(p, w)
  {
    assert Traced(s, p, c);
    assert w in Subtree(p, w) && w !in Subtree(p, c);
  }

  // ---------- Removing a child ----------

  /** `cs` without the first `c`. */
  function Removed(cs: seq<Widget>, c: Widget): seq<Widget> {
    if cs == [] then [] else if cs[0] == c then cs[1..] else [cs[0]] + Removed(cs[1..], c)
  }

  lemma {:induction false} RemovedAt(cs: seq<Widget>, i: nat)
    requires i < |cs| && cs[i] !in cs[..i]
    ensures Removed(cs, cs[i]) == cs[..i] + cs[i + 1..]
  {
    if i > 0 {
      assert cs[1..][..i - 1] == cs[..i][1..];
      RemovedAt(cs[1..], i - 1);
    }
  }

  lemma {:induction false} RemovedSame(cs: seq<Widget>, c: Widget)
    requires NoDup(cs)
    ensures NoDup(Removed(cs, c))
    ensures forall v :: v in Removed(cs, c) <==> v in cs && v != c
  {
    if cs != [] {
      assert NoDup(cs[1..]);
      assert cs[0] !in cs[1..];
      if cs[0] != c {
        RemovedSame(cs[1..], c);
      }
    }
  }

  ghost function Detach(s: Shape, c: Widget): Shape
  {
    if c !in s || s[c].parent == null || s[c].parent !in s then s
    else
      var q := s[c].parent;
      s[q := Links(s[q].parent, Removed(s[q].children, c))][c := Links(null, s[c].children)]
  }

  ghost function DetachPaths(p: Paths, c: Widget): Paths
    requires c in p
  {
    map v | v in p :: if [] < p[c] <= p[v] then p[v][|p[c]| - 1..] else p[v]
  }

  /** A widget under `c` stays under it: its new path is the old one from `c` on. */
  lemma DetachedPath(s: Shape, p: Paths, c: Widget, w: Widget)
    requires Traces(s, p) && c in s && s[c].parent != null && w in s
    ensures DetachPaths(p, c).Keys == Detach(s, c).Keys && Traced(Detach(s, c), DetachPaths(p, c), w)
  {
    PathEnds(s, p, c);
    assert Traced(s, p, c) && Traced(s, p, w);
    if w != c && s[w].parent != null {
      DetachedParent(s, p, c, w);
    }
  }

  lemma DetachedParent(s: Shape, p: Paths, c: Widget, w: Widget)
    requires Traces(s, p) && c in s && s[c].parent != null && w in s && w != c && s[w].parent != null
    ensures s[w].parent in s && w in Detach(s, c)[s[w].parent].children
    ensures DetachPaths(p, c)[w] == DetachPaths(p, c)[s[w].parent] + [w]
  {
    var u := s[w].parent;
    PathEnds(s, p, c);
    assert Traced(s, p, c) && Traced(s, p, w);
    RemovedSame(s[s[c].parent].children, c);
    if p[c] <= p[w] {
      ChildOnPath(s, p, c, w);
      assert p[c] <= p[u];
    } else {
      assert !(p[c] <= p[u]);
    }
  }

  /** Paths start at roots. */
  lemma {:induction false} RootOfPath(s: Shape, p: Paths, v: Widget)
    requires Traces(s, p) && v in s
    ensures |p[v]| > 0 && p[v][0] in s && s[p[v][0]].parent == null
    decreases |p[v]|
  {
    assert Traced(s, p, v);
    if s[v].parent != null {
      PathEnds(s, p, s[v].parent);
      RootOfPath(s, p, s[v].parent);
    }
  }

  lemma DetachedChild(s: Shape, c: Widget, w: Widget, v: Widget)
    requires Agrees(s) && c in s && s[c].parent != null && s[c].parent in s && s[c].parent != c
    requires w in s && v in Detach(s, c)[w].children
    ensures v in s && Detach(s, c)[v].parent == w
  {
    var q := s[c].parent;
    RemovedSame(s[q].children, c);
    if w != q {
      assert Detach(s, c)[w].children == s[w].children;
    }
    assert v in s[w].children && v != c;
  }

  lemma DetachAgrees(s: Shape, c: Widget)
    requires Agrees(s) && c in s && s[c].parent != null && s[c].parent in s && s[c].parent != c
    ensures Agrees(Detach(s, c))
  {
    RemovedSame(s[s[c].parent].children, c);
    forall w, v | w in s && v in Detach(s, c)[w].children ensures v in s && Detach(s, c)[v].parent == w {
      DetachedChild(s, c, w, v);
    }
  }

  /** Cutting a widget from its parent leaves a forest. */
  lemma DetachTraces(s: Shape, p: Paths, c: Widget)
    requires Traces(s, p) && c in s && s[c].parent != null
    ensures Traces(Detach(s, c), DetachPaths(p, c))
  {
    assert Traced(s, p, c);
    DetachAgrees(s, c);
    forall w | w in s ensures Detach(s, c).Keys == s.Keys && Traced(Detach(s, c), DetachPaths(p, c), w) {
      DetachedPath(s, p, c, w);
    }
  }

  /** The cut tree keeps its members, and all else its paths. */
  lemma DetachSplits(s: Shape, p: Paths, c: Widget)
    requires Traces(s, p) && c in s && s[c].parent != null
    ensures Subtree(DetachPaths(p, c), c) == Subtree(p, c)
    ensures forall v :: v in s && v !in Subtree(p, c) ==> DetachPaths(p, c)[v] == p[v]
  {
    var p' := DetachPaths(p, c);
    PathEnds(s, p, c);
    assert p'[c] == [c];
    forall v | v in p' ensures v in Subtree(p', c) <==> v in Subtree(p, c) {
      if p[c] <= p[v] {
        assert p'[v][0] == c;
      } else {
        RootOfPath(s, p, v);
      }
    }
  }

  // ---------- Forgetting a widget ----------

  /** A widget alone is no part of any other's path. */
  lemma ForgetTraces(s: Shape, p: Paths, w: Widget)
    requires Traces(s, p) && w in s && s[w].parent == null && s[w].children == []
    ensures Subtree(p, w) == {w}
    ensures Traces(s - {w}, p - {w})
  {
    assert Traced(s, p, w);
    forall v | v in Subtree(p, w) ensures v == w {
      if v != w { ChildOnPath(s, p, w, v); }
    }
    forall v | v in s - {w} ensures Traced(s - {w}, p - {w}, v) {
      assert Traced(s, p, v);
      assert s[v].parent != w;
    }
  }

  // ---------- Adding a child ----------

  ghost function Attach(s: Shape, q: Widget, c: Widget): Shape
    requires q in s && c in s
  {
    var s' := s[q := Links(s[q].parent, s[q].children + [c])];
    s'[c := Links(q, s'[c].children)]
  }

  ghost function AttachPaths(p: Paths, q: Widget, c: Widget): Paths
    requires q in p && c in p
  {
    map v | v in p :: if p[c] <= p[v] then p[q] + p[v] else p[v]
  }

  lemma AttachedPath(s: Shape, p: Paths, q: Widget, c: Widget, w: Widget)
    requires Traces(s, p) && q in s && c in s && s[c].parent == null && !Under(p, c, q) && w in s
    ensures Attach(s, q, c).Keys == s.Keys && Traced(Attach(s, q, c), AttachPaths(p, q, c), w)
  {
    var s', p' := Attach(s, q, c), AttachPaths(p, q, c);
    assert s'.Keys == s.Keys && p'.Keys == p.Keys;
    assert Traced(s, p, c) && Traced(s, p, w);
    var u := s[w].parent;
    if u != null {
      PathEnds(s, p, u);
      assert w in s'[u].children;
      assert p[c] <= p[w] <==> p[c] <= p[u];
    }
  }

  lemma AttachAgrees(s: Shape, q: Widget, c: Widget)
    requires Agrees(s) && q in s && c in s && s[c].parent == null && c != q
    ensures Agrees(Attach(s, q, c))
  {
    var s' := Attach(s, q, c);
    assert c !in s[q].children;
    forall w, v | w in s && v in s'[w].children ensures v in s && s'[v].parent == w {
      assert v == c || v in s[w].children;
    }
  }

  /** A root can be hung under any widget outside its own tree. */
  lemma AttachTraces(s: Shape, p: Paths, q: Widget, c: Widget)
    requires Traces(s, p) && q in s && c in s && s[c].parent == null && !Under(p, c, q)
    ensures Traces(Attach(s, q, c), AttachPaths(p, q, c)) && AttachPaths(p, q, c).Keys == p.Keys && q != c
  {
    AttachAgrees(s, q, c);
    forall w | w in s ensures Attach(s, q, c).Keys == s.Keys && Traced(Attach(s, q, c), AttachPaths(p, q, c), w) {
      AttachedPath(s, p, q, c, w);
    }
  }

  /** Nothing below `c` can become its parent: its path would have to lengthen itself. */
  lemma {:induction false} UnderKept(s: Shape, p: Paths, p': Paths, q: Widget, c: Widget, v: Widget)
    requires Traces(s, p) && q in s && c in s && s[c].parent == null && v in s && Under(p, c, v)
    requires Traces(Attach(s, q, c), p')
    ensures |p'[c]| <= |p'[v]|
    decreases |p[v]|
  {
    if v != c {
      ChildOnPath(s, p, c, v);
      assert Traced(s, p, v) && Traced(Attach(s, q, c), p', v) && Traced(s, p, c);
      UnderKept(s, p, p', q, c, s[v].parent);
    }
  }

  /** In all other cases adding the child leaves no forest, whatever the paths. */
  lemma AttachBreaks(s: Shape, p: Paths, p': Paths, q: Widget, c: Widget)
    requires Traces(s, p) && q in s && c in s && (s[c].parent != null || Under(p, c, q))
    ensures !Traces(Attach(s, q, c), p')
  {
    var s', u := Attach(s, q, c), s[c].parent;
    assert Traced(s, p, c);
    if u == q {
      DupLast(s[q].children, c);
      assert q in s' && s'[q].children == s[q].children + [c];
    } else if u != null {
      assert c in s'[u].children && s'[c].parent == q;
    } else if Traces(s', p') {
      assert Traced(s', p', c);
      UnderKept(s, p, p', q, c, q);
    }
  }

  lemma DupLast(cs: seq<Widget>, c: Widget)
    requires c in cs
    ensures !NoDup(cs + [c])
  {
    var i :| 0 <= i < |cs| && cs[i] == c;
    assert (cs + [c])[i] == (cs + [c])[|cs|];
  }

  /** Removing the child just added restores the shape. */
  lemma DetachUndoesAttach(s: Shape, p: Paths, q: Widget, c: Widget)
    requires Traces(s, p) && q in s && c in s && s[c].parent == null && c != q
    ensures Detach(Attach(s, q, c), c) == s
  {
    var cs := s[q].children;
    assert c !in cs;
    RemovedAt(cs + [c], |cs|);
    assert Removed(cs + [c], c) == cs;
  }

  // ---------- A new widget ----------

  lemma AloneTraces(s: Shape, p: Paths, w: Widget)
    requires Traces(s, p) && w !in s
    ensures Traces(s[w := Links(null, [])], p[w := [w]])
  {
    var s', p' := s[w := Links(null, [])], p[w := [w]];
    forall v | v in s' ensures Traced(s', p', v) {
      assert v in s ==> Traced(s, p, v);
    }
  }

  // ---------- Destroying a tree ----------

  /** From `s0`, the tree under `w` is gone, and its place among its siblings with it. */
  ghost predicate Destroyed(s0: Shape, p0: Paths, s: Shape, p: Paths, w: Widget) {
    && w in p0
    && s == Detach(s0, w) - Subtree(p0, w)
    && p == p0 - Subtree(p0, w)
  }

  /** From `s0`, some of what is strictly below the root `w` is gone, and nothing else. */
  ghost predicate Pruned(s0: Shape, p0: Paths, s: Shape, p: Paths, w: Widget) {
    && w in p && p.Keys == s.Keys && p0.Keys == s0.Keys && p.Keys <= p0.Keys
    && (forall v {:trigger p[v]} :: v in p ==> p[v] == p0[v])
    && (forall v {:trigger v in p} :: v in p0 && v !in p ==> p0[w] <= p0[v])
    && s[w].parent == s0[w].parent == null
    && (forall v {:trigger s[v]} :: v in p && v != w ==> s[v] == s0[v])
  }

  /** Destroying the first child of `w` goes one step on. */
  lemma PruneSteps(s0: Shape, p0: Paths, s1: Shape, p1: Paths, s2: Shape, p2: Paths, w: Widget)
    requires Traces(s1, p1) && Pruned(s0, p0, s1, p1, w)
    requires |s1[w].children| > 0 && Destroyed(s1, p1, s2, p2, s1[w].children[0])
    ensures Pruned(s0, p0, s2, p2, w)
    ensures p2.Keys < p1.Keys && |s2[w].children| < |s1[w].children|
  {
    var c := s1[w].children[0];
    ChildPath(s1, p1, w, c);
    assert Traced(s1, p1, c);
    assert c in Subtree(p1, c);
    RemovedAt(s1[w].children, 0);
    assert w !in Subtree(p1, c);
    forall v | v in p0 && v !in p2 ensures p0[w] <= p0[v] {
      if v in p1 {
        assert p1[w] <= p1[c] <= p1[v];
        assert p1[w] == p0[w] && p1[v] == p0[v];
      }
    }
  }

  /** A root is cut off already. */
  lemma OwnParent(s: Shape, p: Paths, w: Widget)
    requires Traces(s, p) && w in s
    ensures s[w].parent == null ==> Detach(s, w) == s && DetachPaths(p, w) == p
    ensures s[w].parent != null ==> s[w].parent in s && w in s[s[w].parent].children
  {
    assert Traced(s, p, w);
  }

  lemma CutKeeps(s: Shape, p: Paths, w: Widget)
    requires Traces(s, p) && w in s
    ensures Subtree(DetachPaths(p, w), w) == Subtree(p, w)
  {
    OwnParent(s, p, w);
    if s[w].parent != null { DetachSplits(s, p, w); }
  }

  /** When the uprooted `w` has no children left, all but `w` itself is gone. */
  lemma PruneEnds(s0: Shape, p0: Paths, s: Shape, p: Paths, w: Widget)
    requires Traces(s0, p0) && w in s0 && Traces(s, p)
    requires Pruned(Detach(s0, w), DetachPaths(p0, w), s, p, w) && s[w].children == []
    ensures Destroyed(s0, p0, s - {w}, p - {w}, w)
  {
    var p' := DetachPaths(p0, w);
    ForgetTraces(s, p, w);
    CutKeeps(s0, p0, w);
    OwnParent(s0, p0, w);
    forall v | v in p' ensures v in p && v != w <==> v !in Subtree(p', w) {
      if v in p && v in Subtree(p', w) {
        assert v in Subtree(p, w);
      }
    }
    if s0[w].parent != null { DetachSplits(s0, p0, w); }
  }

  /** What is under a child of a partly pruned root was always strictly under it. */
  lemma Descend(s: Shape, p: Paths, p0: Paths, w: Widget)
    requires Traces(s, p) && w in s && |s[w].children| > 0
    requires p.Keys <= p0.Keys && forall v {:trigger p[v]} :: v in p ==> p[v] == p0[v]
    ensures s[w].children[0] in p && Subtree(p, s[w].children[0]) < Subtree(p0, w)
  {
    ChildPath(s, p, w, s[w].children[0]);
    assert Subtree(p, w) <= Subtree(p0, w);
  }
}
