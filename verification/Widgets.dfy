/** The operations of `devilui.c`: they edit the trees of widgets and the doubly linked
    list of all widgets together. */
module Widgets {
  import opened Machine
  import opened WidgetForest
  import opened WidgetGeometry

  ghost function ShapeOf(ws: set<Widget>): Shape
    reads ws`parent, ws`children
  {
    map w | w in ws :: Links(w.parent, w.children)
  }

  ghost function LookOf(ws: set<Widget>): Look
    reads ws`box, ws`style, ws`visible
  {
    map w | w in ws :: Kid(w.box, w.style, w.visible)
  }

  /** `list` is the doubly linked list from `head` on. */
  ghost predicate Linked(list: seq<Widget>, head: Widget?)
    reads list`next, list`prev
  {
    && NoDup(list)
    && (forall i {:trigger list[i].prev} :: 0 < i < |list| ==> list[i].prev == list[i - 1])
    && (forall i {:trigger list[i].next} :: 0 <= i < |list| - 1 ==> list[i].next == list[i + 1])
    && (if list == [] then head == null else head == list[0] && head.prev == null && list[|list| - 1].next == null)
  }

  ghost predicate Holds(list: seq<Widget>, ws: set<Widget>) {
    (forall w :: w in list ==> w in ws) && (forall w :: w in ws ==> w in list)
  }

  /** No child array is fuller than it can be. */
  ghost predicate Roomy(ws: set<Widget>)
    reads ws`children, ws`childCapacity
  {
    forall w :: w in ws ==> |w.children| <= w.childCapacity
  }

  /** The members of `list` that are in `ws`, in their order. */
  ghost function Kept(list: seq<Widget>, ws: set<Widget>): seq<Widget> {
    if list == [] then []
    else Kept(list[..|list| - 1], ws) + if list[|list| - 1] in ws then [list[|list| - 1]] else []
  }

  lemma {:induction false} KeptAll(list: seq<Widget>, ws: set<Widget>)
    requires forall w :: w in list ==> w in ws
    ensures Kept(list, ws) == list
  {
    if list != [] {
      KeptAll(list[..|list| - 1], ws);
      assert list == list[..|list| - 1] + [list[|list| - 1]];
      assert list[|list| - 1] in ws;
    }
  }

  lemma {:induction false} KeptTwice(list: seq<Widget>, ws: set<Widget>, vs: set<Widget>)
    requires vs <= ws
    ensures Kept(Kept(list, ws), vs) == Kept(list, vs)
  {
    if list != [] {
      var w := list[|list| - 1];
      KeptTwice(list[..|list| - 1], ws, vs);
      var rest := Kept(list[..|list| - 1], ws);
      if w in ws {
        assert Kept(list, ws) == rest + [w] && (rest + [w])[..|rest|] == rest;
      } else {
        assert Kept(list, ws) == rest;
      }
    }
  }

  /** Without one of its members, what stands before and after it remains. */
  lemma {:induction false} KeptButOne(list: seq<Widget>, ws: set<Widget>, i: nat)
    requires NoDup(list) && i < |list| && forall w :: w in list ==> w in ws || w == list[i]
    requires list[i] !in ws
    ensures Kept(list, ws) == list[..i] + list[i + 1..]
  {
    var m := |list| - 1;
    if i == m {
      KeptAll(list[..m], ws);
    } else {
      KeptButOne(list[..m], ws, i);
      assert list[..m][..i] == list[..i];
      assert list[i + 1..] == list[..m][i + 1..] + [list[m]];
      assert list[m] in list;
    }
  }

  lemma ChildLeaves(s: Shape, p: Paths, q: Widget, c: Widget, i: nat)
    requires Traces(s, p) && q in s && i < |s[q].children| && s[q].children[i] == c
    ensures c in s && c != q && DetachPaths(p, c).Keys == p.Keys && Traces(Detach(s, c), DetachPaths(p, c))
  {
    assert c in s[q].children;
    assert Traced(s, p, c);
    DetachTraces(s, p, c);
  }

  /** A pointer to a widget, cleared if the widget is gone. */
  ghost function Still(w: Widget?, ws: set<Widget>): Widget? {
    if w != null && w in ws then w else null
  }

  lemma {:induction false} KeptHolds(list: seq<Widget>, ws: set<Widget>)
    ensures forall w :: w in Kept(list, ws) <==> w in list && w in ws
  {
    if list != [] { KeptHolds(list[..|list| - 1], ws); }
  }

  lemma KeptWithout(list: seq<Widget>, ws: set<Widget>, i: nat)
    requires NoDup(list) && Holds(list, ws) && i < |list|
    ensures list[..i] + list[i + 1..] == Kept(list, ws - {list[i]}) && Holds(list[..i] + list[i + 1..], ws - {list[i]})
  {
    KeptButOne(list, ws - {list[i]}, i);
    KeptHolds(list, ws - {list[i]});
  }

  lemma OutsideKids(s: Shape, p: Paths, w: Widget)
    requires Traces(s, p) && w in s
    ensures w !in s[w].children && NoDup(s[w].children) && forall c :: c in s[w].children ==> c in s
  {
    if w in s[w].children { ChildPath(s, p, w, w); }
  }

  class Ui {
    var head: Widget?
    var focused: Widget?
    var hovered: Widget?
    var nextId: nat
    ghost var list: seq<Widget>
    ghost var paths: Paths

    /** The links of the widgets. */
    ghost function Now(): Shape
      reads `paths, paths.Keys`parent, paths.Keys`children
    {
      ShapeOf(paths.Keys)
    }

    /** How the widgets look. */
    ghost function Seen(): Look
      reads `paths, paths.Keys`box, paths.Keys`style, paths.Keys`visible
    {
      LookOf(paths.Keys)
    }

    /** The list holds all widgets. */
    ghost predicate Listed()
      reads this, paths.Keys`children, paths.Keys`childCapacity, list`next, list`prev
    {
      && Holds(list, paths.Keys)
      && Linked(list, head)
      && Roomy(paths.Keys)
      && (focused != null ==> focused in paths) && (hovered != null ==> hovered in paths)
    }

    /** The list holds all widgets, and their links form trees. */
    ghost predicate Valid()
      reads this, paths.Keys`parent, paths.Keys`children, paths.Keys`childCapacity, list`next, list`prev
    {
      Listed() && Traces(Now(), paths)
    }

    constructor ()
      ensures Valid() && list == [] && head == null && focused == null && hovered == null
    {
      head, focused, hovered, nextId := null, null, null, 1;
      list, paths := [], map[];
    }

    method PushFront(w: Widget)
      requires Linked(list, head) && w !in list
      modifies `head, `list, list`prev, w`next, w`prev
      ensures Linked(list, head) && list == [w] + old(list)
    {
      w.next := head;
      w.prev := null;
      if head != null { head.prev := w; }
      head := w;
      list := [w] + list;
    }

    /** The list and the links, but for one widget that is only in the list yet. */
    ghost predicate ValidBut(w: Widget)
      reads this, paths.Keys`parent, paths.Keys`children, paths.Keys`childCapacity, list`next, list`prev
    {
      && Holds(list, paths.Keys + {w}) && w !in paths
      && Linked(list, head)
      && Traces(Now(), paths)
      && Roomy(paths.Keys)
      && (focused != null ==> focused in paths) && (hovered != null ==> hovered in paths)
    }

    ghost method Enroll(w: Widget)
      requires ValidBut(w) && w.parent == null && w.children == []
      modifies `paths
      ensures Valid() && paths == old(paths)[w := [w]] && Now() == old(Now())[w := Links(null, [])]
    {
      AloneTraces(Now(), paths, w);
      paths := paths[w := [w]];
      assert Now() == old(Now())[w := Links(null, [])];
    }

    /** A new widget stands alone, at the front of the list. */
    method Create(box: Box) returns (w: Widget)
      requires Valid()
      modifies `head, `nextId, `list, `paths, list`prev
      ensures Valid() && fresh(w) && list == [w] + old(list)
      ensures Now() == old(Now())[w := Links(null, [])] && w.box == box && w.id == old(nextId)
      ensures paths == old(paths)[w := [w]]
    {
      ghost var s, p := Now(), paths;
      w := new Widget(nextId, box);
      assert Now() == s && Linked(list, head);
      nextId := Wrap32(nextId + 1);
      PushFront(w);
      assert paths == p && Now() == s;
      Enroll(w);
    }

    // ---------- Removing a child ----------

    /** Closes the gap at `i` by shifting what stands after it. */
    method CutChild(parent: Widget, i: nat)
      requires i < |parent.children|
      modifies parent`children
      ensures parent.children == old(parent.children[..i] + parent.children[i + 1..])
    {
      ghost var cs := parent.children;
      var n := |parent.children|;
      var j := i;
      while j < n - 1
        invariant i <= j < n == |parent.children|
        invariant parent.children == cs[..i] + cs[i + 1..j + 1] + cs[j..]
      {
        parent.children := parent.children[j := parent.children[j + 1]];
        j := j + 1;
        assert cs[i + 1..j + 1] == cs[i + 1..j] + [cs[j]];
      }
      parent.children := parent.children[..n - 1];
    }

    method CutLinks(parent: Widget, child: Widget, i: nat)
      requires Agrees(Now()) && parent in paths && child != parent && i < |parent.children|
          && parent.children[i] == child
      modifies parent`children, child`parent
      ensures child in old(Now()) && old(Now())[child].parent == parent && Now() == Detach(old(Now()), child)
      ensures |parent.children| < old(|parent.children|)
    {
      ghost var s := Now();
      assert s[parent].children[i] in s[parent].children;
      RemovedAt(parent.children, i);
      CutChild(parent, i);
      child.parent := null;
    }

    ghost method Repath(p: Paths)
      requires Listed() && p.Keys == paths.Keys && Traces(Now(), p)
      modifies `paths
      ensures Valid() && paths == p && Now() == old(Now()) && Seen() == old(Seen())
    {
      paths := p;
    }

    method TakeOut(parent: Widget, child: Widget, i: nat)
      requires Valid() && parent in paths && i < |parent.children| && parent.children[i] == child
      modifies `paths, parent`children, child`parent
      ensures Valid() && child in old(paths)
      ensures Now() == Detach(old(Now()), child) && paths == DetachPaths(old(paths), child)
    {
      ChildLeaves(Now(), paths, parent, child, i);
      CutLinks(parent, child, i);
      Repath(DetachPaths(paths, child));
    }

    /** Takes `child` out of the children of `parent`, if it is there. */
    method RemoveChild(parent: Widget, child: Widget)
      requires Valid() && parent in paths && child in paths
      modifies `paths, parent`children, child`parent
      ensures Valid()
      ensures Now() == if child in old(parent.children) then Detach(old(Now()), child) else old(Now())
      ensures paths == if child in old(parent.children) then DetachPaths(old(paths), child) else old(paths)
    {
      var i := 0;
      while i < |parent.children|
        invariant i <= |parent.children| && child !in parent.children[..i]
      {
        if parent.children[i] == child {
          TakeOut(parent, child, i);
          return;
        }
        i := i + 1;
      }
    }

    // ---------- Destroying ----------

    method Unlink(w: Widget, ghost i: nat)
      requires Linked(list, head) && i < |list| && list[i] == w
      modifies `head, `list, list`next, list`prev
      ensures Linked(list, head) && list == old(list)[..i] + old(list)[i + 1..]
    {
      if w.prev != null { w.prev.next := w.next; } else { head := w.next; }
      if w.next != null { w.next.prev := w.prev; }
      list := list[..i] + list[i + 1..];
    }

    method ClearPointers(w: Widget)
      modifies `focused, `hovered
      ensures focused == (if old(focused) == w then null else old(focused))
      ensures hovered == (if old(hovered) == w then null else old(hovered))
    {
      if focused == w { focused := null; }
      if hovered == w { hovered := null; }
    }

    ghost method Forget(w: Widget)
      requires Holds(list, paths.Keys - {w}) && Linked(list, head) && Roomy(paths.Keys)
      requires focused == Still(focused, paths.Keys - {w}) && hovered == Still(hovered, paths.Keys - {w})
      requires w in paths && Traces(Now(), paths) && w.parent == null && w.children == []
      modifies `paths
      ensures Valid() && Now() == old(Now()) - {w} && paths == old(paths) - {w}
    {
      ForgetTraces(Now(), paths, w);
      paths := paths - {w};
      assert Now() == old(Now()) - {w};
    }

    method LeaveList(w: Widget)
      requires Linked(list, head) && Holds(list, paths.Keys) && w in list
      modifies `head, `list, list`next, list`prev
      ensures Linked(list, head) && list == Kept(old(list), paths.Keys - {w}) && Holds(list, paths.Keys - {w})
    {
      ghost var i :| 0 <= i < |list| && list[i] == w;
      Unlink(w, i);
      KeptWithout(old(list), paths.Keys, i);
    }

    method Withdraw(w: Widget, ghost ws: set<Widget>)
      requires Linked(list, head) && Holds(list, paths.Keys) && w in list && ws == paths.Keys - {w}
      requires (focused != null ==> focused in paths) && (hovered != null ==> hovered in paths)
      modifies `head, `list, `focused, `hovered, list`next, list`prev
      ensures Linked(list, head) && Holds(list, ws) && list == Kept(old(list), ws)
      ensures focused == Still(old(focused), ws) && hovered == Still(old(hovered), ws)
    {
      LeaveList(w);
      ClearPointers(w);
    }

    /** A widget that stands alone leaves the list. */
    method Dismiss(w: Widget)
      requires Valid() && w in paths && w.parent == null && w.children == []
      modifies this, paths.Keys`next, paths.Keys`prev
      ensures Valid() && Now() == old(Now()) - {w} && paths == old(paths) - {w}
      ensures list == Kept(old(list), paths.Keys)
      ensures focused == Still(old(focused), paths.Keys) && hovered == Still(old(hovered), paths.Keys)
    {
      ghost var s, p, ws := Now(), paths, paths.Keys - {w};
      assert forall v :: v in list ==> v in paths.Keys;
      Withdraw(w, ws);
      assert Now() == s && paths == p;
      Forget(w);
      assert paths.Keys == ws;
    }

    /** What has become of the list, the focus and the pointer's place, with only `ws` left. */
    ghost predicate Shrunk(list0: seq<Widget>, focused0: Widget?, hovered0: Widget?, ws: set<Widget>)
      reads `list, `focused, `hovered
    {
      list == Kept(list0, ws) && focused == Still(focused0, ws) && hovered == Still(hovered0, ws)
    }

    method DestroyFirst(w: Widget, ghost s0: Shape, ghost p0: Paths,
                        ghost list0: seq<Widget>, ghost focused0: Widget?, ghost hovered0: Widget?)
      requires Valid() && Pruned(s0, p0, Now(), paths, w) && |w.children| > 0
      requires Shrunk(list0, focused0, hovered0, paths.Keys)
      modifies this, paths.Keys`parent, paths.Keys`children, paths.Keys`next, paths.Keys`prev
      ensures Valid() && Pruned(s0, p0, Now(), paths, w)
      ensures |w.children| < old(|w.children|) && paths.Keys <= old(paths.Keys)
      ensures Shrunk(list0, focused0, hovered0, paths.Keys)
      decreases Subtree(p0, w), 0
    {
      ghost var s, p := Now(), paths;
      Descend(s, p, p0, w);
      Destroy(w.children[0]);
      PruneSteps(s0, p0, s, p, Now(), paths, w);
      KeptTwice(list0, p.Keys, paths.Keys);
    }

    /** Destroys the trees under the children of a root, the first one first. */
    method DestroyChildren(w: Widget)
      requires Valid() && w in paths && w.parent == null
      modifies this, paths.Keys`parent, paths.Keys`children, paths.Keys`next, paths.Keys`prev
      ensures Valid() && Pruned(old(Now()), old(paths), Now(), paths, w) && w.children == []
      ensures Shrunk(old(list), old(focused), old(hovered), paths.Keys)
      decreases Subtree(paths, w), 1
    {
      ghost var s0, p0, list0, focused0, hovered0 := Now(), paths, list, focused, hovered;
      KeptAll(list, paths.Keys);
      while |w.children| > 0
        invariant Valid() && Pruned(s0, p0, Now(), paths, w)
        invariant Shrunk(list0, focused0, hovered0, paths.Keys)
        decreases |w.children|
      {
        DestroyFirst(w, s0, p0, list0, focused0, hovered0);
      }
    }

    /** Makes `w` a root. */
    method Uproot(w: Widget)
      requires Valid() && w in paths
      modifies `paths, paths.Keys`parent, paths.Keys`children
      ensures Valid() && w.parent == null && paths.Keys == old(paths.Keys)
      ensures Now() == Detach(old(Now()), w) && paths == DetachPaths(old(paths), w)
      ensures Subtree(paths, w) == old(Subtree(paths, w))
    {
      CutKeeps(Now(), paths, w);
      OwnParent(Now(), paths, w);
      if w.parent != null {
        RemoveChild(w.parent, w);
      }
    }

    /** ... as the last of what was to go. */
    method DismissLast(w: Widget, ghost list0: seq<Widget>, ghost focused0: Widget?, ghost hovered0: Widget?)
      requires Valid() && w in paths && w.parent == null && w.children == []
      requires Shrunk(list0, focused0, hovered0, paths.Keys)
      modifies this, paths.Keys`next, paths.Keys`prev
      ensures Valid() && Now() == old(Now()) - {w} && paths == old(paths) - {w}
      ensures Shrunk(list0, focused0, hovered0, paths.Keys)
    {
      ghost var ws := paths.Keys - {w};
      KeptTwice(list0, paths.Keys, ws);
      Dismiss(w);
      assert paths.Keys == ws;
    }

    /** Removes `w` and all below it, and nothing else. */
    method Destroy(w: Widget)
      requires Valid() && w in paths
      modifies this, paths.Keys`parent, paths.Keys`children, paths.Keys`next, paths.Keys`prev
      ensures Valid() && Destroyed(old(Now()), old(paths), Now(), paths, w)
      ensures Shrunk(old(list), old(focused), old(hovered), paths.Keys)
      decreases Subtree(paths, w), 2
    {
      ghost var s0, p0, list0, focused0, hovered0 := Now(), paths, list, focused, hovered;
      Uproot(w);
      assert list == list0 && focused == focused0 && hovered == hovered0;
      DestroyChildren(w);
      PruneEnds(s0, p0, Now(), paths, w);
      DismissLast(w, list0, focused0, hovered0);
    }

    /** Destroys all widgets. */
    method Shutdown()
      requires Valid()
      modifies this, paths.Keys`parent, paths.Keys`children, paths.Keys`next, paths.Keys`prev
      ensures Valid() && list == [] && head == null && focused == null && hovered == null
    {
      while head != null
        invariant Valid() && paths.Keys <= old(paths.Keys)
        decreases paths.Keys
      {
        assert head in list;
        assert head in Subtree(paths, head);
        Destroy(head);
      }
    }

    method SetFocus(w: Widget)
      requires Valid() && w in paths
      modifies `focused
      ensures Valid() && focused == w && Now() == old(Now())
    {
      focused := w;
    }

    // ---------- Layout ----------

    /** `ks` are the children of `w`. */
    ghost predicate Kids(w: Widget, ks: seq<Kid>)
      reads w, w.children`box, w.children`style, w.children`visible
    {
      && |ks| == |w.children|
      && forall i :: 0 <= i < |ks| ==>
           ks[i] == Kid(w.children[i].box, w.children[i].style, w.children[i].visible)
    }

    method PlaceInColumn(child: Widget, x: int, y: int, room: int)
      modifies child`box
      ensures var m, b := child.style.margin, old(child.box);
              child.box == Box(Signed32(x + m.left), Signed32(y + m.top),
                               if child.style.hPolicy.Expanding? then Wrap32(room - m.left - m.right) else b.width,
                               b.height)
    {
      var m := child.style.margin;
      child.box := child.box.(x := Signed32(x + m.left), y := Signed32(y + m.top));
      if child.style.hPolicy.Expanding? {
        child.box := child.box.(width := Wrap32(room - m.left - m.right));
      }
    }

    method PlaceInRow(child: Widget, x: int, y: int, room: int)
      modifies child`box
      ensures var m, b := child.style.margin, old(child.box);
              child.box == Box(Signed32(x + m.left), Signed32(y + m.top), b.width,
                               if child.style.vPolicy.Expanding? then Wrap32(room - m.top - m.bottom) else b.height)
    {
      var m := child.style.margin;
      child.box := child.box.(x := Signed32(x + m.left), y := Signed32(y + m.top));
      if child.style.vPolicy.Expanding? {
        child.box := child.box.(height := Wrap32(room - m.top - m.bottom));
      }
    }

    method ArrangeVertically(w: Widget, ghost ks: seq<Kid>)
      requires w.style.layout.Vertical? && w !in w.children && NoDup(w.children) && Kids(w, ks)
      modifies w.children`box
      ensures Kids(w, Arranged(w.box, w.style, ks))
    {
      var y := Signed32(w.box.y + w.style.padding.top);
      var x := Signed32(w.box.x + w.style.padding.left);
      var room := Wrap32(w.box.width - w.style.padding.left - w.style.padding.right);
      var i := 0;
      while i < |w.children|
        invariant i <= |w.children|
        invariant y == Cursor(w.box, w.style, ks, i)
        invariant forall j :: 0 <= j < i ==> w.children[j].box == ArrangedAt(w.box, w.style, ks, j).box
        invariant forall j :: i <= j < |ks| ==> w.children[j].box == ks[j].box
      {
        var child := w.children[i];
        if child.visible {
          PlaceInColumn(child, x, y, room);
          assert child.box == Placed(w.box, w.style, ks[i], y);
          y := Signed32(y + (child.box.height + child.style.margin.top + child.style.margin.bottom + w.style.spacing));
        }
        i := i + 1;
      }
    }

    method ArrangeHorizontally(w: Widget, ghost ks: seq<Kid>)
      requires w.style.layout.Horizontal? && w !in w.children && NoDup(w.children) && Kids(w, ks)
      modifies w.children`box
      ensures Kids(w, Arranged(w.box, w.style, ks))
    {
      var x := Signed32(w.box.x + w.style.padding.left);
      var y := Signed32(w.box.y + w.style.padding.top);
      var room := Wrap32(w.box.height - w.style.padding.top - w.style.padding.bottom);
      var i := 0;
      while i < |w.children|
        invariant i <= |w.children|
        invariant x == Cursor(w.box, w.style, ks, i)
        invariant forall j :: 0 <= j < i ==> w.children[j].box == ArrangedAt(w.box, w.style, ks, j).box
        invariant forall j :: i <= j < |ks| ==> w.children[j].box == ks[j].box
      {
        var child := w.children[i];
        if child.visible {
          PlaceInRow(child, x, y, room);
          assert child.box == Placed(w.box, w.style, ks[i], x);
          x := Signed32(x + (child.box.width + child.style.margin.left + child.style.margin.right + w.style.spacing));
        }
        i := i + 1;
      }
    }

    lemma KidsSeen(w: Widget, ks: seq<Kid>)
      requires Agrees(Now()) && w in paths && Kids(w, ks)
      ensures KidsOf(Now(), Seen(), w) == ks
    {
    }

    lemma SeenKids(w: Widget)
      requires Agrees(Now()) && w in paths
      ensures Kids(w, KidsOf(Now(), Seen(), w))
    {
    }

    method ArrangeByStyle(w: Widget, ghost ks: seq<Kid>)
      requires w !in w.children && NoDup(w.children) && Kids(w, ks)
      modifies w.children`box
      ensures Kids(w, Arranged(w.box, w.style, ks))
    {
      if w.style.layout.Vertical? {
        ArrangeVertically(w, ks);
      } else if w.style.layout.Horizontal? {
        ArrangeHorizontally(w, ks);
      }
    }

    /** Places the children of `w`. */
    method Arrange(w: Widget)
      requires Traces(Now(), paths) && w in paths
      modifies w.children`box
      ensures Settled(Now(), old(Seen()), Seen(), w)
    {
      ghost var ks := KidsOf(Now(), Seen(), w);
      assert w !in w.children && NoDup(w.children) by { OutsideKids(Now(), paths, w); }
      SeenKids(w);
      ArrangeByStyle(w, ks);
      KidsSeen(w, Arranged(w.box, w.style, ks));
    }

    method LayoutFrom(w: Widget)
      requires Traces(Now(), paths) && w in paths
      modifies w.children`box
      ensures PartlyLaidOut(Now(), paths, old(Seen()), Seen(), w, 0)
    {
      ghost var k := Seen();
      Arrange(w);
      LayoutStarts(Now(), paths, k, Seen(), w);
    }

    method LayoutChild(w: Widget, i: nat, ghost k: Look)
      requires Traces(Now(), paths) && w in paths && i < |w.children|
      requires PartlyLaidOut(Now(), paths, k, Seen(), w, i)
      modifies paths.Keys`box
      ensures PartlyLaidOut(Now(), paths, k, Seen(), w, i + 1)
      decreases Subtree(paths, w), 0
    {
      ghost var k1 := Seen();
      ChildPath(Now(), paths, w, w.children[i]);
      Layout(w.children[i]);
      LayoutSteps(Now(), paths, k, k1, Seen(), w, i);
    }

    /** Lays out the tree under `w`, from `w` down. */
    method Layout(w: Widget)
      requires Traces(Now(), paths) && w in paths
      modifies paths.Keys`box
      ensures LaidOut(Now(), paths, old(Seen()), Seen(), w)
      decreases Subtree(paths, w), 1
    {
      ghost var k := Seen();
      OutsideKids(Now(), paths, w);
      LayoutFrom(w);
      var i := 0;
      while i < |w.children|
        invariant i <= |w.children|
        invariant PartlyLaidOut(Now(), paths, k, Seen(), w, i)
      {
        LayoutChild(w, i, k);
        i := i + 1;
      }
      LayoutEnds(Now(), paths, k, Seen(), w);
    }

    /** Layout touches no link. */
    method LayoutAll(w: Widget)
      requires Valid() && w in paths
      modifies paths.Keys`box
      ensures Valid() && Now() == old(Now())
      ensures LaidOut(Now(), paths, old(Seen()), Seen(), w)
    {
      Layout(w);
      assert Listed();
    }

    // ---------- Hit testing ----------

    method HitKids(w: Widget, x: int, y: int) returns (hit: Widget?)
      requires Traces(Now(), paths) && w in paths
      ensures hit == Topmost(PaintKids(Now(), paths, Seen(), w, |w.children|), Seen(), x, y)
      decreases Subtree(paths, w), 0
    {
      ghost var s, p, k := Now(), paths, Seen();
      var i := |w.children|;
      while i > 0
        invariant 0 <= i <= |w.children|
        invariant Topmost(PaintKids(s, p, k, w, |w.children|), k, x, y) == Topmost(PaintKids(s, p, k, w, i), k, x, y)
      {
        i := i - 1;
        ChildPath(s, p, w, w.children[i]);
        hit := HitTest(w.children[i], x, y);
        TopmostOfKids(s, p, k, w, i, x, y);
        if hit != null { return; }
      }
      return null;
    }

    /** The topmost visible widget at a point. */
    method HitTest(w: Widget, x: int, y: int) returns (hit: Widget?)
      requires Traces(Now(), paths) && w in paths
      ensures hit == Topmost(PaintOrder(Now(), paths, Seen(), w), Seen(), x, y)
      decreases Subtree(paths, w), 1
    {
      TopmostOfTree(Now(), paths, Seen(), w, x, y);
      if !w.visible { return null; }
      hit := HitKids(w, x, y);
      if hit == null && Contains(w.box, x, y) { hit := w; }
    }

    // ---------- Adding a child ----------

    method Grow(parent: Widget)
      requires |parent.children| <= parent.childCapacity
      modifies parent`childCapacity
      ensures |parent.children| < parent.childCapacity
    {
      if |parent.children| >= parent.childCapacity {
        parent.childCapacity := if parent.childCapacity != 0 then parent.childCapacity * 2 else 4;
      }
    }

    method Hang(parent: Widget, child: Widget)
      requires parent in paths && child in paths && child != parent && |parent.children| <= parent.childCapacity
      modifies parent`children, parent`childCapacity, child`parent
      ensures Now() == Attach(old(Now()), parent, child) && |parent.children| <= parent.childCapacity
      ensures Seen() == old(Seen())
    {
      Grow(parent);
      parent.children := parent.children + [child];
      child.parent := parent;
    }

    method Join(parent: Widget, child: Widget)
      requires Valid() && parent in paths && child in paths
      requires child.parent == null && !Under(paths, child, parent)
      modifies `paths, parent`childCapacity, parent`children, child`parent
      ensures Valid() && Now() == Attach(old(Now()), parent, child) && paths == AttachPaths(old(paths), parent, child)
      ensures Seen() == old(Seen())
    {
      AttachTraces(Now(), paths, parent, child);
      Hang(parent, child);
      Repath(AttachPaths(paths, parent, child));
    }

    /** Makes the root `child` the last child of `parent`, and lays `parent` out again. */
    method AddChild(parent: Widget, child: Widget)
      requires Valid() && parent in paths && child in paths
      requires child.parent == null && !Under(paths, child, parent)
      modifies `paths, parent`childCapacity, parent`children, child`parent, paths.Keys`box
      ensures Valid() && Now() == Attach(old(Now()), parent, child) && paths == AttachPaths(old(paths), parent, child)
      ensures LaidOut(Now(), paths, old(Seen()), Seen(), parent)
    {
      Join(parent, child);
      LayoutAll(parent);
    }
  }
}
