/** Red-black trees of run-queue entries as values: the shape of the tree that the
    pointers of `cfs_scheduler.c` spell out, and the zipper that the descent and
    the fixup loop walk along.

    Everything here is about values; `CfsScheduler` ties the pointers to it. */
module CfsTree {
  import opened Machine

  datatype Color = Red | Black

  /** A queued entity: its number in the order of arrival, and its key. */
  datatype Entry = Entry(arrival: nat, vruntime: nat)

  datatype Tree = Leaf | Branch(left: Tree, entry: Entry, color: Color, right: Tree)

  /** The way from a hole in the tree up to the root. */
  datatype Path =
    | Top
    | InLeft(entry: Entry, color: Color, right: Tree, up: Path)
    | InRight(left: Tree, entry: Entry, color: Color, up: Path)

  // ---------- Contents ----------

  ghost function Entries(t: Tree): set<Entry> {
    match t
    case Leaf => {}
    case Branch(l, e, _, r) => Entries(l) + {e} + Entries(r)
  }

  ghost function InOrder(t: Tree): seq<Entry> {
    match t
    case Leaf => []
    case Branch(l, e, _, r) => InOrder(l) + [e] + InOrder(r)
  }

  /** No entry occurs twice: the pointers form a tree, not a graph. */
  ghost predicate Distinct(t: Tree) {
    match t
    case Leaf => true
    case Branch(l, e, _, r) =>
      e !in Entries(l) && e !in Entries(r) && Entries(l) !! Entries(r) && Distinct(l) && Distinct(r)
  }

  ghost function PathEntries(p: Path): set<Entry> {
    match p
    case Top => {}
    case InLeft(e, _, r, up) => {e} + Entries(r) + PathEntries(up)
    case InRight(l, e, _, up) => Entries(l) + {e} + PathEntries(up)
  }

  ghost predicate DistinctPath(p: Path) {
    match p
    case Top => true
    case InLeft(e, _, r, up) =>
      e !in Entries(r) && e !in PathEntries(up) && Entries(r) !! PathEntries(up) && Distinct(r) && DistinctPath(up)
    case InRight(l, e, _, up) =>
      e !in Entries(l) && e !in PathEntries(up) && Entries(l) !! PathEntries(up) && Distinct(l) && DistinctPath(up)
  }

  ghost function Plug(p: Path, t: Tree): Tree
    decreases p
  {
    match p
    case Top => t
    case InLeft(e, c, r, up) => Plug(up, Branch(t, e, c, r))
    case InRight(l, e, c, up) => Plug(up, Branch(l, e, c, t))
  }

  /** The nodes that come before, and after, the hole in symmetric order. */
  ghost function Before(p: Path): seq<Entry> {
    match p
    case Top => []
    case InLeft(_, _, _, up) => Before(up)
    case InRight(l, e, _, up) => Before(up) + (InOrder(l) + [e])
  }

  ghost function After(p: Path): seq<Entry> {
    match p
    case Top => []
    case InLeft(e, _, r, up) => [e] + InOrder(r) + After(up)
    case InRight(_, _, _, up) => After(up)
  }

  lemma Regroup(b: seq<Entry>, l: seq<Entry>, e: Entry, r: seq<Entry>, a: seq<Entry>)
    ensures b + (l + [e] + r) + a == b + l + ([e] + r + a)
    ensures b + (l + [e] + r) + a == b + (l + [e]) + r + a
  {
  }

  /** The way to the hole and what hangs in it make up the whole sequence. */
  lemma {:induction false} PlugInOrder(p: Path, t: Tree)
    ensures InOrder(Plug(p, t)) == Before(p) + InOrder(t) + After(p)
    decreases p
  {
    match p
    case Top =>
    case InLeft(e, c, r, up) =>
      PlugInOrder(up, Branch(t, e, c, r));
      Regroup(Before(up), InOrder(t), e, InOrder(r), After(up));
    case InRight(l, e, c, up) =>
      PlugInOrder(up, Branch(l, e, c, t));
      Regroup(Before(up), InOrder(l), e, InOrder(t), After(up));
  }

  lemma {:induction false} PlugDistinct(p: Path, t: Tree)
    ensures Distinct(Plug(p, t)) <==> DistinctPath(p) && Distinct(t) && PathEntries(p) !! Entries(t)
    decreases p
  {
    match p
    case Top =>
    case InLeft(e, c, r, up) => PlugDistinct(up, Branch(t, e, c, r));
    case InRight(l, e, c, up) => PlugDistinct(up, Branch(l, e, c, t));
  }

  lemma {:induction false} InOrderEntries(t: Tree)
    ensures forall n :: n in InOrder(t) <==> n in Entries(t)
  {
    match t
    case Leaf =>
    case Branch(l, _, _, r) =>
      InOrderEntries(l);
      InOrderEntries(r);
  }

  lemma {:induction false} DistinctNoDup(t: Tree)
    requires Distinct(t)
    ensures NoDup(InOrder(t))
  {
    match t
    case Leaf =>
    case Branch(l, e, _, r) =>
      DistinctNoDup(l);
      DistinctNoDup(r);
      InOrderEntries(l);
      InOrderEntries(r);
      NoDupJoin(InOrder(l), e, InOrder(r));
  }

  lemma NoDupJoin(a: seq<Entry>, n: Entry, b: seq<Entry>)
    requires NoDup(a) && NoDup(b) && n !in a && n !in b
    requires forall x :: x in a ==> x !in b
    ensures NoDup(a + [n] + b)
  {
    var s, k := a + [n] + b, |a|;
    forall i, j | 0 <= i < j < |s| ensures s[i] != s[j] {
      if i < k {
        assert s[i] == a[i] && s[i] in a;
        if j > k { assert s[j] == b[j - k - 1] && s[j] in b; }
      } else {
        assert s[j] == b[j - k - 1] && s[j] in b;
        if i > k { assert s[i] == b[i - k - 1]; }
      }
    }
  }

  // ---------- Balance ----------

  ghost function Weight(c: Color): nat {
    if c == Black then 1 else 0
  }

  /** Black nodes on the leftmost way down, the null at its end not counted. */
  ghost function BlackHeight(t: Tree): nat {
    match t
    case Leaf => 0
    case Branch(l, _, c, _) => BlackHeight(l) + Weight(c)
  }

  /** All ways from the root to a null pass the same number of black nodes. */
  ghost predicate Balanced(t: Tree) {
    match t
    case Leaf => true
    case Branch(l, _, _, r) => Balanced(l) && Balanced(r) && BlackHeight(l) == BlackHeight(r)
  }

  ghost predicate IsRed(t: Tree) {
    t.Branch? && t.color == Red
  }

  /** No red node has a red child. */
  ghost predicate NoRedRed(t: Tree) {
    match t
    case Leaf => true
    case Branch(l, _, c, r) =>
      NoRedRed(l) && NoRedRed(r) && (c == Red ==> !IsRed(l) && !IsRed(r))
  }

  ghost predicate RedBlack(t: Tree) {
    Balanced(t) && NoRedRed(t) && !IsRed(t)
  }

  ghost predicate PathRed(p: Path) {
    !p.Top? && p.color == Red
  }

  /** `p` takes a hole of black height `h` to a balanced tree. */
  ghost predicate PathBalanced(p: Path, h: nat)
    decreases p
  {
    match p
    case Top => true
    case InLeft(_, c, s, up) => Balanced(s) && BlackHeight(s) == h && PathBalanced(up, h + Weight(c))
    case InRight(s, _, c, up) => Balanced(s) && BlackHeight(s) == h && PathBalanced(up, h + Weight(c))
  }

  ghost predicate PathNoRedRed(p: Path) {
    match p
    case Top => true
    case InLeft(_, c, s, up) => NoRedRed(s) && PathNoRedRed(up) && (c == Red ==> !IsRed(s) && !PathRed(up))
    case InRight(s, _, c, up) => NoRedRed(s) && PathNoRedRed(up) && (c == Red ==> !IsRed(s) && !PathRed(up))
  }

  /** The root end of the path is black. */
  ghost predicate PathRootBlack(p: Path) {
    p.Top? || (if p.up.Top? then p.color == Black else PathRootBlack(p.up))
  }

  lemma {:induction false} PlugBalanced(p: Path, t: Tree)
    ensures Balanced(Plug(p, t)) <==> Balanced(t) && PathBalanced(p, BlackHeight(t))
    decreases p
  {
    match p
    case Top =>
    case InLeft(e, c, r, up) => PlugBalanced(up, Branch(t, e, c, r));
    case InRight(l, e, c, up) => PlugBalanced(up, Branch(l, e, c, t));
  }

  lemma {:induction false} PlugNoRedRed(p: Path, t: Tree)
    ensures NoRedRed(Plug(p, t)) <==> NoRedRed(t) && PathNoRedRed(p) && !(PathRed(p) && IsRed(t))
    decreases p
  {
    match p
    case Top =>
    case InLeft(e, c, r, up) => PlugNoRedRed(up, Branch(t, e, c, r));
    case InRight(l, e, c, up) => PlugNoRedRed(up, Branch(l, e, c, t));
  }

  lemma {:induction false} PlugRoot(p: Path, t: Tree)
    requires t.Branch?
    ensures !IsRed(Plug(p, t)) <==> (if p.Top? then t.color == Black else PathRootBlack(p))
    ensures Plug(p, t).Branch?
    decreases p
  {
    match p
    case Top =>
    case InLeft(e, c, r, up) => PlugRoot(up, Branch(t, e, c, r));
    case InRight(l, e, c, up) => PlugRoot(up, Branch(l, e, c, t));
  }

  // ---------- Repair after an insertion ----------

  ghost function Depth(p: Path): nat {
    if p.Top? then 0 else 1 + Depth(p.up)
  }

  /** The tree above the hole, one level up. */
  ghost function Hang(p: Path, t: Tree): Tree
    requires !p.Top?
  {
    match p
    case InLeft(e, c, r, _) => Branch(t, e, c, r)
    case InRight(l, e, c, _) => Branch(l, e, c, t)
  }

  ghost function Sibling(p: Path): Tree
    requires !p.Top?
  {
    if p.InLeft? then p.right else p.left
  }

  ghost function Paint(t: Tree, c: Color): Tree {
    if t.Leaf? then t else t.(color := c)
  }

  /** The way up with its first node red and the tree beside it black at the root. */
  ghost function GrandparentPainted(p: Path): Path
    requires !p.Top?
  {
    if p.InLeft? then p.(color := Red, right := Paint(p.right, Black))
    else p.(color := Red, left := Paint(p.left, Black))
  }

  /** Parent black, grandparent red, uncle black. */
  ghost function Repainted(p: Path): Path
    requires !p.Top? && !p.up.Top?
  {
    p.(color := Black, up := GrandparentPainted(p.up))
  }

  /** A red subtree at the hole; its parent may be red too, and that is all that is wrong. */
  ghost predicate Fixable(p: Path, t: Tree) {
    && IsRed(t) && Balanced(t) && NoRedRed(t)
    && PathBalanced(p, BlackHeight(t)) && PathNoRedRed(p) && PathRootBlack(p)
  }

  /** What the hole and all that hangs around it hold, in symmetric order. */
  ghost function Flat(p: Path, t: Tree): seq<Entry> {
    Before(p) + InOrder(t) + After(p)
  }

  lemma FlatUp(p: Path, t: Tree)
    requires !p.Top?
    ensures Flat(p.up, Hang(p, t)) == Flat(p, t)
  {
  }

  lemma PaintKeeps(t: Tree, c: Color)
    ensures InOrder(Paint(t, c)) == InOrder(t)
    ensures Balanced(t) ==> Balanced(Paint(t, c))
    ensures NoRedRed(t) && c == Black ==> NoRedRed(Paint(t, c))
  {
  }

  lemma FlatRepainted(p: Path, t: Tree)
    requires !p.Top? && !p.up.Top?
    ensures Flat(Repainted(p), t) == Flat(p, t)
  {
    var u := Sibling(p.up);
    PaintKeeps(u, Black);
    var q := Repainted(p);
    assert Before(q.up) == Before(p.up) && After(q.up) == After(p.up);
  }

  /** What is known of the relatives of a red node under a red parent. */
  lemma Relatives(p: Path, t: Tree)
    requires Fixable(p, t) && PathRed(p)
    ensures !p.up.Top? && p.up.color == Black
    ensures var s, h := Sibling(p), BlackHeight(t);
            Balanced(s) && NoRedRed(s) && !IsRed(s) && BlackHeight(s) == h
    ensures var u, h := Sibling(p.up), BlackHeight(t);
            Balanced(u) && NoRedRed(u) && BlackHeight(u) == h && PathBalanced(p.up.up, h + 1)
    ensures PathNoRedRed(p.up.up) && PathRootBlack(p.up.up)
  {
    assert PathBalanced(p.up, BlackHeight(t));
    assert PathNoRedRed(p.up);
    assert PathRootBlack(p.up);
  }

  /** Red uncle: the trouble moves two levels up. */
  lemma RecolorStep(p: Path, t: Tree)
    requires Fixable(p, t) && PathRed(p) && (!p.up.Top? ==> IsRed(Sibling(p.up)))
    ensures !p.up.Top?
    ensures var q := Repainted(p);
            Fixable(p.up.up, Hang(q.up, Hang(q, t))) && Flat(p.up.up, Hang(q.up, Hang(q, t))) == Flat(p, t)
  {
    Relatives(p, t);
    var q := Repainted(p);
    FlatRepainted(p, t);
    FlatUp(q, t);
    FlatUp(q.up, Hang(q, t));
    PaintKeeps(Sibling(p.up), Black);
    var f := Hang(q, t);
    assert Balanced(f) && NoRedRed(f) && !IsRed(f) && BlackHeight(f) == BlackHeight(t) + 1;
    var u := Sibling(q.up);
    assert Balanced(u) && NoRedRed(u) && !IsRed(u) && BlackHeight(u) == BlackHeight(t) + 1;
  }

  ghost function RotatedLeft(t: Tree): Tree
    requires t.Branch? && t.right.Branch?
  {
    Branch(Branch(t.left, t.entry, t.color, t.right.left), t.right.entry, t.right.color, t.right.right)
  }

  ghost function RotatedRight(t: Tree): Tree
    requires t.Branch? && t.left.Branch?
  {
    Branch(t.left.left, t.left.entry, t.left.color, Branch(t.left.right, t.entry, t.color, t.right))
  }

  /** A rotation leaves the symmetric order as it was, and the one way undoes the other. */
  lemma RotateLeftKeepsOrder(t: Tree)
    requires t.Branch? && t.right.Branch?
    ensures InOrder(RotatedLeft(t)) == InOrder(t) && RotatedRight(RotatedLeft(t)) == t
  {
    var a, b, c := InOrder(t.left), InOrder(t.right.left), InOrder(t.right.right);
    Reassociate(a, t.entry, b, t.right.entry, c);
    assert InOrder(RotatedLeft(t).left) == a + [t.entry] + b;
    assert InOrder(t.right) == b + [t.right.entry] + c;
  }

  lemma Reassociate(a: seq<Entry>, x: Entry, b: seq<Entry>, y: Entry, c: seq<Entry>)
    ensures (a + [x] + b) + [y] + c == a + [x] + (b + [y] + c)
  {
  }

  lemma RotateRightKeepsOrder(t: Tree)
    requires t.Branch? && t.left.Branch?
    ensures InOrder(RotatedRight(t)) == InOrder(t) && RotatedLeft(RotatedRight(t)) == t
  {
    RotateLeftKeepsOrder(RotatedRight(t));
  }

  /** Inner grandchild: the rotation at the parent makes it an outer one. */
  lemma StraightenLeft(p: Path, t: Tree)
    requires Fixable(p, t) && p.InRight? && PathRed(p)
    ensures var s := RotatedLeft(Hang(p, t)); var q := InLeft(s.entry, s.color, s.right, p.up);
            Fixable(q, s.left) && Flat(q, s.left) == Flat(p, t)
  {
    var s := RotatedLeft(Hang(p, t));
    var q := InLeft(s.entry, s.color, s.right, p.up);
    StraightLeft(p, t);
    RotateLeftKeepsOrder(Hang(p, t));
    FlatUp(p, t);
    FlatUp(q, s.left);
    assert Hang(q, s.left) == s;
  }

  lemma StraightLeft(p: Path, t: Tree)
    requires Fixable(p, t) && p.InRight? && PathRed(p)
    ensures Fixable(InLeft(t.entry, t.color, t.right, p.up), Branch(p.left, p.entry, p.color, t.left))
  {
    Relatives(p, t);
  }

  lemma StraightenRight(p: Path, t: Tree)
    requires Fixable(p, t) && p.InLeft? && PathRed(p)
    ensures var s := RotatedRight(Hang(p, t)); var q := InRight(s.left, s.entry, s.color, p.up);
            Fixable(q, s.right) && Flat(q, s.right) == Flat(p, t)
  {
    var s := RotatedRight(Hang(p, t));
    var q := InRight(s.left, s.entry, s.color, p.up);
    StraightRight(p, t);
    RotateRightKeepsOrder(Hang(p, t));
    FlatUp(p, t);
    FlatUp(q, s.right);
    assert Hang(q, s.right) == s;
  }

  lemma StraightRight(p: Path, t: Tree)
    requires Fixable(p, t) && p.InLeft? && PathRed(p)
    ensures Fixable(InRight(t.left, t.entry, t.color, p.up), Branch(t.right, p.entry, p.color, p.right))
  {
    Relatives(p, t);
  }

  /** Outer grandchild, black uncle: the rotation at the grandparent ends the trouble. */
  lemma FinishLeft(p: Path, t: Tree)
    requires Fixable(p, t) && PathRed(p) && p.InLeft? && p.up.InLeft? && !IsRed(Sibling(p.up))
    ensures var q := Repainted(p); var s := RotatedRight(Hang(q.up, Hang(q, t)));
            var f := InLeft(s.entry, s.color, s.right, p.up.up);
            s.left == t && Fixable(f, t) && !PathRed(f) && Flat(f, t) == Flat(p, t)
  {
    Relatives(p, t);
    var q := Repainted(p);
    var g := Hang(q.up, Hang(q, t));
    var s := RotatedRight(g);
    assert s.right == Branch(p.right, p.up.entry, Red, p.up.right);
    assert Balanced(s.right) && NoRedRed(s.right) && BlackHeight(s.right) == BlackHeight(t);
    FlatRepainted(p, t);
    FlatUp(q, t);
    FlatUp(q.up, Hang(q, t));
    RotateRightKeepsOrder(g);
    FlatUp(InLeft(s.entry, s.color, s.right, p.up.up), t);
  }

  lemma FinishRight(p: Path, t: Tree)
    requires Fixable(p, t) && PathRed(p) && p.InRight? && p.up.InRight? && !IsRed(Sibling(p.up))
    ensures var q := Repainted(p); var s := RotatedLeft(Hang(q.up, Hang(q, t)));
            var f := InRight(s.left, s.entry, s.color, p.up.up);
            s.right == t && Fixable(f, t) && !PathRed(f) && Flat(f, t) == Flat(p, t)
  {
    Relatives(p, t);
    var q := Repainted(p);
    var g := Hang(q.up, Hang(q, t));
    var s := RotatedLeft(g);
    assert s.left == Branch(p.up.left, p.up.entry, Red, p.left);
    assert Balanced(s.left) && NoRedRed(s.left) && BlackHeight(s.left) == BlackHeight(t);
    FlatRepainted(p, t);
    FlatUp(q, t);
    FlatUp(q.up, Hang(q, t));
    RotateLeftKeepsOrder(g);
    FlatUp(InRight(s.left, s.entry, s.color, p.up.up), t);
  }

  /** With no red parent left, painting the root black makes a red-black tree. */
  lemma RepairDone(p: Path, t: Tree)
    requires Fixable(p, t) && !PathRed(p)
    ensures RedBlack(Paint(Plug(p, t), Black)) && InOrder(Paint(Plug(p, t), Black)) == Flat(p, t)
    ensures Plug(p, t).Branch?
  {
    PlugBalanced(p, t);
    PlugNoRedRed(p, t);
    PlugRoot(p, t);
    PlugInOrder(p, t);
  }

  /** A new red leaf in a red-black tree. */
  lemma NewLeafFixable(p: Path, e: Entry)
    requires RedBlack(Plug(p, Leaf))
    ensures Fixable(p, Branch(Leaf, e, Red, Leaf))
  {
    PlugBalanced(p, Leaf);
    PlugNoRedRed(p, Leaf);
    if !p.Top? {
      PlugRoot(p.up, Hang(p, Leaf));
    }
  }

  // ---------- Height ----------

  ghost function Height(t: Tree): nat {
    match t
    case Leaf => 0
    case Branch(l, _, _, r) => 1 + if Height(l) < Height(r) then Height(r) else Height(l)
  }

  ghost function Pow2(n: nat): nat {
    if n == 0 then 1 else 2 * Pow2(n - 1)
  }

  lemma {:induction false} Pow2Monotone(a: nat, b: nat)
    requires a <= b
    ensures Pow2(a) <= Pow2(b)
    decreases b
  {
    if a < b { Pow2Monotone(a, b - 1); }
  }

  /** The largest `k` with 2^k <= n. */
  ghost function Log2(n: nat): (k: nat)
    requires 1 <= n
    ensures Pow2(k) <= n < Pow2(k + 1)
  {
    if n == 1 then 0 else 1 + Log2(n / 2)
  }

  lemma {:induction false} BlackHeightBounds(t: Tree)
    requires Balanced(t) && NoRedRed(t)
    ensures Pow2(BlackHeight(t)) <= |InOrder(t)| + 1
    ensures Height(t) <= 2 * BlackHeight(t) + (if IsRed(t) then 1 else 0)
  {
    match t
    case Leaf =>
    case Branch(l, _, _, r) =>
      BlackHeightBounds(l);
      BlackHeightBounds(r);
  }

  /** A red-black tree of n nodes is at most 2*log2(n + 1) high. */
  lemma HeightIsLogarithmic(t: Tree)
    requires RedBlack(t)
    ensures Height(t) <= 2 * Log2(|InOrder(t)| + 1)
  {
    BlackHeightBounds(t);
    var n := |InOrder(t)| + 1;
    if BlackHeight(t) > Log2(n) { Pow2Monotone(Log2(n) + 1, BlackHeight(t)); }
  }

  // ---------- Order ----------

  ghost predicate Sorted(s: seq<Entry>) {
    forall i, j :: 0 <= i < j < |s| ==> s[i].vruntime <= s[j].vruntime
  }

  /** Sorted insertion behind all equal keys. */
  ghost function InsertSorted(s: seq<Entry>, z: Entry): seq<Entry> {
    if s == [] || z.vruntime < s[0].vruntime then [z] + s
    else [s[0]] + InsertSorted(s[1..], z)
  }

  lemma {:induction false} InsertSortedSplit(b: seq<Entry>, a: seq<Entry>, z: Entry)
    requires forall n :: n in b ==> n.vruntime <= z.vruntime
    requires forall n :: n in a ==> z.vruntime < n.vruntime
    ensures InsertSorted(b + a, z) == b + [z] + a
    decreases b
  {
    if b == [] {
      assert b + a == a;
    } else {
      InsertSortedSplit(b[1..], a, z);
      assert b[0] in b && (b + a)[0] == b[0] && (b + a)[1..] == b[1..] + a;
      assert [b[0]] + (b[1..] + [z] + a) == b + [z] + a;
    }
  }

  /** The queue after the nodes `arrivals` came in, in that order. */
  ghost function QueueOf(arrivals: seq<Entry>): seq<Entry> {
    if arrivals == [] then []
    else InsertSorted(QueueOf(arrivals[..|arrivals| - 1]), arrivals[|arrivals| - 1])
  }

  /** All keys before the hole are at most `v`, all keys behind it above `v`. */
  ghost predicate HoleFor(p: Path, v: nat) {
    && (forall e :: e in Before(p) ==> e.vruntime <= v)
    && (forall e :: e in After(p) ==> v < e.vruntime)
  }

  /** One step of the descent: the side chosen keeps the hole right for the key. */
  lemma DescentStep(p: Path, t: Tree, v: nat)
    requires t.Branch? && Sorted(InOrder(Plug(p, t))) && HoleFor(p, v)
    ensures v < t.entry.vruntime ==> HoleFor(InLeft(t.entry, t.color, t.right, p), v)
    ensures v >= t.entry.vruntime ==> HoleFor(InRight(t.left, t.entry, t.color, p), v)
  {
    PlugInOrder(p, t);
    SortedAround(Before(p), InOrder(t.left), t.entry, InOrder(t.right), After(p));
  }

  lemma SortedAround(b: seq<Entry>, l: seq<Entry>, x: Entry, r: seq<Entry>, a: seq<Entry>)
    requires Sorted(b + (l + [x] + r) + a)
    ensures forall e :: e in l ==> e.vruntime <= x.vruntime
    ensures forall e :: e in r ==> x.vruntime <= e.vruntime
  {
    var s := b + (l + [x] + r) + a;
    var k := |b| + |l|;
    assert s[k] == x;
    forall e | e in l ensures e.vruntime <= x.vruntime {
      var i :| 0 <= i < |l| && l[i] == e;
      assert s[|b| + i] == e;
    }
    forall e | e in r ensures x.vruntime <= e.vruntime {
      var i :| 0 <= i < |r| && r[i] == e;
      assert s[k + 1 + i] == e;
    }
  }

  /** The new leaf at the hole is a sorted insertion. */
  lemma NewLeafInOrder(p: Path, e: Entry)
    requires HoleFor(p, e.vruntime)
    ensures Flat(p, Branch(Leaf, e, Red, Leaf)) == InsertSorted(InOrder(Plug(p, Leaf)), e)
  {
    PlugInOrder(p, Leaf);
    assert Before(p) + [] + After(p) == Before(p) + After(p);
    InsertSortedSplit(Before(p), After(p), e);
    assert InOrder(Branch(Leaf, e, Red, Leaf)) == [e];
  }

  /** On which side of its parent the leaf hangs, and which entry is first after it. */
  lemma NewLeafFirst(p: Path, e: Entry)
    requires HoleFor(p, e.vruntime) && Distinct(Plug(p, Leaf)) && !p.Top?
    ensures p.InLeft? <==> e.vruntime < p.entry.vruntime
    ensures var s := InOrder(Plug(p, Leaf));
            s != [] && (Before(p) + [e] + After(p))[0] == if p.InLeft? && s[0] == p.entry then e else s[0]
  {
    PlugInOrder(p, Leaf);
    var b, a := Before(p), After(p);
    assert b + [] + a == b + a;
    if p.InLeft? {
      assert a[0] == p.entry && p.entry in a && (b + a)[|b|] == p.entry;
      DistinctNoDup(Plug(p, Leaf));
    } else {
      assert b[|b| - 1] == p.entry && p.entry in b;
    }
  }

  lemma QueueOfSnoc(a: seq<Entry>, z: Entry)
    ensures QueueOf(a + [z]) == InsertSorted(QueueOf(a), z)
  {
    assert (a + [z])[..|a|] == a;
  }

  /** `q` with `z` put in at position `c`. */
  ghost function Splice(q: seq<Entry>, c: nat, z: Entry): (r: seq<Entry>)
    requires c <= |q|
    ensures |r| == |q| + 1
    ensures forall i :: 0 <= i < |r| ==> r[i] == if i < c then q[i] else if i == c then z else q[i - 1]
  {
    q[..c] + [z] + q[c..]
  }

  /** Position `c` of the sorted `q` is behind every key not above that of `z`. */
  ghost predicate InsertPoint(q: seq<Entry>, z: Entry, c: nat) {
    c <= |q| && forall i :: 0 <= i < |q| ==> (i < c <==> q[i].vruntime <= z.vruntime)
  }

  lemma {:induction false} FindInsertPoint(q: seq<Entry>, z: Entry) returns (c: nat)
    requires Sorted(q)
    ensures InsertPoint(q, z, c) && InsertSorted(q, z) == Splice(q, c, z)
  {
    c := 0;
    while c < |q| && q[c].vruntime <= z.vruntime
      invariant c <= |q|
      invariant forall i :: 0 <= i < c ==> q[i].vruntime <= z.vruntime
    {
      c := c + 1;
    }
    InsertSortedSplit(q[..c], q[c..], z);
    assert q[..c] + q[c..] == q;
  }

  lemma SpliceContents(q: seq<Entry>, c: nat, z: Entry)
    requires c <= |q|
    ensures multiset(Splice(q, c, z)) == multiset(q) + multiset{z}
  {
    assert q == q[..c] + q[c..];
  }

  lemma InsertSortedKeeps(q: seq<Entry>, z: Entry)
    requires Sorted(q)
    ensures Sorted(InsertSorted(q, z))
    ensures multiset(InsertSorted(q, z)) == multiset(q) + multiset{z}
  {
    var c := FindInsertPoint(q, z);
    SpliceContents(q, c, z);
  }

  /** Whatever the order of arrival, the queue is sorted and holds the arrivals. */
  lemma {:induction false} QueueOfSorted(arrivals: seq<Entry>)
    ensures Sorted(QueueOf(arrivals))
    ensures multiset(QueueOf(arrivals)) == multiset(arrivals)
  {
    if arrivals != [] {
      var k := |arrivals| - 1;
      QueueOfSorted(arrivals[..k]);
      InsertSortedKeeps(QueueOf(arrivals[..k]), arrivals[k]);
      assert arrivals == arrivals[..k] + [arrivals[k]];
    }
  }

  /** `arrivals[k]` is the first to have come of all those with the least key. */
  ghost predicate EarliestMinimum(arrivals: seq<Entry>, k: nat) {
    && k < |arrivals|
    && (forall i :: 0 <= i < |arrivals| ==> arrivals[k].vruntime <= arrivals[i].vruntime)
    && (forall i :: 0 <= i < k ==> arrivals[k].vruntime < arrivals[i].vruntime)
  }

  /** The head of the queue is the earliest arrival of least virtual runtime. */
  lemma {:induction false} HeadIsEarliestMinimum(arrivals: seq<Entry>) returns (k: nat)
    requires arrivals != []
    ensures QueueOf(arrivals) != []
    ensures EarliestMinimum(arrivals, k)
    ensures QueueOf(arrivals)[0] == arrivals[k]
  {
    var m := |arrivals| - 1;
    var front, z := arrivals[..m], arrivals[m];
    k := m;
    if front != [] {
      k := HeadIsEarliestMinimum(front);
      k := EarliestMinimumStep(front, z, k);
      assert arrivals == front + [z];
    }
  }

  lemma EarliestMinimumStep(front: seq<Entry>, z: Entry, k: nat) returns (k': nat)
    requires EarliestMinimum(front, k)
    ensures EarliestMinimum(front + [z], k')
    ensures (front + [z])[k'] == if z.vruntime < front[k].vruntime then z else front[k]
  {
    k' := if z.vruntime < front[k].vruntime then |front| else k;
  }

  /** `x` stands before `y` in `s`. */
  ghost predicate Precedes(s: seq<Entry>, x: Entry, y: Entry) {
    exists a, b :: 0 <= a < b < |s| && s[a] == x && s[b] == y
  }

  /** Of two entries in key order, the one that came first is served first. */
  lemma {:induction false} QueueOfStable(arrivals: seq<Entry>, i: nat, j: nat)
    requires i < j < |arrivals|
    requires arrivals[i].vruntime <= arrivals[j].vruntime
    ensures Precedes(QueueOf(arrivals), arrivals[i], arrivals[j])
    decreases |arrivals|
  {
    var m := |arrivals| - 1;
    var front, z, x, y := arrivals[..m], arrivals[m], arrivals[i], arrivals[j];
    assert arrivals == front + [z] && front[i] == x;
    if j < m {
      QueueOfStable(front, i, j);
      assert Precedes(QueueOf(front), x, y);
    }
    StableArrival(front, z, x, y);
  }

  lemma StableArrival(front: seq<Entry>, z: Entry, x: Entry, y: Entry)
    requires x in front
    requires Precedes(QueueOf(front), x, y) || (y == z && x.vruntime <= z.vruntime)
    ensures Precedes(QueueOf(front + [z]), x, y)
  {
    QueueOfSorted(front);
    QueueOfSnoc(front, z);
    assert x in multiset(front);
    StableStep(QueueOf(front), z, x, y);
  }

  lemma StableStep(q: seq<Entry>, z: Entry, x: Entry, y: Entry)
    requires Sorted(q)
    requires Precedes(q, x, y) || (y == z && x in multiset(q) && x.vruntime <= z.vruntime)
    ensures Precedes(InsertSorted(q, z), x, y)
  {
    var c := FindInsertPoint(q, z);
    if Precedes(q, x, y) {
      SpliceKeepsPrecedence(q, c, z, x, y);
    } else {
      SpliceBehind(q, c, z, x);
    }
  }

  lemma SpliceKeepsPrecedence(q: seq<Entry>, c: nat, z: Entry, x: Entry, y: Entry)
    requires c <= |q| && Precedes(q, x, y)
    ensures Precedes(Splice(q, c, z), x, y)
  {
    var a, b :| 0 <= a < b < |q| && q[a] == x && q[b] == y;
    var s := Splice(q, c, z);
    var a', b' := if a < c then a else a + 1, if b < c then b else b + 1;
    assert s[a'] == x && s[b'] == y;
  }

  lemma SpliceBehind(q: seq<Entry>, c: nat, z: Entry, x: Entry)
    requires x in q && x.vruntime <= z.vruntime && InsertPoint(q, z, c)
    ensures Precedes(Splice(q, c, z), x, z)
  {
    var a :| 0 <= a < |q| && q[a] == x;
    var s := Splice(q, c, z);
    assert s[a] == x && s[c] == z;
  }
}
