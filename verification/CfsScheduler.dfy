/** The run queue of `cfs_scheduler.c`: nodes linked by pointers, rotated and
    recoloured in place. */
module CfsScheduler {
  import opened Machine
  import opened CfsTree

  /** A node of the queue. Task and key are written once, when the node is made. */
  class RqNode {
    const task: Task
    ghost const entry: Entry
    const vruntime: nat
    var left: RqNode?
    var right: RqNode?
    var parent: RqNode?
    var color: Color

    constructor (task: Task, vruntime: nat, ghost arrival: nat)
      ensures this.task == task && this.vruntime == vruntime && entry == Entry(arrival, vruntime)
      ensures left == null && right == null && parent == null && color == Red
    {
      this.task, this.vruntime, entry := task, vruntime, Entry(arrival, vruntime);
      left, right, parent, color := null, null, null, Red;
    }
  }

  /** What a task carries in `sched_data`. */
  datatype TaskInfo = TaskInfo(vruntime: nat, weight: nat, staticPrio: int, execStart: nat)

  class Task {
    var info: Option<TaskInfo>

    constructor ()
      ensures info == None
    {
      info := None;
    }
  }

  const MIN_NICE := -20
  const MAX_NICE := 19

  /** The weights of the nice values, from the lowest up. */
  function WeightAt(i: nat): nat
    requires i < 40
  {
    match i
    case 0 => 88761 case 1 => 71755 case 2 => 56483 case 3 => 46273 case 4 => 36291
    case 5 => 29154 case 6 => 23254 case 7 => 18705 case 8 => 14949 case 9 => 11916
    case 10 => 9548 case 11 => 7620 case 12 => 6100 case 13 => 4904 case 14 => 3906
    case 15 => 3121 case 16 => 2501 case 17 => 1991 case 18 => 1586 case 19 => 1277
    case 20 => 1024 case 21 => 820 case 22 => 655 case 23 => 526 case 24 => 423
    case 25 => 335 case 26 => 272 case 27 => 215 case 28 => 172 case 29 => 137
    case 30 => 110 case 31 => 87 case 32 => 70 case 33 => 56 case 34 => 45
    case 35 => 36 case 36 => 29 case 37 => 23 case 38 => 18 case _ => 15
  }

  function PrioToWeight(nice: int): nat {
    var n := if nice < MIN_NICE then MIN_NICE else if nice > MAX_NICE then MAX_NICE else nice;
    WeightAt(n - MIN_NICE)
  }

  /** A lower nice value weighs strictly more, as far as the scale goes; what lies beyond it weighs as its end. */
  lemma WeightsDecrease(a: int, b: int)
    requires a < b
    ensures PrioToWeight(a) >= PrioToWeight(b)
    ensures PrioToWeight(a) == PrioToWeight(b) <==> b <= MIN_NICE || MAX_NICE <= a
    decreases b - a
  {
    if a + 1 < b { WeightsDecrease(a + 1, b); }
  }

  /** The node of an entry. */
  ghost predicate Has(nodes: seq<RqNode>, e: Entry) {
    e.arrival < |nodes| && nodes[e.arrival].entry == e
  }

  /** Node `i` is the node of the entry that arrived as number `i`. */
  ghost predicate Numbered(nodes: seq<RqNode>) {
    forall i :: 0 <= i < |nodes| ==> nodes[i].entry == Entry(i, nodes[i].vruntime)
  }

  ghost function EntriesOf(nodes: seq<RqNode>): (a: seq<Entry>)
    ensures |a| == |nodes| && forall i :: 0 <= i < |a| ==> a[i] == nodes[i].entry
  {
    seq(|nodes|, i requires 0 <= i < |nodes| => nodes[i].entry)
  }

  /** One more arrival. */
  lemma QueueGrown(nodes: seq<RqNode>, z: RqNode)
    ensures EntriesOf(nodes + [z]) == EntriesOf(nodes) + [z.entry]
    ensures QueueOf(EntriesOf(nodes + [z])) == InsertSorted(QueueOf(EntriesOf(nodes)), z.entry)
  {
    assert EntriesOf(nodes + [z]) == EntriesOf(nodes) + [z.entry];
    QueueOfSnoc(EntriesOf(nodes), z.entry);
  }

  /** What a node holds at some moment. */
  datatype Links = Links(left: RqNode?, right: RqNode?, parent: RqNode?, color: Color)

  ghost function Snapshot(nodes: seq<RqNode>): (m: seq<Links>)
    reads nodes
    ensures |m| == |nodes|
    ensures forall i :: 0 <= i < |m| ==> m[i] == Links(nodes[i].left, nodes[i].right, nodes[i].parent, nodes[i].color)
  {
    seq(|nodes|, i requires 0 <= i < |nodes| reads nodes =>
      Links(nodes[i].left, nodes[i].right, nodes[i].parent, nodes[i].color))
  }

  /** In the memory `m`, the pointers from `n` down spell out `t`, with `p` above. */
  ghost predicate Matches(nodes: seq<RqNode>, m: seq<Links>, t: Tree, n: RqNode?, p: RqNode?)
    requires |m| == |nodes|
  {
    match t
    case Leaf => n == null
    case Branch(l, e, c, r) =>
      Has(nodes, e) && n == nodes[e.arrival] && m[e.arrival].color == c && m[e.arrival].parent == p
      && Matches(nodes, m, l, m[e.arrival].left, n) && Matches(nodes, m, r, m[e.arrival].right, n)
  }

  ghost function NodeOf(nodes: seq<RqNode>, e: Entry): RqNode? {
    if Has(nodes, e) then nodes[e.arrival] else null
  }

  ghost function HoleParent(nodes: seq<RqNode>, p: Path): RqNode? {
    if p.Top? then null else NodeOf(nodes, p.entry)
  }

  /** In the memory `m`, the pointers from the hole, held by `n`, up to the root spell out `p`. */
  ghost predicate MatchesPath(nodes: seq<RqNode>, m: seq<Links>, p: Path, n: RqNode?, root: RqNode?)
    requires |m| == |nodes|
  {
    match p
    case Top => root == n
    case InLeft(e, c, r, up) =>
      Has(nodes, e) && var q := nodes[e.arrival];
      m[e.arrival].left == n && m[e.arrival].color == c && m[e.arrival].parent == HoleParent(nodes, up)
      && Matches(nodes, m, r, m[e.arrival].right, q) && MatchesPath(nodes, m, up, q, root)
    case InRight(l, e, c, up) =>
      Has(nodes, e) && var q := nodes[e.arrival];
      m[e.arrival].right == n && m[e.arrival].color == c && m[e.arrival].parent == HoleParent(nodes, up)
      && Matches(nodes, m, l, m[e.arrival].left, q) && MatchesPath(nodes, m, up, q, root)
  }

  /** The memories differ at most at the nodes of `d`. */
  ghost predicate ChangedOnly(nodes: seq<RqNode>, m: seq<Links>, m': seq<Links>, d: set<Entry>) {
    |m| == |m'| == |nodes| && forall i :: 0 <= i < |m| && nodes[i].entry !in d ==> m'[i] == m[i]
  }

  lemma {:induction false} MatchesFrame(nodes: seq<RqNode>, m: seq<Links>, m': seq<Links>, d: set<Entry>,
                                        t: Tree, n: RqNode?, p: RqNode?)
    requires ChangedOnly(nodes, m, m', d) && d !! Entries(t) && Matches(nodes, m, t, n, p)
    ensures Matches(nodes, m', t, n, p)
  {
    if t.Branch? {
      var k := t.entry.arrival;
      MatchesFrame(nodes, m, m', d, t.left, m[k].left, n);
      MatchesFrame(nodes, m, m', d, t.right, m[k].right, n);
    }
  }

  lemma {:induction false} PathFrame(nodes: seq<RqNode>, m: seq<Links>, m': seq<Links>, d: set<Entry>,
                                     p: Path, n: RqNode?, root: RqNode?)
    requires ChangedOnly(nodes, m, m', d) && d !! PathEntries(p) && MatchesPath(nodes, m, p, n, root)
    ensures MatchesPath(nodes, m', p, n, root)
  {
    match p
    case Top =>
    case InLeft(e, _, r, up) =>
      var q := nodes[e.arrival];
      MatchesFrame(nodes, m, m', d, r, m[e.arrival].right, q);
      PathFrame(nodes, m, m', d, up, q, root);
    case InRight(l, e, _, up) =>
      var q := nodes[e.arrival];
      MatchesFrame(nodes, m, m', d, l, m[e.arrival].left, q);
      PathFrame(nodes, m, m', d, up, q, root);
  }

  lemma {:induction false} PlugMatches(nodes: seq<RqNode>, m: seq<Links>, p: Path, t: Tree, n: RqNode?, root: RqNode?)
    requires |m| == |nodes|
    requires MatchesPath(nodes, m, p, n, root) && Matches(nodes, m, t, n, HoleParent(nodes, p))
    ensures Matches(nodes, m, Plug(p, t), root, null)
    decreases p
  {
    match p
    case Top =>
    case InLeft(e, c, r, up) =>
      PlugMatches(nodes, m, up, Branch(t, e, c, r), nodes[e.arrival], root);
    case InRight(l, e, c, up) =>
      PlugMatches(nodes, m, up, Branch(l, e, c, t), nodes[e.arrival], root);
  }

  /** A new parent pointer at the root of `t` is all that changed in it. */
  lemma Reparent(nodes: seq<RqNode>, m: seq<Links>, m': seq<Links>, d: set<Entry>,
                 t: Tree, n: RqNode?, p: RqNode?, p': RqNode?)
    requires ChangedOnly(nodes, m, m', d) && Matches(nodes, m, t, n, p) && Distinct(t)
    requires t.Branch? ==> d !! Entries(t.left) && d !! Entries(t.right)
    requires t.Branch? ==> m'[t.entry.arrival] == m[t.entry.arrival].(parent := p')
    ensures Matches(nodes, m', t, n, p')
  {
    if t.Branch? {
      var k := t.entry.arrival;
      MatchesFrame(nodes, m, m', d, t.left, m[k].left, n);
      MatchesFrame(nodes, m, m', d, t.right, m[k].right, n);
    }
  }

  /** A new child at the hole is all that changed along `p`. */
  lemma Rehang(nodes: seq<RqNode>, m: seq<Links>, m': seq<Links>, d: set<Entry>,
               p: Path, n: RqNode?, root: RqNode?, n': RqNode?, root': RqNode?)
    requires ChangedOnly(nodes, m, m', d) && MatchesPath(nodes, m, p, n, root) && DistinctPath(p)
    requires p.Top? ==> root' == n'
    requires !p.Top? ==> root' == root && d !! PathEntries(p.up)
    requires p.InLeft? ==> d !! Entries(p.right) && m'[p.entry.arrival] == m[p.entry.arrival].(left := n')
    requires p.InRight? ==> d !! Entries(p.left) && m'[p.entry.arrival] == m[p.entry.arrival].(right := n')
    ensures MatchesPath(nodes, m', p, n', root')
  {
    match p
    case Top =>
    case InLeft(e, _, r, up) =>
      MatchesFrame(nodes, m, m', d, r, m[e.arrival].right, nodes[e.arrival]);
      PathFrame(nodes, m, m', d, up, nodes[e.arrival], root);
    case InRight(l, e, _, up) =>
      MatchesFrame(nodes, m, m', d, l, m[e.arrival].left, nodes[e.arrival]);
      PathFrame(nodes, m, m', d, up, nodes[e.arrival], root);
  }

  /** The memory holds the tree `t` at `n`, under the way `p` to the root. */
  ghost predicate Focus(nodes: seq<RqNode>, m: seq<Links>, p: Path, t: Tree, n: RqNode?, root: RqNode?) {
    && |m| == |nodes|
    && MatchesPath(nodes, m, p, n, root) && Matches(nodes, m, t, n, HoleParent(nodes, p))
    && DistinctPath(p) && Distinct(t) && PathEntries(p) !! Entries(t)
  }

  // ---------- Accounting ----------

  ghost predicate Queued(nodes: seq<RqNode>, task: Task) {
    exists i :: 0 <= i < |nodes| && nodes[i].task == task
  }

  ghost function Tasks(nodes: seq<RqNode>): (s: seq<Task>)
    ensures |s| == |nodes| && forall i :: 0 <= i < |s| ==> s[i] == nodes[i].task
  {
    seq(|nodes|, i requires 0 <= i < |nodes| => nodes[i].task)
  }

  ghost function Infos(tasks: seq<Task>): (s: seq<Option<TaskInfo>>)
    reads tasks
    ensures |s| == |tasks| && forall i :: 0 <= i < |s| ==> s[i] == tasks[i].info
  {
    seq(|tasks|, i requires 0 <= i < |tasks| reads tasks => tasks[i].info)
  }

  ghost function WeightOf(info: Option<TaskInfo>): nat {
    if info.Some? then info.value.weight else 0
  }

  /** How many tasks are queued, and what they weigh: each counts once, however many nodes it has. */
  ghost function TaskCount(nodes: seq<RqNode>): nat {
    if nodes == [] then 0
    else
      var k := |nodes| - 1;
      TaskCount(nodes[..k]) + if Queued(nodes[..k], nodes[k].task) then 0 else 1
  }

  ghost function TotalWeight(nodes: seq<RqNode>, infos: seq<Option<TaskInfo>>): nat
    requires |infos| == |nodes|
  {
    if nodes == [] then 0
    else
      var k := |nodes| - 1;
      TotalWeight(nodes[..k], infos[..k]) + if Queued(nodes[..k], nodes[k].task) then 0 else WeightOf(infos[k])
  }

  ghost function TaskSet(nodes: seq<RqNode>): set<Task> {
    set i | 0 <= i < |nodes| :: nodes[i].task
  }

  lemma {:induction false} TaskCountIs(nodes: seq<RqNode>)
    ensures TaskCount(nodes) == |TaskSet(nodes)|
  {
    if nodes == [] {
      assert TaskSet(nodes) == {};
    } else {
      var k := |nodes| - 1;
      TaskCountIs(nodes[..k]);
      QueuedLast(nodes);
      forall task: Task ensures task in TaskSet(nodes) <==> task in TaskSet(nodes[..k]) || task == nodes[k].task {
        assert task in TaskSet(nodes) <==> Queued(nodes, task);
      }
      assert TaskSet(nodes) == TaskSet(nodes[..k]) + {nodes[k].task};
      assert nodes[k].task in TaskSet(nodes[..k]) <==> Queued(nodes[..k], nodes[k].task);
    }
  }

  lemma QueuedLast(nodes: seq<RqNode>)
    requires nodes != []
    ensures var k := |nodes| - 1; forall task ::
              Queued(nodes, task) <==> Queued(nodes[..k], task) || task == nodes[k].task
  {
    var k := |nodes| - 1;
    forall task: Task | Queued(nodes[..k], task) ensures Queued(nodes, task) {
      var i :| 0 <= i < k && nodes[..k][i].task == task;
      assert nodes[i].task == task;
    }
    forall task: Task | Queued(nodes, task) ensures Queued(nodes[..k], task) || task == nodes[k].task {
      var i :| 0 <= i < |nodes| && nodes[i].task == task;
      assert i < k ==> nodes[..k][i].task == task;
    }
  }

  /** The load with one more weight on it. */
  function Loaded(load: nat, weight: nat): nat {
    Wrap64(load + weight)
  }

  lemma {:induction false} SameWeights(nodes: seq<RqNode>, infos: seq<Option<TaskInfo>>, infos': seq<Option<TaskInfo>>)
    requires |infos| == |infos'| == |nodes|
    requires forall i :: 0 <= i < |nodes| ==> WeightOf(infos'[i]) == WeightOf(infos[i])
    ensures TotalWeight(nodes, infos') == TotalWeight(nodes, infos)
  {
    if nodes != [] {
      var k := |nodes| - 1;
      SameWeights(nodes[..k], infos[..k], infos'[..k]);
    }
  }

  /** One task has another record: the sum changes by the difference if it is queued. */
  lemma {:induction false} TotalWeightUpdate(nodes: seq<RqNode>, infos: seq<Option<TaskInfo>>,
      infos': seq<Option<TaskInfo>>, task: Task, before: TaskInfo, after: TaskInfo)
    requires |infos'| == |nodes| && OnlyChanged(nodes, infos, infos', task)
    requires forall i :: 0 <= i < |nodes| && nodes[i].task == task ==>
        infos[i] == Some(before) && infos'[i] == Some(after)
    ensures TotalWeight(nodes, infos') ==
            TotalWeight(nodes, infos) + if Queued(nodes, task) then after.weight - before.weight else 0
  {
    if nodes != [] {
      var k := |nodes| - 1;
      TotalWeightUpdate(nodes[..k], infos[..k], infos'[..k], task, before, after);
      QueuedLast(nodes);
    }
  }

  /** The load is that of the queued tasks. */
  ghost predicate LoadRight(nodes: seq<RqNode>, infos: seq<Option<TaskInfo>>, loadWeight: nat)
    requires |infos| == |nodes|
  {
    loadWeight == Wrap64(TotalWeight(nodes, infos))
  }

  /** The counters are those of the queued tasks, and the keys those of their records. */
  ghost predicate Books(nodes: seq<RqNode>, infos: seq<Option<TaskInfo>>, nrRunning: nat, loadWeight: nat) {
    && |infos| == |nodes|
    && nrRunning == Wrap32(TaskCount(nodes))
    && LoadRight(nodes, infos, loadWeight)
    && (forall i :: 0 <= i < |nodes| ==> infos[i].Some? && infos[i].value.vruntime == nodes[i].vruntime)
  }

  /** The records `infos'` are `infos` but for that of `task`. */
  ghost predicate OnlyChanged(nodes: seq<RqNode>, infos: seq<Option<TaskInfo>>, infos': seq<Option<TaskInfo>>,
      task: Task) {
    |infos| == |nodes| <= |infos'| && forall i :: 0 <= i < |nodes| && nodes[i].task != task ==> infos'[i] == infos[i]
  }

  /** The books are about weights and keys only. */
  lemma SameBooks(nodes: seq<RqNode>, infos: seq<Option<TaskInfo>>, infos': seq<Option<TaskInfo>>, nr: nat, load: nat)
    requires |infos'| == |infos| == |nodes|
    requires forall i :: 0 <= i < |nodes| ==>
        && (infos'[i].Some? <==> infos[i].Some?)
        && (infos[i].Some? ==> infos'[i].value == infos[i].value.(execStart := infos'[i].value.execStart))
    ensures Books(nodes, infos', nr, load) <==> Books(nodes, infos, nr, load)
  {
    SameWeights(nodes, infos, infos');
  }

  lemma QueuedBefore(nodes: seq<RqNode>, n: RqNode, infos: seq<Option<TaskInfo>>)
    requires |infos| == |nodes| + 1
    ensures var again := Queued(nodes, n.task);
            && TaskCount(nodes + [n]) == TaskCount(nodes) + (if again then 0 else 1)
            && TotalWeight(nodes + [n], infos) ==
                 TotalWeight(nodes, infos[..|nodes|]) + if again then 0 else WeightOf(infos[|nodes|])
  {
    assert (nodes + [n])[..|nodes|] == nodes;
  }

  lemma WrappedTwice(total: nat, weight: nat)
    ensures Loaded(Wrap64(total), weight) == Wrap64(total + weight)
  {
  }

  /** A weight that is neither 0 nor wraps around to it makes a difference. */
  lemma LoadDiffers(total: nat, weight: nat)
    requires 0 < weight < 0x1_0000_0000_0000_0000
    ensures Wrap64(total + weight) != Wrap64(total)
  {
  }

  lemma CountDiffers(count: nat)
    ensures Wrap32(Wrap32(count) + 1) == Wrap32(count + 1) != Wrap32(count)
  {
  }

  /** One more node in the queue: the books stay right exactly if its task was not queued before, and so does the
      load alone, if the task weighs anything. */
  lemma BooksAfterEnqueue(nodes: seq<RqNode>, infos: seq<Option<TaskInfo>>, nr: nat, load: nat,
                          n: RqNode, nodes': seq<RqNode>, infos': seq<Option<TaskInfo>>, nr': nat, load': nat,
                          record: TaskInfo)
    requires Books(nodes, infos, nr, load)
    requires |infos'| == |nodes| + 1 && OnlyChanged(nodes, infos, infos', n.task)
    requires infos'[|nodes|] == Some(record) && record.vruntime == n.vruntime
    requires forall i :: 0 <= i < |nodes| && nodes[i].task == n.task ==>
        infos'[i] == Some(record) && WeightOf(infos[i]) == record.weight
    requires nodes' == nodes + [n] && nr' == Wrap32(nr + 1) && load' == Loaded(load, record.weight)
    ensures Books(nodes', infos', nr', load') <==> !Queued(nodes, n.task)
    ensures 0 < record.weight < 0x1_0000_0000_0000_0000 ==>
              (LoadRight(nodes', infos', load') <==> !Queued(nodes, n.task))
  {
    var total := TotalWeight(nodes, infos);
    QueuedBefore(nodes, n, infos');
    SameWeights(nodes, infos, infos'[..|nodes|]);
    CountDiffers(TaskCount(nodes));
    WrappedTwice(total, record.weight);
    if Queued(nodes, n.task) {
      assert TaskCount(nodes') == TaskCount(nodes) && TotalWeight(nodes', infos') == total;
      if 0 < record.weight < 0x1_0000_0000_0000_0000 { LoadDiffers(total, record.weight); }
    } else {
      assert forall i :: 0 <= i < |nodes| ==> nodes[i].task != n.task;
    }
  }

  /** Another weight for a task: the books stay right exactly if it is queued, or weighs what it weighed. */
  lemma BooksAfterReweighing(nodes: seq<RqNode>, infos: seq<Option<TaskInfo>>, nr: nat, load: nat, task: Task,
                             infos': seq<Option<TaskInfo>>, load': nat, before: TaskInfo, after: TaskInfo)
    requires Books(nodes, infos, nr, load) && |infos'| == |nodes| && OnlyChanged(nodes, infos, infos', task)
    requires forall i :: 0 <= i < |nodes| && nodes[i].task == task ==>
        infos[i] == Some(before) && infos'[i] == Some(after)
    requires after.vruntime == before.vruntime && before.weight < 0x1_0000_0000 && after.weight < 0x1_0000_0000
    requires load' == Wrap64(load - before.weight + after.weight)
    ensures Books(nodes, infos', nr, load') <==> Queued(nodes, task) || before.weight == after.weight
  {
    var total := TotalWeight(nodes, infos);
    TotalWeightUpdate(nodes, infos, infos', task, before, after);
    assert !Queued(nodes, task) ==> forall i :: 0 <= i < |nodes| ==> nodes[i].task != task;
    Reweighed(load, total, before.weight, after.weight);
  }

  lemma Reweighed(load: nat, total: nat, before: nat, after: nat)
    requires load == Wrap64(total) && before < 0x1_0000_0000 && after < 0x1_0000_0000
    ensures Wrap64(load - before + after) == Wrap64(total - before + after)
    ensures Wrap64(load - before + after) == Wrap64(total) <==> before == after
  {
  }

  /** One level up: the tree at the hole together with its parent and sibling. */
  lemma FocusUp(nodes: seq<RqNode>, m: seq<Links>, p: Path, t: Tree, n: RqNode?, root: RqNode?)
    requires Focus(nodes, m, p, t, n, root) && !p.Top?
    ensures Focus(nodes, m, p.up, Hang(p, t), HoleParent(nodes, p), root)
  {
  }

  lemma FocusDown(nodes: seq<RqNode>, m: seq<Links>, p: Path, t: Tree, n: RqNode?, root: RqNode?)
    requires Focus(nodes, m, p, t, n, root) && t.Branch?
    ensures Focus(nodes, m, InLeft(t.entry, t.color, t.right, p), t.left, m[t.entry.arrival].left, root)
    ensures Focus(nodes, m, InRight(t.left, t.entry, t.color, p), t.right, m[t.entry.arrival].right, root)
  {
  }

  lemma PathParts(p: Path)
    requires DistinctPath(p) && !p.Top?
    ensures PathEntries(p) == {p.entry} + Entries(Sibling(p)) + PathEntries(p.up)
    ensures p.entry !in Entries(Sibling(p)) && p.entry !in PathEntries(p.up)
    ensures Entries(Sibling(p)) !! PathEntries(p.up) && Distinct(Sibling(p)) && DistinctPath(p.up)
    ensures Sibling(p).Branch? ==> Sibling(p).entry in Entries(Sibling(p))
  {
  }

  lemma TreeParts(t: Tree)
    requires Distinct(t) && t.Branch?
    ensures Entries(t) == Entries(t.left) + {t.entry} + Entries(t.right)
    ensures t.entry !in Entries(t.left) && t.entry !in Entries(t.right) && Entries(t.left) !! Entries(t.right)
    ensures Distinct(t.left) && Distinct(t.right)
  {
  }

  /** The recolouring of grandparent and uncle. */
  lemma PathGrandparentPainted(nodes: seq<RqNode>, m: seq<Links>, m': seq<Links>, d: set<Entry>,
                               p: Path, n: RqNode?, root: RqNode?)
    requires ChangedOnly(nodes, m, m', d) && MatchesPath(nodes, m, p, n, root) && DistinctPath(p) && !p.Top?
    requires d !! PathEntries(p.up)
    requires var u := Sibling(p);
             && m'[p.entry.arrival] == m[p.entry.arrival].(color := Red)
             && (u.Branch? ==> d !! Entries(u.left) && d !! Entries(u.right))
             && (u.Branch? ==> Has(nodes, u.entry) && m'[u.entry.arrival] == m[u.entry.arrival].(color := Black))
    ensures var q := GrandparentPainted(p);
            MatchesPath(nodes, m', q, n, root) && DistinctPath(q) && PathEntries(q) == PathEntries(p)
  {
    var k, u := p.entry.arrival, Sibling(p);
    PathFrame(nodes, m, m', d, p.up, nodes[k], root);
    Repaint(nodes, m, m', d, u, if p.InLeft? then m[k].right else m[k].left, nodes[k]);
    assert Entries(Paint(u, Black)) == Entries(u) && Distinct(Paint(u, Black));
  }

  /** The nodes that are recoloured: parent, grandparent, uncle. */
  ghost function Kin(p: Path): set<Entry>
    requires !p.Top? && !p.up.Top?
  {
    {p.entry, p.up.entry} + if Sibling(p.up).Branch? then {Sibling(p.up).entry} else {}
  }

  lemma KinApart(p: Path)
    requires DistinctPath(p) && !p.Top? && !p.up.Top?
    ensures Kin(p) <= PathEntries(p)
    ensures Kin(p) !! Entries(Sibling(p)) && Kin(p) !! PathEntries(p.up.up)
    ensures var u := Sibling(p.up); u.Branch? ==> Kin(p) !! Entries(u.left) && Kin(p) !! Entries(u.right)
  {
    PathParts(p);
    PathParts(p.up);
    if Sibling(p.up).Branch? { TreeParts(Sibling(p.up)); }
  }

  /** The recolouring of parent, grandparent and uncle. */
  lemma FocusRepainted(nodes: seq<RqNode>, m: seq<Links>, m': seq<Links>, p: Path, t: Tree, n: RqNode?, root: RqNode?)
    requires Focus(nodes, m, p, t, n, root) && !p.Top? && !p.up.Top? && Has(nodes, p.entry) && Has(nodes, p.up.entry)
    requires ChangedOnly(nodes, m, m', Kin(p))
    requires m'[p.entry.arrival] == m[p.entry.arrival].(color := Black)
    requires m'[p.up.entry.arrival] == m[p.up.entry.arrival].(color := Red)
    requires var u := Sibling(p.up);
             u.Branch? ==> Has(nodes, u.entry) && m'[u.entry.arrival] == m[u.entry.arrival].(color := Black)
    ensures Focus(nodes, m', Repainted(p), t, n, root)
  {
    var k, d := p.entry.arrival, Kin(p);
    KinApart(p);
    MatchesFrame(nodes, m, m', d, t, n, HoleParent(nodes, p));
    MatchesFrame(nodes, m, m', d, Sibling(p), if p.InLeft? then m[k].right else m[k].left, nodes[k]);
    PathGrandparentPainted(nodes, m, m', d, p.up, nodes[k], root);
  }

  lemma Repaint(nodes: seq<RqNode>, m: seq<Links>, m': seq<Links>, d: set<Entry>, t: Tree, n: RqNode?, p: RqNode?)
    requires ChangedOnly(nodes, m, m', d) && Matches(nodes, m, t, n, p)
    requires t.Branch? ==> d !! Entries(t.left) && d !! Entries(t.right)
    requires t.Branch? ==> m'[t.entry.arrival] == m[t.entry.arrival].(color := Black)
    ensures Matches(nodes, m', Paint(t, Black), n, p)
  {
    if t.Branch? {
      var k := t.entry.arrival;
      MatchesFrame(nodes, m, m', d, t.left, m[k].left, n);
      MatchesFrame(nodes, m, m', d, t.right, m[k].right, n);
    }
  }

  /** The nodes that a left rotation at `t` under `p` writes to. */
  ghost function LeftTouched(p: Path, t: Tree): set<Entry>
    requires t.Branch? && t.right.Branch?
  {
    {t.entry, t.right.entry} + (if t.right.left.Branch? then {t.right.left.entry} else {})
    + (if p.Top? then {} else {p.entry})
  }

  lemma LeftTouchedApart(p: Path, t: Tree)
    requires t.Branch? && t.right.Branch? && Distinct(t) && DistinctPath(p) && PathEntries(p) !! Entries(t)
    ensures var d, b := LeftTouched(p, t), t.right.left;
            && d !! Entries(t.left) && d !! Entries(t.right.right)
            && (b.Branch? ==> d !! Entries(b.left) && d !! Entries(b.right))
            && (!p.Top? ==> d !! Entries(Sibling(p)) && d !! PathEntries(p.up))
    ensures Distinct(t.right.left) && Distinct(RotatedLeft(t)) && Entries(RotatedLeft(t)) == Entries(t)
  {
    TreeParts(t);
    TreeParts(t.right);
    if t.right.left.Branch? { TreeParts(t.right.left); }
    if !p.Top? { PathParts(p); }
  }

  /** What the writes of a left rotation do to the tree. */
  lemma FocusRotatedLeft(nodes: seq<RqNode>, m: seq<Links>, m': seq<Links>, p: Path, t: Tree,
                         x: RqNode, y: RqNode, root: RqNode?, root': RqNode?)
    requires t.Branch? && t.right.Branch? && Focus(nodes, m, p, t, x, root)
    requires ChangedOnly(nodes, m, m', LeftTouched(p, t))
    requires Matches(nodes, m, t.right, y, x)
    requires m'[t.entry.arrival] == m[t.entry.arrival].(right := m[t.right.entry.arrival].left, parent := y)
    requires m'[t.right.entry.arrival] == m[t.right.entry.arrival].(left := x, parent := m[t.entry.arrival].parent)
    requires var b := t.right.left;
             b.Branch? ==> Has(nodes, b.entry) && m'[b.entry.arrival] == m[b.entry.arrival].(parent := x)
    requires p.Top? ==> root' == y
    requires !p.Top? ==> root' == root && Has(nodes, p.entry)
    requires p.InLeft? ==> m'[p.entry.arrival] == m[p.entry.arrival].(left := y)
    requires p.InRight? ==> m'[p.entry.arrival] == m[p.entry.arrival].(right := y)
    ensures Focus(nodes, m', p, RotatedLeft(t), y, root')
  {
    var d, k, l := LeftTouched(p, t), t.entry.arrival, t.right.entry.arrival;
    LeftTouchedApart(p, t);
    MatchesFrame(nodes, m, m', d, t.left, m[k].left, x);
    MatchesFrame(nodes, m, m', d, t.right.right, m[l].right, y);
    Reparent(nodes, m, m', d, t.right.left, m[l].left, y, x);
    Rehang(nodes, m, m', d, p, x, root, y, root');
  }

  /** Who the nodes of a left rotation are: four different objects, as far as they exist. */
  lemma LeftAliases(nodes: seq<RqNode>, m: seq<Links>, p: Path, t: Tree, x: RqNode, root: RqNode?)
    requires t.Branch? && t.right.Branch? && Focus(nodes, m, p, t, x, root)
    ensures Has(nodes, t.entry) && Has(nodes, t.right.entry) && nodes[t.entry.arrival] == x
    ensures var y, b := m[t.entry.arrival].right, t.right.left;
            && y == nodes[t.right.entry.arrival] && y != x && Matches(nodes, m, t.right, y, x)
            && var z := m[t.right.entry.arrival].left;
            && (b.Leaf? <==> z == null)
            && (b.Branch? ==> Has(nodes, b.entry) && z == nodes[b.entry.arrival] && z != x && z != y)
            && var q := m[t.entry.arrival].parent;
            && (p.Top? <==> q == null)
            && (!p.Top? ==>
                  Has(nodes, p.entry) && q == nodes[p.entry.arrival] && q != x && q != y && (z != null ==> q != z))
            && (!p.Top? ==> (p.InLeft? <==> m[p.entry.arrival].left == x))
            && (p.InRight? ==> m[p.entry.arrival].right == x)
  {
    TreeParts(t);
    TreeParts(t.right);
    var b, y := t.right.left, m[t.entry.arrival].right;
    assert Matches(nodes, m, t.right, y, x);
    assert Matches(nodes, m, b, m[t.right.entry.arrival].left, y);
    if b.Branch? { assert b.entry in Entries(b); }
    if !p.Top? {
      PathParts(p);
      if p.InRight? && p.left.Branch? { assert p.left.entry in Entries(p.left); }
    }
  }

  /** The nodes that a right rotation at `t` under `p` writes to. */
  ghost function RightTouched(p: Path, t: Tree): set<Entry>
    requires t.Branch? && t.left.Branch?
  {
    {t.entry, t.left.entry} + (if t.left.right.Branch? then {t.left.right.entry} else {})
    + (if p.Top? then {} else {p.entry})
  }

  lemma RightTouchedApart(p: Path, t: Tree)
    requires t.Branch? && t.left.Branch? && Distinct(t) && DistinctPath(p) && PathEntries(p) !! Entries(t)
    ensures var d, b := RightTouched(p, t), t.left.right;
            && d !! Entries(t.right) && d !! Entries(t.left.left)
            && (b.Branch? ==> d !! Entries(b.left) && d !! Entries(b.right))
            && (!p.Top? ==> d !! Entries(Sibling(p)) && d !! PathEntries(p.up))
    ensures Distinct(t.left.right) && Distinct(RotatedRight(t)) && Entries(RotatedRight(t)) == Entries(t)
  {
    TreeParts(t);
    TreeParts(t.left);
    if t.left.right.Branch? { TreeParts(t.left.right); }
    if !p.Top? { PathParts(p); }
  }

  lemma FocusRotatedRight(nodes: seq<RqNode>, m: seq<Links>, m': seq<Links>, p: Path, t: Tree,
                          y: RqNode, x: RqNode, root: RqNode?, root': RqNode?)
    requires t.Branch? && t.left.Branch? && Focus(nodes, m, p, t, y, root)
    requires ChangedOnly(nodes, m, m', RightTouched(p, t))
    requires Matches(nodes, m, t.left, x, y)
    requires m'[t.entry.arrival] == m[t.entry.arrival].(left := m[t.left.entry.arrival].right, parent := x)
    requires m'[t.left.entry.arrival] == m[t.left.entry.arrival].(right := y, parent := m[t.entry.arrival].parent)
    requires var b := t.left.right;
             b.Branch? ==> Has(nodes, b.entry) && m'[b.entry.arrival] == m[b.entry.arrival].(parent := y)
    requires p.Top? ==> root' == x
    requires !p.Top? ==> root' == root && Has(nodes, p.entry)
    requires p.InLeft? ==> m'[p.entry.arrival] == m[p.entry.arrival].(left := x)
    requires p.InRight? ==> m'[p.entry.arrival] == m[p.entry.arrival].(right := x)
    ensures Focus(nodes, m', p, RotatedRight(t), x, root')
  {
    var d, k, l := RightTouched(p, t), t.entry.arrival, t.left.entry.arrival;
    RightTouchedApart(p, t);
    MatchesFrame(nodes, m, m', d, t.right, m[k].right, y);
    MatchesFrame(nodes, m, m', d, t.left.left, m[l].left, x);
    Reparent(nodes, m, m', d, t.left.right, m[l].right, x, y);
    Rehang(nodes, m, m', d, p, y, root, x, root');
  }

  /** Who the nodes of a right rotation are: four different objects, as far as they exist. */
  lemma RightAliases(nodes: seq<RqNode>, m: seq<Links>, p: Path, t: Tree, y: RqNode, root: RqNode?)
    requires t.Branch? && t.left.Branch? && Focus(nodes, m, p, t, y, root)
    ensures Has(nodes, t.entry) && Has(nodes, t.left.entry) && nodes[t.entry.arrival] == y
    ensures var x, b := m[t.entry.arrival].left, t.left.right;
            && x == nodes[t.left.entry.arrival] && x != y && Matches(nodes, m, t.left, x, y)
            && var z := m[t.left.entry.arrival].right;
            && (b.Leaf? <==> z == null)
            && (b.Branch? ==> Has(nodes, b.entry) && z == nodes[b.entry.arrival] && z != x && z != y)
            && var q := m[t.entry.arrival].parent;
            && (p.Top? <==> q == null)
            && (!p.Top? ==>
                  Has(nodes, p.entry) && q == nodes[p.entry.arrival] && q != x && q != y && (z != null ==> q != z))
            && (!p.Top? ==> (p.InRight? <==> m[p.entry.arrival].right == y))
            && (p.InLeft? ==> m[p.entry.arrival].left == y)
  {
    TreeParts(t);
    TreeParts(t.left);
    var b, x := t.left.right, m[t.entry.arrival].left;
    assert Matches(nodes, m, t.left, x, y);
    assert Matches(nodes, m, b, m[t.left.entry.arrival].right, x);
    if b.Branch? { assert b.entry in Entries(b); }
    if !p.Top? {
      PathParts(p);
      if p.InLeft? && p.right.Branch? { assert p.right.entry in Entries(p.right); }
    }
  }

  /** Who the relatives of the node at the hole are. */
  lemma KinAliases(nodes: seq<RqNode>, m: seq<Links>, p: Path, t: Tree, z: RqNode, root: RqNode?)
    requires Focus(nodes, m, p, t, z, root) && t.Branch? && !p.Top? && !p.up.Top?
    ensures Has(nodes, t.entry) && Has(nodes, p.entry) && Has(nodes, p.up.entry) && z == nodes[t.entry.arrival]
    ensures var k, l := p.entry.arrival, p.up.entry.arrival; var q, g, u := nodes[k], nodes[l], Sibling(p.up);
            && m[t.entry.arrival].parent == q && m[k].parent == g && q != g && z != q && z != g
            && (p.InLeft? <==> m[k].right != z) && (p.InRight? <==> m[k].left != z)
            && (p.up.InLeft? <==> m[l].left == q)
            && var y := if p.up.InLeft? then m[l].right else m[l].left;
            && (u.Leaf? <==> y == null)
            && (u.Branch? ==> Has(nodes, u.entry) && y == nodes[u.entry.arrival] && y != q && y != g && y != z)
            && (u.Branch? ==> m[u.entry.arrival].color == u.color)
  {
    PathParts(p);
    PathParts(p.up);
    assert MatchesPath(nodes, m, p.up, nodes[p.entry.arrival], root);
    assert t.entry in Entries(t);
    if Sibling(p).Branch? { assert Sibling(p).entry in Entries(Sibling(p)); }
  }

  lemma FocusGrandparent(nodes: seq<RqNode>, m: seq<Links>, p: Path, t: Tree, z: RqNode?, root: RqNode?)
    requires Focus(nodes, m, p, t, z, root) && !p.Top? && !p.up.Top?
    ensures Focus(nodes, m, p.up.up, Hang(p.up, Hang(p, t)), HoleParent(nodes, p.up), root)
  {
    FocusUp(nodes, m, p, t, z, root);
    FocusUp(nodes, m, p.up, Hang(p, t), HoleParent(nodes, p), root);
  }

  lemma ParentAlias(nodes: seq<RqNode>, m: seq<Links>, p: Path, t: Tree, z: RqNode, root: RqNode?)
    requires Focus(nodes, m, p, t, z, root) && t.Branch?
    ensures Has(nodes, t.entry) && z == nodes[t.entry.arrival]
    ensures p.Top? <==> m[t.entry.arrival].parent == null
    ensures !p.Top? ==>
              && Has(nodes, p.entry) && m[t.entry.arrival].parent == nodes[p.entry.arrival]
              && m[p.entry.arrival].color == p.color
  {
  }

  /** Painting the root of the repaired tree black. */
  lemma RootPainted(nodes: seq<RqNode>, m: seq<Links>, m': seq<Links>, p: Path, t: Tree, z: RqNode, root: RqNode?)
    requires Focus(nodes, m, p, t, z, root) && Plug(p, t).Branch?
    requires ChangedOnly(nodes, m, m', {Plug(p, t).entry}) && Plug(p, t).entry.arrival < |m|
    requires m'[Plug(p, t).entry.arrival] == m[Plug(p, t).entry.arrival].(color := Black)
    ensures Matches(nodes, m', Paint(Plug(p, t), Black), root, null) && Distinct(Paint(Plug(p, t), Black))
  {
    PlugMatches(nodes, m, p, t, z, root);
    PlugDistinct(p, t);
    Repaint(nodes, m, m', {Plug(p, t).entry}, Plug(p, t), root, null);
  }

  /** A further node leaves what the pointers spell out as it is. */
  lemma {:induction false} MatchesExtend(nodes: seq<RqNode>, m: seq<Links>, z: RqNode, k: Links, t: Tree, n: RqNode?,
      p: RqNode?)
    requires |m| == |nodes| && Matches(nodes, m, t, n, p)
    ensures Matches(nodes + [z], m + [k], t, n, p)
    ensures forall e :: e in Entries(t) ==> e.arrival < |nodes|
  {
    if t.Branch? {
      var i := t.entry.arrival;
      MatchesExtend(nodes, m, z, k, t.left, m[i].left, n);
      MatchesExtend(nodes, m, z, k, t.right, m[i].right, n);
    }
  }

  lemma {:induction false} PathExtend(nodes: seq<RqNode>, m: seq<Links>, z: RqNode, k: Links, p: Path, n: RqNode?,
      root: RqNode?)
    requires |m| == |nodes| && MatchesPath(nodes, m, p, n, root)
    ensures MatchesPath(nodes + [z], m + [k], p, n, root)
    ensures HoleParent(nodes + [z], p) == HoleParent(nodes, p)
    ensures forall e :: e in PathEntries(p) ==> e.arrival < |nodes|
  {
    if !p.Top? {
      var i := p.entry.arrival;
      MatchesExtend(nodes, m, z, k, Sibling(p), if p.InLeft? then m[i].right else m[i].left, nodes[i]);
      PathExtend(nodes, m, z, k, p.up, nodes[i], root);
    }
  }

  /** The new node `z`, hung at the hole. */
  lemma FocusHung(nodes: seq<RqNode>, m: seq<Links>, m': seq<Links>, z: RqNode, p: Path, root: RqNode?, root': RqNode?)
    requires Focus(nodes, m, p, Leaf, null, root) && z.entry.arrival == |nodes| && |m'| == |nodes| + 1
    requires m'[|nodes|] == Links(null, null, HoleParent(nodes, p), Red)
    requires ChangedOnly(nodes, m, m'[..|nodes|], if p.Top? then {} else {p.entry})
    requires p.Top? ==> root' == z
    requires !p.Top? ==> root' == root && Has(nodes, p.entry)
    requires p.InLeft? ==> m'[p.entry.arrival] == m[p.entry.arrival].(left := z)
    requires p.InRight? ==> m'[p.entry.arrival] == m[p.entry.arrival].(right := z)
    ensures Focus(nodes + [z], m', p, Branch(Leaf, z.entry, Red, Leaf), z, root')
  {
    if !p.Top? { PathParts(p); }
    var m0 := m'[..|nodes|];
    Rehang(nodes, m, m0, if p.Top? then {} else {p.entry}, p, null, root, z, root');
    assert m' == m0 + [m'[|nodes|]];
    PathExtend(nodes, m0, z, m'[|nodes|], p, z, root');
  }

  lemma {:induction false} MatchesHas(nodes: seq<RqNode>, m: seq<Links>, t: Tree, n: RqNode?, p: RqNode?)
    requires |m| == |nodes| && Matches(nodes, m, t, n, p)
    ensures forall e :: e in Entries(t) ==> Has(nodes, e)
  {
    if t.Branch? {
      MatchesHas(nodes, m, t.left, m[t.entry.arrival].left, n);
      MatchesHas(nodes, m, t.right, m[t.entry.arrival].right, n);
    }
  }

  /** The hole reached by going to one side of the node `x`. */
  ghost function StepDown(p: Path, t: Tree, left: bool): Path
    requires t.Branch?
  {
    if left then InLeft(t.entry, t.color, t.right, p) else InRight(t.left, t.entry, t.color, p)
  }

  lemma FocusStepDown(nodes: seq<RqNode>, m: seq<Links>, p: Path, t: Tree, x: RqNode, root: RqNode?, v: nat)
    requires Focus(nodes, m, p, t, x, root) && Sorted(InOrder(Plug(p, t))) && HoleFor(p, v)
    ensures t.Branch? && Has(nodes, t.entry) && x == nodes[t.entry.arrival]
    ensures var left := v < t.entry.vruntime; var q := StepDown(p, t, left);
            var c, k := if left then t.left else t.right, m[t.entry.arrival];
            var n := if left then k.left else k.right;
            && Focus(nodes, m, q, c, n, root) && HoleFor(q, v) && HoleParent(nodes, q) == x
            && Plug(q, c) == Plug(p, t) && Height(c) < Height(t)
  {
    DescentStep(p, t, v);
    FocusDown(nodes, m, p, t, x, root);
  }

  /** The first node of the queue is the one that was first, unless the new one is hung below it. */
  lemma FirstHung(nodes: seq<RqNode>, m: seq<Links>, z: RqNode, p: Path, root: RqNode?)
    requires Focus(nodes, m, p, Leaf, null, root) && Distinct(Plug(p, Leaf)) && HoleFor(p, z.entry.vruntime)
    requires z.entry.arrival == |nodes|
    ensures var s, s' := InOrder(Plug(p, Leaf)), Flat(p, Branch(Leaf, z.entry, Red, Leaf));
            s' != [] && var first := NodeOf(nodes + [z], s'[0]);
            if p.Top? then s == [] && first == z
            else s != [] && var l, y := NodeOf(nodes, s[0]), HoleParent(nodes, p);
                 y != null && l != null && y.entry == p.entry
                 && (p.InLeft? <==> z.entry.vruntime < p.entry.vruntime)
                 && first == if p.InLeft? && y == l then z else l
  {
    assert InOrder(Branch(Leaf, z.entry, Red, Leaf)) == [z.entry];
    if !p.Top? {
      NewLeafFirst(p, z.entry);
      PlugMatches(nodes, m, p, Leaf, null, root);
      MatchesHas(nodes, m, Plug(p, Leaf), root, null);
      InOrderEntries(Plug(p, Leaf));
      assert InOrder(Plug(p, Leaf))[0] in InOrder(Plug(p, Leaf));
    }
  }

  class RunQueue {
    var root: RqNode?
    var leftmost: RqNode?
    var minVruntime: nat
    var nrRunning: nat
    var loadWeight: nat
    var initialized: bool
    ghost var nodes: seq<RqNode>
    ghost var tree: Tree

    ghost predicate At(p: Path, t: Tree, n: RqNode?)
      reads `root, `nodes, nodes
    {
      Numbered(nodes) && Focus(nodes, Snapshot(nodes), p, t, n, root)
    }

    /** The pointers from the root down spell out the tree. */
    ghost predicate Wired()
      reads `root, `nodes, `tree, nodes
    {
      Numbered(nodes) && Matches(nodes, Snapshot(nodes), tree, root, null) && Distinct(tree)
    }

    method RotateLeft(x: RqNode, ghost p: Path, ghost t: Tree)
      requires At(p, t, x) && t.Branch? && t.right.Branch?
      modifies `root, nodes
      ensures nodes == old(nodes) && At(p, RotatedLeft(t), old(x.right))
    {
      ghost var m := Snapshot(nodes);
      var y := x.right;
      LeftAliases(nodes, m, p, t, x, root);
      x.right := y.left;
      if y.left != null { y.left.parent := x; }
      y.parent := x.parent;
      if x.parent == null { root := y; }
      else if x == x.parent.left { x.parent.left := y; }
      else { x.parent.right := y; }
      y.left := x;
      x.parent := y;
      ghost var m' := Snapshot(nodes);
      assert ChangedOnly(nodes, m, m', LeftTouched(p, t));
      FocusRotatedLeft(nodes, m, m', p, t, x, y, old(root), root);
    }

    method RotateRight(y: RqNode, ghost p: Path, ghost t: Tree)
      requires At(p, t, y) && t.Branch? && t.left.Branch?
      modifies `root, nodes
      ensures nodes == old(nodes) && At(p, RotatedRight(t), old(y.left))
    {
      ghost var m := Snapshot(nodes);
      var x := y.left;
      RightAliases(nodes, m, p, t, y, root);
      y.left := x.right;
      if x.right != null { x.right.parent := y; }
      x.parent := y.parent;
      if y.parent == null { root := x; }
      else if y == y.parent.right { y.parent.right := x; }
      else { y.parent.left := x; }
      x.right := y;
      y.parent := x;
      ghost var m' := Snapshot(nodes);
      assert ChangedOnly(nodes, m, m', RightTouched(p, t));
      FocusRotatedRight(nodes, m, m', p, t, y, x, old(root), root);
    }

    /** The rotation at the grandparent, the node being an outer right grandchild. */
    method RaiseLeft(z: RqNode, ghost p0: Path, ghost t: Tree) returns (ghost p: Path)
      requires At(p0, t, z) && Fixable(p0, t) && PathRed(p0) && !p0.up.Top?
      requires p0.InLeft? && p0.up.InLeft? && !IsRed(Sibling(p0.up))
      modifies `root, nodes
      ensures nodes == old(nodes) && At(p, t, z) && Fixable(p, t) && !PathRed(p)
      ensures Flat(p, t) == Flat(p0, t) && Depth(p) < Depth(p0)
    {
      ghost var m, q := Snapshot(nodes), Repainted(p0);
      KinAliases(nodes, m, p0, t, z, root);
      z.parent.color := Black;
      z.parent.parent.color := Red;
      ghost var m' := Snapshot(nodes);
      assert ChangedOnly(nodes, m, m', Kin(p0));
      FocusRepainted(nodes, m, m', p0, t, z, root);
      FocusGrandparent(nodes, m', q, t, z, root);
      RotateRight(z.parent.parent, p0.up.up, Hang(q.up, Hang(q, t)));
      FinishLeft(p0, t);
      ghost var s := RotatedRight(Hang(q.up, Hang(q, t)));
      FocusDown(nodes, Snapshot(nodes), p0.up.up, s, nodes[s.entry.arrival], root);
      p := InLeft(s.entry, s.color, s.right, p0.up.up);
    }

    /** The loop body where the parent is a left child. */
    method FixLeft(z0: RqNode, ghost p0: Path, ghost t0: Tree) returns (z: RqNode, ghost p: Path, ghost t: Tree)
      requires At(p0, t0, z0) && Fixable(p0, t0) && PathRed(p0) && !p0.up.Top? && p0.up.InLeft?
      modifies `root, nodes
      ensures nodes == old(nodes) && At(p, t, z) && Fixable(p, t)
      ensures Flat(p, t) == Flat(p0, t0) && Depth(p) < Depth(p0)
    {
      z, p, t := z0, p0, t0;
      ghost var m := Snapshot(nodes);
      KinAliases(nodes, m, p, t, z, root);
      var y := z.parent.parent.right;
      if y != null && y.color == Red {
        z.parent.color := Black;
        y.color := Black;
        z.parent.parent.color := Red;
        z := z.parent.parent;
        ghost var m', q := Snapshot(nodes), Repainted(p);
        assert ChangedOnly(nodes, m, m', Kin(p));
        FocusRepainted(nodes, m, m', p, t, z0, root);
        FocusGrandparent(nodes, m', q, t, z0, root);
        RecolorStep(p, t);
        p, t := p.up.up, Hang(q.up, Hang(q, t));
      } else {
        if z == z.parent.right {
          z := z.parent;
          FocusUp(nodes, m, p, t, z0, root);
          RotateLeft(z, p.up, Hang(p, t));
          StraightenLeft(p, t);
          ghost var s := RotatedLeft(Hang(p, t));
          FocusDown(nodes, Snapshot(nodes), p.up, s, z0, root);
          p, t := InLeft(s.entry, s.color, s.right, p.up), s.left;
        }
        p := RaiseLeft(z, p, t);
      }
    }

    /** The rotation at the grandparent, the node being an outer left grandchild. */
    method RaiseRight(z: RqNode, ghost p0: Path, ghost t: Tree) returns (ghost p: Path)
      requires At(p0, t, z) && Fixable(p0, t) && PathRed(p0) && !p0.up.Top?
      requires p0.InRight? && p0.up.InRight? && !IsRed(Sibling(p0.up))
      modifies `root, nodes
      ensures nodes == old(nodes) && At(p, t, z) && Fixable(p, t) && !PathRed(p)
      ensures Flat(p, t) == Flat(p0, t) && Depth(p) < Depth(p0)
    {
      ghost var m, q := Snapshot(nodes), Repainted(p0);
      KinAliases(nodes, m, p0, t, z, root);
      z.parent.color := Black;
      z.parent.parent.color := Red;
      ghost var m' := Snapshot(nodes);
      assert ChangedOnly(nodes, m, m', Kin(p0));
      FocusRepainted(nodes, m, m', p0, t, z, root);
      FocusGrandparent(nodes, m', q, t, z, root);
      RotateLeft(z.parent.parent, p0.up.up, Hang(q.up, Hang(q, t)));
      FinishRight(p0, t);
      ghost var s := RotatedLeft(Hang(q.up, Hang(q, t)));
      FocusDown(nodes, Snapshot(nodes), p0.up.up, s, nodes[s.entry.arrival], root);
      p := InRight(s.left, s.entry, s.color, p0.up.up);
    }

    /** The loop body where the parent is a right child. */
    method FixRight(z0: RqNode, ghost p0: Path, ghost t0: Tree) returns (z: RqNode, ghost p: Path, ghost t: Tree)
      requires At(p0, t0, z0) && Fixable(p0, t0) && PathRed(p0) && !p0.up.Top? && p0.up.InRight?
      modifies `root, nodes
      ensures nodes == old(nodes) && At(p, t, z) && Fixable(p, t)
      ensures Flat(p, t) == Flat(p0, t0) && Depth(p) < Depth(p0)
    {
      z, p, t := z0, p0, t0;
      ghost var m := Snapshot(nodes);
      KinAliases(nodes, m, p, t, z, root);
      var y := z.parent.parent.left;
      if y != null && y.color == Red {
        z.parent.color := Black;
        y.color := Black;
        z.parent.parent.color := Red;
        z := z.parent.parent;
        ghost var m', q := Snapshot(nodes), Repainted(p);
        assert ChangedOnly(nodes, m, m', Kin(p));
        FocusRepainted(nodes, m, m', p, t, z0, root);
        FocusGrandparent(nodes, m', q, t, z0, root);
        RecolorStep(p, t);
        p, t := p.up.up, Hang(q.up, Hang(q, t));
      } else {
        if z == z.parent.left {
          z := z.parent;
          FocusUp(nodes, m, p, t, z0, root);
          RotateRight(z, p.up, Hang(p, t));
          StraightenRight(p, t);
          ghost var s := RotatedRight(Hang(p, t));
          FocusDown(nodes, Snapshot(nodes), p.up, s, z0, root);
          p, t := InRight(s.left, s.entry, s.color, p.up), s.right;
        }
        p := RaiseRight(z, p, t);
      }
    }

    /** The loop body. */
    method FixOnce(z0: RqNode, ghost p0: Path, ghost t0: Tree) returns (z: RqNode, ghost p: Path, ghost t: Tree)
      requires At(p0, t0, z0) && Fixable(p0, t0) && z0.parent != null && z0.parent.color == Red
      modifies `root, nodes
      ensures nodes == old(nodes) && At(p, t, z) && Fixable(p, t)
      ensures Flat(p, t) == Flat(p0, t0) && Depth(p) < Depth(p0)
    {
      ParentAlias(nodes, Snapshot(nodes), p0, t0, z0, root);
      Relatives(p0, t0);
      KinAliases(nodes, Snapshot(nodes), p0, t0, z0, root);
      if z0.parent == z0.parent.parent.left {
        z, p, t := FixLeft(z0, p0, t0);
      } else {
        z, p, t := FixRight(z0, p0, t0);
      }
    }

    method BlackenRoot(ghost z: RqNode, ghost p: Path, ghost t: Tree)
      requires At(p, t, z) && Fixable(p, t) && !PathRed(p)
      modifies `tree, nodes
      ensures Wired() && RedBlack(tree) && InOrder(tree) == Flat(p, t)
    {
      ghost var m, r := Snapshot(nodes), Plug(p, t);
      RepairDone(p, t);
      PlugMatches(nodes, m, p, t, z, root);
      root.color := Black;
      ghost var m' := Snapshot(nodes);
      assert ChangedOnly(nodes, m, m', {r.entry});
      RootPainted(nodes, m, m', p, t, z, root);
      tree := Paint(r, Black);
    }

    /** Restores the colours after `z0` was hung in red. */
    method InsertFixup(z0: RqNode, ghost p0: Path, ghost t0: Tree)
      requires At(p0, t0, z0) && Fixable(p0, t0)
      modifies `root, `tree, nodes
      ensures nodes == old(nodes) && Wired() && RedBlack(tree) && InOrder(tree) == Flat(p0, t0)
    {
      var z := z0;
      ghost var p, t := p0, t0;
      while z.parent != null && z.parent.color == Red
        invariant nodes == old(nodes) && At(p, t, z) && Fixable(p, t) && Flat(p, t) == Flat(p0, t0)
        decreases Depth(p)
      {
        z, p, t := FixOnce(z, p, t);
      }
      ParentAlias(nodes, Snapshot(nodes), p, t, z, root);
      BlackenRoot(z, p, t);
    }

    /** The entries in order of arrival. */
    ghost function Arrivals(): seq<Entry>
      reads `nodes
    {
      EntriesOf(nodes)
    }

    /** A red-black tree that holds the arrivals, sorted and first come first, and the cached first node. */
    ghost predicate Valid()
      reads `root, `leftmost, `nodes, `tree, nodes
    {
      && Wired() && RedBlack(tree) && InOrder(tree) == QueueOf(Arrivals())
      && leftmost == FirstNode()
    }

    ghost function FirstNode(): RqNode?
      reads `nodes, `tree
    {
      var s := InOrder(tree);
      if s == [] then null else NodeOf(nodes, s[0])
    }

    /** The way down to the place for a key. */
    method Descend(vruntime: nat) returns (y: RqNode?, ghost p: Path, ghost steps: nat)
      requires Valid()
      ensures Valid()
      ensures At(p, Leaf, null) && Plug(p, Leaf) == tree && HoleFor(p, vruntime) && y == HoleParent(nodes, p)
      ensures steps <= Height(tree)
    {
      y := null;
      var x := root;
      ghost var t := tree;
      p, steps := Top, 0;
      SizeOfQueue();
      while x != null
        invariant At(p, t, x) && y == HoleParent(nodes, p) && Plug(p, t) == tree
        invariant HoleFor(p, vruntime) && steps + Height(t) <= Height(tree)
        decreases t
      {
        FocusStepDown(nodes, Snapshot(nodes), p, t, x, root, vruntime);
        y := x;
        steps := steps + 1;
        p := StepDown(p, t, vruntime < t.entry.vruntime);
        if vruntime < x.vruntime {
          x := x.left;
          t := t.left;
        } else {
          x := x.right;
          t := t.right;
        }
      }
    }

    lemma SizeOfQueue()
      requires Valid()
      ensures Sorted(InOrder(tree)) && |InOrder(tree)| == |nodes|
    {
      QueueOfSorted(Arrivals());
      assert |multiset(InOrder(tree))| == |multiset(Arrivals())|;
    }

    /** The way down is logarithmic in the number of queued nodes. */
    lemma DescentIsLogarithmic()
      requires Valid()
      ensures Height(tree) <= 2 * Log2(|nodes| + 1)
    {
      SizeOfQueue();
      HeightIsLogarithmic(tree);
    }

    /** Links the new node below `y`. */
    method HangNode(z: RqNode, y: RqNode?, ghost p: Path)
      requires At(p, Leaf, null) && y == HoleParent(nodes, p)
      requires !p.Top? ==> Has(nodes, p.entry) && (p.InLeft? <==> z.vruntime < p.entry.vruntime)
      requires z !in nodes && z.entry == Entry(|nodes|, z.vruntime)
      requires z.left == null && z.right == null && z.color == Red
      modifies `root, `leftmost, `nodes, nodes, z
      ensures nodes == old(nodes) + [z] && At(p, Branch(Leaf, z.entry, Red, Leaf), z)
      ensures leftmost == if p.Top? || (p.InLeft? && y == old(leftmost)) then z else old(leftmost)
    {
      ghost var m := Snapshot(nodes);
      z.parent := y;
      if y == null {
        root := z;
        leftmost := z;
      } else if z.vruntime < y.vruntime {
        y.left := z;
        if y == leftmost { leftmost := z; }
      } else {
        y.right := z;
      }
      nodes := nodes + [z];
      ghost var m' := Snapshot(nodes);
      assert ChangedOnly(old(nodes), m, m'[..|old(nodes)|], if p.Top? then {} else {p.entry});
      FocusHung(old(nodes), m, m', z, p, old(root), root);
    }

    lemma NewLeaf(z: RqNode, p: Path)
      requires Valid() && At(p, Leaf, null) && Plug(p, Leaf) == tree && HoleFor(p, z.vruntime)
      requires z.entry == Entry(|nodes|, z.vruntime)
      ensures !p.Top? ==> Has(nodes, p.entry) && (p.InLeft? <==> z.vruntime < p.entry.vruntime)
      ensures var t := Branch(Leaf, z.entry, Red, Leaf);
              && Fixable(p, t) && Flat(p, t) == QueueOf(EntriesOf(nodes + [z])) && Flat(p, t) != []
              && NodeOf(nodes + [z], Flat(p, t)[0]) ==
                   if p.Top? || (p.InLeft? && HoleParent(nodes, p) == leftmost) then z else leftmost
    {
      NewLeafFixable(p, z.entry);
      NewLeafInOrder(p, z.entry);
      QueueGrown(nodes, z);
      FirstHung(nodes, Snapshot(nodes), z, p, root);
    }

    /** The node hangs in red where its key belongs, and the first of the order is the cached one. */
    ghost predicate Hung(z: RqNode, p: Path)
      reads `root, `leftmost, `nodes, nodes
    {
      var t := Branch(Leaf, z.entry, Red, Leaf);
      && At(p, t, z) && Fixable(p, t) && Flat(p, t) == QueueOf(Arrivals())
      && Flat(p, t) != [] && leftmost == NodeOf(nodes, Flat(p, t)[0])
    }

    /** Hangs the new node at its place, in red. */
    method HangLeaf(z: RqNode, y: RqNode?, ghost p: Path)
      requires Valid() && At(p, Leaf, null) && Plug(p, Leaf) == tree && HoleFor(p, z.vruntime)
          && y == HoleParent(nodes, p)
      requires z !in nodes && z.entry == Entry(|nodes|, z.vruntime)
      requires z.left == null && z.right == null && z.color == Red
      modifies `root, `leftmost, `nodes, nodes, z
      ensures nodes == old(nodes) + [z]
      ensures Hung(z, p)
    {
      NewLeaf(z, p);
      HangNode(z, y, p);
    }

    /** Finds the place of the new node and hangs it there. */
    method Attach(z: RqNode) returns (ghost p: Path, ghost steps: nat)
      requires Valid()
      requires z !in nodes && z.entry == Entry(|nodes|, z.vruntime)
      requires z.left == null && z.right == null && z.color == Red
      modifies `root, `leftmost, `nodes, nodes, z
      ensures nodes == old(nodes) + [z]
      ensures Hung(z, p)
      ensures steps <= Height(tree)
    {
      var y;
      y, p, steps := Descend(z.vruntime);
      HangLeaf(z, y, p);
    }

    method Insert(z: RqNode) returns (ghost steps: nat)
      requires Valid()
      requires z !in nodes && z.entry == Entry(|nodes|, z.vruntime)
      requires z.left == null && z.right == null && z.color == Red
      modifies `root, `leftmost, `nodes, `tree, nodes, z
      ensures Valid() && nodes == old(nodes) + [z]
      ensures steps <= Height(old(tree))
    {
      ghost var p;
      p, steps := Attach(z);
      InsertFixup(z, p, Branch(Leaf, z.entry, Red, Leaf));
    }

    /** Hangs a new node into the tree and repairs the colours. */
    method RbInsert(task: Task, vruntime: nat) returns (ghost n: RqNode, ghost steps: nat)
      requires Valid()
      modifies `root, `leftmost, `nodes, `tree, nodes
      ensures Valid() && nodes == old(nodes) + [n]
      ensures fresh(n) && n.task == task && n.vruntime == vruntime
      // the way down is logarithmic in the number of queued nodes
      ensures steps <= 2 * Log2(|old(nodes)| + 1)
    {
      ghost var high, bound := Height(tree), 2 * Log2(|nodes| + 1);
      DescentIsLogarithmic();
      assert high <= bound;
      var z := new RqNode(task, vruntime, |nodes|);
      n := z;
      steps := Insert(z);
    }

    constructor ()
      ensures Valid() && nodes == [] && initialized && Accounted()
      ensures minVruntime == 0 && nrRunning == 0 && loadWeight == 0
    {
      root, leftmost, nodes, tree := null, null, [], Leaf;
      minVruntime, nrRunning, loadWeight, initialized := 0, 0, 0, true;
    }

    /** What the tasks of the queue carry. */
    ghost function Records(): seq<Option<TaskInfo>>
      reads `nodes, Tasks(nodes)
    {
      Infos(Tasks(nodes))
    }

    ghost predicate Accounted()
      reads `nodes, `nrRunning, `loadWeight, Tasks(nodes)
    {
      Books(nodes, Records(), nrRunning, loadWeight)
    }

    /** The node at the head of the queue came first of all those with the least key. */
    lemma FirstIsEarliestMinimum() returns (k: nat)
      requires Valid()
      ensures nodes == [] <==> leftmost == null
      ensures nodes != [] ==> k < |nodes| && EarliestMinimum(Arrivals(), k) && leftmost == nodes[k]
    {
      SizeOfQueue();
      k := 0;
      if nodes != [] {
        k := HeadIsEarliestMinimum(Arrivals());
      }
    }

    /** The earliest-enqueued task of least virtual runtime; the queue stays as it is. */
    method PickNextTask(ticks: nat) returns (task: Task?, ghost k: nat)
      requires Valid()
      modifies Tasks(nodes)
      ensures Valid()
      ensures task == null <==> nodes == []
      ensures task != null ==> k < |nodes| && EarliestMinimum(Arrivals(), k) && task == nodes[k].task
      ensures task != null && old(task.info.Some?) ==>
              task.info == Some(old(task.info).value.(execStart := Wrap64(ticks * 1000)))
      ensures task != null && old(task.info.None?) ==> task.info == None
      ensures forall i :: 0 <= i < |nodes| && nodes[i].task != task ==> nodes[i].task.info == old(nodes[i].task.info)
      ensures Accounted() <==> old(Accounted())
    {
      ghost var infos := Records();
      k := FirstIsEarliestMinimum();
      if leftmost == null { return null, k; }
      task := leftmost.task;
      if task.info.Some? {
        task.info := Some(task.info.value.(execStart := Wrap64(ticks * 1000)));
      }
      SameBooks(nodes, infos, Records(), nrRunning, loadWeight);
    }

    method PostInitEntity(task: Task)
      modifies task
      ensures task.info == Some(TaskInfo(minVruntime, PrioToWeight(0), 0, 0))
    {
      task.info := Some(TaskInfo(minVruntime, PrioToWeight(0), 0, 0));
    }

    /** The virtual runtime a task is placed at: never behind the queue's minimum. */
    ghost function PlacedAt(vruntime: nat, initial: bool): (v: nat)
      reads `minVruntime
      ensures v >= minVruntime
    {
      if initial || vruntime < minVruntime then minVruntime else vruntime
    }

    /** Queues a task that has its scheduling record, and does nothing for one that has not. */
    method PlaceEntity(task: Task?, initial: bool) returns (ghost n: RqNode?)
      requires Valid()
      modifies `root, `leftmost, `nodes, `tree, nodes, task
      ensures Valid()
      ensures n == null <==> task == null || old(task.info.None?)
      ensures n == null ==> nodes == old(nodes) && (task != null ==> task.info == old(task.info))
      ensures n != null ==> nodes == old(nodes) + [n] && fresh(n) && n.task == task
      ensures n != null ==> n.vruntime == PlacedAt(old(task.info.value.vruntime), initial)
      ensures n != null ==> task.info == Some(old(task.info).value.(vruntime := n.vruntime))
    {
      if task == null || task.info.None? { return null; }
      var vruntime := task.info.value.vruntime;
      if initial {
        vruntime := minVruntime;
      } else {
        if vruntime < minVruntime { vruntime := minVruntime; }
      }
      task.info := Some(task.info.value.(vruntime := vruntime));
      ghost var steps;
      n, steps := RbInsert(task, vruntime);
    }

    /** The scheduling record of a task, or the one it is given first. */
    ghost function RecordOf(info: Option<TaskInfo>): TaskInfo
      reads `minVruntime
    {
      if info.None? then TaskInfo(minVruntime, PrioToWeight(0), 0, 0) else info.value
    }

    /** Gives the task a record if it has none, and places it. */
    method Admit(task: Task) returns (ghost n: RqNode)
      requires Valid()
      modifies `root, `leftmost, `nodes, `tree, nodes, task
      ensures Valid()
      ensures nodes == old(nodes) + [n] && fresh(n) && n.task == task
      ensures n.vruntime == PlacedAt(RecordOf(old(task.info)).vruntime, false)
      ensures task.info == Some(RecordOf(old(task.info)).(vruntime := n.vruntime))
    {
      if task.info.None? { PostInitEntity(task); }
      n := PlaceEntity(task, false);
    }

    method CountIn(weight: nat)
      requires Valid()
      modifies `nrRunning, `loadWeight
      ensures Valid()
      ensures nrRunning == Wrap32(old(nrRunning) + 1) && loadWeight == Loaded(old(loadWeight), weight)
    {
      ghost var m := Snapshot(nodes);
      nrRunning := Wrap32(nrRunning + 1);
      loadWeight := Wrap64(loadWeight + weight);
      assert Snapshot(nodes) == m;
    }

    /** The body of `cfs_enqueue_task`. */
    method Enqueue(task: Task?) returns (ghost n: RqNode?)
      requires Valid()
      modifies `root, `leftmost, `nodes, `tree, `nrRunning, `loadWeight, nodes, task
      ensures Valid()
      ensures n == null <==> task == null || !initialized
      ensures n == null ==> nodes == old(nodes) && nrRunning == old(nrRunning) && loadWeight == old(loadWeight)
      ensures n == null && task != null ==> task.info == old(task.info)
      ensures n != null ==> nodes == old(nodes) + [n] && n.task == task
      ensures n != null ==> n.vruntime == PlacedAt(RecordOf(old(task.info)).vruntime, false)
      ensures n != null ==> task.info == Some(RecordOf(old(task.info)).(vruntime := n.vruntime))
      ensures n != null ==> nrRunning == Wrap32(old(nrRunning) + 1)
      ensures n != null ==> loadWeight == Loaded(old(loadWeight), task.info.value.weight)
    {
      if task == null || !initialized { return null; }
      n := Admit(task);
      CountIn(task.info.value.weight);
    }

    lemma CountedIn(queue: seq<RqNode>, infos: seq<Option<TaskInfo>>, nr: nat, load: nat, n: RqNode, record: TaskInfo)
      requires nodes == queue + [n] && n.task.info == Some(record) && record.vruntime == n.vruntime
      requires nrRunning == Wrap32(nr + 1) && loadWeight == Loaded(load, record.weight)
      requires Books(queue, infos, nr, load)
      requires forall i :: 0 <= i < |queue| && queue[i].task != n.task ==> queue[i].task.info == infos[i]
      requires forall i :: 0 <= i < |queue| && queue[i].task == n.task ==> WeightOf(infos[i]) == record.weight
      ensures Accounted() <==> !Queued(queue, n.task)
      ensures 0 < record.weight < 0x1_0000_0000_0000_0000 ==>
                (LoadRight(nodes, Records(), loadWeight) <==> !Queued(queue, n.task))
    {
      assert OnlyChanged(queue, infos, Records(), n.task);
      BooksAfterEnqueue(queue, infos, nr, load, n, nodes, Records(), nrRunning, loadWeight, record);
    }

    /** Puts a task into the queue. The books stay right exactly if it was not queued yet. */
    method EnqueueTask(task: Task?) returns (ghost n: RqNode?)
      requires Valid()
      modifies `root, `leftmost, `nodes, `tree, `nrRunning, `loadWeight, nodes, task
      ensures Valid()
      ensures n == null <==> task == null || !initialized
      ensures n == null ==> nodes == old(nodes) && nrRunning == old(nrRunning) && loadWeight == old(loadWeight)
      ensures n == null && task != null ==> task.info == old(task.info)
      ensures n != null ==> nodes == old(nodes) + [n] && n.task == task
      ensures n != null ==> n.vruntime == PlacedAt(RecordOf(old(task.info)).vruntime, false)
      ensures n != null ==> task.info == Some(RecordOf(old(task.info)).(vruntime := n.vruntime))
      ensures n != null && old(Accounted()) ==> (Accounted() <==> !Queued(old(nodes), task))
      ensures n != null && old(Accounted()) && 0 < task.info.value.weight < 0x1_0000_0000_0000_0000 ==>
                (LoadRight(nodes, Records(), loadWeight) <==> !Queued(old(nodes), task))
    {
      ghost var queue, infos, nr, load := nodes, Records(), nrRunning, loadWeight;
      n := Enqueue(task);
      if n != null && Books(queue, infos, nr, load) {
        CountedIn(queue, infos, nr, load, n, task.info.value);
      }
    }

    /** The body of `cfs_set_priority`. */
    method Renice(task: Task?, nice: int) returns (ghost done: bool)
      modifies `loadWeight, task
      ensures done <==> task != null && MIN_NICE <= nice <= MAX_NICE
      ensures !done ==> loadWeight == old(loadWeight) && (task != null ==> task.info == old(task.info))
      ensures done ==> var record := RecordOf(old(task.info));
        && task.info == Some(record.(staticPrio := nice, weight := PrioToWeight(nice)))
        && loadWeight == Wrap64(old(loadWeight) - record.weight + PrioToWeight(nice))
    {
      if task == null || nice < MIN_NICE || nice > MAX_NICE { return false; }
      if task.info.None? { PostInitEntity(task); }
      var oldWeight := task.info.value.weight;
      task.info := Some(task.info.value.(staticPrio := nice, weight := PrioToWeight(nice)));
      loadWeight := Wrap64(loadWeight - oldWeight + task.info.value.weight);
      return true;
    }

    /** Sets the nice value. The books stay right exactly if the task is queued or its weight stays. */
    method SetPriority(task: Task?, nice: int) returns (ghost done: bool)
      requires Valid()
      modifies `loadWeight, task
      ensures Valid()
      ensures done <==> task != null && MIN_NICE <= nice <= MAX_NICE
      ensures !done ==> loadWeight == old(loadWeight) && (task != null ==> task.info == old(task.info))
      ensures done ==> task.info == Some(RecordOf(old(task.info)).(staticPrio := nice, weight := PrioToWeight(nice)))
      ensures done && old(Accounted()) && RecordOf(old(task.info)).weight < 0x1_0000_0000 ==>
        (Accounted() <==> Queued(nodes, task) || RecordOf(old(task.info)).weight == PrioToWeight(nice))
    {
      ghost var infos, load := Records(), loadWeight;
      ghost var record := if task == null then RecordOf(None) else RecordOf(task.info);
      done := Renice(task, nice);
      assert Snapshot(nodes) == old(Snapshot(nodes));
      assert done && Books(nodes, infos, nrRunning, load) && record.weight < 0x1_0000_0000 ==>
             (Accounted() <==> Queued(nodes, task) || record.weight == PrioToWeight(nice)) by {
        if done && Books(nodes, infos, nrRunning, load) && record.weight < 0x1_0000_0000 {
          assert OnlyChanged(nodes, infos, Records(), task);
          BooksAfterReweighing(nodes, infos, nrRunning, load, task, Records(), loadWeight, record, task.info.value);
        }
      }
    }
  }
}
