/** The address table of `arp.c` as a function of what was heard, and when it is the
    least recently used cache it is meant to be. */
module ArpHistory {
  import opened Machine

  const ARP_MAX_ENTRIES := 32

  type Mac = m: seq<Byte> | |m| == 6 witness [0, 0, 0, 0, 0, 0]

  datatype Slot = Slot(ip: nat, mac: Mac, timestamp: nat, valid: bool)

  /** A sender heard at some tick of the clock. */
  datatype Heard = Heard(ip: nat, mac: Mac, tick: nat)

  type Table = t: seq<Slot> | |t| == ARP_MAX_ENTRIES witness EmptyTable()

  function EmptyTable(): seq<Slot> {
    seq(ARP_MAX_ENTRIES, i => Slot(0, [0, 0, 0, 0, 0, 0], 0, false))
  }

  // ---------- The table, step by step ----------

  predicate Matches(s: Slot, ip: nat) {
    s.valid && s.ip == ip
  }

  /** The first slot of an address, or the number of slots. */
  function Find(t: seq<Slot>, ip: nat): (i: nat)
    ensures i <= |t| && (i < |t| ==> Matches(t[i], ip))
    ensures forall j {:trigger t[j]} :: 0 <= j < i ==> !Matches(t[j], ip)
  {
    if t == [] then 0
    else
      var m := |t| - 1;
      var i := Find(t[..m], ip);
      if i < m || Matches(t[m], ip) then i else m + 1
  }

  /** The first unused slot, or the number of slots. */
  function Free(t: seq<Slot>): (i: nat)
    ensures i <= |t| && (i < |t| ==> !t[i].valid)
    ensures forall j {:trigger t[j]} :: 0 <= j < i ==> t[j].valid
  {
    if t == [] then 0
    else
      var m := |t| - 1;
      var i := Free(t[..m]);
      if i < m || !t[m].valid then i else m + 1
  }

  /** The first slot with the least timestamp. */
  function Oldest(t: seq<Slot>): (k: nat)
    requires t != []
    ensures k < |t|
    ensures forall j {:trigger t[j]} :: 0 <= j < |t| ==> t[k].timestamp <= t[j].timestamp
    ensures forall j {:trigger t[j]} :: 0 <= j < k ==> t[k].timestamp < t[j].timestamp
  {
    var m := |t| - 1;
    if m == 0 then 0
    else
      var k := Oldest(t[..m]);
      if t[m].timestamp < t[k].timestamp then m else k
  }

  /** Where an address goes: to its own slot, else to a free one, else to the oldest. */
  function Place(t: Table, ip: nat): nat {
    if Find(t, ip) < |t| then Find(t, ip) else if Free(t) < |t| then Free(t) else Oldest(t)
  }

  function Updated(t: Table, e: Heard): Table {
    t[Place(t, e.ip) := Slot(e.ip, e.mac, e.tick, true)]
  }

  /** The table after all that was heard. */
  function Run(h: seq<Heard>): Table {
    if h == [] then EmptyTable() else Updated(Run(h[..|h| - 1]), h[|h| - 1])
  }

  function Lookup(t: Table, ip: nat): Option<Mac> {
    var i := Find(t, ip);
    if i < |t| then Some(t[i].mac) else None
  }

  /** Whoever was just heard is found, whatever the clock shows. */
  lemma LookupJustHeard(t: Table, e: Heard)
    ensures Lookup(Updated(t, e), e.ip) == Some(e.mac)
  {
    var t', i := Updated(t, e), Place(t, e.ip);
    assert Matches(t'[i], e.ip);
    forall j | 0 <= j < i ensures !Matches(t'[j], e.ip) {
      assert t'[j] == t[j];
    }
    assert Find(t', e.ip) == i;
  }

  // ---------- The senders by how recently they were heard ----------

  function Dropped(d: seq<Heard>, ip: nat): seq<Heard> {
    if d == [] then []
    else Dropped(d[..|d| - 1], ip) + if d[|d| - 1].ip == ip then [] else [d[|d| - 1]]
  }

  /** Each sender as last heard, the latest first. */
  function Senders(h: seq<Heard>): seq<Heard> {
    if h == [] then [] else [h[|h| - 1]] + Dropped(Senders(h[..|h| - 1]), h[|h| - 1].ip)
  }

  predicate Distinct(d: seq<Heard>) {
    forall i, j :: 0 <= i < j < |d| ==> d[i].ip != d[j].ip
  }

  /** No tick is before an earlier one. */
  predicate Monotone(h: seq<Heard>) {
    forall i, j :: 0 <= i < j < |h| ==> h[i].tick <= h[j].tick
  }

  predicate Strict(h: seq<Heard>) {
    forall i, j :: 0 <= i < j < |h| ==> h[i].tick < h[j].tick
  }

  lemma {:induction false} DroppedMembers(d: seq<Heard>, ip: nat)
    ensures forall e :: e in Dropped(d, ip) <==> e in d && e.ip != ip
  {
    if d != [] { DroppedMembers(d[..|d| - 1], ip); }
  }

  lemma {:induction false} DroppedNone(d: seq<Heard>, ip: nat)
    requires forall i :: 0 <= i < |d| ==> d[i].ip != ip
    ensures Dropped(d, ip) == d
  {
    if d != [] { DroppedNone(d[..|d| - 1], ip); }
  }

  lemma {:induction false} DroppedOne(d: seq<Heard>, k: nat)
    requires Distinct(d) && k < |d|
    ensures Dropped(d, d[k].ip) == d[..k] + d[k + 1..]
  {
    var m := |d| - 1;
    if k == m {
      DroppedNone(d[..m], d[k].ip);
    } else {
      DroppedOne(d[..m], k);
      assert d[k + 1..] == d[..m][k + 1..] + [d[m]];
    }
  }

  /** Dropping a sender keeps the others in order. */
  lemma DroppedDistinct(d: seq<Heard>, ip: nat)
    requires Distinct(d)
    ensures Distinct(Dropped(d, ip))
    ensures forall i :: 0 <= i < |Dropped(d, ip)| ==> Dropped(d, ip)[i].ip != ip
  {
    if k :| 0 <= k < |d| && d[k].ip == ip {
      DroppedOne(d, k);
    } else {
      DroppedNone(d, ip);
    }
  }

  lemma {:induction false} SendersDistinct(h: seq<Heard>)
    ensures Distinct(Senders(h))
  {
    if h != [] {
      var m := |h| - 1;
      SendersDistinct(h[..m]);
      DroppedDistinct(Senders(h[..m]), h[m].ip);
    }
  }

  /** What was heard at `i` is the last heard of its sender. */
  predicate Last(h: seq<Heard>, i: int) {
    0 <= i < |h| && forall j :: i < j < |h| ==> h[j].ip != h[i].ip
  }

  lemma LastOfLonger(h: seq<Heard>, i: int)
    requires 0 <= i < |h| - 1
    ensures Last(h, i) <==> Last(h[..|h| - 1], i) && h[i].ip != h[|h| - 1].ip
  {
    var m := |h| - 1;
    if Last(h[..m], i) && h[i].ip != h[m].ip {
      forall j | i < j < |h| ensures h[j].ip != h[i].ip {
        if j < m { assert h[..m][j] == h[j]; }
      }
    }
    if Last(h, i) {
      forall j | i < j < m ensures h[..m][j].ip != h[..m][i].ip {
        assert h[..m][j] == h[j];
      }
    }
  }

  ghost predicate LastHeard(h: seq<Heard>, e: Heard) {
    exists i :: Last(h, i) && h[i] == e
  }

  lemma LastHeardOfLonger(h: seq<Heard>, e: Heard)
    requires h != []
    ensures LastHeard(h, e) <==> e == h[|h| - 1] || (LastHeard(h[..|h| - 1], e) && e.ip != h[|h| - 1].ip)
  {
    var m := |h| - 1;
    if i :| Last(h, i) && h[i] == e && i < m {
      LastOfLonger(h, i);
      assert Last(h[..m], i) && h[..m][i] == e;
    }
    if LastHeard(h[..m], e) && e.ip != h[m].ip {
      var i :| Last(h[..m], i) && h[..m][i] == e;
      LastOfLonger(h, i);
      assert Last(h, i) && h[i] == e;
    }
    assert Last(h, m);
  }

  /** What stands in `Senders` is exactly what was heard last of each sender. */
  lemma {:induction false} SendersAreLast(h: seq<Heard>, e: Heard)
    ensures e in Senders(h) <==> LastHeard(h, e)
  {
    if h != [] {
      var m := |h| - 1;
      SendersAreLast(h[..m], e);
      DroppedMembers(Senders(h[..m]), h[m].ip);
      LastHeardOfLonger(h, e);
    }
  }

  ghost predicate LaterHeard(h: seq<Heard>, a: Heard, b: Heard) {
    exists i, j :: j < i && Last(h, i) && Last(h, j) && h[i] == a && h[j] == b
  }

  lemma LaterInLonger(h: seq<Heard>, a: Heard, b: Heard)
    requires h != [] && a.ip != h[|h| - 1].ip && b.ip != h[|h| - 1].ip && LaterHeard(h[..|h| - 1], a, b)
    ensures LaterHeard(h, a, b)
  {
    var m := |h| - 1;
    var i, j :| j < i && Last(h[..m], i) && Last(h[..m], j) && h[..m][i] == a && h[..m][j] == b;
    LastOfLonger(h, i);
    LastOfLonger(h, j);
    assert Last(h, i) && Last(h, j);
  }

  lemma LatestOfLonger(h: seq<Heard>, b: Heard)
    requires h != [] && b.ip != h[|h| - 1].ip && LastHeard(h[..|h| - 1], b)
    ensures LaterHeard(h, h[|h| - 1], b)
  {
    var m := |h| - 1;
    var j :| Last(h[..m], j) && h[..m][j] == b;
    LastOfLonger(h, j);
    assert Last(h, m) && Last(h, j);
  }

  /** ... the latest heard first. */
  lemma {:induction false} SendersByAge(h: seq<Heard>, a: nat, b: nat)
    requires a < b < |Senders(h)|
    ensures LaterHeard(h, Senders(h)[a], Senders(h)[b])
  {
    var m := |h| - 1;
    var before, ip, x, y := Senders(h[..m]), h[m].ip, Senders(h)[a], Senders(h)[b];
    if a == 0 {
      assert y == Dropped(before, ip)[b - 1];
      DroppedMembers(before, ip);
      SendersAreLast(h[..m], y);
      LatestOfLonger(h, y);
    } else {
      var a', b' := Undropped(h[..m], ip, a - 1, b - 1);
      assert x == before[a'] && y == before[b'];
      SendersByAge(h[..m], a', b');
      LaterInLonger(h, x, y);
    }
  }

  lemma Undropped(h: seq<Heard>, ip: nat, a: nat, b: nat) returns (a': nat, b': nat)
    requires a < b < |Dropped(Senders(h), ip)|
    ensures a' < b' < |Senders(h)|
    ensures Senders(h)[a'] == Dropped(Senders(h), ip)[a] && Senders(h)[b'] == Dropped(Senders(h), ip)[b]
    ensures Senders(h)[a'].ip != ip && Senders(h)[b'].ip != ip
  {
    var d := Senders(h);
    SendersDistinct(h);
    DroppedDistinct(d, ip);
    if k :| 0 <= k < |d| && d[k].ip == ip {
      DroppedOne(d, k);
      a' := if a < k then a else a + 1;
      b' := if b < k then b else b + 1;
    } else {
      DroppedNone(d, ip);
      a', b' := a, b;
    }
  }

  lemma SendersByTick(h: seq<Heard>)
    requires Monotone(h)
    ensures forall a, b :: 0 <= a < b < |Senders(h)| ==> Senders(h)[a].tick >= Senders(h)[b].tick
    ensures Strict(h) ==> forall a, b :: 0 <= a < b < |Senders(h)| ==> Senders(h)[a].tick > Senders(h)[b].tick
  {
    forall a, b | 0 <= a < b < |Senders(h)|
      ensures Senders(h)[a].tick >= Senders(h)[b].tick && (Strict(h) ==> Senders(h)[a].tick > Senders(h)[b].tick)
    {
      SendersByAge(h, a, b);
    }
  }

  // ---------- The table against the senders ----------

  function Entry(s: Slot): Heard {
    Heard(s.ip, s.mac, s.timestamp)
  }

  /** The senders that fit. */
  function Fitting(d: seq<Heard>): (r: seq<Heard>)
    ensures |r| == if |d| <= ARP_MAX_ENTRIES then |d| else ARP_MAX_ENTRIES
    ensures r <= d
  {
    d[..if |d| <= ARP_MAX_ENTRIES then |d| else ARP_MAX_ENTRIES]
  }

  /** The used slots come first; they hold exactly `d`, each once. */
  ghost predicate Mirrors(t: Table, d: seq<Heard>) {
    && |d| <= |t|
    && (forall i {:trigger t[i]} :: 0 <= i < |t| ==> (t[i].valid <==> i < |d|))
    && (forall i, j {:trigger t[i], t[j]} :: 0 <= i < j < |d| ==> t[i].ip != t[j].ip)
    && (forall i {:trigger t[i]} :: 0 <= i < |d| ==> Entry(t[i]) in d)
    && (forall k {:trigger d[k]} :: 0 <= k < |d| ==> Holds(t, d[k]))
  }

  ghost predicate Holds(t: Table, e: Heard) {
    exists i :: 0 <= i < |t| && t[i].valid && Entry(t[i]) == e
  }

  /** What the table forgets is the sender heard longest ago: no slot before its own is as old. */
  ghost predicate EvictsRight(t: Table, d: seq<Heard>) {
    |d| < |t| || exists k :: 0 <= k < |t| && Entry(t[k]) == d[|d| - 1]
                      && forall i :: 0 <= i < k ==> t[i].timestamp > t[k].timestamp
  }

  lemma TakenFirst(d: seq<Heard>, e: Heard, k: nat, n: nat)
    requires k < n <= |d|
    ensures ([e] + (d[..k] + d[k + 1..]))[..n] == [e] + d[..n][..k] + d[..n][k + 1..]
  {
  }

  lemma FittingKnown(d: seq<Heard>, e: Heard, k: nat)
    requires Distinct(d) && k < |Fitting(d)| && d[k].ip == e.ip
    ensures Fitting([e] + Dropped(d, e.ip)) == [e] + Fitting(d)[..k] + Fitting(d)[k + 1..]
  {
    var n := |Fitting(d)|;
    DroppedOne(d, k);
    TakenFirst(d, e, k, n);
    assert Fitting(d) == d[..n];
    assert Fitting([e] + Dropped(d, e.ip)) == ([e] + (d[..k] + d[k + 1..]))[..n];
  }

  lemma {:induction false} DroppedPrefix(d: seq<Heard>, ip: nat, n: nat)
    requires n <= |d| && forall i :: 0 <= i < n ==> d[i].ip != ip
    ensures d[..n] <= Dropped(d, ip)
  {
    if n < |d| {
      DroppedPrefix(d[..|d| - 1], ip, n);
      assert d[..|d| - 1][..n] == d[..n];
    } else {
      DroppedNone(d, ip);
    }
  }

  lemma FittingNew(d: seq<Heard>, e: Heard)
    requires forall k :: 0 <= k < |Fitting(d)| ==> d[k].ip != e.ip
    ensures Fitting([e] + Dropped(d, e.ip)) ==
            [e] + if |Fitting(d)| < ARP_MAX_ENTRIES then Fitting(d) else d[..ARP_MAX_ENTRIES - 1]
  {
    DroppedPrefix(d, e.ip, |Fitting(d)|);
    if |Fitting(d)| < ARP_MAX_ENTRIES {
      DroppedNone(d, e.ip);
    }
  }

  /** An address is known to the table when it is among the senders it holds. */
  lemma FindKnown(t: Table, d: seq<Heard>, ip: nat)
    requires Mirrors(t, d)
    ensures Find(t, ip) < |t| <==> exists k :: 0 <= k < |d| && d[k].ip == ip
    ensures Find(t, ip) < |t| ==> Find(t, ip) < |d|
  {
    var i := Find(t, ip);
    if i < |t| {
      var k :| 0 <= k < |d| && d[k] == Entry(t[i]);
      assert d[k].ip == ip;
    }
    if k :| 0 <= k < |d| && d[k].ip == ip {
      assert Holds(t, d[k]);
      var j :| 0 <= j < |t| && t[j].valid && Entry(t[j]) == d[k];
    }
  }

  lemma MovedUp(d: seq<Heard>, e: Heard, k: nat, m: nat)
    requires k < |d| && m < |d| && m != k
    ensures d[m] in [e] + d[..k] + d[k + 1..]
  {
    assert ([e] + d[..k] + d[k + 1..])[if m < k then m + 1 else m] == d[m];
  }

  lemma StepKnown(t: Table, d: seq<Heard>, e: Heard, k: nat)
    requires Mirrors(t, d) && Distinct(d) && k < |d| && d[k].ip == e.ip
    ensures Mirrors(Updated(t, e), [e] + d[..k] + d[k + 1..])
  {
    FindKnown(t, d, e.ip);
    var i, t', d' := Find(t, e.ip), Updated(t, e), [e] + d[..k] + d[k + 1..];
    assert Entry(t'[i]) == e == d'[0];
    forall j | 0 <= j < |d'| ensures Entry(t'[j]) in d' {
      if j != i {
        var m :| 0 <= m < |d| && d[m] == Entry(t[j]);
        MovedUp(d, e, k, m);
      }
    }
    forall m | 0 <= m < |d'| ensures Holds(t', d'[m]) {
      if m > 0 {
        var x := if m <= k then m - 1 else m;
        assert d'[m] == d[x];
        HeldStill(t, t', i, d[x]);
      }
    }
  }

  lemma HeldStill(t: Table, t': Table, i: nat, e: Heard)
    requires i < |t| && Holds(t, e) && e.ip != t[i].ip
    requires forall j {:trigger t'[j]} :: 0 <= j < |t| && j != i ==> t'[j] == t[j]
    ensures Holds(t', e)
  {
    var j :| 0 <= j < |t| && t[j].valid && Entry(t[j]) == e;
    assert t'[j] == t[j];
  }

  lemma StepFree(t: Table, d: seq<Heard>, e: Heard)
    requires Mirrors(t, d) && |d| < |t| && forall k :: 0 <= k < |d| ==> d[k].ip != e.ip
    ensures Mirrors(Updated(t, e), [e] + d)
  {
    FindKnown(t, d, e.ip);
    var i, t', d' := Free(t), Updated(t, e), [e] + d;
    assert !t[|d|].valid;
    assert i == |d| && Entry(t'[i]) == e == d'[0];
    forall j | 0 <= j < |d| ensures Entry(t'[j]) in d' && t'[j].ip != e.ip {
      var m :| 0 <= m < |d| && d[m] == Entry(t[j]);
      assert d'[m + 1] == d[m];
    }
    forall m | 0 <= m < |d'| ensures Holds(t', d'[m]) {
      if m > 0 {
        assert Holds(t, d[m - 1]);
        var j :| 0 <= j < |t| && t[j].valid && Entry(t[j]) == d[m - 1];
        assert t'[j] == t[j];
      }
    }
  }

  /** In a full table, a new sender must push out the last of `d`. */
  lemma StepFull(t: Table, d: seq<Heard>, e: Heard)
    requires Mirrors(t, d) && Distinct(d) && |d| == |t| && forall k :: 0 <= k < |d| ==> d[k].ip != e.ip
    ensures Mirrors(Updated(t, e), [e] + d[..|d| - 1]) <==> Entry(t[Oldest(t)]) == d[|d| - 1]
  {
    FindKnown(t, d, e.ip);
    assert forall j {:trigger t[j]} :: 0 <= j < |t| ==> t[j].valid;
    if Entry(t[Oldest(t)]) == d[|d| - 1] {
      StepEvicts(t, d, e, Oldest(t));
    } else {
      StepKeepsLast(t, d, e, Oldest(t));
    }
  }

  lemma StepKeepsLast(t: Table, d: seq<Heard>, e: Heard, i: nat)
    requires Mirrors(t, d) && Distinct(d) && |d| == |t| && forall k :: 0 <= k < |d| ==> d[k].ip != e.ip
    requires i < |t| && Entry(t[i]) != d[|d| - 1]
    ensures !Mirrors(t[i := Slot(e.ip, e.mac, e.tick, true)], [e] + d[..|d| - 1])
  {
    var last, t', d' := d[|d| - 1], t[i := Slot(e.ip, e.mac, e.tick, true)], [e] + d[..|d| - 1];
    assert Holds(t, last);
    var j :| 0 <= j < |t| && t[j].valid && Entry(t[j]) == last;
    assert t'[j] == t[j];
    assert last !in d';
  }

  lemma StepEvicts(t: Table, d: seq<Heard>, e: Heard, i: nat)
    requires Mirrors(t, d) && Distinct(d) && |d| == |t| && forall k :: 0 <= k < |d| ==> d[k].ip != e.ip
    requires i < |t| && Entry(t[i]) == d[|d| - 1]
    ensures Mirrors(t[i := Slot(e.ip, e.mac, e.tick, true)], [e] + d[..|d| - 1])
  {
    var t', d' := t[i := Slot(e.ip, e.mac, e.tick, true)], [e] + d[..|d| - 1];
    assert Entry(t'[i]) == e == d'[0];
    forall j | 0 <= j < |t| && j != i ensures Entry(t'[j]) in d' && t'[j].ip != e.ip {
      var m :| 0 <= m < |d| && d[m] == Entry(t[j]);
      assert t[j].ip != t[i].ip;
      assert d'[m + 1] == d[m];
    }
    forall m | 0 <= m < |d'| ensures Holds(t', d'[m]) {
      if m > 0 {
        assert Holds(t, d[m - 1]);
        var j :| 0 <= j < |t| && t[j].valid && Entry(t[j]) == d[m - 1];
        assert d[m - 1].ip != d[|d| - 1].ip;
        assert t'[j] == t[j];
      }
    }
  }

  /** With a clock that never goes back, the oldest slot is the right one exactly when
      the one heard longest ago has no equally old slot before it. */
  lemma OldestIsRight(t: Table, d: seq<Heard>)
    requires Mirrors(t, d) && Distinct(d) && |d| == |t|
    requires forall a, b :: 0 <= a < b < |d| ==> d[a].tick >= d[b].tick
    ensures Entry(t[Oldest(t)]) == d[|d| - 1] <==> EvictsRight(t, d)
  {
    var o, last := Oldest(t), d[|d| - 1];
    forall j | 0 <= j < |t| ensures t[j].timestamp >= last.tick {
      var m :| 0 <= m < |d| && d[m] == Entry(t[j]);
    }
    if EvictsRight(t, d) {
      var k :| 0 <= k < |t| && Entry(t[k]) == last && forall i :: 0 <= i < k ==> t[i].timestamp > t[k].timestamp;
      assert t[o].timestamp <= t[k].timestamp;
    }
  }

  // ---------- Whole histories ----------

  predicate Known(d: seq<Heard>, ip: nat) {
    exists k :: 0 <= k < |d| && d[k].ip == ip
  }

  lemma StepCachesKnown(t: Table, s: seq<Heard>, e: Heard)
    requires Distinct(s) && Mirrors(t, Fitting(s)) && Known(Fitting(s), e.ip)
    ensures Mirrors(Updated(t, e), Fitting([e] + Dropped(s, e.ip)))
  {
    var k :| 0 <= k < |Fitting(s)| && Fitting(s)[k].ip == e.ip;
    FittingKnown(s, e, k);
    StepKnown(t, Fitting(s), e, k);
  }

  lemma StepCachesNew(t: Table, s: seq<Heard>, e: Heard)
    requires Distinct(s) && Mirrors(t, Fitting(s)) && !Known(Fitting(s), e.ip)
    requires forall a, b :: 0 <= a < b < |s| ==> s[a].tick >= s[b].tick
    ensures Mirrors(Updated(t, e), Fitting([e] + Dropped(s, e.ip))) <==> EvictsRight(t, Fitting(s))
  {
    FittingNew(s, e);
    if |s| < ARP_MAX_ENTRIES {
      StepFree(t, Fitting(s), e);
    } else {
      StepEvictsRight(t, s, e);
    }
  }

  /** One more packet. Told of a sender it does not know, a full table stays a cache of
      the most recent senders exactly when its oldest slot is the right one. */
  lemma CachesNext(h: seq<Heard>, e: Heard)
    requires Monotone(h) && Mirrors(Run(h), Fitting(Senders(h)))
    ensures Mirrors(Run(h + [e]), Fitting(Senders(h + [e]))) <==>
            Known(Fitting(Senders(h)), e.ip) || EvictsRight(Run(h), Fitting(Senders(h)))
  {
    assert (h + [e])[..|h|] == h;
    SendersDistinct(h);
    SendersByTick(h);
    if Known(Fitting(Senders(h)), e.ip) {
      StepCachesKnown(Run(h), Senders(h), e);
    } else {
      StepCachesNew(Run(h), Senders(h), e);
    }
  }

  lemma StepEvictsRight(t: Table, s: seq<Heard>, e: Heard)
    requires Distinct(s) && |s| >= ARP_MAX_ENTRIES && Mirrors(t, s[..ARP_MAX_ENTRIES])
    requires forall a, b :: 0 <= a < b < |s| ==> s[a].tick >= s[b].tick
    requires !Known(s[..ARP_MAX_ENTRIES], e.ip)
    ensures Mirrors(Updated(t, e), [e] + s[..ARP_MAX_ENTRIES - 1]) <==> EvictsRight(t, s[..ARP_MAX_ENTRIES])
  {
    var d := s[..ARP_MAX_ENTRIES];
    assert s[..ARP_MAX_ENTRIES - 1] == d[..|d| - 1];
    StepFull(t, d, e);
    OldestIsRight(t, d);
  }

  lemma StrictlyOldest(t: Table, d: seq<Heard>)
    requires Mirrors(t, d)
    requires forall a, b :: 0 <= a < b < |d| ==> d[a].tick > d[b].tick
    ensures EvictsRight(t, d)
  {
    if |d| == |t| {
      var last := d[|d| - 1];
      assert Holds(t, last);
      var k :| 0 <= k < |t| && t[k].valid && Entry(t[k]) == last;
      forall i | 0 <= i < k ensures t[i].timestamp > t[k].timestamp {
        assert t[i].ip != t[k].ip;
        var m :| 0 <= m < |d| && d[m] == Entry(t[i]);
      }
    }
  }

  /** If the clock moves between packets, the table holds exactly the senders heard most
      recently, each as last heard, and no more than it has room for. */
  lemma {:induction false} Caches(h: seq<Heard>)
    requires Strict(h)
    ensures Mirrors(Run(h), Fitting(Senders(h)))
  {
    if h != [] {
      var g, e := h[..|h| - 1], h[|h| - 1];
      Caches(g);
      SendersByTick(g);
      StrictlyOldest(Run(g), Fitting(Senders(g)));
      CachesNext(g, e);
      assert g + [e] == h;
    }
  }

  /** What the table answers is what was last heard from that sender, if it is held. */
  lemma LookupAgrees(t: Table, d: seq<Heard>, ip: nat)
    requires Mirrors(t, d) && Distinct(d)
    ensures match Lookup(t, ip)
            case Some(mac) => exists k :: 0 <= k < |d| && d[k].ip == ip && d[k].mac == mac
            case None => !Known(d, ip)
  {
    FindKnown(t, d, ip);
    var i := Find(t, ip);
    if i < |t| {
      var k :| 0 <= k < |d| && d[k] == Entry(t[i]);
    }
  }

  /** The tables after the first `n` of 32 senders at one tick. */
  function Crowd(n: nat, mac: Mac, tick: nat): seq<Heard> {
    seq(n, (i: nat) => Heard(i, mac, tick))
  }

  lemma {:induction false} CrowdFills(n: nat, mac: Mac, tick: nat)
    requires n <= ARP_MAX_ENTRIES
    ensures Run(Crowd(n, mac, tick)) ==
            seq(ARP_MAX_ENTRIES, i requires 0 <= i < ARP_MAX_ENTRIES =>
              if i < n then Slot(i, mac, tick, true) else EmptyTable()[i])
  {
    if n > 0 {
      CrowdFills(n - 1, mac, tick);
      assert Crowd(n, mac, tick)[..n - 1] == Crowd(n - 1, mac, tick);
      var t := Run(Crowd(n - 1, mac, tick));
      assert t[n - 1] == EmptyTable()[n - 1];
      assert Free(t) == n - 1 && Find(t, n - 1) == |t|;
    }
  }

  /** Without a tick between packets the table can forget the sender heard last of all. */
  lemma ForgetsTheLatest(mac: Mac, tick: nat, e: Heard)
    requires e.ip >= ARP_MAX_ENTRIES
    ensures var h := Crowd(ARP_MAX_ENTRIES, mac, tick) + [Heard(0, mac, tick)];
            Senders(h)[0].ip == 0 && Lookup(Run(h), 0) == Some(mac) && Lookup(Run(h + [e]), 0) == None
  {
    var c := Crowd(ARP_MAX_ENTRIES, mac, tick);
    var h := c + [Heard(0, mac, tick)];
    CrowdFills(ARP_MAX_ENTRIES, mac, tick);
    var t := Run(c);
    assert h[..|c|] == c && (h + [e])[..|h|] == h;
    assert Matches(t[0], 0);
    assert Find(t, 0) == 0;
    assert Run(h) == t;
    assert Find(t, e.ip) == |t| && Free(t) == |t| && Oldest(t) == 0;
    var t' := Run(h + [e]);
    assert t' == t[0 := Slot(e.ip, e.mac, e.tick, true)];
    assert Find(t', 0) == |t'|;
  }
}
