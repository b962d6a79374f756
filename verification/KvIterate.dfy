/** The order in which the live nodes of a log are visited, and that each entry of the map is visited once. */
module KvIterate {
  import opened Bytes
  import opened Wrappers
  import opened Sectors
  import opened KvModel
  import opened KvContents

  /** The live nodes of sector `i`, from node `j` on. */
  function LiveIn(flash: seq<Sector>, i: nat, j: nat): seq<Loc>
    requires i < |flash| && flash[i].Sector? && j <= |flash[i].nodes|
    decreases |flash[i].nodes| - j
  {
    if j == |flash[i].nodes| then []
    else (if Live(flash[i].nodes[j]) then [Loc(i, j)] else []) + LiveIn(flash, i, j + 1)
  }

  function LiveSector(flash: seq<Sector>, i: nat): seq<Loc>
    requires i < |flash|
  {
    if Searched(flash[i]) then LiveIn(flash, i, 0) else []
  }

  /** The live nodes of the ring from its `k`-th sector on. */
  function LiveFrom(flash: seq<Sector>, start: nat, k: nat): seq<Loc>
    requires start < |flash| && k <= |flash|
    decreases |flash| - k
  {
    if k == |flash| then [] else LiveSector(flash, RingPos(start, k, |flash|)) + LiveFrom(flash, start, k + 1)
  }

  predicate Placed(flash: seq<Sector>, l: Loc) {
    l.sec < |flash| && flash[l.sec].Sector? && l.node < |flash[l.sec].nodes| && Live(flash[l.sec].nodes[l.node])
  }

  function EntryAt(flash: seq<Sector>, l: Loc): Entry
    requires Placed(flash, l)
  {
    (Name(flash[l.sec].nodes[l.node]), Value(flash[l.sec].nodes[l.node]))
  }

  predicate AllPlaced(flash: seq<Sector>, locs: seq<Loc>) {
    forall x :: 0 <= x < |locs| ==> Placed(flash, locs[x])
  }

  function EntriesOf(flash: seq<Sector>, locs: seq<Loc>): multiset<Entry>
    requires AllPlaced(flash, locs)
    decreases |locs|
  {
    if locs == [] then multiset{}
    else EntriesOf(flash, locs[..|locs| - 1]) + multiset{EntryAt(flash, locs[|locs| - 1])}
  }

  lemma EntriesNone(flash: seq<Sector>, locs: seq<Loc>)
    requires locs == []
    ensures EntriesOf(flash, locs) == multiset{}
  {}

  lemma EntriesSnoc(flash: seq<Sector>, locs: seq<Loc>, l: Loc)
    requires AllPlaced(flash, locs) && Placed(flash, l)
    ensures AllPlaced(flash, locs + [l])
    ensures EntriesOf(flash, locs + [l]) == EntriesOf(flash, locs) + multiset{EntryAt(flash, l)}
  {
    hide Placed, EntryAt;
    assert (locs + [l])[..|locs|] == locs;
  }

  lemma {:induction false} EntriesJoin(flash: seq<Sector>, a: seq<Loc>, b: seq<Loc>)
    requires AllPlaced(flash, a) && AllPlaced(flash, b)
    ensures AllPlaced(flash, a + b) && EntriesOf(flash, a + b) == EntriesOf(flash, a) + EntriesOf(flash, b)
    decreases |b|
  {
    hide Placed, EntryAt, EntriesOf;
    if b == [] {
      assert a + b == a;
      EntriesNone(flash, b);
    } else {
      var c, b1, e := a + b, b[..|b| - 1], b[|b| - 1];
      assert Placed(flash, e);
      EntriesJoin(flash, a, b1);
      assert forall x :: 0 <= x < |c| ==> c[x] == if x < |a| then a[x] else b[x - |a|];
      assert c == (a + b1) + [e] && b == b1 + [e];
      EntriesSnoc(flash, a + b1, e);
      EntriesSnoc(flash, b1, e);
      Regroup(EntriesOf(flash, a), EntriesOf(flash, b1), multiset{EntryAt(flash, e)});
    }
  }

  // ------------------------------------------------------------ the order

  /** Node `a` comes before node `b` when the ring is walked from `start` on. */
  predicate ComesFirst(n: nat, start: nat, a: Loc, b: Loc) {
    && start < n && a.sec < n && b.sec < n
    && (Steps(start, a.sec, n) < Steps(start, b.sec, n) || (a.sec == b.sec && a.node < b.node))
  }

  predicate InOrder(n: nat, start: nat, locs: seq<Loc>) {
    forall x, y :: 0 <= x < y < |locs| ==> ComesFirst(n, start, locs[x], locs[y])
  }

  lemma {:induction false} LiveInOrder(flash: seq<Sector>, start: nat, i: nat, j: nat)
    requires start < |flash| && i < |flash| && flash[i].Sector? && j <= |flash[i].nodes|
    ensures InOrder(|flash|, start, LiveIn(flash, i, j))
    ensures forall l :: l in LiveIn(flash, i, j) <==> Placed(flash, l) && l.sec == i && j <= l.node
    decreases |flash[i].nodes| - j
  {
    hide Live, InOrder;
    if j < |flash[i].nodes| {
      LiveInOrder(flash, start, i, j + 1);
      var rest := LiveIn(flash, i, j + 1);
      if Live(flash[i].nodes[j]) {
        FirstOf(|flash|, start, Loc(i, j), rest);
      } else {
        assert [] + rest == rest;
      }
    } else {
      NoneInOrder(|flash|, start);
    }
  }

  lemma NoneInOrder(n: nat, start: nat)
    ensures InOrder(n, start, [])
  {}

  lemma FirstOf(n: nat, start: nat, a: Loc, rest: seq<Loc>)
    requires start < n && a.sec < n && InOrder(n, start, rest) && forall l :: l in rest ==> l.sec == a.sec && a.node < l.node
    ensures InOrder(n, start, [a] + rest)
  {
    forall x, y | 0 <= x < y < |[a] + rest| ensures ComesFirst(n, start, ([a] + rest)[x], ([a] + rest)[y]) {
      if x == 0 {
        assert rest[y - 1] in rest;
      }
    }
  }

  lemma {:induction false} LiveFromOrder(flash: seq<Sector>, start: nat, k: nat)
    requires start < |flash| && k <= |flash|
    ensures InOrder(|flash|, start, LiveFrom(flash, start, k))
    ensures forall l :: l in LiveFrom(flash, start, k) <==>
      Placed(flash, l) && Searched(flash[l.sec]) && k <= Steps(start, l.sec, |flash|)
    decreases |flash| - k
  {
    hide Live, LiveIn;
    if k < |flash| {
      var i := RingPos(start, k, |flash|);
      assert Steps(start, i, |flash|) == k;
      LiveFromOrder(flash, start, k + 1);
      if Searched(flash[i]) {
        LiveInOrder(flash, start, i, 0);
      }
      var a, b := LiveSector(flash, i), LiveFrom(flash, start, k + 1);
      OrderJoins(|flash|, start, a, b, i, k);
      forall l ensures l in a + b <==> Placed(flash, l) && Searched(flash[l.sec]) && k <= Steps(start, l.sec, |flash|) {
        if Placed(flash, l) {
          assert Steps(start, l.sec, |flash|) == k <==> l.sec == i;
        }
      }
    }
  }

  lemma OrderJoins(n: nat, start: nat, a: seq<Loc>, b: seq<Loc>, i: nat, k: nat)
    requires start < n && i < n && k == Steps(start, i, n) && InOrder(n, start, a) && InOrder(n, start, b)
    requires forall l :: l in a ==> l.sec == i
    requires forall l :: l in b ==> l.sec < n && k < Steps(start, l.sec, n)
    ensures InOrder(n, start, a + b)
  {
    forall x, y | 0 <= x < y < |a + b| ensures ComesFirst(n, start, (a + b)[x], (a + b)[y]) {
      if x < |a| <= y {
        assert a[x] in a && b[y - |a|] in b;
      }
    }
  }

  /** An iteration visits exactly the live nodes of the sectors in use, those of one sector after those of the one before
      it in the ring, and in one sector from the first to the last. */
  lemma VisitsInOrder(flash: seq<Sector>, start: nat)
    requires start < |flash|
    ensures InOrder(|flash|, start, LiveFrom(flash, start, 0))
    ensures forall l :: l in LiveFrom(flash, start, 0) <==> Placed(flash, l) && Searched(flash[l.sec])
  {
    hide LiveFrom, Placed;
    LiveFromOrder(flash, start, 0);
    assert forall l :: Placed(flash, l) ==> l.sec < |flash| by {
      PlacedIn(flash);
    }
  }

  lemma PlacedIn(flash: seq<Sector>)
    ensures forall l :: Placed(flash, l) ==> l.sec < |flash|
  {}

  /** The entries of the nodes from `j` on. */
  lemma {:induction false} LiveInEntries(flash: seq<Sector>, i: nat, j: nat)
    requires i < |flash| && flash[i].Sector? && j <= |flash[i].nodes|
    ensures AllPlaced(flash, LiveIn(flash, i, j))
    ensures EntriesTo(flash[i].nodes, j, false) + EntriesOf(flash, LiveIn(flash, i, j)) == SectorEntries(flash[i], false)
    decreases |flash[i].nodes| - j
  {
    hide Live, NodeCrc, ReadName, NodeEntries, EntriesOf, AllPlaced;
    if j < |flash[i].nodes| {
      LiveInEntries(flash, i, j + 1);
      var here := if Live(flash[i].nodes[j]) then [Loc(i, j)] else [];
      OneEntry(flash, i, j, here);
      EntriesJoin(flash, here, LiveIn(flash, i, j + 1));
      Regroup(EntriesTo(flash[i].nodes, j, false), NodeEntries(flash[i].nodes[j], false), EntriesOf(flash, LiveIn(flash, i, j + 1)));
    } else {
      NoneLeft(flash, LiveIn(flash, i, j));
    }
  }

  lemma NoneLeft(flash: seq<Sector>, locs: seq<Loc>)
    requires locs == []
    ensures AllPlaced(flash, locs) && EntriesOf(flash, locs) == multiset{}
  {}

  lemma OneEntry(flash: seq<Sector>, i: nat, j: nat, here: seq<Loc>)
    requires i < |flash| && flash[i].Sector? && j < |flash[i].nodes|
    requires here == if Live(flash[i].nodes[j]) then [Loc(i, j)] else []
    ensures AllPlaced(flash, here) && EntriesOf(flash, here) == NodeEntries(flash[i].nodes[j], false)
  {
    hide NodeCrc, ReadName;
    if Live(flash[i].nodes[j]) {
      assert here[..0] == [];
      assert EntriesOf(flash, here[..0]) == multiset{};
    }
  }

  lemma SectorIsLive(flash: seq<Sector>, i: nat)
    requires AllSearched(flash) && i < |flash|
    ensures AllPlaced(flash, LiveSector(flash, i)) && EntriesOf(flash, LiveSector(flash, i)) == SectorEntries(flash[i], false)
  {
    if Searched(flash[i]) {
      LiveInEntries(flash, i, 0);
    }
  }

  /** The entries of sectors `lo` up to `hi`. */
  function Between(flash: seq<Sector>, lo: nat, hi: nat): multiset<Entry>
    requires lo <= hi <= |flash|
    decreases hi - lo
  {
    if lo == hi then multiset{} else Between(flash, lo, hi - 1) + SectorEntries(flash[hi - 1], false)
  }

  lemma {:induction false} BetweenJoins(flash: seq<Sector>, mid: nat, hi: nat)
    requires mid <= hi <= |flash|
    ensures FlashTo(flash, mid, false) + Between(flash, mid, hi) == FlashTo(flash, hi, false)
  {
    hide SectorEntries;
    if mid < hi {
      BetweenJoins(flash, mid, hi - 1);
    }
  }

  /** What the first `k` sectors of the ring hold. */
  function RingTo(flash: seq<Sector>, start: nat, k: nat): multiset<Entry>
    requires start < |flash| && k <= |flash|
  {
    if start + k <= |flash| then Between(flash, start, start + k)
    else Between(flash, start, |flash|) + FlashTo(flash, start + k - |flash|, false)
  }

  lemma RingStep(flash: seq<Sector>, start: nat, k: nat)
    requires start < |flash| && k < |flash|
    ensures RingTo(flash, start, k + 1) == RingTo(flash, start, k) + SectorEntries(flash[RingPos(start, k, |flash|)], false)
  {
    hide SectorEntries;
    if start + k >= |flash| {
      var x := start + k - |flash|;
      assert FlashTo(flash, x + 1, false) == FlashTo(flash, x, false) + SectorEntries(flash[x], false);
      Regroup(Between(flash, start, |flash|), FlashTo(flash, x, false), SectorEntries(flash[x], false));
      if x == 0 {
        assert FlashTo(flash, 0, false) == multiset{};
      }
    }
  }

  lemma {:induction false} RingEntries(flash: seq<Sector>, start: nat, k: nat)
    requires AllSearched(flash) && start < |flash| && k <= |flash|
    ensures AllPlaced(flash, LiveFrom(flash, start, k))
    ensures RingTo(flash, start, k) + EntriesOf(flash, LiveFrom(flash, start, k)) == Contents(flash, false)
    decreases |flash| - k
  {
    hide AllSearched, SectorEntries, LiveSector, Placed, RingTo;
    if k < |flash| {
      var i := RingPos(start, k, |flash|);
      RingEntries(flash, start, k + 1);
      SectorIsLive(flash, i);
      EntriesJoin(flash, LiveSector(flash, i), LiveFrom(flash, start, k + 1));
      RingStep(flash, start, k);
      Regroup(RingTo(flash, start, k), SectorEntries(flash[i], false), EntriesOf(flash, LiveFrom(flash, start, k + 1)));
    } else {
      RingDone(flash, start);
    }
  }

  lemma Regroup(a: multiset<Entry>, b: multiset<Entry>, c: multiset<Entry>)
    ensures (a + b) + c == a + (b + c)
  {}

  lemma RingDone(flash: seq<Sector>, start: nat)
    requires start < |flash|
    ensures RingTo(flash, start, |flash|) == Contents(flash, false)
  {
    hide SectorEntries;
    BetweenJoins(flash, start, |flash|);
    if start == 0 {
      assert FlashTo(flash, 0, false) == multiset{};
    }
  }

  /** Going around the ring meets every entry of the map exactly once, and nothing else. */
  lemma VisitsMap(flash: seq<Sector>, start: nat, m: map<seq<byte>, seq<byte>>)
    requires AllSearched(flash) && start < |flash| && Holds(flash, m)
    ensures AllPlaced(flash, LiveFrom(flash, start, 0))
    ensures EntriesOf(flash, LiveFrom(flash, start, 0)) == multiset(Entries(m))
  {
    hide AllSearched, Contents, LiveFrom;
    RingEntries(flash, start, 0);
    assert RingTo(flash, start, 0) == multiset{};
  }

  // ------------------------------------------------------------ the sums an iterator keeps

  function ObjBytes(flash: seq<Sector>, locs: seq<Loc>): nat
    requires AllPlaced(flash, locs)
    decreases |locs|
  {
    if locs == [] then 0
    else ObjBytes(flash, locs[..|locs| - 1]) + flash[locs[|locs| - 1].sec].nodes[locs[|locs| - 1].node].Len()
  }

  function ValueBytes(flash: seq<Sector>, locs: seq<Loc>): nat
    requires AllPlaced(flash, locs)
    decreases |locs|
  {
    if locs == [] then 0
    else ValueBytes(flash, locs[..|locs| - 1]) + |EntryAt(flash, locs[|locs| - 1]).1|
  }

  lemma SumsMore(flash: seq<Sector>, locs: seq<Loc>, l: Loc)
    requires AllPlaced(flash, locs) && Placed(flash, l)
    ensures AllPlaced(flash, locs + [l])
    ensures ObjBytes(flash, locs + [l]) == ObjBytes(flash, locs) + flash[l.sec].nodes[l.node].Len()
    ensures ValueBytes(flash, locs + [l]) == ValueBytes(flash, locs) + |EntryAt(flash, l).1|
  {
    hide Live, NodeCrc, ReadName;
    assert (locs + [l])[..|locs|] == locs;
  }

  // ------------------------------------------------------------ each key once

  lemma {:induction false} EntriesSize(flash: seq<Sector>, locs: seq<Loc>)
    requires AllPlaced(flash, locs)
    ensures |EntriesOf(flash, locs)| == |locs|
    decreases |locs|
  {
    hide Placed, EntryAt;
    if locs != [] {
      EntriesSize(flash, locs[..|locs| - 1]);
    }
  }

  lemma {:induction false} EntriesCount(m: map<seq<byte>, seq<byte>>)
    ensures |Entries(m)| == |m|
    decreases |m|
  {
    if m == map[] {
      assert Entries(m) == {};
    } else {
      var k :| k in m;
      var n := m - {k};
      assert |n| == |m| - 1 by { assert n.Keys == m.Keys - {k}; }
      EntriesCount(n);
      forall e: Entry ensures e in Entries(m) <==> e in Entries(n) + {(k, m[k])} {
        assert e in Entries(m) <==> e.0 in m && m[e.0] == e.1 by { EntryIs(m, e); }
        assert e in Entries(n) <==> e.0 in n && n[e.0] == e.1 by { EntryIs(n, e); }
      }
      assert Entries(m) == Entries(n) + {(k, m[k])};
      EntryIs(n, (k, m[k]));
    }
  }

  lemma {:induction false} EntryOccurs(flash: seq<Sector>, locs: seq<Loc>, x: nat, y: nat)
    requires AllPlaced(flash, locs) && x <= y < |locs| && EntryAt(flash, locs[x]) == EntryAt(flash, locs[y])
    ensures EntriesOf(flash, locs)[EntryAt(flash, locs[x])] >= if x == y then 1 else 2
    decreases |locs|
  {
    hide Placed, EntryAt;
    if y < |locs| - 1 {
      EntryOccurs(flash, locs[..|locs| - 1], x, y);
    } else if x < y {
      EntryOccurs(flash, locs[..|locs| - 1], x, x);
    }
  }

  /** Every key of the map is met exactly once, with its value, and nothing else. */
  lemma VisitsEachOnce(flash: seq<Sector>, start: nat, m: map<seq<byte>, seq<byte>>)
    requires AllSearched(flash) && start < |flash| && Holds(flash, m)
    ensures var locs := LiveFrom(flash, start, 0);
      && AllPlaced(flash, locs) && |locs| == |m|
      && (forall x :: 0 <= x < |locs| ==> EntryAt(flash, locs[x]).0 in m && EntryAt(flash, locs[x]).1 == m[EntryAt(flash, locs[x]).0])
      && (forall x, y :: 0 <= x < y < |locs| ==> EntryAt(flash, locs[x]).0 != EntryAt(flash, locs[y]).0)
  {
    hide AllSearched, Contents, LiveFrom, Placed, EntryAt, EntriesOf;
    VisitsMap(flash, start, m);
    var locs := LiveFrom(flash, start, 0);
    EntriesSize(flash, locs);
    EntriesCount(m);
    forall x | 0 <= x < |locs|
      ensures EntryAt(flash, locs[x]).0 in m && EntryAt(flash, locs[x]).1 == m[EntryAt(flash, locs[x]).0]
    {
      EntryOccurs(flash, locs, x, x);
      assert EntryAt(flash, locs[x]) in Entries(m);
    }
    forall x, y | 0 <= x < y < |locs| ensures EntryAt(flash, locs[x]).0 != EntryAt(flash, locs[y]).0 {
      if EntryAt(flash, locs[x]) == EntryAt(flash, locs[y]) {
        EntryOccurs(flash, locs, x, y);
        assert false;
      }
    }
  }
}
