/** Collections while the database is being opened: one that was interrupted, or one that recovery asks for. Nodes whose
    deletion is pending are settled on the way. */
module KvResume {
  import opened Bytes
  import opened Wrappers
  import opened Sectors
  import opened KvModel
  import opened KvContents
  import opened KvInvariant
  import opened KvGc
  import opened KvMap
  import opened KvLoad
  import opened KvCrash

  /** The log stands for `m`, but for the deletion of node `l` that is still pending: its key, `key`, has either got
      its new value already, or the old one is to be brought back. */
  ghost predicate Owing(flash: seq<Sector>, l: Option<Loc>, key: Key, m: Table) {
    && (forall x: nat, y: nat :: x < |flash| && flash[x].Sector? && y < |flash[x].nodes| && IsPending(flash[x].nodes[y])
          ==> l == Some(Loc(x, y)))
    && (l.None? ==> Holds(flash, m))
    && (l.Some? ==>
          && l.value.sec < |flash| && flash[l.value.sec].Sector? && l.value.node < |flash[l.value.sec].nodes|
          && var node := flash[l.value.sec].nodes[l.value.node];
            && IsPending(node) && Name(node) == key && key in m
            && (Holds(flash, m) || (Value(node) == m[key] && Contents(flash, false) + multiset{(key, m[key])} == multiset(Entries(m)))))
  }

  /** The victim's node `j` has been deleted, other sectors have at most gained live nodes. */
  ghost predicate MovedOut(f: seq<Sector>, g: seq<Sector>, i: nat, j: nat) {
    && i < |f| && f[i].Sector? && j < |f[i].nodes| && f[i].nodes[j].Node?
    && Elsewhere(f, g, i) && g[i] == MarkedSector(f[i], j, Deleted)
  }

  lemma MovedPending(f: seq<Sector>, g: seq<Sector>, i: nat, j: nat, l: Option<Loc>)
    requires MovedOut(f, g, i, j)
    requires forall x: nat, y: nat :: x < |f| && f[x].Sector? && y < |f[x].nodes| && IsPending(f[x].nodes[y]) ==> l == Some(Loc(x, y))
    ensures forall x: nat, y: nat ::
      x < |g| && g[x].Sector? && y < |g[x].nodes| && IsPending(g[x].nodes[y])
      ==> l == Some(Loc(x, y)) && l != Some(Loc(i, j)) && x < |f| && f[x].Sector? && y < |f[x].nodes| && f[x].nodes[y] == g[x].nodes[y]
  {
    hide Intact;
    forall x: nat, y: nat | x < |g| && g[x].Sector? && y < |g[x].nodes| && IsPending(g[x].nodes[y])
      ensures l == Some(Loc(x, y)) && l != Some(Loc(i, j)) && x < |f| && f[x].Sector? && y < |f[x].nodes| && f[x].nodes[y] == g[x].nodes[y]
    {
      if x != i {
        assert Gains(f[x], g[x]);
      }
    }
  }

  /** The pending node stays where it is while another one is moved. */
  lemma OwingStays(f: seq<Sector>, g: seq<Sector>, i: nat, j: nat, l: Option<Loc>, key: Key, m: Table)
    requires Owing(f, l, key, m) && MovedOut(f, g, i, j) && l != Some(Loc(i, j))
    requires Contents(g, false) == Contents(f, false)
    ensures Owing(g, l, key, m)
  {
    hide Intact, Contents, ReadName, Live;
    MovedPending(f, g, i, j, l);
    if l.Some? && l.value.sec != i {
      assert Gains(f[l.value.sec], g[l.value.sec]);
    }
  }

  lemma OwingSettled(f: seq<Sector>, g: seq<Sector>, i: nat, j: nat, key: Key, m: Table)
    requires Owing(f, Some(Loc(i, j)), key, m) && MovedOut(f, g, i, j) && Holds(g, m)
    ensures Owing(g, None, key, m)
  {
    hide Intact, Contents, ReadName;
    MovedPending(f, g, i, j, Some(Loc(i, j)));
  }

  lemma ShapedSearched(db: Db)
    requires Shaped(db)
    ensures AllSearched(db.flash)
  {
    hide WfNode, Off;
    forall i | 0 <= i < |db.flash| && db.flash[i].Sector? && !Searched(db.flash[i]) ensures db.flash[i].nodes == [] {
      assert WfShape(db.flash[i], db.secSize);
    }
  }

  lemma HoldElsewhere(f: seq<Sector>, i: nat, j: nat, t: nat, node: Node)
    requires i < |f| && t < |f| && i != t && f[i].Sector? && f[t].Sector? && j < |f[i].nodes| && f[i].nodes[j].Node?
    requires !IsDirty(f[t]) && (f[t].store == Using || f[t].store == Empty) && Live(node)
    ensures MovedOut(f, f[t := Hold(f[t].(store := Using), node)][i := MarkedSector(f[i], j, Deleted)], i, j)
  {
    hide Intact;
  }

  /** Moving the pending node settles it: it is dropped if its key has a live node, and else brought back. */
  lemma MoveSettles(db: Db, i: nat, j: nat, empties: nat, taken: Option<nat>, most: nat, key: Key, m: Table) returns (taken': Option<nat>)
    requires Collecting(db, i, j, empties, taken, most) && db.recovering && j < |db.flash[i].nodes|
    requires Owing(db.flash, Some(Loc(i, j)), key, m)
    ensures var d := MoveKv(db, i, j).db;
      && Collecting(d, i, j + 1, empties, taken', most)
      && MovedOut(db.flash, d.flash, i, j) && Owing(d.flash, None, key, m)
  {
    hide NodeCrc, ReadName, Contents, WfShape, WfSector, Find, CopyTo, MarkDel, CarrierBytes, Count, Elsewhere, Used, AllocKv, HasRoom;
    var node := db.flash[i].nodes[j];
    ShapedSearched(db);
    FindFinds(db, key);
    GetNone(db, key);
    StatusEntries(node, false);
    ElsewhereSelf(db.flash, i);
    if Dropped(db, node) {
      taken' := taken;
      MoveDrops(db, i, j, empties, taken, most);
      MarkDelTrades(db, i, j, true, false);
      PendingAlone(db, key, m, node);
      Cancel(Contents(MoveKv(db, i, j).db.flash, false), Contents(db.flash, false), multiset{});
      ElsewhereAt(db.flash, i, MarkedSector(db.flash[i], j, Deleted));
      OwingSettled(db.flash, MoveKv(db, i, j).db.flash, i, j, key, m);
    } else {
      var t;
      taken', t := MoveCopies(db, i, j, empties, taken, most);
      var d := CopyTo(db, t, node);
      CopyAdds(db, t, node, false);
      MarkDelTrades(d, i, j, true, false);
      LiveIsWf(node);
      HoldElsewhere(db.flash, i, j, t, node.(st := Write));
      NotYetThere(db, key, m);
      Cancel(Contents(MoveKv(db, i, j).db.flash, false), Contents(d.flash, false), multiset{});
      OwingSettled(db.flash, MoveKv(db, i, j).db.flash, i, j, key, m);
    }
  }

  lemma ElsewhereAt(f: seq<Sector>, i: nat, sec: Sector)
    requires i < |f|
    ensures Elsewhere(f, f[i := sec], i)
  {}

  /** If the search finds the key, the pending node is not the only one. */
  lemma PendingAlone(db: Db, key: Key, m: Table, node: Node)
    requires db.oldest < |db.flash| && AllSearched(db.flash) && Find(db, key).Some? && key in m
    requires Holds(db.flash, m) || Contents(db.flash, false) + multiset{(key, m[key])} == multiset(Entries(m))
    ensures Holds(db.flash, m)
  {
    hide NodeCrc, ReadName, Contents, Find;
    if !Holds(db.flash, m) {
      AloneInMap(Contents(db.flash, false), m, key);
      FindFinds(db, key);
      GetNone(db, key);
      assert false;
    }
  }

  lemma NotYetThere(db: Db, key: Key, m: Table)
    requires db.oldest < |db.flash| && AllSearched(db.flash) && Find(db, key).None? && key in m
    ensures !Holds(db.flash, m)
  {
    hide NodeCrc, ReadName, Contents, Find;
    FindFinds(db, key);
    GetNone(db, key);
    if Holds(db.flash, m) {
      EntryIs(m, (key, m[key]));
    }
  }

  // ------------------------------------------------------------ one victim

  /** The node loop empties the victim of carriers, the pending one included. */
  lemma {:induction false} GcNodesSettles(db: Db, i: nat, j: nat, empties: nat, taken: Option<nat>, most: nat,
                                          l: Option<Loc>, key: Key, m: Table)
    returns (taken': Option<nat>, l': Option<Loc>)
    requires Collecting(db, i, j, empties, taken, most) && db.recovering && Owing(db.flash, l, key, m)
    requires forall x :: 0 <= x < j ==> !Carrier(db.flash[i].nodes[x])
    ensures var n := |db.flash[i].nodes|;
      var d := GcNodes(db, i, j, n);
      && Collecting(d, i, n, empties, taken', most)
      && |d.flash[i].nodes| == n
      && (forall x :: 0 <= x < n ==> !Carrier(d.flash[i].nodes[x]))
      && Elsewhere(db.flash, d.flash, i)
      && Owing(d.flash, l', key, m)
    ensures l' == if l.Some? && l.value.sec == i then None else l
    decreases |db.flash[i].nodes| - j
  {
    hide NodeCrc, ReadName, WfSector, WfShape, Contents, Off, MoveKv, Count, UsedTo, Elsewhere, Owing, Calm, CarrierBytes, Used, IsPending;
    var n := |db.flash[i].nodes|;
    ElsewhereSelf(db.flash, i);
    if j == n {
      taken' := taken;
      l' := l;
      OwingPlace(db.flash, l, key, m);
    } else if Carrier(db.flash[i].nodes[j]) {
      var t;
      OwingPlace(db.flash, l, key, m);
      if l == Some(Loc(i, j)) {
        t := MoveSettles(db, i, j, empties, taken, most, key, m);
        l' := None;
      } else {
        OnlyOwed(db.flash, l, key, m, i, j);
        t := MoveLive(db, i, j, empties, taken, most);
        OwingStays(db.flash, MoveKv(db, i, j).db.flash, i, j, l, key, m);
        l' := l;
      }
      var d := MoveKv(db, i, j).db;
      taken', l' := GcNodesSettles(d, i, j + 1, empties, t, most, l', key, m);
      ElsewhereTransitive(db.flash, d.flash, GcNodes(d, i, j + 1, n).flash, i);
    } else {
      CollectingNext(db, i, j, empties, taken, most);
      taken', l' := GcNodesSettles(db, i, j + 1, empties, taken, most, l, key, m);
    }
  }

  lemma OwingPlace(flash: seq<Sector>, l: Option<Loc>, key: Key, m: Table)
    requires Owing(flash, l, key, m)
    ensures l.Some? ==>
      && l.value.sec < |flash| && flash[l.value.sec].Sector? && l.value.node < |flash[l.value.sec].nodes|
      && Carrier(flash[l.value.sec].nodes[l.value.node])
  {
    hide NodeCrc, ReadName, Contents;
  }

  lemma OnlyOwed(flash: seq<Sector>, l: Option<Loc>, key: Key, m: Table, i: nat, j: nat)
    requires Owing(flash, l, key, m) && i < |flash| && flash[i].Sector? && j < |flash[i].nodes|
    requires l != Some(Loc(i, j)) && Carrier(flash[i].nodes[j])
    ensures Live(flash[i].nodes[j])
  {
    hide NodeCrc, ReadName, Contents;
  }

  /** Sector `i` put in another state with the same entries: the same nodes, or none when none is pending there. */
  lemma OwingSector(f: seq<Sector>, i: nat, sec: Sector, l: Option<Loc>, key: Key, m: Table)
    requires Owing(f, l, key, m) && i < |f| && f[i].Sector? && sec.Sector?
    requires SectorEntries(sec, false) == SectorEntries(f[i], false)
    requires sec.nodes == f[i].nodes || (sec.nodes == [] && (l.Some? ==> l.value.sec != i))
    ensures Owing(f[i := sec], l, key, m) && Contents(f[i := sec], false) == Contents(f, false)
  {
    hide Intact, Contents, ReadName, SectorEntries;
    ContentsUpdate(f, i, sec, false);
    Cancel(Contents(f[i := sec], false), Contents(f, false), SectorEntries(f[i], false));
  }

  lemma SameNodes(a: Sector, b: Sector)
    requires a.Sector? && b.Sector? && a.nodes == b.nodes
    ensures SectorEntries(a, false) == SectorEntries(b, false)
  {}

  /** A collection of sector `i` may start, with no sector or with `taken` to write to. */
  ghost predicate MayCollect(db: Db, i: nat, empties: nat, taken: Option<nat>, most: nat)
    requires i < |db.flash|
  {
    IsDirty(db.flash[i]) && Collecting(Rewrite(db, i, [db.flash[i].(dirty := Gc)]), i, 0, empties, taken, most)
  }

  lemma EmptyWillDo(db: Db, i: nat)
    requires Shaped(db) && db.gcRequest && i < |db.flash| && IsDirty(db.flash[i]) && 0 < Count(db.flash, Empty)
    ensures MayCollect(db, i, Count(db.flash, Empty), None, CarrierBytes(db.flash[i].nodes, 0))
  {
    hide NodeCrc, WfNode, Off, Carrier, CarrierBytes;
    var sec := db.flash[i].(dirty := Gc);
    assert WfShape(db.flash[i], db.secSize);
    CountUpdate(db.flash, i, sec, Empty, |db.flash|);
    CarriersMost(sec.nodes, 0);
  }

  /** A sector is collected while the database is being opened. */
  lemma SectorSettles(db: Db, i: nat, freeSize: nat, last: nat, empties: nat, taken: Option<nat>, most: nat,
                      l: Option<Loc>, key: Key, m: Table)
    returns (l': Option<Loc>)
    requires i < |db.flash| && last < |db.flash| && MayCollect(db, i, empties, taken, most)
    requires db.recovering && Owing(db.flash, l, key, m)
    ensures db.oldest < |db.flash|
    ensures var s := GcSector(db, i, freeSize, last);
      && Shaped(s.db) && s.db.gcRequest && s.db.recovering && s.db.secSize == db.secSize
      && 0 < Count(s.db.flash, Empty)
      && Elsewhere(db.flash, s.db.flash, i) && s.db.flash[i] == Sector(Empty, False, [])
      && Owing(s.db.flash, l', key, m)
      && s.last == i && (s.stop ==> Remain(s.db, last) > freeSize)
    ensures l' == if l.Some? && l.value.sec == i then None else l
  {
    hide NodeCrc, ReadName, Contents, SectorEntries, GcNodes, Carrier, Rewrite, UsedTo, Count, Elsewhere, Remain, WfNode, CarrierBytes, Owing, Used;
    var sec := db.flash[i].(dirty := Gc);
    var d1 := Rewrite(db, i, [sec]);
    var n := |sec.nodes|;
    SameNodes(sec, db.flash[i]);
    OwingSector(db.flash, i, sec, l, key, m);
    var taken';
    taken', l' := GcNodesSettles(d1, i, 0, empties, taken, most, l, key, m);
    var d2 := GcNodes(d1, i, 0, n);
    var d3 := Format(d2, i);
    NoneThere(d2.flash[i]);
    OwingSector(d2.flash, i, Sector(Empty, False, []), l', key, m);
    OneEmpty(d3.flash, i);
    ElsewhereJoins(db.flash, d1.flash, d2.flash, d3.flash, i);
    StopsAt(db, d2, i, freeSize, last);
    StillShaped(d2, GcSector(db, i, freeSize, last).db, i);
  }

  lemma OneEmpty(flash: seq<Sector>, i: nat)
    requires i < |flash| && HasStore(flash[i], Empty)
    ensures 0 < Count(flash, Empty)
  {
    CountPositive(flash, Empty, i, |flash|);
  }

  lemma StopsAt(db: Db, d2: Db, i: nat, freeSize: nat, last: nat)
    requires db.oldest < |db.flash| && i < |db.flash| && last < |db.flash| && IsDirty(db.flash[i])
    requires var d1 := Rewrite(db, i, [db.flash[i].(dirty := Gc)]); Formatted(d1, i) && d2 == GcNodes(d1, i, 0, |d1.flash[i].nodes|)
    requires |d2.flash| == |db.flash|
    ensures var s := GcSector(db, i, freeSize, last);
      s.db == Format(d2, i).(oldest := Next(i, |db.flash|)) && s.last == i && (s.stop ==> Remain(s.db, last) > freeSize)
  {
    hide GcNodes, Remain;
  }

  lemma NoneThere(sec: Sector)
    requires sec.Sector? && forall x :: 0 <= x < |sec.nodes| ==> !Carrier(sec.nodes[x])
    ensures SectorEntries(Sector(Empty, False, []), false) == SectorEntries(sec, false)
  {
    hide Carrier;
    NoCarriers(sec.nodes, |sec.nodes|, false);
  }

  lemma StillShaped(db: Db, d: Db, i: nat)
    requires Shaped(db) && i < |db.flash| && d.flash == db.flash[i := Sector(Empty, False, [])] && d.secSize == db.secSize && d.oldest < |d.flash|
    ensures Shaped(d)
  {}

  // ------------------------------------------------------------ the whole ring

  /** What a collection that does not stop early makes of a sector: a clean one has at most gained live nodes, a dirty
      one that has been passed is clean and holds nothing but live nodes. */
  predicate Swept(f: Sector, g: Sector, passed: bool) {
    if !IsDirty(f) then Gains(f, g)
    else if passed then g.Sector? && !IsDirty(g) && forall y :: 0 <= y < |g.nodes| ==> Live(g.nodes[y])
    else g == f
  }

  lemma SweptTwice(f: Sector, g: Sector, h: Sector, first: bool, second: bool)
    requires Swept(f, g, first) && Swept(g, h, second)
    ensures Swept(f, h, first || second)
  {
    hide Live;
    if !IsDirty(f) {
      GainsTransitive(f, g, h);
    } else if first {
      assert Gains(g, h);
    }
  }

  /** `g` is `f` with the dirty sectors collected from the `k`-th of the ring on. */
  ghost predicate SweptFrom(f: seq<Sector>, g: seq<Sector>, start: nat, k: nat) {
    && start < |f| && |g| == |f|
    && forall x :: 0 <= x < |f| ==> Swept(f[RingPos(start, x, |f|)], g[RingPos(start, x, |f|)], k <= x)
  }

  /** The place of the pending node, unless its sector is collected. */
  function OwedAfter(f: seq<Sector>, start: nat, k: nat, l: Option<Loc>): Option<Loc>
    requires start < |f|
  {
    if l.Some? && l.value.sec < |f| && IsDirty(f[l.value.sec]) && k <= Steps(start, l.value.sec, |f|) then None else l
  }

  /** The walk over the ring when no sector has enough room for it to stop, from the `k`-th sector on. */
  lemma {:induction false} FromSettles(db: Db, start: nat, k: nat, freeSize: nat, last: nat, l: Option<Loc>, key: Key, m: Table)
    requires Shaped(db) && db.gcRequest && db.recovering && 0 < Count(db.flash, Empty) && Owing(db.flash, l, key, m)
    requires start < |db.flash| && k <= |db.flash| && last < |db.flash| && db.secSize <= freeSize
    ensures var d := GcFrom(db, start, k, freeSize, last);
      && Shaped(d) && d.gcRequest && 0 < Count(d.flash, Empty)
      && SweptFrom(db.flash, d.flash, start, k)
      && Owing(d.flash, OwedAfter(db.flash, start, k, l), key, m)
    decreases |db.flash| - k
  {
    hide Owing, Count, WfShape, GcSector, Elsewhere, SweptFrom, Remain, CarrierBytes, MayCollect, Live, Used;
    var N := |db.flash|;
    OwingPlace(db.flash, l, key, m);
    if k == N {
      NotSwept(db.flash, start);
    } else {
      var i := RingPos(start, k, N);
      if IsDirty(db.flash[i]) {
        EmptyWillDo(db, i);
        var l' := SectorSettles(db, i, freeSize, last, Count(db.flash, Empty), None, CarrierBytes(db.flash[i].nodes, 0), l, key, m);
        var d := GcSector(db, i, freeSize, last).db;
        NotSoMuch(d, last);
        FromSettles(d, start, k + 1, freeSize, i, l', key, m);
        StepSwept(db.flash, d.flash, GcFrom(d, start, k + 1, freeSize, i).flash, start, k, l);
      } else {
        CleanPassed(db, i, freeSize, last);
        FromSettles(db, start, k + 1, freeSize, last, l, key, m);
        PassedSwept(db.flash, GcFrom(db, start, k + 1, freeSize, last).flash, start, k);
      }
    }
  }

  lemma NotSwept(f: seq<Sector>, start: nat)
    requires start < |f|
    ensures SweptFrom(f, f, start, |f|)
  {
    hide Live;
  }

  lemma PassedSwept(f: seq<Sector>, g: seq<Sector>, start: nat, k: nat)
    requires start < |f| && k < |f| && SweptFrom(f, g, start, k + 1) && !IsDirty(f[RingPos(start, k, |f|)])
    ensures SweptFrom(f, g, start, k)
  {
    hide Live;
  }

  lemma CleanPassed(db: Db, i: nat, freeSize: nat, last: nat)
    requires Shaped(db) && i < |db.flash| && last < |db.flash| && !IsDirty(db.flash[i])
    ensures GcSector(db, i, freeSize, last) == GcStep(db, false, last)
  {}

  lemma NotSoMuch(d: Db, last: nat)
    requires last < |d.flash|
    ensures Remain(d, last) <= d.secSize
  {}

  lemma StepSwept(f: seq<Sector>, d: seq<Sector>, g: seq<Sector>, start: nat, k: nat, l: Option<Loc>)
    requires start < |f| && k < |f| && Elsewhere(f, d, RingPos(start, k, |f|)) && IsDirty(f[RingPos(start, k, |f|)])
    requires d[RingPos(start, k, |f|)] == Sector(Empty, False, []) && SweptFrom(d, g, start, k + 1)
    requires l.Some? ==> l.value.sec < |f|
    ensures SweptFrom(f, g, start, k)
    ensures var i := RingPos(start, k, |f|); var l' := if l.Some? && l.value.sec == i then None else l;
      OwedAfter(d, start, k + 1, l') == OwedAfter(f, start, k, l)
  {
    hide Live, Swept;
    var N, i := |f|, RingPos(start, k, |f|);
    forall x | 0 <= x < N ensures Swept(f[RingPos(start, x, N)], g[RingPos(start, x, N)], k <= x) {
      var y := RingPos(start, x, N);
      if x == k {
        SweptOnce(f[i], d[i]);
      } else {
        assert Gains(f[y], d[y]);
        SweptNot(f[y], d[y]);
      }
      SweptTwice(f[y], d[y], g[y], x == k, k + 1 <= x);
    }
    if l.Some? && l.value.sec != i {
      assert Gains(f[l.value.sec], d[l.value.sec]);
    }
  }

  lemma SweptOnce(f: Sector, g: Sector)
    requires IsDirty(f) && g == Sector(Empty, False, [])
    ensures Swept(f, g, true)
  {}

  lemma SweptNot(f: Sector, g: Sector)
    requires Gains(f, g)
    ensures Swept(f, g, false)
  {
    hide Live;
  }

  /** A whole collection in a log with an empty sector, asked for while opening. */
  lemma CollectSettles(db: Db, freeSize: nat, l: Option<Loc>, key: Key, m: Table)
    requires Shaped(db) && db.gcRequest && db.recovering && Count(db.flash, Empty) == 1 && Owing(db.flash, l, key, m)
    requires db.secSize <= freeSize
    ensures var d := GcCollect(db, freeSize);
      && Shaped(d) && 0 < Count(d.flash, Empty) && d.oldest < |d.flash|
      && SweptFrom(db.flash, d.flash, db.oldest, 0)
      && Owing(d.flash, OwedAfter(db.flash, db.oldest, 0, l), key, m)
  {
    hide Owing, Count, WfShape, GcFrom, SweptFrom, LastEmpty;
    FromSettles(db, db.oldest, 0, freeSize, LastEmpty(db.flash, db.oldest, |db.flash|), l, key, m);
  }

  // ------------------------------------------------------------ an interrupted collection

  /** The first dirty sector of the ring is one whose collection can be taken up again although none is empty. */
  ghost predicate FirstInLine(db: Db, p: nat, taken: Option<nat>, most: nat) {
    && db.oldest < |db.flash| && p < |db.flash|
    && MayCollect(db, RingPos(db.oldest, p, |db.flash|), 1, taken, most)
    && forall x :: 0 <= x < p ==> !IsDirty(db.flash[RingPos(db.oldest, x, |db.flash|)])
  }

  /** A collection with no empty sector in the beginning. */
  lemma FirstSettles(db: Db, k: nat, freeSize: nat, last: nat, p: nat, taken: Option<nat>, most: nat, l: Option<Loc>, key: Key, m: Table)
    requires FirstInLine(db, p, taken, most) && k <= p && last < |db.flash| && db.secSize <= freeSize
    requires db.recovering && Shaped(db) && db.gcRequest && Owing(db.flash, l, key, m)
    ensures var d := GcFrom(db, db.oldest, k, freeSize, last);
      && Shaped(d) && d.gcRequest && 0 < Count(d.flash, Empty)
      && SweptFrom(db.flash, d.flash, db.oldest, k)
      && Owing(d.flash, OwedAfter(db.flash, db.oldest, k, l), key, m)
    decreases p - k
  {
    hide Owing, Count, WfShape, GcSector, Elsewhere, SweptFrom, Remain, CarrierBytes, Collecting, Live, Used;
    var N, start := |db.flash|, db.oldest;
    OwingPlace(db.flash, l, key, m);
    var i := RingPos(start, k, N);
    if k < p {
      CleanPassed(db, i, freeSize, last);
      FirstSettles(db, k + 1, freeSize, last, p, taken, most, l, key, m);
      PassedSwept(db.flash, GcFrom(db, start, k + 1, freeSize, last).flash, start, k);
    } else {
      var l' := SectorSettles(db, i, freeSize, last, 1, taken, most, l, key, m);
      var d := GcSector(db, i, freeSize, last).db;
      NotSoMuch(d, last);
      FromSettles(d, start, k + 1, freeSize, i, l', key, m);
      StepSwept(db.flash, d.flash, GcFrom(d, start, k + 1, freeSize, i).flash, start, k, l);
    }
  }

  /** What is needed for a collection while opening to settle things. */
  ghost predicate Settleable(db: Db) {
    0 < Count(db.flash, Empty) || exists p: nat, taken: Option<nat>, most: nat :: FirstInLine(db.(gcRequest := true), p, taken, most)
  }

  /** A collection asked for while opening: with two empty sectors or more nothing is done, otherwise all dirty
      sectors are collected. */
  lemma CollectsWhileOpening(db: Db, freeSize: nat, l: Option<Loc>, key: Key, m: Table)
    requires Shaped(db) && db.recovering && Owing(db.flash, l, key, m) && Settleable(db) && db.secSize <= freeSize
    ensures var d := GcCollect(db.(gcRequest := true), freeSize);
      if 1 < Count(db.flash, Empty) then d == db.(gcRequest := false)
      else
        && Shaped(d) && 0 < Count(d.flash, Empty)
        && SweptFrom(db.flash, d.flash, db.oldest, 0)
        && Owing(d.flash, OwedAfter(db.flash, db.oldest, 0, l), key, m)
  {
    hide Owing, Count, WfShape, GcFrom, SweptFrom, LastEmpty, FirstInLine;
    var e := db.(gcRequest := true);
    var last := LastEmpty(db.flash, db.oldest, |db.flash|);
    if Count(db.flash, Empty) == 1 {
      CollectSettles(e, freeSize, l, key, m);
    } else if Count(db.flash, Empty) == 0 {
      var p: nat, taken: Option<nat>, most: nat :| FirstInLine(e, p, taken, most);
      FirstSettles(e, 0, freeSize, last, p, taken, most, l, key, m);
    }
  }

  lemma TotalIsMore(db: Db)
    requires 2 <= |db.flash|
    ensures db.secSize <= |db.flash| * db.secSize
  {
    assert |db.flash| * db.secSize == db.secSize + (|db.flash| - 1) * db.secSize;
  }

  /** With two empty sectors an interrupted collection is not resumed at all. */
  lemma {:induction false} ResumeIdles(db: Db, start: nat, k: nat)
    requires db.oldest < |db.flash| && start < |db.flash| && k <= |db.flash| && 1 < Count(db.flash, Empty) && !db.gcRequest
    ensures Resume(db, start, k) == db
    decreases |db.flash| - k
  {
    hide Count, GcFrom, LastEmpty;
    if k < |db.flash| {
      assert db.(gcRequest := true).(gcRequest := false) == db;
      ResumeIdles(db, start, k + 1);
    }
  }

  lemma SweptIsClean(f: seq<Sector>, g: seq<Sector>, start: nat)
    requires SweptFrom(f, g, start, 0)
    ensures NoneBegun(g) && forall i :: 0 <= i < |g| ==> !IsDirty(g[i])
  {
    hide Live;
    forall i | 0 <= i < |g| ensures !IsDirty(g[i]) && Unvictimized(g[i]) {
      assert Swept(f[RingPos(start, Steps(start, i, |f|), |f|)], g[RingPos(start, Steps(start, i, |f|), |f|)], true);
    }
  }

  /** What opening does to a log of which a collection was interrupted. */
  lemma {:induction false} ResumeKeeps(db: Db, start: nat, k: nat, m: Table)
    requires Shaped(db) && db.recovering && !db.gcRequest && Owing(db.flash, None, [], m) && Settleable(db)
    requires start < |db.flash| && k <= |db.flash|
    ensures var d := Resume(db, start, k);
      && d.secSize == db.secSize && d.recovering && !d.gcRequest
      && (d == db || (Shaped(d) && 0 < Count(d.flash, Empty) && SweptFrom(db.flash, d.flash, db.oldest, 0) && Owing(d.flash, None, [], m)))
      && (Count(db.flash, Empty) <= 1 && (exists x :: k <= x < |db.flash| && !Unvictimized(db.flash[RingPos(start, x, |db.flash|)])) ==> d != db || NoneBegun(d.flash))
    decreases |db.flash| - k
  {
    hide Owing, Count, WfShape, GcCollect, SweptFrom, Settleable, NoneBegun;
    var N := |db.flash|;
    if 1 < Count(db.flash, Empty) {
      ResumeIdles(db, start, k);
    } else if k < N {
      var i := RingPos(start, k, N);
      if db.flash[i].Sector? && db.flash[i].dirty == Gc {
        TotalIsMore(db);
        CollectsWhileOpening(db, N * db.secSize, None, [], m);
        var d := GcCollect(db.(gcRequest := true), N * db.secSize);
        SweptIsClean(db.flash, d.flash, db.oldest);
        AllUnvictimized(d.flash);
        ResumeNothing(d, start, k + 1);
      } else {
        ResumeKeeps(db, start, k + 1, m);
      }
    }
  }

  lemma AllUnvictimized(flash: seq<Sector>)
    requires NoneBegun(flash)
    ensures forall x :: 0 <= x < |flash| ==> Unvictimized(flash[x])
  {}

  lemma SweptQuiet(f: seq<Sector>, g: seq<Sector>, start: nat)
    requires SweptFrom(f, g, start, 0) && QuietExcept(f, {})
    ensures QuietExcept(g, {})
  {
    hide Intact;
    forall x: nat, y: nat | x < |g| && g[x].Sector? && y < |g[x].nodes| ensures Quiet(g[x].nodes[y]) {
      assert Swept(f[RingPos(start, Steps(start, x, |f|), |f|)], g[RingPos(start, Steps(start, x, |f|), |f|)], true);
      if !IsDirty(f[x]) && f[x].Sector? && y < |f[x].nodes| {
        assert Loc(x, y) !in {};
        assert Quiet(f[x].nodes[y]);
      }
    }
  }

  lemma SweptWf(db: Db, d: Db)
    requires WfDb(db) && Shaped(d) && SweptFrom(db.flash, d.flash, db.oldest, 0) && d.secSize == db.secSize
    ensures WfDb(d)
  {
    hide WfShape, Intact;
    forall x | 0 <= x < |d.flash| ensures WfSector(d.flash[x], d.secSize) {
      var o, n := db.oldest, |db.flash|;
      assert Swept(db.flash[RingPos(o, Steps(o, x, n), n)], d.flash[RingPos(o, Steps(o, x, n), n)], true);
      assert WfSector(db.flash[x], db.secSize);
      HasHeader(db.flash[x], db.secSize);
      LiveStays(d.flash[x]);
    }
  }

  lemma HasHeader(sec: Sector, secSize: nat)
    requires WfSector(sec, secSize)
    ensures sec.Sector? && (!IsDirty(sec) ==> sec.dirty == False && forall j :: 0 <= j < |sec.nodes| ==> !Going(sec.nodes[j]))
  {}

  lemma LiveStays(sec: Sector)
    ensures sec.Sector? ==> forall j :: 0 <= j < |sec.nodes| && Live(sec.nodes[j]) ==> !Going(sec.nodes[j])
  {
    hide Intact;
  }

  /** A log in which nothing is half done but a collection has begun opens with all its entries, if some sector is
      empty or recovery comes to the sector being collected before any other dirty one. */
  lemma OpenMidCollection(secSize: nat, f: seq<Sector>, m: Table)
    requires Shaped(Fresh(secSize, f)) && QuietExcept(f, {}) && Holds(f, m) && Settleable(Fresh(secSize, f))
    ensures 0 < |f|
    ensures var d := Load(secSize, f, 1);
      && d.Some? && Holds(d.value.flash, m) && AllSearched(d.value.flash)
      && (Count(f, Empty) <= 1 && WfDb(Fresh(secSize, f)) && 0 < Count(d.value.flash, Empty) ==> Resting(d.value))
  {
    hide Contents, WfShape, WfSector, Count, RecoverPass, Resume, FindOldest, Settleable, SweptFrom, Quiet, CheckHeaders, IsPending;
    var e := Fresh(secSize, f);
    ShapedHeaders(e);
    CheckNothing(e, 0, 0);
    QuietOwesNothing(f, m);
    ResumeKeeps(e, e.oldest, 0, m);
    var d := Resume(e, e.oldest, 0);
    ShapedSearched(d);
    if d != e {
      SweptQuiet(f, d.flash, e.oldest);
      SweptIsClean(f, d.flash, e.oldest);
      if WfDb(e) {
        SweptWf(e, d);
      }
    }
    PassIsScan(d, 0);
    ScanToEnd(d, 0, 0);
    assert Prepare(secSize, f) == d;
    assert RecoverRounds(d, 1) == Some(d);
    QuietIsCalm(d);
    VictimFound(e);
  }

  lemma ShapedHeaders(db: Db)
    requires Shaped(db)
    ensures forall x :: 0 <= x < |db.flash| ==> db.flash[x].Sector?
  {
    forall x | 0 <= x < |db.flash| ensures db.flash[x].Sector? {
      assert WfShape(db.flash[x], db.secSize);
    }
  }

  lemma QuietOwesNothing(f: seq<Sector>, m: Table)
    requires QuietExcept(f, {}) && Holds(f, m)
    ensures Owing(f, None, [], m)
  {
    hide Intact, Contents;
    forall x: nat, y: nat | x < |f| && f[x].Sector? && y < |f[x].nodes| ensures !IsPending(f[x].nodes[y]) {
      assert Loc(x, y) !in {};
      assert Quiet(f[x].nodes[y]);
    }
  }

  lemma QuietIsCalm(db: Db)
    requires QuietExcept(db.flash, {})
    ensures WfDb(db) ==> Calm(db.flash)
  {
    hide Intact, Off;
    if WfDb(db) {
      forall i | 0 <= i < |db.flash| ensures CalmSector(db.flash[i]) {
        assert WfSector(db.flash[i], db.secSize);
        forall y | 0 <= y < |db.flash[i].nodes| ensures !Pending(db.flash[i].nodes[y]) {
          assert Loc(i, y) !in {};
          assert Quiet(db.flash[i].nodes[y]) && WfNode(db.flash[i].nodes[y]);
        }
      }
    }
  }

  lemma VictimFound(e: Db)
    requires e.oldest < |e.flash|
    ensures NoneBegun(e.flash) || exists x :: 0 <= x < |e.flash| && !Unvictimized(e.flash[RingPos(e.oldest, x, |e.flash|)])
  {
    hide Unvictimized;
    if i :| 0 <= i < |e.flash| && !Unvictimized(e.flash[i]) {
      assert !Unvictimized(e.flash[RingPos(e.oldest, Steps(e.oldest, i, |e.flash|), |e.flash|)]);
    }
  }

  /** The state of a collection of sector `i` after its first `x` nodes. */
  function MidCollection(db: Db, i: nat, x: nat): Db
    requires db.oldest < |db.flash| && i < |db.flash| && db.flash[i].Sector? && x <= |db.flash[i].nodes|
  {
    GcNodes(Rewrite(db, i, [db.flash[i].(dirty := Gc)]), i, 0, x)
  }

  /** A power cut between two moves of a collection: opening keeps every entry, if a sector is empty or recovery comes
      to the sector being collected before any other dirty one. */
  lemma CutBetweenMoves(db: Db, i: nat, x: nat, m: Table)
    requires Collectable(db) && NoneBegun(db.flash) && Holds(db.flash, m) && i < |db.flash| && IsDirty(db.flash[i])
    requires x <= |db.flash[i].nodes|
    ensures var f := MidCollection(db, i, x).flash; var o, n := FindOldest(f), |f|;
      0 < n && i < n
      && (0 < Count(f, Empty) || (forall j :: 0 <= j < n && IsDirty(f[j]) ==> Steps(o, i, n) <= Steps(o, j, n)) ==>
            var d := Load(db.secSize, f, 1);
            d.Some? && Holds(d.value.flash, m) && AllSearched(d.value.flash))
  {
    hide NodeCrc, Contents, WfSector, WfShape, Off, GcNodes, Preserves, Carrier, Rewrite, UsedTo, Count, Elsewhere, CarrierBytes, Calm, FindOldest, Quiet, Load, Used, NoneBegun;
    DirtyUsing(db, i);
    var sec := db.flash[i].(dirty := Gc);
    DirtyStep(db, i);
    var d1 := Rewrite(db, i, [sec]);
    var most := CarrierBytes(sec.nodes, 0);
    var taken := GcNodesKeeps(d1, i, 0, x, Count(db.flash, Empty), None, most);
    var c := MidCollection(db, i, x);
    var f := c.flash;
    HoldsPreserved(db, d1, m);
    HoldsPreserved(d1, c, m);
    CalmQuiet(c);
    var e := Fresh(db.secSize, f);
    FreshIs(db.secSize, f);
    StillCollecting(c, e, i, x, Count(db.flash, Empty), taken, most);
    if 0 < Count(f, Empty) || forall j :: 0 <= j < |f| && IsDirty(f[j]) ==> Steps(e.oldest, i, |f|) <= Steps(e.oldest, j, |f|) {
      if Count(f, Empty) == 0 {
        InLine(e, i, taken, most);
      }
      OpenMidCollection(db.secSize, f, m);
    }
  }

  lemma CalmQuiet(db: Db)
    requires WfDb(db) && Calm(db.flash)
    ensures QuietExcept(db.flash, {})
  {
    hide NodeCrc, WfSector;
    forall x: nat, y: nat | x < |db.flash| && db.flash[x].Sector? && y < |db.flash[x].nodes| ensures Quiet(db.flash[x].nodes[y]) {
      assert CalmSector(db.flash[x]);
    }
  }

  /** As far as the victim is concerned, the collection may as well begin anew. */
  lemma StillCollecting(c: Db, e: Db, i: nat, x: nat, empties: nat, taken: Option<nat>, most: nat)
    requires Collecting(c, i, x, empties, taken, most) && e.flash == c.flash && e.secSize == c.secSize && e.oldest < |e.flash|
    requires forall y :: 0 <= y < x ==> !Carrier(c.flash[i].nodes[y])
    ensures Shaped(e)
    ensures Count(c.flash, Empty) == 0 ==> MayCollect(e.(gcRequest := true), i, 1, taken, most)
  {
    hide WfShape, Carrier, Count;
    CarriersSkip(c.flash[i].nodes, 0, x);
    assert c.flash[i].(dirty := Gc) == c.flash[i];
    assert c.flash[i := c.flash[i]] == c.flash;
  }

  lemma {:induction false} CarriersSkip(nodes: seq<Node>, j: nat, x: nat)
    requires j <= x <= |nodes| && forall y :: j <= y < x ==> !Carrier(nodes[y])
    ensures CarrierBytes(nodes, j) == CarrierBytes(nodes, x)
    decreases x - j
  {
    hide Carrier;
    if j < x {
      CarriersSkip(nodes, j + 1, x);
    }
  }

  lemma InLine(e: Db, i: nat, taken: Option<nat>, most: nat)
    requires e.oldest < |e.flash| && i < |e.flash| && MayCollect(e.(gcRequest := true), i, 1, taken, most)
    requires forall j :: 0 <= j < |e.flash| && IsDirty(e.flash[j]) ==> Steps(e.oldest, i, |e.flash|) <= Steps(e.oldest, j, |e.flash|)
    ensures Settleable(e)
  {
    hide MayCollect, IsDirty;
    var p, n := Steps(e.oldest, i, |e.flash|), |e.flash|;
    forall x | 0 <= x < p ensures !IsDirty(e.flash[RingPos(e.oldest, x, n)]) {
      assert Steps(e.oldest, RingPos(e.oldest, x, n), n) == x;
    }
    assert FirstInLine(e.(gcRequest := true), p, taken, most);
  }

  // ------------------------------------------------------------ a sector that finds no room

  /** No sector is empty, and no other sector has room for a node of sector `i` that is to be moved. */
  ghost predicate Crowded(db: Db, i: nat) {
    && i < |db.flash| && IsDirty(db.flash[i]) && Count(db.flash, Empty) == 0
    && forall j, t :: 0 <= j < |db.flash[i].nodes| && Carrier(db.flash[i].nodes[j]) && 0 <= t < |db.flash| && t != i
         ==> !HasRoom(db, Using, db.flash[i].nodes[j].Len(), t)
  }

  /** A move without room fails, and changes nothing outside its sector. */
  lemma MoveFails(db: Db, i: nat, j: nat)
    requires db.oldest < |db.flash| && db.gcRequest && At(db, i, j) && Carrier(db.flash[i].nodes[j]) && db.flash[i].dirty == Gc
    requires Count(db.flash, Empty) == 0 && db.flash[i].store != Empty
    requires forall t :: 0 <= t < |db.flash| && t != i ==> !HasRoom(db, Using, db.flash[i].nodes[j].Len(), t)
    ensures var d := MoveKv(db, i, j).db;
      && d == db.(flash := db.flash[i := d.flash[i]], log := d.log)
      && d.flash[i].Sector? && d.flash[i].dirty == Gc && d.flash[i].store == db.flash[i].store
      && |d.flash[i].nodes| == |db.flash[i].nodes| && forall y :: j < y < |db.flash[i].nodes| ==> d.flash[i].nodes[y] == db.flash[i].nodes[y]
  {
    hide NodeCrc, CountStore, AllocKv, MarkDel, HasRoom, Find;
    var node := db.flash[i].nodes[j];
    var d := MoveStart(db, i, j);
    if node.st == Write {
      MarkDelFlash(db, i, j, false);
      CountUpdate(db.flash, i, d.flash[i], Empty, |db.flash|);
    }
    forall t | 0 <= t < |d.flash| && t != i ensures !HasRoom(d, Using, node.Len(), t) {
      SameRoom(db, d, node.Len(), t);
    }
    AllocFails(d, node.Len(), i);
  }

  lemma AllocFails(db: Db, size: nat, i: nat)
    requires db.oldest < |db.flash| && db.gcRequest && i < |db.flash| && db.flash[i].Sector? && db.flash[i].dirty == Gc
    requires Count(db.flash, Empty) == 0 && forall t :: 0 <= t < |db.flash| && t != i ==> !HasRoom(db, Using, size, t)
    ensures AllocKv(db, size) == Alloc(db, None)
  {
    hide CountStore, AllocScan, Remain;
  }

  lemma {:induction false} NodesFail(db: Db, i: nat, j: nat)
    requires db.oldest < |db.flash| && db.gcRequest && Formatted(db, i) && db.flash[i].dirty == Gc && j <= |db.flash[i].nodes|
    requires Count(db.flash, Empty) == 0 && db.flash[i].store != Empty
    requires forall y, t ::
      j <= y < |db.flash[i].nodes| && Carrier(db.flash[i].nodes[y]) && 0 <= t < |db.flash| && t != i
      ==> !HasRoom(db, Using, db.flash[i].nodes[y].Len(), t)
    ensures var d := GcNodes(db, i, j, |db.flash[i].nodes|); d == db.(flash := db.flash[i := d.flash[i]], log := d.log)
    decreases |db.flash[i].nodes| - j
  {
    hide MoveKv, NodeCrc, Count, HasRoom;
    if j < |db.flash[i].nodes| {
      if Carrier(db.flash[i].nodes[j]) {
        MoveFails(db, i, j);
        var d := MoveKv(db, i, j).db;
        CountUpdate(db.flash, i, d.flash[i], Empty, |db.flash|);
        SameCount(db.flash, d.flash);
        forall y, t | j + 1 <= y < |d.flash[i].nodes| && Carrier(d.flash[i].nodes[y]) && 0 <= t < |d.flash| && t != i
          ensures !HasRoom(d, Using, d.flash[i].nodes[y].Len(), t)
        {
          assert d.flash[t] == db.flash[t] && d.flash[i].nodes[y] == db.flash[i].nodes[y];
          SameRoom(db, d, d.flash[i].nodes[y].Len(), t);
        }
        NodesFail(d, i, j + 1);
      } else {
        NodesFail(db, i, j + 1);
      }
    }
  }

  lemma SameCount(f: seq<Sector>, g: seq<Sector>)
    requires |f| == |g| && CountStore(f, Empty, 0, |f|) == CountStore(g, Empty, 0, |f|)
    ensures Count(f, Empty) == Count(g, Empty)
  {}

  lemma SameRoom(db: Db, d: Db, size: nat, t: nat)
    requires t < |db.flash| && |d.flash| == |db.flash| && d.flash[t] == db.flash[t] && d.secSize == db.secSize && d.gcRequest == db.gcRequest
    ensures HasRoom(d, Using, size, t) == HasRoom(db, Using, size, t)
  {}

  /** A collection of a crowded sector loses everything in it, and nothing else. */
  lemma CrowdedLoses(db: Db, i: nat, freeSize: nat, last: nat)
    requires Shaped(db) && db.gcRequest && Crowded(db, i) && last < |db.flash|
    ensures var s := GcSector(db, i, freeSize, last);
      && s.db.flash == db.flash[i := Sector(Empty, False, [])] && s.db.gcRequest && s.last == i
      && (s.stop ==> Remain(s.db, last) > freeSize)
  {
    hide NodeCrc, WfNode, Carrier, CountStore, GcNodes, Remain;
    var sec := db.flash[i].(dirty := Gc);
    assert WfShape(db.flash[i], db.secSize);
    var d1 := Rewrite(db, i, [sec]);
    CountUpdate(db.flash, i, sec, Empty, |db.flash|);
    forall y, t | 0 <= y < |sec.nodes| && Carrier(sec.nodes[y]) && 0 <= t < |db.flash| && t != i
      ensures !HasRoom(d1, Using, sec.nodes[y].Len(), t)
    {
      SameRoom(db, d1, sec.nodes[y].Len(), t);
    }
    NodesFail(d1, i, 0);
    StopsAt(db, GcNodes(d1, i, 0, |sec.nodes|), i, freeSize, last);
  }

  /** Opening a log in which a collection was interrupted, when recovery comes to a crowded sector first: just what that
      sector holds is lost. */
  lemma OpenLoses(secSize: nat, f: seq<Sector>, p: nat, rest: Table)
    requires Shaped(Fresh(secSize, f)) && QuietExcept(f, {}) && !NoneBegun(f) && p < |f|
    requires var e := Fresh(secSize, f).(gcRequest := true); var i := RingPos(e.oldest, p, |f|);
      && Crowded(e, i) && (forall x :: 0 <= x < p ==> !IsDirty(f[RingPos(e.oldest, x, |f|)]))
      && Holds(f[i := Sector(Empty, False, [])], rest)
    ensures var d := Load(secSize, f, 1);
      && d.Some? && Holds(d.value.flash, rest) && AllSearched(d.value.flash)
  {
    hide Contents, WfShape, WfSector, Count, RecoverPass, Resume, FindOldest, SweptFrom, Quiet, CheckHeaders, IsPending, Crowded, GcCollect, NoneBegun, Unvictimized, IsDirty;
    var e := Fresh(secSize, f);
    ShapedHeaders(e);
    CheckNothing(e, 0, 0);
    VictimFound(e);
    var some :| 0 <= some < |f| && !Unvictimized(f[RingPos(e.oldest, some, |f|)]);
    var q := FirstVictim(f, e.oldest, some);
    CollectLoses(e.(gcRequest := true), p, rest);
    var d := GcCollect(e.(gcRequest := true), |f| * secSize);
    ResumesAt(e, e.oldest, 0, q);
    AllUnvictimized(d.flash);
    ResumeNothing(d, e.oldest, q + 1);
    ShapedSearched(d);
    PassIsScan(d, 0);
    ScanToEnd(d, 0, 0);
    assert Prepare(secSize, f) == d;
    assert RecoverRounds(d, 1) == Some(d);
  }

  lemma {:induction false} FirstVictim(f: seq<Sector>, start: nat, some: nat) returns (q: nat)
    requires start < |f| && some < |f| && !Unvictimized(f[RingPos(start, some, |f|)])
    ensures q <= some && !Unvictimized(f[RingPos(start, q, |f|)]) && forall x :: 0 <= x < q ==> Unvictimized(f[RingPos(start, x, |f|)])
  {
    hide Unvictimized;
    q := some;
    if x :| 0 <= x < some && !Unvictimized(f[RingPos(start, x, |f|)]) {
      q := FirstVictim(f, start, x);
    }
  }

  lemma {:induction false} ResumesAt(db: Db, start: nat, k: nat, q: nat)
    requires db.oldest < |db.flash| && start < |db.flash| && k <= q < |db.flash|
    requires forall x :: k <= x < q ==> Unvictimized(db.flash[RingPos(start, x, |db.flash|)])
    requires !Unvictimized(db.flash[RingPos(start, q, |db.flash|)])
    ensures Resume(db, start, k) == Resume(GcCollect(db.(gcRequest := true), |db.flash| * db.secSize), start, q + 1)
    decreases q - k
  {
    hide GcCollect;
    if k < q {
      ResumesAt(db, start, k + 1, q);
    }
  }

  lemma {:induction false} GcSkips(db: Db, start: nat, k: nat, p: nat, freeSize: nat, last: nat)
    requires Shaped(db) && start < |db.flash| && k <= p < |db.flash| && last < |db.flash|
    requires forall x :: k <= x < p ==> !IsDirty(db.flash[RingPos(start, x, |db.flash|)])
    ensures GcFrom(db, start, k, freeSize, last) == GcFrom(db, start, p, freeSize, last)
    decreases p - k
  {
    hide GcSector, IsDirty, WfShape;
    if k < p {
      CleanPassed(db, RingPos(start, k, |db.flash|), freeSize, last);
      GcSkips(db, start, k + 1, p, freeSize, last);
    }
  }

  lemma GcFromAt(db: Db, start: nat, k: nat, freeSize: nat, last: nat)
    requires db.oldest < |db.flash| && start < |db.flash| && k < |db.flash| && last < |db.flash|
    requires !GcSector(db, RingPos(start, k, |db.flash|), freeSize, last).stop
    ensures var s := GcSector(db, RingPos(start, k, |db.flash|), freeSize, last);
      GcFrom(db, start, k, freeSize, last) == GcFrom(s.db, start, k + 1, freeSize, s.last)
  {
    hide GcSector;
  }

  /** The walk up to and with the crowded sector. */
  lemma LosesFirst(g: Db, p: nat, freeSize: nat, last: nat) returns (s: Db)
    requires Shaped(g) && g.gcRequest && p < |g.flash| && last < |g.flash| && g.secSize <= freeSize
    requires Crowded(g, RingPos(g.oldest, p, |g.flash|))
    requires forall x :: 0 <= x < p ==> !IsDirty(g.flash[RingPos(g.oldest, x, |g.flash|)])
    ensures Shaped(s) && s.gcRequest && s.recovering == g.recovering && s.secSize == g.secSize && 0 < Count(s.flash, Empty)
    ensures var i := RingPos(g.oldest, p, |g.flash|);
      && s.flash == g.flash[i := Sector(Empty, False, [])]
      && GcFrom(g, g.oldest, 0, freeSize, last) == GcFrom(s, g.oldest, p + 1, freeSize, i)
  {
    hide WfShape, CountStore, GcFrom, GcSector, HasRoom, Carrier, Remain;
    var i := RingPos(g.oldest, p, |g.flash|);
    GcSkips(g, g.oldest, 0, p, freeSize, last);
    CrowdedLoses(g, i, freeSize, last);
    s := GcSector(g, i, freeSize, last).db;
    NotSoMuch(s, last);
    GcFromAt(g, g.oldest, p, freeSize, last);
    StillShaped(g, s, i);
    OneEmpty(s.flash, i);
  }

  lemma CollectIs(g: Db, i: nat, freeSize: nat)
    requires g.oldest < |g.flash| && Crowded(g, i)
    ensures GcCollect(g, freeSize) == GcFrom(g, g.oldest, 0, freeSize, LastEmpty(g.flash, g.oldest, |g.flash|)).(gcRequest := false)
  {
    hide GcFrom, CountStore, HasRoom, Carrier;
  }

  lemma CollectLoses(g: Db, p: nat, rest: Table)
    requires Shaped(g) && QuietExcept(g.flash, {}) && g.recovering && g.gcRequest && p < |g.flash|
    requires Crowded(g, RingPos(g.oldest, p, |g.flash|)) && Holds(g.flash[RingPos(g.oldest, p, |g.flash|) := Sector(Empty, False, [])], rest)
    requires forall x :: 0 <= x < p ==> !IsDirty(g.flash[RingPos(g.oldest, x, |g.flash|)])
    ensures var d := GcCollect(g, |g.flash| * g.secSize);
      && Shaped(d) && NoneBegun(d.flash) && QuietExcept(d.flash, {}) && Holds(d.flash, rest)
  {
    hide *;
    ShapedBound(g);
    var total, i, last := |g.flash| * g.secSize, RingPos(g.oldest, p, |g.flash|), LastEmpty(g.flash, g.oldest, |g.flash|);
    TotalIsMore(g);
    CollectIs(g, i, total);
    var s := LosesFirst(g, p, total, last);
    ShapedBound(s);
    QuietPut(g.flash, i);
    QuietOwesNothing(s.flash, rest);
    FromSettles(s, g.oldest, p + 1, total, i, None, [], rest);
    var d := GcFrom(s, g.oldest, p + 1, total, i);
    CleanBefore(g.flash, s.flash, d.flash, g.oldest, p);
    SweptIsClean(s.flash, d.flash, g.oldest);
    SweptQuiet(s.flash, d.flash, g.oldest);
    OwedNone(s.flash, d.flash, g.oldest, p + 1, rest);
    RequestShaped(d);
  }

  lemma ShapedBound(db: Db)
    requires Shaped(db)
    ensures 2 <= |db.flash| && db.oldest < |db.flash|
  {
    hide WfShape;
  }

  lemma RequestShaped(db: Db)
    requires Shaped(db)
    ensures Shaped(db.(gcRequest := false))
  {
    hide WfShape;
  }

  lemma OwedNone(f: seq<Sector>, flash: seq<Sector>, start: nat, k: nat, m: Table)
    requires start < |f| && Owing(flash, OwedAfter(f, start, k, None), [], m)
    ensures Holds(flash, m)
  {
    HoldsOwed(flash, m);
  }

  lemma HoldsOwed(flash: seq<Sector>, m: Table)
    requires Owing(flash, None, [], m)
    ensures Holds(flash, m)
  {
    hide Contents, IsPending;
  }

  lemma QuietPut(flash: seq<Sector>, i: nat)
    requires QuietExcept(flash, {}) && i < |flash|
    ensures QuietExcept(flash[i := Sector(Empty, False, [])], {})
  {
    hide Quiet;
    var g := flash[i := Sector(Empty, False, [])];
    forall x: nat, y: nat | x < |g| && g[x].Sector? && y < |g[x].nodes| ensures Quiet(g[x].nodes[y]) {
      assert Loc(x, y) !in {};
    }
  }

  /** What is clean up to the `p`-th sector may as well count as swept from the start of the ring on. */
  lemma CleanBefore(f: seq<Sector>, s: seq<Sector>, d: seq<Sector>, start: nat, p: nat)
    requires start < |f| && p < |f| && s == f[RingPos(start, p, |f|) := Sector(Empty, False, [])] && SweptFrom(s, d, start, p + 1)
    requires forall x :: 0 <= x < p ==> !IsDirty(f[RingPos(start, x, |f|)])
    ensures SweptFrom(s, d, start, 0)
  {
    hide Gains;
    forall x | 0 <= x < |f| ensures Swept(s[RingPos(start, x, |f|)], d[RingPos(start, x, |f|)], true) {
      if x < p {
        assert s[RingPos(start, x, |f|)] == f[RingPos(start, x, |f|)];
      }
    }
  }
}
