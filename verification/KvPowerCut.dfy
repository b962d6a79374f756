/** The power-cut theorem: every state a `set` without a collection goes through, opened again. */
module KvPowerCut {
  import opened Bytes
  import opened Wrappers
  import opened Sectors
  import opened KvModel
  import opened KvContents
  import opened KvInvariant
  import opened KvGc
  import opened KvMap
  import opened KvLoad
  import opened KvCrash

  predicate IsTorn(node: Node) {
    node.Node? && node.st == PreWrite
  }

  predicate IsHeadless(sec: Sector, p: Node) {
    p == if sec.Sector? && sec.nodes == [] then Blank else Stray
  }

  /** A sector opened but not yet written to reads as one that holds a blank node. */
  function Seen(flash: seq<Sector>): (r: seq<Sector>)
    ensures |r| == |flash|
    ensures forall i :: 0 <= i < |flash| ==>
      r[i] == if HasStore(flash[i], Using) && flash[i].nodes == [] then flash[i].(nodes := [Blank]) else flash[i]
  {
    seq(|flash|, i requires 0 <= i < |flash| =>
      if HasStore(flash[i], Using) && flash[i].nodes == [] then flash[i].(nodes := [Blank]) else flash[i])
  }

  /** Wherever a deletion is pending there is spare room for one more copy of the node. */
  ghost predicate RoomToRecover(e: Db) {
    forall i: nat, j: nat :: At(e, i, j) && IsPending(e.flash[i].nodes[j]) ==> CanCopy(e, i, j)
  }

  /** The scan meets a torn node before one whose deletion is pending. */
  ghost predicate TornFirst(e: Db) {
    e.oldest < |e.flash| &&
    exists a: Loc, b: Loc ::
      && At(e, a.sec, a.node) && IsPending(e.flash[a.sec].nodes[a.node])
      && At(e, b.sec, b.node) && IsTorn(e.flash[b.sec].nodes[b.node])
      && Precedes(e, b, a)
  }

  /** What opening makes of the state `f` of a `set` of `key` to `value` on a log holding `m`: a log that
      holds the old or the new map, or, if a torn node comes first, one that lacks the key until the medium
      is opened once more. */
  ghost predicate Recovers(secSize: nat, f: seq<Sector>, key: Key, value: seq<byte>, m: Table) {
    0 < |f| &&
    var d := Load(secSize, f, 1);
    && d.Some?
    && (!TornFirst(Fresh(secSize, f)) ==> Opens(d, m) || Opens(d, m[key := value]))
    && (TornFirst(Fresh(secSize, f)) ==>
          && key in m && Holds(d.value.flash, m - {key}) && AllSearched(d.value.flash)
          && Reopens(secSize, d.value.flash, m))
  }

  // ------------------------------------------------------------ the shapes of the states

  /** Nothing is half done. */
  ghost predicate LeftQuiet(e: Db, m: Table) {
    Opening(e, {}) && QuietExcept(e.flash, {}) && Holds(e.flash, m)
  }

  /** The old node is marked, and the new one has no header. */
  ghost predicate LeftPending(e: Db, l: Loc, key: Key, m: Table) {
    OldAside(e, l, key, m) && QuietExcept(e.flash, {l})
  }

  /** The old node is marked, and the new one complete. */
  ghost predicate LeftReplaced(e: Db, l: Loc, key: Key, m: Table) {
    && Opening(e, {l.sec}) && At(e, l.sec, l.node) && IsDirty(e.flash[l.sec]) && QuietExcept(e.flash, {l})
    && IsPending(e.flash[l.sec].nodes[l.node]) && Name(e.flash[l.sec].nodes[l.node]) == key
    && Holds(e.flash, m) && key in m
  }

  ghost predicate SomeReplaced(e: Db, key: Key, m: Table) {
    exists l: Loc :: LeftReplaced(e, l, key, m)
  }

  /** A torn node and nothing else. */
  ghost predicate LeftTorn(e: Db, b: Loc, m: Table) {
    Opening(e, {}) && At(e, b.sec, b.node) && IsTorn(e.flash[b.sec].nodes[b.node]) && QuietExcept(e.flash, {b}) && Holds(e.flash, m)
  }

  /** The old node is marked, and the new one torn. */
  ghost predicate LeftBoth(e: Db, l: Loc, b: Loc, key: Key, m: Table) {
    && OldAside(e, l, key, m) && IsDirty(e.flash[l.sec]) && QuietExcept(e.flash, {l, b})
    && At(e, b.sec, b.node) && IsTorn(e.flash[b.sec].nodes[b.node])
  }

  /** What a cut of a `set` of `key` to `value` leaves of a log holding `m`. */
  ghost predicate CutLeaves(e: Db, key: Key, value: seq<byte>, m: Table) {
    || LeftQuiet(e, m) || LeftQuiet(e, m[key := value])
    || (exists l: Loc :: LeftPending(e, l, key, m))
    || SomeReplaced(e, key, m[key := value])
    || (exists b: Loc :: LeftTorn(e, b, m))
    || (exists l: Loc, b: Loc :: LeftBoth(e, l, b, key, m))
  }

  lemma LeavesSome(e: Db, key: Key, value: seq<byte>, m: Table)
    requires CutLeaves(e, key, value, m)
    ensures 2 <= |e.flash| && e.oldest < |e.flash| && e.recovering && !e.gcRequest
  {
    hide Contents, QuietExcept, IsPending;
  }

  lemma CopyAt(e: Db, l: Loc)
    requires RoomToRecover(e) && At(e, l.sec, l.node) && IsPending(e.flash[l.sec].nodes[l.node])
    ensures CanCopy(e, l.sec, l.node)
  {}

  /** With room to recover, opening makes the best of each. */
  lemma LeavesRecovers(secSize: nat, f: seq<Sector>, key: Key, value: seq<byte>, m: Table)
    requires CutLeaves(Fresh(secSize, f), key, value, m) && RoomToRecover(Fresh(secSize, f))
    ensures Recovers(secSize, f, key, value, m)
  {
    hide NodeCrc, ReadName, Contents, Opening, Load, CanCopy, RoomToRecover, Fresh, WfSector, IsPending, Quiet;
    FreshIs(secSize, f);
    var e := Fresh(secSize, f);
    LeavesSome(e, key, value, m);
    if LeftQuiet(e, m) {
      NothingPending(e, {});
      OpenQuiet(secSize, f, m);
    } else if LeftQuiet(e, m[key := value]) {
      NothingPending(e, {});
      OpenQuiet(secSize, f, m[key := value]);
    } else if l: Loc :| LeftPending(e, l, key, m) {
      CopyAt(e, l);
      PendingNotTorn(e, l);
      NoTornFirst(e, {l});
      OpenPending(secSize, f, l, key, m);
    } else if SomeReplaced(e, key, m[key := value]) {
      var n := m[key := value];
      var l: Loc :| LeftReplaced(e, l, key, n);
      CopyAt(e, l);
      PendingNotTorn(e, l);
      NoTornFirst(e, {l});
      OpenReplaced(secSize, f, l, key, value, m[key := value]);
    } else if b: Loc :| LeftTorn(e, b, m) {
      NothingPending(e, {b});
      OpenTorn(secSize, f, b, m);
    } else {
      var l: Loc, b: Loc :| LeftBoth(e, l, b, key, m);
      CopyAt(e, l);
      OnePendingOneTorn(e, l, b);
      if Precedes(e, b, l) {
        OpenTornFirst(secSize, f, l, b, key, m);
      } else {
        OpenPendingThenTorn(secSize, f, l, b, key, m);
      }
    }
  }

  lemma PendingNotTorn(e: Db, l: Loc)
    requires At(e, l.sec, l.node) && IsPending(e.flash[l.sec].nodes[l.node])
    ensures !IsTorn(e.flash[l.sec].nodes[l.node])
  {
    hide NodeCrc;
  }

  lemma CalmIsQuiet(db: Db)
    requires WfDb(db) && Calm(db.flash)
    ensures QuietExcept(db.flash, {})
  {
    hide NodeCrc;
    forall x: nat, y: nat | x < |db.flash| && db.flash[x].Sector? && y < |db.flash[x].nodes| ensures Quiet(db.flash[x].nodes[y]) {
      assert CalmSector(db.flash[x]);
    }
  }

  lemma NoTornFirst(e: Db, bad: set<Loc>)
    requires e.oldest < |e.flash| && QuietExcept(e.flash, bad)
    requires forall b :: b in bad ==> At(e, b.sec, b.node) && !IsTorn(e.flash[b.sec].nodes[b.node])
    ensures !TornFirst(e)
  {
    hide Intact;
  }

  lemma NothingPending(e: Db, bad: set<Loc>)
    requires e.oldest < |e.flash| && QuietExcept(e.flash, bad)
    requires forall b :: b in bad ==> At(e, b.sec, b.node) && IsTorn(e.flash[b.sec].nodes[b.node])
    ensures !TornFirst(e)
  {
    hide Intact;
  }

  lemma OnePendingOneTorn(e: Db, l: Loc, b: Loc)
    requires e.oldest < |e.flash| && QuietExcept(e.flash, {l, b})
    requires At(e, l.sec, l.node) && IsPending(e.flash[l.sec].nodes[l.node])
    requires At(e, b.sec, b.node) && IsTorn(e.flash[b.sec].nodes[b.node])
    ensures TornFirst(e) <==> Precedes(e, b, l)
    ensures !Precedes(e, b, l) ==> Precedes(e, l, b)
  {
    hide Intact;
    if TornFirst(e) {
      var x: Loc, y: Loc :|
        && At(e, x.sec, x.node) && IsPending(e.flash[x.sec].nodes[x.node])
        && At(e, y.sec, y.node) && IsTorn(e.flash[y.sec].nodes[y.node])
        && Precedes(e, y, x);
      assert !Quiet(e.flash[x.sec].nodes[x.node]) && !Quiet(e.flash[y.sec].nodes[y.node]);
      assert x == l && y == b;
    }
    assert l != b;
  }

  /** A resting log opened as it is. */
  lemma OpeningRest(db: Db)
    requires Resting(db)
    ensures Opening(Fresh(db.secSize, db.flash), {})
  {
    hide Count, Off, WfNode;
  }

  lemma OpeningMarked(db: Db, l: Loc, dirty: DirtyStatus)
    requires Resting(db) && At(db, l.sec, l.node) && Live(db.flash[l.sec].nodes[l.node])
    requires dirty == db.flash[l.sec].dirty || dirty == True
    ensures var f := db.flash[l.sec := MarkNode(db.flash[l.sec].(dirty := dirty), l.node, PreDelete)];
      && Opening(Fresh(db.secSize, f), {l.sec})
      && QuietExcept(f, {l})
      && At(Fresh(db.secSize, f), l.sec, l.node)
      && f[l.sec].nodes[l.node] == db.flash[l.sec].nodes[l.node].(st := PreDelete)
      && IsPending(f[l.sec].nodes[l.node])
      && EntryOf(f[l.sec].nodes[l.node]) == EntryOf(db.flash[l.sec].nodes[l.node])
      && Contents(f, false) + multiset{EntryOf(db.flash[l.sec].nodes[l.node])} == Contents(db.flash, false)
      && (dirty == True ==> Opening(Fresh(db.secSize, f), {}))
  {
    hide NodeCrc, ReadName, Off, Contents, SectorEntries;
    var i, j := l.sec, l.node;
    var sec := db.flash[i];
    var node := sec.nodes[j];
    var marked := MarkNode(sec.(dirty := dirty), j, PreDelete);
    var f := db.flash[i := marked];
    CalmIsQuiet(db);
    assert WfSector(sec, db.secSize) && Unvictimized(sec);
    WfMark(sec, db.secSize, j, PreDelete, True);
    assert MarkNode(sec.(dirty := True), j, PreDelete).(dirty := dirty) == marked;
    CountUpdate(db.flash, i, marked, Empty, |db.flash|);
    assert node.(st := Write) == node;
    StatusEntries(node, false);
    MarkEntries(sec, j, PreDelete, dirty, false);
    ContentsUpdate(db.flash, i, marked, false);
    Trade(Contents(f, false), Contents(db.flash, false), SectorEntries(sec, false), SectorEntries(marked, false),
          NodeEntries(node, false), multiset{});
    forall x: nat, y: nat | x < |f| && f[x].Sector? && y < |f[x].nodes| && Loc(x, y) != l ensures Quiet(f[x].nodes[y]) {
      assert f[x].nodes[y] == db.flash[x].nodes[y];
      assert Loc(x, y) !in {};
    }
  }

  lemma SpareDepends(db: Db, e: Db, size: nat, t: nat)
    requires db.flash == e.flash && db.secSize == e.secSize && !db.gcRequest && !e.gcRequest
    requires t < |db.flash| && SpareRoom(db, size, t)
    ensures SpareRoom(e, size, t)
  {}

  lemma OpeningHeld(secSize: nat, f: seq<Sector>, loose: set<nat>, t: nat, p: Node, size: nat)
    requires 0 < |f| && Opening(Fresh(secSize, f), loose)
    requires t < |f| && f[t].Sector? && (p.Blank? ==> f[t].nodes == [])
    requires t < |f| && f[t].Sector? && SpareRoom(Fresh(secSize, f), size, t)
    requires p.Len() <= size && WfNode(p) && !Going(p)
    ensures var g := f[t := Hold(f[t].(store := Using), p)];
      && Opening(Fresh(secSize, g), loose)
      && Contents(g, false) == Contents(f, false) + NodeEntries(p, false)
  {
    hide NodeCrc, Off, Contents, SectorEntries, WfNode, NodeEntries, SpareRoom, HasRoom, Count, FindOldest, WfShape, WfSector;
    var e := Fresh(secSize, f);
    var sec := Hold(f[t].(store := Using), p);
    SpareIsRoom(e, size, t);
    assert WfShape(e.flash[t], secSize) && Unvictimized(e.flash[t]);
    RoomShape(e, size, t);
    HoldShape(f[t], secSize, p);
    CountHold(e, size, t, p);
    HoldUnvictimized(f[t], p);
    HoldEntries(f[t], Using, p, false);
    ContentsUpdate(f, t, sec, false);
    var c, s, n := Contents(f, false), SectorEntries(f[t], false), NodeEntries(p, false);
    assert c + (s + n) == (c + n) + s;
    Cancel(Contents(f[t := sec], false), c + n, s);
  }

  lemma QuietHeld(f: seq<Sector>, t: nat, p: Node, bad: set<Loc>)
    requires t < |f| && f[t].Sector? && QuietExcept(f, bad)
    ensures var g := f[t := Hold(f[t].(store := Using), p)];
      && QuietExcept(g, bad + {Loc(t, |f[t].nodes|)})
      && (Quiet(p) ==> QuietExcept(g, bad))
      && g[t].Sector? && |g[t].nodes| == |f[t].nodes| + 1 && g[t].nodes[|f[t].nodes|] == p
      && forall x: nat, y: nat :: x < |f| && f[x].Sector? && y < |f[x].nodes| ==>
           g[x].Sector? && y < |g[x].nodes| && g[x].nodes[y] == f[x].nodes[y]
  {
    hide Quiet;
    var g := f[t := Hold(f[t].(store := Using), p)];
    var b := Loc(t, |f[t].nodes|);
    forall x: nat, y: nat | x < |g| && g[x].Sector? && y < |g[x].nodes| && Loc(x, y) != b && Loc(x, y) !in bad
      ensures Quiet(g[x].nodes[y])
    {
      assert g[x].nodes[y] == f[x].nodes[y];
    }
  }

  // ------------------------------------------------------------ the states of a replacement

  /** The old node is marked; the new one has no header yet. */
  lemma CutMarked(db: Db, l: Loc, dirty: DirtyStatus, key: Key, value: seq<byte>, m: Table)
    requires Resting(db) && Holds(db.flash, m) && key in m
    requires At(db, l.sec, l.node) && Live(db.flash[l.sec].nodes[l.node])
    requires EntryOf(db.flash[l.sec].nodes[l.node]) == (key, m[key])
    requires dirty == db.flash[l.sec].dirty || dirty == True
    ensures var f := db.flash[l.sec := MarkNode(db.flash[l.sec].(dirty := dirty), l.node, PreDelete)];
      CutLeaves(Fresh(db.secSize, f), key, value, m)
  {
    hide NodeCrc, ReadName, Contents, Opening, Quiet, FindOldest;
    OpeningMarked(db, l, dirty);
    var f := db.flash[l.sec := MarkNode(db.flash[l.sec].(dirty := dirty), l.node, PreDelete)];
    assert LeftPending(Fresh(db.secSize, f), l, key, m);
  }

  /** The old node is marked; a node `p` has been added. */
  ghost function Added(db: Db, l: Loc, t: nat, p: Node): seq<Sector>
    requires At(db, l.sec, l.node) && db.flash[l.sec].nodes[l.node].Node?
    requires Formatted(db, t)
  {
    var f := db.flash[l.sec := MarkedSector(db.flash[l.sec], l.node, PreDelete)];
    f[t := Hold(f[t].(store := Using), p)]
  }

  lemma AddedShape(db: Db, l: Loc, t: nat, p: Node, size: nat)
    requires Resting(db) && At(db, l.sec, l.node) && Live(db.flash[l.sec].nodes[l.node])
    requires Formatted(db, t) && SpareRoom(db, size, t) && p.Len() <= size && WfNode(p) && !Going(p)
    requires p.Blank? ==> db.flash[t].nodes == []
    ensures var f := Added(db, l, t, p);
      var b := Loc(t, |db.flash[t].nodes|);
      && 0 < |f|
      && Opening(Fresh(db.secSize, f), {l.sec})
      && QuietExcept(f, {l, b}) && (Quiet(p) ==> QuietExcept(f, {l}))
      && At(Fresh(db.secSize, f), l.sec, l.node) && At(Fresh(db.secSize, f), b.sec, b.node)
      && f[b.sec].nodes[b.node] == p
      && IsPending(f[l.sec].nodes[l.node])
      && EntryOf(f[l.sec].nodes[l.node]) == EntryOf(db.flash[l.sec].nodes[l.node])
      && Contents(f, false) + multiset{EntryOf(db.flash[l.sec].nodes[l.node])}
         == Contents(db.flash, false) + NodeEntries(p, false)
  {
    hide NodeCrc, ReadName, Contents, Opening, Quiet, FindOldest, SpareRoom, MarkDel, NodeEntries, WfSector, Count;
    var dirty := if db.flash[l.sec].dirty == False then True else db.flash[l.sec].dirty;
    OpeningMarked(db, l, dirty);
    MarkSpares(db, l.sec, l.node, false, size, t);
    MarkSteady(db, l.sec, l.node, false);
    var d := MarkDel(db, l.sec, l.node, false);
    SpareDepends(d, Fresh(db.secSize, d.flash), size, t);
    OpeningHeld(db.secSize, d.flash, {l.sec}, t, p, size);
    QuietHeld(d.flash, t, p, {l});
    assert {l} + {Loc(t, |d.flash[t].nodes|)} == {l, Loc(t, |db.flash[t].nodes|)};
    var c, e, n := Contents(d.flash, false), multiset{EntryOf(db.flash[l.sec].nodes[l.node])}, NodeEntries(p, false);
    assert (c + n) + e == (c + e) + n;
  }

  lemma CutAdded(db: Db, l: Loc, t: nat, p: Node, size: nat, key: Key, value: seq<byte>, m: Table)
    requires Resting(db) && Holds(db.flash, m) && key in m
    requires At(db, l.sec, l.node) && Live(db.flash[l.sec].nodes[l.node])
    requires EntryOf(db.flash[l.sec].nodes[l.node]) == (key, m[key])
    requires Formatted(db, t) && SpareRoom(db, size, t) && p.Len() <= size && WfNode(p)
    requires IsHeadless(db.flash[t], p) || IsTorn(p) || (Live(p) && EntryOf(p) == (key, value))
    ensures CutLeaves(Fresh(db.secSize, Added(db, l, t, p)), key, value, m)
  {
    hide NodeCrc, ReadName, Contents, Opening, FindOldest, SpareRoom, NodeEntries, Resting;
    var f := Added(db, l, t, p);
    var e := Fresh(db.secSize, f);
    var b := Loc(t, |db.flash[t].nodes|);
    AddedShape(db, l, t, p, size);
    AddedDirty(db, l, t, p);
    if Live(p) {
      LiveEntry(p);
      EntriesReplaced(m, key, value);
      Cancel(Contents(f, false), multiset(Entries(m[key := value])), multiset{(key, m[key])});
      assert LeftReplaced(e, l, key, m[key := value]);
    } else {
      NoEntry(p, false);
      if IsTorn(p) {
        assert LeftBoth(e, l, b, key, m);
      } else {
        assert LeftPending(e, l, key, m);
      }
    }
  }

  lemma AddedDirty(db: Db, l: Loc, t: nat, p: Node)
    requires Resting(db) && At(db, l.sec, l.node) && Live(db.flash[l.sec].nodes[l.node]) && Formatted(db, t)
    ensures IsDirty(Added(db, l, t, p)[l.sec])
  {
    hide NodeCrc, WfNode, Off, Count;
    assert WfSector(db.flash[l.sec], db.secSize);
  }

  lemma LiveEntry(p: Node)
    requires Live(p)
    ensures NodeEntries(p, false) == multiset{EntryOf(p)}
  {}

  /** Before the first write and after the last one. */
  lemma CutAtRest(db: Db, key: Key, value: seq<byte>, m: Table)
    requires Resting(db) && (Holds(db.flash, m) || Holds(db.flash, m[key := value]))
    ensures CutLeaves(Fresh(db.secSize, db.flash), key, value, m)
  {
    hide NodeCrc, Contents, Opening, Quiet, Load, FindOldest, WfSector, Count;
    OpeningRest(db);
    CalmIsQuiet(db);
  }

  /** No old node: a node `p` has been added. */
  lemma CutAlone(db: Db, t: nat, p: Node, size: nat, key: Key, value: seq<byte>, m: Table)
    requires Resting(db) && Holds(db.flash, m)
    requires Formatted(db, t) && SpareRoom(db, size, t) && p.Len() <= size && WfNode(p)
    requires IsHeadless(db.flash[t], p) || IsTorn(p)
    ensures CutLeaves(Fresh(db.secSize, db.flash[t := Hold(db.flash[t].(store := Using), p)]), key, value, m)
  {
    hide NodeCrc, Contents, Opening, Load, FindOldest, WfSector, Count, SpareRoom, NodeEntries;
    var f := db.flash[t := Hold(db.flash[t].(store := Using), p)];
    var b := Loc(t, |db.flash[t].nodes|);
    OpeningRest(db);
    CalmIsQuiet(db);
    SpareDepends(db, Fresh(db.secSize, db.flash), size, t);
    OpeningHeld(db.secSize, db.flash, {}, t, p, size);
    QuietHeld(db.flash, t, p, {});
    NoEntry(p, false);
    Cancel(Contents(f, false), Contents(db.flash, false), multiset{});
    assert {} + {b} == {b};
    if IsTorn(p) {
      assert LeftTorn(Fresh(db.secSize, f), b, m);
    }
  }

  // ------------------------------------------------------------ the states of a set

  lemma SeenSelf(db: Db)
    requires forall x :: 0 <= x < |db.flash| ==> WfShape(db.flash[x], db.secSize)
    ensures Seen(db.flash) == db.flash
  {
    hide WfNode, Used;
  }

  lemma SeenHeld(db: Db, t: nat, p: Node)
    requires Formatted(db, t) && (forall x :: 0 <= x < |db.flash| ==> WfShape(db.flash[x], db.secSize))
    ensures var g := db.flash[t := Hold(db.flash[t].(store := Using), p)]; Seen(g) == g
    ensures db.flash[t].store == Empty ==>
      Seen(db.flash[t := db.flash[t].(store := Using)]) == db.flash[t := Hold(db.flash[t].(store := Using), Blank)]
  {
    hide WfNode, Used;
    SeenSelf(db);
    if db.flash[t].store == Empty {
      assert WfShape(db.flash[t], db.secSize);
      assert db.flash[t].nodes + [Blank] == [Blank];
    }
  }

  /** The contents of the medium while a node is written: the sector opened, or a stage `p` of the node added. */
  lemma WriteStates(db: Db, t: nat, node: Node, x: nat) returns (opening: bool, p: Node)
    requires Formatted(db, t) && node.Node? && node.nameLen <= |node.data|
    requires Opened(db, t, node.Len()) == Using && !FillsUp(db, t, node.Len())
    requires db.flash[t].store == Empty ==> db.flash[t].nodes == []
    requires var d := CreateAt(db, t, node); |db.log| <= x < |d.log|
    ensures var f := CreateAt(db, t, node).log[x];
      && (opening ==> p == Blank && IsHeadless(db.flash[t], p) && db.flash[t].store == Empty && f == db.flash[t := db.flash[t].(store := Using)])
      && (!opening ==>
            && (p == node.(st := Write) || IsHeadless(db.flash[t], p) || IsPartial(p, node))
            && f == db.flash[t := Hold(db.flash[t].(store := Using), p)])
  {
    hide NodeCrc, FillsUp, Opened, CreateStages;
    var first := OpenSteps(db, t, node.Len());
    var stages := CreateStages(db.flash[t], node);
    var steps := first + HoldAll(OpenedSector(db, t, node.Len()), stages);
    var y := x - |db.log|;
    opening, p := y < |first|, Blank;
    assert CreateAt(db, t, node).log[x] == db.flash[t := steps[y]];
    if opening {
      assert steps[y] == OpenedSector(db, t, node.Len());
    } else {
      p := stages[y - |first|];
      assert steps[y] == Hold(OpenedSector(db, t, node.Len()), p);
      StageIs(db.flash[t], node, y - |first|);
    }
  }

  lemma EmptyHasNone(db: Db, t: nat)
    requires Steady(db) && Formatted(db, t)
    ensures db.flash[t].store == Empty ==> db.flash[t].nodes == []
  {
    hide WfNode, Used;
    assert WfSector(db.flash[t], db.secSize);
  }

  /** Some of the node has been written. */
  ghost predicate IsPartial(p: Node, node: Node)
    requires node.Node?
  {
    exists h: nat :: h <= |node.data| && p == Partial(node, h)
  }

  lemma StageIs(sec: Sector, node: Node, y: nat)
    requires sec.Sector? && node.Node? && node.nameLen <= |node.data| && y < |CreateStages(sec, node)|
    ensures var p := CreateStages(sec, node)[y];
      p == node.(st := Write) || IsHeadless(sec, p) || IsPartial(p, node)
  {}

  /** The last marking is a single write: the sector is dirty by then. */
  lemma LastMark(d1: Db, d2: Db, l: Loc, t: nat, node: Node)
    requires At(d2, l.sec, l.node) && d2.flash[l.sec].nodes[l.node].Node? && Formatted(d1, t) && |d2.flash| == |d1.flash|
    requires d2.flash == d1.flash[t := Hold(d1.flash[t].(store := Using), node)]
    requires d1.flash[l.sec].Sector? && d1.flash[l.sec].dirty != False
    ensures var d3 := MarkDel(d2, l.sec, l.node, true);
      |d3.log| == |d2.log| + 1 && d3.log[|d2.log|] == d3.flash
  {}

  lemma WriteLogGrows(db: Db, t: nat, node: Node)
    requires Formatted(db, t) && node.Node? && node.nameLen <= |node.data|
    ensures var d := CreateAt(db, t, node);
      |db.log| <= |d.log| && forall x :: 0 <= x < |db.log| ==> d.log[x] == db.log[x]
  {
    hide CreateStages, OpenSteps, HoldAll;
  }

  lemma MarkLogs(db: Db, l: Loc, complete: bool)
    requires At(db, l.sec, l.node) && db.flash[l.sec].nodes[l.node].Node?
    ensures var d := MarkDel(db, l.sec, l.node, complete);
      |db.log| <= |d.log| && forall x :: 0 <= x < |db.log| ==> d.log[x] == db.log[x]
  {
    hide MarkSteps;
  }

  lemma MarkStates(db: Db, l: Loc, x: nat)
    requires WfDb(db) && At(db, l.sec, l.node) && db.flash[l.sec].nodes[l.node].Node?
    requires |db.log| <= x < |MarkDel(db, l.sec, l.node, false).log|
    ensures var f := MarkDel(db, l.sec, l.node, false).log[x];
      && Seen(f) == f
      && (f == db.flash[l.sec := MarkNode(db.flash[l.sec].(dirty := db.flash[l.sec].dirty), l.node, PreDelete)]
          || f == db.flash[l.sec := MarkNode(db.flash[l.sec].(dirty := True), l.node, PreDelete)])
  {
    hide WfNode, Used;
    var sec := db.flash[l.sec];
    var steps := MarkSteps(sec, l.node, PreDelete);
    var y := x - |db.log|;
    assert steps[y] == MarkNode(sec.(dirty := sec.dirty), l.node, PreDelete) || steps[y] == MarkNode(sec.(dirty := True), l.node, PreDelete);
    assert MarkDel(db, l.sec, l.node, false).log[x] == db.flash[l.sec := steps[y]];
    SeenIs(db.flash[l.sec := steps[y]]);
  }

  lemma SeenIs(f: seq<Sector>)
    requires forall x :: 0 <= x < |f| && HasStore(f[x], Using) ==> f[x].nodes != []
    ensures Seen(f) == f
  {}

  lemma SteadyShapes(db: Db)
    requires Steady(db)
    ensures forall x :: 0 <= x < |db.flash| ==> WfShape(db.flash[x], db.secSize)
  {
    hide WfShape;
  }

  lemma StageWf(sec: Sector, key: Key, value: seq<byte>, p: Node)
    requires Readable(key) && NodeSize(key, value) < 0x1_0000_0000
    requires var node := NewNode(Write, key, value); p == node.(st := Write) || IsHeadless(sec, p) || IsPartial(p, node)
    ensures WfNode(p) && p.Len() <= NodeSize(key, value)
    ensures IsHeadless(sec, p) || IsTorn(p) || (Live(p) && EntryOf(p) == (key, value))
  {
    hide NodeCrc, ReadName;
    NewEntry(key, value, false);
    NewNodeIs(Write, key, value);
  }

  lemma CutWhileMarking(db: Db, l: Loc, key: Key, value: seq<byte>, m: Table, x: nat)
    requires Resting(db) && Holds(db.flash, m) && key in m
    requires At(db, l.sec, l.node) && Live(db.flash[l.sec].nodes[l.node])
    requires EntryOf(db.flash[l.sec].nodes[l.node]) == (key, m[key])
    requires |db.log| <= x < |MarkDel(db, l.sec, l.node, false).log|
    ensures CutLeaves(Fresh(db.secSize, Seen(MarkDel(db, l.sec, l.node, false).log[x])), key, value, m)
  {
    hide NodeCrc, ReadName, WfSector, Contents, Count, Calm, MarkDel, CutLeaves, Fresh, Seen;
    var f := MarkDel(db, l.sec, l.node, false).log[x];
    MarkStates(db, l, x);
    if f == db.flash[l.sec := MarkNode(db.flash[l.sec].(dirty := db.flash[l.sec].dirty), l.node, PreDelete)] {
      CutMarked(db, l, db.flash[l.sec].dirty, key, value, m);
    } else {
      CutMarked(db, l, True, key, value, m);
    }
  }

  lemma CutWhileWriting(db: Db, l: Loc, t: nat, d1: Db, key: Key, value: seq<byte>, m: Table, x: nat)
    requires Resting(db) && Holds(db.flash, m) && key in m
    requires At(db, l.sec, l.node) && Live(db.flash[l.sec].nodes[l.node])
    requires EntryOf(db.flash[l.sec].nodes[l.node]) == (key, m[key])
    requires Readable(key) && NodeSize(key, value) < 0x1_0000_0000
    requires Formatted(db, t) && SpareRoom(db, NodeSize(key, value), t)
    requires Steady(d1) && Formatted(d1, t) && SpareRoom(d1, NodeSize(key, value), t)
    requires d1.flash == db.flash[l.sec := MarkedSector(db.flash[l.sec], l.node, PreDelete)]
    requires var node := NewNode(Write, key, value);
      && node.Len() == NodeSize(key, value)
      && |d1.log| <= x < |CreateAt(d1, t, node).log|
    ensures var node := NewNode(Write, key, value);
      CutLeaves(Fresh(db.secSize, Seen(CreateAt(d1, t, node).log[x])), key, value, m)
  {
    hide NodeCrc, ReadName, WfSector, WfShape, Contents, WriteNode, CreateStages, NewNode, SpareRoom, Count, Calm,
         CutLeaves, Fresh, Seen, Opened, FillsUp, WfNode;
    var node := NewNode(Write, key, value);
    NewNodeIs(Write, key, value);
    OpensUsing(d1, node.Len(), t) by { SpareIsRoom(d1, node.Len(), t); }
    EmptyHasNone(d1, t);
    var opening, p := WriteStates(d1, t, node, x);
    StageWf(d1.flash[t], key, value, p);
    SteadyShapes(d1);
    SeenHeld(d1, t, p);
    CutAdded(db, l, t, p, node.Len(), key, value, m);
  }

  /** Every state of a replacement of a key that the log has. */
  lemma CutPresent(db: Db, t: nat, key: Key, value: seq<byte>, m: Table, x: nat)
    requires Resting(db) && Holds(db.flash, m)
    requires t < |db.flash| && NodeSize(key, value) < 0x1_0000_0000 && SpareRoom(db, NodeSize(key, value), t)
    requires Readable(key) && key in m && Formatted(db, t)
    requires var r := Replace(db, t, key, value);
      |db.log| <= x < |r.db.log|
    ensures CutLeaves(Fresh(db.secSize, Seen(Replace(db, t, key, value).db.log[x])), key, value, m)
  {
    hide NodeCrc, ReadName, WfSector, WfShape, Find, Contents, WriteNode, CreateStages, NewNode, SpareRoom, Count, Calm, MarkDel,
         CutLeaves, Fresh, Seen, Replace, Holds;
    ReplaceRuns(db, t, key, value, m);
    var l := Find(db, key).value;
    var node := NewNode(Write, key, value);
    NewNodeIs(Write, key, value);
    var d1 := MarkDel(db, l.sec, l.node, false);
    var d2 := CreateAt(d1, t, node);
    var d3 := MarkDel(d2, l.sec, l.node, true);
    WriteLogGrows(d1, t, node);
    MarkLogs(db, l, false);
    MarkLogs(d2, l, true);
    if x < |d1.log| {
      CutWhileMarking(db, l, key, value, m, x);
    } else if x < |d2.log| {
      CutWhileWriting(db, l, t, d1, key, value, m, x);
    } else {
      LastMark(d1, d2, l, t, node);
      SteadyShapes(d3);
      SeenSelf(d3);
      ReplacePresent(db, t, key, value, m);
      CutAtRest(d3, key, value, m);
    }
  }

  /** Every state of the creation of a key that the log does not have. */
  lemma CutAbsent(db: Db, t: nat, key: Key, value: seq<byte>, m: Table, x: nat)
    requires Resting(db) && Holds(db.flash, m)
    requires t < |db.flash| && NodeSize(key, value) < 0x1_0000_0000 && SpareRoom(db, NodeSize(key, value), t)
    requires Readable(key) && key !in m && Formatted(db, t)
    requires |db.log| <= x < |Replace(db, t, key, value).db.log|
    ensures CutLeaves(Fresh(db.secSize, Seen(Replace(db, t, key, value).db.log[x])), key, value, m)
  {
    hide NodeCrc, ReadName, WfSector, WfShape, Find, Contents, WriteNode, CreateStages, NewNode, SpareRoom, Count, Calm,
         CutLeaves, Fresh, Seen, Opened, FillsUp, WfNode, CreateChecked;
    SearchedAll(db);
    GetIsMapLookup(db, m, key);
    GetNone(db, key);
    var node := NewNode(Write, key, value);
    NewNodeIs(Write, key, value);
    CreateAdds(db, t, key, value);
    var d := Replace(db, t, key, value).db;
    OpensUsing(db, node.Len(), t) by { SpareIsRoom(db, node.Len(), t); }
    EmptyHasNone(db, t);
    var opening, p := WriteStates(db, t, node, x);
    StageWf(db.flash[t], key, value, p);
    SteadyShapes(db);
    SeenHeld(db, t, p);
    if IsHeadless(db.flash[t], p) || IsTorn(p) {
      CutAlone(db, t, p, node.Len(), key, value, m);
    } else {
      ReplaceAbsent(db, t, key, value, m);
      CutAtRest(d, key, value, m);
    }
  }

  /** The shape of every state of a `set` that runs no collection. */
  lemma CutShapes(db: Db, key: Key, value: seq<byte>, m: Table, x: nat)
    requires Resting(db) && Holds(db.flash, m)
    requires Readable(key) && NodeSize(key, value) < 0x1_0000_0000
    requires AllocKv(Begin(db), NodeSize(key, value)).sec.Some?
    requires x < |SetKv(db, key, value).db.log|
    ensures CutLeaves(Fresh(db.secSize, Seen(SetKv(db, key, value).db.log[x])), key, value, m)
  {
    hide NodeCrc, ReadName, WfSector, WfShape, Contents, SpareRoom, Count, Calm, CutLeaves, Fresh, Seen, Replace,
         AllocKv, Find, LogOldOrNew, Holds;
    var b := Begin(db);
    BeginRests(db);
    var size := NodeSize(key, value);
    AllocSpares(b, size);
    var t := AllocKv(b, size).sec.value;
    RoomIsFormatted(b, size, t) by { SpareIsRoom(b, size, t); }
    var r := Replace(b, t, key, value);
    if key in m {
      ReplacePresent(b, t, key, value, m);
    } else {
      ReplaceAbsent(b, t, key, value, m);
    }
    assert SetKv(db, key, value) == r;
    if x == 0 {
      SteadyShapes(db);
      SeenSelf(db);
      CutAtRest(db, key, value, m);
    } else if key in m {
      CutPresent(b, t, key, value, m, x);
    } else {
      CutAbsent(b, t, key, value, m, x);
    }
  }

  /** A power cut at any write of a `set` that runs no collection, followed by opening the database.
      Given room for one more copy of the old node, the key has its old or its new value and every other
      key its own, unless the scan meets the torn node before the old one: then the pass ends early and
      the key is missing. */
  lemma PowerCut(db: Db, key: Key, value: seq<byte>, m: Table, x: nat)
    requires Resting(db) && Holds(db.flash, m)
    requires Readable(key) && NodeSize(key, value) < 0x1_0000_0000
    requires AllocKv(Begin(db), NodeSize(key, value)).sec.Some?
    requires x < |SetKv(db, key, value).db.log|
    requires RoomToRecover(Fresh(db.secSize, Seen(SetKv(db, key, value).db.log[x])))
    ensures Recovers(db.secSize, Seen(SetKv(db, key, value).db.log[x]), key, value, m)
  {
    hide NodeCrc, WfSector, Contents, SpareRoom, Count, Calm, Recovers, RoomToRecover, Fresh, SetKv, AllocKv, Find, Holds, CutLeaves;
    CutShapes(db, key, value, m, x);
    LeavesRecovers(db.secSize, Seen(SetKv(db, key, value).db.log[x]), key, value, m);
  }

  /** In terms of lookups: after the cut, `key` reads as before or as set exactly when the torn node does
      not come first; all other keys always read as before. */
  lemma RecoversLookup(db: Db, f: seq<Sector>, key: Key, value: seq<byte>, m: Table, other: Key)
    requires Resting(db) && Holds(db.flash, m) && Recovers(db.secSize, f, key, value, m)
    ensures 0 < |f| && Load(db.secSize, f, 1).Some?
    ensures var d := Load(db.secSize, f, 1).value;
      && (Get(d, key) in {Get(db, key), Some(value)} <==> !TornFirst(Fresh(db.secSize, f)))
      && (other != key ==> Get(d, other) == Get(db, other))
  {
    hide NodeCrc, WfSector, WfShape, Contents, Count, Calm, Find, Get, Load, TornFirst, Holds, Fresh, AllSearched;
    SearchedAll(db);
    GetIsMapLookup(db, m, key);
    GetIsMapLookup(db, m, other);
    var d := Load(db.secSize, f, 1).value;
    var n := if TornFirst(Fresh(db.secSize, f)) then m - {key} else if Holds(d.flash, m) then m else m[key := value];
    GetIsMapLookup(d, n, key);
    GetIsMapLookup(d, n, other);
  }

  /** Where the torn node came first, opening once more gives every key the value it had before the `set`. */
  lemma SecondOpening(db: Db, f: seq<Sector>, key: Key, value: seq<byte>, m: Table, any: Key)
    requires Resting(db) && Holds(db.flash, m) && Recovers(db.secSize, f, key, value, m)
    requires TornFirst(Fresh(db.secSize, f))
    ensures 0 < |f| && Load(db.secSize, f, 1).Some?
    ensures var g := Load(db.secSize, f, 1).value.flash;
      0 < |g| && Load(db.secSize, g, 1).Some? && Get(Load(db.secSize, g, 1).value, any) == Get(db, any)
  {
    hide NodeCrc, WfSector, WfShape, Contents, Count, Calm, Find, Get, Load, TornFirst, Holds, Fresh, AllSearched;
    SearchedAll(db);
    GetIsMapLookup(db, m, any);
    GetIsMapLookup(Load(db.secSize, Load(db.secSize, f, 1).value.flash, 1).value, m, any);
  }
}
