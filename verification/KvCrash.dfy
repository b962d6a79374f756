/** Power cuts during `set`: what opening the database makes of every state that the writes of a
    `set` without a collection can leave behind. */
module KvCrash {
  import opened Bytes
  import opened Wrappers
  import opened Sectors
  import opened KvModel
  import opened KvContents
  import opened KvInvariant
  import opened KvGc
  import opened KvMap
  import opened KvLoad

  // ------------------------------------------------------------ the recovery scan

  /** Recovery passes over the node. */
  predicate Quiet(node: Node) {
    !IsPending(node) && !(node.Node? && node.st == PreWrite)
  }

  lemma {:induction false} RecoverNodesQuiet(db: Db, i: nat, j: nat, j2: nat)
    requires db.oldest < |db.flash| && Formatted(db, i) && j <= j2 <= |db.flash[i].nodes|
    requires forall y :: j <= y < j2 ==> Quiet(db.flash[i].nodes[y])
    ensures RecoverNodes(db, i, j) == RecoverNodes(db, i, j2)
    decreases j2 - j
  {
    hide IsPending, MoveKv;
    if j < j2 {
      assert RecoverNode(db, i, j) == Recovered(db, false);
      RecoverNodesQuiet(db, i, j + 1, j2);
    }
  }

  predicate ScanPos(db: Db, k: nat, j: nat) {
    && db.oldest < |db.flash|
    && k <= |db.flash|
    && (k < |db.flash| && Searched(db.flash[RingPos(db.oldest, k, |db.flash|)]) ==>
          j <= |db.flash[RingPos(db.oldest, k, |db.flash|)].nodes|)
  }

  /** The rest of a recovery pass from node `j` of the `k`-th sector of the ring on. */
  function Scan(db: Db, k: nat, j: nat): (r: Db)
    requires ScanPos(db, k, j)
  {
    hide RecoverNodes, RecoverPass;
    if k == |db.flash| then db
    else
      var i := RingPos(db.oldest, k, |db.flash|);
      if Searched(db.flash[i]) then
        var s := RecoverNodes(db, i, j);
        ExtendsLength(db.flash, s.db.flash);
        if s.stop then s.db else RecoverPass(s.db, k + 1)
      else RecoverPass(db, k + 1)
  }

  lemma PassIsScan(db: Db, k: nat)
    requires db.oldest < |db.flash| && k <= |db.flash|
    ensures ScanPos(db, k, 0) && RecoverPass(db, k) == Scan(db, k, 0)
  {
    hide RecoverNodes;
  }

  /** Scan positions in order. */
  predicate Earlier(k: nat, j: nat, k2: nat, j2: nat) {
    k < k2 || (k == k2 && j < j2)
  }

  /** Quiet nodes do not change anything: the scan may as well start behind them. */
  lemma {:induction false} ScanQuiet(db: Db, k: nat, j: nat, k2: nat, j2: nat)
    requires ScanPos(db, k, j) && ScanPos(db, k2, j2)
    requires Earlier(k, j, k2, j2) || (k == k2 && j == j2)
    requires k2 == |db.flash| || Searched(db.flash[RingPos(db.oldest, k2, |db.flash|)])
    requires forall x: nat, y: nat ::
      && !Earlier(x, y, k, j) && Earlier(x, y, k2, j2) && x < |db.flash|
      && Searched(db.flash[RingPos(db.oldest, x, |db.flash|)]) && y < |db.flash[RingPos(db.oldest, x, |db.flash|)].nodes|
      ==> Quiet(db.flash[RingPos(db.oldest, x, |db.flash|)].nodes[y])
    ensures Scan(db, k, j) == Scan(db, k2, j2)
    decreases k2 - k
  {
    hide RecoverNodes, Quiet, RecoverPass;
    if k == k2 {
      if k < |db.flash| {
        RecoverNodesQuiet(db, RingPos(db.oldest, k, |db.flash|), j, j2);
      }
    } else {
      var i := RingPos(db.oldest, k, |db.flash|);
      if Searched(db.flash[i]) {
        var n := |db.flash[i].nodes|;
        forall y | j <= y < n ensures Quiet(db.flash[i].nodes[y]) {
          assert !Earlier(k, y, k, j) && Earlier(k, y, k2, j2);
        }
        RecoverNodesQuiet(db, i, j, n);
        RecoverNodesEnd(db, i);
      }
      PassIsScan(db, k + 1);
      ScanQuiet(db, k + 1, 0, k2, j2);
    }
  }

  lemma RecoverNodesEnd(db: Db, i: nat)
    requires db.oldest < |db.flash| && Formatted(db, i)
    ensures RecoverNodes(db, i, |db.flash[i].nodes|) == Recovered(db, false)
  {}

  /** The scan handles the node at its position and goes on behind it, unless told to stop. */
  lemma ScanStep(db: Db, k: nat, j: nat)
    requires ScanPos(db, k, j) && k < |db.flash|
    requires var i := RingPos(db.oldest, k, |db.flash|); Searched(db.flash[i]) && j < |db.flash[i].nodes|
    ensures var i := RingPos(db.oldest, k, |db.flash|);
      var s := RecoverNode(db, i, j);
      && (s.stop ==> Scan(db, k, j) == s.db)
      && (!s.stop && Searched(s.db.flash[i]) ==> ScanPos(s.db, k, j + 1) && Scan(db, k, j) == Scan(s.db, k, j + 1))
  {
    hide RecoverNode, RecoverPass, Extends;
    var i := RingPos(db.oldest, k, |db.flash|);
    var s := RecoverNode(db, i, j);
    if !s.stop {
      RecoverNodeSettles(db, i, j);
      ExtendsLength(db.flash, s.db.flash);
    }
  }

  // ------------------------------------------------------------ states met when opening

  /** What a power cut in `set` leaves, as set up for recovery. In the sectors `loose` a deletion may
      have begun before the sector was marked dirty. */
  ghost predicate Opening(db: Db, loose: set<nat>) {
    && 2 <= |db.flash| && db.oldest < |db.flash|
    && db.recovering && !db.gcRequest
    && (forall x :: 0 <= x < |db.flash| ==> WfShape(db.flash[x], db.secSize) && Unvictimized(db.flash[x]))
    && (forall x :: 0 <= x < |db.flash| && x !in loose ==> WfSector(db.flash[x], db.secSize))
    && 0 < Count(db.flash, Empty)
  }

  ghost predicate QuietExcept(flash: seq<Sector>, bad: set<Loc>) {
    forall x: nat, y: nat :: x < |flash| && flash[x].Sector? && y < |flash[x].nodes| && Loc(x, y) !in bad
      ==> Quiet(flash[x].nodes[y])
  }

  /** Once nothing is left to recover, the database is at rest. */
  lemma OpenedRests(db: Db)
    requires Opening(db, {}) && QuietExcept(db.flash, {})
    ensures Resting(db.(recovering := false))
  {
    hide Intact, Count, Off;
    forall x | 0 <= x < |db.flash| ensures CalmSector(db.flash[x]) {
      assert WfShape(db.flash[x], db.secSize);
      forall y | 0 <= y < |db.flash[x].nodes| ensures !Pending(db.flash[x].nodes[y]) {
        assert Loc(x, y) !in {};
        assert Quiet(db.flash[x].nodes[y]) && WfNode(db.flash[x].nodes[y]);
      }
    }
  }

  lemma ShapeSearched(db: Db, loose: set<nat>)
    requires Opening(db, loose)
    ensures AllSearched(db.flash)
  {
    hide WfNode, Off, Count;
    forall i | 0 <= i < |db.flash| && db.flash[i].Sector? && !Searched(db.flash[i]) ensures db.flash[i].nodes == [] {
      assert WfShape(db.flash[i], db.secSize);
    }
  }

  lemma ShapeUsing(db: Db, loose: set<nat>, i: nat, j: nat)
    requires Opening(db, loose) && At(db, i, j)
    ensures Searched(db.flash[i]) && db.flash[i].store == Using && WfNode(db.flash[i].nodes[j])
  {
    hide WfNode, Off, Count;
    assert WfShape(db.flash[i], db.secSize);
  }

  /** Marking the pending node deleted makes its sector fully well formed. */
  lemma DropPending(db: Db, i: nat, j: nat)
    requires Opening(db, {i}) && At(db, i, j) && IsPending(db.flash[i].nodes[j])
    ensures var d := MarkDel(db, i, j, true);
      && Opening(d, {})
      && d.flash == db.flash[i := MarkedSector(db.flash[i], j, Deleted)]
      && Contents(d.flash, false) == Contents(db.flash, false)
  {
    hide NodeCrc, WfNode, Off, Contents;
    var node := db.flash[i].nodes[j];
    ShapeUsing(db, {i}, i, j);
    MarkDelTrades(db, i, j, true, false);
    StatusEntries(node, false);
    assert node.(st := PreDelete) == node;
    Cancel(Contents(MarkDel(db, i, j, true).flash, false), Contents(db.flash, false), multiset{});
    assert WfShape(db.flash[i], db.secSize) && Unvictimized(db.flash[i]);
    WfMark(db.flash[i], db.secSize, j, Deleted, True);
    CountUpdate(db.flash, i, MarkedSector(db.flash[i], j, Deleted), Empty, |db.flash|);
  }

  /** Copying the pending node to spare room makes its entry live again. */
  lemma CopyPending(db: Db, i: nat, j: nat, t: nat)
    requires Opening(db, {i}) && At(db, i, j) && IsPending(db.flash[i].nodes[j])
    requires t < |db.flash| && SpareRoom(db, db.flash[i].nodes[j].Len(), t)
    ensures var node := db.flash[i].nodes[j];
      && Formatted(db, t)
      && var d := CopyTo(db, t, node);
      && Opening(d, {i})
      && d.flash == db.flash[t := Hold(db.flash[t].(store := Using), node.(st := Write))]
      && Contents(d.flash, false) == Contents(db.flash, false) + multiset{EntryOf(node)}
      && At(d, i, j) && d.flash[i].nodes[j] == node
  {
    hide NodeCrc, Off, Contents, SpareRoom, HasRoom, Opened, FillsUp, CopyTo, CreateAt, Count, WfShape;
    ShapeUsing(db, {i}, i, j);
    var node := db.flash[i].nodes[j];
    var size := node.Len();
    SpareIsRoom(db, size, t);
    RoomIsFormatted(db, size, t);
    OpensUsing(db, size, t);
    StatusEntries(node, false);
    CopyAdds(db, t, node, false);
    assert WfShape(db.flash[t], db.secSize) && Unvictimized(db.flash[t]);
    CountHold(db, size, t, node.(st := Write));
    HoldUnvictimized(db.flash[t], node.(st := Write));
    RoomShape(db, size, t);
    HoldShape(db.flash[t], db.secSize, node.(st := Write));
  }

  lemma RoomShape(db: Db, size: nat, t: nat)
    requires t < |db.flash| && WfShape(db.flash[t], db.secSize)
    requires HasRoom(db, Using, size, t) || HasRoom(db, Empty, size, t)
    ensures SECTOR_HDR + Used(db.flash[t].nodes) + size + THRESHOLD < db.secSize
  {}

  /** There is spare room for one more copy of the node. */
  ghost predicate CanCopy(db: Db, i: nat, j: nat)
    requires At(db, i, j)
  {
    exists t: nat :: t < |db.flash| && SpareRoom(db, db.flash[i].nodes[j].Len(), t)
  }

  /** Nodes other than `gone` are where they were; new ones are quiet. */
  ghost predicate OnlySettles(f: seq<Sector>, g: seq<Sector>, gone: Loc) {
    && |g| == |f|
    && (forall x: nat, y: nat :: x < |f| && f[x].Sector? && y < |f[x].nodes| && Loc(x, y) != gone ==>
          g[x].Sector? && y < |g[x].nodes| && g[x].nodes[y] == f[x].nodes[y])
    && (forall x: nat, y: nat ::
          x < |g| && g[x].Sector? && y < |g[x].nodes| && (f[x].Raw? || |f[x].nodes| <= y || Loc(x, y) == gone) ==>
          Quiet(g[x].nodes[y]) && !g[x].nodes[y].Stray?)
  }

  lemma SettlesQuiet(f: seq<Sector>, g: seq<Sector>, gone: Loc, bad: set<Loc>)
    requires OnlySettles(f, g, gone) && QuietExcept(f, bad)
    ensures QuietExcept(g, bad - {gone})
  {
    hide Quiet;
    forall x: nat, y: nat | x < |g| && g[x].Sector? && y < |g[x].nodes| && Loc(x, y) !in bad - {gone}
      ensures Quiet(g[x].nodes[y])
    {
      if f[x].Sector? && y < |f[x].nodes| && Loc(x, y) != gone {
        assert g[x].nodes[y] == f[x].nodes[y];
      }
    }
  }

  lemma DropSettles(flash: seq<Sector>, i: nat, j: nat)
    requires i < |flash| && flash[i].Sector? && j < |flash[i].nodes| && flash[i].nodes[j].Node?
    ensures OnlySettles(flash, flash[i := MarkedSector(flash[i], j, Deleted)], Loc(i, j))
  {
    hide Intact;
  }

  lemma CopySettles(flash: seq<Sector>, i: nat, j: nat, t: nat, node: Node)
    requires i < |flash| && flash[i].Sector? && j < |flash[i].nodes| && flash[i].nodes[j].Node?
    requires t < |flash| && flash[t].Sector? && node.Node? && node.st == Write
    ensures var g := flash[t := Hold(flash[t].(store := Using), node)];
      && g[i].Sector? && j < |g[i].nodes| && g[i].nodes[j] == flash[i].nodes[j]
      && OnlySettles(flash, g[i := MarkedSector(g[i], j, Deleted)], Loc(i, j))
  {
    hide Intact;
  }

  /** Recovering the pending node when the log has no live entry of its name: the entry comes back. */
  lemma RestoreOld(db: Db, i: nat, j: nat)
    requires Opening(db, {i}) && At(db, i, j) && IsPending(db.flash[i].nodes[j]) && CanCopy(db, i, j)
    requires forall e :: e in Contents(db.flash, false) ==> e.0 != Name(db.flash[i].nodes[j])
    ensures var s := RecoverNode(db, i, j);
      && !s.stop && Opening(s.db, {})
      && OnlySettles(db.flash, s.db.flash, Loc(i, j))
      && Contents(s.db.flash, false) == Contents(db.flash, false) + multiset{EntryOf(db.flash[i].nodes[j])}
  {
    hide NodeCrc, ReadName, Contents, SpareRoom, CopyTo, CreateAt, MarkDel, WfShape, WfSector, Find, AllocKv, Count, Extends;
    var node := db.flash[i].nodes[j];
    AllocSpares(db, node.Len());
    var a := AllocKv(db, node.Len());
    var t := a.sec.value;
    ShapeSearched(db, {i});
    FindFinds(db, Name(node));
    GetNone(db, Name(node));
    CopyPending(db, i, j, t);
    var d := CopyTo(db, t, node);
    CopySettles(db.flash, i, j, t, node.(st := Write));
    DropPending(d, i, j);
    assert RecoverNode(db, i, j) == Recovered(MarkDel(d, i, j, true), false);
  }

  /** Recovering the pending node when a live entry has its name: the node is dropped. */
  lemma DropOld(db: Db, i: nat, j: nat, value: seq<byte>)
    requires Opening(db, {i}) && At(db, i, j) && IsPending(db.flash[i].nodes[j]) && CanCopy(db, i, j)
    requires (Name(db.flash[i].nodes[j]), value) in Contents(db.flash, false)
    ensures var s := RecoverNode(db, i, j);
      && !s.stop && Opening(s.db, {})
      && OnlySettles(db.flash, s.db.flash, Loc(i, j))
      && Contents(s.db.flash, false) == Contents(db.flash, false)
  {
    hide NodeCrc, ReadName, Contents, SpareRoom, CopyTo, CreateAt, MarkDel, WfShape, WfSector, Find, AllocKv, Count, Extends;
    var node := db.flash[i].nodes[j];
    AllocSpares(db, node.Len());
    ShapeSearched(db, {i});
    FindFinds(db, Name(node));
    DropPending(db, i, j);
    DropSettles(db.flash, i, j);
    assert RecoverNode(db, i, j) == Recovered(MarkDel(db, i, j, true), false);
  }

  /** A torn node is marked erroneous, and the pass ends. */
  lemma AbandonTorn(db: Db, loose: set<nat>, i: nat, j: nat)
    requires Opening(db, loose) && At(db, i, j)
    requires db.flash[i].nodes[j].Node? && db.flash[i].nodes[j].st == PreWrite
    ensures var s := RecoverNode(db, i, j);
      && s.stop && Opening(s.db, loose)
      && OnlySettles(db.flash, s.db.flash, Loc(i, j))
      && Contents(s.db.flash, false) == Contents(db.flash, false)
      && s.db.flash == db.flash[i := MarkNode(db.flash[i], j, ErrHdr)]
  {
    hide NodeCrc, Contents, Off;
    var node := db.flash[i].nodes[j];
    var sec := MarkNode(db.flash[i], j, ErrHdr);
    ShapeUsing(db, loose, i, j);
    assert WfShape(db.flash[i], db.secSize) && Unvictimized(db.flash[i]);
    OffUpdate(db.flash[i].nodes, j, node.(st := ErrHdr), |db.flash[i].nodes|);
    assert WfNode(node.(st := ErrHdr));
    CountUpdate(db.flash, i, sec, Empty, |db.flash|);
    MarkEntries(db.flash[i], j, ErrHdr, db.flash[i].dirty, false);
    assert db.flash[i].(dirty := db.flash[i].dirty) == db.flash[i];
    ContentsUpdate(db.flash, i, sec, false);
    Cancel(SectorEntries(sec, false), SectorEntries(db.flash[i], false), multiset{});
    Cancel(Contents(db.flash[i := sec], false), Contents(db.flash, false), SectorEntries(db.flash[i], false));
  }

  // ------------------------------------------------------------ what a pass does

  ghost function Rank(db: Db, l: Loc): (nat, nat)
    requires db.oldest < |db.flash| && l.sec < |db.flash|
  {
    (Steps(db.oldest, l.sec, |db.flash|), l.node)
  }

  /** The recovery pass meets `a` before `b`. */
  ghost predicate Precedes(db: Db, a: Loc, b: Loc)
    requires db.oldest < |db.flash| && a.sec < |db.flash| && b.sec < |db.flash|
  {
    Earlier(Rank(db, a).0, Rank(db, a).1, Rank(db, b).0, Rank(db, b).1)
  }

  /** From `(k, j)` on, the scan may start at `l` when everything not quiet is at `l` or later. */
  lemma ScanTo(db: Db, k: nat, j: nat, l: Loc, bad: set<Loc>)
    requires ScanPos(db, k, j) && At(db, l.sec, l.node) && Searched(db.flash[l.sec])
    requires QuietExcept(db.flash, bad)
    requires forall b :: b in bad ==> b.sec < |db.flash| && !Precedes(db, b, l)
    requires Earlier(k, j, Rank(db, l).0, l.node) || (k == Rank(db, l).0 && j == l.node)
    ensures ScanPos(db, Rank(db, l).0, l.node)
    ensures Scan(db, k, j) == Scan(db, Rank(db, l).0, l.node)
  {
    hide Scan, Quiet;
    var k2 := Rank(db, l).0;
    forall x: nat, y: nat |
      && !Earlier(x, y, k, j) && Earlier(x, y, k2, l.node) && x < |db.flash|
      && Searched(db.flash[RingPos(db.oldest, x, |db.flash|)]) && y < |db.flash[RingPos(db.oldest, x, |db.flash|)].nodes|
      ensures Quiet(db.flash[RingPos(db.oldest, x, |db.flash|)].nodes[y])
    {
      var b := Loc(RingPos(db.oldest, x, |db.flash|), y);
      assert Rank(db, b) == (x, y);
      assert Precedes(db, b, l);
      assert b !in bad;
    }
    ScanQuiet(db, k, j, k2, l.node);
  }

  lemma ScanToEnd(db: Db, k: nat, j: nat)
    requires ScanPos(db, k, j) && QuietExcept(db.flash, {}) && k < |db.flash|
    ensures Scan(db, k, j) == db
  {
    hide Quiet;
    forall x: nat, y: nat |
      && !Earlier(x, y, k, j) && Earlier(x, y, |db.flash|, 0) && x < |db.flash|
      && Searched(db.flash[RingPos(db.oldest, x, |db.flash|)]) && y < |db.flash[RingPos(db.oldest, x, |db.flash|)].nodes|
      ensures Quiet(db.flash[RingPos(db.oldest, x, |db.flash|)].nodes[y])
    {
      assert Loc(RingPos(db.oldest, x, |db.flash|), y) !in {};
    }
    ScanQuiet(db, k, j, |db.flash|, 0);
  }

  lemma AtSearched(db: Db, loose: set<nat>, l: Loc)
    requires Opening(db, loose) && At(db, l.sec, l.node)
    ensures Searched(db.flash[l.sec])
  {
    ShapeUsing(db, loose, l.sec, l.node);
  }

  lemma PassStart(db: Db, loose: set<nat>, l: Loc, bad: set<Loc>)
    requires Opening(db, loose) && At(db, l.sec, l.node) && QuietExcept(db.flash, bad)
    requires forall b :: b in bad ==> b.sec < |db.flash| && !Precedes(db, b, l)
    ensures Searched(db.flash[l.sec])
    ensures ScanPos(db, Rank(db, l).0, l.node)
    ensures RecoverPass(db, 0) == Scan(db, Rank(db, l).0, l.node)
  {
    hide Scan, Quiet, RecoverPass, WfShape, WfSector;
    AtSearched(db, loose, l);
    PassIsScan(db, 0);
    ScanTo(db, 0, 0, l, bad);
  }

  lemma PassQuiet(db: Db)
    requires Opening(db, {}) && QuietExcept(db.flash, {})
    ensures RecoverPass(db, 0) == db
  {
    hide Scan, Quiet, RecoverPass, WfShape, WfSector;
    PassIsScan(db, 0);
    ScanToEnd(db, 0, 0);
  }

  lemma PassTorn(db: Db, loose: set<nat>, l: Loc, bad: set<Loc>)
    requires Opening(db, loose) && At(db, l.sec, l.node) && QuietExcept(db.flash, bad)
    requires forall b :: b in bad ==> b.sec < |db.flash| && !Precedes(db, b, l)
    requires db.flash[l.sec].nodes[l.node].Node? && db.flash[l.sec].nodes[l.node].st == PreWrite
    ensures RecoverPass(db, 0) == RecoverNode(db, l.sec, l.node).db
  {
    hide Scan, Quiet, RecoverPass, WfShape, WfSector, RecoverNode;
    PassStart(db, loose, l, bad);
    AbandonTorn(db, loose, l.sec, l.node);
    ScanStep(db, Rank(db, l).0, l.node);
  }

  /** A pass over a log with one pending node, and perhaps a torn one behind it. */
  lemma PassPending(db: Db, l: Loc, d: Db)
    requires Opening(db, {l.sec}) && At(db, l.sec, l.node) && QuietExcept(db.flash, {l})
    requires RecoverNode(db, l.sec, l.node) == Recovered(d, false)
    requires Opening(d, {}) && OnlySettles(db.flash, d.flash, l)
    ensures RecoverPass(db, 0) == d && QuietExcept(d.flash, {})
  {
    hide Scan, Quiet, RecoverPass, WfShape, WfSector, RecoverNode;
    PassStart(db, {l.sec}, l, {l});
    StillSearched(db, d, l);
    ScanStep(db, Rank(db, l).0, l.node);
    SettlesQuiet(db.flash, d.flash, l, {l});
    assert {l} - {l} == {};
    ScanToEnd(d, Rank(db, l).0, l.node + 1);
  }

  lemma StillSearched(db: Db, d: Db, l: Loc)
    requires Opening(db, {l.sec}) && At(db, l.sec, l.node) && Opening(d, {})
    requires RecoverNode(db, l.sec, l.node) == Recovered(d, false)
    ensures At(d, l.sec, l.node) && Searched(d.flash[l.sec])
  {
    hide WfShape, WfSector, RecoverNode;
    AtExtends(db, d, l.sec, l.node);
    ShapeUsing(d, {}, l.sec, l.node);
  }

  lemma PassPendingThenTorn(db: Db, l: Loc, b: Loc, d: Db)
    requires Opening(db, {l.sec}) && At(db, l.sec, l.node) && At(db, b.sec, b.node) && QuietExcept(db.flash, {l, b})
    requires Precedes(db, l, b)
    requires RecoverNode(db, l.sec, l.node) == Recovered(d, false)
    requires Opening(d, {}) && OnlySettles(db.flash, d.flash, l)
    requires db.flash[b.sec].nodes[b.node].Node? && db.flash[b.sec].nodes[b.node].st == PreWrite
    ensures At(d, b.sec, b.node) && d.flash[b.sec].nodes[b.node] == db.flash[b.sec].nodes[b.node]
    ensures RecoverPass(db, 0) == RecoverNode(d, b.sec, b.node).db
    ensures QuietExcept(d.flash, {b})
  {
    hide Scan, Quiet, RecoverPass, WfShape, WfSector, RecoverNode, QuietExcept, OnlySettles, Opening;
    TornStays(db, l, b, d);
    PassStart(db, {l.sec}, l, {l, b});
    StillSearched(db, d, l);
    ScanStep(db, Rank(db, l).0, l.node);
    AtSearched(d, {}, b);
    ScanTo(d, Rank(db, l).0, l.node + 1, b, {b});
    ScanTorn(d, b);
  }

  lemma TornStays(db: Db, l: Loc, b: Loc, d: Db)
    requires At(db, b.sec, b.node) && QuietExcept(db.flash, {l, b}) && OnlySettles(db.flash, d.flash, l) && l != b
    ensures At(d, b.sec, b.node) && d.flash[b.sec].nodes[b.node] == db.flash[b.sec].nodes[b.node]
    ensures QuietExcept(d.flash, {b}) && |d.flash| == |db.flash|
  {
    hide Quiet;
    SettlesQuiet(db.flash, d.flash, l, {l, b});
    assert {l, b} - {l} == {b};
  }

  /** A pass that has come to a torn node ends there. */
  lemma ScanTorn(d: Db, b: Loc)
    requires Opening(d, {}) && At(d, b.sec, b.node) && ScanPos(d, Rank(d, b).0, b.node)
    requires d.flash[b.sec].nodes[b.node].Node? && d.flash[b.sec].nodes[b.node].st == PreWrite
    ensures Scan(d, Rank(d, b).0, b.node) == RecoverNode(d, b.sec, b.node).db
  {
    hide Scan, Quiet, WfShape, WfSector, RecoverNode;
    AtSearched(d, {}, b);
    AbandonTorn(d, {}, b.sec, b.node);
    ScanStep(d, Rank(d, b).0, b.node);
  }

  // ------------------------------------------------------------ opening after a cut

  lemma {:induction false} CheckNothing(db: Db, k: nat, failed: nat)
    requires db.oldest < |db.flash| && k <= |db.flash| && forall x :: 0 <= x < |db.flash| ==> db.flash[x].Sector?
    ensures CheckHeaders(db, k, failed) == Checked(db, failed)
    decreases |db.flash| - k
  {
    if k < |db.flash| {
      CheckNothing(db, k + 1, failed);
    }
  }

  lemma {:induction false} ResumeNothing(db: Db, start: nat, k: nat)
    requires db.oldest < |db.flash| && start < |db.flash| && k <= |db.flash|
    requires forall x :: 0 <= x < |db.flash| ==> Unvictimized(db.flash[x])
    ensures Resume(db, start, k) == db
    decreases |db.flash| - k
  {
    hide GcCollect;
    if k < |db.flash| {
      ResumeNothing(db, start, k + 1);
    }
  }

  /** With every header in place and no collection under way, opening is one recovery pass. */
  lemma LoadIsPass(secSize: nat, flash: seq<Sector>, loose: set<nat>, d: Db)
    requires 0 < |flash| && Opening(Fresh(secSize, flash), loose)
    requires RecoverPass(Fresh(secSize, flash), 0) == d && !d.gcRequest
    ensures Load(secSize, flash, 1) == Some(d.(recovering := false))
  {
    hide RecoverPass, WfSector, Count, Off, WfNode;
    var e := Fresh(secSize, flash);
    forall x | 0 <= x < |flash| ensures flash[x].Sector? {
      assert WfShape(e.flash[x], e.secSize);
    }
    CheckNothing(e, 0, 0);
    ResumeNothing(e, e.oldest, 0);
    assert Prepare(secSize, flash) == e;
  }

  /** The database opened, at rest and holding `m`. */
  ghost predicate Opens(d: Option<Db>, m: Table) {
    && d.Some?
    && Holds(d.value.flash, m)
    && AllSearched(d.value.flash)
    && Resting(d.value)
  }

  lemma OpenedHolds(e: Db, m: Table)
    requires Opening(e, {}) && QuietExcept(e.flash, {}) && Holds(e.flash, m)
    ensures Opens(Some(e.(recovering := false)), m)
  {
    hide Contents, WfShape, WfSector;
    ShapeSearched(e, {});
    OpenedRests(e);
  }

  lemma OpenQuiet(secSize: nat, f: seq<Sector>, m: Table)
    requires 0 < |f| && Opening(Fresh(secSize, f), {}) && QuietExcept(f, {}) && Holds(f, m)
    ensures Opens(Load(secSize, f, 1), m) && Load(secSize, f, 1).value.flash == f
  {
    hide Contents, Quiet, WfShape, WfSector, Opens, RecoverPass, Load, Fresh;
    FreshIs(secSize, f);
    var e := Fresh(secSize, f);
    PassQuiet(e);
    LoadIsPass(secSize, f, {}, e);
    OpenedHolds(e, m);
  }

  lemma FreshIs(secSize: nat, f: seq<Sector>)
    ensures Fresh(secSize, f) == Db(secSize, f, FindOldest(f), false, true, [f])
  {}

  lemma AloneInMap(ms: multiset<Entry>, m: Table, key: Key)
    requires key in m && ms + multiset{(key, m[key])} == multiset(Entries(m))
    ensures forall e :: e in ms ==> e.0 != key
    ensures ms == multiset(Entries(m - {key}))
  {
    forall e | e in ms ensures e.0 != key {
      assert (ms + multiset{(key, m[key])})[e] == multiset(Entries(m))[e];
      EntryIs(m, e);
      assert multiset(Entries(m))[e] <= 1;
    }
    EntriesRemoved(m, key);
    Cancel(ms, multiset(Entries(m - {key})), multiset{(key, m[key])});
  }

  /** What an interrupted replacement of `key` looks like while the new node is not complete. */
  ghost predicate OldAside(db: Db, l: Loc, key: Key, m: Table) {
    && key in m
    && Opening(db, {l.sec}) && At(db, l.sec, l.node)
    && IsPending(db.flash[l.sec].nodes[l.node])
    && EntryOf(db.flash[l.sec].nodes[l.node]) == (key, m[key])
    && Contents(db.flash, false) + multiset{(key, m[key])} == multiset(Entries(m))
  }

  /** And there is room for a copy of the old one. */
  ghost predicate OldPending(db: Db, l: Loc, key: Key, m: Table) {
    OldAside(db, l, key, m) && CanCopy(db, l.sec, l.node)
  }

  lemma RestoredHolds(db: Db, l: Loc, key: Key, m: Table)
    requires OldPending(db, l, key, m)
    ensures var s := RecoverNode(db, l.sec, l.node);
      && !s.stop && Opening(s.db, {})
      && OnlySettles(db.flash, s.db.flash, l)
      && Holds(s.db.flash, m)
  {
    hide Contents, WfShape, WfSector, RecoverNode, Intact, Name, KvModel.Value, OnlySettles;
    AloneInMap(Contents(db.flash, false), m, key);
    RestoreOld(db, l.sec, l.node);
  }

  /** Cut before the new node has a header: the old value comes back. */
  lemma OpenPending(secSize: nat, f: seq<Sector>, l: Loc, key: Key, m: Table)
    requires 0 < |f| && OldPending(Fresh(secSize, f), l, key, m) && QuietExcept(f, {l})
    ensures Opens(Load(secSize, f, 1), m)
  {
    hide Contents, Quiet, WfShape, WfSector, Opens, RecoverPass, Load, RecoverNode, IsPending, Fresh;
    FreshIs(secSize, f);
    var e := Fresh(secSize, f);
    RestoredHolds(e, l, key, m);
    var d := RecoverNode(e, l.sec, l.node).db;
    PassPending(e, l, d);
    LoadIsPass(secSize, f, {l.sec}, d);
    OpenedHolds(d, m);
  }

  /** Cut after the new node is complete but before the old one is deleted: the new value is kept. */
  lemma OpenReplaced(secSize: nat, f: seq<Sector>, l: Loc, key: Key, value: seq<byte>, m: Table)
    requires 0 < |f| && Opening(Fresh(secSize, f), {l.sec}) && At(Fresh(secSize, f), l.sec, l.node) && QuietExcept(f, {l})
    requires IsPending(f[l.sec].nodes[l.node]) && Name(f[l.sec].nodes[l.node]) == key
    requires CanCopy(Fresh(secSize, f), l.sec, l.node)
    requires Holds(f, m) && key in m
    ensures Opens(Load(secSize, f, 1), m)
  {
    hide Contents, Quiet, WfShape, WfSector, Opens, RecoverPass, Load, RecoverNode, Fresh, Intact;
    FreshIs(secSize, f);
    var e := Fresh(secSize, f);
    EntryIs(m, (key, m[key]));
    DropOld(e, l.sec, l.node, m[key]);
    var d := RecoverNode(e, l.sec, l.node).db;
    PassPending(e, l, d);
    LoadIsPass(secSize, f, {l.sec}, d);
    OpenedHolds(d, m);
  }

  /** A torn node and nothing else: it is abandoned. */
  lemma OpenTorn(secSize: nat, f: seq<Sector>, b: Loc, m: Table)
    requires 0 < |f| && Opening(Fresh(secSize, f), {}) && At(Fresh(secSize, f), b.sec, b.node) && QuietExcept(f, {b})
    requires f[b.sec].nodes[b.node].Node? && f[b.sec].nodes[b.node].st == PreWrite
    requires Holds(f, m)
    ensures Opens(Load(secSize, f, 1), m)
  {
    hide Contents, Quiet, WfShape, WfSector, Opens, RecoverPass, Load, RecoverNode, Fresh, Intact;
    FreshIs(secSize, f);
    var e := Fresh(secSize, f);
    PassTorn(e, {}, b, {b});
    AbandonTorn(e, {}, b.sec, b.node);
    var d := RecoverNode(e, b.sec, b.node).db;
    LoadIsPass(secSize, f, {}, d);
    SettlesQuiet(f, d.flash, b, {b});
    assert {b} - {b} == {};
    OpenedHolds(d, m);
  }

  /** Cut while the new node is torn, the old one before it in the scan: the old value comes back. */
  lemma OpenPendingThenTorn(secSize: nat, f: seq<Sector>, l: Loc, b: Loc, key: Key, m: Table)
    requires 0 < |f| && OldPending(Fresh(secSize, f), l, key, m) && QuietExcept(f, {l, b})
    requires At(Fresh(secSize, f), b.sec, b.node)
    requires f[b.sec].nodes[b.node].Node? && f[b.sec].nodes[b.node].st == PreWrite
    requires Precedes(Fresh(secSize, f), l, b)
    ensures Opens(Load(secSize, f, 1), m)
  {
    hide Contents, Quiet, WfShape, WfSector, Opens, RecoverPass, Load, RecoverNode, IsPending, Fresh;
    FreshIs(secSize, f);
    var e := Fresh(secSize, f);
    RestoredHolds(e, l, key, m);
    var d1 := RecoverNode(e, l.sec, l.node).db;
    PassPendingThenTorn(e, l, b, d1);
    AbandonTorn(d1, {}, b.sec, b.node);
    var d := RecoverNode(d1, b.sec, b.node).db;
    LoadIsPass(secSize, f, {l.sec}, d);
    SettlesQuiet(d1.flash, d.flash, b, {b});
    assert {b} - {b} == {};
    OpenedHolds(d, m);
  }

  /** Marking a node erroneous takes no room. */
  lemma TornSpares(secSize: nat, f: seq<Sector>, i: nat, j: nat, size: nat, t: nat)
    requires i < |f| && f[i].Sector? && j < |f[i].nodes| && f[i].nodes[j].Node?
    requires t < |f| && SpareRoom(Fresh(secSize, f), size, t)
    ensures var g := f[i := MarkNode(f[i], j, ErrHdr)]; SpareRoom(Fresh(secSize, g), size, t)
  {
    hide FindOldest;
    OffUpdate(f[i].nodes, j, f[i].nodes[j].(st := ErrHdr), |f[i].nodes|);
    CountUpdate(f, i, MarkNode(f[i], j, ErrHdr), Empty, |f|);
  }

  lemma OpeningAgain(db: Db, loose: set<nat>)
    requires Opening(db, loose) && 0 < |db.flash|
    ensures Opening(Fresh(db.secSize, db.flash), loose)
  {
    hide WfShape, WfSector, Count;
  }

  /** With the torn node abandoned the deletion of the old one is still pending. */
  lemma TornLeavesPending(secSize: nat, f: seq<Sector>, l: Loc, b: Loc, key: Key, m: Table)
    requires 0 < |f| && OldAside(Fresh(secSize, f), l, key, m) && QuietExcept(f, {l, b}) && b != l
    requires At(Fresh(secSize, f), b.sec, b.node)
    requires f[b.sec].nodes[b.node].Node? && f[b.sec].nodes[b.node].st == PreWrite
    ensures var g := RecoverNode(Fresh(secSize, f), b.sec, b.node).db.flash;
      && |g| == |f| && OldAside(Fresh(secSize, g), l, key, m) && QuietExcept(g, {l})
      && (CanCopy(Fresh(secSize, f), l.sec, l.node) ==> CanCopy(Fresh(secSize, g), l.sec, l.node))
      && (IsDirty(f[l.sec]) ==> IsDirty(g[l.sec]))
  {
    hide Contents, Quiet, WfShape, WfSector, RecoverNode, IsPending, Fresh, SpareRoom, MarkNode, Count;
    FreshIs(secSize, f);
    var e := Fresh(secSize, f);
    AbandonTorn(e, {l.sec}, b.sec, b.node);
    var d := RecoverNode(e, b.sec, b.node).db;
    FreshIs(secSize, d.flash);
    AbandonKeeps(e, b.sec, b.node);
    OpeningAgain(d, {l.sec});
    SettlesQuiet(f, d.flash, b, {l, b});
    assert {l, b} - {b} == {l};
    assert d.flash[l.sec].nodes[l.node] == f[l.sec].nodes[l.node];
    if CanCopy(e, l.sec, l.node) {
      var t: nat :| t < |f| && SpareRoom(e, f[l.sec].nodes[l.node].Len(), t);
      TornSpares(secSize, f, b.sec, b.node, f[l.sec].nodes[l.node].Len(), t);
    }
    SameDirt(f[b.sec], b.node);
  }

  lemma SameDirt(sec: Sector, j: nat)
    requires sec.Sector? && j < |sec.nodes| && sec.nodes[j].Node?
    ensures IsDirty(MarkNode(sec, j, ErrHdr)) == IsDirty(sec)
  {}

  lemma AbandonKeeps(e: Db, i: nat, j: nat)
    requires e.oldest < |e.flash| && At(e, i, j) && e.flash[i].nodes[j].Node? && e.flash[i].nodes[j].st == PreWrite
    ensures RecoverNode(e, i, j).db.secSize == e.secSize
  {
    hide Intact;
  }

  /** The log can be opened, with no collection under way, and then holds `m` at rest. */
  ghost predicate Reopens(secSize: nat, flash: seq<Sector>, m: Table) {
    && 0 < |flash|
    && (forall x :: 0 <= x < |flash| ==> Unvictimized(flash[x]))
    && Opens(Load(secSize, flash, 1), m)
  }

  /** Cut while the new node is torn, the torn node first in the scan: the pass ends before it reaches
      the old one, and the key is gone. All other keys are there. Opening once more brings the key back. */
  lemma OpenTornFirst(secSize: nat, f: seq<Sector>, l: Loc, b: Loc, key: Key, m: Table)
    requires 0 < |f| && OldAside(Fresh(secSize, f), l, key, m) && QuietExcept(f, {l, b})
    requires At(Fresh(secSize, f), b.sec, b.node)
    requires f[b.sec].nodes[b.node].Node? && f[b.sec].nodes[b.node].st == PreWrite
    requires Precedes(Fresh(secSize, f), b, l)
    ensures var d := Load(secSize, f, 1);
      && d.Some? && Holds(d.value.flash, m - {key}) && AllSearched(d.value.flash)
      && d.value.flash == RecoverNode(Fresh(secSize, f), b.sec, b.node).db.flash
      && (CanCopy(Fresh(secSize, f), l.sec, l.node) ==> Reopens(secSize, d.value.flash, m))
  {
    hide Contents, Quiet, WfShape, WfSector, Opens, RecoverPass, Load, RecoverNode, IsPending, Fresh;
    FreshIs(secSize, f);
    var e := Fresh(secSize, f);
    AloneInMap(Contents(f, false), m, key);
    PassTorn(e, {l.sec}, b, {l, b});
    AbandonTorn(e, {l.sec}, b.sec, b.node);
    LoadIsPass(secSize, f, {l.sec}, RecoverNode(e, b.sec, b.node).db);
    ShapeSearched(RecoverNode(e, b.sec, b.node).db, {l.sec});
    TornLeavesPending(secSize, f, l, b, key, m);
    if CanCopy(e, l.sec, l.node) {
      OpenPending(secSize, RecoverNode(e, b.sec, b.node).db.flash, l, key, m);
    }
  }
}
