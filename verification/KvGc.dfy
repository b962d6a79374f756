/** Garbage collection keeps every live entry: whatever a victim sector holds always finds room
    elsewhere, so erasing the victim is safe although the engine ignores failed moves. */
module KvGc {
  import opened Bytes
  import opened Wrappers
  import opened Sectors
  import opened KvModel
  import opened KvContents
  import opened KvInvariant

  /** Half written or half deleted. */
  predicate Pending(node: Node) {
    node.Node? && (node.st == PreDelete || node.st == PreWrite)
  }

  predicate CalmSector(sec: Sector) {
    sec.Sector? ==> forall j :: 0 <= j < |sec.nodes| ==> !Pending(sec.nodes[j])
  }

  /** Nothing is half done. */
  predicate Calm(flash: seq<Sector>) {
    forall i :: 0 <= i < |flash| ==> CalmSector(flash[i])
  }

  lemma CalmNode(node: Node)
    requires !Pending(node)
    ensures NodeEntries(node, true) == NodeEntries(node, false)
  {}

  lemma {:induction false} CalmEntries(nodes: seq<Node>, j: nat)
    requires j <= |nodes| && forall x :: 0 <= x < |nodes| ==> !Pending(nodes[x])
    ensures EntriesTo(nodes, j, true) == EntriesTo(nodes, j, false)
  {
    hide NodeEntries, Pending;
    if j > 0 {
      CalmEntries(nodes, j - 1);
      CalmNode(nodes[j - 1]);
    }
  }

  lemma {:induction false} CalmFlash(flash: seq<Sector>, i: nat)
    requires i <= |flash| && Calm(flash)
    ensures FlashTo(flash, i, true) == FlashTo(flash, i, false)
  {
    if i > 0 {
      CalmFlash(flash, i - 1);
      assert CalmSector(flash[i - 1]);
      if flash[i - 1].Sector? {
        CalmEntries(flash[i - 1].nodes, |flash[i - 1].nodes|);
      }
    }
  }

  /** The entries that recovery can reach. */
  ghost function Kept(flash: seq<Sector>): set<Entry> {
    set e | e in Contents(flash, true)
  }

  /** Every state logged from entry `base` on keeps exactly the entries `s`. */
  ghost predicate LogKeeps(db: Db, base: nat, s: set<Entry>) {
    forall x :: base <= x < |db.log| ==> Kept(db.log[x]) == s
  }

  // ------------------------------------------------------------ writing a node

  /** Stages of a node being written: none counts before the last, which is the node itself. */
  predicate WriteStages(stages: seq<Node>, node: Node) {
    && |stages| > 0
    && node.Node?
    && stages[|stages| - 1] == node.(st := Write)
    && forall x :: 0 <= x < |stages| - 1 ==> !Counts(stages[x], true)
  }

  lemma Torn(node: Node, h: nat)
    requires node.Node? && h <= |node.data|
    ensures !Counts(Partial(node, h), true) && !Counts(Blank, true) && !Counts(Stray, true)
  {
    hide NodeCrc;
  }

  lemma {:induction false} ChunksAreTorn(node: Node, len: nat)
    requires node.Node? && (len == 0 || 20 <= len)
    ensures forall x :: 0 <= x < |ChunkStages(node, len)| ==> !Counts(ChunkStages(node, len)[x], true)
    decreases 20 + |node.data| - len
  {
    hide Counts, Partial;
    if len < 20 + |node.data| {
      var size := if 20 + |node.data| - len < 32 then 20 + |node.data| - len else 32;
      Torn(node, len + size - 20);
      ChunksAreTorn(node, len + size);
    }
  }

  lemma CopyIsWrite(sec: Sector, node: Node)
    requires sec.Sector? && node.Node?
    ensures WriteStages(CopyStages(sec, node), node)
  {
    hide Counts;
    Torn(node, 0);
    ChunksAreTorn(node, 0);
  }

  lemma CreateIsWrite(sec: Sector, node: Node)
    requires sec.Sector? && node.Node? && node.nameLen <= |node.data|
    ensures WriteStages(CreateStages(sec, node), node)
  {
    hide Counts, Partial;
    Torn(node, 0);
    Torn(node, node.nameLen);
    Torn(node, |node.data|);
  }

  lemma ContentsUpdate(flash: seq<Sector>, i: nat, sec: Sector, pd: bool)
    requires i < |flash|
    ensures Contents(flash[i := sec], pd) + SectorEntries(flash[i], pd) == Contents(flash, pd) + SectorEntries(sec, pd)
    ensures SectorEntries(flash[i], pd) <= Contents(flash, pd)
  {
    FlashUpdate(flash, i, sec, |flash|, pd);
    FlashUpdate(flash, i, Raw, |flash|, pd);
    assert SectorEntries(Raw, pd) == multiset{};
    hide FlashTo, SectorEntries;
    assert Contents(flash, pd) == Contents(flash[i := Raw], pd) + SectorEntries(flash[i], pd);
  }

  lemma Cancel(a: multiset<Entry>, b: multiset<Entry>, c: multiset<Entry>)
    requires a + c == b + c
    ensures a == b
  {
    assert forall e :: a[e] + c[e] == (a + c)[e];
    assert forall e :: b[e] + c[e] == (b + c)[e];
  }

  lemma Trade(d: multiset<Entry>, c: multiset<Entry>, s: multiset<Entry>, t: multiset<Entry>,
              n: multiset<Entry>, p: multiset<Entry>)
    requires d + s == c + t && t + n == s + p
    ensures d + n == c + p
  {
    assert (d + s) + n == (d + n) + s;
    assert (c + t) + n == c + (t + n) == c + (s + p) == (c + p) + s;
    Cancel(d + n, c + p, s);
  }

  /** From `db` to `d` the node has been written to sector `i`, and its entry came with the very last write. */
  ghost predicate AddsNode(db: Db, d: Db, i: nat, node: Node, pd: bool)
    requires Formatted(db, i) && node.Node?
  {
    && d.flash == db.flash[i := Hold(OpenedSector(db, i, node.Len()), node.(st := Write))]
    && Contents(d.flash, pd) == Contents(db.flash, pd) + NodeEntries(node.(st := Write), pd)
    && |db.log| < |d.log|
    && d.log[|d.log| - 1] == d.flash
    && (forall x :: 0 <= x < |db.log| ==> d.log[x] == db.log[x])
    && (forall x :: |db.log| <= x < |d.log| - 1 ==> Contents(d.log[x], pd) == Contents(db.flash, pd))
  }

  lemma WriteNodeAdds(db: Db, i: nat, stages: seq<Node>, node: Node, pd: bool)
    requires Formatted(db, i) && WriteStages(stages, node)
    ensures AddsNode(db, WriteNode(db, i, node.Len(), stages), i, node, pd)
  {
    hide Contents, Opened, NodeEntries, SectorEntries;
    var size := node.Len();
    var sec := OpenedSector(db, i, size);
    var steps := OpenSteps(db, i, size) + HoldAll(sec, stages);
    var d := WriteNode(db, i, size, stages);
    assert steps[|steps| - 1] == Hold(sec, node.(st := Write));
    HoldEntries(db.flash[i], sec.store, node.(st := Write), pd);
    ContentsUpdate(db.flash, i, steps[|steps| - 1], pd);
    var c, s, n := Contents(db.flash, pd), SectorEntries(db.flash[i], pd), NodeEntries(node.(st := Write), pd);
    assert c + (s + n) == (c + n) + s;
    Cancel(Contents(d.flash, pd), c + n, s);
    forall x | |db.log| <= x < |d.log| - 1 ensures Contents(d.log[x], pd) == Contents(db.flash, pd) {
      var step := steps[x - |db.log|];
      ContentsUpdate(db.flash, i, step, pd);
      HoldEntries(db.flash[i], sec.store, node, pd);
      var k := x - |db.log| - |OpenSteps(db, i, size)|;
      if k >= 0 {
        assert step == Hold(sec, stages[k]);
        HoldEntries(db.flash[i], sec.store, stages[k], pd);
        NoEntry(stages[k], pd);
        assert s + multiset{} == s;
      }
      Cancel(Contents(d.log[x], pd), c, s);
    }
  }

  lemma CopyAdds(db: Db, i: nat, node: Node, pd: bool)
    requires Formatted(db, i) && node.Node?
    ensures AddsNode(db, CopyTo(db, i, node), i, node, pd)
  {
    hide AddsNode, WriteNode, CopyStages;
    CopyIsWrite(db.flash[i], node);
    WriteNodeAdds(db, i, CopyStages(db.flash[i], node), node, pd);
  }

  lemma CreateAtAdds(db: Db, i: nat, node: Node, pd: bool)
    requires Formatted(db, i) && node.Node? && node.nameLen <= |node.data|
    ensures AddsNode(db, CreateAt(db, i, node), i, node, pd)
  {
    hide AddsNode, WriteNode, CreateStages;
    CreateIsWrite(db.flash[i], node);
    WriteNodeAdds(db, i, CreateStages(db.flash[i], node), node, pd);
  }

  lemma NoEntry(node: Node, pd: bool)
    requires !Counts(node, true)
    ensures NodeEntries(node, pd) == multiset{}
  {}

  // ------------------------------------------------------------ marking a node

  lemma MarkDelTrades(db: Db, i: nat, j: nat, complete: bool, pd: bool)
    requires At(db, i, j) && db.flash[i].nodes[j].Node?
    ensures var d := MarkDel(db, i, j, complete);
      var st := if complete then Deleted else PreDelete;
      && d.flash == db.flash[i := MarkedSector(db.flash[i], j, st)]
      && Contents(d.flash, pd) + NodeEntries(db.flash[i].nodes[j], pd)
         == Contents(db.flash, pd) + NodeEntries(db.flash[i].nodes[j].(st := st), pd)
      && |db.log| < |d.log|
      && (forall x :: 0 <= x < |db.log| ==> d.log[x] == db.log[x])
      && (forall x :: |db.log| <= x < |d.log| ==> Contents(d.log[x], pd) == Contents(d.flash, pd))
  {
    hide Contents, NodeEntries, SectorEntries;
    var st := if complete then Deleted else PreDelete;
    var sec := db.flash[i];
    var d := MarkDel(db, i, j, complete);
    var marked := MarkedSector(sec, j, st);
    MarkEntries(sec, j, st, marked.dirty, pd);
    ContentsUpdate(db.flash, i, marked, pd);
    var steps := MarkSteps(sec, j, st);
    assert steps[|steps| - 1] == marked;
    MarkEntries(sec, j, st, sec.dirty, pd);
    assert steps[0] == MarkNode(sec.(dirty := sec.dirty), j, st);
    ContentsUpdate(db.flash, i, steps[0], pd);
    var c, s := Contents(db.flash, pd), SectorEntries(sec, pd);
    var n, p := NodeEntries(sec.nodes[j], pd), NodeEntries(sec.nodes[j].(st := st), pd);
    Trade(Contents(d.flash, pd), c, s, SectorEntries(marked, pd), n, p);
    Trade(Contents(db.flash[i := steps[0]], pd), c, s, SectorEntries(steps[0], pd), n, p);
    Cancel(Contents(d.flash, pd), Contents(db.flash[i := steps[0]], pd), n);
  }

  function EntryOf(node: Node): Entry
    requires Intact(node)
  {
    (Name(node), Value(node))
  }

  lemma StatusEntries(node: Node, pd: bool)
    requires Intact(node)
    ensures NodeEntries(node.(st := Write), pd) == multiset{EntryOf(node)}
    ensures NodeEntries(node.(st := PreDelete), pd) == if pd then multiset{EntryOf(node)} else multiset{}
    ensures NodeEntries(node.(st := Deleted), pd) == multiset{}
  {
    hide NodeCrc, ReadName;
  }

  // ------------------------------------------------------------ collecting one victim

  predicate Unvictimized(sec: Sector) {
    sec.Sector? ==> sec.dirty != Gc
  }

  /** No collection has begun. */
  predicate NoneBegun(flash: seq<Sector>) {
    forall x :: 0 <= x < |flash| ==> Unvictimized(flash[x])
  }

  /** Something in the sector has been deleted, or a collection of it has begun. */
  predicate IsDirty(sec: Sector) {
    sec.Sector? && (sec.dirty == True || sec.dirty == Gc)
  }

  /** The bytes of the nodes from `j` on that a collection has to move. */
  function CarrierBytes(nodes: seq<Node>, j: nat): nat
    requires j <= |nodes|
    decreases |nodes| - j
  {
    if j == |nodes| then 0 else (if Carrier(nodes[j]) then nodes[j].Len() else 0) + CarrierBytes(nodes, j + 1)
  }

  lemma {:induction false} CarriersBehind(nodes: seq<Node>, x: nat, node: Node, j: nat)
    requires x < j <= |nodes|
    ensures CarrierBytes(nodes[x := node], j) == CarrierBytes(nodes, j)
    decreases |nodes| - j
  {
    hide Carrier;
    if j < |nodes| {
      CarriersBehind(nodes, x, node, j + 1);
    }
  }

  lemma CarriersEnd(nodes: seq<Node>)
    ensures CarrierBytes(nodes, |nodes|) == 0
  {}

  lemma {:induction false} CarriersMost(nodes: seq<Node>, j: nat)
    requires j <= |nodes|
    ensures Off(nodes, j) + CarrierBytes(nodes, j) <= Used(nodes)
    decreases |nodes| - j
  {
    hide Carrier;
    if j < |nodes| {
      CarriersMost(nodes, j + 1);
    }
  }

  /** Outside sector `i` dirty sectors are as they were, and clean ones have at most gained live nodes. */
  predicate Elsewhere(f: seq<Sector>, g: seq<Sector>, i: nat) {
    |f| == |g| && forall x :: 0 <= x < |f| && x != i ==> Gains(f[x], g[x])
  }

  predicate Gains(f: Sector, g: Sector) {
    || g == f
    || (!IsDirty(f) && f.Sector? && g.Sector? && g.dirty == f.dirty && f.nodes <= g.nodes
        && (g.store == f.store || (f.store == Empty && g.store == Using))
        && forall y :: |f.nodes| <= y < |g.nodes| ==> Live(g.nodes[y]))
  }

  lemma GainsTransitive(f: Sector, g: Sector, h: Sector)
    requires Gains(f, g) && Gains(g, h)
    ensures Gains(f, h)
  {
    hide Live;
  }

  lemma ElsewhereTransitive(f: seq<Sector>, g: seq<Sector>, h: seq<Sector>, i: nat)
    requires Elsewhere(f, g, i) && Elsewhere(g, h, i)
    ensures Elsewhere(f, h, i)
  {
    hide Gains;
    forall x | 0 <= x < |f| && x != i ensures Gains(f[x], h[x]) {
      GainsTransitive(f[x], g[x], h[x]);
    }
  }

  lemma ElsewhereSelf(f: seq<Sector>, i: nat)
    ensures Elsewhere(f, f, i)
  {}

  /** Where a collection stands before node `j` of victim `i`. `empties` sectors were empty when it began. Either
      they all still are, or one of them, `taken`, has been taken: what it holds and what is still to be moved
      are not more than the `most` bytes that were to be moved, which fit into a sector. */
  ghost predicate Collecting(db: Db, i: nat, j: nat, empties: nat, taken: Option<nat>, most: nat) {
    && Shaped(db)
    && db.gcRequest
    && 0 < empties
    && i < |db.flash| && db.flash[i].Sector? && db.flash[i].store == Using && db.flash[i].dirty == Gc
    && j <= |db.flash[i].nodes|
    && SECTOR_HDR + most + THRESHOLD < db.secSize
    && (taken.None? ==> Count(db.flash, Empty) == empties && CarrierBytes(db.flash[i].nodes, j) <= most)
    && (taken.Some? ==>
          && taken.value < |db.flash| && taken.value != i
          && Count(db.flash, Empty) + 1 == empties
          && db.flash[taken.value].Sector?
          && db.flash[taken.value].store == Using && db.flash[taken.value].dirty == False
          && Used(db.flash[taken.value].nodes) + CarrierBytes(db.flash[i].nodes, j) <= most)
  }

  /** The carrier at `j` finds room: in a clean sector in use, or in an empty one. */
  lemma RoomToMove(db: Db, i: nat, j: nat, empties: nat, taken: Option<nat>, most: nat)
    requires Collecting(db, i, j, empties, taken, most) && j < |db.flash[i].nodes| && Carrier(db.flash[i].nodes[j])
    ensures var a := AllocKv(db, db.flash[i].nodes[j].Len());
      && a.db == db && a.sec.Some? && a.sec.value != i
      && (taken.Some? ==> db.flash[a.sec.value].store == Using)
  {
    hide Carrier;
    var nodes := db.flash[i].nodes;
    var size := nodes[j].Len();
    assert size <= most;
    if taken.Some? {
      assert HasRoom(db, Using, size, taken.value);
      AllocUsing(db, size, taken.value);
    } else {
      var e := CountWitness(db.flash, Empty, |db.flash|);
      assert WfShape(db.flash[e], db.secSize);
      assert HasRoom(db, Empty, size, e);
      AllocEmpty(db, size, e);
    }
    hide AllocKv;
  }

  /** Marking a node of the victim deleted, which settles it, or pending, which does not. */
  lemma MarkWhileCollecting(db: Db, i: nat, j: nat, complete: bool, k: nat, empties: nat, taken: Option<nat>, most: nat)
    requires Collecting(db, i, k, empties, taken, most) && j < |db.flash[i].nodes| && Carrier(db.flash[i].nodes[j])
    requires if complete then j < k else j == k
    ensures var d := MarkDel(db, i, j, complete);
      && Collecting(d, i, k, empties, taken, most)
      && d.flash == db.flash[i := MarkedSector(db.flash[i], j, if complete then Deleted else PreDelete)]
      && |d.flash[i].nodes| == |db.flash[i].nodes|
      && (WfDb(db) ==> WfDb(d))
  {
    hide NodeCrc, WfSector, WfShape, Off, SectorEntries, Contents;
    var st := if complete then Deleted else PreDelete;
    var nodes := db.flash[i].nodes;
    MarkDelTrades(db, i, j, complete, true);
    WfMark(db.flash[i], db.secSize, j, st, Gc);
    ShapeOf(MarkedSector(db.flash[i], j, st), db.secSize);
    CountUpdate(db.flash, i, MarkedSector(db.flash[i], j, st), Empty, |db.flash|);
    if complete {
      CarriersBehind(nodes, j, nodes[j].(st := st), k);
    } else {
      CarriersBehind(nodes, j, nodes[j].(st := st), k + 1);
    }
  }

  /** Writing the moved node keeps the account. */
  lemma WriteWhileCollecting(db: Db, i: nat, j: nat, t: nat, node: Node, empties: nat, taken: Option<nat>, most: nat)
    returns (taken': Option<nat>)
    requires Collecting(db, i, j, empties, taken, most) && j < |db.flash[i].nodes| && Carrier(db.flash[i].nodes[j])
    requires Intact(node) && node.Len() == db.flash[i].nodes[j].Len()
    requires AllocKv(db, node.Len()) == Alloc(db, Some(t)) && t != i
    requires taken.Some? ==> db.flash[t].store == Using
    ensures var d := CopyTo(db, t, node);
      && Collecting(d, i, j + 1, empties, taken', most)
      && d.flash == db.flash[t := Hold(db.flash[t].(store := Using), node.(st := Write))]
      && !IsDirty(db.flash[t]) && (db.flash[t].store == Using || db.flash[t].store == Empty)
      && (WfDb(db) ==> WfDb(d))
  {
    hide NodeCrc, WfSector, WfShape, Carrier, SectorEntries, Contents, AllocKv, HasRoom, Opened, FillsUp, WriteNode;
    RoomIsFormatted(db, node.Len(), t);
    OpensUsing(db, node.Len(), t);
    CopyAdds(db, t, node, true);
    var sec := Hold(db.flash[t].(store := Using), node.(st := Write));
    RoomMeans(db, node.Len(), t);
    LiveIsWf(node);
    HoldShape(db.flash[t], db.secSize, node.(st := Write));
    CountUpdate(db.flash, t, sec, Empty, |db.flash|);
    UsedHold(db.flash[t].nodes, node.(st := Write));
    taken' := if taken.Some? then taken else if db.flash[t].store == Empty then Some(t) else None;
    ShapedEmpty(db, t);
  }

  lemma LiveIsWf(node: Node)
    requires Intact(node)
    ensures WfNode(node.(st := Write)) && !Going(node.(st := Write)) && Live(node.(st := Write))
  {
    hide NodeCrc;
  }

  lemma ShapedEmpty(db: Db, t: nat)
    requires Shaped(db) && t < |db.flash|
    ensures db.flash[t].Sector? && (db.flash[t].store == Empty ==> Used(db.flash[t].nodes) == 0 && db.flash[t].dirty == False)
  {
    assert WfShape(db.flash[t], db.secSize);
  }

  lemma RoomMeans(db: Db, size: nat, t: nat)
    requires Shaped(db) && t < |db.flash|
    requires HasRoom(db, Using, size, t) || HasRoom(db, Empty, size, t)
    ensures SECTOR_HDR + Used(db.flash[t].nodes) + size + THRESHOLD < db.secSize
    ensures db.gcRequest ==> db.flash[t].dirty == False
    ensures db.flash[t].Sector? && (db.flash[t].store == Using || db.flash[t].store == Empty)
  {
    assert WfShape(db.flash[t], db.secSize);
  }

  /** The same entries are kept, whether an entry that is already there is held once more or not. */
  lemma KeptTwice(f: seq<Sector>, g: seq<Sector>, e: Entry)
    requires e in Contents(f, true)
    requires Contents(g, true) == Contents(f, true) || Contents(g, true) == Contents(f, true) + multiset{e}
    ensures Kept(g) == Kept(f)
  {
    hide Contents;
  }

  /** `d` comes from `db` by writes that never change which entries are kept. */
  ghost predicate Preserves(db: Db, d: Db) {
    && Contents(d.flash, true) == Contents(db.flash, true)
    && Contents(d.flash, false) == Contents(db.flash, false)
    && |db.log| <= |d.log|
    && (forall x :: 0 <= x < |db.log| ==> d.log[x] == db.log[x])
    && LogKeeps(d, |db.log|, Kept(db.flash))
  }

  /** The three parts of a move: mark, write, mark. */
  lemma MovePreserves(db: Db, d1: Db, d2: Db, i: nat, j: nat, t: nat)
    requires At(db, i, j) && Live(db.flash[i].nodes[j])
    requires d1 == MarkDel(db, i, j, false)
    requires Formatted(d1, t) && d2 == CopyTo(d1, t, db.flash[i].nodes[j])
    requires At(d2, i, j) && d2.flash[i].nodes[j] == db.flash[i].nodes[j].(st := PreDelete)
    ensures Preserves(db, MarkDel(d2, i, j, true))
  {
    hide NodeCrc, Contents, AllocKv, WriteNode, MarkDel, NodeEntries, CopyStages;
    var node := db.flash[i].nodes[j];
    var e := EntryOf(node);
    var E := multiset{e};
    ContentsAt(db.flash, i, j, true);
    StatusEntries(node, true);
    StatusEntries(node, false);
    assert node.(st := Write) == node;
    MarkDelTrades(db, i, j, false, true);
    MarkDelTrades(db, i, j, false, false);
    CopyAdds(d1, t, node, true);
    CopyAdds(d1, t, node, false);
    MarkDelTrades(d2, i, j, true, true);
    MarkDelTrades(d2, i, j, true, false);
    var d3 := MarkDel(d2, i, j, true);
    Cancel(Contents(d1.flash, true), Contents(db.flash, true), E);
    Cancel(Contents(d3.flash, true), Contents(db.flash, true), E);
    assert Contents(d1.flash, false) + E == Contents(db.flash, false);
    forall x | |db.log| <= x < |d3.log| ensures Kept(d3.log[x]) == Kept(db.flash) {
      KeptTwice(db.flash, d3.log[x], e);
    }
  }

  /** Recovery does not copy a node whose deletion is pending when its key has a live entry. */
  predicate Dropped(db: Db, node: Node)
    requires db.oldest < |db.flash| && Intact(node)
  {
    db.recovering && node.st == PreDelete && Find(db, Name(node)).Some?
  }

  /** The state in which the copy of a carrier is written. */
  function MoveStart(db: Db, i: nat, j: nat): (d: Db)
    requires At(db, i, j) && db.flash[i].nodes[j].Node?
    ensures Extends(db.flash, d.flash)
  {
    ExtendsSelf(db.flash);
    if db.flash[i].nodes[j].st == Write then MarkDel(db, i, j, false) else db
  }

  /** A carrier of the victim is copied to another sector and deleted. */
  lemma MoveCopies(db: Db, i: nat, j: nat, empties: nat, taken: Option<nat>, most: nat) returns (taken': Option<nat>, t: nat)
    requires Collecting(db, i, j, empties, taken, most) && j < |db.flash[i].nodes|
    requires Carrier(db.flash[i].nodes[j]) && !Dropped(db, db.flash[i].nodes[j])
    ensures var node, d := db.flash[i].nodes[j], MoveStart(db, i, j);
      && t < |db.flash| && t != i && Formatted(d, t) && d.flash[t] == db.flash[t]
      && !IsDirty(db.flash[t]) && (db.flash[t].store == Using || db.flash[t].store == Empty)
      && At(CopyTo(d, t, node), i, j) && CopyTo(d, t, node).flash[i].nodes[j] == node.(st := PreDelete)
      && MoveKv(db, i, j) == Moved(MarkDel(CopyTo(d, t, node), i, j, true), true)
    ensures var m := MoveKv(db, i, j); var node := db.flash[i].nodes[j];
      && Collecting(m.db, i, j + 1, empties, taken', most)
      && m.db.flash == db.flash[t := Hold(db.flash[t].(store := Using), node.(st := Write))][i := MarkedSector(db.flash[i], j, Deleted)]
      && (WfDb(db) ==> WfDb(m.db))
  {
    hide NodeCrc, WfSector, WfShape, Contents, SectorEntries, Off, AllocKv, WriteNode, MarkDel, Find, HasRoom, Extends, CopyStages, CarrierBytes, CopyTo, Count;
    var node := db.flash[i].nodes[j];
    var d1 := MoveStart(db, i, j);
    if node.st == Write {
      MarkWhileCollecting(db, i, j, false, j, empties, taken, most);
    }
    RoomToMove(d1, i, j, empties, taken, most);
    t := AllocKv(d1, node.Len()).sec.value;
    RoomIsFormatted(d1, node.Len(), t);
    taken' := WriteWhileCollecting(d1, i, j, t, node, empties, taken, most);
    var d2 := CopyTo(d1, t, node);
    assert d2.flash[i] == d1.flash[i];
    MarkedTwice(db.flash[i], j);
    MarkWhileCollecting(d2, i, j, true, j + 1, empties, taken', most);
    assert MoveKv(db, i, j) == Moved(MarkDel(d2, i, j, true), true);
  }

  lemma MarkedTwice(sec: Sector, j: nat)
    requires sec.Sector? && j < |sec.nodes| && sec.nodes[j].Node?
    ensures MarkedSector(MarkedSector(sec, j, PreDelete), j, Deleted) == MarkedSector(sec, j, Deleted)
  {
    assert sec.nodes[j := sec.nodes[j].(st := PreDelete)][j := sec.nodes[j].(st := Deleted)] == sec.nodes[j := sec.nodes[j].(st := Deleted)];
  }

  lemma MoveDrops(db: Db, i: nat, j: nat, empties: nat, taken: Option<nat>, most: nat)
    requires Collecting(db, i, j, empties, taken, most) && j < |db.flash[i].nodes|
    requires Carrier(db.flash[i].nodes[j]) && Dropped(db, db.flash[i].nodes[j])
    ensures var m := MoveKv(db, i, j);
      && m == Moved(MarkDel(db, i, j, true), true)
      && Collecting(m.db, i, j + 1, empties, taken, most)
      && m.db.flash == db.flash[i := MarkedSector(db.flash[i], j, Deleted)]
      && (WfDb(db) ==> WfDb(m.db))
  {
    hide NodeCrc, WfSector, WfShape, Contents, SectorEntries, Off, AllocKv, MarkDel, Find, HasRoom, Extends;
    RoomToMove(db, i, j, empties, taken, most);
    CollectingNext(db, i, j, empties, taken, most);
    MarkWhileCollecting(db, i, j, true, j + 1, empties, taken, most);
  }

  lemma CollectingNext(db: Db, i: nat, j: nat, empties: nat, taken: Option<nat>, most: nat)
    requires Collecting(db, i, j, empties, taken, most) && j < |db.flash[i].nodes|
    ensures Collecting(db, i, j + 1, empties, taken, most)
  {
    hide WfShape, Carrier;
  }

  /** Moving a live node out of the victim: it succeeds, and no write of it loses an entry. */
  lemma MoveLive(db: Db, i: nat, j: nat, empties: nat, taken: Option<nat>, most: nat) returns (taken': Option<nat>)
    requires Collecting(db, i, j, empties, taken, most) && j < |db.flash[i].nodes| && Live(db.flash[i].nodes[j])
    ensures var m := MoveKv(db, i, j); var node := db.flash[i].nodes[j];
      && m.ok
      && Collecting(m.db, i, j + 1, empties, taken', most)
      && Elsewhere(db.flash, m.db.flash, i) && m.db.flash[i] == MarkedSector(db.flash[i], j, Deleted)
      && UsedAll(m.db.flash) == UsedAll(db.flash) + node.Len()
      && Preserves(db, m.db)
      && (Calm(db.flash) ==> Calm(m.db.flash)) && (WfDb(db) ==> WfDb(m.db))
  {
    hide NodeCrc, WfSector, Shaped, Contents, SectorEntries, WriteNode, MarkDel, Find, CopyTo, MoveKv, CarrierBytes, Count, UsedTo, Preserves, Used;
    var node := db.flash[i].nodes[j];
    var t;
    taken', t := MoveCopies(db, i, j, empties, taken, most);
    var d := MoveStart(db, i, j);
    assert node.(st := Write) == node;
    MovePreserves(db, d, CopyTo(d, t, node), i, j, t);
    UsedMoves(db.flash, i, j, t, node);
  }

  lemma UsedMoves(f: seq<Sector>, i: nat, j: nat, t: nat, node: Node)
    requires i < |f| && t < |f| && i != t && f[i].Sector? && f[t].Sector? && j < |f[i].nodes| && f[i].nodes[j].Node?
    ensures UsedAll(f[t := Hold(f[t].(store := Using), node)][i := MarkedSector(f[i], j, Deleted)]) == UsedAll(f) + node.Len()
  {
    hide UsedTo;
    var g := f[t := Hold(f[t].(store := Using), node)];
    UsedUpdate(f, t, g[t], |f|);
    UsedUpdate(g, i, MarkedSector(f[i], j, Deleted), |f|);
    UsedHold(f[t].nodes, node);
    OffUpdate(f[i].nodes, j, f[i].nodes[j].(st := Deleted), |f[i].nodes|);
  }

  lemma PreservesTransitive(db: Db, d: Db, r: Db)
    requires Preserves(db, d) && Preserves(d, r)
    ensures Preserves(db, r)
  {
    assert Kept(d.flash) == Kept(db.flash);
    forall x | |db.log| <= x < |r.log| ensures Kept(r.log[x]) == Kept(db.flash) {
      if x < |d.log| {
        assert r.log[x] == d.log[x];
      }
    }
  }

  /** The node loop frees the first `n` nodes of the victim of carriers. */
  lemma {:induction false} GcNodesKeeps(db: Db, i: nat, j: nat, n: nat, empties: nat, taken: Option<nat>, most: nat)
    returns (taken': Option<nat>)
    requires Collecting(db, i, j, empties, taken, most) && Calm(db.flash) && WfDb(db) && j <= n <= |db.flash[i].nodes|
    requires forall x :: 0 <= x < j ==> !Carrier(db.flash[i].nodes[x])
    ensures var d := GcNodes(db, i, j, n);
      && Collecting(d, i, n, empties, taken', most) && Calm(d.flash) && WfDb(d)
      && |d.flash[i].nodes| == |db.flash[i].nodes| && Used(d.flash[i].nodes) == Used(db.flash[i].nodes)
      && (forall x :: 0 <= x < n ==> !Carrier(d.flash[i].nodes[x]))
      && Elsewhere(db.flash, d.flash, i)
      && UsedAll(d.flash) == UsedAll(db.flash) + CarrierBytes(db.flash[i].nodes, j) - CarrierBytes(db.flash[i].nodes, n)
      && Preserves(db, d)
    decreases n - j
  {
    hide NodeCrc, WfSector, WfShape, Contents, Off, MoveKv, Preserves, Count, UsedTo, Elsewhere;
    ElsewhereSelf(db.flash, i);
    if j == n {
      taken' := taken;
      PreservesSelf(db);
    } else if Carrier(db.flash[i].nodes[j]) {
      assert CalmSector(db.flash[i]);
      var t := MoveLive(db, i, j, empties, taken, most);
      var d := MoveKv(db, i, j).db;
      var gone := db.flash[i].nodes[j].(st := Deleted);
      CarriersBehind(db.flash[i].nodes, j, gone, j + 1);
      CarriersBehind(db.flash[i].nodes, j, gone, n);
      OffUpdate(db.flash[i].nodes, j, gone, |db.flash[i].nodes|);
      taken' := GcNodesKeeps(d, i, j + 1, n, empties, t, most);
      PreservesTransitive(db, d, GcNodes(d, i, j + 1, n));
      ElsewhereTransitive(db.flash, d.flash, GcNodes(d, i, j + 1, n).flash, i);
    } else {
      CollectingNext(db, i, j, empties, taken, most);
      taken' := GcNodesKeeps(db, i, j + 1, n, empties, taken, most);
    }
  }

  lemma PreservesSelf(db: Db)
    ensures Preserves(db, db)
  {}

  /** A state from which a collection may start. */
  ghost predicate Collectable(db: Db) {
    && WfDb(db) && Calm(db.flash)
    && db.gcRequest
    && 0 < Count(db.flash, Empty)
  }

  lemma {:induction false} NoCarriers(nodes: seq<Node>, k: nat, pd: bool)
    requires k <= |nodes| && forall x :: 0 <= x < |nodes| ==> !Carrier(nodes[x])
    ensures EntriesTo(nodes, k, pd) == multiset{}
  {
    hide Intact;
    if k > 0 {
      NoCarriers(nodes, k - 1, pd);
      NoEntry(nodes[k - 1], pd);
    }
  }

  /** Writes that leave the entries of sector `i` as they are. */
  lemma RewritePreserves(db: Db, i: nat, steps: seq<Sector>)
    requires i < |db.flash|
    requires forall x, pd :: 0 <= x < |steps| ==> SectorEntries(steps[x], pd) == SectorEntries(db.flash[i], pd)
    ensures Preserves(db, Rewrite(db, i, steps))
  {
    hide SectorEntries, Contents;
    var d := Rewrite(db, i, steps);
    forall x, pd | 0 <= x < |steps| ensures Contents(db.flash[i := steps[x]], pd) == Contents(db.flash, pd) {
      ContentsUpdate(db.flash, i, steps[x], pd);
      Cancel(Contents(db.flash[i := steps[x]], pd), Contents(db.flash, pd), SectorEntries(db.flash[i], pd));
    }
    forall x | |db.log| <= x < |d.log| ensures Kept(d.log[x]) == Kept(db.flash) {
      assert d.log[x] == db.flash[i := steps[x - |db.log|]];
    }
  }

  lemma FormatPreserves(db: Db, i: nat)
    requires Formatted(db, i) && forall x :: 0 <= x < |db.flash[i].nodes| ==> !Carrier(db.flash[i].nodes[x])
    ensures Preserves(db, Format(db, i))
  {
    hide Carrier;
    forall pd ensures SectorEntries(db.flash[i], pd) == multiset{} {
      NoCarriers(db.flash[i].nodes, |db.flash[i].nodes|, pd);
    }
    RewritePreserves(db, i, [Raw, Sector(Empty, False, [])]);
  }

  /** The bytes of a sector that no collection has to move. */
  function Waste(sec: Sector): int {
    if sec.Raw? then 0 else Used(sec.nodes) - CarrierBytes(sec.nodes, 0)
  }

  /** Sector `i` has been collected: it is empty, what was in use is less by its waste, and everything else is as it
      was but for what was moved. */
  ghost predicate Collected(db: Db, d: Db, i: nat) {
    && i < |db.flash| && Elsewhere(db.flash, d.flash, i)
    && d.flash[i] == Sector(Empty, False, [])
    && UsedAll(d.flash) == UsedAll(db.flash) - Waste(db.flash[i])
    && d.oldest == Next(i, |db.flash|)
  }

  /** Collecting one sector keeps every entry at every write, and never costs an empty sector. A sector without
      deleted records is passed over. */
  lemma GcSectorKeeps(db: Db, i: nat, freeSize: nat, last: nat)
    requires Collectable(db) && i < |db.flash| && last < |db.flash|
    ensures var s := GcSector(db, i, freeSize, last);
      && Collectable(s.db)
      && Count(db.flash, Empty) <= Count(s.db.flash, Empty)
      && Preserves(db, s.db)
      && (NoneBegun(db.flash) ==> NoneBegun(s.db.flash))
      && (if IsDirty(db.flash[i]) then Collected(db, s.db, i) && s.last == i && (s.stop <==> Remain(s.db, last) > freeSize)
          else s == GcStep(db, false, last))
  {
    hide NodeCrc, Contents, SectorEntries, Off, GcNodes, Preserves, Carrier, Rewrite, UsedTo, Count, Elsewhere, Remain, WfSector, WfShape, CarrierBytes, Calm;
    PreservesSelf(db);
    if IsDirty(db.flash[i]) {
      DirtyUsing(db, i);
      var sec := db.flash[i].(dirty := Gc);
      var d1 := Rewrite(db, i, [sec]);
      DirtyStep(db, i);
      var n := |sec.nodes|;
      var _ := GcNodesKeeps(d1, i, 0, n, Count(db.flash, Empty), None, CarrierBytes(sec.nodes, 0));
      assert CarrierBytes(sec.nodes, n) == 0 by { CarriersEnd(sec.nodes); }
      var d2 := GcNodes(d1, i, 0, n);
      FormatStep(d2, i);
      PreservesTransitive(db, d1, d2);
      PreservesTransitive(db, d2, Format(d2, i));
      PreservesOldest(db, Format(d2, i), Next(i, |db.flash|));
      ElsewhereJoins(db.flash, d1.flash, d2.flash, Format(d2, i).flash, i);
      RemainSector(GcSector(db, i, freeSize, last).db, last);
      NoneBegunElse(db.flash, Format(d2, i).flash, i);
    }
  }

  lemma NoneBegunElse(f: seq<Sector>, g: seq<Sector>, i: nat)
    requires i < |f| && Elsewhere(f, g, i) && Unvictimized(g[i])
    ensures NoneBegun(f) ==> NoneBegun(g)
  {
    if NoneBegun(f) {
      forall x | 0 <= x < |g| ensures Unvictimized(g[x]) {
        assert Unvictimized(f[x]);
      }
    }
  }

  lemma RemainSector(db: Db, last: nat)
    requires WfDb(db) && last < |db.flash|
    ensures db.flash[last].Sector?
  {
    assert WfSector(db.flash[last], db.secSize);
  }

  lemma DirtyUsing(db: Db, i: nat)
    requires WfDb(db) && i < |db.flash| && IsDirty(db.flash[i])
    ensures db.flash[i].store == Using && SECTOR_HDR + CarrierBytes(db.flash[i].nodes, 0) + THRESHOLD < db.secSize
  {
    assert WfSector(db.flash[i], db.secSize);
    CarriersMost(db.flash[i].nodes, 0);
  }

  lemma ElsewhereJoins(f: seq<Sector>, f1: seq<Sector>, f2: seq<Sector>, f3: seq<Sector>, i: nat)
    requires i < |f| && |f1| == |f| && f1 == f[i := f1[i]] && Elsewhere(f1, f2, i) && |f3| == |f2| && f3 == f2[i := f3[i]]
    ensures Elsewhere(f, f3, i)
  {
    hide Gains;
  }

  lemma PreservesOldest(db: Db, d: Db, oldest: nat)
    requires Preserves(db, d)
    ensures Preserves(db, d.(oldest := oldest))
  {}

  lemma DirtyStep(db: Db, i: nat)
    requires Collectable(db) && i < |db.flash| && IsDirty(db.flash[i]) && HasStore(db.flash[i], Using)
    requires SECTOR_HDR + CarrierBytes(db.flash[i].nodes, 0) + THRESHOLD < db.secSize
    ensures var sec := db.flash[i].(dirty := Gc); var d := Rewrite(db, i, [sec]);
      && Preserves(db, d)
      && Collecting(d, i, 0, Count(db.flash, Empty), None, CarrierBytes(sec.nodes, 0)) && Calm(d.flash) && WfDb(d)
      && d.flash == db.flash[i := sec] && UsedAll(d.flash) == UsedAll(db.flash)
  {
    hide NodeCrc, Contents, Off, Carrier, CarrierBytes;
    var sec := db.flash[i].(dirty := Gc);
    assert WfSector(db.flash[i], db.secSize) && CalmSector(db.flash[i]);
    assert forall pd :: SectorEntries(sec, pd) == SectorEntries(db.flash[i], pd);
    RewritePreserves(db, i, [sec]);
    CountUpdate(db.flash, i, sec, Empty, |db.flash|);
    UsedUpdate(db.flash, i, sec, |db.flash|);
  }

  lemma FormatStep(db: Db, i: nat)
    requires WfDb(db) && Calm(db.flash) && i < |db.flash| && HasStore(db.flash[i], Using)
    requires forall x :: 0 <= x < |db.flash[i].nodes| ==> !Carrier(db.flash[i].nodes[x])
    ensures var d := Format(db, i);
      && WfDb(d) && Calm(d.flash)
      && Preserves(db, d)
      && Count(d.flash, Empty) == Count(db.flash, Empty) + 1
      && d.flash == db.flash[i := Sector(Empty, False, [])]
      && UsedAll(d.flash) == UsedAll(db.flash) - Used(db.flash[i].nodes)
  {
    hide NodeCrc, Contents, Carrier;
    FormatPreserves(db, i);
    CountUpdate(db.flash, i, Sector(Empty, False, []), Empty, |db.flash|);
    UsedUpdate(db.flash, i, Sector(Empty, False, []), |db.flash|);
  }

  lemma {:induction false} GcFromKeeps(db: Db, start: nat, k: nat, freeSize: nat, last: nat)
    requires Collectable(db) && start < |db.flash| && k <= |db.flash| && last < |db.flash|
    ensures var d := GcFrom(db, start, k, freeSize, last);
      && Collectable(d)
      && Count(db.flash, Empty) <= Count(d.flash, Empty)
      && Preserves(db, d)
      && (NoneBegun(db.flash) ==> NoneBegun(d.flash))
    decreases |db.flash| - k
  {
    hide WfSector, Calm, Preserves, GcSector, Count, Collected, NoneBegun;
    if k == |db.flash| {
      PreservesSelf(db);
    } else {
      var i := RingPos(start, k, |db.flash|);
      GcSectorKeeps(db, i, freeSize, last);
      var s := GcSector(db, i, freeSize, last);
      if !s.stop {
        GcFromKeeps(s.db, start, k + 1, freeSize, s.last);
        PreservesTransitive(db, s.db, GcFrom(s.db, start, k + 1, freeSize, s.last));
      }
    }
  }

  /** A collection never loses an entry, not even for the length of one write, and ends with at least
      as many empty sectors as it began with. */
  lemma GcCollectKeeps(db: Db, freeSize: nat)
    requires Collectable(db)
    ensures var d := GcCollect(db, freeSize);
      && Collectable(d.(gcRequest := true))
      && Count(db.flash, Empty) <= Count(d.flash, Empty)
      && Preserves(db, d)
      && (NoneBegun(db.flash) ==> NoneBegun(d.flash))
  {
    hide Preserves, Count, WfSector, GcFrom, Contents, Calm, NoneBegun;
    PreservesSelf(db);
    var d := db;
    if Count(db.flash, Empty) <= 1 {
      GcFromKeeps(db, db.oldest, 0, freeSize, LastEmpty(db.flash, db.oldest, |db.flash|));
      d := GcFrom(db, db.oldest, 0, freeSize, LastEmpty(db.flash, db.oldest, |db.flash|));
    }
    PreservesRequest(db, d, false);
    assert d.(gcRequest := false).(gcRequest := true) == d;
  }

  lemma PreservesRequest(db: Db, d: Db, request: bool)
    requires Preserves(db, d)
    ensures Preserves(db, d.(gcRequest := request))
  {}
}
