/** When a `set` survives every power cut: exactly when its new node does not come before the old one in
    the order in which recovery meets them. */
module KvCutOrder {
  import opened Bytes
  import opened Wrappers
  import opened Sectors
  import opened KvModel
  import opened KvContents
  import opened KvInvariant
  import opened KvGc
  import opened KvMap
  import opened KvLoad
  import opened KvCrash
  import opened KvPowerCut

  /** Recovery, which begins at the sector that `find_oldest_addr` finds once sector `t` is in use, comes to
      `t` before it comes to sector `s`. */
  predicate ScansFirst(flash: seq<Sector>, t: nat, s: nat)
    requires t < |flash| && s < |flash| && flash[t].Sector?
  {
    var oldest := FindOldest(flash[t := flash[t].(store := Using)]);
    oldest < |flash| && Steps(oldest, t, |flash|) < Steps(oldest, s, |flash|)
  }

  lemma {:induction false} OldestSame(f: seq<Sector>, g: seq<Sector>, k: nat, last: StoreStatus, found: nat)
    requires |f| == |g| && k <= |f| && (found < |f| || |f| == 0)
    requires forall i :: 0 <= i < |f| ==> StoreOf(f[i]) == StoreOf(g[i])
    ensures OldestFrom(f, k, last, found) == OldestFrom(g, k, last, found)
    decreases |f| - k
  {
    if k < |f| {
      var st := StoreOf(f[k]);
      OldestSame(f, g, k + 1, st, if last == Empty && (st == Full || st == Using) then k else found);
    }
  }

  /** What is added to the log does not change where the scan begins. */
  lemma AddedOldest(db: Db, l: Loc, t: nat, p: Node)
    requires At(db, l.sec, l.node) && db.flash[l.sec].nodes[l.node].Node? && Formatted(db, t)
    ensures FindOldest(Added(db, l, t, p)) == FindOldest(db.flash[t := db.flash[t].(store := Using)])
  {
    OldestSame(Added(db, l, t, p), db.flash[t := db.flash[t].(store := Using)], 0, StoreStatus.Unused, 0);
  }

  /** Of the states in which a node `p` has been added, those where it is torn are met in the wrong order if
      its sector is scanned first. */
  lemma AddedOrder(db: Db, l: Loc, t: nat, p: Node, size: nat)
    requires Resting(db) && At(db, l.sec, l.node) && Live(db.flash[l.sec].nodes[l.node])
    requires Formatted(db, t) && SpareRoom(db, size, t) && p.Len() <= size && WfNode(p)
    requires IsHeadless(db.flash[t], p) || IsTorn(p) || Live(p)
    ensures TornFirst(Fresh(db.secSize, Added(db, l, t, p))) <==> IsTorn(p) && ScansFirst(db.flash, t, l.sec)
  {
    hide NodeCrc, ReadName, Contents, Opening, FindOldest, SpareRoom, NodeEntries, Resting;
    var f := Added(db, l, t, p);
    var e := Fresh(db.secSize, f);
    var b := Loc(t, |db.flash[t].nodes|);
    AddedShape(db, l, t, p, size);
    AddedOldest(db, l, t, p);
    if IsTorn(p) {
      OnePendingOneTorn(e, l, b);
    } else {
      NoTornFirst(e, {l});
    }
  }

  lemma MarkedOrder(db: Db, l: Loc, x: nat)
    requires Resting(db) && At(db, l.sec, l.node) && Live(db.flash[l.sec].nodes[l.node])
    requires |db.log| <= x < |MarkDel(db, l.sec, l.node, false).log|
    ensures !TornFirst(Fresh(db.secSize, Seen(MarkDel(db, l.sec, l.node, false).log[x])))
  {
    hide NodeCrc, ReadName, WfSector, Contents, Count, Calm, MarkDel, FindOldest, Opening, Quiet;
    MarkStates(db, l, x);
    var f := MarkDel(db, l.sec, l.node, false).log[x];
    var dirty := if f == db.flash[l.sec := MarkNode(db.flash[l.sec].(dirty := True), l.node, PreDelete)] then True else db.flash[l.sec].dirty;
    OpeningMarked(db, l, dirty);
    NoTornFirst(Fresh(db.secSize, f), {l});
  }

  lemma RestOrder(db: Db)
    requires Resting(db)
    ensures !TornFirst(Fresh(db.secSize, Seen(db.flash)))
  {
    hide NodeCrc, Contents, Opening, Quiet, FindOldest, WfSector, Count;
    SteadyShapes(db);
    SeenSelf(db);
    OpeningRest(db);
    CalmIsQuiet(db);
    NothingPending(Fresh(db.secSize, db.flash), {});
  }

  lemma WrittenOrder(db: Db, l: Loc, t: nat, d1: Db, key: Key, value: seq<byte>, x: nat)
    requires Resting(db) && At(db, l.sec, l.node) && Live(db.flash[l.sec].nodes[l.node])
    requires Readable(key) && NodeSize(key, value) < 0x1_0000_0000
    requires Formatted(db, t) && SpareRoom(db, NodeSize(key, value), t)
    requires Steady(d1) && Formatted(d1, t) && SpareRoom(d1, NodeSize(key, value), t)
    requires d1.flash == db.flash[l.sec := MarkedSector(db.flash[l.sec], l.node, PreDelete)]
    requires var node := NewNode(Write, key, value);
      node.Len() == NodeSize(key, value) && |d1.log| <= x < |CreateAt(d1, t, node).log|
    ensures TornFirst(Fresh(db.secSize, Seen(CreateAt(d1, t, NewNode(Write, key, value)).log[x]))) ==> ScansFirst(db.flash, t, l.sec)
  {
    hide NodeCrc, ReadName, WfSector, WfShape, Contents, WriteNode, CreateStages, NewNode, SpareRoom, Count, Calm,
         TornFirst, Fresh, Seen, Opened, FillsUp, WfNode, ScansFirst, Resting;
    var node := NewNode(Write, key, value);
    NewNodeIs(Write, key, value);
    OpensUsing(d1, node.Len(), t) by { SpareIsRoom(d1, node.Len(), t); }
    EmptyHasNone(d1, t);
    var opening, p := WriteStates(d1, t, node, x);
    StageWf(d1.flash[t], key, value, p);
    SteadyShapes(d1);
    SeenHeld(d1, t, p);
    AddedOrder(db, l, t, p, node.Len());
  }

  /** One of the states of a write has the header of the node, and the node torn. */
  lemma TornState(d1: Db, t: nat, node: Node) returns (x: nat)
    requires Formatted(d1, t) && node.Node? && node.nameLen <= |node.data|
    requires Opened(d1, t, node.Len()) == Using && !FillsUp(d1, t, node.Len())
    ensures |d1.log| <= x < |CreateAt(d1, t, node).log|
    ensures CreateAt(d1, t, node).log[x] == d1.flash[t := Hold(d1.flash[t].(store := Using), Partial(node, 0))]
  {
    hide NodeCrc, FillsUp, Opened;
    var first := OpenSteps(d1, t, node.Len());
    var stages := CreateStages(d1.flash[t], node);
    x := |d1.log| + |first| + 1;
    var steps := first + HoldAll(OpenedSector(d1, t, node.Len()), stages);
    assert stages[1] == Partial(node, 0);
    assert steps[|first| + 1] == Hold(OpenedSector(d1, t, node.Len()), Partial(node, 0));
  }

  /** A replacement goes through no state in which the torn node comes first, or through one, as its sector
      is scanned after or before that of the old node. */
  lemma PresentOrder(db: Db, t: nat, key: Key, value: seq<byte>, m: Table) returns (w: nat)
    requires Resting(db) && Holds(db.flash, m)
    requires t < |db.flash| && NodeSize(key, value) < 0x1_0000_0000 && SpareRoom(db, NodeSize(key, value), t)
    requires Readable(key) && key in m && Formatted(db, t)
    ensures Find(db, key).Some?
    ensures var log, s := Replace(db, t, key, value).db.log, Find(db, key).value.sec;
      && |db.log| <= w < |log|
      && (ScansFirst(db.flash, t, s) ==> TornFirst(Fresh(db.secSize, Seen(log[w]))))
      && (!ScansFirst(db.flash, t, s) ==> forall x :: |db.log| <= x < |log| ==> !TornFirst(Fresh(db.secSize, Seen(log[x]))))
  {
    hide NodeCrc, ReadName, WfSector, WfShape, Find, Contents, WriteNode, CreateStages, NewNode, SpareRoom, Count, Calm, MarkDel,
         TornFirst, Fresh, Seen, Replace, Holds, ScansFirst;
    ReplaceRuns(db, t, key, value, m);
    var l := Find(db, key).value;
    var node := NewNode(Write, key, value);
    NewNodeIs(Write, key, value);
    var d1 := MarkDel(db, l.sec, l.node, false);
    var d2 := CreateAt(d1, t, node);
    var d3 := MarkDel(d2, l.sec, l.node, true);
    WriteLogGrows(d1, t, node);
    MarkLogs(db, l, false);
    MarkLogs(d2, l, true);
    w := TornWitness(db, l, t, d1, key, value);
    forall x | |db.log| <= x < |d3.log| && !ScansFirst(db.flash, t, l.sec)
      ensures !TornFirst(Fresh(db.secSize, Seen(d3.log[x])))
    {
      if x < |d1.log| {
        MarkedOrder(db, l, x);
      } else if x < |d2.log| {
        WrittenOrder(db, l, t, d1, key, value, x);
      } else {
        LastMark(d1, d2, l, t, node);
        RestOrder(d3);
      }
    }
  }

  /** The state in which the new node is torn. */
  lemma TornWitness(db: Db, l: Loc, t: nat, d1: Db, key: Key, value: seq<byte>) returns (w: nat)
    requires Resting(db) && At(db, l.sec, l.node) && Live(db.flash[l.sec].nodes[l.node])
    requires Readable(key) && NodeSize(key, value) < 0x1_0000_0000
    requires Formatted(db, t) && SpareRoom(db, NodeSize(key, value), t)
    requires Steady(d1) && Formatted(d1, t) && SpareRoom(d1, NodeSize(key, value), t)
    requires d1.flash == db.flash[l.sec := MarkedSector(db.flash[l.sec], l.node, PreDelete)]
    ensures var node := NewNode(Write, key, value);
      && node.Node? && node.nameLen <= |node.data|
      && |d1.log| <= w < |CreateAt(d1, t, node).log|
      && Seen(CreateAt(d1, t, node).log[w]) == Added(db, l, t, Partial(node, 0))
      && (TornFirst(Fresh(db.secSize, Added(db, l, t, Partial(node, 0)))) <==> ScansFirst(db.flash, t, l.sec))
  {
    hide NodeCrc, ReadName, WfSector, WfShape, Contents, WriteNode, CreateStages, CreateAt, NewNode, SpareRoom, Count, Calm,
         TornFirst, Fresh, Seen, Opened, FillsUp, WfNode, ScansFirst, Resting, MarkedSector;
    var node := NewNode(Write, key, value);
    NewNodeIs(Write, key, value);
    OpensUsing(d1, node.Len(), t) by { SpareIsRoom(d1, node.Len(), t); }
    w := TornState(d1, t, node);
    var p := Partial(node, 0);
    assert IsPartial(p, node);
    StageWf(d1.flash[t], key, value, p);
    SteadyShapes(d1);
    SeenHeld(d1, t, p);
    AddedOrder(db, l, t, p, node.Len());
  }

  // ------------------------------------------------------------ room to recover

  /** With two empty sectors there is room for a copy of any node. */
  lemma TwoEmpty(secSize: nat, f: seq<Sector>, loose: set<nat>)
    requires 0 < |f| && Opening(Fresh(secSize, f), loose) && 2 <= Count(f, Empty)
    ensures RoomToRecover(Fresh(secSize, f))
  {
    hide NodeCrc, ReadName, FindOldest;
    var e := Fresh(secSize, f);
    var u := CountWitness(f, Empty, |f|);
    forall i: nat, j: nat | At(e, i, j) && IsPending(f[i].nodes[j]) ensures CanCopy(e, i, j) {
      OffMonotone(f[i].nodes, j, |f[i].nodes|);
      assert WfShape(f[i], secSize) && WfShape(f[u], secSize);
      assert SpareRoom(e, f[i].nodes[j].Len(), u);
    }
  }

  lemma MarkedRoom(db: Db, l: Loc, x: nat)
    requires Resting(db) && At(db, l.sec, l.node) && Live(db.flash[l.sec].nodes[l.node])
    requires |db.log| <= x < |MarkDel(db, l.sec, l.node, false).log| && 3 <= Count(db.flash, Empty)
    ensures RoomToRecover(Fresh(db.secSize, Seen(MarkDel(db, l.sec, l.node, false).log[x])))
  {
    hide NodeCrc, ReadName, WfSector, Contents, Count, Calm, MarkDel, FindOldest, Opening, Quiet;
    MarkStates(db, l, x);
    var f := MarkDel(db, l.sec, l.node, false).log[x];
    var dirty := if f == db.flash[l.sec := MarkNode(db.flash[l.sec].(dirty := True), l.node, PreDelete)] then True else db.flash[l.sec].dirty;
    OpeningMarked(db, l, dirty);
    CountPut(db.flash, l.sec, MarkNode(db.flash[l.sec].(dirty := dirty), l.node, PreDelete));
    TwoEmpty(db.secSize, f, {l.sec});
  }

  lemma CountPut(flash: seq<Sector>, i: nat, sec: Sector)
    requires i < |flash|
    ensures Count(flash[i := sec], Empty) >= Count(flash, Empty) - if HasStore(flash[i], Empty) && !HasStore(sec, Empty) then 1 else 0
  {
    CountUpdate(flash, i, sec, Empty, |flash|);
  }

  lemma AddedRoom(db: Db, l: Loc, t: nat, p: Node, size: nat)
    requires Resting(db) && At(db, l.sec, l.node) && Live(db.flash[l.sec].nodes[l.node]) && 3 <= Count(db.flash, Empty)
    requires Formatted(db, t) && SpareRoom(db, size, t) && p.Len() <= size && WfNode(p)
    requires IsHeadless(db.flash[t], p) || IsTorn(p) || Live(p)
    ensures RoomToRecover(Fresh(db.secSize, Added(db, l, t, p)))
  {
    hide NodeCrc, ReadName, Contents, Opening, FindOldest, SpareRoom, NodeEntries, Count, WfSector, Calm;
    var f := db.flash[l.sec := MarkedSector(db.flash[l.sec], l.node, PreDelete)];
    AddedShape(db, l, t, p, size);
    assert WfSector(db.flash[l.sec], db.secSize);
    LiveIsUsing(db, l);
    CountPut(db.flash, l.sec, f[l.sec]);
    CountPut(f, t, Hold(f[t].(store := Using), p));
    TwoEmpty(db.secSize, Added(db, l, t, p), {l.sec});
  }

  lemma LiveIsUsing(db: Db, l: Loc)
    requires WfDb(db) && At(db, l.sec, l.node)
    ensures !HasStore(db.flash[l.sec], Empty)
  {
    hide NodeCrc;
    assert WfSector(db.flash[l.sec], db.secSize);
  }

  lemma WrittenRoom(db: Db, l: Loc, t: nat, d1: Db, key: Key, value: seq<byte>, x: nat)
    requires Resting(db) && At(db, l.sec, l.node) && Live(db.flash[l.sec].nodes[l.node]) && 3 <= Count(db.flash, Empty)
    requires Readable(key) && NodeSize(key, value) < 0x1_0000_0000
    requires Formatted(db, t) && SpareRoom(db, NodeSize(key, value), t)
    requires Steady(d1) && Formatted(d1, t) && SpareRoom(d1, NodeSize(key, value), t)
    requires d1.flash == db.flash[l.sec := MarkedSector(db.flash[l.sec], l.node, PreDelete)]
    requires var node := NewNode(Write, key, value);
      node.Len() == NodeSize(key, value) && |d1.log| <= x < |CreateAt(d1, t, node).log|
    ensures RoomToRecover(Fresh(db.secSize, Seen(CreateAt(d1, t, NewNode(Write, key, value)).log[x])))
  {
    hide NodeCrc, ReadName, WfSector, WfShape, Contents, WriteNode, CreateStages, NewNode, SpareRoom, Count, Calm,
         RoomToRecover, Fresh, Seen, Opened, FillsUp, WfNode, Resting;
    var node := NewNode(Write, key, value);
    NewNodeIs(Write, key, value);
    OpensUsing(d1, node.Len(), t) by { SpareIsRoom(d1, node.Len(), t); }
    EmptyHasNone(d1, t);
    var opening, p := WriteStates(d1, t, node, x);
    StageWf(d1.flash[t], key, value, p);
    SteadyShapes(d1);
    SeenHeld(d1, t, p);
    AddedRoom(db, l, t, p, node.Len());
  }

  /** Nothing pending, nothing to copy. */
  lemma QuietRoom(e: Db, bad: set<Loc>)
    requires QuietExcept(e.flash, bad)
    requires forall b :: b in bad ==> At(e, b.sec, b.node) && !IsPending(e.flash[b.sec].nodes[b.node])
    ensures RoomToRecover(e)
  {
    hide Intact, CanCopy;
  }

  lemma RestRoom(db: Db)
    requires Resting(db)
    ensures RoomToRecover(Fresh(db.secSize, Seen(db.flash)))
  {
    hide NodeCrc, Quiet, FindOldest, Count, WfSector;
    SteadyShapes(db);
    SeenSelf(db);
    CalmIsQuiet(db);
    QuietRoom(Fresh(db.secSize, db.flash), {});
  }

  lemma PresentRoom(db: Db, t: nat, key: Key, value: seq<byte>, m: Table, x: nat)
    requires Resting(db) && Holds(db.flash, m) && 3 <= Count(db.flash, Empty)
    requires t < |db.flash| && NodeSize(key, value) < 0x1_0000_0000 && SpareRoom(db, NodeSize(key, value), t)
    requires Readable(key) && key in m && Formatted(db, t) && |db.log| <= x < |Replace(db, t, key, value).db.log|
    ensures RoomToRecover(Fresh(db.secSize, Seen(Replace(db, t, key, value).db.log[x])))
  {
    hide NodeCrc, ReadName, WfSector, WfShape, Find, Contents, WriteNode, CreateStages, NewNode, SpareRoom, Count, Calm, MarkDel,
         RoomToRecover, Fresh, Seen, Replace, Holds;
    ReplaceRuns(db, t, key, value, m);
    var l := Find(db, key).value;
    var node := NewNode(Write, key, value);
    NewNodeIs(Write, key, value);
    var d1 := MarkDel(db, l.sec, l.node, false);
    var d2 := CreateAt(d1, t, node);
    WriteLogGrows(d1, t, node);
    MarkLogs(db, l, false);
    MarkLogs(d2, l, true);
    if x < |d1.log| {
      MarkedRoom(db, l, x);
    } else if x < |d2.log| {
      WrittenRoom(db, l, t, d1, key, value, x);
    } else {
      LastMark(d1, d2, l, t, node);
      RestRoom(MarkDel(d2, l.sec, l.node, true));
    }
  }

  lemma AbsentRoom(db: Db, t: nat, key: Key, value: seq<byte>, m: Table, x: nat)
    requires Resting(db) && Holds(db.flash, m)
    requires t < |db.flash| && NodeSize(key, value) < 0x1_0000_0000 && SpareRoom(db, NodeSize(key, value), t)
    requires Readable(key) && key !in m && Formatted(db, t) && |db.log| <= x < |Replace(db, t, key, value).db.log|
    ensures RoomToRecover(Fresh(db.secSize, Seen(Replace(db, t, key, value).db.log[x])))
  {
    hide NodeCrc, ReadName, WfSector, WfShape, Find, Contents, WriteNode, CreateStages, NewNode, SpareRoom, Count, Calm,
         RoomToRecover, Seen, Opened, FillsUp, WfNode, CreateChecked, Quiet;
    SearchedAll(db);
    GetIsMapLookup(db, m, key);
    GetNone(db, key);
    var node := NewNode(Write, key, value);
    NewNodeIs(Write, key, value);
    CreateAdds(db, t, key, value);
    OpensUsing(db, node.Len(), t) by { SpareIsRoom(db, node.Len(), t); }
    EmptyHasNone(db, t);
    var opening, p := WriteStates(db, t, node, x);
    StageWf(db.flash[t], key, value, p);
    SteadyShapes(db);
    SeenHeld(db, t, p);
    CalmIsQuiet(db);
    QuietHeld(db.flash, t, p, {});
    var b := Loc(t, |db.flash[t].nodes|);
    assert {} + {b} == {b};
    NotPending(db.flash[t], p);
    QuietRoom(Fresh(db.secSize, db.flash[t := Hold(db.flash[t].(store := Using), p)]), {b});
  }

  lemma NotPending(sec: Sector, p: Node)
    requires IsHeadless(sec, p) || IsTorn(p) || Live(p)
    ensures !IsPending(p)
  {}

  /** Three empty sectors are enough for every state of a `set`. */
  lemma RoomForSet(db: Db, key: Key, value: seq<byte>, m: Table)
    requires Resting(db) && Holds(db.flash, m) && 3 <= Count(db.flash, Empty)
    requires Readable(key) && NodeSize(key, value) < 0x1_0000_0000
    requires AllocKv(Begin(db), NodeSize(key, value)).sec.Some?
    ensures forall x :: 0 <= x < |SetKv(db, key, value).db.log| ==>
      RoomToRecover(Fresh(db.secSize, Seen(SetKv(db, key, value).db.log[x])))
  {
    hide NodeCrc, ReadName, WfSector, WfShape, Contents, SpareRoom, Count, Calm, RoomToRecover, Fresh, Seen, Replace,
         AllocKv, Find, LogOldOrNew, Holds;
    var b, size := Begin(db), NodeSize(key, value);
    BeginRests(db);
    AllocSpares(b, size);
    var t := AllocKv(b, size).sec.value;
    RoomIsFormatted(b, size, t) by { SpareIsRoom(b, size, t); }
    if key in m {
      ReplacePresent(b, t, key, value, m);
    } else {
      ReplaceAbsent(b, t, key, value, m);
    }
    assert SetKv(db, key, value) == Replace(b, t, key, value);
    forall x | 0 <= x < |SetKv(db, key, value).db.log|
      ensures RoomToRecover(Fresh(db.secSize, Seen(SetKv(db, key, value).db.log[x])))
    {
      if x == 0 {
        RestRoom(db);
      } else if key in m {
        PresentRoom(b, t, key, value, m, x);
      } else {
        AbsentRoom(b, t, key, value, m, x);
      }
    }
  }

  // ------------------------------------------------------------ the set

  /** After a cut in the state `f` and opening, `key` reads as before or as set. */
  ghost predicate Survives(db: Db, f: seq<Sector>, key: Key, value: seq<byte>) {
    && db.oldest < |db.flash| && 0 < |f|
    && var d := Load(db.secSize, Seen(f), 1);
      d.Some? && d.value.oldest < |d.value.flash| && Get(d.value, key) in {Get(db, key), Some(value)}
  }

  /** A `set` that runs no collection survives every power cut exactly if the key is new, or the sector that
      takes its node is not scanned before that of the old node. */
  lemma SetSurvives(db: Db, key: Key, value: seq<byte>, m: Table)
    requires Resting(db) && Holds(db.flash, m)
    requires Readable(key) && NodeSize(key, value) < 0x1_0000_0000
    requires AllocKv(Begin(db), NodeSize(key, value)).sec.Some?
    requires forall x :: 0 <= x < |SetKv(db, key, value).db.log| ==>
      RoomToRecover(Fresh(db.secSize, Seen(SetKv(db, key, value).db.log[x])))
    ensures key in m ==> Find(db, key).Some?
    ensures var log, t := SetKv(db, key, value).db.log, AllocKv(Begin(db), NodeSize(key, value)).sec.value;
      (forall x :: 0 <= x < |log| ==> Survives(db, log[x], key, value))
      <==> (key in m ==> !ScansFirst(db.flash, t, Find(db, key).value.sec))
  {
    hide NodeCrc, ReadName, WfSector, WfShape, Contents, SpareRoom, Count, Calm, Recovers, RoomToRecover, Fresh, Seen, Replace,
         AllocKv, Find, LogOldOrNew, Holds, TornFirst, ScansFirst, SetKv, Survives;
    var log := SetKv(db, key, value).db.log;
    forall x | 0 <= x < |log| ensures Survives(db, log[x], key, value) <==> !TornFirst(Fresh(db.secSize, Seen(log[x]))) {
      PowerCut(db, key, value, m, x);
      SurvivesIf(db, log[x], key, value, m);
    }
    var w := SetOrder(db, key, value, m);
  }

  lemma SurvivesIf(db: Db, f: seq<Sector>, key: Key, value: seq<byte>, m: Table)
    requires Resting(db) && Holds(db.flash, m) && Recovers(db.secSize, Seen(f), key, value, m)
    ensures Survives(db, f, key, value) <==> !TornFirst(Fresh(db.secSize, Seen(f)))
  {
    hide NodeCrc, Recovers, Fresh, Seen, Holds, TornFirst, Get, Load;
    RecoversLookup(db, Seen(f), key, value, m, key);
  }

  lemma SetOrder(db: Db, key: Key, value: seq<byte>, m: Table) returns (w: nat)
    requires Resting(db) && Holds(db.flash, m)
    requires Readable(key) && NodeSize(key, value) < 0x1_0000_0000
    requires AllocKv(Begin(db), NodeSize(key, value)).sec.Some?
    requires forall x :: 0 <= x < |SetKv(db, key, value).db.log| ==>
      RoomToRecover(Fresh(db.secSize, Seen(SetKv(db, key, value).db.log[x])))
    ensures key in m ==> Find(db, key).Some?
    ensures var log, t := SetKv(db, key, value).db.log, AllocKv(Begin(db), NodeSize(key, value)).sec.value;
      var first := key in m && ScansFirst(db.flash, t, Find(db, key).value.sec);
      && (first ==> w < |log| && TornFirst(Fresh(db.secSize, Seen(log[w]))))
      && (!first ==> forall x :: 0 <= x < |log| ==> !TornFirst(Fresh(db.secSize, Seen(log[x]))))
  {
    hide NodeCrc, ReadName, WfSector, WfShape, Contents, SpareRoom, Count, Calm, RoomToRecover, Fresh, Seen, Replace,
         AllocKv, Find, LogOldOrNew, Holds, TornFirst, ScansFirst;
    w := 0;
    var log := SetKv(db, key, value).db.log;
    if key in m {
      var b := Begin(db);
      BeginRests(db);
      FindIgnoresLog(db, key);
      var size := NodeSize(key, value);
      AllocSpares(b, size);
      var t := AllocKv(b, size).sec.value;
      RoomIsFormatted(b, size, t) by { SpareIsRoom(b, size, t); }
      ReplacePresent(b, t, key, value, m);
      assert SetKv(db, key, value) == Replace(b, t, key, value);
      RestOrder(db);
      w := PresentOrder(b, t, key, value, m);
    } else {
      forall x | 0 <= x < |log| ensures !TornFirst(Fresh(db.secSize, Seen(log[x]))) {
        PowerCut(db, key, value, m, x);
      }
    }
  }

  // ------------------------------------------------------------ a key lost

  /** Five sectors of 4096 bytes; the keys 1 and 2 have the same long value `v`, each in a sector of its own. */
  function TwoKeys(v: seq<byte>): Db
    requires |v| == 2000
  {
    var free := Sector(Empty, False, []);
    var flash := [Holding([1], v), Holding([2], v), free, free, free];
    Db(4096, flash, 0, false, false, [flash])
  }

  function Holding(key: Key, v: seq<byte>): Sector
    requires |key| == 1 && |v| == 2000
  {
    Sector(Using, False, [NewNode(Write, key, v)])
  }

  lemma HoldingIs(key: Key, v: seq<byte>)
    requires |key| == 1 && |v| == 2000
    ensures var sec := Holding(key, v); var node := NewNode(Write, key, v);
      && sec == Sector(Using, False, [node]) && Live(node) && EntryOf(node) == (key, v) && node.Len() == 2025
      && Used(sec.nodes) == 2025 && WfSector(sec, 4096) && CalmSector(sec)
      && SectorEntries(sec, false) == multiset{(key, v)}
      && forall k: Key :: Matches(node, k) <==> k == key
  {
    hide NodeCrc;
    NewEntry(key, v, false);
    NewNodeIs(Write, key, v);
    var node := NewNode(Write, key, v);
    assert Off([node], 1) == Off([node], 0) + node.Len();
    assert EntriesTo([node], 1, false) == EntriesTo([node], 0, false) + NodeEntries(node, false);
  }

  function TwoEntries(v: seq<byte>): Table {
    map[[1] := v][[2] := v]
  }

  lemma TwoKeysRest(v: seq<byte>)
    requires |v| == 2000
    ensures var db := TwoKeys(v); Resting(db) && Count(db.flash, Empty) == 3
  {
    hide Holding, WfSector, CalmSector, Contents;
    HoldingIs([1], v);
    HoldingIs([2], v);
    EmptySectorIs();
    var flash := TwoKeys(v).flash;
    assert CountStore(flash, Empty, 0, 2) == CountStore(flash, Empty, 0, 1) == 0;
    assert CountStore(flash, Empty, 0, 4) == 1 + CountStore(flash, Empty, 0, 3) == 2 + CountStore(flash, Empty, 0, 2);
    assert CountStore(flash, Empty, 0, 5) == 1 + CountStore(flash, Empty, 0, 4);
  }

  lemma TwoKeysHold(v: seq<byte>)
    requires |v| == 2000
    ensures Holds(TwoKeys(v).flash, TwoEntries(v))
  {
    hide Holding, SectorEntries, WfSector, CalmSector, NewNode, Live, EntryOf, Entries, Contents, Matches;
    HoldingIs([1], v);
    HoldingIs([2], v);
    EmptySectorIs();
    var flash := TwoKeys(v).flash;
    FiveSectors(flash);
    NoneEntries();
    EntriesNew(map[], [1], v);
    EntriesNew(map[[1] := v], [2], v);
  }

  lemma FiveSectors(flash: seq<Sector>)
    requires |flash| == 5 && forall i :: 2 <= i < 5 ==> SectorEntries(flash[i], false) == multiset{}
    ensures Contents(flash, false) == SectorEntries(flash[0], false) + SectorEntries(flash[1], false)
  {
    hide SectorEntries;
    assert FlashTo(flash, 1, false) == FlashTo(flash, 0, false) + SectorEntries(flash[0], false);
    assert FlashTo(flash, 2, false) == FlashTo(flash, 1, false) + SectorEntries(flash[1], false);
    assert FlashTo(flash, 3, false) == FlashTo(flash, 2, false) + SectorEntries(flash[2], false);
    assert FlashTo(flash, 4, false) == FlashTo(flash, 3, false) + SectorEntries(flash[3], false);
    assert FlashTo(flash, 5, false) == FlashTo(flash, 4, false) + SectorEntries(flash[4], false);
  }

  lemma NoneEntries()
    ensures Entries(map[]) == {}
  {}

  lemma EmptySectorIs()
    ensures var sec := Sector(Empty, False, []);
      WfSector(sec, 4096) && CalmSector(sec) && SectorEntries(sec, false) == multiset{}
  {}

  /** The first sector has room for the new value of key 2, and is scanned before the sector of the old one. */
  lemma TwoKeysOrder(v: seq<byte>)
    requires |v| == 2000
    ensures var db := TwoKeys(v);
      && AllocKv(Begin(db), NodeSize([2], [7])).sec == Some(0)
      && Find(db, [2]) == Some(Loc(1, 0)) && ScansFirst(db.flash, 0, 1)
  {
    hide Holding, SectorEntries, WfSector, CalmSector, NewNode, Intact, Matches;
    HoldingIs([1], v);
    HoldingIs([2], v);
    var db := TwoKeys(v);
    assert HasRoom(Begin(db), Using, NodeSize([2], [7]), 0);
    var first, second := db.flash[0].nodes, db.flash[1].nodes;
    assert !Matches(first[0], [2]) && Matches(second[0], [2]);
    assert FindNode(first, [2], 0) == FindNode(first, [2], 1) == None;
    assert FindNode(second, [2], 0) == Some(0);
    assert FindFrom(db.flash, 0, [2], 0) == FindFrom(db.flash, 0, [2], 1);
    var f := db.flash[0 := db.flash[0].(store := Using)];
    assert f == db.flash;
    assert OldestFrom(f, 5, Empty, 0) == 0;
    assert OldestFrom(f, 3, Empty, 0) == OldestFrom(f, 4, Empty, 0);
    assert OldestFrom(f, 1, Using, 0) == OldestFrom(f, 2, Using, 0);
  }

  /** Setting key 2 to a short value, cut in state `w`, loses the key: it has neither its old nor its new value. */
  lemma KeyLost(v: seq<byte>) returns (w: nat)
    requires |v| == 2000
    ensures var db := TwoKeys(v);
      && Get(db, [2]) == Some(v)
      && w < |SetKv(db, [2], [7]).db.log|
      && var f := Seen(SetKv(db, [2], [7]).db.log[w]);
        && 0 < |f| && Load(4096, f, 1).Some? && Get(Load(4096, f, 1).value, [2]) == None
  {
    hide TwoKeys, AllocKv, ScansFirst, SetKv, Find, Get, Load, Resting, Holds, Count, Seen, Fresh, TornFirst, RoomToRecover, AllSearched;
    var db, m := TwoKeys(v), TwoEntries(v);
    TwoKeysRest(v);
    TwoKeysHold(v);
    TwoKeysOrder(v);
    ShortReadable();
    RoomForSet(db, [2], [7], m);
    w := SetOrder(db, [2], [7], m);
    PowerCut(db, [2], [7], m, w);
    SizeOfTwoKeys(db, v);
    RestSearched(db);
    GetIsMapLookup(db, m, [2]);
    GetIsMapLookup(Load(4096, Seen(SetKv(db, [2], [7]).db.log[w]), 1).value, m - {[2]}, [2]);
  }

  lemma ShortReadable()
    ensures Readable([2]) && NodeSize([2], [7]) < 0x1_0000_0000
  {}

  lemma SizeOfTwoKeys(db: Db, v: seq<byte>)
    requires |v| == 2000 && db == TwoKeys(v)
    ensures db.secSize == 4096 && db.oldest < |db.flash|
  {}

  lemma RestSearched(db: Db)
    requires Resting(db)
    ensures AllSearched(db.flash)
  {
    SearchedAll(db);
  }
}
