/** Logs on which a power cut does harm: one loses a record when a collection is interrupted and taken up again on
    opening, another one cannot be opened any more. */
module KvExamples {
  import opened Bytes
  import opened Wrappers
  import opened Sectors
  import opened KvModel
  import opened KvContents
  import opened KvInvariant
  import opened KvGc
  import opened KvMap
  import opened KvLoad
  import opened KvCrash
  import opened KvPowerCut
  import opened KvResume
  import opened KvRetry

  /** Three values, of 15, 60 and 100 bytes. */
  datatype Values = Values(a: seq<byte>, b: seq<byte>, c: seq<byte>)

  predicate Sizes(v: Values) {
    |v.a| == 15 && |v.b| == 60 && |v.c| == 100
  }

  function Rec(key: Key, value: seq<byte>): Node
    requires |key| == 1 && |value| <= 100
  {
    NewNode(Write, key, value)
  }

  /** A deleted record. */
  function Gone(): Node {
    NewNode(Deleted, [9], [])
  }

  function Dead(value: seq<byte>): Node
    requires |value| <= 100
  {
    NewNode(Deleted, [1], value)
  }

  /** Three sectors of 256 bytes. Keys 1 and 2 are in the second one, key 3 is in the first, both with a deleted record
      beside them; the ring begins at the second sector. */
  function Before(v: Values): Db
    requires Sizes(v)
  {
    var flash := [Sector(Using, True, [Gone(), Rec([3], v.c)]), Sector(Using, True, [Rec([1], v.a), Rec([2], v.b), Gone()]), Sector(Empty, False, [])];
    Db(256, flash, 1, true, false, [flash])
  }

  /** The medium after the first move of a collection. */
  function Cut(v: Values): seq<Sector>
    requires Sizes(v)
  {
    [Sector(Using, True, [Gone(), Rec([3], v.c)]),
     Sector(Using, Gc, [Dead(v.a), Rec([2], v.b), Gone()]),
     Sector(Using, False, [Rec([1], v.a)])]
  }

  function Three(v: Values): Table {
    map[[1] := v.a][[2] := v.b][[3] := v.c]
  }

  function Two(v: Values): Table {
    map[[1] := v.a][[2] := v.b]
  }

  lemma RecIs(key: Key, value: seq<byte>)
    requires |key| == 1 && |value| <= 100
    ensures var node := Rec(key, value);
      && Live(node) && node.st == Write && node.nameLen == 1 && |node.data| == 1 + |value| && node.Len() == 25 + |value|
      && WfNode(node) && EntryOf(node) == (key, value)
      && NodeEntries(node, false) == multiset{(key, value)}
    ensures key == [1] ==>
      var node := Dead(value);
      && Intact(node) && node.st == Deleted && node.Len() == 25 + |value| && WfNode(node) && NodeEntries(node, false) == multiset{}
      && node == Rec(key, value).(st := Deleted)
  {
    hide NodeCrc;
    NewEntry(key, value, false);
    NewNodeIs(Write, key, value);
  }

  lemma GoneIs()
    ensures Intact(Gone()) && Gone().st == Deleted && Gone().Len() == 25 && WfNode(Gone()) && NodeEntries(Gone(), false) == multiset{}
  {
    hide NodeCrc;
  }

  lemma TwoNodes(a: Node, b: Node)
    ensures Used([a]) == a.Len() && Used([a, b]) == a.Len() + b.Len()
    ensures forall st, dirty :: SectorEntries(Sector(st, dirty, [a]), false) == NodeEntries(a, false)
    ensures forall st, dirty :: SectorEntries(Sector(st, dirty, [a, b]), false) == NodeEntries(a, false) + NodeEntries(b, false)
  {
    hide NodeEntries;
    assert Off([a, b], 2) == Off([a, b], 1) + b.Len() && Off([a, b], 1) == Off([a, b], 0) + a.Len();
    assert Off([a], 1) == Off([a], 0) + a.Len();
    assert EntriesTo([a], 1, false) == EntriesTo([a], 0, false) + NodeEntries(a, false);
    assert EntriesTo([a, b], 2, false) == EntriesTo([a, b], 1, false) + NodeEntries(b, false);
    assert EntriesTo([a, b], 1, false) == EntriesTo([a, b], 0, false) + NodeEntries(a, false);
  }

  lemma ThreeNodes(a: Node, b: Node, c: Node)
    ensures Used([a, b, c]) == a.Len() + b.Len() + c.Len()
    ensures forall st, dirty :: SectorEntries(Sector(st, dirty, [a, b, c]), false) == NodeEntries(a, false) + NodeEntries(b, false) + NodeEntries(c, false)
  {
    hide NodeEntries;
    var s := [a, b, c];
    assert Off(s, 3) == Off(s, 2) + c.Len() && Off(s, 2) == Off(s, 1) + b.Len() && Off(s, 1) == Off(s, 0) + a.Len();
    assert EntriesTo(s, 3, false) == EntriesTo(s, 2, false) + NodeEntries(c, false);
    assert EntriesTo(s, 2, false) == EntriesTo(s, 1, false) + NodeEntries(b, false);
    assert EntriesTo(s, 1, false) == EntriesTo(s, 0, false) + NodeEntries(a, false);
  }

  lemma ThreeSectors(f: seq<Sector>)
    requires |f| == 3
    ensures Contents(f, false) == SectorEntries(f[0], false) + SectorEntries(f[1], false) + SectorEntries(f[2], false)
    ensures Count(f, Empty) == (if HasStore(f[0], Empty) then 1 else 0) + (if HasStore(f[1], Empty) then 1 else 0) + (if HasStore(f[2], Empty) then 1 else 0)
  {
    hide SectorEntries, HasStore;
    assert FlashTo(f, 3, false) == FlashTo(f, 2, false) + SectorEntries(f[2], false);
    assert FlashTo(f, 2, false) == FlashTo(f, 1, false) + SectorEntries(f[1], false);
    assert FlashTo(f, 1, false) == FlashTo(f, 0, false) + SectorEntries(f[0], false);
    assert CountStore(f, Empty, 0, 3) == (if HasStore(f[2], Empty) then 1 else 0) + CountStore(f, Empty, 0, 2);
    assert CountStore(f, Empty, 0, 2) == (if HasStore(f[1], Empty) then 1 else 0) + CountStore(f, Empty, 0, 1);
    assert CountStore(f, Empty, 0, 1) == (if HasStore(f[0], Empty) then 1 else 0) + CountStore(f, Empty, 0, 0);
  }

  lemma Facts(v: Values)
    requires Sizes(v)
    ensures var a, b, c, g := Rec([1], v.a), Rec([2], v.b), Rec([3], v.c), Gone();
      && a.Len() == 40 && b.Len() == 85 && c.Len() == 125 && g.Len() == 25
      && Used([g, c]) == 150 && Used([a, b, g]) == 150 && Used([Dead(v.a), b, g]) == 150 && Used([a]) == 40
    ensures Contents(Before(v).flash, false) == multiset(Entries(Three(v)))
    ensures Contents(Cut(v)[0 := Sector(Empty, False, [])], false) == multiset(Entries(Two(v)))
    ensures Count(Before(v).flash, Empty) == 1 && Count(Cut(v), Empty) == 0
  {
    hide NodeCrc, NodeEntries, SectorEntries, Rec, Dead, Gone, Entries, CountStore, FlashTo;
    var a, b, c, g := Rec([1], v.a), Rec([2], v.b), Rec([3], v.c), Gone();
    RecIs([1], v.a);
    RecIs([2], v.b);
    RecIs([3], v.c);
    GoneIs();
    TwoNodes(g, c);
    TwoNodes(a, b);
    ThreeNodes(a, b, g);
    ThreeNodes(Dead(v.a), b, g);
    ThreeSectors(Before(v).flash);
    ThreeSectors(Cut(v)[0 := Sector(Empty, False, [])]);
    ThreeSectors(Cut(v));
    EmptyHolds();
    EntriesNew(map[], [1], v.a);
    EntriesNew(map[[1] := v.a], [2], v.b);
    EntriesNew(Two(v), [3], v.c);
  }

  lemma EmptyHolds()
    ensures SectorEntries(Sector(Empty, False, []), false) == multiset{} && Entries(map[]) == {}
  {}

  lemma BeforeIs(v: Values)
    requires Sizes(v)
    ensures Collectable(Before(v)) && NoneBegun(Before(v).flash) && Holds(Before(v).flash, Three(v))
  {
    hide NodeCrc, Rec, Dead, Gone, Contents, Count, Used, Entries;
    Facts(v);
    RecIs([1], v.a);
    RecIs([2], v.b);
    RecIs([3], v.c);
    GoneIs();
    NoBytes();
    var flash := Before(v).flash;
    assert CalmSector(flash[0]) && CalmSector(flash[1]) && CalmSector(flash[2]);
  }

  lemma NoBytes()
    ensures Used([]) == 0
  {}

  /** The first move takes the record of key 1 to the empty sector. */
  lemma FirstMove(v: Values)
    requires Sizes(v)
    ensures MidCollection(Before(v), 1, 1).flash == Cut(v)
  {
    hide NodeCrc, Rec, Dead, Gone, Contents, Count, Used, Entries, Collecting, GcNodes, MoveKv, CarrierBytes, Carrier, Collectable;
    BeforeIs(v);
    Facts(v);
    RecIs([1], v.a);
    var db := Before(v);
    var sec := db.flash[1].(dirty := Gc);
    var d1 := Rewrite(db, 1, [sec]);
    StartsMoving(v, d1);
    var taken, t := MoveCopies(d1, 1, 0, 1, None, CarrierBytes(sec.nodes, 0));
    OneNode(d1, 1);
    var m := MoveKv(d1, 1, 0).db;
    assert t == 2;
    assert m.flash[1] == MarkedSector(sec, 0, Deleted) == Cut(v)[1];
    assert db.flash[2].nodes + [Rec([1], v.a)] == [Rec([1], v.a)];
    assert Rec([1], v.a).(st := Write) == Rec([1], v.a);
    assert m.flash[2] == Cut(v)[2];
    assert m.flash == Cut(v);
  }

  lemma StartsMoving(v: Values, d1: Db)
    requires Sizes(v) && Collectable(Before(v))
    requires d1 == Rewrite(Before(v), 1, [Before(v).flash[1].(dirty := Gc)])
    ensures var sec := Before(v).flash[1].(dirty := Gc);
      && Collecting(d1, 1, 0, 1, None, CarrierBytes(sec.nodes, 0)) && d1.flash == Before(v).flash[1 := sec]
      && Carrier(d1.flash[1].nodes[0]) && !Dropped(d1, d1.flash[1].nodes[0])
  {
    hide NodeCrc, Rec, Dead, Gone, Contents, Count, Used, Entries, Collecting, CarrierBytes, Collectable, WfSector;
    var db := Before(v);
    Facts(v);
    RecIs([1], v.a);
    CollectableWf(db);
    DirtyUsing(db, 1);
    DirtyStep(db, 1);
  }

  lemma CollectableWf(db: Db)
    requires Collectable(db)
    ensures WfDb(db)
  {
    hide WfSector;
  }

  lemma OneNode(db: Db, i: nat)
    requires db.oldest < |db.flash| && Formatted(db, i) && 1 <= |db.flash[i].nodes| && Carrier(db.flash[i].nodes[0])
    ensures GcNodes(db, i, 0, 1) == MoveKv(db, i, 0).db
  {
    hide MoveKv, Carrier;
  }

  lemma CutIs(v: Values)
    requires Sizes(v)
    ensures var e := Fresh(256, Cut(v));
      && e.oldest == 0 && Shaped(e) && QuietExcept(Cut(v), {}) && !NoneBegun(Cut(v))
      && Crowded(e.(gcRequest := true), 0)
  {
    hide NodeCrc, Rec, Dead, Gone, Contents, Count, Used, Entries;
    Facts(v);
    RecIs([1], v.a);
    RecIs([2], v.b);
    RecIs([3], v.c);
    GoneIs();
    var f := Cut(v);
    OldestIs(f, 0);
    assert !Unvictimized(f[1]);
    var g := Fresh(256, f).(gcRequest := true);
    assert Remain(g, 2) == 200;
  }

  /** A cut after that move: opening begins with the first sector, for whose record of key 3 there is no room, and erases
      it. The key was there before the collection, which no error reports. */
  lemma CollectionLost(v: Values)
    requires Sizes(v)
    ensures var db := Before(v); var f := MidCollection(db, 1, 1).flash;
      && Collectable(db) && NoneBegun(db.flash) && Get(db, [3]) == Some(v.c)
      && 0 < |f| && Load(256, f, 1).Some? && Get(Load(256, f, 1).value, [3]) == None
  {
    hide NodeCrc, Rec, Dead, Gone, Contents, Count, Used, Entries, MidCollection, Load, Get, Collectable, Shaped, Crowded, QuietExcept, NoneBegun, Cut, Fresh;
    var db := Before(v);
    BeforeIs(v);
    FirstMove(v);
    Facts(v);
    CutIs(v);
    CutFirst(v);
    OpenLoses(256, Cut(v), 0, Two(v));
    CollectableWf(db);
    SearchedAll(db);
    GetIsMapLookup(db, Three(v), [3]);
    GetIsMapLookup(Load(256, Cut(v), 1).value, Two(v), [3]);
  }

  lemma CutFirst(v: Values)
    requires Sizes(v)
    ensures |Cut(v)| == 3 && Fresh(256, Cut(v)).flash == Cut(v) && RingPos(0, 0, 3) == 0
  {}

  // ------------------------------------------------------------ a log that never opens

  /** Two sectors of 256 bytes, of which the first holds the record of key 1. */
  function OneKey(c: seq<byte>): Db
    requires |c| == 100
  {
    var flash := [Sector(Using, False, [Rec([1], c)]), Sector(Empty, False, [])];
    Db(256, flash, 0, false, false, [flash])
  }

  lemma OneKeyRests(c: seq<byte>)
    requires |c| == 100
    ensures Resting(OneKey(c)) && Holds(OneKey(c).flash, map[[1] := c]) && Count(OneKey(c).flash, Empty) == 1
    ensures Used([Rec([1], c)]) == 125
  {
    hide NodeCrc, Rec, NodeEntries, Contents, Entries;
    RecIs([1], c);
    TwoNodes(Rec([1], c), Rec([1], c));
    NoBytes();
    EmptyHolds();
    var flash := OneKey(c).flash;
    assert CalmSector(flash[0]) && CalmSector(flash[1]);
    TwoSectors(flash);
    EntriesNew(map[], [1], c);
  }

  lemma TwoSectors(f: seq<Sector>)
    requires |f| == 2
    ensures Contents(f, false) == SectorEntries(f[0], false) + SectorEntries(f[1], false)
    ensures Count(f, Empty) == (if HasStore(f[0], Empty) then 1 else 0) + (if HasStore(f[1], Empty) then 1 else 0)
  {
    hide SectorEntries, HasStore;
    assert FlashTo(f, 2, false) == FlashTo(f, 1, false) + SectorEntries(f[1], false);
    assert FlashTo(f, 1, false) == FlashTo(f, 0, false) + SectorEntries(f[0], false);
    assert CountStore(f, Empty, 0, 2) == (if HasStore(f[1], Empty) then 1 else 0) + CountStore(f, Empty, 0, 1);
    assert CountStore(f, Empty, 0, 1) == (if HasStore(f[0], Empty) then 1 else 0) + CountStore(f, Empty, 0, 0);
  }

  function Marked(c: seq<byte>): seq<Sector>
    requires |c| == 100
  {
    [Sector(Using, False, [NewNode(PreDelete, [1], c)]), Sector(Empty, False, [])]
  }

  lemma MarkedIs(c: seq<byte>)
    requires |c| == 100
    ensures var node := NewNode(PreDelete, [1], c);
      && IsPending(node) && node.Len() == 125 && WfNode(node) && Used([node]) == 125
      && node == Rec([1], c).(st := PreDelete)
  {
    hide NodeCrc;
    NewNodeIs(PreDelete, [1], c);
    TwoNodes(NewNode(PreDelete, [1], c), Gone());
  }

  /** Marking the record comes first; the sector is not dirty yet. */
  lemma FirstMark(c: seq<byte>)
    requires |c| == 100
    ensures var db := OneKey(c);
      && AllocKv(Begin(db), NodeSize([1], [])).sec.Some?
      && 1 < |SetKv(db, [1], []).db.log| && SetKv(db, [1], []).db.log[1] == Marked(c)
  {
    hide NodeCrc, Rec, Contents, Entries, Used, WfSector, Find, Matches, CreateAt, Resting, Count, NewNode, Holds;
    var db, m := OneKey(c), map[[1] := c];
    OneKeyRests(c);
    RecIs([1], c);
    MarkedIs(c);
    var b := Begin(db);
    BeginRests(db);
    RoomInFirst(c);
    AllocSpares(b, 25);
    AllocUsing(b, 25, 0);
    var t := AllocKv(b, 25).sec.value;
    OneReadable();
    RoomIsFormatted(b, 25, t) by { SpareIsRoom(b, 25, t); }
    ReplaceRuns(b, t, [1], [], m);
    var l := Find(b, [1]).value;
    assert l == Loc(0, 0);
    var d1 := MarkDel(b, 0, 0, false);
    var node := NewNode(Write, [1], []);
    NewNodeIs(Write, [1], []);
    var d2 := CreateAt(d1, t, node);
    WriteLogGrows(d1, t, node);
    MarkLogs(d2, l, true);
    assert SetKv(db, [1], []) == Replace(b, t, [1], []);
    MarkIsFirst(c, b);
  }

  lemma MarkIsFirst(c: seq<byte>, b: Db)
    requires |c| == 100 && b == Begin(OneKey(c)) && Rec([1], c).Node?
    ensures var d := MarkDel(b, 0, 0, false); 1 < |d.log| && d.log[1] == Marked(c)
  {
    hide NodeCrc;
    MarkedIs(c);
    var node := Rec([1], c);
    var sec := b.flash[0];
    assert [node][0 := node.(st := PreDelete)] == [node.(st := PreDelete)];
    assert MarkNode(sec, 0, PreDelete) == Marked(c)[0];
    var steps := MarkSteps(sec, 0, PreDelete);
    assert steps[0] == Marked(c)[0];
    assert b.flash[0 := steps[0]] == Marked(c);
    assert MarkDel(b, 0, 0, false).log[1] == b.flash[0 := steps[0]];
  }

  lemma OneReadable()
    ensures Readable([1]) && NodeSize([1], []) == 25
  {}

  lemma RoomInFirst(c: seq<byte>)
    requires |c| == 100
    ensures HasRoom(Begin(OneKey(c)), Using, 25, 0)
  {
    hide Rec, Used;
    OneKeyRests(c);
  }

  lemma MarkedStuck(c: seq<byte>)
    requires |c| == 100
    ensures Seen(Marked(c)) == Marked(c) && Stuck(Fresh(256, Marked(c)))
  {
    hide NodeCrc, NewNode, Used, Tidied, IsPending, WfNode, Count;
    MarkedIs(c);
    NoBytes();
    var e := Fresh(256, Marked(c));
    TwoSectors(Marked(c));
    OldestIs(Marked(c), 0);
    TidyIdle(e);
    forall t: nat | t < 2 ensures !SpareRoom(e, 125, t) {
      assert Remain(e, 0) == 115;
    }
    assert StuckAt(e, Loc(0, 0));
  }

  /** The record of key 1 is replaced by a shorter one. A cut after the first write leaves a medium on which opening, as the
      engine does it, never ends: there is no room to restore the old record and nothing to collect. */
  lemma NeverOpens(c: seq<byte>)
    requires |c| == 100
    ensures var db := OneKey(c);
      && Resting(db) && Holds(db.flash, map[[1] := c])
      && 1 < |SetKv(db, [1], []).db.log|
      && var f := Seen(SetKv(db, [1], []).db.log[1]);
        0 < |f| && forall rounds: nat :: Load(256, f, rounds) == None
  {
    hide NodeCrc, Rec, Contents, Entries, Used, WfSector, Resting, Count, NewNode, Holds, AllocKv, SetKv, Stuck, Retried, Load, Seen, Fresh, Marked;
    OneKeyRests(c);
    FirstMark(c);
    OneReadable();
    CutRetries(OneKey(c), [1], [], map[[1] := c], 1);
    MarkedStuck(c);
  }
}
