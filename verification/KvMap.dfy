/** The key-value log refines a finite map: what `set`, `del` and `get` do to the log is what they
    do to the map, and every write on the way keeps the old or the new value of the key. */
module KvMap {
  import opened Bytes
  import opened Wrappers
  import opened Sectors
  import opened KvModel
  import opened KvContents
  import opened KvInvariant
  import opened KvGc

  type Key = seq<byte>
  type Table = map<Key, seq<byte>>

  /** No collection under way, and an empty sector in reserve. */
  ghost predicate Steady(db: Db) {
    && WfDb(db)
    && !db.gcRequest && !db.recovering
    && (forall x :: 0 <= x < |db.flash| ==> Unvictimized(db.flash[x]))
    && 0 < Count(db.flash, Empty)
  }

  /** Between operations also nothing is half deleted. */
  ghost predicate Resting(db: Db) {
    Steady(db) && Calm(db.flash)
  }

  /** Names that read back as they were written: shorter than 64 bytes, or ending in a zero byte there. */
  predicate Readable(key: Key) {
    |key| <= KV_NAME_MAX && ReadName(key) == key
  }

  /** The name under which a key is stored. */
  function StoredKey(key: Key): (k: Key)
    ensures |key| > KV_NAME_MAX || Readable(key) ==> k == key
  {
    if |key| <= KV_NAME_MAX then ReadName(key) else key
  }

  /** The key reads back as it was written, or it is stored under a name that is not taken. */
  predicate Storable(key: Key, m: Table) {
    |key| <= KV_NAME_MAX ==> Readable(key) || ReadName(key) !in m
  }

  // ------------------------------------------------------------ allocation at rest

  /** Room that leaves an empty sector in reserve. */
  predicate SpareRoom(db: Db, size: nat, t: nat)
    requires t < |db.flash|
  {
    HasRoom(db, Using, size, t) || (HasRoom(db, Empty, size, t) && 1 < Count(db.flash, Empty))
  }

  /** At rest, allocation finds room exactly when there is some that spares the last empty sector. */
  lemma AllocSpares(db: Db, size: nat)
    requires db.oldest < |db.flash| && !db.gcRequest
    ensures var a := AllocKv(db, size);
      && (a.sec.Some? ==> a.db == db && SpareRoom(db, size, a.sec.value))
      && (a.sec.None? ==> forall t :: 0 <= t < |db.flash| ==> !SpareRoom(db, size, t))
      && (a.db.gcRequest <==> a.sec.None? && Count(db.flash, Empty) == 1)
  {
    hide HasRoom, AllocScan;
    var a := AllocKv(db, size);
    if a.sec.None? {
      forall t | 0 <= t < |db.flash| ensures !SpareRoom(db, size, t) {
        var x := Steps(db.oldest, t, |db.flash|);
        if HasRoom(db, Using, size, t) {
          RoomIsFormatted(db, size, t);
          RoomHasStore(db, Using, size, t);
          CountPositive(db.flash, Using, t, |db.flash|);
          AllocScanFinds(db, Using, size, 0, x);
        }
        if HasRoom(db, Empty, size, t) && 1 < Count(db.flash, Empty) {
          AllocScanFinds(db, Empty, size, 0, x);
        }
      }
    }
  }

  lemma RoomHasStore(db: Db, want: StoreStatus, size: nat, t: nat)
    requires t < |db.flash| && HasRoom(db, want, size, t)
    ensures HasStore(db.flash[t], want)
  {}

  ghost predicate NoSpare(db: Db, size: nat) {
    forall t :: 0 <= t < |db.flash| ==> !SpareRoom(db, size, t)
  }

  /** There is no spare room and, if a collection is in order, none after it either. */
  ghost predicate FullFor(db: Db, size: nat)
    requires db.oldest < |db.flash|
  {
    NoSpare(db, size) && (Count(db.flash, Empty) == 1 ==> NoSpare(GcCollect(db.(gcRequest := true), size), size))
  }

  /** At rest there is spare room in a sector in use that keeps more than the threshold free, or in an empty one
      if there is another. */
  lemma SpareMeans(db: Db, size: nat, t: nat)
    requires Steady(db) && t < |db.flash|
    ensures SpareRoom(db, size, t) <==>
      && db.flash[t].Sector? && 16 + Used(db.flash[t].nodes) + size + 88 < db.secSize
      && (db.flash[t].store == Using || (db.flash[t].store == Empty && exists x: nat :: x < |db.flash| && x != t && HasStore(db.flash[x], Empty)))
  {
    hide NodeCrc, WfNode, Off, CountStore;
    assert WfSector(db.flash[t], db.secSize) && Unvictimized(db.flash[t]);
    if db.flash[t].store == Empty {
      ShapedEmpty(db, t) by { WfIsShaped(db); }
      CountUpdate(db.flash, t, Raw, Empty, |db.flash|);
      var f := db.flash[t := Raw];
      if 1 < Count(db.flash, Empty) {
        var x := CountWitness(f, Empty, |f|);
        assert HasStore(db.flash[x], Empty);
      }
      if x: nat :| x < |db.flash| && x != t && HasStore(db.flash[x], Empty) {
        CountPositive(f, Empty, x, |f|);
      }
    }
  }

  /** Allocation takes the first sector of the ring that has room, one in use if there is any such. */
  lemma AllocFirst(db: Db, size: nat)
    requires db.oldest < |db.flash| && AllocKv(db, size).sec.Some?
    ensures var t := AllocKv(db, size).sec.value; var n := |db.flash|;
      && (HasRoom(db, Using, size, t) ==> forall x :: 0 <= x < Steps(db.oldest, t, n) ==> !HasRoom(db, Using, size, RingPos(db.oldest, x, n)))
      && (!HasRoom(db, Using, size, t) ==>
            && HasRoom(db, Empty, size, t)
            && (forall x :: 0 <= x < n ==> !HasRoom(db, Using, size, RingPos(db.oldest, x, n)))
            && forall x :: 0 <= x < Steps(db.oldest, t, n) ==> !HasRoom(db, Empty, size, RingPos(db.oldest, x, n)))
  {
    hide HasRoom, AllocScan;
    var t, n := AllocKv(db, size).sec.value, |db.flash|;
    ScanFirst(db, Using, size, 0);
    ScanFirst(db, Empty, size, 0);
    if AllocScan(db, Using, size, 0).None? || Count(db.flash, Using) == 0 {
      forall x | 0 <= x < n ensures !HasRoom(db, Using, size, RingPos(db.oldest, x, n)) {
        if HasRoom(db, Using, size, RingPos(db.oldest, x, n)) {
          RoomHasStore(db, Using, size, RingPos(db.oldest, x, n));
          CountPositive(db.flash, Using, RingPos(db.oldest, x, n), n);
          AllocScanFinds(db, Using, size, 0, x);
        }
      }
    }
  }

  lemma {:induction false} ScanFirst(db: Db, want: StoreStatus, size: nat, k: nat)
    requires db.oldest < |db.flash| && k <= |db.flash|
    ensures var r := AllocScan(db, want, size, k); var n := |db.flash|;
      r.Some? ==> k <= Steps(db.oldest, r.value, n) && HasRoom(db, want, size, r.value)
                  && forall x :: k <= x < Steps(db.oldest, r.value, n) ==> !HasRoom(db, want, size, RingPos(db.oldest, x, n))
    decreases |db.flash| - k
  {
    hide HasRoom;
    if k < |db.flash| {
      ScanFirst(db, want, size, k + 1);
    }
  }

  /** `new_kv` may collect, but keeps every entry; what it returns spares an empty sector. */
  lemma NewKvKeeps(db: Db, size: nat)
    requires Resting(db)
    ensures var a := NewKv(db, size);
      && Resting(a.db)
      && Preserves(db, a.db)
      && (a.sec.Some? ==> SpareRoom(a.db, size, a.sec.value))
      && (a.sec.None? <==> FullFor(db, size))
      && (a.sec.None? ==> NoSpare(a.db, size))
      && a.db.flash == (if !NoSpare(db, size) || Count(db.flash, Empty) != 1 then db.flash
                        else GcCollect(db.(gcRequest := true), size).flash)
  {
    hide Preserves, GcCollect, AllocKv, SpareRoom, WfSector, Calm, Count;
    SpareIs(db, size);
    PreservesSelf(db);
    AllocSpares(db, size);
    var a := AllocKv(db, size);
    if a.sec.None? && a.db.gcRequest {
      GcCollectKeeps(a.db, size);
      SpareIs(GcCollect(a.db, size), size);
      PreservesFrom(db, a.db, GcCollect(a.db, size));
      AllocSpares(GcCollect(a.db, size), size);
      SpareIgnoresRequest(GcCollect(a.db, size), size);
      var b := AllocKv(GcCollect(a.db, size), size);
      PreservesRequest(db, GcCollect(a.db, size), b.db.gcRequest);
      PreservesRequest(db, b.db, false);
    }
  }

  /** Allocation without a collection succeeds exactly if there is spare room. */
  lemma SpareIs(db: Db, size: nat)
    requires db.oldest < |db.flash| && !db.gcRequest
    ensures AllocKv(db, size).sec.None? <==> NoSpare(db, size)
  {
    hide AllocKv, SpareRoom;
    AllocSpares(db, size);
  }

  lemma PreservesFrom(db: Db, e: Db, d: Db)
    requires e == db.(gcRequest := e.gcRequest) && Preserves(e, d)
    ensures Preserves(db, d)
  {}

  lemma SpareIgnoresRequest(db: Db, size: nat)
    requires !db.gcRequest
    ensures forall t :: 0 <= t < |db.flash| && SpareRoom(db.(gcRequest := true), size, t) ==> SpareRoom(db, size, t)
  {}

  // ------------------------------------------------------------ storing one entry

  /** `create_kv_blob` in spare room succeeds and appends the node. */
  lemma CreateAdds(db: Db, t: nat, key: Key, value: seq<byte>)
    requires Steady(db)
    requires t < |db.flash| && |key| <= KV_NAME_MAX && NodeSize(key, value) < 0x1_0000_0000
    requires SpareRoom(db, NodeSize(key, value), t)
    ensures var node := NewNode(Write, key, value);
      var c := CreateChecked(db, t, key, value);
      && c.outcome == Done
      && Steady(c.db)
      && c.db.flash == db.flash[t := Hold(db.flash[t].(store := Using), node)]
      && c.db == CreateAt(db, t, node)
  {
    hide NodeCrc, WfSector, CreateStages, HasRoom, FillsUp, Opened, NewNode, CopyTo, CreateAt, Count, Contents, NodeEntries, WriteNode;
    var node := NewNode(Write, key, value);
    NewNodeIs(Write, key, value);
    RoomIsFormatted(db, node.Len(), t);
    OpensUsing(db, node.Len(), t);
    CreateAtAdds(db, t, node, true);
    WfIsShaped(db);
    RoomMeans(db, node.Len(), t);
    WfHold(db.flash[t], db.secSize, node);
    CountHold(db, node.Len(), t, node);
    HoldUnvictimized(db.flash[t], node);
  }

  lemma NewNodeIs(st: KvStatus, key: Key, value: seq<byte>)
    requires |key| <= KV_NAME_MAX && |key| + |value| < 0x1_0000_0000
    ensures var node := NewNode(st, key, value);
      && node.Node? && node.st == st && node.nameLen == |key| && node.data == key + value
      && node.Len() == NodeSize(key, value)
  {}

  lemma CountHold(db: Db, size: nat, t: nat, node: Node)
    requires t < |db.flash| && SpareRoom(db, size, t) && 0 < Count(db.flash, Empty)
    ensures Formatted(db, t) && 0 < Count(db.flash[t := Hold(db.flash[t].(store := Using), node)], Empty)
  {
    hide CountStore;
    CountUpdate(db.flash, t, Hold(db.flash[t].(store := Using), node), Empty, |db.flash|);
  }

  lemma HoldUnvictimized(sec: Sector, node: Node)
    requires sec.Sector? && Unvictimized(sec)
    ensures Unvictimized(Hold(sec.(store := Using), node))
  {}

  lemma MarkSteady(db: Db, i: nat, j: nat, complete: bool)
    requires Steady(db) && At(db, i, j) && Intact(db.flash[i].nodes[j])
    ensures var d := MarkDel(db, i, j, complete);
      && Steady(d)
      && d.flash == db.flash[i := MarkedSector(db.flash[i], j, if complete then Deleted else PreDelete)]
  {
    hide NodeCrc, WfSector;
    var st := if complete then Deleted else PreDelete;
    MarkDelTrades(db, i, j, complete, true);
    assert WfSector(db.flash[i], db.secSize) && Unvictimized(db.flash[i]);
    NotUnused(db.flash[i], db.secSize);
    ShapeOf(db.flash[i], db.secSize);
    WfMark(db.flash[i], db.secSize, j, st, True);
    CountUpdate(db.flash, i, MarkedSector(db.flash[i], j, st), Empty, |db.flash|);
  }

  lemma NotUnused(sec: Sector, secSize: nat)
    requires WfSector(sec, secSize)
    ensures sec.Sector? && sec.dirty != DirtyStatus.Unused
  {}

  lemma MarkSpares(db: Db, i: nat, j: nat, complete: bool, size: nat, t: nat)
    requires Steady(db) && At(db, i, j) && Intact(db.flash[i].nodes[j])
    requires t < |db.flash| && SpareRoom(db, size, t)
    ensures SpareRoom(MarkDel(db, i, j, complete), size, t)
  {
    hide NodeCrc, WfSector, MarkDel;
    var st := if complete then Deleted else PreDelete;
    MarkSteady(db, i, j, complete);
    assert WfSector(db.flash[i], db.secSize);
    OffUpdate(db.flash[i].nodes, j, db.flash[i].nodes[j].(st := st), |db.flash[i].nodes|);
    CountUpdate(db.flash, i, MarkedSector(db.flash[i], j, st), Empty, |db.flash|);
    WfIsShaped(db);
    ShapedEmpty(db, i);
  }

  // ------------------------------------------------------------ replacing an entry

  /** The states of a `set` of `key` to `value` on a log holding `m`: the entries that are kept are
      those of the map before, the same with the new entry added, or those of the map after. */
  ghost predicate OldOrNew(f: seq<Sector>, m: Table, key: Key, value: seq<byte>) {
    || Kept(f) == Entries(m)
    || Kept(f) == Entries(m) + {(key, value)}
    || Kept(f) == Entries(m[key := value])
  }

  ghost predicate LogOldOrNew(db: Db, base: nat, m: Table, key: Key, value: seq<byte>) {
    forall x :: base <= x < |db.log| ==> OldOrNew(db.log[x], m, key, value)
  }

  lemma EntriesKept(f: seq<Sector>, m: Table)
    requires Contents(f, true) == multiset(Entries(m))
    ensures Kept(f) == Entries(m)
  {
    hide Contents;
  }

  lemma HoldsKept(f: seq<Sector>, m: Table)
    requires Holds(f, m) && Calm(f)
    ensures Contents(f, true) == multiset(Entries(m)) && Kept(f) == Entries(m)
  {
    CalmFlash(f, |f|);
    hide FlashTo;
    EntriesKept(f, m);
  }

  lemma EntriesNew(m: Table, key: Key, value: seq<byte>)
    requires key !in m
    ensures Entries(m[key := value]) == Entries(m) + {(key, value)}
    ensures multiset(Entries(m[key := value])) == multiset(Entries(m)) + multiset{(key, value)}
  {
    var n := m[key := value];
    forall e: Entry ensures e in Entries(n) <==> e in Entries(m) + {(key, value)} {
      EntryIs(m, e);
      EntryIs(n, e);
    }
    assert Entries(n) == Entries(m) + {(key, value)};
    EntryIs(m, (key, value));
  }

  lemma EntriesReplaced(m: Table, key: Key, value: seq<byte>)
    requires key in m
    ensures Entries(m[key := value]) == Entries(m) - {(key, m[key])} + {(key, value)}
    ensures multiset(Entries(m[key := value])) + multiset{(key, m[key])} == multiset(Entries(m)) + multiset{(key, value)}
  {
    var n := m[key := value];
    var rest := Entries(m) - {(key, m[key])};
    forall e: Entry ensures e in Entries(n) <==> e in rest + {(key, value)} {
      EntryIs(m, e);
      EntryIs(n, e);
    }
    assert Entries(n) == rest + {(key, value)};
    EntryIs(m, (key, value));
    EntryIs(m, (key, m[key]));
    assert (key, value) !in rest;
    assert multiset(Entries(n)) == multiset(rest) + multiset{(key, value)};
    assert multiset(Entries(m)) == multiset(rest) + multiset{(key, m[key])};
  }

  lemma NewEntry(key: Key, value: seq<byte>, pd: bool)
    requires |key| <= KV_NAME_MAX && NodeSize(key, value) < 0x1_0000_0000
    ensures var node := NewNode(Write, key, value);
      NodeEntries(node, pd) == multiset{(ReadName(key), value)} && EntryOf(node) == (ReadName(key), value)
  {
    hide NodeCrc, ReadName;
    var node := NewNode(Write, key, value);
    assert node.data[..node.nameLen] == key && node.data[node.nameLen..] == value;
  }

  /** A name under which the map has nothing is not found. */
  lemma NotInMap(db: Db, m: Table, key: Key)
    requires WfDb(db) && Holds(db.flash, m) && |key| <= KV_NAME_MAX && ReadName(key) !in m
    ensures Find(db, key).None?
  {
    hide NodeCrc, ReadName, WfSector, Contents, Find;
    SearchedAll(db);
    GetIsMapLookup(db, m, key);
    GetNone(db, key);
    if Find(db, key).Some? {
      FoundIsReadable(db, key);
    }
  }

  /** A key the map does not have: one node is written, and its last write adds the entry. */
  lemma ReplaceAbsent(db: Db, t: nat, key: Key, value: seq<byte>, m: Table)
    requires Resting(db) && Holds(db.flash, m)
    requires t < |db.flash| && NodeSize(key, value) < 0x1_0000_0000 && SpareRoom(db, NodeSize(key, value), t)
    requires |key| <= KV_NAME_MAX && ReadName(key) !in m
    ensures Formatted(db, t)
    ensures var r := Replace(db, t, key, value);
      && r.outcome == Done
      && Resting(r.db)
      && Holds(r.db.flash, m[ReadName(key) := value])
      && |db.log| <= |r.db.log|
      && (forall x :: 0 <= x < |db.log| ==> r.db.log[x] == db.log[x])
      && LogOldOrNew(r.db, |db.log|, m, ReadName(key), value)
  {
    hide NodeCrc, ReadName, WfSector, Find, Contents, CopyTo, CreateAt, CreateStages, NewNode, SpareRoom, Count, CreateChecked, NodeEntries;
    RoomIsFormatted(db, NodeSize(key, value), t) by { SpareIsRoom(db, NodeSize(key, value), t); }
    NotInMap(db, m, key);
    CreateAdds(db, t, key, value);
    var node := NewNode(Write, key, value);
    NewNodeIs(Write, key, value);
    NewEntry(key, value, true);
    NewEntry(key, value, false);
    CreateAtAdds(db, t, node, true);
    CreateAtAdds(db, t, node, false);
    HoldsKept(db.flash, m);
    EntriesNew(m, ReadName(key), value);
    var d := Replace(db, t, key, value).db;
    CalmHold(db.flash, t, node);
    forall x | |db.log| <= x < |d.log| ensures OldOrNew(d.log[x], m, ReadName(key), value) {
      if x < |d.log| - 1 {
        EntriesKept(d.log[x], m);
      } else {
        EntriesKept(d.log[x], m[ReadName(key) := value]);
      }
    }
  }

  lemma SpareIsRoom(db: Db, size: nat, t: nat)
    requires t < |db.flash| && SpareRoom(db, size, t)
    ensures HasRoom(db, Using, size, t) || HasRoom(db, Empty, size, t)
  {}

  lemma SearchedAll(db: Db)
    requires WfDb(db)
    ensures AllSearched(db.flash)
  {
    forall i | 0 <= i < |db.flash| && db.flash[i].Sector? && !Searched(db.flash[i]) ensures db.flash[i].nodes == [] {
      assert WfSector(db.flash[i], db.secSize);
    }
  }

  lemma CalmHold(flash: seq<Sector>, t: nat, node: Node)
    requires Calm(flash) && t < |flash| && flash[t].Sector? && !Pending(node)
    ensures Calm(flash[t := Hold(flash[t].(store := Using), node)])
  {
    assert CalmSector(flash[t]);
  }

  /** What `Find` returns is the node that holds the key's entry. */
  lemma FoundNode(db: Db, m: Table, key: Key)
    requires WfDb(db) && Holds(db.flash, m) && Find(db, key).Some?
    ensures var hit := Find(db, key).value;
      && At(db, hit.sec, hit.node)
      && Live(db.flash[hit.sec].nodes[hit.node])
      && key in m
      && EntryOf(db.flash[hit.sec].nodes[hit.node]) == (key, m[key])
  {
    hide NodeCrc, ReadName, WfSector, Contents;
    SearchedAll(db);
    GetIsMapLookup(db, m, key);
    var hit := Find(db, key).value;
    MatchesIs(db.flash[hit.sec].nodes[hit.node], key);
  }

  /** The three parts of a replacement: mark, write, mark. */
  ghost predicate ReplaceSteps(db: Db, d1: Db, d2: Db, d3: Db, i: nat, j: nat, t: nat, node: Node) {
    && At(db, i, j) && Live(db.flash[i].nodes[j])
    && d1 == MarkDel(db, i, j, false)
    && Formatted(d1, t) && Intact(node) && node.st == Write && node.nameLen <= |node.data|
    && d2 == CreateAt(d1, t, node)
    && At(d2, i, j) && d2.flash[i].nodes[j] == db.flash[i].nodes[j].(st := PreDelete)
    && d3 == MarkDel(d2, i, j, true)
  }

  lemma ReplaceLive(db: Db, d1: Db, d2: Db, d3: Db, i: nat, j: nat, t: nat, node: Node)
    requires ReplaceSteps(db, d1, d2, d3, i, j, t, node)
    ensures Contents(d3.flash, false) + multiset{EntryOf(db.flash[i].nodes[j])}
         == Contents(db.flash, false) + multiset{EntryOf(node)}
  {
    hide NodeCrc, ReadName, Contents, CopyTo, CreateAt, MarkDel, NodeEntries, CreateStages;
    var gone := db.flash[i].nodes[j];
    var e, n := multiset{EntryOf(gone)}, multiset{EntryOf(node)};
    StatusEntries(gone, false);
    StatusEntries(node, false);
    assert gone.(st := Write) == gone && node.(st := Write) == node;
    assert gone.(st := PreDelete).(st := Deleted) == gone.(st := Deleted);
    MarkDelTrades(db, i, j, false, false);
    CreateAtAdds(d1, t, node, false);
    MarkDelTrades(d2, i, j, true, false);
    assert Contents(d1.flash, false) + e == Contents(db.flash, false);
    assert (Contents(d1.flash, false) + n) + e == (Contents(d1.flash, false) + e) + n;
    Cancel(Contents(d3.flash, false), Contents(d2.flash, false), multiset{});
  }

  lemma ReplaceKept(db: Db, d1: Db, d2: Db, d3: Db, i: nat, j: nat, t: nat, node: Node)
    requires ReplaceSteps(db, d1, d2, d3, i, j, t, node)
    ensures var c, n := Contents(db.flash, true), multiset{EntryOf(node)};
      && Contents(d3.flash, true) + multiset{EntryOf(db.flash[i].nodes[j])} == c + n
      && |db.log| < |d1.log| < |d2.log| < |d3.log|
      && (forall x :: 0 <= x < |db.log| ==> d3.log[x] == db.log[x])
      && (forall x :: |db.log| <= x < |d2.log| - 1 ==> Contents(d3.log[x], true) == c)
      && Contents(d3.log[|d2.log| - 1], true) == c + n
      && (forall x :: |d2.log| <= x < |d3.log| ==> Contents(d3.log[x], true) == Contents(d3.flash, true))
  {
    hide NodeCrc, ReadName, Contents, CopyTo, CreateAt, MarkDel, NodeEntries, CreateStages;
    var gone := db.flash[i].nodes[j];
    StatusEntries(gone, true);
    StatusEntries(node, true);
    assert gone.(st := Write) == gone && node.(st := Write) == node;
    assert gone.(st := PreDelete).(st := Deleted) == gone.(st := Deleted);
    MarkDelTrades(db, i, j, false, true);
    CreateAtAdds(d1, t, node, true);
    MarkDelTrades(d2, i, j, true, true);
    Cancel(Contents(d1.flash, true), Contents(db.flash, true), multiset{EntryOf(gone)});
  }

  lemma ReplaceCalm(flash: seq<Sector>, i: nat, j: nat, t: nat, node: Node)
    requires Calm(flash) && i < |flash| && flash[i].Sector? && j < |flash[i].nodes| && flash[i].nodes[j].Node?
    requires t < |flash| && flash[t].Sector? && !Pending(node)
    ensures var f := flash[i := MarkedSector(flash[i], j, PreDelete)];
      var g := f[t := Hold(f[t].(store := Using), node)];
      && g[i].Sector? && j < |g[i].nodes| && g[i].nodes[j] == flash[i].nodes[j].(st := PreDelete)
      && Calm(g[i := MarkedSector(g[i], j, Deleted)])
  {
    assert CalmSector(flash[i]) && CalmSector(flash[t]);
    var f := flash[i := MarkedSector(flash[i], j, PreDelete)];
    var g := f[t := Hold(f[t].(store := Using), node)];
    var h := g[i := MarkedSector(g[i], j, Deleted)];
    forall x | 0 <= x < |h| ensures CalmSector(h[x]) {
      assert CalmSector(flash[x]);
    }
  }

  /** A key the map has: the old node is marked, the new one written, the old one deleted. */
  lemma ReplaceRuns(db: Db, t: nat, key: Key, value: seq<byte>, m: Table)
    requires Resting(db) && Holds(db.flash, m)
    requires t < |db.flash| && NodeSize(key, value) < 0x1_0000_0000 && SpareRoom(db, NodeSize(key, value), t)
    requires Readable(key) && key in m
    ensures Formatted(db, t) && Find(db, key).Some?
    ensures var hit := Find(db, key).value;
      var node := NewNode(Write, key, value);
      && At(db, hit.sec, hit.node) && Live(db.flash[hit.sec].nodes[hit.node])
      && EntryOf(db.flash[hit.sec].nodes[hit.node]) == (key, m[key])
      && var d1 := MarkDel(db, hit.sec, hit.node, false);
      && Steady(d1) && Formatted(d1, t) && SpareRoom(d1, node.Len(), t)
      && d1.flash == db.flash[hit.sec := MarkedSector(db.flash[hit.sec], hit.node, PreDelete)]
      && var d2 := CreateAt(d1, t, node);
      && Steady(d2) && At(d2, hit.sec, hit.node)
      && d2.flash == d1.flash[t := Hold(d1.flash[t].(store := Using), node)]
      && d2.flash[hit.sec].nodes[hit.node] == db.flash[hit.sec].nodes[hit.node].(st := PreDelete)
      && Resting(MarkDel(d2, hit.sec, hit.node, true))
      && Replace(db, t, key, value) == Ended(MarkDel(d2, hit.sec, hit.node, true), Done)
  {
    hide NodeCrc, ReadName, WfSector, Find, Contents, CopyTo, CreateAt, CreateStages, NewNode, SpareRoom, Count,
         CreateChecked, Calm, MarkDel, CalmSector;
    RoomIsFormatted(db, NodeSize(key, value), t) by { SpareIsRoom(db, NodeSize(key, value), t); }
    SearchedAll(db);
    GetIsMapLookup(db, m, key);
    GetNone(db, key);
    FoundNode(db, m, key);
    var hit := Find(db, key).value;
    var i, j := hit.sec, hit.node;
    var node := NewNode(Write, key, value);
    NewNodeIs(Write, key, value);
    var d1 := MarkDel(db, i, j, false);
    MarkSteady(db, i, j, false);
    MarkSpares(db, i, j, false, NodeSize(key, value), t);
    CreateAdds(d1, t, key, value);
    var d2 := CreateChecked(d1, t, key, value).db;
    RoomIsFormatted(d1, NodeSize(key, value), t) by { SpareIsRoom(d1, NodeSize(key, value), t); }
    ReplaceCalm(db.flash, i, j, t, node);
    MarkSteady(d2, i, j, true);
    assert Replace(db, t, key, value) == Ended(MarkDel(d2, i, j, true), Done);
  }

  lemma ReplacePresent(db: Db, t: nat, key: Key, value: seq<byte>, m: Table)
    requires Resting(db) && Holds(db.flash, m)
    requires t < |db.flash| && NodeSize(key, value) < 0x1_0000_0000 && SpareRoom(db, NodeSize(key, value), t)
    requires Readable(key) && key in m
    ensures Formatted(db, t)
    ensures var r := Replace(db, t, key, value);
      && r.outcome == Done
      && Resting(r.db)
      && Holds(r.db.flash, m[key := value])
      && |db.log| <= |r.db.log|
      && (forall x :: 0 <= x < |db.log| ==> r.db.log[x] == db.log[x])
      && LogOldOrNew(r.db, |db.log|, m, key, value)
  {
    hide NodeCrc, ReadName, WfSector, Find, Contents, CopyTo, CreateAt, CreateStages, NewNode, SpareRoom, Count, Calm, MarkDel, Replace;
    ReplaceRuns(db, t, key, value, m);
    var hit := Find(db, key).value;
    var node := NewNode(Write, key, value);
    NewNodeIs(Write, key, value);
    var d1 := MarkDel(db, hit.sec, hit.node, false);
    var d2 := CreateAt(d1, t, node);
    var d3 := MarkDel(d2, hit.sec, hit.node, true);
    assert ReplaceSteps(db, d1, d2, d3, hit.sec, hit.node, t, node);
    ReplaceKept(db, d1, d2, d3, hit.sec, hit.node, t, node);
    ReplaceLive(db, d1, d2, d3, hit.sec, hit.node, t, node);
    NewEntry(key, value, true);
    ReplaceOutcome(db, d2, d3, m, key, value);
  }

  /** The same in terms of the map. */
  lemma ReplaceOutcome(db: Db, d2: Db, d3: Db, m: Table, key: Key, value: seq<byte>)
    requires Calm(db.flash) && Holds(db.flash, m) && key in m
    requires forall pd :: Contents(d3.flash, pd) + multiset{(key, m[key])} == Contents(db.flash, pd) + multiset{(key, value)}
    requires |db.log| < |d2.log| < |d3.log|
    requires forall x :: |db.log| <= x < |d2.log| - 1 ==> Contents(d3.log[x], true) == Contents(db.flash, true)
    requires Contents(d3.log[|d2.log| - 1], true) == Contents(db.flash, true) + multiset{(key, value)}
    requires forall x :: |d2.log| <= x < |d3.log| ==> Contents(d3.log[x], true) == Contents(d3.flash, true)
    ensures Holds(d3.flash, m[key := value])
    ensures LogOldOrNew(d3, |db.log|, m, key, value)
  {
    hide Contents;
    HoldsKept(db.flash, m);
    EntriesReplaced(m, key, value);
    var n := multiset(Entries(m[key := value]));
    forall pd ensures Contents(d3.flash, pd) == n {
      assert Contents(db.flash, pd) == multiset(Entries(m));
      Cancel(Contents(d3.flash, pd), n, multiset{(key, m[key])});
    }
    forall x | |db.log| <= x < |d3.log| ensures OldOrNew(d3.log[x], m, key, value) {
      if x < |d2.log| - 1 {
        EntriesKept(d3.log[x], m);
      } else if x >= |d2.log| {
        EntriesKept(d3.log[x], m[key := value]);
      }
    }
  }

  // ------------------------------------------------------------ the operations

  /** `set` on a map: an error leaves it alone. */
  function SetTable(m: Table, key: Key, value: seq<byte>, outcome: Outcome): Table {
    if outcome == Done then m[key := value] else m
  }

  lemma HoldsPreserved(db: Db, d: Db, m: Table)
    requires Preserves(db, d) && Holds(db.flash, m)
    ensures Holds(d.flash, m)
  {}

  lemma SpareIgnoresLog(db: Db, size: nat)
    ensures forall t :: 0 <= t < |db.flash| && SpareRoom(db, size, t) ==> SpareRoom(Begin(db), size, t)
  {}

  lemma BeginRests(db: Db)
    requires Resting(db)
    ensures Resting(Begin(db))
  {}

  /** The part of `set` after allocation. */
  lemma ReplaceRefines(db: Db, t: nat, key: Key, value: seq<byte>, m: Table)
    requires Resting(db) && Holds(db.flash, m) && LogOldOrNew(db, 0, m, StoredKey(key), value)
    requires t < |db.flash| && NodeSize(key, value) < 0x1_0000_0000 && SpareRoom(db, NodeSize(key, value), t)
    requires Storable(key, m)
    ensures Formatted(db, t)
    ensures var r := Replace(db, t, key, value);
      && r.outcome == (if |key| > KV_NAME_MAX then Failed(KvNameErr) else Done)
      && Resting(r.db)
      && Holds(r.db.flash, SetTable(m, StoredKey(key), value, r.outcome))
      && LogOldOrNew(r.db, 0, m, StoredKey(key), value)
      && |db.log| <= |r.db.log|
      && (forall x :: 0 <= x < |db.log| ==> r.db.log[x] == db.log[x])
  {
    hide NodeCrc, ReadName, WfSector, Contents, Count, Calm, Replace, SpareRoom, LogOldOrNew;
    RoomIsFormatted(db, NodeSize(key, value), t) by { SpareIsRoom(db, NodeSize(key, value), t); }
    if |key| > KV_NAME_MAX {
      ReplaceTooLong(db, t, key, value);
    } else {
      if Readable(key) && key in m {
        ReplacePresent(db, t, key, value, m);
      } else {
        ReplaceAbsent(db, t, key, value, m);
      }
      LogJoins(db, Replace(db, t, key, value).db, m, StoredKey(key), value);
    }
  }

  /** `set` stores the value under the key and touches nothing else, even when it has to collect
      garbage; when it fails, the map is what it was. Every state that the medium goes through on the
      way keeps the old or the new entry of the key and all other entries. It fails for want of space
      only if there was no spare room before, and there is none even after collecting. A key of 64 bytes
      that does not read back is stored under another name, which must not be taken. */
  lemma SetRefinesMap(db: Db, key: Key, value: seq<byte>, m: Table)
    requires Resting(db) && Holds(db.flash, m)
    requires NodeSize(key, value) < 0x1_0000_0000 && Storable(key, m)
    ensures var r := SetKv(db, key, value);
      && Resting(r.db)
      && Holds(r.db.flash, SetTable(m, StoredKey(key), value, r.outcome))
      && |r.db.log| > 0 && r.db.log[0] == db.flash
      && LogOldOrNew(r.db, 0, m, StoredKey(key), value)
      && r.outcome in {Done, Failed(KvNameErr), Failed(SavedFull)}
      && (r.outcome == Failed(KvNameErr) ==> |key| > KV_NAME_MAX)
      && (r.outcome == Done ==> |key| <= KV_NAME_MAX)
      && (r.outcome == Failed(SavedFull) <==> FullFor(Begin(db), NodeSize(key, value)))
      && (r.outcome == Failed(SavedFull) ==> NoSpare(db, NodeSize(key, value)) && NoSpare(r.db, NodeSize(key, value)))
  {
    hide NodeCrc, ReadName, WfSector, Contents, Count, Calm, Replace, Preserves, SpareRoom, LogOldOrNew, NewKv, Holds;
    var b := Begin(db);
    var size := NodeSize(key, value);
    BeginRests(db);
    SpareIgnoresLog(db, size);
    NewKvKeeps(b, size);
    var a := NewKv(b, size);
    HoldsPreserved(b, a.db, m);
    LogPreserved(b, a.db, m, StoredKey(key), value);
    if a.sec.Some? {
      ReplaceRefines(a.db, a.sec.value, key, value, m);
    }
  }

  /** When the name is taken by a different key, there are two records of it: what the log holds is no map. */
  lemma SetShadows(db: Db, key: Key, value: seq<byte>, m: Table)
    requires Resting(db) && Holds(db.flash, m)
    requires NodeSize(key, value) < 0x1_0000_0000 && SetKv(db, key, value).outcome == Done
    ensures (exists n: Table :: Holds(SetKv(db, key, value).db.flash, n)) <==> Storable(key, m)
  {
    hide NodeCrc, ReadName, WfSector, Contents, Count, Calm, SetKv, LogOldOrNew, SpareRoom, Find;
    if Storable(key, m) {
      SetRefinesMap(db, key, value, m);
    } else {
      SetDoubles(db, key, value, m);
      forall n: Table ensures !Holds(SetKv(db, key, value).db.flash, n) {
        if Holds(SetKv(db, key, value).db.flash, n) {
          TwiceIsNoMap(Entries(m), ReadName(key), value, m, n);
        }
      }
    }
  }

  lemma TwiceIsNoMap(es: set<Entry>, k: Key, value: seq<byte>, m: Table, n: Table)
    requires es == Entries(m) && k in m
    ensures multiset(es) + multiset{(k, value)} != multiset(Entries(n))
  {
    var all := multiset(es) + multiset{(k, value)};
    EntryIs(m, (k, m[k]));
    EntryIs(n, (k, m[k]));
    EntryIs(n, (k, value));
    assert (k, m[k]) in all && (k, value) in all;
    assert value == m[k] ==> all[(k, value)] == 2;
    assert multiset(Entries(n))[(k, value)] <= 1;
  }

  lemma SetDoubles(db: Db, key: Key, value: seq<byte>, m: Table)
    requires Resting(db) && Holds(db.flash, m) && |key| <= KV_NAME_MAX && !Readable(key)
    requires NodeSize(key, value) < 0x1_0000_0000 && SetKv(db, key, value).outcome == Done
    ensures Contents(SetKv(db, key, value).db.flash, false) == multiset(Entries(m)) + multiset{(ReadName(key), value)}
  {
    hide NodeCrc, ReadName, WfSector, FlashTo, Count, Calm, Preserves, SpareRoom, NewKv, FindFrom, CreateChecked, CreateAt, NewNode;
    var b, size := Begin(db), NodeSize(key, value);
    BeginRests(db);
    NewKvKeeps(b, size);
    var a := NewKv(b, size);
    HoldsPreserved(b, a.db, m);
    var t := a.sec.value;
    RoomIsFormatted(a.db, size, t) by { SpareIsRoom(a.db, size, t); }
    if Find(a.db, key).Some? {
      FoundIsReadable(a.db, key);
    }
    CreateAdds(a.db, t, key, value);
    CreateAtAdds(a.db, t, NewNode(Write, key, value), false);
    NewNodeIs(Write, key, value);
    NewEntry(key, value, false);
  }

  lemma LogPreserved(b: Db, d: Db, m: Table, key: Key, value: seq<byte>)
    requires Preserves(b, d) && b.log == [b.flash] && Calm(b.flash) && Holds(b.flash, m)
    ensures |d.log| > 0 && d.log[0] == b.flash && LogOldOrNew(d, 0, m, key, value)
  {
    hide Contents;
    HoldsKept(b.flash, m);
    forall x | 0 <= x < |d.log| ensures OldOrNew(d.log[x], m, key, value) {
      if x == 0 {
        assert d.log[0] == b.log[0];
      }
    }
  }

  lemma LogJoins(d: Db, r: Db, m: Table, key: Key, value: seq<byte>)
    requires LogOldOrNew(d, 0, m, key, value) && LogOldOrNew(r, |d.log|, m, key, value)
    requires |d.log| <= |r.log| && forall x :: 0 <= x < |d.log| ==> r.log[x] == d.log[x]
    ensures LogOldOrNew(r, 0, m, key, value)
  {
    hide OldOrNew;
    forall x | 0 <= x < |r.log| ensures OldOrNew(r.log[x], m, key, value) {
      if x < |d.log| {
        assert OldOrNew(d.log[x], m, key, value);
      }
    }
  }

  /** Names of more than 64 bytes are not found and not created. */
  lemma ReplaceTooLong(db: Db, t: nat, key: Key, value: seq<byte>)
    requires WfDb(db) && Formatted(db, t) && NodeSize(key, value) < 0x1_0000_0000 && |key| > KV_NAME_MAX
    ensures Replace(db, t, key, value) == Ended(db, Failed(KvNameErr))
  {
    hide NodeCrc;
  }

  /** A value can be read back after a successful `set` exactly when the key is shorter than 64 bytes or
      ends in a zero byte there: any other name of 64 bytes is stored under a different name. */
  lemma SetThenGet(db: Db, key: Key, value: seq<byte>, m: Table)
    requires Resting(db) && Holds(db.flash, m)
    requires NodeSize(key, value) < 0x1_0000_0000
    requires SetKv(db, key, value).outcome == Done
    ensures Get(SetKv(db, key, value).db, key) == Some(value)
      <==> |key| < KV_NAME_MAX || (|key| == KV_NAME_MAX && key[KV_NAME_MAX - 1] == 0)
  {
    hide NodeCrc, ReadName, Contents, Count, Calm, Find, LogOldOrNew, SetKv;
    ReadableIs(key);
    var r := SetKv(db, key, value);
    if Readable(key) {
      SetRefinesMap(db, key, value, m);
      SearchedAll(r.db);
      GetIsMapLookup(r.db, m[key := value], key);
    } else if Get(r.db, key).Some? {
      FoundIsReadable(r.db, key);
    }
  }

  lemma ReadableIs(key: Key)
    ensures Readable(key) <==> |key| < KV_NAME_MAX || (|key| == KV_NAME_MAX && key[KV_NAME_MAX - 1] == 0)
  {
    if |key| == KV_NAME_MAX {
      assert ReadName(key)[KV_NAME_MAX - 1] == 0;
    }
  }

  lemma FoundIsReadable(db: Db, key: Key)
    requires db.oldest < |db.flash| && Find(db, key).Some?
    ensures Readable(key)
  {
    hide NodeCrc;
    var hit := Find(db, key).value;
    var node := db.flash[hit.sec].nodes[hit.node];
    assert Matches(node, key);
  }

  /** `del` removes the key, and fails exactly when the map does not have it. */
  lemma DelRefinesMap(db: Db, key: Key, m: Table)
    requires Resting(db) && Holds(db.flash, m)
    ensures var r := DelKv(db, key);
      && Resting(r.db)
      && r.outcome == (if key in m then Done else Failed(KvNameErr))
      && Holds(r.db.flash, m - {key})
      && |r.db.log| > 0 && r.db.log[0] == db.flash
      && forall x :: 0 <= x < |r.db.log| ==> Kept(r.db.log[x]) == Entries(m) || Kept(r.db.log[x]) == Entries(m - {key})
  {
    hide NodeCrc, ReadName, WfSector, Contents, Find, Count, NodeEntries, MarkDel, Calm;
    var b := Begin(db);
    BeginRests(db);
    assert Find(b, key) == Find(db, key) by { FindIgnoresLog(db, key); }
    SearchedAll(db);
    GetIsMapLookup(db, m, key);
    GetNone(db, key);
    HoldsKept(db.flash, m);
    if Find(db, key).None? {
      assert m - {key} == m;
    } else {
      FoundNode(db, m, key);
      var hit := Find(db, key).value;
      var gone := db.flash[hit.sec].nodes[hit.node];
      MarkSteady(b, hit.sec, hit.node, true);
      var d := MarkDel(b, hit.sec, hit.node, true);
      DeleteCalm(db.flash, hit.sec, hit.node);
      StatusEntries(gone, true);
      StatusEntries(gone, false);
      assert gone.(st := Write) == gone;
      MarkDelTrades(b, hit.sec, hit.node, true, true);
      MarkDelTrades(b, hit.sec, hit.node, true, false);
      EntriesRemoved(m, key);
      var n := multiset(Entries(m - {key}));
      var e := multiset{(key, m[key])};
      forall pd ensures Contents(d.flash, pd) == n {
        assert Contents(d.flash, pd) + e == Contents(db.flash, pd) + multiset{};
        assert Contents(db.flash, pd) + multiset{} == Contents(db.flash, pd) == n + e;
        Cancel(Contents(d.flash, pd), n, e);
      }
      forall x | 0 <= x < |d.log| ensures Kept(d.log[x]) == Entries(m) || Kept(d.log[x]) == Entries(m - {key}) {
        if x > 0 {
          EntriesKept(d.log[x], m - {key});
        }
      }
    }
  }

  lemma FindIgnoresLog(db: Db, key: Key)
    requires db.oldest < |db.flash|
    ensures Find(Begin(db), key) == Find(db, key)
  {}

  lemma DeleteCalm(flash: seq<Sector>, i: nat, j: nat)
    requires Calm(flash) && i < |flash| && flash[i].Sector? && j < |flash[i].nodes| && flash[i].nodes[j].Node?
    ensures Calm(flash[i := MarkedSector(flash[i], j, Deleted)])
  {
    assert CalmSector(flash[i]);
  }

  lemma EntriesRemoved(m: Table, key: Key)
    requires key in m
    ensures multiset(Entries(m)) == multiset(Entries(m - {key})) + multiset{(key, m[key])}
  {
    var n := m - {key};
    forall e: Entry ensures e in Entries(m) <==> e in Entries(n) + {(key, m[key])} {
      EntryIs(m, e);
      EntryIs(n, e);
    }
    assert Entries(m) == Entries(n) + {(key, m[key])};
    EntryIs(n, (key, m[key]));
  }
}
