/** From images back to logs: what a fresh medium, a database at rest and a power cut during `set` leave
    behind can be opened again. */
module KvMedium {
  import opened Bytes
  import opened Wrappers
  import opened Status
  import opened Storage
  import opened Sectors
  import opened KvModel
  import opened KvContents
  import opened KvInvariant
  import opened KvGc
  import opened KvMap
  import opened KvLoad
  import opened KvCrash
  import opened KvPowerCut
  import opened KvDelete
  import opened KvRetry
  import opened KvRuns
  import opened KvHeaders
  import opened KvLayout
  import opened KvImage
  import opened KvRead
  import opened KvScan
  import opened KvRecovery
  import opened KvStrays
  import opened KvInfo
  import opened KvShows
  import opened KvAnswers
  import opened KvStore

  /** A fresh medium is opened as an empty database. */
  lemma BlankMedium(secSize: u32, maxSize: u32, sectors: nat)
    requires 64 <= secSize && 2 <= sectors && maxSize == Base(sectors, secSize) && maxSize + secSize < 0x1_0000_0000
    ensures OnMedium(Fill(maxSize), secSize, maxSize, BlankFlash(sectors))
    ensures var d := Load(secSize, BlankFlash(sectors), 1);
      d.Some? && Resting(d.value) && Holds(d.value.flash, map[]) && NoStray(BlankFlash(sectors)) && AllIntact(BlankFlash(sectors))
  {
    hide Base, Load, Resting, Holds;
    var flash := BlankFlash(sectors);
    FormatBlank(secSize, flash, 1);
    forall i | 0 <= i < |flash|
      ensures Base(i, secSize) + secSize <= maxSize && SectorAt(Part(Fill(maxSize), i, secSize), flash[i])
    {
      BaseBound(i, sectors, secSize);
    }
    assert NoStray(flash);
  }

  /** A log at rest opens as it is, stray bytes included. */
  lemma RestOpens(db: Db, m: Table)
    requires Resting(db) && Holds(db.flash, m) && Scannable(db.flash, db.secSize)
    ensures Openable(db.secSize, db.flash)
    ensures var d := Load(db.secSize, db.flash, 1);
      d.Some? && Resting(d.value) && Holds(d.value.flash, m) && d.value.flash == db.flash
  {
    hide Scannable, NoVictim, NonePending, Firm, AllShowEnd, OnlyPending, Resting, Holds, Load;
    CleanReopen(db, m);
    RestVictims(db);
  }

  /** What a database at rest has on its medium opens as the same map. */
  lemma RestMedium(kvdb: Kvdb)
    requires kvdb.Rested()
    ensures OnMedium(kvdb.storage.mem, kvdb.secSize, kvdb.maxSize, kvdb.db.flash)
    ensures var d := Load(kvdb.secSize, kvdb.db.flash, 1);
      d.Some? && Resting(d.value) && Holds(d.value.flash, kvdb.table) && d.value.flash == kvdb.db.flash
  {
    hide Base, FlashAt, AllShow, Scannable, Openable, Resting, Holds, Load, AllIntact;
    RestOpens(kvdb.db, kvdb.table);
  }

  // ------------------------------------------------------------ missing headers

  lemma FilledOpens(db: Db, f: seq<Sector>, m: Table)
    requires Resting(db) && Holds(db.flash, m) && Scannable(db.flash, db.secSize)
    requires Filled(f) == db.flash && exists i :: 0 <= i < |f| && f[i].Sector?
    ensures Openable(db.secSize, f)
    ensures var d := Load(db.secSize, f, 1);
      d.Some? && d.value.flash == db.flash && Resting(d.value) && Holds(d.value.flash, m) && LogBegins(f, d.value.oldest)
  {
    hide LogBegins, NoVictim, NonePending, Firm, AllShowEnd, OnlyPending, Resting, Holds, Load, Walkable, Filled;
    OpenFills(db, f, m);
    RestVictims(db);
    forall i | 0 <= i < |f| ensures f[i].Raw? || (f[i] == db.flash[i] && Walkable(f[i], db.secSize)) {
      assert Filled(f)[i] == FillHeader(f[i]);
    }
    FewerPending(f, db.flash);
  }

  lemma FewerPending(f: seq<Sector>, g: seq<Sector>)
    requires |f| == |g| && forall i :: 0 <= i < |f| ==> f[i].Raw? || f[i] == g[i]
    ensures (NoVictim(g) ==> NoVictim(f)) && (NonePending(g) ==> NonePending(f))
  {
    hide IsPending;
  }

  /** A medium on which sectors without records have no header, because the medium is larger than it was or the
      header was not written any more: it opens with the same map, at rest, and with just those headers written. */
  method ReopenFilled(storage: RamStorage, secSize: u32, maxSize: u32, ghost db: Db, ghost f: seq<Sector>, ghost m: Table)
    returns (kvdb: Kvdb)
    requires ValidGeometry(secSize, maxSize) && storage.Valid() && 64 <= secSize == db.secSize
    requires maxSize == Base(|f|, secSize) && maxSize + secSize < 0x1_0000_0000 && FlashAt(storage.mem, f, secSize)
    requires Resting(db) && Holds(db.flash, m) && Scannable(db.flash, db.secSize)
    requires Filled(f) == db.flash && exists i :: 0 <= i < |f| && f[i].Sector?
    modifies storage
    ensures fresh(kvdb) && kvdb.storage == storage && kvdb.initOk && kvdb.Rested()
    ensures kvdb.table == m && kvdb.db.flash == db.flash && LogBegins(f, kvdb.db.oldest)
  {
    hide Base, FlashAt, AllShow, Scannable, Openable, Resting, Holds, Load, AllIntact, Filled, Recoverable, LogBegins;
    FilledOpens(db, f, m);
    var r := Kvdb.Open(storage, secSize, maxSize, f, 1, m);
    kvdb := r.value;
  }

  // ------------------------------------------------------------ a cut while deleting

  /** The states of a deletion can be walked and opened, and are as intact as the log was. */
  lemma DeleteMends(db: Db, key: Key, m: Table, x: nat)
    requires Resting(db) && Holds(db.flash, m) && Scannable(db.flash, db.secSize) && x < |DelKv(db, key).db.log|
    ensures var f := DelKv(db, key).db.log[x];
      && |f| == |db.flash| && Scannable(f, db.secSize) && NoVictim(f) && NonePending(f)
      && (AllIntact(db.flash) ==> AllIntact(f)) && forall i :: 0 <= i < |f| ==> f[i].Sector?
  {
    hide NodeCrc, ReadName, Holds, Find, Resting, DelKv, Struck, NonePending, NoVictim, Scannable, AllIntact;
    DeleteStates(db, key, m, x);
    RestVictims(db);
    AllHeaders(db) by { RestIsWf(db); }
    if x > 0 {
      var l := Find(db, key).value;
      StruckMends(db, l, db.flash[l.sec].dirty);
      StruckMends(db, l, True);
    }
  }

  lemma RestIsWf(db: Db)
    requires Resting(db)
    ensures WfDb(db)
  {
    hide WfSector, Calm, Count;
  }

  lemma StruckMends(db: Db, l: Loc, dirty: DirtyStatus)
    requires Resting(db) && Scannable(db.flash, db.secSize) && NoVictim(db.flash) && NonePending(db.flash)
    requires At(db, l.sec, l.node) && Live(db.flash[l.sec].nodes[l.node])
    requires dirty == True || dirty == db.flash[l.sec].dirty
    ensures var f := Struck(db, l, dirty);
      && |f| == |db.flash| && Scannable(f, db.secSize) && NoVictim(f) && NonePending(f) && (AllIntact(db.flash) ==> AllIntact(f))
      && ((forall i :: 0 <= i < |db.flash| ==> db.flash[i].Sector?) ==> forall i :: 0 <= i < |f| ==> f[i].Sector?)
  {
    hide NodeCrc, Walkable, NoStraySector, EndShows, IntactSector, Resting;
    var sec := db.flash[l.sec];
    MarkShows(sec, l.node, Deleted, dirty);
    assert sec.Raw? || Walkable(sec, db.secSize);
    HasDirty(sec, db.secSize);
    WalkMark(sec, db.secSize, l.node, Deleted, dirty);
    ScanPut(db.flash, db.secSize, l.sec, MarkNode(sec.(dirty := dirty), l.node, Deleted));
    StruckSettles(db, l, dirty);
  }

  lemma StruckSettles(db: Db, l: Loc, dirty: DirtyStatus)
    requires NoVictim(db.flash) && NonePending(db.flash) && At(db, l.sec, l.node) && Live(db.flash[l.sec].nodes[l.node])
    requires dirty == True || dirty == db.flash[l.sec].dirty
    ensures NoVictim(Struck(db, l, dirty)) && NonePending(Struck(db, l, dirty))
  {
    hide NodeCrc;
  }

  /** A deletion is cut off at any of its writes and the medium is opened: the key has its value or is gone, every other
      key has its own, and `check` finds nothing wrong if there was nothing wrong before. */
  method ReopenAfterDelete(storage: RamStorage, secSize: u32, maxSize: u32, ghost db: Db, ghost key: Key, ghost m: Table,
                           ghost x: nat, other: Key)
    returns (kvdb: Kvdb, kept: Option<seq<byte>>, checked: Outcome)
    requires ValidGeometry(secSize, maxSize) && storage.Valid() && 64 <= secSize == db.secSize
    requires maxSize == Base(|db.flash|, secSize) && maxSize + secSize < 0x1_0000_0000
    requires Resting(db) && Holds(db.flash, m) && Scannable(db.flash, db.secSize) && AllIntact(db.flash)
    requires x < |DelKv(db, key).db.log| && FlashAt(storage.mem, DelKv(db, key).db.log[x], secSize)
    modifies storage
    ensures fresh(kvdb) && kvdb.storage == storage && kvdb.initOk && kvdb.Mapped()
    ensures kvdb.table == if x == 0 then m else m - {key}
    ensures other != key ==> kept == if other in m then Some(m[other]) else None
    ensures checked == Done
  {
    hide NodeCrc, ReadName, WfSector, Contents, Find, Count, Calm, DelKv, Holds, Scannable, Load, NoVictim, NonePending, Recoverable, Firm, FlashAt,
         AllShow, Resting, AllIntact, AllSearched, Base, AllGood, IsDirty;
    RestingBounds(db);
    CutDelete(db, key, m, x);
    DeleteMends(db, key, m, x);
    ghost var f := DelKv(db, key).db.log[x];
    NoneIsRecoverable(f);
    var r := Kvdb.Open(storage, secSize, maxSize, f, 1, if x == 0 then m else m - {key});
    kvdb := r.value;
    kept := kvdb.GetVec(other);
    IntactIsGood(kvdb.db.flash);
    checked := kvdb.Check();
  }

  lemma NoneIsRecoverable(f: seq<Sector>)
    requires NonePending(f)
    ensures Recoverable(f)
  {}

  lemma IntactIsGood(flash: seq<Sector>)
    ensures AllIntact(flash) && (forall i :: 0 <= i < |flash| ==> flash[i].Sector?) ==> AllGood(flash)
  {
    hide NodeCrc;
  }

  // ------------------------------------------------------------ what a cut leaves

  /** A sector marked as in use but not yet written to also reads as one that holds a blank node. */
  lemma SeenAt(mem: seq<byte>, flash: seq<Sector>, size: nat)
    requires FlashAt(mem, flash, size) && 64 <= size
    ensures FlashAt(mem, Seen(flash), size)
  {
    hide SectorAt, Base, Part;
    forall i | 0 <= i < |flash| ensures Base(i, size) + size <= |mem| && SectorAt(Part(mem, i, size), Seen(flash)[i]) {
      PartAt(mem, flash, size, i);
      if HasStore(flash[i], Using) && flash[i].nodes == [] {
        SeenSector(Part(mem, i, size), flash[i]);
      }
    }
  }

  lemma SeenSector(s: seq<byte>, sec: Sector)
    requires SectorAt(s, sec) && sec.Sector? && sec.nodes == [] && 64 <= |s|
    ensures SectorAt(s, sec.(nodes := [Blank]))
  {
    hide HeadAt;
    CodesNest(0, 0);
    HeadSize(s, sec.store, sec.dirty);
    OffZero([Blank]);
    assert Off([Blank], 1) == Off([Blank], 0) + 24;
    assert s[16] == Code(0);
    assert NodeAt(s, 16, Blank);
  }

  /** The bytes of a node hold no second magic word as long as it has not been written completely either. */
  lemma PartialMagic(node: Node, h: nat)
    requires node.Node? && OneMagic(node) && h <= |node.data| && Sized(node) && 24 + |node.data| < 0x1_0000_0000
    ensures OneMagic(Partial(node, h))
  {
    hide NodeCrc, CrcHead, Word, Sized;
    var p := Partial(node, h);
    assert Sized(p) by { PartialSized(node, h); }
    forall k: nat | 1 <= k ensures !MagicAt(Body(p), k) {
      PartialBytes(node, h);
      if k + 4 <= 20 + h {
        assert !MagicAt(Body(node), k);
        assert Body(p)[k..k + 4] == Body(p)[..20 + h][k..k + 4] == Body(node)[..20 + h][k..k + 4] == Body(node)[k..k + 4];
      } else if MagicAt(Body(p), k) {
        MagicIs(Body(p), k, k + 3);
      }
    }
  }

  lemma PartialSized(node: Node, h: nat)
    requires node.Node? && Sized(node) && h <= |node.data|
    ensures Sized(Partial(node, h))
  {}

  lemma PartialBytes(node: Node, h: nat)
    requires node.Node? && Sized(node) && h <= |node.data| && 24 + |node.data| < 0x1_0000_0000 && Sized(Partial(node, h))
    ensures Body(Partial(node, h))[..20 + h] == Body(node)[..20 + h]
    ensures forall k :: 20 + h <= k < 20 + |node.data| ==> Body(Partial(node, h))[k] == BYTE_ERASED
  {
    hide NodeCrc, CrcHead, Word;
  }

  /** A node that is being written: no node header yet, part of it, or all of it. */
  ghost predicate BeingWritten(sec: Sector, p: Node, node: Node)
    requires node.Node?
  {
    p == node.(st := Write) || IsHeadless(sec, p) || IsPartial(p, node)
  }

  lemma AddedWalks(sec: Sector, size: nat, p: Node, node: Node)
    requires Walkable(sec, size) && Intact(node) && OneMagic(node) && BeingWritten(sec, p, node)
    requires SECTOR_HDR + Used(sec.nodes) + node.Len() + THRESHOLD < size < 0x1_0000_0000
    ensures Walkable(Hold(sec.(store := Using), p), size)
    ensures EndShows(sec) && !IsPartial(p, node) && p != node.(st := Write) ==> p == Stray || NoStraySector(Hold(sec.(store := Using), p))
  {
    hide NodeCrc, OneMagic;
    UsedHold(sec.nodes, p);
    if IsPartial(p, node) {
      var h: nat :| h <= |node.data| && p == Partial(node, h);
      PartialMagic(node, h);
      PartialSized(node, h);
    } else if p.Node? {
      assert Intact(p);
    } else {
      assert OneMagic(p) by { HeadlessMagic(p); }
    }
  }

  lemma HeadlessMagic(p: Node)
    requires !p.Node? && !p.Clipped?
    ensures OneMagic(p)
  {}

  lemma AddedPending(flash: seq<Sector>, t: nat, p: Node, l: Loc)
    requires OnlyPending(flash, l) && t < |flash| && flash[t].Sector? && !IsPending(p)
    ensures OnlyPending(flash[t := Hold(flash[t].(store := Using), p)], l)
  {
    hide IsPending;
  }

  lemma StagePending(sec: Sector, p: Node, node: Node)
    requires node.Node? && BeingWritten(sec, p, node)
    ensures !IsPending(p) && !p.Clipped?
  {
    hide NodeCrc;
  }

  /** A log without strays in which at most one deletion is pending stays one that can be opened while a
      node is added. If no record ends in an erased byte, no collection is in danger either. */
  lemma AddedMends(flash: seq<Sector>, size: nat, t: nat, p: Node, node: Node, l: Loc)
    requires Scannable(flash, size) && NoStray(flash) && NoVictim(flash) && OnlyPending(flash, l)
    requires t < |flash| && flash[t].Sector? && Intact(node) && OneMagic(node) && BeingWritten(flash[t], p, node)
    requires SECTOR_HDR + Used(flash[t].nodes) + node.Len() + THRESHOLD < size < 0x1_0000_0000
    ensures var g := flash[t := Hold(flash[t].(store := Using), p)];
      Scannable(g, size) && NoVictim(g) && Recoverable(g) && (Blunt(flash) ==> Firm(g))
  {
    hide Walkable, NodeCrc, OneMagic, BeingWritten, Used, NoStraySector, EndShows, OnlyPending, EndsErased;
    var g := flash[t := Hold(flash[t].(store := Using), p)];
    ScanAt(flash, size, t);
    AddedWalks(flash[t], size, p, node);
    ScanPut(flash, size, t, g[t]);
    StagePending(flash[t], p, node);
    AddedPending(flash, t, p, l);
    NoStrayShows(flash);
    assert NoStraySector(flash[t]);
    if p.Stray? {
      StrayShows(g[t]);
      forall i | 0 <= i < |g| ensures EndShows(g[i]) {
        if i != t {
          assert EndShows(flash[i]);
        }
      }
      if Blunt(flash) {
        StrayBlunt(flash, t);
      }
    } else {
      HeldNoStray(flash[t], p);
      assert NoStray(g);
    }
  }

  lemma StrayBlunt(flash: seq<Sector>, t: nat)
    requires Blunt(flash) && t < |flash| && flash[t].Sector?
    ensures Blunt(flash[t := Hold(flash[t].(store := Using), Stray)])
  {
    hide EndShows, EndsErased, NodeCrc;
    var sec := Hold(flash[t].(store := Using), Stray);
    StrayShows(sec);
    forall j | 0 <= j < |sec.nodes| && Intact(sec.nodes[j]) ensures !EndsErased(sec.nodes[j]) {
      assert sec.nodes[j] == flash[t].nodes[j];
    }
    BluntPut(flash, t, sec);
  }

  lemma StrayShows(sec: Sector)
    requires sec.Sector? && sec.nodes != [] && sec.nodes[|sec.nodes| - 1].Stray?
    ensures EndShows(sec)
  {}

  lemma HeldNoStray(sec: Sector, p: Node)
    requires sec.Sector? && NoStraySector(sec) && !p.Stray? && !p.Clipped?
    ensures NoStraySector(Hold(sec.(store := Using), p))
  {}

  lemma RestVictims(db: Db)
    requires Resting(db)
    ensures NoVictim(db.flash) && NonePending(db.flash) && db.oldest < |db.flash| && 2 <= |db.flash|
  {
    hide NodeCrc, WfSector, Count;
    forall x: nat, y: nat | x < |db.flash| && db.flash[x].Sector? && y < |db.flash[x].nodes| ensures !IsPending(db.flash[x].nodes[y]) {
      assert CalmSector(db.flash[x]);
    }
    forall i | 0 <= i < |db.flash| && db.flash[i].Sector? ensures db.flash[i].dirty != Gc {
      assert Unvictimized(db.flash[i]);
    }
  }

  /** Marking one node leaves a log that can be opened, with no other deletion pending. */
  lemma MarkedMends(db: Db, l: Loc, dirty: DirtyStatus)
    requires Resting(db) && Scannable(db.flash, db.secSize) && NoStray(db.flash)
    requires At(db, l.sec, l.node) && Live(db.flash[l.sec].nodes[l.node])
    requires dirty == True || dirty == db.flash[l.sec].dirty
    ensures var g := db.flash[l.sec := MarkNode(db.flash[l.sec].(dirty := dirty), l.node, PreDelete)];
      Scannable(g, db.secSize) && NoStray(g) && NoVictim(g) && OnlyPending(g, l)
  {
    hide NodeCrc, Walkable, NoStraySector, EndShows, IntactSector, KeepsScan, Resting, MarkNode, Scannable;
    var sec := db.flash[l.sec];
    RestVictims(db);
    MarkShows(sec, l.node, PreDelete, dirty);
    if Walkable(sec, db.secSize) {
      HasDirty(sec, db.secSize);
      WalkMark(sec, db.secSize, l.node, PreDelete, dirty);
    }
    PutScans(db.flash, db.secSize, l.sec, MarkNode(sec.(dirty := dirty), l.node, PreDelete), true);
    MovedScan(db.flash, db.flash[l.sec := MarkNode(sec.(dirty := dirty), l.node, PreDelete)], db.secSize, true);
    MarkedPending(db.flash, l, dirty);
    MarkHead(sec, l.node, PreDelete);
    MarkedDirty(sec, l.node, dirty);
  }

  lemma MarkedDirty(sec: Sector, j: nat, dirty: DirtyStatus)
    requires sec.Sector? && j < |sec.nodes| && sec.nodes[j].Node?
    ensures MarkNode(sec.(dirty := dirty), j, PreDelete).Sector? && MarkNode(sec.(dirty := dirty), j, PreDelete).dirty == dirty
  {}

  lemma MarkedPending(flash: seq<Sector>, l: Loc, dirty: DirtyStatus)
    requires NonePending(flash) && l.sec < |flash| && flash[l.sec].Sector? && l.node < |flash[l.sec].nodes| && flash[l.sec].nodes[l.node].Node?
    ensures OnlyPending(flash[l.sec := MarkNode(flash[l.sec].(dirty := dirty), l.node, PreDelete)], l)
  {
    hide IsPending;
  }

  // ------------------------------------------------------------ every state of a set

  lemma NoStrayFirm(f: seq<Sector>)
    requires NoStray(f)
    ensures Firm(f) && Recoverable(f)
  {}

  lemma Opens0(secSize: nat, f: seq<Sector>)
    requires 2 <= |f| && Scannable(f, secSize) && NoVictim(f) && Recoverable(f) && Load(secSize, f, 1).Some?
    ensures Openable(secSize, f)
  {}

  lemma RecoversLoads(secSize: nat, f: seq<Sector>, key: Key, value: seq<byte>, m: Table)
    requires Recovers(secSize, f, key, value, m)
    ensures 0 < |f| && Load(secSize, f, 1).Some?
  {
    hide Load, Opens, TornFirst, Contents;
  }

  lemma SpareSpace(db: Db, size: nat, t: nat)
    requires t < |db.flash| && Scannable(db.flash, db.secSize) && SpareRoom(db, size, t)
    ensures HasSpace(db, t, size)
  {
    hide HasRoom, Scannable;
    RoomSpace(db, size, t);
  }

  /** The states while the new node is written. */
  lemma WritingMends(d: Db, t: nat, key: Key, value: seq<byte>, l: Loc, x: nat)
    requires Steady(d) && Scannable(d.flash, d.secSize) && NoStray(d.flash) && NoVictim(d.flash) && OnlyPending(d.flash, l)
    requires Readable(key) && NodeSize(key, value) < 0x1_0000_0000 && t < |d.flash| && SpareRoom(d, NodeSize(key, value), t)
    requires OneMagic(NewNode(Write, key, value)) && d.secSize < 0x1_0000_0000
    requires Formatted(d, t) && |d.log| <= x < |CreateAt(d, t, NewNode(Write, key, value)).log|
    ensures var f := Seen(CreateAt(d, t, NewNode(Write, key, value)).log[x]);
      |f| == |d.flash| && Scannable(f, d.secSize) && NoVictim(f) && Recoverable(f) && (Blunt(d.flash) ==> Firm(f))
  {
    hide NodeCrc, ReadName, WfSector, WfShape, NewNode, SpareRoom, Count, Calm, Seen, Opened, FillsUp, WfNode, Scannable, NoStray,
         NoVictim, Recoverable, Firm, Blunt, CreateAt, OneMagic, Used, OnlyPending, Walkable;
    var node := NewNode(Write, key, value);
    NewNodeIs(Write, key, value);
    SpareSpace(d, node.Len(), t);
    OpensUsing(d, node.Len(), t) by { SpareIsRoom(d, node.Len(), t); }
    EmptyHasNone(d, t);
    var opening, p := WriteStates(d, t, node, x);
    SteadyShapes(d);
    SeenHeld(d, t, p);
    AddedMends(d.flash, d.secSize, t, p, node, l);
  }

  lemma MarkingMends(db: Db, l: Loc, x: nat)
    requires Resting(db) && Scannable(db.flash, db.secSize) && NoStray(db.flash)
    requires At(db, l.sec, l.node) && Live(db.flash[l.sec].nodes[l.node])
    requires |db.log| <= x < |MarkDel(db, l.sec, l.node, false).log|
    ensures var f := Seen(MarkDel(db, l.sec, l.node, false).log[x]);
      |f| == |db.flash| && Scannable(f, db.secSize) && NoVictim(f) && NoStray(f)
  {
    hide NodeCrc, WfSector, Count, Calm, MarkDel, Seen, Scannable, NoStray, NoVictim, OnlyPending, MarkNode;
    MarkStates(db, l, x);
    MarkedMends(db, l, db.flash[l.sec].dirty);
    MarkedMends(db, l, True);
  }

  /** What a power cut at any write of a `set` that runs no collection leaves can be walked, and nothing hides an end while
      recovery needs it. */
  lemma CutMends(db: Db, key: Key, value: seq<byte>, m: Table, x: nat)
    requires Resting(db) && Holds(db.flash, m) && Scannable(db.flash, db.secSize) && NoStray(db.flash) && db.secSize < 0x1_0000_0000
    requires Readable(key) && NodeSize(key, value) < 0x1_0000_0000 && OneMagic(NewNode(Write, key, value))
    requires AllocKv(Begin(db), NodeSize(key, value)).sec.Some?
    requires x < |SetKv(db, key, value).db.log|
    ensures var f := Seen(SetKv(db, key, value).db.log[x]);
      && |f| == |db.flash| && |SetKv(db, key, value).db.log[x]| == |db.flash|
      && Scannable(f, db.secSize) && NoVictim(f) && Recoverable(f)
    ensures Blunt(db.flash) ==> Firm(Seen(SetKv(db, key, value).db.log[x]))
  {
    hide NodeCrc, ReadName, WfSector, WfShape, Contents, SpareRoom, Count, Calm, Recovers, RoomToRecover, Fresh, Seen, Replace,
         AllocKv, Find, LogOldOrNew, Holds, OneMagic, Scannable, NoStray, NoVictim, Recoverable, Firm, Blunt, Load, Openable, MarkDel, CreateAt, NewNode;
    var b := Begin(db);
    BeginRests(db);
    RestVictims(db);
    SteadyShapes(db);
    var size := NodeSize(key, value);
    AllocSpares(b, size);
    var t := AllocKv(b, size).sec.value;
    RoomIsFormatted(b, size, t) by { SpareIsRoom(b, size, t); }
    var r := Replace(b, t, key, value);
    if key in m {
      ReplacePresent(b, t, key, value, m);
    } else {
      ReplaceAbsent(b, t, key, value, m);
    }
    assert SetKv(db, key, value) == r;
    var f := Seen(r.db.log[x]);
    if x == 0 {
      SeenSelf(db);
      NoStrayFirm(f);
    } else if key in m {
      PresentMends(b, t, key, value, m, x);
    } else {
      AbsentMends(b, t, key, value, m, x);
    }
  }

  /** The medium can be opened after a power cut at any write of a `set` that runs no collection. */
  lemma CutOpens(db: Db, key: Key, value: seq<byte>, m: Table, x: nat)
    requires Resting(db) && Holds(db.flash, m) && Scannable(db.flash, db.secSize) && NoStray(db.flash) && db.secSize < 0x1_0000_0000
    requires Readable(key) && NodeSize(key, value) < 0x1_0000_0000 && OneMagic(NewNode(Write, key, value))
    requires AllocKv(Begin(db), NodeSize(key, value)).sec.Some?
    requires x < |SetKv(db, key, value).db.log|
    requires RoomToRecover(Fresh(db.secSize, Seen(SetKv(db, key, value).db.log[x])))
    ensures Openable(db.secSize, Seen(SetKv(db, key, value).db.log[x])) && |SetKv(db, key, value).db.log[x]| == |db.flash|
    ensures Blunt(db.flash) ==> Firm(Seen(SetKv(db, key, value).db.log[x]))
  {
    hide NodeCrc, WfSector, WfShape, Contents, SpareRoom, Count, Calm, Recovers, RoomToRecover, Fresh, Seen, AllocKv, Holds, OneMagic, Scannable,
         NoStray, NoVictim, Recoverable, Firm, Blunt, Load, SetKv, NewNode;
    PowerCut(db, key, value, m, x);
    RecoversLoads(db.secSize, Seen(SetKv(db, key, value).db.log[x]), key, value, m);
    CutMends(db, key, value, m, x);
    RestingBounds(db);
    Opens0(db.secSize, Seen(SetKv(db, key, value).db.log[x]));
  }

  lemma PresentMends(db: Db, t: nat, key: Key, value: seq<byte>, m: Table, x: nat)
    requires Resting(db) && Holds(db.flash, m) && Scannable(db.flash, db.secSize) && NoStray(db.flash) && db.secSize < 0x1_0000_0000
    requires t < |db.flash| && NodeSize(key, value) < 0x1_0000_0000 && SpareRoom(db, NodeSize(key, value), t)
    requires Readable(key) && key in m && Formatted(db, t) && OneMagic(NewNode(Write, key, value))
    requires |db.log| <= x < |Replace(db, t, key, value).db.log|
    ensures var f := Seen(Replace(db, t, key, value).db.log[x]);
      |f| == |db.flash| && Scannable(f, db.secSize) && NoVictim(f) && Recoverable(f) && (Blunt(db.flash) ==> Firm(f))
  {
    hide NodeCrc, ReadName, WfSector, WfShape, Find, Contents, NewNode, SpareRoom, Count, Calm, MarkDel, CreateAt, Seen, Replace, Holds,
         Scannable, NoStray, NoVictim, Recoverable, Firm, Blunt, OnlyPending, OneMagic, KeepsScan, MarkedSector, AllIntact;
    ReplaceRuns(db, t, key, value, m);
    var l := Find(db, key).value;
    var node := NewNode(Write, key, value);
    NewNodeIs(Write, key, value);
    var d1 := MarkDel(db, l.sec, l.node, false);
    var d2 := CreateAt(d1, t, node);
    var d3 := MarkDel(d2, l.sec, l.node, true);
    WriteLogGrows(d1, t, node);
    MarkLogs(db, l, false);
    MarkLogs(d2, l, true);
    if Blunt(db.flash) {
      MarkDelBlunt(db, l.sec, l.node, false);
    }
    if x < |d1.log| {
      MarkingMends(db, l, x);
      NoStrayFirm(Seen(Replace(db, t, key, value).db.log[x]));
    } else {
      LastMarkMends(db, l);
      if x < |d2.log| {
        WritingMends(d1, t, key, value, l, x);
      } else {
        LastMark(d1, d2, l, t, node);
        SteadyShapes(d3);
        SeenSelf(d3);
        RestVictims(d3);
        SpareSpace(d1, node.Len(), t);
        EndMends(d1, d2, d3, l, t, node);
        NoStrayFirm(d3.flash);
      }
    }
  }

  lemma LastMarkMends(db: Db, l: Loc)
    requires Resting(db) && Scannable(db.flash, db.secSize) && NoStray(db.flash)
    requires At(db, l.sec, l.node) && Live(db.flash[l.sec].nodes[l.node])
    ensures var g := MarkDel(db, l.sec, l.node, false).flash;
      Scannable(g, db.secSize) && NoStray(g) && NoVictim(g) && OnlyPending(g, l)
    ensures MarkDel(db, l.sec, l.node, false).flash[l.sec].Sector? && MarkDel(db, l.sec, l.node, false).flash[l.sec].dirty != False
  {
    hide NodeCrc, WfSector, Count, Calm, MarkDel, Scannable, NoStray, NoVictim, OnlyPending, Resting;
    MarkDelFlash(db, l.sec, l.node, false);
    var sec := db.flash[l.sec];
    MarkedMends(db, l, if sec.dirty == False then True else sec.dirty);
  }

  /** After the last marking nothing is pending and nothing torn. */
  lemma EndMends(d1: Db, d2: Db, d3: Db, l: Loc, t: nat, node: Node)
    requires Scannable(d1.flash, d1.secSize) && NoStray(d1.flash) && d2.secSize == d1.secSize && HasSpace(d1, t, node.Len())
    requires Intact(node) && node.st == Write && d2.flash == d1.flash[t := Hold(d1.flash[t].(store := Using), node)]
    requires At(d2, l.sec, l.node) && Intact(d2.flash[l.sec].nodes[l.node]) && d3 == MarkDel(d2, l.sec, l.node, true)
    ensures Scannable(d3.flash, d3.secSize) && NoStray(d3.flash) && |d3.flash| == |d1.flash|
  {
    hide NodeCrc, Walkable, NoStraySector, EndShows, IntactSector, MarkDel, KeepsScan, Scannable, NoStray, AllIntact, Used, Extends;
    ScanAt(d1.flash, d1.secSize, t);
    WalkHold(d1.flash[t], d1.secSize, node);
    assert node.(st := Write) == node;
    HeldKeeps(d1.flash[t], node);
    PutScans(d1.flash, d1.secSize, t, Hold(d1.flash[t].(store := Using), node), false);
    MovedScan(d1.flash, d2.flash, d1.secSize, false);
    MarkScans(d2, l.sec, l.node, true);
    MovedScan(d2.flash, d3.flash, d1.secSize, true);
    ExtendsLength(d2.flash, d3.flash);
  }

  lemma HeldKeeps(sec: Sector, node: Node)
    requires sec.Sector? && Intact(node)
    ensures NoStraySector(sec) ==> NoStraySector(Hold(sec.(store := Using), node))
    ensures IntactSector(sec) ==> IntactSector(Hold(sec.(store := Using), node))
  {
    hide NodeCrc;
  }

  lemma AbsentMends(db: Db, t: nat, key: Key, value: seq<byte>, m: Table, x: nat)
    requires Resting(db) && Holds(db.flash, m) && Scannable(db.flash, db.secSize) && NoStray(db.flash) && db.secSize < 0x1_0000_0000
    requires t < |db.flash| && NodeSize(key, value) < 0x1_0000_0000 && SpareRoom(db, NodeSize(key, value), t)
    requires Readable(key) && key !in m && Formatted(db, t) && OneMagic(NewNode(Write, key, value))
    requires |db.log| <= x < |Replace(db, t, key, value).db.log|
    ensures var f := Seen(Replace(db, t, key, value).db.log[x]);
      |f| == |db.flash| && Scannable(f, db.secSize) && NoVictim(f) && Recoverable(f) && (Blunt(db.flash) ==> Firm(f))
  {
    hide NodeCrc, ReadName, WfSector, WfShape, Find, Contents, NewNode, SpareRoom, Count, Calm, CreateAt, Seen, Holds,
         Scannable, NoStray, NoVictim, Recoverable, Firm, Blunt, OnlyPending, OneMagic, CreateChecked;
    SearchedAll(db);
    GetIsMapLookup(db, m, key);
    GetNone(db, key);
    NewNodeIs(Write, key, value);
    CreateAdds(db, t, key, value);
    RestVictims(db);
    NoneIsOnly(db.flash, Loc(0, 0));
    WritingMends(db, t, key, value, Loc(0, 0), x);
  }

  lemma NoneIsOnly(flash: seq<Sector>, l: Loc)
    requires NonePending(flash)
    ensures OnlyPending(flash, l)
  {
    hide IsPending;
  }

  /** The power-cut theorem for the bytes. The image that any write of a `set` without a collection leaves
      behind opens again, and then `key` reads as before or as set exactly when the torn node does not come
      first in the scan; every other key reads as before. */
  lemma CutImage(secSize: u32, maxSize: u32, db: Db, img: seq<byte>, key: Key, value: seq<byte>, m: Table, x: nat, other: Key)
    requires 64 <= secSize == db.secSize && maxSize == Base(|db.flash|, secSize) && maxSize + secSize < 0x1_0000_0000
    requires Resting(db) && Holds(db.flash, m) && Scannable(db.flash, db.secSize) && NoStray(db.flash)
    requires Readable(key) && NodeSize(key, value) < 0x1_0000_0000 && OneMagic(NewNode(Write, key, value))
    requires AllocKv(Begin(db), NodeSize(key, value)).sec.Some?
    requires x < |SetKv(db, key, value).db.log| && FlashAt(img, SetKv(db, key, value).db.log[x], db.secSize)
    requires RoomToRecover(Fresh(db.secSize, Seen(SetKv(db, key, value).db.log[x])))
    ensures var f := Seen(SetKv(db, key, value).db.log[x]);
      && OnMedium(img, secSize, maxSize, f)
      && 0 < |f| && Load(db.secSize, f, 1).Some?
      && var d := Load(db.secSize, f, 1).value;
      && (Get(d, key) in {Get(db, key), Some(value)} <==> !TornFirst(Fresh(db.secSize, f)))
      && (other != key ==> Get(d, other) == Get(db, other))
      && Recovers(db.secSize, f, key, value, m) && (Blunt(db.flash) ==> Firm(f))
  {
    hide NodeCrc, ReadName, WfSector, WfShape, Contents, SpareRoom, Count, Calm, Recovers, RoomToRecover, Fresh, Seen, SetKv, Firm, Blunt,
         AllocKv, Holds, OneMagic, Scannable, NoStray, Load, Openable, NewNode, Get, TornFirst, Base, FlashAt, AllShow, Resting;
    RestingBounds(db);
    CutOpens(db, key, value, m, x);
    PowerCut(db, key, value, m, x);
    SeenAt(img, SetKv(db, key, value).db.log[x], db.secSize);
    RecoversLookup(db, Seen(SetKv(db, key, value).db.log[x]), key, value, m, other);
  }

  /** What the opened database stands for. */
  ghost function OpenedTable(secSize: nat, f: seq<Sector>, key: Key, value: seq<byte>, m: Table): Table
    requires Recovers(secSize, f, key, value, m)
  {
    if TornFirst(Fresh(secSize, f)) then m - {key} else if Opens(Load(secSize, f, 1), m) then m else m[key := value]
  }

  lemma OpenedTableHolds(secSize: nat, f: seq<Sector>, key: Key, value: seq<byte>, m: Table)
    requires Recovers(secSize, f, key, value, m)
    ensures 0 < |f| && Load(secSize, f, 1).Some?
    ensures var d := Load(secSize, f, 1).value; var n := OpenedTable(secSize, f, key, value, m);
      && AllSearched(d.flash) && Holds(d.flash, n)
      && (TornFirst(Fresh(secSize, f)) ==> key in m && n == m - {key} && Reopens(secSize, d.flash, m))
      && (!TornFirst(Fresh(secSize, f)) ==> Resting(d) && (n == m || n == m[key := value]))
  {
    hide Load, TornFirst, Resting, Holds, AllSearched, Fresh, Reopens;
  }

  /** The power-cut theorem for the database itself: a `set` without a collection is cut off at any of its
      writes, the medium is opened, and both `key` and another one are looked up. The value of `key` is the old
      or the new one exactly when the torn record does not come first in the scan. In that case the store is at
      rest again, and, unless a stray byte is left and some record ends in an erased one, ready for any further
      `set`. */
  method ReopenAfterCut(storage: RamStorage, secSize: u32, maxSize: u32, ghost db: Db, key: Key, ghost value: seq<byte>,
                        ghost m: Table, ghost x: nat, other: Key)
    returns (kvdb: Kvdb, now: Option<seq<byte>>, kept: Option<seq<byte>>)
    requires ValidGeometry(secSize, maxSize) && storage.Valid()
    requires 64 <= secSize == db.secSize && maxSize == Base(|db.flash|, secSize) && maxSize + secSize < 0x1_0000_0000
    requires Resting(db) && Holds(db.flash, m) && Scannable(db.flash, db.secSize) && NoStray(db.flash)
    requires Readable(key) && NodeSize(key, value) < 0x1_0000_0000 && OneMagic(NewNode(Write, key, value))
    requires AllocKv(Begin(db), NodeSize(key, value)).sec.Some?
    requires x < |SetKv(db, key, value).db.log| && FlashAt(storage.mem, SetKv(db, key, value).db.log[x], db.secSize)
    requires RoomToRecover(Fresh(db.secSize, Seen(SetKv(db, key, value).db.log[x])))
    modifies storage
    ensures fresh(kvdb) && kvdb.storage == storage && kvdb.initOk && kvdb.Mapped() && kvdb.Mendable()
    ensures kvdb.secSize == secSize && kvdb.maxSize == maxSize
    ensures var torn := TornFirst(Fresh(db.secSize, Seen(SetKv(db, key, value).db.log[x])));
      && (now in {if key in m then Some(m[key]) else None, Some(value)} <==> !torn)
      && (torn ==> now == None && kvdb.table == m - {key} && Reopens(secSize, kvdb.db.flash, m))
      && (!torn ==> kvdb.Rested() && (kvdb.table == m || kvdb.table == m[key := value]))
      && (!torn && Blunt(db.flash) ==> kvdb.AtRest())
    ensures Blunt(db.flash) ==> Firm(kvdb.db.flash)
    ensures other != key ==> kept == if other in m then Some(m[other]) else None
  {
    hide NodeCrc, ReadName, WfSector, WfShape, Contents, SpareRoom, Count, Calm, Recovers, RoomToRecover, Fresh, Seen, SetKv, Firm, Blunt,
         AllocKv, Holds, OneMagic, Scannable, NoStray, Load, Openable, NewNode, Get, TornFirst, Base, FlashAt, AllShow, Resting, AllShowEnd,
         AllSearched, AllIntact, Recoverable, Reopens;
    RestingBounds(db);
    CutImage(secSize, maxSize, db, storage.mem, key, value, m, x, other);
    ghost var f := Seen(SetKv(db, key, value).db.log[x]);
    OpenedTableHolds(secSize, f, key, value, m);
    ghost var n := OpenedTable(secSize, f, key, value, m);
    var r := Kvdb.Open(storage, secSize, maxSize, f, 1, n);
    kvdb := r.value;
    if Firm(f) {
      FirmShows(kvdb.db.flash);
    }
    now := kvdb.GetVec(key);
    kept := kvdb.GetVec(other);
  }

  /** A database that is to be opened again, for the sake of a deletion still pending. */
  lemma PendingMedium(kvdb: Kvdb, m: Table)
    requires kvdb.Mendable() && Reopens(kvdb.secSize, kvdb.db.flash, m)
    ensures OnMedium(kvdb.storage.mem, kvdb.secSize, kvdb.maxSize, kvdb.db.flash)
    ensures var d := Load(kvdb.secSize, kvdb.db.flash, 1);
      d.Some? && Resting(d.value) && Holds(d.value.flash, m)
  {
    hide Base, FlashAt, AllShow, Scannable, Recoverable, Resting, Holds, Load, AllIntact, Firm;
  }

  /** The database opened again from its storage. */
  method OpenAgain(first: Kvdb, ghost m: Table) returns (kvdb: Kvdb)
    requires ValidGeometry(first.secSize, first.maxSize) && first.Mendable()
    requires (first.Rested() && first.table == m) || Reopens(first.secSize, first.db.flash, m)
    modifies first.storage
    ensures fresh(kvdb) && kvdb.storage == first.storage && kvdb.initOk
    ensures kvdb.Rested() && kvdb.table == m && (Firm(old(first.db).flash) ==> kvdb.AtRest() && Firm(kvdb.db.flash))
  {
    hide FlashAt, AllShow, Holds, Scannable, Load, Openable, Base, Resting, AllShowEnd, AllIntact, Recoverable, Reopens, OnMedium, Firm;
    if first.Rested() && first.table == m {
      RestMedium(first);
    } else {
      PendingMedium(first, m);
    }
    var r := Kvdb.Open(first.storage, first.secSize, first.maxSize, first.db.flash, 1, m);
    kvdb := r.value;
    if Firm(kvdb.db.flash) {
      FirmShows(kvdb.db.flash);
    }
  }

  /** Opening twice is always enough: whichever write of the `set` was the last one, the store is at rest and
      holds the old or the new map. Unless a stray byte is left and some record ends in an erased one, it is
      ready for any further `set`. */
  method ReopenTwice(storage: RamStorage, secSize: u32, maxSize: u32, ghost db: Db, key: Key, ghost value: seq<byte>,
                     ghost m: Table, ghost x: nat)
    returns (kvdb: Kvdb)
    requires ValidGeometry(secSize, maxSize) && storage.Valid()
    requires 64 <= secSize == db.secSize && maxSize == Base(|db.flash|, secSize) && maxSize + secSize < 0x1_0000_0000
    requires Resting(db) && Holds(db.flash, m) && Scannable(db.flash, db.secSize) && NoStray(db.flash)
    requires Readable(key) && NodeSize(key, value) < 0x1_0000_0000 && OneMagic(NewNode(Write, key, value))
    requires AllocKv(Begin(db), NodeSize(key, value)).sec.Some?
    requires x < |SetKv(db, key, value).db.log| && FlashAt(storage.mem, SetKv(db, key, value).db.log[x], db.secSize)
    requires RoomToRecover(Fresh(db.secSize, Seen(SetKv(db, key, value).db.log[x])))
    modifies storage
    ensures fresh(kvdb) && kvdb.storage == storage && kvdb.initOk && kvdb.Rested()
    ensures kvdb.table == m || kvdb.table == m[key := value]
    ensures Blunt(db.flash) ==> kvdb.AtRest() && Firm(kvdb.db.flash)
  {
    hide *;
    var first, was, kept0 := ReopenAfterCut(storage, secSize, maxSize, db, key, value, m, x, key);
    kvdb := OpenAgain(first, if Reopens(secSize, first.db.flash, m) then m else first.table);
  }

  /** The table of the database opened by a recovery that may collect. */
  ghost function RetriedTable(secSize: nat, f: seq<Sector>, key: Key, value: seq<byte>, m: Table): Table
    requires Retried(secSize, f, key, value, m)
  {
    if TornFirst(Fresh(secSize, f)) then m - {key} else if Opens(Load(secSize, f, 2), m) then m else m[key := value]
  }

  lemma RetriedTableHolds(secSize: nat, f: seq<Sector>, key: Key, value: seq<byte>, m: Table)
    requires Retried(secSize, f, key, value, m)
    ensures 0 < |f| && Load(secSize, f, 2).Some?
    ensures var d := Load(secSize, f, 2).value; var n := RetriedTable(secSize, f, key, value, m);
      && AllSearched(d.flash) && Holds(d.flash, n)
      && (TornFirst(Fresh(secSize, f)) ==> key in m && n == m - {key})
      && (!TornFirst(Fresh(secSize, f)) ==> Resting(d) && (n == m || n == m[key := value]))
  {
    hide Load, TornFirst, Resting, Holds, AllSearched, Fresh;
  }

  /** The power-cut theorem for the database without asking for room: unless the cut image is stuck, two rounds of
      recovery are enough, with a collection if there is need of one. It is asked that no record ends in an erased byte,
      so that the collection finds the end of every sector. */
  method ReopenRetrying(storage: RamStorage, secSize: u32, maxSize: u32, ghost db: Db, key: Key, ghost value: seq<byte>,
                        ghost m: Table, ghost x: nat)
    returns (kvdb: Kvdb, now: Option<seq<byte>>)
    requires ValidGeometry(secSize, maxSize) && storage.Valid()
    requires 64 <= secSize == db.secSize && maxSize == Base(|db.flash|, secSize) && maxSize + secSize < 0x1_0000_0000
    requires Resting(db) && Holds(db.flash, m) && Scannable(db.flash, db.secSize) && NoStray(db.flash) && Blunt(db.flash)
    requires Readable(key) && NodeSize(key, value) < 0x1_0000_0000 && OneMagic(NewNode(Write, key, value))
    requires AllocKv(Begin(db), NodeSize(key, value)).sec.Some?
    requires x < |SetKv(db, key, value).db.log| && FlashAt(storage.mem, SetKv(db, key, value).db.log[x], db.secSize)
    requires !Stuck(Fresh(db.secSize, Seen(SetKv(db, key, value).db.log[x])))
    modifies storage
    ensures fresh(kvdb) && kvdb.storage == storage && kvdb.initOk && kvdb.Mapped() && Firm(kvdb.db.flash)
    ensures var torn := TornFirst(Fresh(db.secSize, Seen(SetKv(db, key, value).db.log[x])));
      && (now in {if key in m then Some(m[key]) else None, Some(value)} <==> !torn)
      && (torn ==> now == None && kvdb.table == m - {key})
      && (!torn ==> kvdb.AtRest() && (kvdb.table == m || kvdb.table == m[key := value]))
  {
    hide NodeCrc, ReadName, WfSector, WfShape, Contents, SpareRoom, Count, Calm, Retried, Fresh, Seen, SetKv, Firm, Blunt, Stuck,
         AllocKv, Holds, OneMagic, Scannable, NoStray, NoVictim, Load, NewNode, Get, TornFirst, Base, FlashAt, AllShow, Resting, AllShowEnd,
         AllSearched, AllIntact, Recoverable;
    RestingBounds(db);
    CutMends(db, key, value, m, x);
    CutRetries(db, key, value, m, x);
    SeenAt(storage.mem, SetKv(db, key, value).db.log[x], db.secSize);
    ghost var f := Seen(SetKv(db, key, value).db.log[x]);
    RetriedTableHolds(secSize, f, key, value, m);
    var r := Kvdb.Open(storage, secSize, maxSize, f, 2, RetriedTable(secSize, f, key, value, m));
    kvdb := r.value;
    FirmShows(kvdb.db.flash);
    now := kvdb.GetVec(key);
  }
}
