/** What is in memory about a sector, and what it says of the log. */
module KvInfo {
  import opened Bytes
  import opened Sectors
  import opened KvModel
  import opened KvLoad
  import opened KvInvariant
  import opened KvLayout
  import opened KvImage
  import opened KvRead
  import opened KvScan
  import opened KvClip

  /** A sector as read into memory. */
  datatype SecInfo = SecInfo(
    checkOk: bool,
    store: StoreStatus,
    dirty: DirtyStatus,
    addr: u32,
    combined: u32,
    remain: int,
    emptyKv: u32)

  function BlankSecInfo(): SecInfo {
    SecInfo(false, StoreStatus.Unused, DirtyStatus.Unused, 0, NOT_COMBINED, 0, FAILED_ADDR)
  }

  /** `info` is what reading the header of sector `i` gives. */
  predicate InfoIs(info: SecInfo, db: Db, i: nat) {
    && i < |db.flash|
    && info.addr == Base(i, db.secSize)
    && info.checkOk == db.flash[i].Sector?
    && info.store == StoreOf(db.flash[i])
    && info.dirty == (if db.flash[i].Raw? then DirtyStatus.Unused else db.flash[i].dirty)
    && info.combined == NOT_COMBINED
  }

  lemma InfoStore(info: SecInfo, db: Db, i: nat)
    requires InfoIs(info, db, i)
    ensures HasStore(db.flash[i], Empty) <==> info.checkOk && info.store == Empty
    ensures HasStore(db.flash[i], Using) <==> info.checkOk && info.store == Using
    ensures info.store != StoreStatus.Unused ==> info.checkOk
  {}

  /** The free space of sector `i` as found by walking it. */
  predicate Measured(info: SecInfo, db: Db, i: nat) {
    && i < |db.flash|
    && info.remain == Remain(db, i)
    && info.emptyKv == (if db.flash[i].Raw? then FAILED_ADDR else Base(i, db.secSize) + SECTOR_HDR + Used(db.flash[i].nodes))
  }

  /** `info` is what has been found out about sector `i` when space in it is allocated. */
  predicate Allotted(info: SecInfo, db: Db, i: nat) {
    && i < |db.flash| && db.flash[i].Sector?
    && info.addr == Base(i, db.secSize) && info.store == db.flash[i].store
    && Measured(info, db, i)
  }

  lemma RoomReads(info: SecInfo, db: Db, want: StoreStatus, size: nat, i: nat)
    requires InfoIs(info, db, i) && Measured(info, db, i) && info.store == want && want != StoreStatus.Unused
    ensures HasRoom(db, want, size, i) <==>
      info.remain > size + THRESHOLD && (info.dirty == False || (info.dirty == True && !db.gcRequest))
    ensures info.checkOk
  {
    hide Used;
  }

  lemma NoRoomReads(info: SecInfo, db: Db, want: StoreStatus, size: nat, i: nat)
    requires InfoIs(info, db, i) && info.store != want
    ensures !HasRoom(db, want, size, i)
  {
    hide Used;
  }

  /** What has been allotted by measuring is so allotted in the log itself, or in the clipped one. */
  lemma ApparentAllots(info: SecInfo, db: Db, t: nat, size: nat)
    requires Allotted(info, ApparentLog(db), t) && HasSpace(ApparentLog(db), t, size)
    ensures Formatted(db, t)
    ensures EndShows(db.flash[t]) ==> Allotted(info, db, t) && HasSpace(db, t, size)
  {
    hide EndShows, Apparent, Used;
    ApparentHead(db.flash[t]);
  }

  lemma ClipAllots(info: SecInfo, db: Db, t: nat, size: nat)
    requires Allotted(info, ApparentLog(db), t) && HasSpace(ApparentLog(db), t, size)
    requires !EndShows(db.flash[t]) && Clippable(db.flash[t])
    ensures Formatted(db, t)
    ensures var d := Put(db, t, Clip(db.flash[t])); Allotted(info, d, t) && HasSpace(d, t, size)
  {
    hide EndShows, Clippable, Clip, Used;
    ClippableLast(db.flash[t]);
    assert Apparent(db.flash[t]) == Clip(db.flash[t]);
  }

  lemma InfoApparent(info: SecInfo, db: Db, i: nat)
    requires InfoIs(info, db, i)
    ensures InfoIs(info, ApparentLog(db), i)
  {
    hide Apparent;
    ApparentHead(db.flash[i]);
  }

  lemma SearchedReads(info: SecInfo, db: Db, i: nat)
    requires InfoIs(info, db, i) && Scannable(db.flash, db.secSize)
    ensures Searched(db.flash[i]) <==> info.checkOk && (info.store == Using || info.store == Full)
    ensures Searched(db.flash[i]) ==> Walkable(db.flash[i], db.secSize) && db.flash[i].store == Using
  {
    hide Base, OneMagic, WfNode, Intact;
  }

  lemma InfoAllots(info: SecInfo, db: Db, i: nat)
    requires InfoIs(info, db, i) && Measured(info, db, i) && db.flash[i].Sector?
    ensures Allotted(info, db, i)
  {
    hide Remain, Used;
  }

  /** Marking a node elsewhere or here leaves the allotment good. */
  lemma AllotMarked(info: SecInfo, db: Db, t: nat, l: Loc, complete: bool)
    requires Allotted(info, db, t) && At(db, l.sec, l.node) && db.flash[l.sec].nodes[l.node].Node?
    ensures Allotted(info, MarkDel(db, l.sec, l.node, complete), t)
    ensures forall size :: HasSpace(db, t, size) ==> HasSpace(MarkDel(db, l.sec, l.node, complete), t, size)
  {
    hide MarkDel;
    var sec := db.flash[l.sec];
    var st := if complete then Deleted else PreDelete;
    MarkDelFlash(db, l.sec, l.node, complete);
    OffUpdate(sec.nodes, l.node, sec.nodes[l.node].(st := st), |sec.nodes|);
  }

  lemma VictimReads(info: SecInfo, db: Db, i: nat)
    requires InfoIs(info, db, i)
    ensures db.flash[i].Sector? && db.flash[i].dirty == Gc <==> info.checkOk && info.dirty == Gc
  {}

  /** Where a hidden end is found. */
  lemma MeasuredEnd(mem: seq<byte>, db: Db, i: nat, seen: nat, r: nat)
    requires FlashAt(mem, db.flash, db.secSize) && i < |db.flash| && HasStore(db.flash[i], Using)
    requires Base(i, db.secSize) + SECTOR_HDR + seen <= r <= Base(i, db.secSize) + db.secSize <= |mem|
    requires r <= Base(i, db.secSize) + SECTOR_HDR + Used(db.flash[i].nodes)
    requires r > Base(i, db.secSize) + SECTOR_HDR + seen ==> mem[r - 1] != BYTE_ERASED
    requires NoClipped(db.flash[i]) ==> seen == SeenLen(db.flash[i].nodes, |db.flash[i].nodes|)
    ensures ApparentLog(db).secSize == db.secSize
    ensures Clippable(db.flash[i]) && !EndShows(db.flash[i]) ==>
      && r == Base(i, db.secSize) + SECTOR_HDR + seen && NoClipped(db.flash[i])
      && HasStore(ApparentLog(db).flash[i], Using) && Used(ApparentLog(db).flash[i].nodes) == seen
    ensures EndShows(db.flash[i]) ==> ApparentLog(db).flash[i] == db.flash[i]
  {
    hide Base, FlashAt, EndShows, SeenLen, Off, OneMagic, Live;
    if Clippable(db.flash[i]) && !EndShows(db.flash[i]) {
      ClippableLast(db.flash[i]);
      ClipUsed(db.flash[i]);
      ClipFound(mem, db.flash, db.secSize, i, seen, r);
    }
  }

  lemma InfoRaw(info: SecInfo, db: Db, i: nat)
    requires InfoIs(info, db, i)
    ensures info.checkOk == db.flash[i].Sector?
  {}

  lemma AllotFits(info: SecInfo, db: Db, t: nat, size: nat)
    requires Allotted(info, db, t)
    ensures Formatted(db, t)
    ensures HasSpace(db, t, size) ==> SECTOR_HDR + Used(db.flash[t].nodes) + size <= db.secSize
  {
    hide Used, Remain;
  }

  lemma RoomSpace(db: Db, size: nat, t: nat)
    requires t < |db.flash| && Scannable(db.flash, db.secSize)
    requires HasRoom(db, Using, size, t) || HasRoom(db, Empty, size, t)
    ensures HasSpace(db, t, size)
  {
    hide Used, Scannable;
    RoomFits(db, size, t);
  }

  lemma RemainIgnoresOldest(db: Db, i: nat)
    requires i < |db.flash|
    ensures forall k :: Remain(db.(oldest := k), i) == Remain(db, i)
  {
    hide Used;
  }
}
