/** A stray byte and a record that ends in an erased byte hide the end of a sector: it is taken to be one byte
    earlier, and the next record that goes there takes the last byte of the one before it. */
module KvClip {
  import opened Bytes
  import opened Status
  import opened Sectors
  import opened Wrappers
  import opened KvModel
  import opened KvContents
  import opened KvInvariant
  import opened KvGc
  import opened KvMap
  import opened KvLayout
  import opened KvImage
  import opened KvScan
  import opened KvCrash
  import opened KvStrays

  predicate NoClipped(sec: Sector) {
    sec.Sector? ==> forall j :: 0 <= j < |sec.nodes| ==> !sec.nodes[j].Clipped?
  }

  /** The end of the sector is hidden by a single stray byte and a live record. */
  ghost predicate Clippable(sec: Sector) {
    && HasStore(sec, Using) && sec.nodes != []
    && SeenLen(sec.nodes, |sec.nodes|) + 1 == Used(sec.nodes)
    && NoClipped(sec)
    && var last := sec.nodes[|sec.nodes| - 1];
      Live(last) && EndsErased(last) && OneMagic(last)
  }

  /** The sector with the last byte of its last record taken away. */
  function Clip(sec: Sector): Sector {
    if sec.Sector? && sec.nodes != [] && sec.nodes[|sec.nodes| - 1].Node? then
      var last := sec.nodes[|sec.nodes| - 1];
      sec.(nodes := sec.nodes[|sec.nodes| - 1 := Clipped(last.nameLen, last.crc, last.data)])
    else sec
  }

  /** The key of the last record of a sector. */
  function LastKey(sec: Sector): seq<byte> {
    if sec.Sector? && sec.nodes != [] && Live(sec.nodes[|sec.nodes| - 1]) then Name(sec.nodes[|sec.nodes| - 1]) else []
  }

  /** The sector as far as measuring it finds it written. */
  ghost function Apparent(sec: Sector): Sector {
    if !EndShows(sec) && Clippable(sec) then Clip(sec) else sec
  }

  /** The log as far as measuring its sectors finds them written. */
  ghost function ApparentLog(db: Db): (d: Db)
    ensures d == db.(flash := d.flash) && |d.flash| == |db.flash|
    ensures forall i :: 0 <= i < |db.flash| ==> d.flash[i] == Apparent(db.flash[i])
  {
    db.(flash := seq(|db.flash|, i requires 0 <= i < |db.flash| => Apparent(db.flash[i])))
  }

  /** Measuring a sector finds where its contents end, or that they end one byte earlier. */
  ghost predicate Measurable(sec: Sector) {
    EndShows(sec) || Clippable(sec)
  }

  lemma ApparentSame(db: Db)
    requires AllShowEnd(db.flash)
    ensures ApparentLog(db) == db
  {
    hide EndShows, Clippable;
    forall i | 0 <= i < |db.flash| ensures ApparentLog(db).flash[i] == db.flash[i] {
      assert EndShows(db.flash[i]);
    }
  }

  lemma {:induction false} ClipOff(nodes: seq<Node>, j: nat, node: Node)
    requires 0 < j == |nodes| && node.Len() + 1 == nodes[j - 1].Len()
    ensures Off(nodes[j - 1 := node], j) + 1 == Off(nodes, j)
    ensures forall k :: 0 <= k < j ==> Off(nodes[j - 1 := node], k) == Off(nodes, k)
  {
    forall k | 0 <= k < j ensures Off(nodes[j - 1 := node], k) == Off(nodes, k) {
      OffAgree(nodes[j - 1 := node], nodes, k);
    }
  }

  lemma {:induction false} OffAgree(a: seq<Node>, b: seq<Node>, k: nat)
    requires k <= |a| && k <= |b| && forall x :: 0 <= x < k ==> a[x] == b[x]
    ensures Off(a, k) == Off(b, k)
  {
    if k > 0 {
      OffAgree(a, b, k - 1);
    }
  }

  lemma ClipUsed(sec: Sector)
    requires sec.Sector? && sec.nodes != [] && sec.nodes[|sec.nodes| - 1].Node? && sec.nodes[|sec.nodes| - 1].data != []
    ensures Used(Clip(sec).nodes) + 1 == Used(sec.nodes) && |Clip(sec).nodes| == |sec.nodes|
    ensures forall k :: 0 <= k < |sec.nodes| ==> Off(Clip(sec).nodes, k) == Off(sec.nodes, k)
  {
    var last := sec.nodes[|sec.nodes| - 1];
    ClipOff(sec.nodes, |sec.nodes|, Clipped(last.nameLen, last.crc, last.data));
  }

  /** Where measuring such a sector finds its end. */
  lemma ClipFound(mem: seq<byte>, flash: seq<Sector>, size: nat, i: nat, seen: nat, r: nat)
    requires FlashAt(mem, flash, size) && i < |flash| && Clippable(flash[i])
    requires seen + 1 == Used(flash[i].nodes)
    requires Base(i, size) + SECTOR_HDR + seen <= r <= Base(i, size) + size <= |mem|
    requires r <= Base(i, size) + SECTOR_HDR + Used(flash[i].nodes)
    requires r > Base(i, size) + SECTOR_HDR + seen ==> mem[r - 1] != BYTE_ERASED
    ensures r == Base(i, size) + SECTOR_HDR + seen
  {
    hide SectorAt, Base, Off, NodeCrc, OneMagic, FlashAt;
    SectorEnds(mem, flash, size, i);
  }

  // ------------------------------------------------------------ clipping is no step

  lemma ClipNode(s: seq<byte>, o: nat, node: Node)
    requires NodeAt(s, o, node) && Live(node) && EndsErased(node)
    ensures NodeAt(s, o, Clipped(node.nameLen, node.crc, node.data))
  {
    hide NodeCrc, Word, CrcHead, Code;
    assert node.(st := Write) == node;
    var n := |node.data|;
    assert s[o + 24..o + 23 + n] == s[o + 24..o + 24 + n][..n - 1];
  }

  /** The bytes that hold a sector also hold it clipped. */
  lemma ClipSector(s: seq<byte>, sec: Sector)
    requires SectorAt(s, sec) && Clippable(sec)
    ensures SectorAt(s, Clip(sec))
  {
    hide HeadAt, NodeAt, Off, Live, OneMagic, EndsErased;
    var n := |sec.nodes|;
    LiveNode(sec.nodes[n - 1]);
    var nodes, clipped := sec.nodes, Clip(sec).nodes;
    ClipUsed(sec);
    NodeInSector(s, sec, n - 1);
    ClipNode(s, SECTOR_HDR + Off(nodes, n - 1), nodes[n - 1]);
    NodeEnds(s, SECTOR_HDR + Off(nodes, n - 1), nodes[n - 1]);
    OffNext(nodes, n - 1);
    forall j | 0 <= j < n ensures NodeAt(s, SECTOR_HDR + Off(clipped, j), clipped[j]) {
      assert NodeAt(s, SECTOR_HDR + Off(nodes, j), nodes[j]);
    }
  }

  lemma LiveNode(node: Node)
    requires Live(node) && EndsErased(node)
    ensures node.Node? && node.data != [] && node.st == Write
  {}

  lemma ClippableLast(sec: Sector)
    requires Clippable(sec)
    ensures sec.Sector? && sec.store == Using && sec.nodes != []
    ensures var last := sec.nodes[|sec.nodes| - 1]; last.Node? && last.data != [] && Live(last) && EndsErased(last)
  {
    hide OneMagic, NodeCrc;
  }

  lemma FlashPut(mem: seq<byte>, flash: seq<Sector>, size: nat, t: nat, sec: Sector)
    requires FlashAt(mem, flash, size) && t < |flash|
    requires Base(t, size) + size <= |mem| && SectorAt(Part(mem, t, size), sec)
    ensures FlashAt(mem, flash[t := sec], size)
  {
    hide SectorAt, Base, Part;
    forall i | 0 <= i < |flash| ensures Base(i, size) + size <= |mem| && SectorAt(Part(mem, i, size), flash[t := sec][i]) {
      PartAt(mem, flash, size, i);
    }
  }

  lemma ClipFlash(mem: seq<byte>, flash: seq<Sector>, size: nat, t: nat)
    requires FlashAt(mem, flash, size) && t < |flash| && Clippable(flash[t])
    ensures FlashAt(mem, flash[t := Clip(flash[t])], size)
  {
    hide SectorAt, Base, Clippable, Clip, FlashAt, Part, Live, EndsErased;
    ClippableLast(flash[t]);
    PartAt(mem, flash, size, t);
    ClipSector(Part(mem, t, size), flash[t]);
    FlashPut(mem, flash, size, t, Clip(flash[t]));
  }

  // ------------------------------------------------------------ allocation in such a log

  /** The ends of all sectors show or are off by one. */
  ghost predicate AllMeasurable(flash: seq<Sector>) {
    forall i :: 0 <= i < |flash| ==> Measurable(flash[i])
  }

  lemma ShowingMeasures(flash: seq<Sector>)
    requires AllShowEnd(flash)
    ensures AllMeasurable(flash)
  {
    hide EndShows, Clippable;
  }

  lemma ApparentHead(sec: Sector)
    ensures var a := Apparent(sec);
      && a.Sector? == sec.Sector?
      && (sec.Sector? ==>
            a.store == sec.store && a.dirty == sec.dirty && |a.nodes| == |sec.nodes| && Used(a.nodes) <= Used(sec.nodes))
      && (EndShows(sec) ==> a == sec)
  {
    hide EndShows, Clippable;
    if !EndShows(sec) && Clippable(sec) {
      ClippableLast(sec);
      ClipUsed(sec);
    }
  }

  lemma {:induction false} CountApparent(db: Db, st: StoreStatus, k: nat)
    requires k <= |db.flash|
    ensures CountStore(ApparentLog(db).flash, st, 0, k) == CountStore(db.flash, st, 0, k)
  {
    hide Apparent;
    if k > 0 {
      CountApparent(db, st, k - 1);
      ApparentHead(db.flash[k - 1]);
    }
  }

  /** Room that measuring finds is room. */
  lemma ApparentRoom(db: Db, size: nat, t: nat)
    requires t < |db.flash| && Scannable(db.flash, db.secSize)
    requires HasRoom(ApparentLog(db), Using, size, t) || HasRoom(ApparentLog(db), Empty, size, t)
    ensures Formatted(db, t) && HasSpace(ApparentLog(db), t, size)
    ensures EndShows(db.flash[t]) ==> HasSpace(db, t, size)
  {
    hide Used, Walkable, Apparent, EndShows;
    ApparentHead(db.flash[t]);
    ScanAt(db.flash, db.secSize, t);
    WalkStarts(db.flash, db.secSize, t);
  }

  // ------------------------------------------------------------ writing behind a hidden end

  /** The part of `set_kv` after allocation, in a sector whose end may be hidden. */
  ghost function Behind(db: Db, t: nat, key: seq<byte>, value: seq<byte>): (r: Ended)
    requires db.oldest < |db.flash| && Formatted(db, t) && NodeSize(key, value) < 0x1_0000_0000
    requires EndShows(db.flash[t]) || Clippable(db.flash[t])
    ensures |r.db.flash| == |db.flash| && r.db.secSize == db.secSize && r.db.oldest == db.oldest
  {
    hide EndShows, Clippable, Clip, CreateChecked, Replace, Extends;
    if EndShows(db.flash[t]) || |key| > KV_NAME_MAX then
      var r := Replace(db, t, key, value);
      ExtendsLength(db.flash, r.db.flash);
      r
    else
      ClippableLast(db.flash[t]);
      ClipHead(db.flash[t]);
      var d := Put(db, t, Clip(db.flash[t]));
      var r := CreateChecked(d, t, key, value);
      ExtendsLength(d.flash, r.db.flash);
      r
  }

  lemma ClipHead(sec: Sector)
    requires sec.Sector? && sec.nodes != [] && sec.nodes[|sec.nodes| - 1].Node?
    ensures Clip(sec).Sector? && Clip(sec).store == sec.store && Clip(sec).dirty == sec.dirty
  {}

  /** A sector that has lost a byte to the next record can be walked again. */
  lemma ClipWalks(sec: Sector, size: nat, node: Node)
    requires Walkable(sec, size) && Clippable(sec) && Intact(node) && node.st == Write
    requires Clip(sec).Sector? && SECTOR_HDR + Used(Clip(sec).nodes) + node.Len() + THRESHOLD < size
    ensures Walkable(Hold(Clip(sec), node), size)
  {
    hide NodeCrc, Off, EndsErased, SeenLen, WfNode;
    ClippableLast(sec);
    var n := |sec.nodes|;
    var h := Hold(Clip(sec), node);
    UsedHold(Clip(sec).nodes, node);
    forall j | 0 <= j < |h.nodes|
      ensures WfNode(h.nodes[j]) && (h.nodes[j].Blank? ==> j == 0) && (Intact(h.nodes[j]) || OneMagic(h.nodes[j]))
      ensures h.nodes[j].Clipped? ==> j + 1 < |h.nodes|
    {
      if j < n - 1 {
        assert h.nodes[j] == sec.nodes[j];
      } else if j == n - 1 {
        ClippedMagic(sec.nodes[n - 1], h.nodes[j]);
      } else {
        WfIntact(node);
      }
    }
  }

  lemma ClippedMagic(last: Node, c: Node)
    requires last.Node? && last.st == Write && OneMagic(last) && c == Clipped(last.nameLen, last.crc, last.data)
    ensures OneMagic(c) && WfNode(c)
  {
    hide NodeCrc;
    assert Unclipped(c) == last;
  }

  lemma WfIntact(node: Node)
    requires Intact(node) && node.st == Write
    ensures WfNode(node)
  {
    hide NodeCrc;
  }

  lemma SpaceMeans(db: Db, t: nat, size: nat)
    requires HasSpace(db, t, size)
    ensures SECTOR_HDR + Used(db.flash[t].nodes) + size + THRESHOLD < db.secSize
  {
    hide Used;
  }

  lemma ClipScans(db: Db, t: nat, key: seq<byte>, value: seq<byte>)
    requires db.oldest < |db.flash| && Formatted(db, t) && NodeSize(key, value) < 0x1_0000_0000
    requires !EndShows(db.flash[t]) && Clippable(db.flash[t]) && Scannable(db.flash, db.secSize) && |key| <= KV_NAME_MAX
    requires HasSpace(ApparentLog(db), t, NodeSize(key, value))
    ensures Scannable(Behind(db, t, key, value).db.flash, db.secSize)
  {
    hide Walkable, EndShows, Clippable, Clip, CreateChecked, NewNode, Used, Scannable;
    ClippableLast(db.flash[t]);
    ClipHead(db.flash[t]);
    var sec := Clip(db.flash[t]);
    var d := Put(db, t, sec);
    FitsOpens(d, t, NodeSize(key, value));
    CreateFlash(d, t, key, value);
    CreateCases(d, t, key, value);
    ScanAt(db.flash, db.secSize, t);
    var node := NewNode(Write, key, value);
    NewNodeIs(Write, key, value);
    SpaceMeans(d, t, NodeSize(key, value));
    ClipWalks(db.flash[t], db.secSize, node);
    assert sec.(store := Using) == sec;
    assert d.flash[t := Hold(sec, node)] == db.flash[t := Hold(sec, node)];
    ScanPut(db.flash, db.secSize, t, Hold(sec, node));
  }

  // ------------------------------------------------------------ what is lost

  lemma {:induction false} ScanIgnores(db: Db, log: seq<seq<Sector>>, want: StoreStatus, size: nat, k: nat)
    requires db.oldest < |db.flash| && k <= |db.flash|
    ensures AllocScan(db.(log := log), want, size, k) == AllocScan(db, want, size, k)
    decreases |db.flash| - k
  {
    hide Used;
    if k < |db.flash| {
      ScanIgnores(db, log, want, size, k + 1);
    }
  }

  lemma AllocIgnores(db: Db, log: seq<seq<Sector>>, size: nat)
    requires db.oldest < |db.flash|
    ensures AllocKv(db.(log := log), size).sec == AllocKv(db, size).sec
    ensures AllocKv(db.(log := log), size).db.gcRequest == AllocKv(db, size).db.gcRequest
  {
    hide AllocScan;
    ScanIgnores(db, log, Using, size, 0);
    ScanIgnores(db, log, Empty, size, 0);
  }

  /** The keys that a `set` with a record of `size` bytes loses: that of the last record of the sector it goes
      to, when the end of that sector is hidden. */
  ghost function Lost(db: Db, size: nat): set<seq<byte>>
    requires db.oldest < |db.flash|
  {
    hide EndShows, HasRoom;
    var a := AllocKv(ApparentLog(db), size);
    if a.sec.Some? && !EndShows(db.flash[a.sec.value]) then {LastKey(db.flash[a.sec.value])} else {}
  }

  lemma ClipCalm(flash: seq<Sector>, t: nat)
    requires Calm(flash) && t < |flash| && Clippable(flash[t])
    ensures Calm(flash[t := Clip(flash[t])])
  {
    hide NodeCrc, OneMagic, EndsErased, SeenLen, Off;
    assert CalmSector(flash[t]);
  }

  lemma ClipWf(sec: Sector, size: nat)
    requires WfSector(sec, size) && Clippable(sec)
    ensures Clip(sec).Sector? && Clip(sec).store == Using && Clip(sec).dirty == sec.dirty && WfSector(Clip(sec), size)
  {
    hide NodeCrc, OneMagic, SeenLen, Off, EndsErased;
    ClippableLast(sec);
    ClipUsed(sec);
    forall j | 0 <= j < |sec.nodes| ensures WfNode(Clip(sec).nodes[j]) {
      assert WfNode(sec.nodes[j]);
    }
  }

  lemma ClipSteady(db: Db, t: nat)
    requires Steady(db) && t < |db.flash| && Clippable(db.flash[t])
    ensures Steady(Put(db, t, Clip(db.flash[t])))
  {
    hide Clippable, Clip, WfSector, CountStore;
    ClippableLast(db.flash[t]);
    assert WfSector(db.flash[t], db.secSize) && Unvictimized(db.flash[t]);
    ClipWf(db.flash[t], db.secSize);
    CountUpdate(db.flash, t, Clip(db.flash[t]), Empty, |db.flash|);
  }

  /** Clipping takes the last record away. */
  lemma ClipContents(flash: seq<Sector>, t: nat)
    requires t < |flash| && Clippable(flash[t])
    ensures var last := flash[t].nodes[|flash[t].nodes| - 1];
      && Live(last)
      && Contents(flash[t := Clip(flash[t])], false) + multiset{EntryOf(last)} == Contents(flash, false)
  {
    hide NodeCrc, ReadName, OneMagic, SeenLen, Off, EndsErased, FlashTo, SectorEntries;
    var nodes := flash[t].nodes;
    var last := nodes[|nodes| - 1];
    var c := Clipped(last.nameLen, last.crc, last.data);
    assert SectorEntries(Clip(flash[t]), false) + multiset{EntryOf(last)} == SectorEntries(flash[t], false) by {
      ClipEntries(flash[t]);
    }
    ContentsUpdate(flash, t, Clip(flash[t]), false);
    var a, b, x := Contents(flash[t := Clip(flash[t])], false), Contents(flash, false), SectorEntries(Clip(flash[t]), false);
    assert (a + multiset{EntryOf(last)}) + x == a + (x + multiset{EntryOf(last)}) == b + x;
    Cancel(a + multiset{EntryOf(last)}, b, x);
  }

  lemma ClipEntries(sec: Sector)
    requires Clippable(sec)
    ensures Live(sec.nodes[|sec.nodes| - 1])
    ensures SectorEntries(Clip(sec), false) + multiset{EntryOf(sec.nodes[|sec.nodes| - 1])} == SectorEntries(sec, false)
  {
    hide NodeCrc, ReadName, OneMagic, SeenLen, Off, EndsErased;
    var n := |sec.nodes|;
    var last := sec.nodes[n - 1];
    var c := Clipped(last.nameLen, last.crc, last.data);
    EntriesUpdate(sec.nodes, n - 1, c, n, false);
    NoEntry(c, false);
    EntryOfNode(last, false);
  }

  /** Behind a hidden end, or any other end, a new key is stored. All other keys keep their values, but for the
      one whose record loses its last byte. */
  lemma BehindRefines(db: Db, key: Key, value: seq<byte>, m: Table)
    requires Resting(db) && Holds(db.flash, m) && NodeSize(key, value) < 0x1_0000_0000
    requires |key| <= KV_NAME_MAX && ReadName(key) !in m
    requires AllMeasurable(db.flash) && Scannable(db.flash, db.secSize)
    requires AllocKv(ApparentLog(db), NodeSize(key, value)).sec.Some?
    ensures db.oldest < |db.flash|
    ensures var t := AllocKv(ApparentLog(db), NodeSize(key, value)).sec.value;
      && Formatted(db, t)
      && var r := Behind(db, t, key, value);
        && r.outcome == Done && Resting(r.db) && Holds(r.db.flash, (m - Lost(db, NodeSize(key, value)))[ReadName(key) := value])
  {
    hide NodeCrc, ReadName, Contents, AllocKv, WfSector, Calm, CountStore, HasRoom, EndShows, Clippable, Clip, Holds, Scannable,
         NewNode, CreateChecked, CreateAt, Find, LogOldOrNew;
    var size := NodeSize(key, value);
    var a := ApparentLog(db);
    AllocSpares(a, size);
    var t := AllocKv(a, size).sec.value;
    assert HasRoom(a, Using, size, t) || HasRoom(a, Empty, size, t);
    ApparentRoom(db, size, t);
    CountApparent(db, Empty, |db.flash|);
    assert Measurable(db.flash[t]);
    if EndShows(db.flash[t]) {
      RoomThere(a, db, size, t);
      ReplaceAbsent(db, t, key, value, m);
      assert m - {} == m;
    } else {
      ClipRefines(db, t, key, value, m);
    }
  }

  lemma RoomThere(a: Db, db: Db, size: nat, t: nat)
    requires |a.flash| == |db.flash| && t < |db.flash| && a.flash[t] == db.flash[t]
    requires a.secSize == db.secSize && a.gcRequest == db.gcRequest
    requires Count(a.flash, Empty) == Count(db.flash, Empty) && SpareRoom(a, size, t)
    ensures SpareRoom(db, size, t)
  {}

  /** Taken for clipped, a log at rest is one that holds all but the last record. */
  lemma ClipRests(db: Db, t: nat, size: nat, m: Table)
    requires Resting(db) && Holds(db.flash, m) && t < |db.flash| && Clippable(db.flash[t]) && !EndShows(db.flash[t])
    requires SpareRoom(ApparentLog(db), size, t)
    ensures var d := Put(db, t, Clip(db.flash[t]));
      && |d.flash| == |db.flash| && Resting(d) && SpareRoom(d, size, t)
      && Holds(d.flash, m - {LastKey(db.flash[t])})
  {
    hide NodeCrc, ReadName, FlashTo, WfSector, CalmSector, CountStore, HasRoom, EndShows, Clippable, Clip, EntryOf, EndsErased, Off;
    ClippableLast(db.flash[t]);
    var last := db.flash[t].nodes[|db.flash[t].nodes| - 1];
    var d := Put(db, t, Clip(db.flash[t]));
    ClipSteady(db, t);
    ClipCalm(db.flash, t);
    CountApparent(db, Empty, |db.flash|);
    CountUpdate(db.flash, t, Clip(db.flash[t]), Empty, |db.flash|);
    ClipHead(db.flash[t]);
    RoomThere(ApparentLog(db), d, size, t);
    ClipContents(db.flash, t);
    LastInMap(db.flash, d.flash, last, m);
  }

  lemma ClipRefines(db: Db, t: nat, key: Key, value: seq<byte>, m: Table)
    requires Resting(db) && Holds(db.flash, m) && NodeSize(key, value) < 0x1_0000_0000
    requires |key| <= KV_NAME_MAX && ReadName(key) !in m
    requires t < |db.flash| && !EndShows(db.flash[t]) && Clippable(db.flash[t]) && SpareRoom(ApparentLog(db), NodeSize(key, value), t)
    ensures db.oldest < |db.flash| && Formatted(db, t)
    ensures var r := Behind(db, t, key, value);
      r.outcome == Done && Resting(r.db) && Holds(r.db.flash, (m - {LastKey(db.flash[t])})[ReadName(key) := value])
  {
    hide NodeCrc, ReadName, Contents, WfSector, Calm, Count, SpareRoom, EndShows, Clippable, Clip, CreateChecked, FindFrom, LogOldOrNew,
         EndsErased, Extends, Apparent, Off;
    ClippableLast(db.flash[t]);
    ClipHead(db.flash[t]);
    ClipRests(db, t, NodeSize(key, value), m);
    var d := Put(db, t, Clip(db.flash[t]));
    var n := m - {LastKey(db.flash[t])};
    ReplaceAbsent(d, t, key, value, n);
    NotInMap(d, n, key);
  }

  lemma LastInMap(f: seq<Sector>, g: seq<Sector>, last: Node, m: Table)
    requires Holds(f, m) && Live(last) && Contents(g, false) + multiset{EntryOf(last)} == Contents(f, false)
    ensures Name(last) in m && Contents(g, false) == multiset(Entries(m - {Name(last)}))
  {
    hide NodeCrc, ReadName, FlashTo;
    var e := EntryOf(last);
    assert e in Contents(f, false);
    EntryIs(m, e);
    AloneInMap(Contents(g, false), m, Name(last));
  }

  /** Should a record ask for a collection, nothing would be in its way: none does. */
  lemma BehindAsks(db: Db, t: nat, key: seq<byte>, value: seq<byte>)
    requires db.oldest < |db.flash| && !db.gcRequest && Formatted(db, t) && NodeSize(key, value) < 0x1_0000_0000
    requires Measurable(db.flash[t]) && (EndShows(db.flash[t]) || |key| <= KV_NAME_MAX)
    requires HasRoom(ApparentLog(db), Using, NodeSize(key, value), t) || HasRoom(ApparentLog(db), Empty, NodeSize(key, value), t)
    ensures var r := Behind(db, t, key, value);
      r.db.gcRequest ==> Firm(r.db.flash) && GcCollect(r.db, NodeSize(key, value)) == r.db
  {
    hide NodeCrc, GcCollect, EndShows, Clippable, Clip, Replace, CreateChecked, Firm, FillsUp, HasRoom, Used, Extends, CreateAt, NewNode;
    var size := NodeSize(key, value);
    OpensUsing(ApparentLog(db), size, t);
    ApparentHead(db.flash[t]);
    if EndShows(db.flash[t]) {
      FillsLess(db, ApparentLog(db), t, size);
      ReplaceAsks(db, t, key, value);
    } else {
      ClippableLast(db.flash[t]);
      ClipHead(db.flash[t]);
      var d := Put(db, t, Clip(db.flash[t]));
      FillsLess(d, ApparentLog(db), t, size);
      CreateCases(d, t, key, value);
    }
  }

  lemma FillsLess(db: Db, a: Db, t: nat, size: nat)
    requires Formatted(db, t) && Formatted(a, t) && db.flash[t].store == a.flash[t].store && db.secSize == a.secSize
    requires Used(db.flash[t].nodes) == Used(a.flash[t].nodes) && !FillsUp(a, t, size)
    ensures !FillsUp(db, t, size)
  {
    hide Used;
  }

  lemma BeginAlike(db: Db, key: seq<byte>, size: nat)
    requires db.oldest < |db.flash|
    ensures Find(Begin(db), key) == Find(db, key)
    ensures AsksForRoom(Begin(db), size) <==> AsksForRoom(db, size)
    ensures AllocKv(ApparentLog(Begin(db)), size).sec == AllocKv(ApparentLog(db), size).sec
  {
    hide AllocKv, Apparent;
    FindIgnoresLog(db, key);
    AsksIgnoresLog(db, size);
    AllocIgnores(ApparentLog(db), [db.flash], size);
    assert ApparentLog(Begin(db)) == ApparentLog(db).(log := [db.flash]);
  }

  /** Where the end shows, nothing is special. */
  lemma BehindShown(db: Db, t: nat, key: seq<byte>, value: seq<byte>)
    requires db.oldest < |db.flash| && NodeSize(key, value) < 0x1_0000_0000 && AllShowEnd(db.flash)
    requires HasSpace(db, t, NodeSize(key, value))
    ensures Formatted(db, t) && EndShows(db.flash[t])
    ensures Behind(db, t, key, value) == Replace(db, t, key, value)
    ensures AllShowEnd(Behind(db, t, key, value).db.flash)
      <==> |key| > KV_NAME_MAX || NodeSize(key, value) + SECTOR_HDR > db.secSize
           || NoStraySector(db.flash[t]) || !EndsErased(NewNode(Write, key, value))
  {
    hide EndShows, Replace, Used, NewNode, EndsErased, NoStraySector;
    assert EndShows(db.flash[t]);
    ReplaceShows(db, t, key, value);
  }

  /** A `set` of a new key, from its start. */
  lemma SetBehind(db: Db, key: Key, value: seq<byte>, m: Table)
    requires Resting(db) && Holds(db.flash, m) && NodeSize(key, value) < 0x1_0000_0000
    requires |key| <= KV_NAME_MAX && ReadName(key) !in m
    requires AllMeasurable(db.flash) && Scannable(db.flash, db.secSize)
    requires db.oldest < |db.flash| && AllocKv(ApparentLog(db), NodeSize(key, value)).sec.Some?
    ensures var t := AllocKv(ApparentLog(Begin(db)), NodeSize(key, value)).sec;
      && t.Some? && Formatted(Begin(db), t.value) && Measurable(Begin(db).flash[t.value])
      && var r := Behind(Begin(db), t.value, key, value);
        && r.outcome == Done && Resting(r.db) && Holds(r.db.flash, (m - Lost(db, NodeSize(key, value)))[ReadName(key) := value])
  {
    hide Scannable, Holds, AllocKv, Behind, Measurable, Calm, WfSector, Count, EndShows, Find;
    BeginRests(db);
    BeginAlike(db, key, NodeSize(key, value));
    BehindRefines(Begin(db), key, value, m);
    assert Measurable(Begin(db).flash[AllocKv(ApparentLog(Begin(db)), NodeSize(key, value)).sec.value]);
  }

  /** Where a stray byte hides an end, not every node is intact. */
  lemma NotShowing(flash: seq<Sector>, t: nat)
    requires t < |flash| && flash[t].Sector? && !EndShows(flash[t])
    ensures !AllIntact(flash) && !NoStray(flash) && !AllShowEnd(flash)
  {
    hide NodeCrc, EndsErased;
  }
}
