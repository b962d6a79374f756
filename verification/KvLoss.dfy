/** How a stray byte loses a record: a `set` cut off after its first write, and two more. */
module KvLoss {
  import opened Bytes
  import opened Wrappers
  import opened Status
  import opened Storage
  import opened Sectors
  import opened Crc32
  import opened KvModel
  import opened KvContents
  import opened KvInvariant
  import opened KvGc
  import opened KvMap
  import opened KvLoad
  import opened KvRuns
  import opened KvLayout
  import opened KvImage
  import opened KvScan
  import opened KvRecovery
  import opened KvStrays
  import opened KvClip
  import opened KvShows
  import opened KvStore
  import opened KvMedium

  // ------------------------------------------------------------ any store

  /** A `set` of a new key that finds room at once appends one record. */
  lemma SetNewAppends(db: Db, key: Key, value: seq<byte>, m: Table)
    requires Resting(db) && Holds(db.flash, m) && key !in m && |key| <= KV_NAME_MAX && NodeSize(key, value) < 0x1_0000_0000
    requires db.oldest < |db.flash| && AllocKv(db, NodeSize(key, value)).sec.Some?
    ensures var t := AllocKv(db, NodeSize(key, value)).sec.value; var r := SetKv(db, key, value); var node := NewNode(Write, key, value);
      && Formatted(db, t) && r.outcome == Done && r.db == CreateAt(Begin(db), t, node)
      && r.db.flash == db.flash[t := Hold(db.flash[t].(store := Using), node)]
  {
    hide NodeCrc, Calm, Count, WfSector, HasRoom, Contents, AllocKv, GcCollect, CreateChecked, NewNode, FindFrom;
    var b, size := Begin(db), NodeSize(key, value);
    BeginRests(db);
    AllocIgnores(db, [db.flash], size);
    AllocSpares(b, size);
    var t := AllocKv(b, size).sec.value;
    RoomIsFormatted(b, size, t) by { SpareIsRoom(b, size, t); }
    CreateAdds(b, t, key, value);
    SearchedAll(b);
    GetIsMapLookup(b, m, key);
    GetNone(b, key);
  }

  /** The state after the first write of such a `set`, in a sector that is in use: a stray byte. */
  lemma FirstWrite(db: Db, key: Key, value: seq<byte>, m: Table)
    requires Resting(db) && Holds(db.flash, m) && key !in m && |key| <= KV_NAME_MAX && NodeSize(key, value) < 0x1_0000_0000
    requires db.oldest < |db.flash| && AllocKv(db, NodeSize(key, value)).sec.Some?
    requires var t := AllocKv(db, NodeSize(key, value)).sec.value; HasStore(db.flash[t], Using)
    ensures var t := AllocKv(db, NodeSize(key, value)).sec.value; var log := SetKv(db, key, value).db.log;
      1 < |log| && log[1] == db.flash[t := Hold(db.flash[t], Stray)]
  {
    hide NodeCrc, Calm, CountStore, AllocScan, Contents, GcCollect, NewNode, SetKv, Used, AllocKv;
    var size := NodeSize(key, value);
    var t := AllocKv(db, size).sec.value;
    var b, node := Begin(db), NewNode(Write, key, value);
    SetNewAppends(db, key, value, m);
    NewNodeIs(Write, key, value);
    assert WfSector(db.flash[t], db.secSize);
    OpensUsing(db, size, t);
    FillsIgnores(db, b, t, size);
    FirstStage(b, t, node);
  }

  lemma FillsIgnores(db: Db, b: Db, t: nat, size: nat)
    requires Formatted(db, t) && b == db.(log := b.log)
    ensures FillsUp(b, t, size) <==> FillsUp(db, t, size)
  {
    hide Used;
  }

  lemma FirstStage(b: Db, t: nat, node: Node)
    requires Formatted(b, t) && b.flash[t].store == Using && b.flash[t].nodes != [] && |b.log| == 1
    requires node.Node? && node.nameLen <= |node.data| && !FillsUp(b, t, node.Len())
    ensures var d := CreateAt(b, t, node); 1 < |d.log| && d.log[1] == b.flash[t := Hold(b.flash[t], Stray)]
  {
    hide FillsUp, Partial;
    var stages := CreateStages(b.flash[t], node);
    var sec := OpenedSector(b, t, node.Len());
    var steps := OpenSteps(b, t, node.Len()) + HoldAll(sec, stages);
    assert sec == b.flash[t];
    assert steps[0] == Hold(sec, stages[0]) && stages[0] == Stray;
  }

  /** A log at rest with one stray byte more is still at rest. */
  lemma StrayRests(db: Db, t: nat, size: nat, m: Table)
    requires Resting(db) && Holds(db.flash, m) && t < |db.flash| && HasStore(db.flash[t], Using)
    requires HasRoom(db, Using, size, t) && 0 < size
    ensures var d := db.(flash := db.flash[t := Hold(db.flash[t], Stray)]); Resting(d) && Holds(d.flash, m)
  {
    hide NodeCrc, Calm, CountStore, Contents, Used, WfNode;
    var sec := db.flash[t];
    var g := Hold(sec, Stray);
    assert sec.(store := Using) == sec;
    assert WfSector(sec, db.secSize) && Unvictimized(sec);
    UsedHold(sec.nodes, Stray);
    assert WfSector(g, db.secSize) by { StrayWf(sec, db.secSize); }
    CountUpdate(db.flash, t, g, Empty, |db.flash|);
    CalmHold(db.flash, t, Stray);
    HoldEntries(sec, Using, Stray, false);
    NoEntry(Stray, false);
    ContentsUpdate(db.flash, t, g, false);
    Cancel(Contents(db.flash[t := g], false), Contents(db.flash, false), SectorEntries(sec, false));
  }

  lemma StrayWf(sec: Sector, size: nat)
    requires WfSector(sec, size) && sec.store == Using && SECTOR_HDR + Used(sec.nodes) + 1 + THRESHOLD < size
    ensures WfSector(Hold(sec, Stray), size)
  {
    hide Intact;
    UsedHold(sec.nodes, Stray);
  }

  // ------------------------------------------------------------ one store

  const KEY_A: seq<byte> := [0x61]
  const KEY_B: seq<byte> := [0x62]
  const KEY_C: seq<byte> := [0x63]
  /** The value set for `KEY_B` is one erased byte. */
  const VALUE_B: seq<byte> := [0xFF]

  function RecA(): Node {
    NewNode(Write, KEY_A, [1])
  }

  function RecB(): Node {
    NewNode(Write, KEY_B, VALUE_B)
  }

  /** Two sectors of 256 bytes; the first holds `nodes`. */
  function Store(nodes: seq<Node>): seq<Sector> {
    [Sector(Using, False, nodes), NewSector]
  }

  lemma RecIs(key: seq<byte>, value: seq<byte>)
    requires |key| == 1 && |value| == 1
    ensures var node := NewNode(Write, key, value);
      && Live(node) && node.Len() == 26 && NodeSize(key, value) == 26 && node.data == [key[0], value[0]]
      && Name(node) == key && Readable(key)
  {
    hide NodeCrc;
    NewNodeIs(Write, key, value);
    var node := NewNode(Write, key, value);
    assert node.data == key + value == [key[0], value[0]];
    assert node.data[..1] == key;
  }

  lemma AllocHere(db: Db, nodes: seq<Node>, size: nat)
    requires db.flash == Store(nodes) && db.secSize == 256 && db.oldest < 2 && Used(nodes) + size + 104 < 256
    ensures AllocKv(db, size).sec == Some(0) && HasRoom(db, Using, size, 0)
  {
    hide AllocKv, Used;
    AllocUsing(db, size, 0);
  }

  lemma AllocBlank(db: Db, size: nat)
    requires db.flash == [NewSector, NewSector] && db.secSize == 256 && db.oldest == 0 && size + 104 < 256
    ensures AllocKv(db, size).sec == Some(0)
  {
    hide HasRoom;
    assert HasRoom(db, Empty, size, 0) by { BlankRoom(db, size); }
    assert CountStore(db.flash, Using, 0, 2) == CountStore(db.flash, Using, 0, 1) == CountStore(db.flash, Using, 0, 0) == 0;
    assert CountStore(db.flash, Empty, 0, 2) == 1 + CountStore(db.flash, Empty, 0, 1) == 2 + CountStore(db.flash, Empty, 0, 0);
  }

  lemma BlankRoom(db: Db, size: nat)
    requires db.flash == [NewSector, NewSector] && db.secSize == 256 && size + 104 < 256
    ensures HasRoom(db, Empty, size, 0)
  {}

  lemma Sizes()
    ensures Used([RecA()]) == 26 && Used([RecA(), Stray]) == 27 && Used([RecA(), Stray, RecB()]) == 53
    ensures SeenLen([RecA(), Stray, RecB()], 3) == 52
  {
    hide NewNode;
    RecIs(KEY_A, [1]);
    RecIs(KEY_B, VALUE_B);
    ThreeNodes(RecA(), Stray, RecB());
  }

  lemma ThreeNodes(a: Node, b: Node, c: Node)
    requires a.Node? && b.Stray? && c.Node?
    ensures Used([a]) == a.Len() && Used([a, b]) == a.Len() + 1 && Used([a, b, c]) == a.Len() + 1 + c.Len()
    ensures SeenLen([a, b, c], 3) == a.Len() + c.Len()
  {
    assert Off([a], 1) == Off([a], 0) + a.Len();
    assert Off([a, b], 2) == Off([a, b], 1) + 1 == Off([a, b], 0) + a.Len() + 1;
    assert Off([a, b, c], 3) == Off([a, b, c], 2) + c.Len();
    assert Off([a, b, c], 2) == Off([a, b, c], 1) + 1 == Off([a, b, c], 0) + a.Len() + 1;
    assert SeenLen([a, b, c], 3) == SeenLen([a, b, c], 2) + c.Len();
    assert SeenLen([a, b, c], 2) == SeenLen([a, b, c], 1) == SeenLen([a, b, c], 0) + a.Len();
  }

  // ------------------------------------------------------------ the checksum of the record

  lemma StepsOfB()
    ensures Crc32.ByteStep(Xor(0xFFFFFFFF, Wide(0x01))) == 0x5AFA20E4
    ensures Crc32.ByteStep(Xor(0x5AFA20E4, Wide(0xFF))) == 0x8A3F33CC
    ensures Crc32.ByteStep(Xor(0x8A3F33CC, Wide(0xFF))) == 0xBF5A5E25
    ensures Crc32.ByteStep(Xor(0xBF5A5E25, Wide(0xFF))) == 0x66B96194
    ensures Crc32.ByteStep(Xor(0x66B96194, Wide(0x01))) == 0x8003DEAA
    ensures Crc32.ByteStep(Xor(0x8003DEAA, Wide(0x00))) == 0x36834928
    ensures Crc32.ByteStep(Xor(0x36834928, Wide(0x00))) == 0x35832BB3
    ensures Crc32.ByteStep(Xor(0x35832BB3, Wide(0x00))) == 0x525D611D
    ensures Crc32.ByteStep(Xor(0x525D611D, Wide(0x62))) == 0xC0E831CC
    ensures Crc32.ByteStep(Xor(0xC0E831CC, Wide(0xFF))) == 0xBF108927
  {}

  lemma FirstOfB()
    ensures Divide(0xFFFFFFFF, [0x01, 0xFF, 0xFF, 0xFF, 0x01, 0x00, 0x00, 0x00, 0x62, 0xFF]) == Divide(0x8003DEAA, [0x00, 0x00, 0x00, 0x62, 0xFF])
  {
    hide Crc32.ByteStep, Wide, Divide, Xor;
    StepsOfB();
    DivideOn(0xFFFFFFFF, [0x01, 0xFF, 0xFF, 0xFF, 0x01, 0x00, 0x00, 0x00, 0x62, 0xFF], [0xFF, 0xFF, 0xFF, 0x01, 0x00, 0x00, 0x00, 0x62, 0xFF], 0x5AFA20E4);
    DivideOn(0x5AFA20E4, [0xFF, 0xFF, 0xFF, 0x01, 0x00, 0x00, 0x00, 0x62, 0xFF], [0xFF, 0xFF, 0x01, 0x00, 0x00, 0x00, 0x62, 0xFF], 0x8A3F33CC);
    DivideOn(0x8A3F33CC, [0xFF, 0xFF, 0x01, 0x00, 0x00, 0x00, 0x62, 0xFF], [0xFF, 0x01, 0x00, 0x00, 0x00, 0x62, 0xFF], 0xBF5A5E25);
    DivideOn(0xBF5A5E25, [0xFF, 0x01, 0x00, 0x00, 0x00, 0x62, 0xFF], [0x01, 0x00, 0x00, 0x00, 0x62, 0xFF], 0x66B96194);
    DivideOn(0x66B96194, [0x01, 0x00, 0x00, 0x00, 0x62, 0xFF], [0x00, 0x00, 0x00, 0x62, 0xFF], 0x8003DEAA);
  }

  lemma RestOfB()
    ensures Divide(0x8003DEAA, [0x00, 0x00, 0x00, 0x62, 0xFF]) == 0xBF108927
  {
    hide Crc32.ByteStep, Wide, Divide, Xor;
    StepsOfB();
    DivideOn(0x8003DEAA, [0x00, 0x00, 0x00, 0x62, 0xFF], [0x00, 0x00, 0x62, 0xFF], 0x36834928);
    DivideOn(0x36834928, [0x00, 0x00, 0x62, 0xFF], [0x00, 0x62, 0xFF], 0x35832BB3);
    DivideOn(0x35832BB3, [0x00, 0x62, 0xFF], [0x62, 0xFF], 0x525D611D);
    DivideOn(0x525D611D, [0x62, 0xFF], [0xFF], 0xC0E831CC);
    DivideOn(0xC0E831CC, [0xFF], [], 0xBF108927);
    DivideNone(0xBF108927);
  }

  lemma CrcOfB()
    ensures Crc(0, [0x01, 0xFF, 0xFF, 0xFF, 0x01, 0x00, 0x00, 0x00, 0x62, 0xFF]) == 0x40EF76D8
  {
    hide Divide;
    FirstOfB();
    RestOfB();
  }

  /** The bytes of the record behind its status hold the magic word once. */
  lemma MagicOfB()
    ensures OneMagic(RecB())
  {
    hide Word, Crc, CrcHead;
    NewNodeIs(Write, KEY_B, VALUE_B);
    var node := RecB();
    assert node.data == [0x62, 0xFF] by { assert node.data == KEY_B + VALUE_B; }
    BodyOfB(node);
    forall k: nat | 1 <= k ensures !MagicAt(Body(node), k) {
      NotMagicFirst(Body(node), k);
    }
  }

  lemma NotMagicFirst(s: seq<byte>, k: nat)
    requires k < |s| ==> s[k] != 0x4B
    ensures !MagicAt(s, k)
  {
    hide Word;
    MagicBytes();
    if k + 4 <= |s| {
      assert s[k..k + 4][0] == s[k];
    }
  }

  lemma BodyOfB(node: Node)
    requires node.Node? && node.nameLen == 1 && node.data == [0x62, 0xFF] && Intact(node)
    ensures Body(node) == [0x4B, 0x56, 0x30, 0x30, 0x1A, 0x00, 0x00, 0x00, 0xD8, 0x76, 0xEF, 0x40,
                           0x01, 0xFF, 0xFF, 0xFF, 0x01, 0x00, 0x00, 0x00, 0x62, 0xFF]
  {
    hide Word, Crc, Byte;
    SmallBytes();
    WordOfDigits(0x4B, 0x56, 0x30, 0x30);
    WordOfDigits(0x1A, 0x00, 0x00, 0x00);
    WordOfDigits(0xD8, 0x76, 0xEF, 0x40);
    WordOfDigits(0x01, 0x00, 0x00, 0x00);
    var head := CrcHead(1, 1);
    assert head == [0x01, 0xFF, 0xFF, 0xFF, 0x01, 0x00, 0x00, 0x00];
    CrcOfB();
    assert head + node.data == [0x01, 0xFF, 0xFF, 0xFF, 0x01, 0x00, 0x00, 0x00, 0x62, 0xFF];
    assert node.crc == 0x40EF76D8 by { CrcNumber(); }
  }

  lemma CrcNumber()
    ensures (0x40EF76D8 as bv32) as int == 0x40EF76D8
  {}

  lemma SmallBytes()
    ensures Byte(0x4B) == 0x4B && Byte(0x56) == 0x56 && Byte(0x30) == 0x30 && Byte(0x1A) == 0x1A && Byte(0) == 0 && Byte(1) == 1
    ensures Byte(0xD8) == 0xD8 && Byte(0x76) == 0x76 && Byte(0xEF) == 0xEF && Byte(0x40) == 0x40
  {}

  // ------------------------------------------------------------ the states of the run

  /** Behind the stray byte, the record of `KEY_B` hides the end of the sector. */
  lemma HidesB()
    ensures var sec := Store([RecA(), Stray, RecB()])[0]; !EndShows(sec) && Clippable(sec) && LastKey(sec) == KEY_B
  {
    hide NewNode, OneMagic, NodeCrc, ReadName;
    Sizes();
    MagicOfB();
    RecIs(KEY_A, [1]);
    RecIs(KEY_B, VALUE_B);
    var sec := Store([RecA(), Stray, RecB()])[0];
    assert sec.nodes[1].Stray? && EndsErased(sec.nodes[2]);
  }

  lemma ShowsStray()
    ensures AllShowEnd(Store([RecA(), Stray]))
  {
    hide NewNode;
  }

  lemma ShowsA()
    ensures NoStray(Store([RecA()]))
  {
    hide NewNode;
  }

  /** The state that the cut leaves can be opened. */
  lemma CutIsOpenable(db: Db, m: Table)
    requires Resting(db) && Holds(db.flash, m) && Scannable(db.flash, 256) && db.secSize == 256 && db.flash == Store([RecA()])
    ensures Openable(256, Store([RecA(), Stray]))
    ensures var d := Load(256, Store([RecA(), Stray]), 1);
      d.Some? && Resting(d.value) && Holds(d.value.flash, m) && d.value.flash == Store([RecA(), Stray])
  {
    hide NewNode, Resting, Holds, Scannable, Openable, Load, Walkable, Used, HasRoom, OneMagic, AllocKv, RecA, RecB;
    Sizes();
    RestingBounds(db);
    AllocHere(db, [RecA()], 26);
    StrayRests(db, 0, 26, m);
    var d := db.(flash := Store([RecA(), Stray]));
    assert [RecA()] + [Stray] == [RecA(), Stray];
    assert db.flash[0 := Hold(db.flash[0], Stray)] == d.flash;
    StrayScans(db.flash, 256, 0);
    RestOpens(d, m);
  }

  lemma StrayScans(flash: seq<Sector>, size: nat, t: nat)
    requires Scannable(flash, size) && t < |flash| && HasStore(flash[t], Using) && SECTOR_HDR + Used(flash[t].nodes) + 1 + THRESHOLD < size
    ensures Scannable(flash[t := Hold(flash[t], Stray)], size)
  {
    hide Walkable, Used;
    ScanAt(flash, size, t);
    StrayWalks(flash[t], size);
    ScanPut(flash, size, t, Hold(flash[t], Stray));
  }

  lemma StrayWalks(sec: Sector, size: nat)
    requires Walkable(sec, size) && sec.store == Using && SECTOR_HDR + Used(sec.nodes) + 1 + THRESHOLD < size
    ensures Walkable(Hold(sec, Stray), size)
  {
    hide Intact, WfNode, OneMagic;
    UsedHold(sec.nodes, Stray);
    assert WfNode(Stray) by { StrayIsWf(); }
    assert OneMagic(Stray) by { HeadlessMagic(Stray); }
  }

  lemma StrayIsWf()
    ensures WfNode(Stray)
  {}

  lemma Geometry()
    ensures Base(0, 256) == 0 && Base(1, 256) == 256 && Base(2, 256) == 512 && ValidGeometry(256, 512)
  {}

  // ------------------------------------------------------------ the run

  ghost predicate Holding(kvdb: Kvdb, nodes: seq<Node>, m: Table)
    reads kvdb, kvdb.storage
  {
    && kvdb.initOk && kvdb.Rested() && kvdb.secSize == 256 && kvdb.maxSize == 512
    && kvdb.db.flash == Store(nodes) && kvdb.table == m
  }

  /** A blank medium is opened. */
  method OpenBlank() returns (kvdb: Kvdb)
    ensures fresh(kvdb) && fresh(kvdb.storage) && kvdb.initOk && kvdb.AtRest() && kvdb.secSize == 256 && kvdb.maxSize == 512
    ensures kvdb.db.flash == [NewSector, NewSector] && kvdb.db.oldest == 0 && kvdb.table == map[] && NoStray(kvdb.db.flash)
  {
    hide Base, Fill, FlashAt, AllShow, Scannable, AllIntact, Resting, Holds, Load, NoStray, Firm, AllShowEnd;
    Geometry();
    BlankMedium(256, 512, 2);
    FormatBlank(256, BlankFlash(2), 1);
    var disk := new RamStorage.New(512);
    var r := Kvdb.Open(disk, 256, 512, BlankFlash(2), 1, map[]);
    kvdb := r.value;
    NoStrayShows(kvdb.db.flash);
    assert kvdb.db.flash == [NewSector, NewSector];
  }

  /** A blank medium is opened and one value set. */
  method StoreOne() returns (kvdb: Kvdb)
    ensures fresh(kvdb) && fresh(kvdb.storage) && Holding(kvdb, [RecA()], map[KEY_A := [1]])
  {
    hide FlashAt, AllShow, Scannable, AllIntact, Resting, Holds, NewNode, AllocKv, ApparentLog, AllMeasurable, NoStray, Firm,
         AllShowEnd, SetKv, EachKeeps, HidesEnd, SpareRoom, Lost;
    Tables();
    kvdb := OpenBlank();
    BlankLoads();
    ShowingMeasures(kvdb.db.flash);
    ApparentSame(kvdb.db);
    RecIs(KEY_A, [1]);
    AllocBlank(kvdb.db, 26);
    SetNewAppends(kvdb.db, KEY_A, [1], map[]);
    var a := kvdb.Set(KEY_A, [1]);
  }

  lemma BlankLoads()
    ensures [NewSector, NewSector][0 := Hold(NewSector.(store := Using), RecA())] == Store([RecA()])
  {
    hide NewNode;
    assert [] + [RecA()] == [RecA()];
  }

  /** The medium that a power cut after the first write of a second `set` leaves. */
  method CutSecond(kvdb: Kvdb) returns (disk: RamStorage)
    requires Holding(kvdb, [RecA()], map[KEY_A := [1]])
    ensures fresh(disk) && disk.Valid() && |disk.mem| == |kvdb.storage.mem| && kvdb.db.oldest < |kvdb.db.flash|
    ensures var log := SetKv(kvdb.db, KEY_B, VALUE_B).db.log;
      1 < |log| && log[1] == Store([RecA(), Stray]) && FlashAt(disk.mem, log[1], 256)
  {
    hide Base, FlashAt, AllShow, Scannable, AllIntact, Resting, Holds, NewNode, AllocKv, SetKv, SectorAt, Part, RecA;
    Geometry();
    Sizes();
    RecIs(KEY_B, VALUE_B);
    RestingBounds(kvdb.db);
    AllocHere(kvdb.db, [RecA()], 26);
    FirstWrite(kvdb.db, KEY_B, VALUE_B, kvdb.table);
    ghost var sec := Sector(Using, False, [RecA()]);
    assert [RecA()] + [Stray] == [RecA(), Stray];
    PartAt(kvdb.storage.mem, kvdb.db.flash, 256, 0);
    WriteHeadless(Part(kvdb.storage.mem, 0, 256), sec);
    FlashWrite(kvdb.storage.mem, kvdb.db.flash, 256, 0, 42, [Code(1)], Hold(sec, Stray));
    disk := new RamStorage.FromBytes(Overwrite(kvdb.storage.mem, 42, [Code(1)]));
  }

  /** The medium is opened, and the second `set` and one more are made. */
  method SetTwice(disk: RamStorage, ghost db: Db) returns (kvdb: Kvdb, before: Option<seq<byte>>, after: Option<seq<byte>>)
    requires disk.Valid() && FlashAt(disk.mem, Store([RecA(), Stray]), 256)
    requires Resting(db) && Holds(db.flash, map[KEY_A := [1]]) && Scannable(db.flash, 256) && db.secSize == 256
    requires db.flash == Store([RecA()])
    modifies disk
    ensures fresh(kvdb) && kvdb.initOk && kvdb.Rested()
    ensures before == Some(VALUE_B) && after == None
    ensures kvdb.table == map[KEY_A := [1], KEY_C := [2]]
  {
    hide Base, FlashAt, AllShow, Scannable, AllIntact, Resting, Holds, Load, NewNode, AllocKv, ApparentLog, AllMeasurable, NoStray, Firm,
         AllShowEnd, SetKv, RecA, RecB, Openable;
    Geometry();
    ghost var f := Store([RecA(), Stray]);
    CutIsOpenable(db, map[KEY_A := [1]]);
    var r := Kvdb.Open(disk, 256, 512, f, 1, map[KEY_A := [1]]);
    kvdb := r.value;
    SetSecond(kvdb);
    kvdb.RestedIsMapped();
    before := kvdb.GetVec(KEY_B);
    SetThird(kvdb);
    kvdb.RestedIsMapped();
    after := kvdb.GetVec(KEY_B);
  }

  method SetSecond(kvdb: Kvdb)
    requires Holding(kvdb, [RecA(), Stray], map[KEY_A := [1]])
    modifies kvdb, kvdb.storage
    ensures Holding(kvdb, [RecA(), Stray, RecB()], map[KEY_A := [1], KEY_B := VALUE_B])
  {
    hide FlashAt, AllShow, Scannable, AllIntact, Resting, Holds, NewNode, AllocKv, ApparentLog, AllMeasurable, NoStray, Firm,
         AllShowEnd, SetKv, RecA, Used, EachKeeps, HidesEnd, SpareRoom, Lost;
    Sizes();
    Tables();
    ShowsStray();
    ShowingMeasures(kvdb.db.flash);
    ApparentSame(kvdb.db);
    RecIs(KEY_B, VALUE_B);
    RestingBounds(kvdb.db);
    AllocHere(kvdb.db, [RecA(), Stray], 26);
    SetNewAppends(kvdb.db, KEY_B, VALUE_B, kvdb.table);
    assert [RecA(), Stray] + [RecB()] == [RecA(), Stray, RecB()];
    var b := kvdb.Set(KEY_B, VALUE_B);
  }

  lemma Tables()
    ensures map[][KEY_A := [1 as byte]] == map[KEY_A := [1]]
    ensures map[KEY_A := [1 as byte]][KEY_B := VALUE_B] == map[KEY_A := [1], KEY_B := VALUE_B]
    ensures (map[KEY_A := [1 as byte], KEY_B := VALUE_B] - {KEY_B})[KEY_C := [2]] == map[KEY_A := [1], KEY_C := [2]]
    ensures KEY_B !in map[KEY_A := [1 as byte]] && KEY_C !in map[KEY_A := [1 as byte], KEY_B := VALUE_B]
    ensures KEY_B !in map[KEY_A := [1 as byte], KEY_C := [2]]
  {
    assert KEY_A[0] != KEY_B[0] && KEY_A[0] != KEY_C[0] && KEY_B[0] != KEY_C[0];
  }

  /** The third record takes the last byte of the second. */
  method SetThird(kvdb: Kvdb)
    requires Holding(kvdb, [RecA(), Stray, RecB()], map[KEY_A := [1], KEY_B := VALUE_B])
    modifies kvdb, kvdb.storage
    ensures kvdb.initOk && kvdb.Rested() && kvdb.table == map[KEY_A := [1], KEY_C := [2]]
  {
    hide FlashAt, AllShow, Scannable, AllIntact, Resting, Holds, NewNode, AllocKv, NoStray, Firm,
         SetKv, RecA, RecB, Used, EndShows, Clippable, Clip, LastKey, Apparent, EachKeeps, HidesEnd, SpareRoom, Lost, ApparentLog,
         AllMeasurable, AllShowEnd;
    Tables();
    RecIs(KEY_C, [2]);
    RestingBounds(kvdb.db);
    HidesB();
    RoomBehindB(kvdb.db);
    var c := kvdb.Set(KEY_C, [2]);
  }

  /** Measuring finds room in the first sector, one byte too early. */
  lemma RoomBehindB(db: Db)
    requires db.flash == Store([RecA(), Stray, RecB()]) && db.secSize == 256 && db.oldest < 2
    ensures AllMeasurable(db.flash) && !AllShowEnd(db.flash)
    ensures AllocKv(ApparentLog(db), 26).sec == Some(0) && Lost(db, 26) == {KEY_B}
  {
    hide NewNode, AllocKv, RecA, RecB, Used, EndShows, Clippable, Clip, LastKey, Apparent;
    HidesB();
    Sizes();
    NewShowing();
    assert !EndShows(db.flash[0]);
    ApparentHead(db.flash[0]);
    ApparentHead(db.flash[1]);
    AllocHere(ApparentLog(db), ApparentLog(db).flash[0].nodes, 26);
  }

  lemma NewShowing()
    ensures EndShows(NewSector)
  {}

  /** A `set` is cut off after its first write. After opening, it is made again and succeeds, and its value reads
      back. One more `set`, of another key, and it is gone. */
  method LosingRun() returns (kvdb: Kvdb, before: Option<seq<byte>>, after: Option<seq<byte>>)
    ensures fresh(kvdb) && kvdb.initOk && kvdb.Rested()
    ensures before == Some(VALUE_B) && after == None
    ensures kvdb.table == map[KEY_A := [1], KEY_C := [2]]
  {
    hide FlashAt, AllShow, Scannable, AllIntact, Resting, Holds, NewNode, RecA, SetKv;
    var first := StoreOne();
    var disk := CutSecond(first);
    kvdb, before, after := SetTwice(disk, first.db);
  }
}
