/** Whole runs of the key-value engine: from a blank medium, through any sequence of operations and
    reopenings, the log holds what a map would hold. */
module KvRuns {
  import opened Bytes
  import opened Wrappers
  import opened Sectors
  import opened KvModel
  import opened KvContents
  import opened KvInvariant
  import opened KvGc
  import opened KvMap
  import opened KvLoad
  import opened KvCrash

  /** Opening a log at rest changes nothing but the place where scans begin. */
  lemma CleanReopen(db: Db, m: Table)
    requires Resting(db) && Holds(db.flash, m)
    ensures var d := Load(db.secSize, db.flash, 1);
      && d.Some? && Resting(d.value) && Holds(d.value.flash, m)
      && d.value.flash == db.flash && d.value.secSize == db.secSize
      && d.value.log == [db.flash]
  {
    hide NodeCrc, Contents, WfNode, Off, Count, Load, FindOldest;
    assert Opening(Fresh(db.secSize, db.flash), {});
    forall x: nat, y: nat | x < |db.flash| && db.flash[x].Sector? && y < |db.flash[x].nodes| ensures Quiet(db.flash[x].nodes[y]) {
      assert CalmSector(db.flash[x]);
    }
    var e := Fresh(db.secSize, db.flash);
    PassQuiet(e);
    LoadIsPass(db.secSize, db.flash, {}, e);
    OpenedRests(e);
  }

  // ------------------------------------------------------------ a blank medium

  const NewSector: Sector := Sector(Empty, False, [])

  lemma FormatFlash(db: Db, i: nat)
    requires i < |db.flash|
    ensures Format(db, i).flash == db.flash[i := NewSector]
  {}

  lemma {:induction false} CheckBlank(db: Db, k: nat, failed: nat)
    requires db.oldest == 0 && 0 < |db.flash| && k <= |db.flash| && failed == k
    requires forall x :: 0 <= x < |db.flash| ==> db.flash[x] == if x < k then NewSector else Raw
    ensures var c := CheckHeaders(db, k, failed);
      && c.failed == |db.flash|
      && (forall x :: 0 <= x < |db.flash| ==> c.db.flash[x] == NewSector)
      && c.db == db.(flash := c.db.flash, log := c.db.log)
    decreases |db.flash| - k
  {
    hide Format;
    if k < |db.flash| {
      FormatFlash(db, k);
      FormatKeeps(db, k);
      CheckBlank(Format(db, k), k + 1, failed + 1);
    }
  }

  lemma FormatKeeps(db: Db, i: nat)
    requires i < |db.flash|
    ensures Format(db, i) == db.(flash := Format(db, i).flash, log := Format(db, i).log)
  {}

  lemma {:induction false} FormatAllNew(db: Db, k: nat)
    requires k <= |db.flash| && forall x :: 0 <= x < k ==> db.flash[x] == NewSector
    ensures var d := FormatAll(db, k);
      && |d.flash| == |db.flash|
      && (forall x :: 0 <= x < |db.flash| ==> d.flash[x] == NewSector)
      && d == db.(flash := d.flash, log := d.log, oldest := 0)
    decreases |db.flash| - k
  {
    hide Format;
    if k < |db.flash| {
      FormatFlash(db, k);
      FormatKeeps(db, k);
      FormatAllNew(Format(db, k), k + 1);
    }
  }

  lemma {:induction false} OldestBlank(flash: seq<Sector>, k: nat, last: StoreStatus)
    requires k <= |flash| && 0 < |flash| && forall x :: 0 <= x < |flash| ==> flash[x].Raw?
    ensures OldestFrom(flash, k, last, 0) == 0
    decreases |flash| - k
  {
    if k < |flash| {
      OldestBlank(flash, k + 1, StoreStatus.Unused);
    }
  }

  lemma {:induction false} NoEntries(flash: seq<Sector>, i: nat, pd: bool)
    requires i <= |flash| && forall x :: 0 <= x < |flash| ==> flash[x] == NewSector
    ensures FlashTo(flash, i, pd) == multiset{}
  {
    if i > 0 {
      NoEntries(flash, i - 1, pd);
    }
  }

  /** A medium without any header is formatted and holds the empty map. */
  lemma FormatBlank(secSize: nat, flash: seq<Sector>, rounds: nat)
    requires 0 < rounds
    requires 2 <= |flash| && forall x :: 0 <= x < |flash| ==> flash[x].Raw?
    ensures var d := Load(secSize, flash, rounds);
      && d.Some? && Resting(d.value) && Holds(d.value.flash, map[])
      && d.value.secSize == secSize && |d.value.flash| == |flash| && d.value.oldest == 0
      && forall x :: 0 <= x < |flash| ==> d.value.flash[x] == NewSector
  {
    hide CheckHeaders, FormatAll, RecoverPass, Resume, Format;
    var e := Fresh(secSize, flash);
    OldestBlank(flash, 0, StoreStatus.Unused);
    CheckBlank(e, 0, 0);
    var c := CheckHeaders(e, 0, 0);
    FormatAllNew(c.db, 0);
    var d := FormatAll(c.db, 0);
    ResumeNothing(d, 0, 0);
    assert Prepare(secSize, flash) == d;
    CountPositive(d.flash, Empty, 0, |d.flash|);
    PassQuiet(d);
    assert RecoverRounds(d, rounds) == Some(d);
    NoEntries(d.flash, |d.flash|, false);
    assert Entries(map[]) == {};
  }

  // ------------------------------------------------------------ runs

  datatype Op = Set(key: Key, value: seq<byte>) | Delete(key: Key) | Reopen

  /** The arguments fit the engine's 32-bit arithmetic. */
  predicate Legal(op: Op) {
    op.Set? ==> NodeSize(op.key, op.value) < 0x1_0000_0000
  }

  predicate AllLegal(ops: seq<Op>) {
    forall x :: 0 <= x < |ops| ==> Legal(ops[x])
  }

  function Reopened(db: Db): Db
    requires 0 < |db.flash|
  {
    var d := Load(db.secSize, db.flash, 1);
    if d.Some? then d.value else db
  }

  function Step(db: Db, op: Op): (r: Db)
    requires db.oldest < |db.flash| && Legal(op)
    ensures r.oldest < |r.flash|
  {
    hide SetKv, DelKv, Load;
    match op
    case Set(key, value) => SetKv(db, key, value).db
    case Delete(key) => DelKeeps(db, key); DelKv(db, key).db
    case Reopen => Reopened(db)
  }

  lemma DelKeeps(db: Db, key: Key)
    requires db.oldest < |db.flash|
    ensures DelKv(db, key).db.oldest < |DelKv(db, key).db.flash|
  {
    hide MarkDel;
    var hit := Find(db, key);
    if hit.Some? {
      ExtendsLength(db.flash, DelKv(db, key).db.flash);
    }
  }

  /** What a map would do: failed calls leave it alone. */
  function StepTable(db: Db, m: Table, op: Op): Table
    requires db.oldest < |db.flash| && Legal(op)
  {
    match op
    case Set(key, value) => SetTable(m, StoredKey(key), value, SetKv(db, key, value).outcome)
    case Delete(key) => m - {key}
    case Reopen => m
  }

  function Run(db: Db, ops: seq<Op>): (r: Db)
    requires db.oldest < |db.flash| && AllLegal(ops)
    ensures r.oldest < |r.flash|
    decreases |ops|
  {
    hide Step;
    if ops == [] then db else Run(Step(db, ops[0]), ops[1..])
  }

  function RunTable(db: Db, m: Table, ops: seq<Op>): Table
    requires db.oldest < |db.flash| && AllLegal(ops)
    decreases |ops|
  {
    if ops == [] then m else RunTable(Step(db, ops[0]), StepTable(db, m, ops[0]), ops[1..])
  }

  /** No key of the run that does not read back is stored under a name that is taken. */
  ghost predicate RunStorable(db: Db, m: Table, ops: seq<Op>)
    requires db.oldest < |db.flash| && AllLegal(ops)
    decreases |ops|
  {
    ops == [] || ((ops[0].Set? ==> Storable(ops[0].key, m)) && RunStorable(Step(db, ops[0]), StepTable(db, m, ops[0]), ops[1..]))
  }

  lemma StepRefines(db: Db, m: Table, op: Op)
    requires Resting(db) && Holds(db.flash, m) && Legal(op) && (op.Set? ==> Storable(op.key, m))
    ensures Resting(Step(db, op)) && Holds(Step(db, op).flash, StepTable(db, m, op))
  {
    hide NodeCrc, ReadName, Contents, WfSector, Count, SetKv, DelKv, Load, Holds, Calm, LogOldOrNew;
    match op
    case Set(key, value) => SetRefinesMap(db, key, value, m);
    case Delete(key) => DelRefinesMap(db, key, m);
    case Reopen => CleanReopen(db, m);
  }

  /** Every run refines a run on a map: the log stays at rest between operations, with an empty sector in
      reserve, and a lookup returns what the map holds. */
  lemma {:induction false} RunRefines(db: Db, m: Table, ops: seq<Op>, key: Key)
    requires Resting(db) && Holds(db.flash, m) && AllLegal(ops) && RunStorable(db, m, ops)
    ensures var d := Run(db, ops); var n := RunTable(db, m, ops);
      && Resting(d)
      && 0 < Count(d.flash, Empty)
      && Holds(d.flash, n)
      && Get(d, key) == if key in n then Some(n[key]) else None
    decreases |ops|
  {
    hide NodeCrc, ReadName, Contents, WfSector, Count, Holds, Calm, Step, StepTable, Get, Legal;
    if ops == [] {
      SearchedAll(db);
      GetIsMapLookup(db, m, key);
    } else {
      StepRefines(db, m, ops[0]);
      RunRefines(Step(db, ops[0]), StepTable(db, m, ops[0]), ops[1..], key);
    }
  }

  function BlankFlash(sectors: nat): (f: seq<Sector>)
    ensures |f| == sectors
  {
    seq(sectors, _ => Raw)
  }

  /** The same from a blank medium: the engine is a map that starts empty. */
  lemma RunFromBlank(secSize: nat, sectors: nat, rounds: nat, ops: seq<Op>, key: Key) returns (d: Db)
    requires 2 <= sectors && 0 < rounds && AllLegal(ops)
    ensures Load(secSize, BlankFlash(sectors), rounds) == Some(d)
    ensures d.oldest < |d.flash|
    ensures var n := RunTable(d, map[], ops);
      RunStorable(d, map[], ops) ==> Get(Run(d, ops), key) == if key in n then Some(n[key]) else None
  {
    hide Get, Run, RunTable, Load, Resting, AllLegal, RunStorable;
    FormatBlank(secSize, BlankFlash(sectors), rounds);
    d := Load(secSize, BlankFlash(sectors), rounds).value;
    RestingBounds(d);
    if RunStorable(d, map[], ops) {
      RunRefines(d, map[], ops, key);
    }
  }

  lemma RestingBounds(d: Db)
    requires Resting(d)
    ensures d.oldest < |d.flash| && WfDb(d)
  {}

  /** A new key finds room if there is some that spares the last empty sector. */
  lemma SetNew(db: Db, key: Key, value: seq<byte>, t: nat)
    requires Resting(db) && Find(db, key).None? && |key| <= KV_NAME_MAX && NodeSize(key, value) < 0x1_0000_0000
    requires t < |db.flash| && SpareRoom(db, NodeSize(key, value), t)
    ensures db.oldest < |db.flash| && SetKv(db, key, value).outcome == Done
  {
    hide NodeCrc, Calm, Count, WfSector, HasRoom, Contents, AllocKv, GcCollect, CreateChecked;
    var b, size := Begin(db), NodeSize(key, value);
    BeginRests(db);
    FindIgnoresLog(db, key);
    SpareIgnoresLog(db, size);
    AllocSpares(b, size);
    var a := AllocKv(b, size);
    CreateAdds(b, a.sec.value, key, value);
  }

  lemma FirstRoom(db: Db, size: nat)
    requires 2 <= |db.flash| && forall x :: 0 <= x < |db.flash| ==> db.flash[x] == NewSector
    requires SECTOR_HDR + size + THRESHOLD < db.secSize
    ensures SpareRoom(db, size, 0)
  {
    var n := |db.flash|;
    assert CountStore(db.flash, Empty, 0, n) == 1 + CountStore(db.flash, Empty, 0, n - 1);
    CountPositive(db.flash, Empty, 0, n - 1);
  }

  /** In a newly formatted store a value set under a name of 64 letters cannot be read back. */
  lemma LongKeyLost(key: Key, value: seq<byte>)
    requires key == seq(64, _ => 0x41 as byte) && value == [1]
    ensures var d := Load(4096, BlankFlash(4), 1);
      && d.Some? && d.value.oldest < |d.value.flash|
      && SetKv(d.value, key, value).outcome == Done
      && Get(SetKv(d.value, key, value).db, key) == None
  {
    hide NodeCrc, ReadName, Contents, Load, SetKv, Calm, SpareRoom, Find, Get;
    FormatBlank(4096, BlankFlash(4), 1);
    var db := Load(4096, BlankFlash(4), 1).value;
    RestingBounds(db);
    SearchedAll(db);
    GetIsMapLookup(db, map[], key);
    GetNone(db, key);
    FirstRoom(db, NodeSize(key, value));
    SetNew(db, key, value, 0);
    ReadableIs(key);
    NotFound(SetKv(db, key, value).db, key);
  }

  lemma NotFound(db: Db, key: Key)
    requires db.oldest < |db.flash| && !Readable(key)
    ensures Get(db, key) == None
  {
    hide NodeCrc, Find;
    GetNone(db, key);
    if Find(db, key).Some? {
      FoundIsReadable(db, key);
    }
  }
}
