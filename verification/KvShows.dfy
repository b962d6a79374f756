/** What the images of a medium show: one of the logged states each, and with it the old or the new contents. */
module KvShows {
  import opened Bytes
  import opened Wrappers
  import opened Sectors
  import opened KvModel
  import opened KvLoad
  import opened KvInvariant
  import opened KvLayout
  import opened KvImage
  import opened KvScan
  import opened KvRecovery
  import opened KvStrays
  import opened KvContents
  import opened KvGc
  import opened KvMap
  import opened KvRuns

  /** The image shows one of the logged states. */
  predicate Shows(img: seq<byte>, log: seq<seq<Sector>>, size: nat) {
    exists p :: 0 <= p < |log| && FlashAt(img, log[p], size)
  }

  predicate AllShow(history: seq<seq<byte>>, log: seq<seq<Sector>>, size: nat) {
    forall h :: 0 <= h < |history| ==> Shows(history[h], log, size)
  }

  lemma ShowsMore(history: seq<seq<byte>>, log: seq<seq<Sector>>, size: nat, img: seq<byte>, flash: seq<Sector>)
    requires AllShow(history, log, size) && FlashAt(img, flash, size)
    ensures AllShow(history + [img], log + [flash], size)
    ensures |log| > 0 && log[|log| - 1] == flash ==> AllShow(history + [img], log, size)
  {
    hide FlashAt;
    forall h | 0 <= h < |history + [img]| ensures Shows((history + [img])[h], log + [flash], size) {
      if h < |history| {
        assert Shows(history[h], log, size);
        var p :| 0 <= p < |log| && FlashAt(history[h], log[p], size);
        assert (log + [flash])[p] == log[p];
      } else {
        assert (log + [flash])[|log|] == flash;
      }
    }
    if |log| > 0 && log[|log| - 1] == flash {
      forall h | 0 <= h < |history + [img]| ensures Shows((history + [img])[h], log, size) {
        if h < |history| {
          assert Shows(history[h], log, size);
        }
      }
    }
  }

  lemma ShowsLonger(history: seq<seq<byte>>, log: seq<seq<Sector>>, size: nat, flash: seq<Sector>)
    requires AllShow(history, log, size)
    ensures AllShow(history, log + [flash], size)
  {
    hide FlashAt;
    forall h | 0 <= h < |history| ensures Shows(history[h], log + [flash], size) {
      assert Shows(history[h], log, size);
      var p :| 0 <= p < |log| && FlashAt(history[h], log[p], size);
      assert (log + [flash])[p] == log[p];
    }
  }

  lemma PartOfPut(mem: seq<byte>, db: Db, i: nat, sec: Sector)
    requires i < |db.flash| && FlashAt(mem, Put(db, i, sec).flash, db.secSize)
    ensures Base(i, db.secSize) + db.secSize <= |mem| && SectorAt(Part(mem, i, db.secSize), sec)
    ensures Put(db, i, sec).flash == db.flash[i := sec]
  {
    hide SectorAt, Base, FlashAt;
    PartAt(mem, db.flash[i := sec], db.secSize, i);
  }

  lemma PutFlash(db: Db, i: nat, sec: Sector)
    requires i < |db.flash|
    ensures Put(db, i, sec).flash == db.flash[i := sec]
  {}

  lemma PutPut(flash: seq<Sector>, i: nat, a: Sector, b: Sector)
    requires i < |flash|
    ensures flash[i := a][i := b] == flash[i := b]
  {}

  lemma PutAt(db: Db, i: nat, sec: Sector)
    requires i < |db.flash|
    ensures |Put(db, i, sec).flash| == |db.flash| && Put(db, i, sec).flash[i] == sec
  {}

  /** Each image shows a log that keeps the old or the new value of `key`, and every other entry of `m`. */
  ghost predicate EachKeeps(history: seq<seq<byte>>, size: nat, m: Table, key: Key, value: seq<byte>) {
    forall h :: 0 <= h < |history| ==> ShowsKept(history[h], size, m, key, value)
  }

  ghost predicate ShowsKept(img: seq<byte>, size: nat, m: Table, key: Key, value: seq<byte>) {
    exists f: seq<Sector> :: FlashAt(img, f, size) && OldOrNew(f, m, key, value)
  }

  lemma LogKeepsEach(history: seq<seq<byte>>, db: Db, size: nat, m: Table, key: Key, value: seq<byte>)
    requires AllShow(history, db.log, size) && LogOldOrNew(db, 0, m, key, value)
    ensures EachKeeps(history, size, m, key, value)
  {
    hide FlashAt, OldOrNew;
    forall h | 0 <= h < |history| ensures ShowsKept(history[h], size, m, key, value) {
      assert Shows(history[h], db.log, size);
      var p :| 0 <= p < |db.log| && FlashAt(history[h], db.log[p], size);
      assert OldOrNew(db.log[p], m, key, value);
    }
  }

  /** Each image shows a log that keeps all entries of `m`, or all but that of `key`. */
  ghost predicate EachKeepsOrDrops(history: seq<seq<byte>>, size: nat, m: Table, key: Key) {
    forall h :: 0 <= h < |history| ==> ShowsKeptOrDropped(history[h], size, m, key)
  }

  ghost predicate ShowsKeptOrDropped(img: seq<byte>, size: nat, m: Table, key: Key) {
    exists f: seq<Sector> :: FlashAt(img, f, size) && (Kept(f) == Entries(m) || Kept(f) == Entries(m - {key}))
  }

  lemma KeepsOrDropsEach(history: seq<seq<byte>>, db: Db, size: nat, m: Table, key: Key)
    requires AllShow(history, db.log, size)
    requires forall x :: 0 <= x < |db.log| ==> Kept(db.log[x]) == Entries(m) || Kept(db.log[x]) == Entries(m - {key})
    ensures EachKeepsOrDrops(history, size, m, key)
  {
    hide FlashAt, Kept;
    forall h | 0 <= h < |history| ensures ShowsKeptOrDropped(history[h], size, m, key) {
      assert Shows(history[h], db.log, size);
      var p :| 0 <= p < |db.log| && FlashAt(history[h], db.log[p], size);
    }
  }

  lemma BaseIsProduct(n: nat, size: nat)
    ensures Base(n, size) == n * size
  {}

  /** The medium holds the log `flash`, in a geometry for which the engine's arithmetic stays within 32 bits. */
  ghost predicate OnMedium(mem: seq<byte>, secSize: u32, maxSize: u32, flash: seq<Sector>) {
    && 64 <= secSize && maxSize + secSize < 0x1_0000_0000
    && maxSize == Base(|flash|, secSize)
    && FlashAt(mem, flash, secSize)
    && Openable(secSize, flash)
  }

  lemma MediumIsValid(mem: seq<byte>, secSize: u32, maxSize: u32, flash: seq<Sector>)
    requires OnMedium(mem, secSize, maxSize, flash)
    ensures 2 <= |flash| && Base(0, secSize) == 0
  {
    BaseNext(0, secSize);
  }

  lemma OpenableMends(secSize: nat, flash: seq<Sector>)
    requires Openable(secSize, flash)
    ensures Scannable(flash, secSize) && Recoverable(flash) && (Firm(flash) || NoVictim(flash))
  {}

  lemma LoadIs(secSize: nat, flash: seq<Sector>, rounds: nat)
    requires Openable(secSize, flash) && Load(secSize, flash, rounds).Some?
    ensures var c := CheckHeaders(Fresh(secSize, flash), 0, 0);
      var d := if c.failed == |flash| then FormatAll(c.db, 0) else c.db;
      && |d.flash| == |flash| && d.oldest < |d.flash|
      && var e := Resume(d, d.oldest, 0);
      && RecoverRounds(e, rounds).Some?
      && (Firm(flash) || !RecoverPass(e, 0).gcRequest)
      && Load(secSize, flash, rounds) == Some(RecoverRounds(e, rounds).value.(recovering := false))
  {
    hide CheckHeaders, FormatAll, Resume, Extends, RecoverPass, Recoverable, NoVictim, Scannable, Firm;
    FormatAllOldest(CheckHeaders(Fresh(secSize, flash), 0, 0).db, 0);
    if !Firm(flash) {
      RecoverFirst(Prepare(secSize, flash), 1);
    }
  }

  /** Formatting every sector leaves an empty log at rest. */
  lemma FormatAllRests(db: Db)
    requires 2 <= |db.flash| && !db.gcRequest && !db.recovering
    ensures var d := FormatAll(db, 0);
      Resting(d) && Holds(d.flash, map[]) && NoStray(d.flash) && AllIntact(d.flash) && Scannable(d.flash, db.secSize)
  {
    hide FormatAll, Walkable;
    FormatAllNew(db, 0);
    var d := FormatAll(db, 0);
    CountPositive(d.flash, Empty, 0, |d.flash|);
    NoEntries(d.flash, |d.flash|, false);
    assert Entries(map[]) == {};
    WalkNew(db.secSize);
  }
}
