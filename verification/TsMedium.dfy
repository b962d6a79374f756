/** From images back to logs: what a blank medium, a live database and a power cut while a record is written
    leave behind can be opened again. */
module TsMedium {
  import opened Bytes
  import opened Wrappers
  import opened Storage
  import opened Sectors
  import opened TsModel
  import opened TsHistory
  import opened TsLayout
  import opened TsRead
  import opened TsImages
  import opened TsKnown
  import opened TsStates
  import opened TsStore

  /** A blank medium has no sector in order, so that opening cleans it. */
  lemma BlankMedium(secSize: u32, maxSize: u32, maxLen: u32, sectors: nat, t: Ts)
    requires 64 <= secSize && secSize % TS_IDX == 0 && maxLen + 48 <= secSize && maxSize + secSize < 0x1_0000_0000
    requires 2 <= sectors && maxSize == Base(sectors, secSize)
    ensures var secs := seq(sectors, _ => Raw);
      ScanAll(secs).failed && OnTsMedium(Fill(maxSize), secSize, maxSize, maxLen, secs, t)
  {
    hide Base, Word;
    var secs := seq(sectors, _ => Raw);
    TsMagicBytes();
    forall i | 0 <= i < |secs|
      ensures Base(i, secSize) + secSize <= maxSize && TSecAt(Part(Fill(maxSize), i, secSize), Base(i, secSize), secs[i])
    {
      BaseBound(i, sectors, secSize);
      PartByte(Fill(maxSize), i, secSize, 1);
      assert Part(Fill(maxSize), i, secSize)[1..5][0] == BYTE_ERASED;
    }
  }

  lemma RecsAccounted(sec: TSec, size: nat, maxLen: nat)
    requires AllRecs(sec)
    ensures Accounted(sec, size, maxLen)
  {
    if sec.TSec? {
      assert RecsOf(sec) == sec.recs;
    }
  }

  /** A live database without torn records, its rollover on and its current sector not full, reopens as the
      same log: with `Open`'s contract the same current and oldest sector and the same last time. */
  lemma LiveMedium(tsdb: Tsdb)
    requires tsdb.Live() && Timed(tsdb.ts) && tsdb.rollover && !InStore(tsdb.ts.secs[tsdb.ts.cur], Full)
    ensures OnTsMedium(tsdb.storage.mem, tsdb.secSize, tsdb.maxSize, tsdb.maxLen, tsdb.ts.secs, tsdb.ts)
    ensures !ScanAll(tsdb.ts.secs).failed && TimedLog(tsdb.ts) && Settled(tsdb.ts)
  {
    hide Base, TsAt, AllTsShow, Known, LogFrom, ScanFrom, WfRing, Packed, Room, Accounted, Increasing, AllRecs;
    var ts := tsdb.ts;
    ReopenFinds(ts);
    forall i | 0 <= i < |ts.secs| ensures WfSec(ts.secs[i], ts.secSize, ts.maxLen) && Accounted(ts.secs[i], ts.secSize, ts.maxLen) {
      TimedAccounts(ts, i);
    }
  }

  lemma TimedAccounts(ts: Ts, i: nat)
    requires Timed(ts) && i < |ts.secs|
    ensures Accounted(ts.secs[i], ts.secSize, ts.maxLen)
  {
    hide WfTs, LogFrom, Increasing;
    assert TimedSec(ts.secs[i]);
    RecsAccounted(ts.secs[i], ts.secSize, ts.maxLen);
  }

  /** What a live database and its reopened twin know is the same. */
  lemma SameInMemory(a: Tsdb, c: Tsdb)
    requires a.Live() && c.Live() && a.ts == c.ts && Timed(a.ts) && !InStore(a.ts.secs[a.ts.cur], Full)
    ensures a.oldestAddr == c.oldestAddr && a.lastTime == c.lastTime && a.curSec == c.curSec
  {
    hide Base, TsAt, AllTsShow, Known, LogFrom, WfTs, Increasing;
    var sec := a.ts.secs[a.ts.cur];
    assert TimedSec(sec);
    KnownParts(a.curSec, a.ts, a.secSize);
    assert sec.recs != [] ==> sec.recs[|sec.recs| - 1].Rec?;
    KnownOnce(a.curSec, c.curSec, sec, Base(a.ts.cur, a.secSize), a.secSize);
  }

  // ------------------------------------------------------------ a cut while a record is written

  lemma TornAccounted(sec: TSec, size: nat, maxLen: nat)
    requires sec.TSec? && WfSec(sec, size, maxLen) && Accounted(sec, size, maxLen) && TS_IDX <= Room(sec.recs, size)
    ensures Accounted(TornIn(sec, size, maxLen), size, maxLen)
  {
    hide WfSec;
    RoomMore(sec.recs, Torn(Reserved(sec.recs, size, maxLen)), size);
  }

  lemma SanePut(secs: seq<TSec>, size: nat, maxLen: nat, i: nat, sec: TSec)
    requires Sane(secs, size, maxLen) && i < |secs| && WfSec(sec, size, maxLen) && Accounted(sec, size, maxLen)
    ensures Sane(secs[i := sec], size, maxLen)
  {
    hide WfSec, Accounted;
  }

  /** A power cut at any storage call but the last one of writing a record to the log `a`: the image `img`
      holds every earlier record and a torn one behind them, and can be opened as that log. The torn record
      has the room of the longest record set aside, or all that was left, so that later records go elsewhere. */
  lemma TornMedium(img: seq<byte>, a: Ts, maxSize: u32, len: nat)
    requires 64 <= a.secSize && a.secSize % TS_IDX == 0 && maxSize + a.secSize < 0x1_0000_0000
    requires CanPush(a, len) && a.rollover && InStore(a.secs[a.cur], Using) && Sane(a.secs, a.secSize, a.maxLen)
    requires maxSize == Base(|a.secs|, a.secSize)
    requires TsAt(img, a.secs[a.cur := TornIn(a.secs[a.cur], a.secSize, a.maxLen)], a.secSize)
    ensures a.oldest < |a.secs|
    ensures var p := Push(a, Torn(Reserved(a.secs[a.cur].recs, a.secSize, a.maxLen)));
      && OnTsMedium(img, a.secSize, maxSize, a.maxLen, p.secs, p)
      && !ScanAll(p.secs).failed
      && p.oldest < |p.secs| && Log(p) == Log(a) + [Torn(Reserved(a.secs[a.cur].recs, a.secSize, a.maxLen))]
  {
    hide Base, TsAt, LogFrom, ScanFrom, WfRing, Packed, Room, Accounted, WfSec, Reserved, Sane;
    RingSize(a);
    var sec := a.secs[a.cur];
    var room := Reserved(sec.recs, a.secSize, a.maxLen);
    ReservedBound(sec.recs, a.secSize, a.maxLen, len);
    CanPushMore(a, len, room);
    OpenAndPush(a, Torn(room), 0);
    var p := Push(a, Torn(room));
    assert Push(Opened(a, 0), Torn(room)) == p;
    RingSize(p);
    SaneAt(a.secs, a.secSize, a.maxLen, a.cur);
    TornAccounted(sec, a.secSize, a.maxLen);
    SectorWf(p, a.cur);
    TornIs(sec, a.secSize, a.maxLen);
    SanePut(a.secs, a.secSize, a.maxLen, a.cur, p.secs[a.cur]);
    ReopenFinds(p);
  }

  /** Opening after such a cut, in a log that was in order, and appending once more: a record that is not later
      than the last complete one of the current sector is refused. The time of the last append is forgotten
      exactly if the torn record is the first of its sector and the log is not empty. */
  method ReopenTorn(storage: RamStorage, ghost a: Ts, secSize: u32, maxSize: u32, maxLen: u32, ghost len: nat,
                    blob: seq<byte>, timestamp: i32)
    returns (tsdb: Tsdb, r: Outcome)
    requires storage.Valid() && ValidGeometry(secSize, maxSize) && 64 <= secSize && secSize % TS_IDX == 0 && maxSize + secSize < 0x1_0000_0000
    requires CanPush(a, len) && a.rollover && InStore(a.secs[a.cur], Using) && Sane(a.secs, a.secSize, a.maxLen)
    requires TimedLog(a) && a.secSize == secSize && a.maxLen == maxLen && maxSize == Base(|a.secs|, secSize)
    requires TsAt(storage.mem, a.secs[a.cur := TornIn(a.secs[a.cur], secSize, maxLen)], secSize)
    modifies storage
    ensures fresh(tsdb) && tsdb.initOk && tsdb.Live()
    ensures a.secs[a.cur].recs != [] || Log(a) == [] ==> (r == Failed(WriteErr) <==> |blob| > maxLen || timestamp <= a.lastTime)
    ensures a.secs[a.cur].recs == [] ==> (r == Failed(WriteErr) <==> |blob| > maxLen || timestamp <= 0)
  {
    hide Base, TsAt, AllTsShow, LogFrom, ScanFrom, WfRing, WfTs, Packed, Room, Accounted, WfSec, Reserved, Sane, TimedLog, CanPush, Known;
    CurrentIn(a);
    ghost var room := Reserved(a.secs[a.cur].recs, a.secSize, a.maxLen);
    ghost var p := Push(a, Torn(room));
    TornMedium(storage.mem, a, maxSize, len);
    var o := Tsdb.Open(storage, secSize, maxSize, maxLen, p.secs, p);
    tsdb := o.value;
    TornTime(a, room, tsdb.lastTime);
    r := tsdb.AppendWithTs(blob, timestamp);
  }

  lemma CurrentIn(a: Ts)
    requires TimedLog(a)
    ensures a.cur < |a.secs| && a.oldest < |a.secs|
  {}

  lemma ReservedBound(recs: seq<Rec>, size: nat, maxLen: nat, len: nat)
    requires len <= maxLen && TS_IDX + len <= Room(recs, size)
    ensures Reserved(recs, size, maxLen) <= maxLen && TS_IDX + Reserved(recs, size, maxLen) <= Room(recs, size)
  {}

  lemma CanPushMore(a: Ts, len: nat, more: nat)
    requires CanPush(a, len) && more <= a.maxLen && InStore(a.secs[a.cur], Using)
    requires TS_IDX + more <= Room(a.secs[a.cur].recs, a.secSize)
    ensures CanPush(a, more)
  {
    hide WfRing, Packed, Room, WfSec;
  }
}
