/** Inputs on which the time-series database does less than one would expect. */
module TsExamples {
  import opened Bytes
  import opened Sectors
  import opened Wrappers
  import opened Status
  import opened Storage
  import opened TsModel
  import opened TsHistory
  import opened TsLayout
  import opened TsQuery
  import opened TsRead
  import opened TsDescent
  import opened TsImages
  import opened TsKnown
  import opened TsStore
  import opened TsMedium

  /** Two sectors of 64 bytes, formatted; records hold up to 16 bytes, so that one of that length fills a sector. */
  function Small(): Ts {
    Ts(64, 16, true, [FreshSec, FreshSec], 0, 0, 0)
  }

  lemma SmallIsClean()
    ensures WfTs(Small()) && Timed(Small()) && Log(Small()) == []
    ensures CleanTs(Ts(64, 16, true, [Raw, Raw], 0, 0, 0)) == Small()
  {
    assert seq(2, _ => FreshSec) == [FreshSec, FreshSec];
    CleanIs(Small());
  }

  function Held(time: i32, blob: seq<byte>): TSec {
    TSec(Using, time, NoEnd, NoEnd, [Rec(Write, time, blob)])
  }

  function HeldFull(time: i32, blob: seq<byte>): TSec {
    TSec(Full, time, EndAt(time, 0), NoEnd, [Rec(Write, time, blob)])
  }

  lemma HeldIs(time: i32, blob: seq<byte>)
    requires |blob| == 16
    ensures Room(Held(time, blob).recs, 64) == 0
    ensures Closed(Held(time, blob), time) == HeldFull(time, blob)
  {
    var recs := Held(time, blob).recs;
    assert DataLen(recs, 1) == DataLen(recs, 0) + 16;
  }

  /** The first record of a newly formatted database. */
  lemma FirstAppend(time: i32, blob: seq<byte>)
    requires |blob| == 16 && 0 < time
    ensures Append(Small(), time, blob) == Ended(Small().(secs := [Held(time, blob), FreshSec], lastTime := time), Done)
  {
    assert [] + [Rec(Write, time, blob)] == [Rec(Write, time, blob)];
  }

  // ------------------------------------------------------------ rollover switched off

  /** Both sectors full of one record each, the one of `newer` in the current sector `cur`. */
  function Pair(cur: nat, oldest: nat, older: i32, newer: i32, blob: seq<byte>): Ts {
    var secs := if cur == 0 then [Held(newer, blob), HeldFull(older, blob)] else [HeldFull(older, blob), Held(newer, blob)];
    Ts(64, 16, true, secs, cur, oldest, newer)
  }

  lemma SecondAppend(first: i32, second: i32, blob: seq<byte>)
    requires |blob| == 16 && first < second
    ensures Append(Small().(secs := [Held(first, blob), FreshSec], lastTime := first), second, blob)
         == Ended(Pair(1, 0, first, second, blob), Done)
  {
    hide Room, Closed;
    HeldIs(first, blob);
    var ts := Small().(secs := [Held(first, blob), FreshSec], lastTime := first);
    assert Overflows(ts, 16) && CloseFor(ts, 16).secs == [HeldFull(first, blob), FreshSec];
    assert [] + [Rec(Write, second, blob)] == [Rec(Write, second, blob)];
  }

  /** The ring goes around: the first sector is formatted for the third record. */
  lemma ThirdAppend(first: i32, second: i32, third: i32, blob: seq<byte>)
    requires |blob| == 16 && first < second < third
    ensures Append(Pair(1, 0, first, second, blob), third, blob) == Ended(Pair(0, 1, second, third, blob), Done)
  {
    hide Room, Closed;
    HeldIs(second, blob);
    var ts := Pair(1, 0, first, second, blob);
    assert Overflows(ts, 16) && CloseFor(ts, 16).secs == [HeldFull(first, blob), HeldFull(second, blob)];
    assert [] + [Rec(Write, third, blob)] == [Rec(Write, third, blob)];
  }

  /** Rollover is off, and still the second sector is formatted for the fourth record. */
  lemma FourthAppend(second: i32, third: i32, fourth: i32, blob: seq<byte>)
    requires |blob| == 16 && second < third < fourth
    ensures var ts := Pair(0, 1, second, third, blob).(rollover := false);
      && Overflows(ts, 16) && Append(ts, fourth, blob) == Ended(Pair(1, 0, third, fourth, blob).(rollover := false), Done)
  {
    hide Room, Closed;
    HeldIs(third, blob);
    var ts := Pair(0, 1, second, third, blob).(rollover := false);
    assert CloseFor(ts, 16).secs == [HeldFull(third, blob), HeldFull(second, blob)];
    assert [] + [Rec(Write, fourth, blob)] == [Rec(Write, fourth, blob)];
  }

  lemma PairLog(cur: nat, oldest: nat, older: i32, newer: i32, blob: seq<byte>, rollover: bool)
    requires cur + oldest == 1
    ensures Log(Pair(cur, oldest, older, newer, blob).(rollover := rollover)) == [Rec(Write, older, blob), Rec(Write, newer, blob)]
  {
    var secs := Pair(cur, oldest, older, newer, blob).secs;
    assert LogFrom(secs, oldest, 2) == [];
    assert LogFrom(secs, oldest, 1) == RecsOf(secs[RingPos(oldest, 1, 2)]) + LogFrom(secs, oldest, 2);
    assert LogFrom(secs, oldest, 0) == RecsOf(secs[RingPos(oldest, 0, 2)]) + LogFrom(secs, oldest, 1);
  }

  lemma {:induction false} RunSnoc(ts: Ts, ops: seq<Op>, op: Op)
    requires WfTs(ts)
    ensures Run(ts, ops + [op]) == Do(Run(ts, ops), op)
    decreases |ops|
  {
    hide WfTs, Do;
    if ops == [] {
      assert [op][1..] == [];
    } else {
      assert (ops + [op])[1..] == ops[1..] + [op];
      RunSnoc(Do(ts, ops[0]), ops[1..], op);
    }
  }

  /** The first three appends. */
  lemma ThreeAppends(blob: seq<byte>)
    requires |blob| == 16
    ensures WfTs(Small()) && Run(Small(), [Add(Item(1, blob)), Add(Item(2, blob)), Add(Item(3, blob))]) == Pair(0, 1, 2, 3, blob)
  {
    hide Append, Pair, Held, HeldFull, WfTs, Run, Do;
    SmallIsClean();
    FirstAppend(1, blob);
    SecondAppend(1, 2, blob);
    ThirdAppend(1, 2, 3, blob);
    RunNone(Small());
    Lists(Add(Item(1, blob)), Add(Item(2, blob)), Add(Item(3, blob)));
    RunAdd(Small(), [], Item(1, blob));
    RunAdd(Small(), [Add(Item(1, blob))], Item(2, blob));
    RunAdd(Small(), [Add(Item(1, blob)), Add(Item(2, blob))], Item(3, blob));
  }

  lemma Lists(a: Op, b: Op, c: Op)
    ensures [] + [a] == [a] && [a] + [b] == [a, b] && [a, b] + [c] == [a, b, c]
  {}

  lemma RunAdd(ts: Ts, ops: seq<Op>, item: Item)
    requires WfTs(ts)
    ensures Run(ts, ops + [Add(item)]).cur < |Run(ts, ops + [Add(item)]).secs|
    ensures Run(ts, ops).cur < |Run(ts, ops).secs| && Run(ts, ops + [Add(item)]) == Append(Run(ts, ops), item.time, item.blob).ts
  {
    hide WfTs, Append, Run;
    RunSnoc(ts, ops, Add(item));
    LogBound(Run(ts, ops));
    LogBound(Run(ts, ops + [Add(item)]));
  }

  lemma RunNone(ts: Ts)
    requires WfTs(ts)
    ensures Run(ts, []) == ts
  {
    hide WfTs;
  }

  /** Three appends go around the ring of two sectors; then rollover is switched off. The fourth append still
      gives up a record, the second one, that the log held. */
  lemma RollsExample(blob: seq<byte>)
    requires |blob| == 16
    ensures WfTs(Small())
    ensures var ops := [Add(Item(1, blob)), Add(Item(2, blob)), Add(Item(3, blob)), SetRollover(false)];
      var before, after := Run(Small(), ops), Run(Small(), ops + [Add(Item(4, blob))]);
      && before.oldest == 1 && after.oldest == 0 && |before.secs| == |after.secs| == 2 && before.cur < 2
      && !before.rollover && Overflows(before, 16)
      && Step(before, Item(4, blob)).outcome == Done
      && Log(before) == [Rec(Write, 2, blob), Rec(Write, 3, blob)]
      && Log(after) == [Rec(Write, 3, blob), Rec(Write, 4, blob)]
  {
    hide Append, Pair, Held, HeldFull, LogFrom, Overflows, WfTs, Run;
    ThreeAppends(blob);
    FourthAppend(2, 3, 4, blob);
    PairLog(0, 1, 2, 3, blob, false);
    PairLog(1, 0, 3, 4, blob, false);
    PairShape(0, 1, 2, 3, blob);
    PairShape(1, 0, 3, 4, blob);
    var ops := [Add(Item(1, blob)), Add(Item(2, blob)), Add(Item(3, blob))];
    RunSnoc(Small(), ops, SetRollover(false));
    var off := [Add(Item(1, blob)), Add(Item(2, blob)), Add(Item(3, blob)), SetRollover(false)];
    assert ops + [SetRollover(false)] == off;
    RunAdd(Small(), off, Item(4, blob));
  }

  lemma PairShape(cur: nat, oldest: nat, older: i32, newer: i32, blob: seq<byte>)
    ensures var ts := Pair(cur, oldest, older, newer, blob);
      ts.cur == cur && ts.oldest == oldest && |ts.secs| == 2 && ts.rollover && ts.lastTime == newer && ts.maxLen == 16 && ts.secSize == 64
  {}

  // ------------------------------------------------------------ a misread slot

  /** A blob of 16 bytes that reads as the index slot of a record of time 5. */
  function Lure(): (b: seq<byte>)
    ensures |b| == 16
  {
    [Code(2), 0xFF, 0xFF, 0xFF] + Word(Unsigned(5)) + Word(0) + Word(0)
  }

  /** The log after one append of it, at time 10, to the newly formatted database. */
  function Lured(): Ts {
    Small().(secs := [Held(10, Lure()), FreshSec], lastTime := 10)
  }

  lemma LuredIsReached()
    ensures Timed(Small()) && Append(Small(), 10, Lure()) == Ended(Lured(), Done) && Timed(Lured())
  {
    hide Append, Timed, Held;
    SmallIsClean();
    FirstAppend(10, Lure());
    StepTimed(Small(), Item(10, Lure()));
  }

  /** On every medium that holds this log the slot behind the record, where its blob is, reads as a record of
      time 5, and a query from 20 down to 0 is misled; one from 20 down to 15 is not. */
  lemma LuredMisleads(mem: seq<byte>)
    requires TsAt(mem, Lured().secs, 64)
    ensures AfterStep(mem, Lured(), 16, 0) == Slot(Write, 5)
    ensures Misled(mem, Lured(), 16, 20, 0) && !Misled(mem, Lured(), 16, 20, 15)
  {
    hide AfterStep, TsAt, Lured, Misled;
    LuredTimes();
    LuredAfter(mem);
    SlotMisleads(mem);
  }

  lemma SlotMisleads(mem: seq<byte>)
    requires Lured().oldest == 0 && |Lured().secs| == 2 && AfterStep(mem, Lured(), 16, 0) == Slot(Write, 5)
    ensures Misled(mem, Lured(), 16, 20, 0) && !Misled(mem, Lured(), 16, 20, 15)
  {
    LuredTimes();
    hide AfterStep, StepTimes, Lured;
    assert RunsOn(Lured(), 1, 20, 0);
    assert Misleads(mem, Lured(), 16, 0, 20, 0);
  }

  lemma LuredTimes()
    ensures Lured().oldest == 0 && |Lured().secs| == 2 && StepTimes(Lured(), 0) == [10] && StepTimes(Lured(), 1) == []
  {
    hide Word, Code;
  }

  lemma LuredAfter(mem: seq<byte>)
    requires TsAt(mem, Lured().secs, 64)
    ensures AfterStep(mem, Lured(), 16, 0) == Slot(Write, 5)
  {
    hide Word, RdWord, Code, State, TsHeadAt, GapAt;
    var ts := Lured();
    TsPartAt(mem, ts.secs, 64, 0);
    BaseNext(0, 64);
    var s, recs := Part(mem, 0, 64), ts.secs[0].recs;
    assert RecAt(s, 0, 0, recs[0], DataOff(recs, 0, 64));
    assert DataLen(recs, 1) == DataLen(recs, 0) + 16;
    PartRead(mem, 0, 64, 48, 16);
    assert mem[48..64] == Lure();
    WordRoundTrip(Unsigned(5));
    SignedUnsigned(5);
    TslRoundTrip(Write);
    assert Lure()[4..8] == Word(Unsigned(5));
  }

  /** The run that leads there: a blank medium, one append, one query. The answer is not the log filtered to
      the range. */
  method LuredRun() returns (db: Tsdb, out: seq<Tsl>)
    ensures fresh(db) && db.initOk && db.Live() && db.ts == Lured() && Timed(db.ts)
    ensures !TslsAt(out, db.ts.secs, db.secSize, db.maxLen, Reversed<Pos>(QueryAll(db.ts, 0, 20)))
  {
    hide Lured, Small, Timed, Append, Base, Fill, TsAt, WfTs, AllTsShow, Known, LogFrom, Misled, QueryAll, TslsAt;
    SmallIsClean();
    LuredIsReached();
    db := OpenSmall();
    var a := db.AppendWithTs(Lure(), 10);
    LuredMisleads(db.storage.mem);
    out := db.CollectByTime(20, 0);
  }

  /** A database newly opened on a blank medium. */
  method OpenSmall() returns (db: Tsdb)
    ensures fresh(db) && fresh(db.storage) && db.initOk && db.Live() && db.ts == Small() && db.secSize == 64 && db.maxLen == 16
  {
    hide Small, Timed, Base, Fill, TsAt, WfTs, AllTsShow, Known, LogFrom, ScanFrom;
    SmallIsClean();
    BaseTwo();
    ghost var secs := [Raw, Raw];
    BlankMedium(64, 128, 16, 2, Small());
    assert secs == seq(2, _ => Raw);
    var storage := new RamStorage.New(128);
    var r := Tsdb.Open(storage, 64, 128, 16, secs, Small());
    db := r.value;
  }

  lemma BaseTwo()
    ensures Base(2, 64) == 128 && ValidGeometry(64, 128)
  {}
}
