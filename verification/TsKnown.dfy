/** What is in memory about the current sector, before and after each step. */
module TsKnown {
  import opened Bytes
  import opened Sectors
  import opened Status
  import opened TsModel
  import opened TsHistory
  import opened TsLayout
  import opened TsRead

  lemma KnownParts(info: TsInfo, ts: Ts, size: nat)
    requires ts.cur < |ts.secs| && WfTs(ts)
    requires if InStore(ts.secs[ts.cur], Full) then info.status == Full && info.addr == Base(ts.cur, size)
             else Known(info, ts.secs[ts.cur], Base(ts.cur, size), size)
    ensures ts.secs[ts.cur].TSec? && info.status == ts.secs[ts.cur].store && info.addr == Base(ts.cur, size)
    ensures info.status == Using ==> info.remain == Room(ts.secs[ts.cur].recs, size)
  {
    hide Room, LastTime, Base, Packed, WfRing, WfSec;
  }

  lemma KnownStatus(info: TsInfo, sec: TSec, b: nat, size: nat)
    requires Known(info, sec, b, size)
    ensures sec.TSec? && info.status == sec.store && info.addr == b
  {
    hide Room, LastTime;
  }

  lemma KnownEnds(info: TsInfo, sec: TSec, b: nat, size: nat)
    requires Known(info, sec, b, size) && sec.recs != []
    ensures info.addr == b && info.emptyIdx - TS_IDX == b + SlotOff(|sec.recs| - 1)
    ensures info.endStat0 == TslStatus.Unused <==> EndHeld(sec, true) == NoEnd
    ensures info.endStat1 == TslStatus.Unused <==> EndHeld(sec, false) == NoEnd
  {
    hide Room, LastTime;
  }

  /** What is in memory shows where the next record goes. */
  lemma KnownGap(info: TsInfo, sec: TSec, b: nat, size: nat, len: nat)
    requires Known(info, sec, b, size) && sec.store == Using && TS_IDX + len <= Room(sec.recs, size)
    ensures info.emptyIdx == b + SlotOff(|sec.recs|)
    ensures len <= info.emptyData && info.emptyData - len == b + NextData(sec.recs, len, size)
  {
    hide LastTime, HeadEnd;
  }

  /** What the engine keeps in memory about the current sector after adding a record. */
  lemma KnownPushed(info: TsInfo, sec: TSec, b: nat, size: nat, rec: Rec)
    requires Known(info, sec, b, size) && sec.store == Using && rec.Rec? && TS_IDX + rec.Len() <= Room(sec.recs, size)
    ensures 0 < info.remain && info.emptyIdx + TS_IDX == b + SlotOff(|sec.recs| + 1)
    ensures b + SlotOff(|sec.recs|) + TS_IDX < 0x1_0000_0000 ==>
      Known(info.(endIdx := info.emptyIdx, endTime := rec.time, emptyIdx := info.emptyIdx + TS_IDX,
                  emptyData := info.emptyData - rec.Len(), remain := info.remain - (TS_IDX + rec.Len())),
            sec.(recs := sec.recs + [rec]), b, size)
  {
    var more := sec.recs + [rec];
    RoomMore(sec.recs, rec, size);
    DataLenPrefix(sec.recs, [rec], |sec.recs|);
    assert more[|more| - 1] == rec;
  }

  lemma {:induction false} LastTimeIs(recs: seq<Rec>)
    ensures LastComplete(recs, LastTime(recs, 0))
    decreases |recs|
  {
    if recs != [] {
      var front, end := recs[..|recs| - 1], recs[|recs| - 1];
      if end.Torn? {
        LastTimeIs(front);
        if k :| 0 <= k < |front| && front[k].Rec? && front[k].time == LastTime(recs, 0) && forall j :: k < j < |front| ==> front[j].Torn? {
          assert recs[k].Rec? && recs[k].time == LastTime(recs, 0);
          assert forall j :: k < j < |recs| ==> recs[j].Torn?;
        }
      }
    }
  }

  lemma KnownTime(info: TsInfo, sec: TSec, b: nat, size: nat)
    requires sec.TSec? && (InStore(sec, Using) || InStore(sec, Empty)) && Known(info, sec, b, size)
    ensures info.status == sec.store && info.addr == b
    ensures sec.recs != [] && sec.recs[|sec.recs| - 1].Rec? ==> info.endTime == sec.recs[|sec.recs| - 1].time
    ensures !sec.end0.EndAt? && !sec.end1.EndAt? ==> LastComplete(sec.recs, info.endTime)
  {
    hide Room, LastComplete;
    LastTimeIs(sec.recs);
  }

  lemma UsingEnds(sec: TSec, size: nat, maxLen: nat)
    requires WfSec(sec, size, maxLen)
    ensures sec.store == Using ==> !sec.end0.EndAt? && !sec.end1.EndAt?
  {}

  lemma HeadTime(info: TsInfo, sec: TSec, b: nat, size: nat)
    requires HeadRead(info, sec, b, size) && sec.TSec? && EndOf(sec).EndAt?
    ensures info.endTime == EndOf(sec).time
  {}

  lemma ClosedIs(sec: TSec, lastTime: i32)
    requires sec.TSec? && sec.recs != []
    ensures var end := EndAt(lastTime, |sec.recs| - 1);
      Closed(sec, lastTime)
      == (if EndHeld(sec, true) == NoEnd then WithEnd(sec, true, end)
          else if EndHeld(sec, false) == NoEnd then WithEnd(sec, false, end) else sec).(store := Full)
    ensures forall first, end :: WithEnd(sec, first, end).TSec? && WithEnd(sec, first, end).store == sec.store
  {}

  lemma SectorWf(ts: Ts, i: nat)
    requires WfTs(ts) && i < |ts.secs|
    ensures WfSec(ts.secs[i], ts.secSize, ts.maxLen)
  {
    hide Packed, WfRing;
  }

  /** In front of an empty current sector that is not the oldest there is a full one. */
  lemma EmptyBehind(ts: Ts)
    requires WfTs(ts) && ts.cur < |ts.secs| && InStore(ts.secs[ts.cur], Empty) && ts.cur != ts.oldest
    ensures 0 < ts.cur && InStore(ts.secs[ts.cur - 1], Full) && EndOf(ts.secs[ts.cur - 1]).EndAt?
  {
    hide Packed, Room, WfSec;
    var d := Steps(ts.oldest, ts.cur, |ts.secs|);
    assert InStore(ts.secs[RingPos(ts.oldest, d - 1, |ts.secs|)], Full);
    FullEnds(ts.secs[ts.cur - 1], ts.secSize, ts.maxLen);
  }

  lemma AnyTimeWf(ts: Ts, time: i32)
    requires WfTs(ts)
    ensures WfTs(ts.(lastTime := time))
  {
    hide Packed, WfSec;
    PackedTime(ts, time);
  }

  lemma FirstClears(n: nat)
    requires 64 <= n
    ensures Fill(n)[0] & Code(1) == Code(1)
    ensures var t := Overwrite(Fill(n), 0, [Code(1)]); OnlyClears(t, 1, Word(TS_MAGIC))
  {
    hide Word, Code;
    CodesNest(0, 1);
    var t := Overwrite(Fill(n), 0, [Code(1)]);
    OverErased(t, 1, Word(TS_MAGIC));
  }

  lemma StartClears(s: seq<byte>, buf: seq<byte>)
    requires |s| >= TS_HDR && s[5..9] == Word(Unsigned(-1)) && |buf| == 4
    ensures OnlyClears(s, 5, buf)
  {
    hide Word, Unsigned;
    TsMagicBytes();
    assert Erased(s[5..9]);
    OverErased(s, 5, buf);
  }

  lemma SlotBelow(s: seq<byte>, b: nat, sec: TSec)
    requires TSecAt(s, b, sec) && sec.TSec? && TS_IDX <= Room(sec.recs, |s|)
    ensures SlotOff(|sec.recs|) + TS_IDX <= |s|
  {
    hide TSecAt;
    SlotInside(s, b, sec);
  }

  lemma NextFits(recs: seq<Rec>, len: nat, size: nat)
    requires TS_IDX + len <= Room(recs, size)
    ensures 0 <= NextData(recs, len, size) && NextData(recs, len, size) + len <= size
    ensures SlotOff(|recs|) + TS_IDX <= NextData(recs, len, size)
  {}

  lemma FieldsAre(time: i32, len: u32, addr: u32)
    ensures IndexFields(time, len, addr) == Word(Unsigned(time)) + Word(len) + Word(addr)
  {}

  lemma PushRoom(ts: Ts, len: nat)
    requires CanPush(ts, len) && InStore(ts.secs[ts.cur], Using)
    ensures TS_IDX + len <= Room(ts.secs[ts.cur].recs, ts.secSize)
  {
    hide Packed, WfRing, WfSec, Room;
  }

  /** The empty log in the same geometry. */
  function CleanTs(ts: Ts): Ts {
    ts.(secs := seq(|ts.secs|, _ => FreshSec), cur := 0, oldest := 0, lastTime := 0)
  }

  lemma AllFresh(secs: seq<TSec>)
    requires forall x :: 0 <= x < |secs| ==> secs[x] == FreshSec
    ensures secs == seq(|secs|, _ => FreshSec)
  {}

  lemma CleanIs(ts: Ts)
    requires 2 <= |ts.secs| && ts.maxLen + 48 <= ts.secSize && ts.cur == 0 && ts.oldest == 0 && ts.lastTime == 0
    requires forall x :: 0 <= x < |ts.secs| ==> ts.secs[x] == FreshSec
    ensures WfTs(ts) && Timed(ts) && Log(ts) == []
  {
    FreshIsWf(ts.secSize, ts.maxLen);
    LogEnds(ts.secs, 0, 0);
    FreshTimed();
  }
}
