/** The time-series database over its storage. Every method is the engine's, with its loops and its
    branches, and states what it does to the log above the bytes. */
module TsStore {
  import opened Bytes
  import opened Sectors
  import opened Wrappers
  import opened Status
  import opened Storage
  import opened Flash
  import opened TsModel
  import opened TsHistory
  import opened TsLayout
  import opened TsQuery
  import opened TsRead
  import opened TsDescent
  import opened TsStates
  import opened TsImages
  import opened TsKnown
  import opened TsWalks

  class Tsdb {
    const storage: RamStorage
    const secSize: u32
    const maxSize: u32
    const maxLen: u32
    var oldestAddr: u32
    var initOk: bool
    var rollover: bool
    var lastTime: i32
    var curSec: TsInfo
    /** The log that the image holds, and the states of its sectors since the operation began. */
    ghost var ts: Ts
    ghost var log: seq<seq<TSec>>

    /** The image holds the log. */
    ghost predicate Valid()
      reads this, storage
    {
      && storage.Valid()
      && 64 <= secSize && secSize % TS_IDX == 0 && maxLen + 48 <= secSize
      && ts.secSize == secSize && ts.maxLen == maxLen && ts.rollover == rollover
      && 2 <= |ts.secs|
      && maxSize == Base(|ts.secs|, secSize)
      && maxSize + secSize < 0x1_0000_0000
      && TsAt(storage.mem, ts.secs, secSize)
      && |log| > 0 && log[|log| - 1] == ts.secs
      && AllTsShow(storage.history, log, secSize)
    }

    /** The object knows where the log begins and ends. */
    ghost predicate Live()
      reads this, storage
    {
      && Valid() && WfTs(ts)
      && ts.cur < |ts.secs|
      && oldestAddr == Base(ts.oldest, secSize)
      && lastTime == ts.lastTime
      && CurrentKnown()
    }

    /** What is in memory about the current sector. */
    ghost predicate CurrentKnown()
      requires ts.cur < |ts.secs|
      reads this
    {
      var sec := ts.secs[ts.cur];
      if InStore(sec, Full) then curSec.status == Full && curSec.addr == Base(ts.cur, secSize)
      else Known(curSec, sec, Base(ts.cur, secSize), secSize)
    }

    constructor (storage: RamStorage, secSize: u32, maxSize: u32, maxLen: u32, ghost secs: seq<TSec>)
      ensures this.storage == storage && this.secSize == secSize && this.maxSize == maxSize && this.maxLen == maxLen
      ensures oldestAddr == DATA_UNUSED && !initOk && rollover && lastTime == 0
      ensures curSec == BlankInfo().(addr := DATA_UNUSED)
      ensures ts == Ts(secSize, maxLen, true, secs, 0, 0, 0) && log == [secs]
    {
      this.storage := storage;
      this.secSize := secSize;
      this.maxSize := maxSize;
      this.maxLen := maxLen;
      oldestAddr := DATA_UNUSED;
      initOk := false;
      rollover := true;
      lastTime := 0;
      curSec := BlankInfo().(addr := DATA_UNUSED);
      ts := Ts(secSize, maxLen, true, secs, 0, 0, 0);
      log := [secs];
    }

    // ---------------------------------------------------------- reads

    /** `read_tsl` */
    method ReadTsl(addrIndex: u32) returns (tsl: Tsl)
      ensures tsl == ReadSlot(storage.mem, addrIndex, maxLen)
    {
      hide RdWord, Decode;
      var idx: seq<byte> := seq(TS_IDX, _ => 0);
      var r := storage.Read(addrIndex, TS_IDX);
      if r.Ok? {
        idx := r.value;
      }
      assert idx == SlotBytes(storage.mem, addrIndex);
      var index := GetStatus(idx[0..1], TSL_STATUS_NUM);
      assert idx[0..1] == [idx[0]];
      var status := TslFromIndex(index);
      if status == PreWrite || status == TslStatus.Unused {
        tsl := Tsl(status, 0, maxLen, addrIndex, DATA_UNUSED);
      } else {
        tsl := Tsl(status, Signed(RdWord(idx[4..8])), RdWord(idx[8..12]), addrIndex, RdWord(idx[12..16]));
      }
    }

    /** The header part of `read_sector_info` for sector `i`. */
    method ReadHeader(addr: u32, ghost i: nat) returns (sector: TsInfo, r: Outcome)
      requires Valid() && i < |ts.secs| && addr == Base(i, secSize)
      ensures HeadRead(sector, ts.secs[i], addr, secSize)
      ensures r == if ts.secs[i].TSec? then Done else Failed(InitFailed)
    {
      hide Base, TSecAt, TsAt, AllTsShow, RdWord, Signed, Decode, TslFromIndex, StoreFromIndex;
      TsPartAt(storage.mem, ts.secs, secSize, i);
      BaseBound(i, |ts.secs|, secSize);
      HeadReads(Part(storage.mem, i, secSize), addr, ts.secs[i], Part(storage.mem, i, secSize)[0..TS_HDR]);
      PartRead(storage.mem, i, secSize, 0, TS_HDR);
      var rd := storage.Read(addr, TS_HDR);
      sector, r := ParseHeader(addr, rd.value, ts.secs[i]);
    }

    method ParseHeader(addr: u32, hdr: seq<byte>, ghost sec: TSec) returns (sector: TsInfo, r: Outcome)
      requires HeadValues(hdr, sec, addr) && addr + secSize < 0x1_0000_0000 && TS_HDR <= secSize
      ensures HeadRead(sector, sec, addr, secSize)
      ensures r == if sec.TSec? then Done else Failed(InitFailed)
    {
      hide RdWord, Signed, Decode, TslFromIndex, StoreFromIndex, EndValues, HeadEnd, EndStat;
      sector := BlankInfo().(addr := addr);
      var magic := RdWord(hdr[1..5]);
      if magic != TS_MAGIC {
        return sector, Failed(InitFailed);
      }
      var index := GetStatus(hdr[0..1], STORE_STATUS_NUM);
      assert hdr[0..1] == [hdr[0]];
      var stat0, stat1, endTime, endIdx := ParseEnds(hdr, sec, addr);
      sector := sector.(checkOk := true, status := StoreFromIndex(index), startTime := Signed(RdWord(hdr[5..9])),
        endStat0 := stat0, endStat1 := stat1, endTime := endTime, endIdx := endIdx,
        emptyIdx := addr + TS_HDR, emptyData := addr + secSize, remain := secSize - TS_HDR);
      r := Done;
    }

    /** The end information of a header. */
    method ParseEnds(hdr: seq<byte>, ghost sec: TSec, ghost addr: u32)
      returns (stat0: TslStatus, stat1: TslStatus, endTime: i32, endIdx: u32)
      requires HeadValues(hdr, sec, addr) && sec.TSec?
      ensures stat0 == EndStat(sec.end0) && stat1 == EndStat(sec.end1)
      ensures endTime == HeadEnd(sec, addr).0 && endIdx == HeadEnd(sec, addr).1
    {
      hide RdWord, Signed, Decode, TslFromIndex, StoreFromIndex, SlotOff;
      var index0 := GetStatus(hdr[17..18], TSL_STATUS_NUM);
      var index1 := GetStatus(hdr[26..27], TSL_STATUS_NUM);
      assert hdr[17..18] == [hdr[17]] && hdr[26..27] == [hdr[26]];
      stat0, stat1 := TslFromIndex(index0), TslFromIndex(index1);
      endTime, endIdx := 0, 0;
      if stat0 == Write {
        endTime, endIdx := Signed(RdWord(hdr[9..13])), RdWord(hdr[13..17]);
      } else if stat1 == Write {
        endTime, endIdx := Signed(RdWord(hdr[18..22])), RdWord(hdr[22..26]);
      }
    }

    /** `read_sector_info` for sector `i`. With `traversal` a sector in use is walked to find where its
        index and its data end. */
    method ReadSectorInfo(addr: u32, traversal: bool, ghost i: nat) returns (sector: TsInfo, r: Outcome)
      requires Valid() && i < |ts.secs| && addr == Base(i, secSize)
      requires traversal && ts.secs[i].TSec? ==> WfSec(ts.secs[i], secSize, maxLen) && Accounted(ts.secs[i], secSize, maxLen)
      ensures sector.addr == addr && sector.checkOk == ts.secs[i].TSec?
      ensures sector.checkOk ==> sector.status == ts.secs[i].store
      ensures !sector.checkOk ==> sector.status == StoreStatus.Unused && r != Done
      ensures !traversal ==> HeadRead(sector, ts.secs[i], addr, secSize) && (r == Done <==> sector.checkOk)
      ensures traversal && (InStore(ts.secs[i], Using) || InStore(ts.secs[i], Empty)) ==> Known(sector, ts.secs[i], addr, secSize)
    {
      hide Base, TsAt, AllTsShow, Room, LastTime, HeadEnd, SlotOff;
      sector, r := ReadHeader(addr, i);
      if sector.checkOk && sector.status == Using && traversal {
        sector, r := Traverse(sector, i);
      } else if traversal && InStore(ts.secs[i], Empty) {
        NotUnused(ts.secs[i], secSize, maxLen);
        HeadKnown(sector, ts.secs[i], addr, secSize);
      }
    }

    /** The traversal of `read_sector_info`. */
    method Traverse(sector0: TsInfo, ghost i: nat) returns (sector: TsInfo, r: Outcome)
      requires Valid() && i < |ts.secs| && InStore(ts.secs[i], Using)
      requires WfSec(ts.secs[i], secSize, maxLen) && Accounted(ts.secs[i], secSize, maxLen)
      requires HeadRead(sector0, ts.secs[i], Base(i, secSize), secSize)
      ensures Known(sector, ts.secs[i], Base(i, secSize), secSize)
    {
      hide Base, TsAt, AllTsShow, Room, LastTime, HeadEnd, WfSec, Accounted, ReadSlot, TslIs, DataLen, EndStat;
      ghost var sec, b := ts.secs[i], Base(i, secSize);
      ghost var recs, k := sec.recs, 0;
      BaseBound(i, |ts.secs|, secSize);
      TraverseStarts(sector0, sec, b, secSize);
      sector, r := sector0, Done;
      var tsl := BlankTsl().(addrIndex := sector.emptyIdx);
      while true
        invariant 0 <= k <= |recs| && tsl.addrIndex == b + SlotOff(k)
        invariant Traversed(sector, sector0, sec, b, secSize, k) && 0 < sector.remain && r == Done
        decreases |recs| - k
      {
        tsl := ReadTsl(tsl.addrIndex);
        if k == |recs| {
          RoomAll(recs, secSize);
          BehindReads(storage.mem, ts.secs, secSize, i, maxLen);
        } else {
          RecordReads(storage.mem, ts.secs, secSize, i, k, maxLen);
          TslParts(tsl, recs[k], b, k, DataOff(recs, k, secSize), maxLen, sec, secSize);
        }
        if tsl.status == TslStatus.Unused {
          break;
        }
        var cost := TS_IDX + tsl.logLen;
        Accounting(sec, secSize, maxLen, k, cost);
        SlotFits(sec, b, secSize, maxLen, k);
        ghost var was := sector;
        if tsl.status != PreWrite {
          sector := sector.(endTime := tsl.time);
        }
        sector := sector.(endIdx := tsl.addrIndex, emptyIdx := sector.emptyIdx + TS_IDX,
          emptyData := if sector.emptyData < tsl.logLen then 0 else sector.emptyData - tsl.logLen);
        tsl := tsl.(addrIndex := tsl.addrIndex + TS_IDX);
        if sector.remain > cost {
          sector := sector.(remain := sector.remain - cost);
        } else {
          sector := sector.(remain := 0);
          r := Failed(ReadErr);
        }
        TraverseStep(was, sector, sector0, sec, b, secSize, maxLen, k);
        k := k + 1;
        if r != Done {
          break;
        }
      }
      TraverseEnds(sector, sector0, sec, b, secSize, k);
    }

    // ---------------------------------------------------------- writes

    /** One storage write inside sector `i`, at offset `o`, that turns its contents into `sec`. */
    method Program(addr: u32, buf: seq<byte>, ghost i: nat, ghost o: nat, ghost sec: TSec)
      requires Valid()
      requires i < |ts.secs| && addr == Base(i, secSize) + o && o + |buf| <= secSize
      requires Base(i, secSize) + secSize <= |storage.mem|
      requires OnlyClears(Part(storage.mem, i, secSize), o, buf)
      requires TSecAt(Overwrite(Part(storage.mem, i, secSize), o, buf), Base(i, secSize), sec)
      modifies storage, `ts, `log
      ensures Valid() && ts == old(ts).(secs := old(ts.secs)[i := sec]) && log == old(log) + [ts.secs]
      ensures Base(i, secSize) + secSize <= |storage.mem|
      ensures Part(storage.mem, i, secSize) == Overwrite(old(Part(storage.mem, i, secSize)), o, buf)
    {
      hide Base, TSecAt, Part, OnlyClears, Overwrite, TsAt, AllTsShow;
      ClearsInPart(storage.mem, i, secSize, o, buf);
      TsWrite(storage.mem, ts.secs, secSize, i, o, buf, sec);
      PartWrite(storage.mem, i, secSize, o, buf, i);
      var _ := storage.Write(addr, buf);
      TsShowsMore(old(storage.history), old(log), secSize, storage.mem, old(ts.secs)[i := sec]);
      ts := ts.(secs := ts.secs[i := sec]);
      log := log + [ts.secs];
    }

    /** The same for a status byte. */
    method ProgramStatus(addr: u32, num: nat, index: nat, ghost i: nat, ghost o: nat, ghost sec: TSec)
      requires Valid() && 0 < index < num <= 8
      requires i < |ts.secs| && addr == Base(i, secSize) + o && o < secSize
      requires Base(i, secSize) + secSize <= |storage.mem|
      requires Part(storage.mem, i, secSize)[o] & Code(index) == Code(index)
      requires TSecAt(Overwrite(Part(storage.mem, i, secSize), o, [Code(index)]), Base(i, secSize), sec)
      modifies storage, `ts, `log
      ensures Valid() && ts == old(ts).(secs := old(ts.secs)[i := sec]) && log == old(log) + [ts.secs]
      ensures Base(i, secSize) + secSize <= |storage.mem|
      ensures Part(storage.mem, i, secSize) == Overwrite(old(Part(storage.mem, i, secSize)), o, [Code(index)])
    {
      hide Base, TSecAt, Overwrite, TsAt, AllTsShow, Code;
      assert storage.mem[addr] == Part(storage.mem, i, secSize)[o];
      TsWrite(storage.mem, ts.secs, secSize, i, o, [Code(index)], sec);
      PartWrite(storage.mem, i, secSize, o, [Code(index)], i);
      WriteStatus(storage, addr, num, index);
      TsShowsMore(old(storage.history), old(log), secSize, storage.mem, old(ts.secs)[i := sec]);
      ts := ts.(secs := ts.secs[i := sec]);
      log := log + [ts.secs];
    }

    /** `format_sector`: erase, then the status, then the magic word. */
    method FormatSector(addr: u32, ghost i: nat)
      requires Valid() && i < |ts.secs| && addr == Base(i, secSize)
      modifies storage, `ts, `log
      ensures Valid() && ts == old(ts).(secs := old(ts.secs)[i := FreshSec])
      ensures LogSpares(old(log), log, old(ts.secs), i)
    {
      hide Base, TSecAt, Part, OnlyClears, Overwrite, TsAt, AllTsShow, Word, Code, Fill;
      ghost var secs := ts.secs;
      BaseBound(i, |ts.secs|, secSize);
      TsPartAt(storage.mem, ts.secs, secSize, i);
      TsFormatting(secSize, addr);
      EraseSector(addr, i);
      FirstClears(secSize);
      ProgramStatus(addr, STORE_STATUS_NUM, StoreIndex(Empty), i, 0, Raw);
      Program(addr + 1, Word(TS_MAGIC), i, 1, FreshSec);
      assert secs[i := Raw][i := Raw] == secs[i := Raw] && secs[i := Raw][i := FreshSec] == secs[i := FreshSec];
      FormatSpares(old(log), secs, i);
    }

    method EraseSector(addr: u32, ghost i: nat)
      requires Valid() && i < |ts.secs| && addr == Base(i, secSize)
      modifies storage, `ts, `log
      ensures Valid() && ts == old(ts).(secs := old(ts.secs)[i := Raw]) && log == old(log) + [ts.secs]
      ensures Base(i, secSize) + secSize <= |storage.mem| && Part(storage.mem, i, secSize) == Fill(secSize)
    {
      hide Base, TSecAt, Part, Overwrite, TsAt, AllTsShow, Fill;
      BaseBound(i, |ts.secs|, secSize);
      TsPartAt(storage.mem, ts.secs, secSize, i);
      TsFormatting(secSize, addr);
      Whole(Part(storage.mem, i, secSize));
      TsWrite(storage.mem, ts.secs, secSize, i, 0, Fill(secSize), Raw);
      PartWrite(storage.mem, i, secSize, 0, Fill(secSize), i);
      var _ := storage.Erase(addr, secSize);
      TsShowsMore(old(storage.history), old(log), secSize, storage.mem, old(ts.secs)[i := Raw]);
      ts := ts.(secs := ts.secs[i := Raw]);
      log := log + [ts.secs];
    }

    /** The current sector, `sec`, has its first or its second end field written as far as `fields`. */
    ghost predicate Ending(first: bool, sec: TSec, fields: seq<byte>)
      reads this, storage
    {
      && ts.cur < |ts.secs| && sec.TSec? && ts.secs[ts.cur] == WithEnd(sec, first, HalfEnd)
      && curSec.addr == Base(ts.cur, secSize) && Base(ts.cur, secSize) + secSize <= |storage.mem|
      && EndWritten(Part(storage.mem, ts.cur, secSize), EndPos(first), fields)
    }

    method BeginEnd(first: bool)
      requires Valid() && ts.cur < |ts.secs| && ts.secs[ts.cur].TSec?
      requires curSec.addr == Base(ts.cur, secSize) && EndHeld(ts.secs[ts.cur], first) == NoEnd
      modifies storage, `ts, `log
      ensures Valid() && Ending(first, old(ts.secs[ts.cur]), [])
      ensures ts == old(ts).(secs := old(ts.secs)[old(ts.cur) := WithEnd(old(ts.secs[ts.cur]), first, HalfEnd)])
      ensures log == old(log) + [ts.secs]
    {
      hide Base, TSecAt, Part, OnlyClears, Overwrite, TsAt, AllTsShow, Code, EndFieldAt, EndPos, EndHeld, WithEnd, EndWritten;
      ghost var i, sec := ts.cur, ts.secs[ts.cur];
      var e := EndPos(first);
      WithEndKeeps(sec, first, HalfEnd);
      BaseBound(i, |ts.secs|, secSize);
      TsPartAt(storage.mem, ts.secs, secSize, i);
      ghost var s, b := Part(storage.mem, i, secSize), Base(i, secSize);
      EndFieldOf(s, b, sec, first);
      EndBegin(s, b, e);
      CodesNest(0, 1);
      EndField(s, b, sec, first, e + 8, [Code(1)], HalfEnd);
      ProgramStatus(curSec.addr + e + 8, TSL_STATUS_NUM, TslIndex(PreWrite), i, e + 8, WithEnd(sec, first, HalfEnd));
    }

    method WriteEndField(first: bool, buf: seq<byte>, ghost sec: TSec, ghost fields: seq<byte>, offset: nat)
      requires Valid() && Ending(first, sec, fields) && |fields| + |buf| <= 8 && offset == EndPos(first) + |fields|
      modifies storage, `ts, `log
      ensures Valid() && Ending(first, sec, fields + buf) && ts == old(ts) && log == old(log) + [ts.secs]
    {
      hide Base, TSecAt, Part, OnlyClears, Overwrite, TsAt, AllTsShow, Code, EndFieldAt, EndPos, EndHeld, WithEnd, EndWritten;
      ghost var i := ts.cur;
      WithEndKeeps(sec, first, HalfEnd);
      BaseBound(i, |ts.secs|, secSize);
      TsPartAt(storage.mem, ts.secs, secSize, i);
      ghost var s, b := Part(storage.mem, i, secSize), Base(i, secSize);
      EndMore(s, b, EndPos(first), fields, buf);
      EndField(s, b, ts.secs[i], first, offset, buf, HalfEnd);
      Program(curSec.addr + offset, buf, i, offset, ts.secs[i]);
      assert ts.secs == old(ts.secs);
    }

    method FinishEnd(first: bool, ghost sec: TSec)
      requires Valid() && sec.TSec? && sec.recs != []
      requires Base(ts.cur, secSize) + SlotOff(|sec.recs| - 1) < 0x1_0000_0000
      requires Ending(first, sec, Word(Unsigned(lastTime)) + Word(Base(ts.cur, secSize) + SlotOff(|sec.recs| - 1)))
      modifies storage, `ts, `log
      ensures Valid()
      ensures old(ts.cur) < |old(ts.secs)|
      ensures ts == old(ts).(secs := old(ts.secs)[old(ts.cur) := WithEnd(sec, first, EndAt(lastTime, |sec.recs| - 1))])
      ensures log == old(log) + [ts.secs]
    {
      hide Base, TSecAt, Part, OnlyClears, Overwrite, TsAt, AllTsShow, Code, EndFieldAt, EndPos, EndHeld, WithEnd, EndWritten, Word,
           Unsigned, SlotOff;
      ghost var i := ts.cur;
      ghost var last: nat := |sec.recs| - 1;
      var e := EndPos(first);
      WithEndKeeps(sec, first, HalfEnd);
      BaseBound(i, |ts.secs|, secSize);
      TsPartAt(storage.mem, ts.secs, secSize, i);
      ghost var s, b := Part(storage.mem, i, secSize), Base(i, secSize);
      EndFinish(s, b, e, lastTime, last);
      CodesNest(1, 2);
      EndField(s, b, ts.secs[i], first, e + 8, [Code(2)], EndAt(lastTime, last));
      ProgramStatus(curSec.addr + e + 8, TSL_STATUS_NUM, TslIndex(Write), i, e + 8, WithEnd(sec, first, EndAt(lastTime, last)));
    }

    /** The end of the current sector is noted in its first or its second end field. */
    method WriteEnd(first: bool, endIdx: u32)
      requires Valid() && ts.cur < |ts.secs| && ts.secs[ts.cur].TSec? && ts.secs[ts.cur].recs != []
      requires curSec.addr == Base(ts.cur, secSize) && EndHeld(ts.secs[ts.cur], first) == NoEnd
      requires endIdx == Base(ts.cur, secSize) + SlotOff(|ts.secs[ts.cur].recs| - 1)
      modifies storage, `ts, `log
      ensures Valid()
      ensures var sec := old(ts.secs[ts.cur]);
        ts == old(ts).(secs := old(ts.secs)[old(ts.cur) := WithEnd(sec, first, EndAt(lastTime, |sec.recs| - 1))])
      ensures LogSpares(old(log), log, old(ts.secs), |old(ts.secs)|)
    {
      hide Base, TSecAt, Part, TsAt, AllTsShow, Code, EndFieldAt, EndPos, EndHeld, WithEnd, EndWritten, Word, Unsigned, SlotOff;
      ghost var sec := ts.secs[ts.cur];
      var e := EndPos(first);
      BeginEnd(first);
      WriteEndField(first, Word(Unsigned(lastTime)), sec, [], e);
      assert [] + Word(Unsigned(lastTime)) == Word(Unsigned(lastTime));
      WriteEndField(first, Word(endIdx), sec, Word(Unsigned(lastTime)), e + 4);
      FinishEnd(first, sec);
      EndSpares(old(log), old(ts.secs), ts.cur, first, EndAt(lastTime, |sec.recs| - 1));
    }

    /** The first part of `update_sec_status`: the current sector is full. */
    method CloseSector()
      requires Valid() && ts.cur < |ts.secs| && InStore(ts.secs[ts.cur], Using) && ts.secs[ts.cur].recs != []
      requires Known(curSec, ts.secs[ts.cur], Base(ts.cur, secSize), secSize) && lastTime == ts.lastTime
      modifies storage, `ts, `log, `curSec
      ensures Valid()
      ensures ts == old(ts).(secs := old(ts.secs)[old(ts.cur) := Closed(old(ts.secs[ts.cur]), ts.lastTime)])
      ensures curSec == old(curSec).(status := Full)
      ensures LogSpares(old(log), log, old(ts.secs), |old(ts.secs)|) && Spares(old(ts.secs), ts.secs, |ts.secs|)
    {
      hide Base, TSecAt, Part, Overwrite, TsAt, AllTsShow, Code, Known, Closed, WithEnd, EndHeld, SlotOff, Spares, LogSpares;
      ghost var sec := ts.secs[ts.cur];
      KnownEnds(curSec, sec, Base(ts.cur, secSize), secSize);
      ClosedIs(sec, lastTime);
      LogSparesNone(log, ts.secs, |ts.secs|);
      SparesSelf(ts.secs, |ts.secs|);
      var endIndexTemp := curSec.emptyIdx - TS_IDX;
      if curSec.endStat0 == TslStatus.Unused {
        WriteEnd(true, endIndexTemp);
      } else if curSec.endStat1 == TslStatus.Unused {
        WriteEnd(false, endIndexTemp);
      }
      ghost var mid, log1 := ts.secs, log;
      EndKept(old(ts.secs), ts.cur, mid);
      MarkFull();
      FullSpares(old(log), log1, old(ts.secs), mid, ts.cur);
      curSec := curSec.(status := Full);
    }

    method MarkFull()
      requires Valid() && ts.cur < |ts.secs| && InStore(ts.secs[ts.cur], Using) && curSec.addr == Base(ts.cur, secSize)
      modifies storage, `ts, `log
      ensures Valid() && ts == old(ts).(secs := old(ts.secs)[old(ts.cur) := old(ts.secs[ts.cur]).(store := Full)])
      ensures log == old(log) + [ts.secs]
    {
      hide Base, TSecAt, Part, Overwrite, TsAt, AllTsShow, Code;
      ghost var i := ts.cur;
      BaseBound(i, |ts.secs|, secSize);
      TsPartAt(storage.mem, ts.secs, secSize, i);
      StoreField(Part(storage.mem, i, secSize), Base(i, secSize), ts.secs[i], Full);
      CodesNest(2, 3);
      ProgramStatus(curSec.addr, STORE_STATUS_NUM, StoreIndex(Full), i, 0, ts.secs[i].(store := Full));
    }

    /** The second part: on to sector `i`, which is formatted unless it is empty. */
    method AdvanceSector(newSecAddr: u32, ghost i: nat)
      requires Valid() && i < |ts.secs| && newSecAddr == Base(i, secSize)
      modifies storage, `ts, `log, `curSec, `oldestAddr
      ensures Valid()
      ensures ts == (if InStore(old(ts.secs)[i], Empty) then old(ts).(cur := i)
                     else old(ts).(cur := i, oldest := Next(i, |old(ts.secs)|), secs := old(ts.secs)[i := FreshSec]))
      ensures oldestAddr == if InStore(old(ts.secs)[i], Empty) then old(oldestAddr) else Base(ts.oldest, secSize)
      ensures HeadRead(curSec, ts.secs[i], Base(i, secSize), secSize)
      ensures LogSpares(old(log), log, old(ts.secs), i)
    {
      hide Base, TsAt, AllTsShow, Spares, LogSpares;
      var r;
      curSec, r := ReadSectorInfo(newSecAddr, false, i);
      ts := ts.(cur := i);
      LogSparesNone(log, ts.secs, i);
      if curSec.status != Empty {
        RingTurn(i);
        oldestAddr := if newSecAddr + secSize < maxSize then newSecAddr + secSize else 0;
        FormatSector(newSecAddr, i);
        ts := ts.(oldest := Next(i, |ts.secs|));
        curSec, r := ReadSectorInfo(newSecAddr, false, i);
      }
    }

    lemma RingTurn(i: nat)
      requires Valid() && i < |ts.secs|
      ensures var b := Base(i, secSize);
        && b + secSize <= maxSize
        && Base(Next(i, |ts.secs|), secSize) == (if b + secSize < maxSize then b + secSize else 0)
        && (b + secSize < maxSize <==> i + 1 < |ts.secs|)
    {
      hide Base, TsAt, AllTsShow;
      BaseNext(i, secSize);
      BaseBound(i, |ts.secs|, secSize);
      if i + 1 < |ts.secs| {
        BaseBound(i + 1, |ts.secs|, secSize);
      }
    }

    /** The last part: an empty current sector is taken into use. */
    method OpenSector(curTime: i32)
      requires Valid() && ts.cur < |ts.secs| && ts.secs[ts.cur].TSec? && ts.secs[ts.cur].store == Empty
      requires ts.secs[ts.cur].start == -1 && ts.secs[ts.cur].recs == []
      requires Known(curSec, ts.secs[ts.cur], Base(ts.cur, secSize), secSize)
      modifies storage, `ts, `log, `curSec
      ensures Valid() && ts == Opened(old(ts), curTime)
      ensures ts.cur < |ts.secs| && Known(curSec, ts.secs[ts.cur], Base(ts.cur, secSize), secSize)
      ensures LogSpares(old(log), log, old(ts.secs), |old(ts.secs)|)
    {
      hide Base, TSecAt, Part, Overwrite, TsAt, AllTsShow, Code, Room, LastTime, Word, Unsigned, OnlyClears, LogSpares;
      ghost var i, sec, secs := ts.cur, ts.secs[ts.cur], ts.secs;
      curSec := curSec.(status := Using, startTime := curTime);
      BaseBound(i, |ts.secs|, secSize);
      TsPartAt(storage.mem, ts.secs, secSize, i);
      StoreField(Part(storage.mem, i, secSize), Base(i, secSize), sec, Using);
      CodesNest(1, 2);
      ProgramStatus(curSec.addr, STORE_STATUS_NUM, StoreIndex(Using), i, 0, sec.(store := Using));
      TsPartAt(storage.mem, ts.secs, secSize, i);
      StartField(Part(storage.mem, i, secSize), Base(i, secSize), sec.(store := Using), curTime);
      StartClears(Part(storage.mem, i, secSize), Word(Unsigned(curTime)));
      Program(curSec.addr + 5, Word(Unsigned(curTime)), i, 5, sec.(store := Using, start := curTime));
      assert secs[i := sec.(store := Using)][i := sec.(store := Using, start := curTime)] == secs[i := sec.(store := Using, start := curTime)];
      OpenSpares(old(log), secs, i, curTime);
    }

    /** The current sector is closed, and the next one becomes the current one if there is one to be had. */
    method GoOn(ghost blobSize: nat) returns (r: Outcome)
      requires Live() && blobSize <= maxLen && Overflows(ts, blobSize)
      modifies storage, `ts, `log, `curSec, `oldestAddr
      ensures Valid() && old(ts).cur < |old(ts).secs|
      ensures r == (if Exhausted(old(ts), blobSize) then Failed(SavedFull) else Done)
      ensures ts == if r == Done then Seated(old(ts), blobSize) else CloseFor(old(ts), blobSize)
      ensures ts.cur < |ts.secs| && ts.secs[ts.cur].TSec? && curSec.addr == Base(ts.cur, secSize)
      ensures r != Done ==> curSec.status == Full
      ensures r == Done ==>
                ts.secs[ts.cur].store == Empty && Known(curSec, ts.secs[ts.cur], Base(ts.cur, secSize), secSize)
      ensures ts.oldest < |ts.secs| && oldestAddr == Base(ts.oldest, secSize)
      ensures LogSpares(old(log), log, old(ts.secs), Next(old(ts.cur), |old(ts.secs)|))
    {
      hide Base, TsAt, AllTsShow, WfTs, Known, Room, Closed, Spares, LogSpares;
      ghost var t0, n := ts, |ts.secs|;
      SeatedRing(t0, blobSize);
      KnownParts(curSec, ts, secSize);
      ClosedIs(ts.secs[ts.cur], ts.lastTime);
      CloseSector();
      ghost var mid, log1 := ts.secs, log;
      SparesLess(t0.secs, mid, Next(t0.cur, n));
      LogSparesLess(old(log), log1, t0.secs, Next(t0.cur, n));
      RingTurn(t0.cur);
      BaseNext(0, secSize);
      var newSecAddr: u32 := 0;
      if curSec.addr + secSize < maxSize {
        newSecAddr := curSec.addr + secSize;
      } else if !rollover {
        return Failed(SavedFull);
      }
      NextDiffers(t0.cur, n);
      AdvanceSector(newSecAddr, Next(t0.cur, n));
      LogSparesOn(old(log), log1, log, t0.secs, mid, Next(t0.cur, n));
      SeatedFresh(t0, blobSize);
      HeadKnown(curSec, ts.secs[ts.cur], Base(ts.cur, secSize), secSize);
      r := Done;
    }

    /** `update_sec_status` */
    method UpdateSecStatus(blobSize: nat, curTime: i32) returns (r: Outcome)
      requires Live() && blobSize <= maxLen
      modifies storage, `ts, `log, `curSec, `oldestAddr
      ensures Live()
      ensures old(ts).cur < |old(ts).secs|
      ensures ts == Update(old(ts), blobSize, curTime).ts && r == Update(old(ts), blobSize, curTime).outcome
      ensures LogSpares(old(log), log, old(ts.secs), GivenUp(old(ts), blobSize))
      ensures Spares(old(ts.secs), ts.secs, GivenUp(old(ts), blobSize))
    {
      hide Base, TsAt, AllTsShow, WfTs, Known, Room, Closed, Seated, CloseFor, Spares, LogSpares, Overflows;
      UpdateKeeps(ts, blobSize, curTime);
      OverflowsIs(ts, blobSize);
      KnownParts(curSec, ts, secSize);
      ghost var t0, log0 := ts, log;
      UpdateSpares(t0, blobSize, curTime);
      LogSparesNone(log, ts.secs, GivenUp(t0, blobSize));
      var cost := TS_IDX + blobSize;
      if curSec.status == Using && curSec.remain < cost {
        r := GoOn(blobSize);
        if r != Done {
          return;
        }
        KnownStatus(curSec, ts.secs[ts.cur], Base(ts.cur, secSize), secSize);
      } else {
        SeatedSame(t0, blobSize);
        if curSec.status == Full {
          return Failed(SavedFull);
        }
      }
      if curSec.status == Empty {
        SeatedFresh(t0, blobSize);
        ghost var mid, log1 := ts.secs, log;
        OpenSector(curTime);
        LogSparesLess(log1, log, mid, GivenUp(t0, blobSize));
        LogSparesOn(log0, log1, log, t0.secs, mid, GivenUp(t0, blobSize));
      }
      r := Done;
    }

    // ---------------------------------------------------------- writing records

    /** The current sector, which was `sec` in the bytes `s`, has its next record written as far as `fields`
        and `data`, and counts as torn. */
    ghost predicate Storing(s: seq<byte>, sec: TSec, len: nat, fields: seq<byte>, data: seq<byte>)
      reads this, storage
    {
      && ts.cur < |ts.secs| && sec.TSec? && Base(ts.cur, secSize) + secSize <= |storage.mem|
      && TSecAt(s, Base(ts.cur, secSize), sec) && |s| == secSize
      && len <= Reserved(sec.recs, secSize, maxLen) && TS_IDX + Reserved(sec.recs, secSize, maxLen) <= Room(sec.recs, secSize)
      && ts.secs[ts.cur] == TornIn(sec, secSize, maxLen)
      && SlotStage(s, Part(storage.mem, ts.cur, secSize), sec.recs, len, fields, data)
    }

    method StartTsl(idxAddr: u32, ghost len: nat, ghost s: seq<byte>, ghost sec: TSec)
      requires Valid() && ts.cur < |ts.secs| && ts.secs[ts.cur] == sec && sec.TSec?
      requires Base(ts.cur, secSize) + secSize <= |storage.mem| && s == Part(storage.mem, ts.cur, secSize)
      requires idxAddr == Base(ts.cur, secSize) + SlotOff(|sec.recs|)
      requires len <= maxLen && TS_IDX + len <= Room(sec.recs, secSize)
      modifies storage, `ts, `log
      ensures Valid() && Storing(s, sec, len, [], [])
      ensures ts == old(ts).(secs := old(ts.secs)[old(ts.cur) := TornIn(sec, secSize, maxLen)])
      ensures log == old(log) + [ts.secs]
    {
      hide Base, TSecAt, Part, Overwrite, TsAt, AllTsShow, Code, Room, SlotStage, SlotOff;
      ghost var i, b := ts.cur, Base(ts.cur, secSize);
      TsPartAt(storage.mem, ts.secs, secSize, i);
      ReservedFits(sec.recs, secSize, maxLen, len);
      StartSlot(s, b, sec, len);
      SlotBelow(s, b, sec);
      StageTorn(s, Overwrite(s, SlotOff(|sec.recs|), [Code(1)]), b, sec, len, Reserved(sec.recs, secSize, maxLen), [], []);
      CodesNest(0, 1);
      ProgramStatus(idxAddr, TSL_STATUS_NUM, TslIndex(PreWrite), i, SlotOff(|sec.recs|), TornIn(sec, secSize, maxLen));
    }

    method WriteIndex(addr: u32, fields: seq<byte>, ghost len: nat, ghost s: seq<byte>, ghost sec: TSec)
      requires Valid() && Storing(s, sec, len, [], []) && |fields| == 12
      requires addr == Base(ts.cur, secSize) + SlotOff(|sec.recs|) + 4
      modifies storage, `ts, `log
      ensures Valid() && Storing(s, sec, len, fields, []) && ts == old(ts) && log == old(log) + [ts.secs]
    {
      hide Base, TSecAt, Part, Overwrite, TsAt, AllTsShow, Code, Room, SlotStage, SlotOff, TornIn, Reserved, OnlyClears;
      ghost var i, b := ts.cur, Base(ts.cur, secSize);
      ghost var t := Part(storage.mem, i, secSize);
      WriteFields(s, t, sec.recs, len, fields);
      TornIs(sec, secSize, maxLen);
      StageTorn(s, Overwrite(t, SlotOff(|sec.recs|) + 4, fields), b, sec, len, Reserved(sec.recs, secSize, maxLen), fields, []);
      Program(addr, fields, i, SlotOff(|sec.recs|) + 4, ts.secs[i]);
      assert ts.secs == old(ts.secs);
    }

    method WriteBlob(addr: u32, blob: seq<byte>, ghost fields: seq<byte>, ghost s: seq<byte>, ghost sec: TSec)
      requires Valid() && Storing(s, sec, |blob|, fields, []) && |fields| == 12
      requires addr == Base(ts.cur, secSize) + NextData(sec.recs, |blob|, secSize)
      modifies storage, `ts, `log
      ensures Valid() && Storing(s, sec, |blob|, fields, blob) && ts == old(ts)
      ensures log == if blob == [] then old(log) else old(log) + [ts.secs]
    {
      hide Base, TSecAt, Part, Overwrite, TsAt, AllTsShow, Code, Room, SlotStage, NextData, TornIn, Reserved, OnlyClears;
      ghost var i, b := ts.cur, Base(ts.cur, secSize);
      ghost var t := Part(storage.mem, i, secSize);
      WriteData(s, t, sec.recs, fields, blob);
      // `write_align` makes no storage call for an empty buffer.
      if blob != [] {
        TornIs(sec, secSize, maxLen);
        StageTorn(s, Overwrite(t, NextData(sec.recs, |blob|, secSize), blob), b, sec, |blob|, Reserved(sec.recs, secSize, maxLen), fields, blob);
        Program(addr, blob, i, NextData(sec.recs, |blob|, secSize), ts.secs[i]);
        assert ts.secs == old(ts.secs);
      }
    }

    method FinishTsl(idxAddr: u32, time: i32, blob: seq<byte>, ghost s: seq<byte>, ghost sec: TSec)
      requires Valid() && |blob| < 0x1_0000_0000 && sec.TSec?
      requires var d := NextData(sec.recs, |blob|, secSize);
        0 <= d && Base(ts.cur, secSize) + d < 0x1_0000_0000
        && Storing(s, sec, |blob|, IndexFields(time, |blob|, Base(ts.cur, secSize) + d), blob)
      requires idxAddr == Base(ts.cur, secSize) + SlotOff(|sec.recs|)
      modifies storage, `ts, `log
      ensures Valid() && old(ts.cur) < |old(ts.secs)|
      ensures ts == old(ts).(secs := old(ts.secs)[old(ts.cur) := sec.(recs := sec.recs + [Rec(Write, time, blob)])])
      ensures log == old(log) + [ts.secs]
    {
      hide Base, TSecAt, Part, Overwrite, TsAt, AllTsShow, Code, Room, SlotStage, SlotOff, NextData, TornIn, Reserved, IndexFields;
      ghost var i, b := ts.cur, Base(ts.cur, secSize);
      FinishSlot(s, Part(storage.mem, i, secSize), b, sec, time, blob);
      CodesNest(1, 2);
      ProgramStatus(idxAddr, TSL_STATUS_NUM, TslIndex(Write), i, SlotOff(|sec.recs|), sec.(recs := sec.recs + [Rec(Write, time, blob)]));
    }

    /** `write_tsl`. At every storage call the current sector holds what it held before and, until the last
        one, a torn record behind it, for which the room of the longest record is reserved. */
    method WriteTsl(blob: seq<byte>, time: i32)
      requires Valid() && ts.cur < |ts.secs| && InStore(ts.secs[ts.cur], Using)
      requires Known(curSec, ts.secs[ts.cur], Base(ts.cur, secSize), secSize)
      requires |blob| <= maxLen && TS_IDX + |blob| <= Room(ts.secs[ts.cur].recs, secSize)
      modifies storage, `ts, `log
      ensures Valid() && old(ts.cur) < |old(ts.secs)|
      ensures ts == Push(old(ts), Rec(Write, time, blob))
      ensures |old(log)| < |log| && log[..|old(log)|] == old(log)
      ensures forall x :: |old(log)| <= x < |log| - 1 ==>
                log[x] == old(ts.secs)[ts.cur := TornIn(old(ts.secs)[ts.cur], secSize, maxLen)]
      ensures LogSpares(old(log), log, old(ts.secs), |old(ts.secs)|)
    {
      hide Base, TSecAt, Part, TsAt, AllTsShow, Code, SlotStage, SlotOff, TornIn, Reserved, IndexFields, Word, Known, Room, NextData,
           LogSpares;
      ghost var i, sec := ts.cur, ts.secs[ts.cur];
      BaseBound(i, |ts.secs|, secSize);
      TsPartAt(storage.mem, ts.secs, secSize, i);
      ghost var s := Part(storage.mem, i, secSize);
      NextFits(sec.recs, |blob|, secSize);
      KnownGap(curSec, sec, Base(i, secSize), secSize, |blob|);
      var idxAddr := curSec.emptyIdx;
      var logAddr: u32 := curSec.emptyData - |blob|;
      var idx := Word(Unsigned(time)) + Word(|blob|) + Word(logAddr);
      assert idx == IndexFields(time, |blob|, logAddr) by { FieldsAre(time, |blob|, logAddr); }
      StartTsl(idxAddr, |blob|, s, sec);
      WriteIndex(idxAddr + 4, idx, |blob|, s, sec);
      WriteBlob(logAddr, blob, idx, s, sec);
      FinishTsl(idxAddr, time, blob, s, sec);
      TornMore(sec, secSize, maxLen);
      PushSpares(old(log), log, old(ts.secs), i, TornIn(sec, secSize, maxLen), ts.secs[i], |ts.secs|);
    }

    // ---------------------------------------------------------- appending

    ghost method Restart()
      requires Valid()
      modifies storage`history, `log
      ensures Valid() && log == [ts.secs] && storage.history == [storage.mem]
    {
      hide Base, TsAt;
      storage.Mark();
      log := [ts.secs];
      assert log[0] == ts.secs && TsShows(storage.mem, log, secSize);
    }

    /** `tsl_append` */
    method TslAppend(blob: seq<byte>, curTime: i32) returns (r: Outcome)
      requires Live()
      modifies storage, `ts, `log, `curSec, `oldestAddr, `lastTime
      ensures Live()
      ensures old(ts).cur < |old(ts).secs|
      ensures ts == Append(old(ts), curTime, blob).ts && r == Append(old(ts), curTime, blob).outcome
      ensures LogSpares(old(log), log, old(ts.secs), GivenUp(old(ts), |blob|))
    {
      hide Base, TsAt, AllTsShow, WfTs, Known, Room, Update, TornIn, CanPush, Spares, LogSpares, GivenUp, LogFrom, WfSec, DataLen;
      AppendKeeps(ts, curTime, blob);
      ghost var log0, f, i := log, ts.secs, GivenUp(ts, |blob|);
      LogSparesNone(log, f, i);
      if |blob| > maxLen {
        return Failed(WriteErr);
      }
      if curTime <= lastTime {
        return Failed(WriteErr);
      }
      UpdateKeeps(ts, |blob|, curTime);
      var u := UpdateSecStatus(|blob|, curTime);
      if u != Done {
        return u;
      }
      ghost var rec := Rec(Write, curTime, blob);
      PushRoom(ts, |blob|);
      BaseBound(ts.cur, |ts.secs|, secSize);
      NextFits(ts.secs[ts.cur].recs, |blob|, secSize);
      KnownPushed(curSec, ts.secs[ts.cur], Base(ts.cur, secSize), secSize, rec);
      ghost var log1, g := log, ts.secs;
      WriteTsl(blob, curTime);
      LogSparesLess(log1, log, g, i);
      LogSparesOn(log0, log1, log, f, g, i);
      curSec := curSec.(endIdx := curSec.emptyIdx, endTime := curTime, emptyIdx := curSec.emptyIdx + TS_IDX,
        emptyData := curSec.emptyData - |blob|, remain := curSec.remain - (TS_IDX + |blob|));
      lastTime := curTime;
      ts := ts.(lastTime := curTime);
      r := Done;
    }

    /** `append_with_ts`: the record is added at the end of the log; if it needs a new sector while none is
        empty, exactly the oldest sector's records are given up. A call that fails changes nothing. */
    method AppendWithTs(blob: seq<byte>, timestamp: i32) returns (r: Outcome)
      requires initOk ==> Live()
      modifies storage, `ts, `log, `curSec, `oldestAddr, `lastTime
      ensures !initOk ==> r == Failed(InitFailed) && storage.mem == old(storage.mem)
      ensures initOk ==> Live() && ts.oldest < |ts.secs| && old(ts).oldest < |old(ts).secs| && old(ts).cur < |old(ts).secs|
      ensures initOk ==>
                && ts == Append(old(ts), timestamp, blob).ts && r == Append(old(ts), timestamp, blob).outcome
                && (r == Failed(WriteErr) <==> |blob| > maxLen || timestamp <= old(lastTime))
                && (r == Failed(SavedFull) <==> r != Failed(WriteErr) && Exhausted(old(ts), |blob|))
                && (r == Failed(SavedFull) ==> InStore(ts.secs[ts.cur], Full))
                && (r == Done ==>
                      && lastTime == timestamp && Lost(old(ts), |blob|) <= |Log(old(ts))|
                      && Log(ts) == Log(old(ts))[Lost(old(ts), |blob|)..] + [Rec(Write, timestamp, blob)])
                && (r != Done ==> Log(ts) == Log(old(ts)))
                && EachSpares(storage.history, secSize, old(ts).secs, GivenUp(old(ts), |blob|))
    {
      hide Base, TsAt, AllTsShow, WfTs, Known, Append, LogFrom, Lost, Exhausted;
      if !initOk {
        return Failed(InitFailed);
      }
      Restart();
      AppendKeeps(ts, timestamp, blob);
      r := TslAppend(blob, timestamp);
      SparesEach(storage.history, log, secSize, old(ts).secs, GivenUp(old(ts), |blob|));
    }

    // ---------------------------------------------------------- the ring of sectors

    /** `get_next_sector_addr` */
    function GetNextSectorAddr(preSec: TsInfo, traversedLen: u32): int {
      if traversedLen + secSize <= maxSize then
        if preSec.addr + secSize < maxSize then preSec.addr + secSize else 0
      else FAILED_ADDR
    }

    /** `get_last_sector_addr` */
    function GetLastSectorAddr(preSec: TsInfo, traversedLen: u32): int {
      if traversedLen + secSize <= maxSize then
        if preSec.addr >= secSize then preSec.addr - secSize else maxSize - secSize
      else FAILED_ADDR
    }

    /** A walk has come forward from sector `start` to ring step `k`. */
    ghost predicate OnRing(start: nat, k: nat, secAddr: int, traversedLen: int)
      reads this
    {
      && start < |ts.secs| && k < |ts.secs|
      && secAddr == Base(RingPos(start, k, |ts.secs|), secSize) && traversedLen == Base(k, secSize)
    }

    lemma RingStep(start: nat, k: nat, info: TsInfo)
      requires Valid() && start < |ts.secs| && k < |ts.secs| && info.addr == Base(RingPos(start, k, |ts.secs|), secSize)
      ensures Base(k, secSize) + secSize == Base(k + 1, secSize) <= maxSize
      ensures var next := GetNextSectorAddr(info, Base(k + 1, secSize));
        && 0 <= next < 0x1_0000_0000 && (next == FAILED_ADDR <==> k + 1 == |ts.secs|)
        && (k + 1 < |ts.secs| ==> OnRing(start, k + 1, next, Base(k + 1, secSize)))
    {
      hide Base, TsAt, AllTsShow;
      var n, pos := |ts.secs|, RingPos(start, k, |ts.secs|);
      BaseNext(k, secSize);
      BaseNext(pos, secSize);
      BaseBound(k, n, secSize);
      BaseBound(pos, n, secSize);
      if k + 1 < n {
        BaseBound(k + 1, n, secSize);
      }
      if pos + 1 < n {
        BaseBound(pos + 1, n, secSize);
      }
    }

    /** A walk has gone back from sector `cur` for `k` steps. */
    ghost predicate OnBack(cur: nat, k: nat, secAddr: int, traversedLen: int)
      reads this
    {
      && cur < |ts.secs| && k < |ts.secs|
      && secAddr == Base(BackOf(cur, k, |ts.secs|), secSize) && traversedLen == Base(k, secSize)
    }

    lemma BackStep(cur: nat, k: nat, info: TsInfo)
      requires Valid() && cur < |ts.secs| && k < |ts.secs| && info.addr == Base(BackOf(cur, k, |ts.secs|), secSize)
      ensures Base(k, secSize) + secSize == Base(k + 1, secSize) <= maxSize
      ensures var next := GetLastSectorAddr(info, Base(k + 1, secSize));
        && 0 <= next < 0x1_0000_0000 && (next == FAILED_ADDR <==> k + 1 == |ts.secs|)
        && (k + 1 < |ts.secs| ==> OnBack(cur, k + 1, next, Base(k + 1, secSize)))
    {
      hide Base, TsAt, AllTsShow;
      var n, pos := |ts.secs|, BackOf(cur, k, |ts.secs|);
      BaseNext(k, secSize);
      BaseNext(n - 1, secSize);
      BaseNext(0, secSize);
      BaseBound(k, n, secSize);
      BaseBound(pos, n, secSize);
      if k + 1 < n {
        BaseBound(k + 1, n, secSize);
      }
      if 0 < pos {
        BaseNext(pos - 1, secSize);
      }
    }

    // ---------------------------------------------------------- walking the whole log

    /** Every record is where the header or the memory says the index ends. */
    ghost predicate Walks(sector: TsInfo, i: nat)
      reads this, storage
    {
      && Valid() && WfTs(ts) && i < |ts.secs| && ts.secs[i].TSec? && ts.secs[i].recs != []
      && sector.addr == Base(i, secSize) && sector.status == ts.secs[i].store && sector.status != Empty
      && sector.endIdx == Base(i, secSize) + SlotOff(|ts.secs[i].recs| - 1)
    }

    /** The sector that a walk goes over: a full one by its header, one in use as known in memory. */
    method ForWalk(sector0: TsInfo, ghost i: nat) returns (sector: TsInfo)
      requires Live() && Filled(ts) && i < |ts.secs|
      requires HeadRead(sector0, ts.secs[i], Base(i, secSize), secSize) && (sector0.status == Using || sector0.status == Full)
      ensures Walks(sector, i)
      ensures sector == if sector0.status == Using then curSec else sector0
      ensures sector0.status == Using ==> i == ts.cur && Known(sector, ts.secs[i], Base(i, secSize), secSize)
    {
      hide Base, TsAt, AllTsShow, Packed, WfSec, Room, SlotOff;
      WalkShape(ts, i);
      sector := sector0;
      if sector.status == Using {
        sector := curSec;
      }
      EndIndex(sector, ts.secs[i], Base(i, secSize), secSize, maxLen);
    }

    /** The forward loop over the records of one sector. */
    method CollectSector(sector: TsInfo, ghost i: nat) returns (out: seq<Tsl>)
      requires Walks(sector, i)
      ensures TslsAt(out, ts.secs, secSize, maxLen, PlacesIn(ts.secs[i], i))
    {
      hide Base, TsAt, AllTsShow, WfTs, WfSec, TslAt, TslsAt, SlotOff, ReadSlot;
      out := [];
      ghost var k, b, recs, ps := 0, Base(i, secSize), ts.secs[i].recs, PlacesIn(ts.secs[i], i);
      SectorWf(ts, i);
      TslsNone(ts.secs, secSize, maxLen, ps);
      BaseBound(i, |ts.secs|, secSize);
      SlotZero();
      var tsl := BlankTsl().(addrIndex := sector.addr + TS_HDR);
      while true
        invariant 0 <= k < |recs| && tsl.addrIndex == b + SlotOff(k)
        invariant TslsAt(out, ts.secs, secSize, maxLen, ps[..k])
        decreases |recs| - k
      {
        RecordTsl(storage.mem, ts.secs, secSize, i, k, maxLen);
        tsl := ReadTsl(tsl.addrIndex);
        TslsSnoc(out, tsl, ts.secs, secSize, maxLen, ps, k);
        out := out + [tsl];
        NextSlot(sector, tsl, ts.secs[i], b, secSize, maxLen, k);
        k := k + 1;
        var next := GetNextTslAddr(sector, tsl);
        if next == FAILED_ADDR {
          break;
        }
        tsl := tsl.(addrIndex := next);
      }
      assert ps[..k] == ps;
    }

    /** One round of `collect`: the records of ring step `k`. */
    method CollectStep(out0: seq<Tsl>, secAddr: u32, ghost k: nat) returns (out: seq<Tsl>, sector: TsInfo)
      requires Live() && Filled(ts) && ts.oldest < |ts.secs| && k < |ts.secs|
      requires secAddr == Base(RingPos(ts.oldest, k, |ts.secs|), secSize)
      requires TslsAt(out0, ts.secs, secSize, maxLen, Places(ts.secs, ts.oldest, 0, k))
      ensures TslsAt(out, ts.secs, secSize, maxLen, Places(ts.secs, ts.oldest, 0, k + 1))
      ensures sector.addr == secAddr
    {
      hide Base, TsAt, AllTsShow, WfTs, TslAt, TslsAt, PlacesIn, Known, Filled, SlotOff, Places;
      ghost var i := RingPos(ts.oldest, k, |ts.secs|);
      out := out0;
      var r;
      sector, r := ReadSectorInfo(secAddr, false, i);
      SectorWf(ts, i);
      EmptyPlaces(ts.secs, i, secSize, maxLen);
      PlacesStep(ts.secs, ts.oldest, k);
      if r == Done && (sector.status == Using || sector.status == Full) {
        sector := ForWalk(sector, i);
        var part := CollectSector(sector, i);
        TslsJoin(out, part, ts.secs, secSize, maxLen, Places(ts.secs, ts.oldest, 0, k), PlacesIn(ts.secs[i], i));
        out := out + part;
      }
    }

    /** `collect`: the whole log, oldest record first. */
    method Collect() returns (out: seq<Tsl>)
      requires initOk ==> Live() && Filled(ts)
      ensures !initOk ==> out == []
      ensures initOk ==> ts.oldest < |ts.secs| && TslsAt(out, ts.secs, secSize, maxLen, Places(ts.secs, ts.oldest, 0, |ts.secs|))
    {
      hide Base, TsAt, AllTsShow, WfTs, TslsAt, Places, Known, Filled;
      out := [];
      if !initOk {
        return;
      }
      LogBound(ts);
      PlacesNone(ts.secs, ts.oldest, 0, 0);
      TslsNone(ts.secs, secSize, maxLen, []);
      var secAddr: u32, traversedLen: u32 := oldestAddr, 0;
      ghost var k := 0;
      BaseNext(0, secSize);
      while true
        invariant OnRing(ts.oldest, k, secAddr, traversedLen)
        invariant TslsAt(out, ts.secs, secSize, maxLen, Places(ts.secs, ts.oldest, 0, k))
        decreases |ts.secs| - k
      {
        RingBound(k);
        traversedLen := traversedLen + secSize;
        var sector;
        out, sector := CollectStep(out, secAddr, k);
        RingStep(ts.oldest, k, sector);
        var next := GetNextSectorAddr(sector, traversedLen);
        if next == FAILED_ADDR {
          break;
        }
        secAddr := next;
        k := k + 1;
      }
    }

    /** The backward loop over the records of one sector. */
    method CollectSectorBack(sector: TsInfo, ghost i: nat) returns (out: seq<Tsl>)
      requires Walks(sector, i)
      ensures TslsAt(out, ts.secs, secSize, maxLen, Reversed<Pos>(PlacesIn(ts.secs[i], i)))
    {
      hide Base, TsAt, AllTsShow, WfTs, WfSec, TslAt, TslsAt, SlotOff, ReadSlot, Reversed;
      out := [];
      ghost var b, recs, ps := Base(i, secSize), ts.secs[i].recs, PlacesIn(ts.secs[i], i);
      ghost var k: nat := |recs| - 1;
      SectorWf(ts, i);
      TslsNone(ts.secs, secSize, maxLen, ps);
      ReversedNone(ps);
      BaseBound(i, |ts.secs|, secSize);
      var tsl := BlankTsl().(addrIndex := sector.endIdx);
      while true
        invariant 0 <= k < |recs| && tsl.addrIndex == b + SlotOff(k)
        invariant TslsAt(out, ts.secs, secSize, maxLen, Reversed<Pos>(ps[k + 1..]))
        decreases k
      {
        RecordTsl(storage.mem, ts.secs, secSize, i, k, maxLen);
        tsl := ReadTsl(tsl.addrIndex);
        TslsBack(out, tsl, ts.secs, secSize, maxLen, ps, k);
        out := out + [tsl];
        LastSlot(sector, tsl, ts.secs[i], b, k);
        var next := GetLastTslAddr(sector, tsl);
        if next == FAILED_ADDR {
          break;
        }
        tsl := tsl.(addrIndex := next);
        k := k - 1;
      }
      assert ps[0..] == ps;
    }

    /** One round of `collect_reverse`, `k` steps back from the current sector; tells whether the walk is over. */
    method CollectBackStep(out0: seq<Tsl>, secAddr: u32, ghost k: nat) returns (out: seq<Tsl>, sector: TsInfo, stop: bool)
      requires Live() && Filled(ts) && ts.oldest < |ts.secs| && k < |ts.secs|
      requires k <= Steps(ts.oldest, ts.cur, |ts.secs|) + 1
      requires secAddr == Base(BackOf(ts.cur, k, |ts.secs|), secSize)
      requires TslsAt(out0, ts.secs, secSize, maxLen, Reversed<Pos>(Behind(ts, k)))
      ensures TslsAt(out, ts.secs, secSize, maxLen, Reversed<Pos>(Behind(ts, k + 1)))
      ensures stop ==> Behind(ts, k + 1) == Places(ts.secs, ts.oldest, 0, |ts.secs|)
      ensures !stop ==> k <= Steps(ts.oldest, ts.cur, |ts.secs|)
      ensures sector.addr == secAddr
    {
      hide Base, TsAt, AllTsShow, WfTs, TslAt, TslsAt, PlacesIn, Known, Filled, SlotOff, Places, Reversed, Behind;
      ghost var i := BackOf(ts.cur, k, |ts.secs|);
      out, stop := out0, false;
      var r;
      sector, r := ReadSectorInfo(secAddr, false, i);
      SectorWf(ts, i);
      EmptyPlaces(ts.secs, i, secSize, maxLen);
      BehindStep(ts, k);
      if r == Done {
        if sector.status == Using || sector.status == Full {
          sector := ForWalk(sector, i);
          var part := CollectSectorBack(sector, i);
          TslsJoin(out, part, ts.secs, secSize, maxLen, Reversed<Pos>(Behind(ts, k)), Reversed<Pos>(PlacesIn(ts.secs[i], i)));
          out := out + part;
        } else if sector.status == Empty || sector.status == StoreStatus.Unused {
          stop := true;
        }
      }
    }

    /** `collect_reverse`: the whole log, newest record first. */
    method CollectReverse() returns (out: seq<Tsl>)
      requires initOk ==> Live() && Filled(ts)
      ensures !initOk ==> out == []
      ensures initOk ==>
                ts.oldest < |ts.secs|
                && TslsAt(out, ts.secs, secSize, maxLen, Reversed<Pos>(Places(ts.secs, ts.oldest, 0, |ts.secs|)))
    {
      hide Base, TsAt, AllTsShow, WfTs, TslsAt, Places, Known, Filled, Behind, Reversed;
      out := [];
      if !initOk {
        return;
      }
      LogBound(ts);
      KnownParts(curSec, ts, secSize);
      BehindStart(ts);
      ReversedNone([]);
      TslsNone(ts.secs, secSize, maxLen, []);
      var secAddr: u32, traversedLen: u32 := curSec.addr, 0;
      ghost var k := 0;
      BaseNext(0, secSize);
      while true
        invariant OnBack(ts.cur, k, secAddr, traversedLen)
        invariant k <= Steps(ts.oldest, ts.cur, |ts.secs|) + 1
        invariant TslsAt(out, ts.secs, secSize, maxLen, Reversed<Pos>(Behind(ts, k)))
        decreases |ts.secs| - k
      {
        RingBound(k);
        traversedLen := traversedLen + secSize;
        var sector, stop;
        out, sector, stop := CollectBackStep(out, secAddr, k);
        if stop {
          break;
        }
        BackStep(ts.cur, k, sector);
        BehindEnd(ts, k + 1);
        var next := GetLastSectorAddr(sector, traversedLen);
        if next == FAILED_ADDR {
          break;
        }
        secAddr := next;
        k := k + 1;
      }
    }

    // ---------------------------------------------------------- queries by time

    /** The current sector's records may be searched by time. */
    ghost predicate Searchable(sector: TsInfo, i: nat)
      reads this, storage
    {
      Walks(sector, i) && AllRecs(ts.secs[i]) && Sorted(TimesOf(ts.secs[i]))
    }

    /** Slot `k` of sector `i`: that of a record or the one behind the last. */
    method ReadTime(addr: u32, ghost i: nat, ghost k: nat) returns (tsl: Tsl)
      requires Valid() && WfTs(ts) && i < |ts.secs| && ts.secs[i].TSec? && AllRecs(ts.secs[i]) && k <= |ts.secs[i].recs|
      requires addr == Base(i, secSize) + SlotOff(k)
      ensures tsl == ReadSlot(storage.mem, addr, maxLen)
      ensures k < |ts.secs[i].recs| ==> tsl.status != TslStatus.Unused && tsl.time == TimesOf(ts.secs[i])[k]
      ensures k == |ts.secs[i].recs| ==>
                Slot(tsl.status, tsl.time) == After(storage.mem, ts.secs[i], Base(i, secSize), maxLen)
    {
      hide Base, TsAt, AllTsShow, WfTs, WfSec, ReadSlot, SlotOff;
      SectorWf(ts, i);
      if k < |ts.secs[i].recs| {
        TimeReads(storage.mem, ts.secs, secSize, i, k, maxLen);
      }
      tsl := ReadTsl(addr);
    }

    /** `search_start_tsl_addr` over the slots from `startIn` to `endIn`, those of the records of sector `i`. */
    method SearchStart(startIn: u32, endIn: u32, from: i32, to: i32, ghost sector: TsInfo, ghost i: nat) returns (r: u32)
      requires Searchable(sector, i)
      requires startIn == Base(i, secSize) + TS_HDR && endIn == sector.endIdx
      ensures r == Base(i, secSize) + TS_HDR
                   + TS_IDX * SearchIndex(TimesOf(ts.secs[i]), After(storage.mem, ts.secs[i], Base(i, secSize), maxLen), from, to)
    {
      hide Base, TsAt, AllTsShow, WfTs, WfSec, Sorted, ReadSlot, TimesOf, After, SearchIndex, AlignUp, AllRecs;
      ghost var times, b := TimesOf(ts.secs[i]), Base(i, secSize);
      ghost var lo: nat, hi: int := 0, |times| - 1;
      SectorWf(ts, i);
      BaseBound(i, |ts.secs|, secSize);
      SlotLast(ts.secs[i], secSize, maxLen);
      TimesSize(ts.secs[i]);
      var start: int, end: int := startIn, endIn;
      while true
        invariant 0 <= lo <= hi < |times| && start == b + TS_HDR + TS_IDX * lo && end == b + TS_HDR + TS_IDX * hi
        invariant forall j :: 0 <= j < lo ==> times[j] < from
        invariant forall j :: hi < j < |times| ==> times[j] > from
        decreases hi - lo
      {
        var mid := start + AlignUp((end - start) / 2, TS_IDX);
        ghost var m := lo + (hi - lo + 1) / 2;
        MidIs(hi - lo);
        var tsl := ReadTime(mid, i, m);
        Split(times, m);
        if tsl.time < from {
          start := tsl.addrIndex + TS_IDX;
          lo := m + 1;
        } else if tsl.time > from {
          end := tsl.addrIndex - TS_IDX;
          hi := m - 1;
        } else {
          ExactIndex(times, After(storage.mem, ts.secs[i], b, maxLen), from, to, m);
          return tsl.addrIndex;
        }
        if start > end {
          assert lo == hi + 1;
          r := SettleStart(start, from, to, i, lo);
          return;
        }
      }
    }

    /** The end of the search: all records in front of slot `lo` are earlier than `from`, the others later. */
    method SettleStart(start0: u32, from: i32, to: i32, ghost i: nat, ghost lo: nat) returns (r: u32)
      requires Valid() && WfTs(ts) && i < |ts.secs| && ts.secs[i].TSec? && AllRecs(ts.secs[i]) && Sorted(TimesOf(ts.secs[i]))
      requires lo <= |TimesOf(ts.secs[i])| && start0 == Base(i, secSize) + TS_HDR + TS_IDX * lo
      requires forall j :: 0 <= j < lo ==> TimesOf(ts.secs[i])[j] < from
      requires forall j :: lo <= j < |TimesOf(ts.secs[i])| ==> TimesOf(ts.secs[i])[j] > from
      ensures r == Base(i, secSize) + TS_HDR
                   + TS_IDX * SearchIndex(TimesOf(ts.secs[i]), After(storage.mem, ts.secs[i], Base(i, secSize), maxLen), from, to)
    {
      hide Base, TsAt, AllTsShow, WfTs, WfSec, Sorted, ReadSlot, TimesOf, After, AllRecs;
      TimesSize(ts.secs[i]);
      LowerBoundIs(TimesOf(ts.secs[i]), from, lo);
      r := start0;
      if from > to {
        var tsl := ReadTime(r, i, lo);
        if tsl.time > from {
          r := r - TS_IDX;
        }
      }
    }

    /** The ascending loop over the records of sector `i` from number `r` on. */
    method WalkSectorUp(sector: TsInfo, start: u32, from: i32, to: i32, ghost i: nat, ghost r: nat)
      returns (out: seq<Tsl>, exit: bool)
      requires Searchable(sector, i) && r < |TimesOf(ts.secs[i])| && start == Base(i, secSize) + SlotOff(r)
      ensures r < |TimesOf(ts.secs[i])|
      ensures var w := WalkUp(TimesOf(ts.secs[i]), from, to, r);
        Picks(out, storage.mem, Base(i, secSize), maxLen, w.picked) && exit == w.exit
    {
      hide Base, TsAt, AllTsShow, WfTs, WfSec, Sorted, ReadSlot, TimesOf, AllRecs, SlotOff, Picks;
      ghost var times, b := TimesOf(ts.secs[i]), Base(i, secSize);
      ghost var k: nat, done: seq<nat> := r, [];
      ghost var w := WalkUp(times, from, to, r);
      SectorWf(ts, i);
      BaseBound(i, |ts.secs|, secSize);
      TimesSize(ts.secs[i]);
      PicksNone(storage.mem, b, maxLen);
      out := [];
      var tsl := BlankTsl().(addrIndex := start);
      while true
        invariant r <= k < |times| && tsl.addrIndex == b + SlotOff(k)
        invariant Picks(out, storage.mem, b, maxLen, done)
        invariant w.picked == done + WalkUp(times, from, to, k).picked && w.exit == WalkUp(times, from, to, k).exit
        decreases |times| - k
      {
        tsl := ReadTime(tsl.addrIndex, i, k);
        if tsl.status != TslStatus.Unused {
          if from <= tsl.time <= to {
            PicksSnoc(out, storage.mem, b, maxLen, done, k);
            out := out + [tsl];
            done := done + [k];
          } else {
            assert w.picked == done;
            return out, true;
          }
        }
        NextSlot(sector, tsl, ts.secs[i], b, secSize, maxLen, k);
        k := k + 1;
        var next := GetNextTslAddr(sector, tsl);
        if next == FAILED_ADDR {
          break;
        }
        tsl := tsl.(addrIndex := next);
      }
      assert w.picked == done;
      exit := false;
    }

    /** The descending loop over the slots of sector `i` from number `r` down. */
    method WalkSectorDown(sector: TsInfo, start: u32, from: i32, to: i32, ghost i: nat, ghost r: nat)
      returns (out: seq<Tsl>, exit: bool)
      requires Searchable(sector, i) && r <= |TimesOf(ts.secs[i])| && start == Base(i, secSize) + SlotOff(r)
      ensures r <= |TimesOf(ts.secs[i])|
      ensures var w := WalkDown(TimesOf(ts.secs[i]), After(storage.mem, ts.secs[i], Base(i, secSize), maxLen), from, to, r);
        Picks(out, storage.mem, Base(i, secSize), maxLen, w.picked) && exit == w.exit
    {
      hide Base, TsAt, AllTsShow, WfTs, WfSec, Sorted, ReadSlot, TimesOf, AllRecs, SlotOff, Picks, After, WalkDown;
      ghost var times, b := TimesOf(ts.secs[i]), Base(i, secSize);
      ghost var k: nat, done: seq<nat> := r, [];
      ghost var after := After(storage.mem, ts.secs[i], b, maxLen);
      ghost var w := WalkDown(times, after, from, to, r);
      SectorWf(ts, i);
      BaseBound(i, |ts.secs|, secSize);
      SlotLast(ts.secs[i], secSize, maxLen);
      SlotUpTo(k, |ts.secs[i].recs|);
      TimesSize(ts.secs[i]);
      PicksNone(storage.mem, b, maxLen);
      out := [];
      var tsl := BlankTsl().(addrIndex := start);
      while true
        invariant 0 <= k <= r && tsl.addrIndex == b + SlotOff(k)
        invariant Picks(out, storage.mem, b, maxLen, done)
        invariant w.picked == done + WalkDown(times, after, from, to, k).picked && w.exit == WalkDown(times, after, from, to, k).exit
        decreases k
      {
        tsl := ReadTime(tsl.addrIndex, i, k);
        WalkDownIs(times, after, from, to, k);
        if tsl.status != TslStatus.Unused {
          if tsl.time <= from && tsl.time >= to {
            PicksSnoc(out, storage.mem, b, maxLen, done, k);
            out := out + [tsl];
            done := done + [k];
          } else {
            assert w.picked == done;
            return out, true;
          }
        }
        LastSlot(sector, tsl, ts.secs[i], b, k);
        SlotUpTo(k, |ts.secs[i].recs|);
        var next := GetLastTslAddr(sector, tsl);
        if next == FAILED_ADDR {
          break;
        }
        k := k - 1;
        tsl := tsl.(addrIndex := next);
      }
      assert w.picked == done;
      exit := false;
    }

    /** The sector at ring step `k` as an ascending query treats it. */
    method SectorQueryUp(sector: TsInfo, from: i32, to: i32, ghost k: nat) returns (out: seq<Tsl>, exit: bool)
      requires Timed(ts) && ts.oldest < |ts.secs| && k < |ts.secs| && Walks(sector, RingPos(ts.oldest, k, |ts.secs|))
      requires from <= to && from <= StepTimes(ts, k)[|StepTimes(ts, k)| - 1]
      ensures var i := RingPos(ts.oldest, k, |ts.secs|); TslsAt(out, ts.secs, secSize, maxLen, QuerySec(ts.secs[i], i, from, to))
      ensures exit ==> Query(ts.secs, ts.oldest, k + 1, |ts.secs|, from, to) == []
    {
      hide Base, TsAt, AllTsShow, WfTs, WfSec, Sorted, AllRecs, Picks, TslsAt, WalkUp, SearchIndex, Query, LogFrom, AllTimed, Picked;
      ghost var i := RingPos(ts.oldest, k, |ts.secs|);
      ghost var times, b := TimesOf(ts.secs[i]), Base(i, secSize);
      StepSorted(ts, k);
      SectorWf(ts, i);
      TimesSize(ts.secs[i]);
      SectorUp(times, After(storage.mem, ts.secs[i], b, maxLen), from, to);
      BaseBound(i, |ts.secs|, secSize);
      var start := SearchStart(sector.addr + TS_HDR, sector.endIdx, from, to, sector, i);
      ghost var r: nat := SearchIndex(times, After(storage.mem, ts.secs[i], b, maxLen), from, to);
      out, exit := WalkSectorUp(sector, start, from, to, i, r);
      PickedBelow(times, from, to, 0, |times|);
      PicksAreTsls(out, storage.mem, ts.secs, secSize, i, maxLen, Picked(times, from, to, 0, |times|));
      if exit {
        PastEnd(ts, k, from, to);
      }
    }

    /** One round of an ascending query, at ring step `k`. */
    method QueryUpStep(out0: seq<Tsl>, found0: bool, secAddr: u32, from: i32, to: i32, ghost k: nat)
      returns (out: seq<Tsl>, found: bool, sector: TsInfo, stop: bool)
      requires Live() && Timed(ts) && ts.oldest < |ts.secs| && k < |ts.secs| && from <= to
      requires secAddr == Base(RingPos(ts.oldest, k, |ts.secs|), secSize)
      requires TslsAt(out0, ts.secs, secSize, maxLen, Query(ts.secs, ts.oldest, 0, k, from, to))
      requires found0 ==> NotBefore(ts, k, from)
      ensures TslsAt(out, ts.secs, secSize, maxLen, Query(ts.secs, ts.oldest, 0, k + 1, from, to))
      ensures stop ==> Query(ts.secs, ts.oldest, 0, k + 1, from, to) == QueryAll(ts, from, to)
      ensures found ==> NotBefore(ts, k + 1, from)
      ensures sector.addr == secAddr
    {
      hide Base, TsAt, AllTsShow, WfTs, TslsAt, Query, QueryAll, QuerySec, LogFrom, AllTimed, Increasing, Known, HeadRead, AllRecs, SlotOff;
      ghost var i := RingPos(ts.oldest, k, |ts.secs|);
      out, found, stop := out0, found0, false;
      var r;
      sector, r := ReadSectorInfo(secAddr, false, i);
      QueryStep(ts, k, from, to);
      SectorWf(ts, i);
      EmptyPlaces(ts.secs, i, secSize, maxLen);
      if r == Done {
        if sector.status == Using || sector.status == Full {
          sector := KnownForQuery(sector, i, k);
          if found || (secAddr == oldestAddr && from <= sector.startTime) || from <= sector.endTime {
            if found0 {
              assert from <= StepTimes(ts, k)[|StepTimes(ts, k)| - 1];
            }
            found := true;
            LaterNotBefore(ts, k, from);
            var part, exit := SectorQueryUp(sector, from, to, k);
            TslsJoin(out, part, ts.secs, secSize, maxLen, Query(ts.secs, ts.oldest, 0, k, from, to), QuerySec(ts.secs[i], i, from, to));
            out := out + part;
            if exit {
              QueryStops(ts, k + 1, from, to);
              stop := true;
            }
          } else {
            SkipUp(ts, k, from, to);
          }
        } else if sector.status == Empty {
          EmptyEnds(ts, k, from, to);
          QueryStops(ts, k, from, to);
          EmptyOffers(ts.secs[i], i, secSize, maxLen, from, to);
          stop := true;
        }
      }
    }

    /** What is known of a sector that a query comes to: its place, its index and its first and last time. */
    method KnownForQuery(sector0: TsInfo, ghost i: nat, ghost k: nat) returns (sector: TsInfo)
      requires Live() && Timed(ts) && ts.oldest < |ts.secs| && k < |ts.secs| && i == RingPos(ts.oldest, k, |ts.secs|)
      requires HeadRead(sector0, ts.secs[i], Base(i, secSize), secSize) && (sector0.status == Using || sector0.status == Full)
      ensures Walks(sector, i) && sector.addr == sector0.addr
      ensures var times := StepTimes(ts, k);
        times != [] && sector.startTime == times[0] && sector.endTime == times[|times| - 1] && times[0] <= times[|times| - 1]
    {
      hide Base, TsAt, AllTsShow, WfTs, LogFrom, Known, AllRecs, SlotOff, AllTimed, Increasing, HeadRead;
      HeadStatus(sector0, ts.secs[i], Base(i, secSize), secSize);
      sector := ForWalk(sector0, i);
      StepSorted(ts, k);
      SectorWf(ts, i);
      SectorTimes(sector, ts.secs[i], Base(i, secSize), secSize, maxLen);
    }

    lemma HeadStatus(info: TsInfo, sec: TSec, b: nat, size: nat)
      requires HeadRead(info, sec, b, size)
      ensures info.addr == b && info.checkOk == sec.TSec? && (sec.TSec? ==> info.status == sec.store)
      ensures sec.Raw? ==> info.status == StoreStatus.Unused
    {}

    /** `collect_by_time` for `from <= to`. */
    method QueryUp(from: i32, to: i32) returns (out: seq<Tsl>)
      requires Live() && Timed(ts) && from <= to
      ensures ts.oldest < |ts.secs| && TslsAt(out, ts.secs, secSize, maxLen, QueryAll(ts, from, to))
    {
      hide Base, TsAt, AllTsShow, WfTs, TslsAt, LogFrom, AllTimed, Increasing, NotBefore;
      out := [];
      TimedRing(ts);
      TslsNone(ts.secs, secSize, maxLen, []);
      var foundStartTsl := false;
      var secAddr: u32, traversedLen: u32 := oldestAddr, 0;
      ghost var k := 0;
      BaseNext(0, secSize);
      while true
        invariant OnRing(ts.oldest, k, secAddr, traversedLen)
        invariant TslsAt(out, ts.secs, secSize, maxLen, Query(ts.secs, ts.oldest, 0, k, from, to))
        invariant foundStartTsl ==> NotBefore(ts, k, from)
        decreases |ts.secs| - k
      {
        RingBound(k);
        traversedLen := traversedLen + secSize;
        var sector, stop;
        out, foundStartTsl, sector, stop := QueryUpStep(out, foundStartTsl, secAddr, from, to, k);
        if stop {
          break;
        }
        RingStep(ts.oldest, k, sector);
        var next := GetNextSectorAddr(sector, traversedLen);
        if next == FAILED_ADDR {
          break;
        }
        secAddr := next;
        k := k + 1;
      }
    }

    /** One erased byte between index and data of every sector is enough for a descending query. */
    lemma GapIsClear(from: i32, to: i32)
      requires Valid() && Timed(ts)
      requires forall i :: 0 <= i < |ts.secs| && RecsOf(ts.secs[i]) != [] ==> 0 < Room(RecsOf(ts.secs[i]), secSize)
      ensures ts.oldest < |ts.secs| && !Misled(storage.mem, ts, maxLen, from, to)
    {
      hide Base, TsAt, AllTsShow, Packed, WfRing, ReadSlot, Room, WfCurrent, LogFrom, Increasing, AllTimed;
      TimedRing(ts);
      forall k: nat | k < |ts.secs| ensures !MisreadAt(storage.mem, ts, maxLen, k, from) {
        var i := RingPos(ts.oldest, k, |ts.secs|);
        if RecsOf(ts.secs[i]) != [] {
          BehindReads(storage.mem, ts.secs, secSize, i, maxLen);
        }
      }
    }

    /** The sector at ring step `k` as a descending query treats it: read rightly, or misread and then either
        skipped with all before it, or spoiling the answer. */
    method SectorQueryDown(sector: TsInfo, from: i32, to: i32, ghost k: nat) returns (out: seq<Tsl>, exit: bool)
      requires Timed(ts) && ts.oldest < |ts.secs| && k < |ts.secs| && Walks(sector, RingPos(ts.oldest, k, |ts.secs|))
      requires to < from && StepTimes(ts, k) != [] && StepTimes(ts, k)[0] <= from
      ensures !MisreadAt(storage.mem, ts, maxLen, k, from) ==>
                var i := RingPos(ts.oldest, k, |ts.secs|);
                && TslsAt(out, ts.secs, secSize, maxLen, Reversed<Pos>(QuerySec(ts.secs[i], i, to, from)))
                && exit == (StepTimes(ts, k)[0] < to)
      ensures MisreadAt(storage.mem, ts, maxLen, k, from) ==>
                if to <= AfterStep(storage.mem, ts, maxLen, k).time then Spoiled(out, ts.secs, secSize) else out == [] && exit
    {
      hide Base, TsAt, AllTsShow, WfTs, WfSec, Sorted, AllRecs, Picks, TslsAt, WalkDown, SearchIndex, Query, LogFrom, AllTimed, Picked,
           Misread, After, Reversed, Spoiled, Foreign, SlotOff;
      ghost var i := RingPos(ts.oldest, k, |ts.secs|);
      ghost var times, b := TimesOf(ts.secs[i]), Base(i, secSize);
      ghost var after := After(storage.mem, ts.secs[i], b, maxLen);
      StepSorted(ts, k);
      SectorWf(ts, i);
      TimesSize(ts.secs[i]);
      SlotZero();
      SearchBelow(times, after, from, to);
      BaseBound(i, |ts.secs|, secSize);
      var start := SearchStart(sector.addr + TS_HDR, sector.endIdx, from, to, sector, i);
      ghost var r: nat := SearchIndex(times, after, from, to);
      SlotIs(r);
      out, exit := WalkSectorDown(sector, start, from, to, i, r);
      if times[|times| - 1] < from && Misread(after, from) {
        MisreadWalk(times, after, from, to);
        MisreadPicks(out, k, from, to);
      } else {
        ReadDown(times, after, from, to);
        ReadPicks(out, i, from, to);
      }
    }

    lemma ReadPicks(out: seq<Tsl>, i: nat, from: i32, to: i32)
      requires Valid() && WfTs(ts) && i < |ts.secs| && ts.secs[i].TSec?
      requires var times := TimesOf(ts.secs[i]);
        Picks(out, storage.mem, Base(i, secSize), maxLen, Reversed<nat>(Picked(times, to, from, 0, |times|)))
      ensures TslsAt(out, ts.secs, secSize, maxLen, Reversed<Pos>(QuerySec(ts.secs[i], i, to, from)))
    {
      hide Base, TsAt, AllTsShow, WfTs, WfSec, Picks, TslsAt, Picked, Reversed;
      var times := TimesOf(ts.secs[i]);
      var p := Picked(times, to, from, 0, |times|);
      SectorWf(ts, i);
      TimesSize(ts.secs[i]);
      PickedBelow(times, to, from, 0, |times|);
      ReversedBelow(p, |times|);
      PicksAreTsls(out, storage.mem, ts.secs, secSize, i, maxLen, Reversed<nat>(p));
      PlacedReversed(i, p);
    }

    lemma MisreadPicks(out: seq<Tsl>, k: nat, from: i32, to: i32)
      requires Valid() && WfTs(ts) && ts.oldest < |ts.secs| && k < |ts.secs|
      requires var i := RingPos(ts.oldest, k, |ts.secs|);
        var times, after := TimesOf(ts.secs[i]), After(storage.mem, ts.secs[i], Base(i, secSize), maxLen);
        && Picks(out, storage.mem, Base(i, secSize), maxLen, WalkDown(times, after, from, to, |times|).picked)
        && (if to <= after.time then |WalkDown(times, after, from, to, |times|).picked| > 0
                                     && WalkDown(times, after, from, to, |times|).picked[0] == |times|
            else WalkDown(times, after, from, to, |times|).picked == [])
      ensures if to <= AfterStep(storage.mem, ts, maxLen, k).time then Spoiled(out, ts.secs, secSize) else out == []
    {
      hide Base, TsAt, AllTsShow, WfSec, WalkDown, ReadSlot, SlotOff, Foreign, After, WfRing, Packed, WfCurrent;
      var i := RingPos(ts.oldest, k, |ts.secs|);
      if to <= AfterStep(storage.mem, ts, maxLen, k).time {
        BehindIsForeign(out[0], ts.secs, secSize, maxLen, i);
      }
    }

    /** What a round has come to: the answer so far is right and goes on, or it is spoiled for good. */
    ghost predicate SoFar(out: seq<Tsl>, a: nat, from: i32, to: i32)
      requires ts.oldest < |ts.secs| && a <= |ts.secs|
      reads this, storage
    {
      || Fine(out, storage.mem, ts, maxLen, a, from, to)
      || (Spoiled(out, ts.secs, ts.secSize) && Misled(storage.mem, ts, maxLen, from, to))
    }

    lemma SoFarEnds(out: seq<Tsl>, from: i32, to: i32)
      requires ts.oldest < |ts.secs| && SoFar(out, 0, from, to)
      ensures Verdict(out, storage.mem, ts, maxLen, from, to)
    {
      hide Fine, Spoiled, Misled, Verdict;
      if Fine(out, storage.mem, ts, maxLen, 0, from, to) {
        FineEnds(out, storage.mem, ts, maxLen, from, to);
      } else {
        SpoiledEnds(out, storage.mem, ts, maxLen, from, to);
      }
    }

    lemma SoFarSkips(out: seq<Tsl>, x: nat, from: i32, to: i32)
      requires Timed(ts) && ts.oldest < |ts.secs| && x < |ts.secs| && SoFar(out, x + 1, from, to)
      requires StepTimes(ts, x) == [] || from < StepTimes(ts, x)[0]
      ensures SoFar(out, x, from, to)
    {
      hide Fine, Spoiled, Misled, Timed;
      if Fine(out, storage.mem, ts, maxLen, x + 1, from, to) {
        FineSkips(out, storage.mem, ts, maxLen, x, from, to);
      }
    }

    /** The sector at ring step `x` has added `part`. */
    lemma SoFarGrows(out: seq<Tsl>, part: seq<Tsl>, exit: bool, x: nat, from: i32, to: i32)
      requires Valid() && Timed(ts) && ts.oldest < |ts.secs| && x < |ts.secs| && to < from && SoFar(out, x + 1, from, to)
      requires StepTimes(ts, x) != [] && StepTimes(ts, x)[0] <= from
      requires !MisreadAt(storage.mem, ts, maxLen, x, from) ==>
                 var i := RingPos(ts.oldest, x, |ts.secs|);
                 && TslsAt(part, ts.secs, secSize, maxLen, Reversed<Pos>(QuerySec(ts.secs[i], i, to, from)))
                 && exit == (StepTimes(ts, x)[0] < to)
      requires MisreadAt(storage.mem, ts, maxLen, x, from) ==>
                 if to <= AfterStep(storage.mem, ts, maxLen, x).time then Spoiled(part, ts.secs, secSize) else part == [] && exit
      ensures exit ==> Verdict(out + part, storage.mem, ts, maxLen, from, to)
      ensures !exit ==> SoFar(out + part, x, from, to)
    {
      hide Spoiled, Misled, Timed, Verdict, Misleads, TslsAt, QuerySec, Query, Reversed, MisreadAt, AfterStep, StepTimes, TsAt, AllTsShow, Base;
      if Spoiled(out, ts.secs, secSize) && Misled(storage.mem, ts, maxLen, from, to) {
        SpoiledMore(out, part, ts.secs, secSize);
        SpoiledEnds(out + part, storage.mem, ts, maxLen, from, to);
      } else if !MisreadAt(storage.mem, ts, maxLen, x, from) {
        FineGrows(out, part, storage.mem, ts, maxLen, x, from, to);
        if exit {
          FineStops(out + part, storage.mem, ts, maxLen, x, from, to);
        }
      } else if to <= AfterStep(storage.mem, ts, maxLen, x).time {
        YieldsNone(storage.mem, ts, maxLen, x, from, to);
        SpoiledMore(out, part, ts.secs, secSize);
        SpoiledEnds(out + part, storage.mem, ts, maxLen, from, to);
      } else {
        assert out + part == out;
        StopsShort(out, storage.mem, ts, maxLen, x, from, to);
      }
    }

    /** One round of a descending query, `k` steps back from the current sector. */
    method QueryDownStep(out0: seq<Tsl>, found0: bool, secAddr: u32, from: i32, to: i32, ghost k: nat)
      returns (out: seq<Tsl>, found: bool, sector: TsInfo, stop: bool)
      requires Live() && Timed(ts) && ts.oldest < |ts.secs| && k < |ts.secs| && to < from
      requires k <= Steps(ts.oldest, ts.cur, |ts.secs|) + 1
      requires secAddr == Base(BackOf(ts.cur, k, |ts.secs|), secSize)
      requires SoFar(out0, BackStart(ts, k), from, to)
      requires found0 ==> NotBehind(ts, BackStart(ts, k), from)
      ensures stop ==> Verdict(out, storage.mem, ts, maxLen, from, to)
      ensures !stop ==> k <= Steps(ts.oldest, ts.cur, |ts.secs|) && SoFar(out, BackStart(ts, k + 1), from, to)
      ensures found ==> NotBehind(ts, BackStart(ts, k + 1), from)
      ensures sector.addr == secAddr
    {
      hide Base, TsAt, AllTsShow, WfTs, TslsAt, LogFrom, AllTimed, Increasing, Known, HeadRead, AllRecs, SlotOff, BackStart, NotBehind,
           SoFar, Verdict, MisreadAt, AfterStep, Spoiled;
      ghost var i := BackOf(ts.cur, k, |ts.secs|);
      out, found, stop := out0, found0, false;
      var r;
      sector, r := ReadSectorInfo(secAddr, false, i);
      BackStepIs(ts, k);
      SectorWf(ts, i);
      EmptyPlaces(ts.secs, i, secSize, maxLen);
      if r == Done {
        if sector.status == Using || sector.status == Full {
          ghost var x := BackStart(ts, k + 1);
          sector := KnownForQuery(sector, i, x);
          if found || (secAddr == curSec.addr && from >= sector.endTime) || from >= sector.startTime {
            FirstNotBehind(ts, k, from, found0);
            found := true;
            EarlierNotBehind(ts, x, from);
            var part, exit := SectorQueryDown(sector, from, to, x);
            SoFarGrows(out, part, exit, x, from, to);
            out := out + part;
            if exit {
              stop := true;
            }
          } else {
            SoFarSkips(out, x, from, to);
          }
        } else if sector.status == Empty {
          stop := true;
          NotBehindLess(ts, BackStart(ts, k + 1), BackStart(ts, k), from);
          EmptyStops(out, k, from, to);
        }
      }
    }

    /** An empty sector ends the walk back, with nothing left behind it. */
    lemma EmptyStops(out: seq<Tsl>, k: nat, from: i32, to: i32)
      requires Timed(ts) && ts.oldest < |ts.secs| && ts.cur < |ts.secs| && k < |ts.secs|
      requires k <= Steps(ts.oldest, ts.cur, |ts.secs|) + 1 && InStore(ts.secs[BackOf(ts.cur, k, |ts.secs|)], Empty)
      requires SoFar(out, BackStart(ts, k), from, to)
      ensures Verdict(out, storage.mem, ts, maxLen, from, to)
    {
      hide Packed, WfSec, SoFar, Verdict, LogFrom, AllTimed, Increasing;
      BackIs(ts, k);
      var d := Steps(ts.oldest, ts.cur, |ts.secs|);
      if k <= d {
        assert k == 0 && d == 0;
        SectorWf(ts, ts.cur);
        NotUnused(ts.secs[ts.cur], ts.secSize, ts.maxLen);
        SoFarSkips(out, 0, from, to);
      }
      SoFarEnds(out, from, to);
    }

    /** `collect_by_time` for `from > to`. */
    method QueryDown(from: i32, to: i32) returns (out: seq<Tsl>)
      requires Live() && Timed(ts) && to < from
      ensures ts.oldest < |ts.secs| && Verdict(out, storage.mem, ts, maxLen, from, to)
    {
      hide Base, TsAt, AllTsShow, WfTs, TslsAt, LogFrom, AllTimed, Increasing, NotBehind, Reversed, Known, SoFar, Verdict;
      out := [];
      TimedRing(ts);
      KnownParts(curSec, ts, secSize);
      SoFarStarts(from, to);
      var foundStartTsl := false;
      var secAddr: u32, traversedLen: u32 := curSec.addr, 0;
      ghost var k := 0;
      BaseNext(0, secSize);
      while true
        invariant OnBack(ts.cur, k, secAddr, traversedLen)
        invariant k <= Steps(ts.oldest, ts.cur, |ts.secs|) + 1
        invariant SoFar(out, BackStart(ts, k), from, to)
        invariant foundStartTsl ==> NotBehind(ts, BackStart(ts, k), from)
        decreases |ts.secs| - k
      {
        RingBound(k);
        traversedLen := traversedLen + secSize;
        var sector, stop;
        out, foundStartTsl, sector, stop := QueryDownStep(out, foundStartTsl, secAddr, from, to, k);
        if stop {
          break;
        }
        BackStep(ts.cur, k, sector);
        var next := GetLastSectorAddr(sector, traversedLen);
        if next == FAILED_ADDR {
          SoFarEnds(out, from, to);
          break;
        }
        secAddr := next;
        k := k + 1;
      }
    }

    lemma SoFarStarts(from: i32, to: i32)
      requires Timed(ts) && ts.oldest < |ts.secs| && ts.cur < |ts.secs|
      ensures SoFar([], BackStart(ts, 0), from, to)
    {
      hide WfTs, LogFrom, AllTimed, Increasing, Misleads, Query, Reversed;
      QueryBehindStart(ts, to, from);
      ReversedEmpty();
      forall y: nat | BackStart(ts, 0) <= y < |ts.secs| ensures StepTimes(ts, y) == [] && !Misleads(storage.mem, ts, maxLen, y, from, to) {
        EmptyAhead(ts, y);
        NoTimes(ts, y, from, to);
      }
    }

    lemma NoTimes(ts: Ts, y: nat, from: i32, to: i32)
      requires ts.oldest < |ts.secs| && y < |ts.secs| && RecsOf(ts.secs[RingPos(ts.oldest, y, |ts.secs|)]) == []
      ensures StepTimes(ts, y) == [] && !Misleads(storage.mem, ts, maxLen, y, from, to)
    {}

    /** `collect_by_time`: the log filtered to the closed range between the bounds, ascending when `from` is
        not behind `to` and descending otherwise; the latter if and only if nothing misleads the query. */
    method CollectByTime(from: i32, to: i32) returns (out: seq<Tsl>)
      requires initOk ==> Live() && Timed(ts)
      ensures !initOk ==> out == []
      ensures initOk ==> ts.oldest < |ts.secs|
      ensures initOk && from <= to ==> TslsAt(out, ts.secs, secSize, maxLen, QueryAll(ts, from, to))
      ensures initOk && from > to ==>
                (TslsAt(out, ts.secs, secSize, maxLen, Reversed<Pos>(QueryAll(ts, to, from)))
                 <==> !Misled(storage.mem, ts, maxLen, from, to))
    {
      if !initOk {
        return [];
      }
      if from <= to {
        out := QueryUp(from, to);
      } else {
        out := QueryDown(from, to);
      }
    }

    /** `set_rollover`. */
    method SetRollover(on: bool)
      requires Live()
      modifies `rollover, `ts
      ensures Live() && rollover == on && ts == old(ts).(rollover := on)
    {
      hide Base, TsAt, AllTsShow, Known, LogFrom, WfTs;
      SwitchKeeps(ts, on);
      rollover := on;
      ts := ts.(rollover := on);
    }

    // ---------------------------------------------------------- single records

    /** `set_status` for the record at place `p`, whose status may only move forward. */
    method SetTslStatus(tsl: Tsl, status: TslStatus, ghost p: Pos)
      requires Live() && TslAt(tsl, ts.secs, secSize, maxLen, p) && ts.secs[p.sec].recs[p.k].Rec?
      requires status != PreWrite && (status != TslStatus.Unused ==> TslIndex(ts.secs[p.sec].recs[p.k].st) <= TslIndex(status))
      modifies storage, `ts, `log
      ensures Live() && p.sec < |old(ts.secs)| && old(ts.secs)[p.sec].TSec? && p.k < |old(ts.secs)[p.sec].recs|
      ensures ts == if status == TslStatus.Unused then old(ts)
                    else old(ts).(secs := old(ts.secs)[p.sec := Restated(old(ts.secs)[p.sec], p.k, status)])
    {
      hide Base, TSecAt, Part, Overwrite, TsAt, AllTsShow, Code, WfTs, SlotOff, Known, TslIndex, DataOff;
      ghost var i, sec := p.sec, ts.secs[p.sec];
      if status == TslStatus.Unused {
        return;
      }
      TslIndexPositive(status);
      BaseBound(i, |ts.secs|, secSize);
      TsPartAt(storage.mem, ts.secs, secSize, i);
      SlotStatusField(Part(storage.mem, i, secSize), Base(i, secSize), sec, p.k, status);
      CodesNest(TslIndex(sec.recs[p.k].st), TslIndex(status));
      StatusKeeps(ts, i, p.k, status);
      if i == ts.cur && !InStore(sec, Full) {
        KnownRestated(curSec, sec, Base(i, secSize), secSize, p.k, status);
      }
      TSecSize(Part(storage.mem, i, secSize), Base(i, secSize), sec);
      ProgramStatus(tsl.addrIndex, TSL_STATUS_NUM, TslIndex(status), i, SlotOff(p.k), Restated(sec, p.k, status));
    }

    /** `read_log`: as much of the blob as fits in `buf`. */
    method ReadLog(tsl: Tsl, buf: array<byte>, ghost p: Pos) returns (n: nat)
      requires Valid() && TslAt(tsl, ts.secs, secSize, maxLen, p) && ts.secs[p.sec].recs[p.k].Rec?
      modifies buf
      ensures var blob := ts.secs[p.sec].recs[p.k].blob;
        && n == (if buf.Length < |blob| then buf.Length else |blob|)
        && buf[..n] == blob[..n] && buf[n..] == old(buf[n..])
    {
      hide Base, TsAt, AllTsShow, DataOff, SlotOff;
      BlobReads(storage.mem, ts.secs, secSize, tsl, maxLen, p);
      var readLen := if buf.Length < tsl.logLen then buf.Length else tsl.logLen;
      n := 0;
      var r := storage.Read(tsl.addrLog, readLen);
      if r.Err? {
        return;
      }
      Sub(storage.mem, tsl.addrLog, tsl.addrLog + tsl.logLen, 0, readLen);
      forall x | 0 <= x < readLen {
        buf[x] := r.value[x];
      }
      n := readLen;
    }

    /** `query_count`: how many of the records `out` that `collect_by_time` yields have the status. */
    method QueryCount(from: i32, to: i32, status: TslStatus) returns (n: nat, ghost out: seq<Tsl>)
      requires initOk ==> Live() && Timed(ts)
      ensures !initOk ==> n == 0
      ensures initOk ==> ts.oldest < |ts.secs| && n == StatusCount(out, status)
      ensures initOk && from > to ==> Verdict(out, storage.mem, ts, maxLen, from, to)
      ensures initOk && from <= to ==> n == CountStatus(ts.secs, QueryAll(ts, from, to), status)
      ensures initOk && from > to && !Misled(storage.mem, ts, maxLen, from, to) ==>
                n == CountStatus(ts.secs, Reversed<Pos>(QueryAll(ts, to, from)), status)
    {
      hide Base, TsAt, AllTsShow, QueryAll, Reversed, Timed, TslsAt, Misled, CountStatus, StatusCount, Known;
      n, out := 0, [];
      if !initOk {
        return;
      }
      var found := CollectByTime(from, to);
      n := CountTsls(found, status);
      out := found;
      ghost var ps := if from <= to then QueryAll(ts, from, to) else Reversed<Pos>(QueryAll(ts, to, from));
      if TslsAt(found, ts.secs, secSize, maxLen, ps) {
        CountsAgree(found, ts.secs, secSize, maxLen, ps, status);
      }
    }

    /** `max_blob_count` */
    function MaxBlobs(): nat
      requires 0 < secSize
    {
      MaxBlobCount(maxSize / secSize, secSize, maxLen)
    }

    lemma MaxBlobsIs()
      requires Valid()
      ensures MaxBlobs() == MaxBlobCount(|ts.secs|, secSize, maxLen)
    {
      hide TsAt, AllTsShow;
      DivideBy(|ts.secs|, secSize, 0);
    }

    // ---------------------------------------------------------- cleaning

    /** The loop of `clean`: every sector is formatted. */
    method FormatAll()
      requires Valid()
      modifies storage, `ts, `log
      ensures Valid() && |ts.secs| == |old(ts.secs)| && ts == old(ts).(secs := ts.secs)
      ensures forall x :: 0 <= x < |ts.secs| ==> ts.secs[x] == FreshSec
    {
      hide Base, TsAt, AllTsShow, HeadRead;
      var secAddr: u32, traversedLen: u32 := 0, 0;
      ghost var k := 0;
      BaseNext(0, secSize);
      while true
        invariant Valid() && |ts.secs| == |old(ts.secs)| && ts == old(ts).(secs := ts.secs)
        invariant OnRing(0, k, secAddr, traversedLen)
        invariant forall x :: 0 <= x < k ==> ts.secs[x] == FreshSec
        decreases |ts.secs| - k
      {
        RingBound(k);
        traversedLen := traversedLen + secSize;
        var s, r := ReadSectorInfo(secAddr, false, k);
        FormatSector(s.addr, k);
        RingStep(0, k, s);
        var next := GetNextSectorAddr(s, traversedLen);
        if next == FAILED_ADDR {
          break;
        }
        secAddr := next;
        k := k + 1;
      }
    }

    /** `clean`: the log is empty. */
    method Clean()
      requires Valid()
      modifies storage, `ts, `log, `curSec, `oldestAddr, `lastTime
      ensures Live() && Timed(ts) && ts.oldest < |ts.secs| && Log(ts) == []
      ensures ts == CleanTs(old(ts))
    {
      hide Base, TsAt, AllTsShow, HeadRead, WfTs, Known, LogFrom, TimedLog;
      FormatAll();
      oldestAddr := 0;
      lastTime := 0;
      ts := ts.(cur := 0, oldest := 0, lastTime := 0);
      AllFresh(ts.secs);
      CleanIs(ts);
      BaseNext(0, secSize);
      var cs, r := ReadSectorInfo(0, false, 0);
      HeadKnown(cs, ts.secs[0], 0, secSize);
      curSec := cs;
    }

    // ---------------------------------------------------------- opening

    /** What the walk of `init` remembers, against what it has found. */
    ghost predicate ScanShown(s: Scan, emptyNum: nat, emptyAddr: u32, curAddr: u32)
      reads this
    {
      && emptyNum == s.empties
      && (s.empties > 0 ==> s.lastEmpty < |ts.secs| && emptyAddr == Base(s.lastEmpty, secSize))
      && (s.cur.None? ==> curAddr == DATA_UNUSED)
      && (s.cur.Some? ==> s.cur.value < |ts.secs| && curAddr == Base(s.cur.value, secSize) && curAddr != DATA_UNUSED)
    }

    /** The walk of `init` over the sectors. */
    method ScanSectors() returns (checkFailed: bool, emptyNum: nat, emptyAddr: u32, ghost s: Scan)
      requires Valid() && curSec.addr == DATA_UNUSED && Sane(ts.secs, secSize, maxLen)
      modifies `curSec
      ensures Valid() && s == ScanAll(ts.secs) && checkFailed == s.failed
      ensures !checkFailed ==> ScanShown(s, emptyNum, emptyAddr, curSec.addr)
    {
      hide Base, TsAt, AllTsShow, WfSec, Accounted, HeadRead, Known;
      checkFailed, emptyNum, emptyAddr := false, 0, 0;
      s := Scan(false, None, 0, 0);
      var secAddr: u32, traversedLen: u32 := 0, 0;
      ghost var k := 0;
      BaseNext(0, secSize);
      while true
        invariant Valid() && OnRing(0, k, secAddr, traversedLen)
        invariant !s.failed && ScanFrom(ts.secs, k, s) == ScanAll(ts.secs)
        invariant ScanShown(s, emptyNum, emptyAddr, curSec.addr)
        decreases |ts.secs| - k
      {
        RingBound(k);
        traversedLen := traversedLen + secSize;
        var sector, r := ReadSectorInfo(secAddr, false, k);
        sector, r := ReadSectorInfo(secAddr, true, k);
        if !sector.checkOk {
          s := s.(failed := true);
          return true, emptyNum, emptyAddr, s;
        } else if sector.status == Using {
          if curSec.addr == DATA_UNUSED {
            curSec := sector;
            s := s.(cur := Some(k));
          } else {
            s := s.(failed := true);
            return true, emptyNum, emptyAddr, s;
          }
        } else if sector.status == Empty {
          emptyNum := emptyNum + 1;
          emptyAddr := sector.addr;
          s := Scan(s.failed, if s.empties == 0 && s.cur.None? then Some(k) else s.cur, s.empties + 1, k);
          if emptyNum == 1 && curSec.addr == DATA_UNUSED {
            curSec := sector;
          }
        }
        RingStep(0, k, sector);
        var next := GetNextSectorAddr(sector, traversedLen);
        k := k + 1;
        if next == FAILED_ADDR {
          break;
        }
        secAddr := next;
      }
    }

    /** The sector behind which the oldest one is: the last empty one or, with rollover on, the current one. */
    method Latest(emptyNum: nat, emptyAddr: u32) returns (latestAddr: u32)
      requires secSize <= maxSize
      modifies `curSec
      ensures emptyNum > 0 ==> latestAddr == emptyAddr && curSec == old(curSec)
      ensures emptyNum == 0 && rollover ==> latestAddr == curSec.addr && curSec == old(curSec)
      ensures emptyNum == 0 && !rollover ==> latestAddr == curSec.addr == maxSize - secSize
    {
      if emptyNum > 0 {
        latestAddr := emptyAddr;
      } else if rollover {
        latestAddr := curSec.addr;
      } else {
        latestAddr := maxSize - secSize;
        curSec := curSec.(addr := latestAddr);
      }
    }

    /** `init`; `t` is the log that the medium holds if its sectors are in order. */
    method Init(ghost t: Ts)
      requires Valid() && curSec.addr == DATA_UNUSED && rollover && lastTime == 0 && Sane(ts.secs, secSize, maxLen)
      requires ScanAll(ts.secs).failed || Reopens(t, ts)
      modifies storage, `ts, `log, `curSec, `oldestAddr, `lastTime
      ensures Live()
      ensures ScanAll(old(ts).secs).failed ==> ts == CleanTs(old(ts)) && Timed(ts)
      ensures !ScanAll(old(ts).secs).failed ==>
                && ts == t.(lastTime := lastTime) && (TimedLog(t) && Settled(t) ==> ts == t)
                && ts.cur < |ts.secs| && FoundTime(ts, lastTime)
    {
      hide Base, TsAt, AllTsShow, WfTs, HeadRead, Known, LogFrom, TimedLog, Sane, ScanFrom;
      var checkFailed, emptyNum, emptyAddr;
      ghost var s;
      ghost var u := t;
      checkFailed, emptyNum, emptyAddr, s := ScanSectors();
      if checkFailed {
        Clean();
        CleanAccounted(ts, secSize, maxLen);
        KnownParts(curSec, ts, secSize);
        u := ts;
      } else {
        ReopenFinds(t);
        SaneAt(ts.secs, secSize, maxLen, t.cur);
        AddrsDiffer(t.cur, t.cur);
        var latestAddr := Latest(emptyNum, emptyAddr);
        LatestTurns(s);
        oldestAddr := if latestAddr + secSize >= maxSize then 0 else latestAddr + secSize;
        ts := t.(lastTime := 0);
      }
      ReadLast(u);
    }

    /** Where `init` finds the oldest sector. */
    lemma LatestTurns(s: Scan)
      requires Valid() && (s.empties > 0 ==> s.lastEmpty < |ts.secs|) && s.cur.Some? && s.cur.value < |ts.secs|
      ensures var latest := if s.empties > 0 then Base(s.lastEmpty, secSize) else Base(s.cur.value, secSize);
        && 0 <= latest && latest + secSize <= maxSize
        && OldestAfter(s, |ts.secs|) < |ts.secs|
        && Base(OldestAfter(s, |ts.secs|), secSize) == (if latest + secSize >= maxSize then 0 else latest + secSize)
    {
      hide Base, TsAt, AllTsShow;
      RingTurn(if s.empties > 0 then s.lastEmpty else s.cur.value);
      BaseNext(0, secSize);
    }

    /** The last part of `init`: the current sector and the time of the last record of the log `u`. */
    method ReadLast(ghost u: Ts)
      requires Valid() && WfTs(u) && ts == u.(lastTime := 0) && lastTime == 0
      requires ts.cur < |ts.secs| && ts.oldest < |ts.secs|
      requires oldestAddr == Base(ts.oldest, secSize) && curSec.addr == Base(ts.cur, secSize)
      requires !InStore(ts.secs[ts.cur], Full) && Accounted(ts.secs[ts.cur], secSize, maxLen)
      modifies `ts, `curSec, `lastTime
      ensures Live() && ts == u.(lastTime := lastTime) && FoundTime(ts, lastTime)
      ensures TimedLog(u) && Settled(u) ==> ts == u
    {
      hide Base, TsAt, AllTsShow, WfTs, HeadRead, Known, LogFrom, TimedLog, Accounted, SlotOff, EndOf, WfSec, Room, LastTime, HeadEnd, DataLen, RecsOf, LastComplete;
      SectorWf(u, ts.cur);
      CurrentStore(u);
      UsingEnds(u.secs[u.cur], secSize, maxLen);
      AddrsDiffer(ts.cur, ts.oldest);
      if TimedLog(u) && Settled(u) {
        ReopenTime(u);
      }
      var curAddr := curSec.addr;
      var cs, r := ReadSectorInfo(curAddr, true, ts.cur);
      curSec := cs;
      KnownTime(curSec, ts.secs[ts.cur], Base(ts.cur, secSize), secSize);
      if curSec.status == Using {
        lastTime := curSec.endTime;
      } else if curSec.status == Empty && oldestAddr != curSec.addr {
        EmptyBehind(u);
        lastTime := ReadTimeBehind();
      }
      ts := ts.(lastTime := lastTime);
      AnyTimeWf(u, lastTime);
    }

    /** The end time in the header of the sector in front of the current one. */
    method ReadTimeBehind() returns (time: i32)
      requires Valid() && 0 < ts.cur < |ts.secs| && curSec.addr == Base(ts.cur, secSize)
      requires ts.secs[ts.cur - 1].TSec? && EndOf(ts.secs[ts.cur - 1]).EndAt?
      ensures time == EndOf(ts.secs[ts.cur - 1]).time
    {
      hide Base, TsAt, AllTsShow, HeadRead;
      BaseNext(ts.cur - 1, secSize);
      var addr := if curSec.addr == 0 then maxSize - secSize else curSec.addr - secSize;
      var sec, r := ReadSectorInfo(addr, false, ts.cur - 1);
      HeadTime(sec, ts.secs[ts.cur - 1], addr, secSize);
      time := sec.endTime;
    }

    /** `with_options`; `t` is the log that the medium holds if its sectors are in order. */
    static method Open(storage: RamStorage, secSize: u32, maxSize: u32, maxLen: u32, ghost secs: seq<TSec>, ghost t: Ts)
      returns (r: Result<Tsdb>)
      requires storage.Valid()
      requires ValidGeometry(secSize, maxSize) && maxLen < secSize ==> OnTsMedium(storage.mem, secSize, maxSize, maxLen, secs, t)
      modifies storage
      ensures !(ValidGeometry(secSize, maxSize) && maxLen < secSize) ==> r == Err(InitFailed)
      ensures ValidGeometry(secSize, maxSize) && maxLen < secSize ==>
                && r.Ok? && fresh(r.value) && r.value.storage == storage && r.value.initOk && r.value.Live()
                && r.value.secSize == secSize && r.value.maxLen == maxLen
                && (ScanAll(secs).failed ==> Timed(r.value.ts) && r.value.ts == CleanTs(Ts(secSize, maxLen, true, secs, 0, 0, 0)))
                && (!ScanAll(secs).failed ==>
                      && r.value.ts == t.(lastTime := r.value.ts.lastTime)
                      && (TimedLog(t) && Settled(t) ==> r.value.ts == t)
                      && t.cur < |t.secs| && FoundTime(t, r.value.lastTime))
    {
      hide Base, TsAt, WfTs, LogFrom, TimedLog, Sane, ScanFrom, Reopens;
      if !ValidGeometry(secSize, maxSize) {
        return Err(InitFailed);
      }
      if maxLen >= secSize {
        return Err(InitFailed);
      }
      storage.Mark();
      var tsdb := new Tsdb(storage, secSize, maxSize, maxLen, secs);
      assert [secs][0] == secs && TsShows(storage.mem, [secs], secSize);
      tsdb.Init(t);
      tsdb.initOk := true;
      r := Ok(tsdb);
    }

    lemma AddrsDiffer(i: nat, x: nat)
      requires Valid() && i < |ts.secs| && x < |ts.secs|
      ensures i != x ==> Base(i, secSize) != Base(x, secSize)
      ensures Base(i, secSize) + secSize <= maxSize
    {
      hide Base, TsAt, AllTsShow;
      BaseBound(i, |ts.secs|, secSize);
      if i != x {
        BaseApart(i, x, secSize);
      }
    }

    lemma RingBound(k: nat)
      requires Valid() && k < |ts.secs|
      ensures Base(k, secSize) + secSize == Base(k + 1, secSize) <= maxSize
    {
      hide Base, TsAt, AllTsShow;
      BaseNext(k, secSize);
      BaseBound(k, |ts.secs|, secSize);
    }
  }

  method CountTsls(out: seq<Tsl>, status: TslStatus) returns (n: nat)
    ensures n == StatusCount(out, status)
  {
    n := 0;
    for x := 0 to |out|
      invariant n == StatusCount(out[..x], status)
    {
      assert out[..x + 1][..x] == out[..x];
      if out[x].status == status {
        n := n + 1;
      }
    }
    assert out[..|out|] == out;
  }
}
