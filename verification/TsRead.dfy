/** What the time-series engine reads: index slots and sector headers as values in memory. */
module TsRead {
  import opened Bytes
  import opened Sectors
  import opened Status
  import opened TsModel
  import opened TsLayout
  import opened TsQuery
  import TsHistory

  const FAILED_ADDR: u32 := 0xFFFF_FFFF
  const DATA_UNUSED: u32 := 0xFFFF_FFFF

  /** A record as read into memory. */
  datatype Tsl = Tsl(status: TslStatus, time: i32, logLen: u32, addrIndex: u32, addrLog: u32)

  function BlankTsl(): Tsl {
    Tsl(TslStatus.Unused, 0, 0, FAILED_ADDR, FAILED_ADDR)
  }

  /** A sector as read into memory. */
  datatype TsInfo = TsInfo(
    checkOk: bool,
    status: StoreStatus,
    addr: u32,
    startTime: i32,
    endTime: i32,
    endIdx: u32,
    endStat0: TslStatus,
    endStat1: TslStatus,
    remain: int,
    emptyIdx: u32,
    emptyData: int)

  function BlankInfo(): TsInfo {
    TsInfo(false, StoreStatus.Unused, 0, 0, 0, 0, TslStatus.Unused, TslStatus.Unused, 0, 0, 0)
  }

  // ------------------------------------------------------------ index slots

  /** The bytes of the slot at address `a`; a read outside the medium leaves zeros. */
  function SlotBytes(mem: seq<byte>, a: nat): (s: seq<byte>)
    ensures |s| == TS_IDX
  {
    if a + TS_IDX <= |mem| then mem[a..a + TS_IDX] else seq(TS_IDX, _ => 0)
  }

  function SlotStatus(s: seq<byte>): TslStatus
    requires |s| == TS_IDX
  {
    TslFromIndex(State(s[0], TSL_STATUS_NUM))
  }

  /** `read_tsl` */
  function ReadSlot(mem: seq<byte>, a: u32, maxLen: u32): (t: Tsl)
    ensures t.addrIndex == a
  {
    var s := SlotBytes(mem, a);
    var st := SlotStatus(s);
    if st == PreWrite || st == TslStatus.Unused then Tsl(st, 0, maxLen, a, DATA_UNUSED)
    else Tsl(st, Signed(RdWord(s[4..8])), RdWord(s[8..12]), a, RdWord(s[12..16]))
  }

  lemma SignedUnsigned(t: i32)
    ensures Signed(Unsigned(t)) == t
  {}

  /** What reading record `rec` gives, its slot being number `k` of the sector at address `b` and its data
      beginning at offset `d`. */
  predicate TslIs(t: Tsl, rec: Rec, b: nat, k: nat, d: int, maxLen: nat) {
    && t.addrIndex == b + SlotOff(k)
    && (rec.Rec? ==> t.status == rec.st && t.time == rec.time && t.logLen == |rec.blob| && t.addrLog == b + d)
    && (rec.Torn? ==> t.status == PreWrite && t.time == 0 && t.logLen == maxLen)
  }

  lemma SlotReads(s: seq<byte>, b: nat, k: nat, rec: Rec, d: int, maxLen: u32, slot: seq<byte>)
    requires RecAt(s, b, k, rec, d) && WfRec(rec, maxLen) && slot == s[SlotOff(k)..SlotOff(k) + 16]
    ensures b + d < 0x1_0000_0000 && rec.Len() < 0x1_0000_0000
    ensures rec.Torn? ==> SlotStatus(slot) == PreWrite
    ensures rec.Rec? ==>
      && SlotStatus(slot) == rec.st && Signed(RdWord(slot[4..8])) == rec.time
      && RdWord(slot[8..12]) == |rec.blob| && RdWord(slot[12..16]) == b + d
  {
    hide Word, RdWord, Code, Unsigned, Signed, State, TslFromIndex;
    var o := SlotOff(k);
    TslRoundTrip(PreWrite);
    if rec.Rec? {
      TslRoundTrip(rec.st);
      Sub(s, o, o + 16, 4, 8);
      Sub(s, o, o + 16, 8, 12);
      Sub(s, o, o + 16, 12, 16);
      WordRoundTrip(Unsigned(rec.time));
      WordRoundTrip(|rec.blob|);
      WordRoundTrip(b + d);
      SignedUnsigned(rec.time);
    }
  }

  /** An erased status byte reads as an unused slot. */
  lemma ErasedSlot(slot: seq<byte>)
    requires |slot| == TS_IDX && slot[0] == BYTE_ERASED
    ensures SlotStatus(slot) == TslStatus.Unused
  {
    CodesNest(0, 0);
    TslRoundTrip(TslStatus.Unused);
  }

  /** Record `k` of sector `i` as read. */
  lemma RecordReads(mem: seq<byte>, secs: seq<TSec>, size: nat, i: nat, k: nat, maxLen: u32)
    requires TsAt(mem, secs, size) && i < |secs| && WfSec(secs[i], size, maxLen) && k < |secs[i].recs|
    ensures 0 <= Base(i, size) + SlotOff(k) < 0x1_0000_0000
    ensures TslIs(ReadSlot(mem, Base(i, size) + SlotOff(k), maxLen), secs[i].recs[k],
                  Base(i, size), k, DataOff(secs[i].recs, k, size), maxLen)
  {
    hide Base, TsHeadAt, RecAt, GapAt, WfRec, SlotStatus, RdWord, Signed;
    TsPartAt(mem, secs, size, i);
    var s, b, rec := Part(mem, i, size), Base(i, size), secs[i].recs[k];
    var d := DataOff(secs[i].recs, k, size);
    RecBound(s, b, k, rec, d);
    PartRead(mem, i, size, SlotOff(k), 16);
    SlotReads(s, b, k, rec, d, maxLen, SlotBytes(mem, b + SlotOff(k)));
    RecStatus(rec, maxLen);
  }

  lemma RecStatus(rec: Rec, maxLen: nat)
    requires WfRec(rec, maxLen)
    ensures rec.Rec? ==> rec.st != TslStatus.Unused && rec.st != PreWrite
  {}

  /** The slot behind the last record of sector `i`, as long as there is room for one byte at least. */
  lemma BehindReads(mem: seq<byte>, secs: seq<TSec>, size: nat, i: nat, maxLen: u32)
    requires TsAt(mem, secs, size) && i < |secs| && secs[i].TSec? && 0 < Room(secs[i].recs, size) && size % TS_IDX == 0
    ensures Base(i, size) + SlotOff(|secs[i].recs|) < 0x1_0000_0000
    ensures var t := ReadSlot(mem, Base(i, size) + SlotOff(|secs[i].recs|), maxLen);
      t.status == TslStatus.Unused && t.time == 0
  {
    hide Base, TSecAt, SlotStatus;
    TsPartAt(mem, secs, size, i);
    var s, o := Part(mem, i, size), SlotOff(|secs[i].recs|);
    SlotInside(s, Base(i, size), secs[i]);
    TSecSize(s, Base(i, size), secs[i]);
    assert s[o] == mem[Base(i, size) + o];
    assert o + TS_IDX <= size by { Sixteens(|secs[i].recs|, size); }
    ErasedSlot(SlotBytes(mem, Base(i, size) + o));
  }

  lemma Sixteens(m: nat, size: nat)
    requires size % TS_IDX == 0 && SlotOff(m) < size
    ensures SlotOff(m) + TS_IDX <= size
  {}

  // ------------------------------------------------------------ sector headers

  function EndStat(end: End): TslStatus {
    match end
    case NoEnd => TslStatus.Unused
    case HalfEnd => PreWrite
    case EndAt(_, _) => Write
  }

  /** The end time and end index that the header gives. */
  function HeadEnd(sec: TSec, b: nat): (i32, nat)
    requires sec.TSec?
  {
    if sec.end0.EndAt? then (sec.end0.time, b + SlotOff(sec.end0.last))
    else if sec.end1.EndAt? then (sec.end1.time, b + SlotOff(sec.end1.last))
    else (0, 0)
  }

  /** `info` is what reading the header of `sec` at address `b` gives. */
  predicate HeadRead(info: TsInfo, sec: TSec, b: nat, size: nat) {
    && info.addr == b
    && info.checkOk == sec.TSec?
    && (sec.Raw? ==> info.status == StoreStatus.Unused)
    && (sec.TSec? ==>
          && info.status == sec.store && info.startTime == sec.start
          && info.endStat0 == EndStat(sec.end0) && info.endStat1 == EndStat(sec.end1)
          && info.endTime == HeadEnd(sec, b).0 && info.endIdx == HeadEnd(sec, b).1
          && info.emptyIdx == b + TS_HDR && info.emptyData == b + size && info.remain == size - TS_HDR)
  }

  /** The time of the last complete record, `otherwise` if there is none. */
  function LastTime(recs: seq<Rec>, otherwise: i32): i32
    decreases |recs|
  {
    if recs == [] then otherwise
    else if recs[|recs| - 1].Rec? then recs[|recs| - 1].time
    else LastTime(recs[..|recs| - 1], otherwise)
  }

  predicate EndsTorn(recs: seq<Rec>) {
    recs != [] && recs[|recs| - 1].Torn?
  }

  /** `info` is what is known of the current sector `sec`. How far its data reaches does not matter when a
      torn record has taken all the room. */
  predicate Known(info: TsInfo, sec: TSec, b: nat, size: nat) {
    && sec.TSec? && info.checkOk && info.addr == b && info.status == sec.store && info.startTime == sec.start
    && info.endStat0 == EndStat(sec.end0) && info.endStat1 == EndStat(sec.end1)
    && info.endTime == LastTime(sec.recs, HeadEnd(sec, b).0)
    && info.endIdx == (if sec.recs == [] then HeadEnd(sec, b).1 else b + SlotOff(|sec.recs| - 1))
    && info.emptyIdx == b + SlotOff(|sec.recs|)
    && info.remain == Room(sec.recs, size)
    && (0 < info.remain || !EndsTorn(sec.recs) ==> info.emptyData == b + size - DataLen(sec.recs, |sec.recs|))
  }

  /** What the end fields at offset `o` of the header bytes read as. */
  predicate EndValues(h: seq<byte>, o: nat, end: End, b: nat) {
    && o + 9 <= |h|
    && TslFromIndex(State(h[o + 8], TSL_STATUS_NUM)) == EndStat(end)
    && (end.EndAt? ==>
          Signed(RdWord(h[o..o + 4])) == end.time && RdWord(h[o + 4..o + 8]) == b + SlotOff(end.last))
  }

  lemma EndReads(s: seq<byte>, b: nat, o: nat, end: End)
    requires EndFieldAt(s, b, o, end)
    ensures EndValues(s, o, end, b)
  {
    hide Word, RdWord, Code, Unsigned, Signed, State, TslFromIndex;
    CodesNest(0, 0);
    TslRoundTrip(EndStat(end));
    if end.EndAt? {
      WordRoundTrip(Unsigned(end.time));
      WordRoundTrip(b + SlotOff(end.last));
      SignedUnsigned(end.time);
    }
  }

  /** What the header bytes read as. */
  predicate HeadValues(h: seq<byte>, sec: TSec, b: nat) {
    && |h| == TS_HDR
    && (RdWord(h[1..5]) == TS_MAGIC <==> sec.TSec?)
    && (sec.TSec? ==>
          && StoreFromIndex(State(h[0], STORE_STATUS_NUM)) == sec.store
          && Signed(RdWord(h[5..9])) == sec.start
          && EndValues(h, END0, sec.end0, b) && EndValues(h, END1, sec.end1, b))
  }

  lemma HeadReads(s: seq<byte>, b: nat, sec: TSec, h: seq<byte>)
    requires TSecAt(s, b, sec) && |s| >= TS_HDR && h == s[0..TS_HDR]
    ensures HeadValues(h, sec, b)
  {
    hide Word, RdWord, Code, Unsigned, Signed, State, TslFromIndex, StoreFromIndex, EndFieldAt, RecsAt, GapAt, TSecAt, StoreIndex;
    TSecSize(s, b, sec);
    HeadSlices(s, h);
    HeadMagic(s, b, sec);
    if sec.TSec? {
      HeadTop(s, b, sec);
      EndReads(s, b, END0, sec.end0);
      EndReads(s, b, END1, sec.end1);
    }
  }

  lemma HeadSlices(s: seq<byte>, h: seq<byte>)
    requires |s| >= TS_HDR && h == s[0..TS_HDR]
    ensures h[1..5] == s[1..5] && h[5..9] == s[5..9]
    ensures h[9..13] == s[9..13] && h[13..17] == s[13..17] && h[18..22] == s[18..22] && h[22..26] == s[22..26]
  {}

  lemma HeadMagic(s: seq<byte>, b: nat, sec: TSec)
    requires TSecAt(s, b, sec)
    ensures |s| >= TS_HDR && (RdWord(s[1..5]) == TS_MAGIC <==> sec.TSec?)
  {
    hide Word, RdWord, Code, EndFieldAt, RecsAt, GapAt;
    WordRoundTrip(TS_MAGIC);
    RdWordRoundTrip(s[1..5]);
  }

  lemma HeadTop(s: seq<byte>, b: nat, sec: TSec)
    requires TSecAt(s, b, sec) && sec.TSec?
    ensures |s| >= TS_HDR
    ensures StoreFromIndex(State(s[0], STORE_STATUS_NUM)) == sec.store
    ensures Signed(RdWord(s[5..9])) == sec.start
    ensures EndFieldAt(s, b, END0, sec.end0) && EndFieldAt(s, b, END1, sec.end1)
  {
    hide Word, RdWord, Code, Unsigned, Signed, State, StoreFromIndex, EndFieldAt, RecsAt, GapAt, StoreIndex;
    StoreRoundTrip(sec.store);
    WordRoundTrip(Unsigned(sec.start));
    SignedUnsigned(sec.start);
  }

  lemma StoreRoundTrip(store: StoreStatus)
    ensures StoreFromIndex(State(Code(StoreIndex(store)), STORE_STATUS_NUM)) == store
  {
    CodeIsTable(STORE_STATUS_NUM, StoreIndex(store));
  }

  // ------------------------------------------------------------ torn records as the engine accounts for them

  /** What the engine reckons a torn record to take: the greatest length, or all that was left. */
  predicate Accounted(sec: TSec, size: nat, maxLen: nat) {
    sec.TSec? ==> forall k :: 0 <= k < |sec.recs| ==>
      sec.recs[k].Torn? ==> sec.recs[k].room == maxLen || (k == |sec.recs| - 1 && Room(sec.recs, size) == 0)
  }

  /** What is left in front of record `k`. */
  function RoomAt(recs: seq<Rec>, k: nat, size: nat): int
    requires k <= |recs|
  {
    size - TS_HDR - TS_IDX * k - DataLen(recs, k)
  }

  lemma RoomShrinks(recs: seq<Rec>, k: nat, size: nat)
    requires k < |recs|
    ensures RoomAt(recs, k + 1, size) == RoomAt(recs, k, size) - TS_IDX - recs[k].Len()
    ensures Room(recs, size) + TS_IDX * (|recs| - k - 1) <= RoomAt(recs, k + 1, size)
  {
    DataLenMonotone(recs, k + 1, |recs|);
  }

  /** What the engine makes of a record that it comes upon when `remain` bytes are left: `cost` is what it
      reckons the record to take. */
  lemma Accounting(sec: TSec, size: nat, maxLen: nat, k: nat, cost: int)
    requires WfSec(sec, size, maxLen) && Accounted(sec, size, maxLen) && k < |sec.recs|
    requires cost == TS_IDX + if sec.recs[k].Torn? then maxLen else sec.recs[k].Len()
    ensures var remain, left := RoomAt(sec.recs, k, size), RoomAt(sec.recs, k + 1, size);
      && 0 <= left
      && (if cost < remain then left == remain - cost && cost == TS_IDX + sec.recs[k].Len() else left == 0 && k + 1 == |sec.recs|)
  {
    hide WfRec;
    RoomShrinks(sec.recs, k, size);
    RecLens(sec, size, maxLen);
  }

  lemma LastTimeMore(recs: seq<Rec>, k: nat, otherwise: i32)
    requires k < |recs|
    ensures LastTime(recs[..k + 1], otherwise) == if recs[k].Rec? then recs[k].time else LastTime(recs[..k], otherwise)
  {
    assert recs[..k + 1][..k] == recs[..k];
  }

  /** The header of a sector without records says all there is to know. */
  lemma HeadKnown(info: TsInfo, sec: TSec, b: nat, size: nat)
    requires sec.TSec? && sec.recs == [] && HeadRead(info, sec, b, size)
    ensures Known(info, sec, b, size)
  {}

  // ------------------------------------------------------------ records as read

  /** `t` is what reading the record at place `p` gives. */
  predicate TslAt(t: Tsl, secs: seq<TSec>, size: nat, maxLen: nat, p: Pos) {
    At(secs, p) && TslIs(t, secs[p.sec].recs[p.k], Base(p.sec, size), p.k, DataOff(secs[p.sec].recs, p.k, size), maxLen)
  }

  /** `out` is what reading the records at the places `ps`, in that order, gives. */
  predicate TslsAt(out: seq<Tsl>, secs: seq<TSec>, size: nat, maxLen: nat, ps: seq<Pos>) {
    |out| == |ps| && forall x :: 0 <= x < |out| ==> TslAt(out[x], secs, size, maxLen, ps[x])
  }

  lemma TslsJoin(a: seq<Tsl>, b: seq<Tsl>, secs: seq<TSec>, size: nat, maxLen: nat, p: seq<Pos>, q: seq<Pos>)
    requires TslsAt(a, secs, size, maxLen, p) && TslsAt(b, secs, size, maxLen, q)
    ensures TslsAt(a + b, secs, size, maxLen, p + q)
  {
    hide TslAt;
  }

  lemma TslsSnoc(a: seq<Tsl>, t: Tsl, secs: seq<TSec>, size: nat, maxLen: nat, ps: seq<Pos>, k: nat)
    requires k < |ps| && TslsAt(a, secs, size, maxLen, ps[..k]) && TslAt(t, secs, size, maxLen, ps[k])
    ensures TslsAt(a + [t], secs, size, maxLen, ps[..k + 1])
  {
    hide TslAt;
  }

  lemma RecordTsl(mem: seq<byte>, secs: seq<TSec>, size: nat, i: nat, k: nat, maxLen: u32)
    requires TsAt(mem, secs, size) && i < |secs| && WfSec(secs[i], size, maxLen) && k < |secs[i].recs|
    ensures 0 <= Base(i, size) + SlotOff(k) < 0x1_0000_0000
    ensures TslAt(ReadSlot(mem, Base(i, size) + SlotOff(k), maxLen), secs, size, maxLen, Pos(i, k))
  {
    hide Base, TsAt, TslIs, DataOff;
    RecordReads(mem, secs, size, i, k, maxLen);
  }

  /** What a sector in use or full says of its end, wherever the engine has it from. */
  lemma EndIndex(info: TsInfo, sec: TSec, b: nat, size: nat, maxLen: nat)
    requires WfSec(sec, size, maxLen) && sec.recs != []
    requires (sec.store == Using && Known(info, sec, b, size)) || (sec.store == Full && HeadRead(info, sec, b, size))
    ensures info.addr == b && info.endIdx == b + SlotOff(|sec.recs| - 1) && info.status == sec.store
  {
    hide Room, WfRec;
  }

  // ------------------------------------------------------------ queries

  /** The slot at address `a` as a query sees it. */
  function SlotAt(mem: seq<byte>, a: nat, maxLen: u32): Slot {
    if a < 0x1_0000_0000 then var t := ReadSlot(mem, a, maxLen); Slot(t.status, t.time) else Slot(TslStatus.Unused, 0)
  }

  /** The slot behind the last record of a sector at address `b`. */
  function After(mem: seq<byte>, sec: TSec, b: nat, maxLen: u32): Slot {
    SlotAt(mem, b + SlotOff(|RecsOf(sec)|), maxLen)
  }

  /** `out` is what reading the slots with the numbers `picked` gives. */
  predicate Picks(out: seq<Tsl>, mem: seq<byte>, b: nat, maxLen: u32, picked: seq<nat>) {
    |out| == |picked| && forall x :: 0 <= x < |out| ==>
      b + SlotOff(picked[x]) < 0x1_0000_0000 && out[x] == ReadSlot(mem, b + SlotOff(picked[x]), maxLen)
  }

  predicate AllRecs(sec: TSec) {
    forall k :: 0 <= k < |RecsOf(sec)| ==> RecsOf(sec)[k].Rec?
  }

  /** A record's slot as a query sees it. */
  lemma TimeReads(mem: seq<byte>, secs: seq<TSec>, size: nat, i: nat, k: nat, maxLen: u32)
    requires TsAt(mem, secs, size) && i < |secs| && WfSec(secs[i], size, maxLen) && AllRecs(secs[i]) && k < |secs[i].recs|
    ensures Base(i, size) + SlotOff(k) < 0x1_0000_0000
    ensures var t := ReadSlot(mem, Base(i, size) + SlotOff(k), maxLen);
      t.status != TslStatus.Unused && t.time == TimesOf(secs[i])[k]
  {
    hide Base, TsAt, ReadSlot, Room;
    RecordReads(mem, secs, size, i, k, maxLen);
    assert WfRec(secs[i].recs[k], maxLen);
  }

  /** Picked slots of records are the records. */
  lemma PicksAreTsls(out: seq<Tsl>, mem: seq<byte>, secs: seq<TSec>, size: nat, i: nat, maxLen: u32, picked: seq<nat>)
    requires TsAt(mem, secs, size) && i < |secs| && WfSec(secs[i], size, maxLen)
    requires Picks(out, mem, Base(i, size), maxLen, picked) && forall x :: 0 <= x < |picked| ==> picked[x] < |secs[i].recs|
    ensures TslsAt(out, secs, size, maxLen, Placed(i, picked))
  {
    hide Base, TsAt, ReadSlot, WfSec, TslAt;
    forall x | 0 <= x < |out| ensures TslAt(out[x], secs, size, maxLen, Placed(i, picked)[x]) {
      RecordTsl(mem, secs, size, i, picked[x], maxLen);
    }
  }

  /** What the engine knows of the times of a sector, wherever it has it from. */
  lemma SectorTimes(info: TsInfo, sec: TSec, b: nat, size: nat, maxLen: nat)
    requires WfSec(sec, size, maxLen) && sec.recs != [] && AllRecs(sec) && TsHistory.TimedSec(sec)
    requires (sec.store == Using && Known(info, sec, b, size)) || (sec.store == Full && HeadRead(info, sec, b, size))
    ensures info.startTime == TimesOf(sec)[0] && info.endTime == TimesOf(sec)[|sec.recs| - 1]
  {
    hide Room, WfRec;
  }

  /** Where the blob of a record reads from. */
  lemma BlobReads(mem: seq<byte>, secs: seq<TSec>, size: nat, t: Tsl, maxLen: u32, p: Pos)
    requires TsAt(mem, secs, size) && TslAt(t, secs, size, maxLen, p) && secs[p.sec].recs[p.k].Rec?
    ensures t.addrLog + t.logLen <= |mem|
    ensures mem[t.addrLog..t.addrLog + t.logLen] == secs[p.sec].recs[p.k].blob
  {
    hide Base, TsHeadAt, GapAt, Word, Code;
    TsPartAt(mem, secs, size, p.sec);
    var s, rec, d := Part(mem, p.sec, size), secs[p.sec].recs[p.k], DataOff(secs[p.sec].recs, p.k, size);
    assert RecAt(s, Base(p.sec, size), p.k, rec, d);
    PartRead(mem, p.sec, size, d, |rec.blob|);
  }

  /** A change of status leaves what is known of the sector as it is. */
  lemma KnownRestated(info: TsInfo, sec: TSec, b: nat, size: nat, k: nat, st: TslStatus)
    requires Known(info, sec, b, size) && k < |sec.recs| && sec.recs[k].Rec?
    ensures Known(info, Restated(sec, k, st), b, size)
  {
    DataLenRestated(sec.recs, k, st, |sec.recs|);
    LastTimeRestated(sec.recs, k, st, |sec.recs|, HeadEnd(sec, b).0);
    assert sec.recs[..|sec.recs|] == sec.recs;
    assert Restated(sec, k, st).recs[..|sec.recs|] == Restated(sec, k, st).recs;
  }

  lemma {:induction false} LastTimeRestated(recs: seq<Rec>, k: nat, st: TslStatus, j: nat, otherwise: i32)
    requires k < |recs| && recs[k].Rec? && j <= |recs|
    ensures LastTime(recs[k := recs[k].(st := st)][..j], otherwise) == LastTime(recs[..j], otherwise)
  {
    if j > 0 {
      LastTimeRestated(recs, k, st, j - 1, otherwise);
      LastTimeMore(recs, j - 1, otherwise);
      LastTimeMore(recs[k := recs[k].(st := st)], j - 1, otherwise);
    }
  }

  /** What is in memory about the current sector is determined by the sector. */
  lemma KnownOnce(a: TsInfo, c: TsInfo, sec: TSec, b: nat, size: nat)
    requires Known(a, sec, b, size) && Known(c, sec, b, size)
    ensures a == c.(emptyData := a.emptyData) && (!EndsTorn(sec.recs) ==> a == c)
  {
    hide Room, LastTime, HeadEnd;
  }
}
