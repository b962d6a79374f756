/** The bytes of a time-series log: sector headers, index slots growing up and data growing down. */
module TsLayout {
  import opened Bytes
  import opened Sectors
  import opened Status
  import opened TsModel

  /** `T`, `S`, `L`, `0` */
  const TS_MAGIC: u32 := 0x304C_5354

  const TSL_STATUS_NUM: nat := 6

  const END0: nat := 9
  const END1: nat := 18

  function TslIndex(st: TslStatus): (i: nat)
    ensures i < TSL_STATUS_NUM
  {
    match st
    case Unused => 0
    case PreWrite => 1
    case Write => 2
    case UserStatus1 => 3
    case Deleted => 4
    case UserStatus2 => 5
  }

  function TslFromIndex(i: nat): TslStatus {
    if i == 0 then TslStatus.Unused else if i == 1 then PreWrite else if i == 2 then Write
    else if i == 3 then UserStatus1 else if i == 4 then Deleted else UserStatus2
  }

  lemma TslRoundTrip(st: TslStatus)
    ensures TslFromIndex(State(Code(TslIndex(st)), TSL_STATUS_NUM)) == st
  {
    CodeIsTable(TSL_STATUS_NUM, TslIndex(st));
  }

  // ------------------------------------------------------------ layout

  /** The offset of index slot `k`. */
  function SlotOff(k: nat): nat {
    TS_HDR + TS_IDX * k
  }

  /** End information at offset `o` of a sector at address `b`. */
  predicate EndFieldAt(s: seq<byte>, b: nat, o: nat, end: End) {
    && o + 9 <= |s|
    && (end.NoEnd? ==> Blanked(s, o, o + 9))
    && (end.HalfEnd? ==> s[o + 8] == Code(1))
    && (end.EndAt? ==>
          && b + SlotOff(end.last) < 0x1_0000_0000
          && s[o..o + 4] == Word(Unsigned(end.time)) && s[o + 4..o + 8] == Word(b + SlotOff(end.last)) && s[o + 8] == Code(2))
  }

  predicate TsHeadAt(s: seq<byte>, b: nat, store: StoreStatus, start: i32, end0: End, end1: End) {
    && TS_HDR <= |s|
    && s[0] == Code(StoreIndex(store))
    && s[1..5] == Word(TS_MAGIC)
    && s[5..9] == Word(Unsigned(start))
    && EndFieldAt(s, b, END0, end0)
    && EndFieldAt(s, b, END1, end1)
    && Blanked(s, 27, 32)
  }

  /** A record whose index slot is number `k` and whose data begins at offset `d`. */
  predicate RecAt(s: seq<byte>, b: nat, k: nat, rec: Rec, d: int) {
    var o := SlotOff(k);
    && o + TS_IDX <= d && d + rec.Len() <= |s| && b + |s| < 0x1_0000_0000
    && (rec.Torn? ==> s[o] == Code(1))
    && (rec.Rec? ==>
          && s[o] == Code(TslIndex(rec.st)) && Blanked(s, o + 1, o + 4)
          && s[o + 4..o + 8] == Word(Unsigned(rec.time))
          && s[o + 8..o + 12] == Word(|rec.blob|)
          && s[o + 12..o + 16] == Word(b + d)
          && s[d..d + |rec.blob|] == rec.blob)
  }

  /** Where the data of record `k` begins. */
  function DataOff(recs: seq<Rec>, k: nat, size: nat): int
    requires k < |recs|
  {
    size - DataLen(recs, k + 1)
  }

  predicate RecsAt(s: seq<byte>, b: nat, recs: seq<Rec>) {
    forall k :: 0 <= k < |recs| ==> RecAt(s, b, k, recs[k], DataOff(recs, k, |s|))
  }

  /** Between index and data everything is erased. */
  predicate GapAt(s: seq<byte>, recs: seq<Rec>) {
    && 0 <= Room(recs, |s|)
    && Blanked(s, SlotOff(|recs|), |s| - DataLen(recs, |recs|))
  }

  /** The bytes `s` of a sector at address `b` hold `sec`. */
  predicate TSecAt(s: seq<byte>, b: nat, sec: TSec) {
    && 64 <= |s| && b + |s| < 0x1_0000_0000
    && (sec.Raw? ==> s[1..5] != Word(TS_MAGIC))
    && (sec.TSec? ==>
          && TsHeadAt(s, b, sec.store, sec.start, sec.end0, sec.end1)
          && RecsAt(s, b, sec.recs)
          && GapAt(s, sec.recs))
  }

  predicate TsAt(mem: seq<byte>, secs: seq<TSec>, size: nat) {
    && Base(|secs|, size) <= |mem|
    && forall i :: 0 <= i < |secs| ==>
        Base(i, size) + size <= |mem| && TSecAt(Part(mem, i, size), Base(i, size), secs[i])
  }

  lemma TsPartAt(mem: seq<byte>, secs: seq<TSec>, size: nat, i: nat)
    requires TsAt(mem, secs, size) && i < |secs|
    ensures Base(i, size) + size <= |mem| && TSecAt(Part(mem, i, size), Base(i, size), secs[i])
  {
    hide Base, TSecAt;
  }

  /** A write inside sector `i` changes that sector and no other. */
  lemma TsWrite(mem: seq<byte>, secs: seq<TSec>, size: nat, i: nat, o: nat, buf: seq<byte>, sec: TSec)
    requires TsAt(mem, secs, size) && i < |secs| && o + |buf| <= size
    requires Base(i, size) + size <= |mem| && TSecAt(Overwrite(Part(mem, i, size), o, buf), Base(i, size), sec)
    ensures TsAt(Overwrite(mem, Base(i, size) + o, buf), secs[i := sec], size)
  {
    hide TSecAt, Base;
    var t := Overwrite(mem, Base(i, size) + o, buf);
    forall x | 0 <= x < |secs|
      ensures Base(x, size) + size <= |t| && TSecAt(Part(t, x, size), Base(x, size), secs[i := sec][x])
    {
      TsPartAt(mem, secs, size, x);
      PartWrite(mem, i, size, o, buf, x);
    }
  }

  lemma TSecSize(s: seq<byte>, b: nat, sec: TSec)
    requires TSecAt(s, b, sec)
    ensures 64 <= |s| && b + |s| < 0x1_0000_0000
  {}

  // ------------------------------------------------------------ frames

  lemma EndFrame(s: seq<byte>, t: seq<byte>, b: nat, o: nat, end: End)
    requires EndFieldAt(s, b, o, end) && |t| == |s| && forall k :: o <= k < o + 9 ==> t[k] == s[k]
    ensures EndFieldAt(t, b, o, end)
  {
    hide Word, Code;
    assert t[o..o + 4] == s[o..o + 4] && t[o + 4..o + 8] == s[o + 4..o + 8];
  }

  lemma TsHeadFrame(s: seq<byte>, t: seq<byte>, b: nat, sec: TSec)
    requires sec.TSec? && TsHeadAt(s, b, sec.store, sec.start, sec.end0, sec.end1) && |t| == |s|
    requires forall k :: 0 <= k < TS_HDR ==> t[k] == s[k]
    ensures TsHeadAt(t, b, sec.store, sec.start, sec.end0, sec.end1)
  {
    hide Word, Code, EndFieldAt;
    assert t[1..5] == s[1..5] && t[5..9] == s[5..9];
    EndFrame(s, t, b, END0, sec.end0);
    EndFrame(s, t, b, END1, sec.end1);
  }

  lemma RecFrame(s: seq<byte>, t: seq<byte>, b: nat, k: nat, rec: Rec, d: int)
    requires RecAt(s, b, k, rec, d) && |t| == |s|
    requires forall x :: SlotOff(k) <= x < SlotOff(k) + TS_IDX ==> t[x] == s[x]
    requires forall x :: d <= x < d + rec.Len() ==> t[x] == s[x]
    ensures RecAt(t, b, k, rec, d)
  {
    hide Word, Code;
    var o := SlotOff(k);
    if rec.Rec? {
      assert t[o + 4..o + 8] == s[o + 4..o + 8];
      assert t[o + 8..o + 12] == s[o + 8..o + 12];
      assert t[o + 12..o + 16] == s[o + 12..o + 16];
      assert t[d..d + |rec.blob|] == s[d..d + |rec.blob|];
    }
  }

  lemma RecBound(s: seq<byte>, b: nat, k: nat, rec: Rec, d: int)
    requires RecAt(s, b, k, rec, d)
    ensures SlotOff(k) + TS_IDX <= d && d + rec.Len() <= |s| && b + |s| < 0x1_0000_0000
  {
    hide Word, Code;
  }

  lemma RecsFrame(s: seq<byte>, t: seq<byte>, b: nat, recs: seq<Rec>)
    requires RecsAt(s, b, recs) && |t| == |s|
    requires forall x :: TS_HDR <= x < |s| ==> t[x] == s[x]
    ensures RecsAt(t, b, recs)
  {
    hide RecAt, DataOff;
    forall k | 0 <= k < |recs| ensures RecAt(t, b, k, recs[k], DataOff(recs, k, |t|)) {
      RecBound(s, b, k, recs[k], DataOff(recs, k, |s|));
      RecFrame(s, t, b, k, recs[k], DataOff(recs, k, |s|));
    }
  }

  /** A write in the header: only the header has to be looked at. */
  lemma HeadWrite(s: seq<byte>, b: nat, sec: TSec, o: nat, buf: seq<byte>, to: TSec)
    requires TSecAt(s, b, sec) && sec.TSec? && to.TSec? && to.recs == sec.recs && o + |buf| <= TS_HDR
    requires TsHeadAt(Overwrite(s, o, buf), b, to.store, to.start, to.end0, to.end1)
    ensures TSecAt(Overwrite(s, o, buf), b, to)
  {
    hide TsHeadAt, RecAt, Room;
    RecsFrame(s, Overwrite(s, o, buf), b, sec.recs);
  }

  lemma StoreField(s: seq<byte>, b: nat, sec: TSec, store: StoreStatus)
    requires TSecAt(s, b, sec) && sec.TSec?
    ensures TSecAt(Overwrite(s, 0, [Code(StoreIndex(store))]), b, sec.(store := store))
    ensures s[0] == Code(StoreIndex(sec.store))
  {
    hide Word, Code, EndFieldAt, RecsAt, GapAt;
    var t := Overwrite(s, 0, [Code(StoreIndex(store))]);
    assert t[1..5] == s[1..5] && t[5..9] == s[5..9];
    EndFrame(s, t, b, END0, sec.end0);
    EndFrame(s, t, b, END1, sec.end1);
    HeadWrite(s, b, sec, 0, [Code(StoreIndex(store))], sec.(store := store));
  }

  lemma StartField(s: seq<byte>, b: nat, sec: TSec, start: i32)
    requires TSecAt(s, b, sec) && sec.TSec?
    ensures TSecAt(Overwrite(s, 5, Word(Unsigned(start))), b, sec.(start := start))
    ensures s[5..9] == Word(Unsigned(sec.start))
  {
    hide Word, Code, EndFieldAt, RecsAt, GapAt;
    var t := Overwrite(s, 5, Word(Unsigned(start)));
    assert t[1..5] == s[1..5] && t[5..9] == Word(Unsigned(start));
    EndFrame(s, t, b, END0, sec.end0);
    EndFrame(s, t, b, END1, sec.end1);
    HeadWrite(s, b, sec, 5, Word(Unsigned(start)), sec.(start := start));
  }

  /** The offset of the first or the second end field. */
  function EndPos(first: bool): nat {
    if first then END0 else END1
  }

  function EndHeld(sec: TSec, first: bool): End
    requires sec.TSec?
  {
    if first then sec.end0 else sec.end1
  }

  function WithEnd(sec: TSec, first: bool, end: End): TSec
    requires sec.TSec?
  {
    if first then sec.(end0 := end) else sec.(end1 := end)
  }

  lemma WithEndKeeps(sec: TSec, first: bool, end: End)
    requires sec.TSec?
    ensures WithEnd(sec, first, end).TSec? && WithEnd(sec, first, end).recs == sec.recs
    ensures forall e :: WithEnd(WithEnd(sec, first, end), first, e) == WithEnd(sec, first, e)
    ensures EndPos(first) + 9 <= TS_HDR
  {}

  /** A write that turns one of the two end fields into `end`. */
  lemma EndField(s: seq<byte>, b: nat, sec: TSec, first: bool, o: nat, buf: seq<byte>, end: End)
    requires TSecAt(s, b, sec) && sec.TSec? && EndPos(first) <= o && o + |buf| <= EndPos(first) + 9
    requires EndFieldAt(Overwrite(s, o, buf), b, EndPos(first), end)
    ensures TSecAt(Overwrite(s, o, buf), b, WithEnd(sec, first, end))
  {
    hide Word, Code, EndFieldAt, RecsAt, GapAt;
    var t := Overwrite(s, o, buf);
    assert t[1..5] == s[1..5] && t[5..9] == s[5..9];
    if first {
      EndFrame(s, t, b, END1, sec.end1);
    } else {
      EndFrame(s, t, b, END0, sec.end0);
    }
    HeadWrite(s, b, sec, o, buf, WithEnd(sec, first, end));
  }

  lemma EndFieldOf(s: seq<byte>, b: nat, sec: TSec, first: bool)
    requires TSecAt(s, b, sec) && sec.TSec?
    ensures EndFieldAt(s, b, EndPos(first), EndHeld(sec, first))
  {
    hide EndFieldAt, RecsAt, GapAt, Word, Code;
  }

  // ------------------------------------------------------------ adding a record

  /** Everything as before except for the next slot and `len` bytes of data, which hold `rec`. */
  lemma PushAt(s: seq<byte>, t: seq<byte>, b: nat, sec: TSec, rec: Rec)
    requires TSecAt(s, b, sec) && sec.TSec? && |t| == |s| && TS_IDX + rec.Len() <= Room(sec.recs, |s|)
    requires var o, d := SlotOff(|sec.recs|), |s| - DataLen(sec.recs, |sec.recs|);
      && (forall x :: 0 <= x < |s| && !(o <= x < o + TS_IDX) && !(d - rec.Len() <= x < d) ==> t[x] == s[x])
      && RecAt(t, b, |sec.recs|, rec, d - rec.Len())
    ensures TSecAt(t, b, sec.(recs := sec.recs + [rec]))
  {
    hide TsHeadAt, RecAt;
    var recs := sec.recs;
    var more := recs + [rec];
    RoomMore(recs, rec, |s|);
    TsHeadFrame(s, t, b, sec);
    DataLenPrefix(recs, [rec], |recs|);
    forall k | 0 <= k < |more| ensures RecAt(t, b, k, more[k], DataOff(more, k, |t|)) {
      if k < |recs| {
        RecBound(s, b, k, recs[k], DataOff(recs, k, |s|));
        DataLenPrefix(recs, [rec], k + 1);
        DataLenPrefix(recs, [rec], k);
        DataLenMonotone(recs, k + 1, |recs|);
        RecFrame(s, t, b, k, recs[k], DataOff(recs, k, |s|));
      }
    }
  }

  /** A slot that is marked as being written, and whatever has been written to it and to its data. */
  lemma PushTorn(s: seq<byte>, t: seq<byte>, b: nat, sec: TSec, room: nat)
    requires TSecAt(s, b, sec) && sec.TSec? && |t| == |s| && TS_IDX + room <= Room(sec.recs, |s|)
    requires var o, d := SlotOff(|sec.recs|), |s| - DataLen(sec.recs, |sec.recs|);
      && (forall x :: 0 <= x < |s| && !(o <= x < o + TS_IDX) && !(d - room <= x < d) ==> t[x] == s[x])
      && t[o] == Code(1)
    ensures TSecAt(t, b, sec.(recs := sec.recs + [Torn(room)]))
  {
    hide TsHeadAt, Code, RecAt;
    SlotInside(s, b, sec);
    TornAt(t, b, |sec.recs|, room, |s| - DataLen(sec.recs, |sec.recs|) - room);
    PushAt(s, t, b, sec, Torn(room));
  }

  lemma TornAt(t: seq<byte>, b: nat, k: nat, room: nat, d: int)
    requires SlotOff(k) + TS_IDX <= d && d + room <= |t| && b + |t| < 0x1_0000_0000 && t[SlotOff(k)] == Code(1)
    ensures RecAt(t, b, k, Torn(room), d)
  {
    hide Code;
  }

  lemma SlotInside(s: seq<byte>, b: nat, sec: TSec)
    requires TSecAt(s, b, sec) && sec.TSec?
    ensures 0 <= Room(sec.recs, |s|) && SlotOff(|sec.recs|) + Room(sec.recs, |s|) == |s| - DataLen(sec.recs, |sec.recs|)
    ensures Blanked(s, SlotOff(|sec.recs|), |s| - DataLen(sec.recs, |sec.recs|))
  {
    hide TsHeadAt, RecAt;
  }

  // ------------------------------------------------------------ the writes of a record

  /** Where the data of the next record begins if it has `len` bytes. */
  function NextData(recs: seq<Rec>, len: nat, size: nat): int {
    size - DataLen(recs, |recs|) - len
  }

  /** The index fields of a record after its status. */
  function IndexFields(time: i32, len: u32, addr: u32): (f: seq<byte>)
    ensures |f| == 12
  {
    Word(Unsigned(time)) + Word(len) + Word(addr)
  }

  /** The next slot and the data in front of the data so far are all that differs from `s`, and the slot
      says that a record is being written. */
  predicate Started(s: seq<byte>, t: seq<byte>, recs: seq<Rec>, len: nat) {
    var o, d := SlotOff(|recs|), |s| - DataLen(recs, |recs|);
    && |t| == |s| && 0 <= o && o + TS_IDX + len <= d <= |s|
    && t[o] == Code(1)
    && forall x :: 0 <= x < |s| && !(o <= x < o + TS_IDX) && !(d - len <= x < d) ==> t[x] == s[x]
  }

  /** How far the next record has been written: `fields` of the index and `data`; the rest is erased. */
  predicate SlotStage(s: seq<byte>, t: seq<byte>, recs: seq<Rec>, len: nat, fields: seq<byte>, data: seq<byte>) {
    var o, d := SlotOff(|recs|), |s| - DataLen(recs, |recs|);
    && Started(s, t, recs, len)
    && |fields| <= 12 && |data| <= len
    && Blanked(t, o + 1, o + 4) && t[o + 4..o + 4 + |fields|] == fields && Blanked(t, o + 4 + |fields|, o + 16)
    && t[d - len..d - len + |data|] == data && Blanked(t, d - len + |data|, d)
  }

  lemma StartSlot(s: seq<byte>, b: nat, sec: TSec, len: nat)
    requires TSecAt(s, b, sec) && sec.TSec? && TS_IDX + len <= Room(sec.recs, |s|)
    ensures SlotStage(s, Overwrite(s, SlotOff(|sec.recs|), [Code(1)]), sec.recs, len, [], [])
    ensures s[SlotOff(|sec.recs|)] == BYTE_ERASED
  {
    hide TSecAt, Code, Room;
    SlotInside(s, b, sec);
  }

  lemma WriteFields(s: seq<byte>, t: seq<byte>, recs: seq<Rec>, len: nat, fields: seq<byte>)
    requires SlotStage(s, t, recs, len, [], []) && |fields| == 12
    ensures var o := SlotOff(|recs|);
      o + 16 <= |t| && OnlyClears(t, o + 4, fields) && SlotStage(s, Overwrite(t, o + 4, fields), recs, len, fields, [])
  {
    hide Code, DataLen;
    OverErased(t, SlotOff(|recs|) + 4, fields);
  }

  lemma WriteData(s: seq<byte>, t: seq<byte>, recs: seq<Rec>, fields: seq<byte>, blob: seq<byte>)
    requires SlotStage(s, t, recs, |blob|, fields, []) && |fields| == 12
    ensures var d := NextData(recs, |blob|, |s|);
      && 0 <= d && d + |blob| <= |t| && OnlyClears(t, d, blob)
      && SlotStage(s, Overwrite(t, d, blob), recs, |blob|, fields, blob)
    ensures blob == [] ==> SlotStage(s, t, recs, |blob|, fields, blob)
  {
    hide Code, DataLen;
    OverErased(t, NextData(recs, |blob|, |s|), blob);
    var u := Overwrite(t, NextData(recs, |blob|, |s|), blob);
    var o := SlotOff(|recs|);
    assert u[o + 4..o + 16] == t[o + 4..o + 16];
  }

  lemma StageTorn(s: seq<byte>, t: seq<byte>, b: nat, sec: TSec, len: nat, room: nat, fields: seq<byte>, data: seq<byte>)
    requires TSecAt(s, b, sec) && sec.TSec? && SlotStage(s, t, sec.recs, len, fields, data)
    requires len <= room && TS_IDX + room <= Room(sec.recs, |s|)
    ensures TSecAt(t, b, sec.(recs := sec.recs + [Torn(room)]))
  {
    hide TSecAt, Code;
    PushTorn(s, t, b, sec, room);
  }

  /** The last write turns the slot into a record. */
  lemma FinishSlot(s: seq<byte>, t: seq<byte>, b: nat, sec: TSec, time: i32, blob: seq<byte>)
    requires TSecAt(s, b, sec) && sec.TSec? && TS_IDX + |blob| <= Room(sec.recs, |s|)
    requires var d := NextData(sec.recs, |blob|, |s|);
      && 0 <= d && b + d < 0x1_0000_0000 && |blob| < 0x1_0000_0000
      && SlotStage(s, t, sec.recs, |blob|, IndexFields(time, |blob|, b + d), blob)
    ensures var o := SlotOff(|sec.recs|);
      o < |t| && t[o] == Code(1)
      && TSecAt(Overwrite(t, o, [Code(2)]), b, sec.(recs := sec.recs + [Rec(Write, time, blob)]))
  {
    hide TSecAt, Code, Word, Room, RecAt;
    var o, d := SlotOff(|sec.recs|), NextData(sec.recs, |blob|, |s|);
    var u := Overwrite(t, o, [Code(2)]);
    SlotInside(s, b, sec);
    TSecSize(s, b, sec);
    assert u[o + 4..o + 16] == t[o + 4..o + 16];
    assert u[d..d + |blob|] == t[d..d + |blob|];
    WrittenRec(u, b, |sec.recs|, time, blob, d);
    PushAt(s, u, b, sec, Rec(Write, time, blob));
  }

  lemma WrittenRec(u: seq<byte>, b: nat, k: nat, time: i32, blob: seq<byte>, d: nat)
    requires SlotOff(k) + TS_IDX <= d && d + |blob| <= |u| && b + |u| < 0x1_0000_0000
    requires var o := SlotOff(k);
      && u[o] == Code(2) && Blanked(u, o + 1, o + 4) && u[o + 4..o + 16] == IndexFields(time, |blob|, b + d)
      && u[d..d + |blob|] == blob
    ensures RecAt(u, b, k, Rec(Write, time, blob), d)
  {
    hide Code, Word, Unsigned;
    var o := SlotOff(k);
    var fields := IndexFields(time, |blob|, b + d);
    assert fields[0..4] == Word(Unsigned(time)) && fields[4..8] == Word(|blob|) && fields[8..12] == Word(b + d);
    Sub(u, o + 4, o + 16, 0, 4);
    Sub(u, o + 4, o + 16, 4, 8);
    Sub(u, o + 4, o + 16, 8, 12);
  }

  // ------------------------------------------------------------ formatting

  lemma TsMagicBytes()
    ensures Word(TS_MAGIC) == [0x54, 0x53, 0x4C, 0x30]
    ensures Word(Unsigned(-1)) == [0xFF, 0xFF, 0xFF, 0xFF]
  {
    hide Word, Byte;
    WordOfDigits(0x54, 0x53, 0x4C, 0x30);
    WordOfDigits(0xFF, 0xFF, 0xFF, 0xFF);
    TsByteLiterals();
  }

  lemma TsByteLiterals()
    ensures Byte(0x54) == 0x54 && Byte(0x53) == 0x53 && Byte(0x4C) == 0x4C && Byte(0x30) == 0x30 && Byte(0xFF) == 0xFF
  {}

  /** Erasing a sector, then programming its status and its magic word. */
  lemma TsFormatting(n: nat, b: nat)
    requires 64 <= n && b + n < 0x1_0000_0000
    ensures var t0 := Fill(n); var t1 := Overwrite(t0, 0, [Code(1)]); var t2 := Overwrite(t1, 1, Word(TS_MAGIC));
      TSecAt(t0, b, Raw) && TSecAt(t1, b, Raw) && TSecAt(t2, b, FreshSec)
  {
    hide Word, Code, Unsigned;
    var t0, t1 := Fill(n), Overwrite(Fill(n), 0, [Code(1)]);
    var t2 := Overwrite(t1, 1, Word(TS_MAGIC));
    TsMagicBytes();
    assert t0[1..5][0] == 0xFF && t1[1..5][0] == 0xFF;
    assert Word(TS_MAGIC)[0] == 0x54;
    assert t2[1..5] == Word(TS_MAGIC);
    assert t2[5..9] == [0xFF, 0xFF, 0xFF, 0xFF];
    assert Room([], n) == n - TS_HDR;
  }

  // ------------------------------------------------------------ the writes of end information

  /** How far the end field at offset `e` has been written: its status and `fields`. */
  predicate EndWritten(s: seq<byte>, e: nat, fields: seq<byte>) {
    && e + 9 <= |s| && |fields| <= 8
    && s[e + 8] == Code(1) && s[e..e + |fields|] == fields && Blanked(s, e + |fields|, e + 8)
  }

  lemma EndBegin(s: seq<byte>, b: nat, e: nat)
    requires EndFieldAt(s, b, e, NoEnd)
    ensures s[e + 8] == BYTE_ERASED
    ensures var t := Overwrite(s, e + 8, [Code(1)]); EndWritten(t, e, []) && EndFieldAt(t, b, e, HalfEnd)
  {
    hide Code;
  }

  lemma EndMore(s: seq<byte>, b: nat, e: nat, fields: seq<byte>, buf: seq<byte>)
    requires EndWritten(s, e, fields) && |fields| + |buf| <= 8
    ensures OnlyClears(s, e + |fields|, buf)
    ensures var t := Overwrite(s, e + |fields|, buf); EndWritten(t, e, fields + buf) && EndFieldAt(t, b, e, HalfEnd)
  {
    hide Code;
    var o := e + |fields|;
    OverErased(s, o, buf);
    var t := Overwrite(s, o, buf);
    assert t[e..e + |fields + buf|] == s[e..o] + buf;
  }

  lemma EndFinish(s: seq<byte>, b: nat, e: nat, time: i32, last: nat)
    requires b + SlotOff(last) < 0x1_0000_0000 && EndWritten(s, e, Word(Unsigned(time)) + Word(b + SlotOff(last)))
    ensures s[e + 8] == Code(1)
    ensures EndFieldAt(Overwrite(s, e + 8, [Code(2)]), b, e, EndAt(time, last))
  {
    hide Code, Word, Unsigned, SlotOff;
    var t := Overwrite(s, e + 8, [Code(2)]);
    var f := s[e..e + 8];
    assert t[e..e + 4] == f[0..4] && t[e + 4..e + 8] == f[4..8];
  }

  // ------------------------------------------------------------ status changes

  lemma RecStatusField(s: seq<byte>, b: nat, k: nat, rec: Rec, d: int, st: TslStatus)
    requires RecAt(s, b, k, rec, d) && rec.Rec?
    ensures RecAt(Overwrite(s, SlotOff(k), [Code(TslIndex(st))]), b, k, rec.(st := st), d)
    ensures s[SlotOff(k)] == Code(TslIndex(rec.st))
  {
    hide Word, Code;
    var o := SlotOff(k);
    var t := Overwrite(s, o, [Code(TslIndex(st))]);
    assert t[o + 4..o + 8] == s[o + 4..o + 8] && t[o + 8..o + 12] == s[o + 8..o + 12] && t[o + 12..o + 16] == s[o + 12..o + 16];
    assert t[d..d + |rec.blob|] == s[d..d + |rec.blob|];
  }

  /** Programming the status of a record. */
  lemma SlotStatusField(s: seq<byte>, b: nat, sec: TSec, k: nat, st: TslStatus)
    requires TSecAt(s, b, sec) && sec.TSec? && k < |sec.recs| && sec.recs[k].Rec?
    ensures SlotOff(k) < |s| && s[SlotOff(k)] == Code(TslIndex(sec.recs[k].st))
    ensures TSecAt(Overwrite(s, SlotOff(k), [Code(TslIndex(st))]), b, Restated(sec, k, st))
  {
    hide TsHeadAt, RecAt, Code, DataLen;
    var recs := sec.recs;
    var more := Restated(sec, k, st).recs;
    RecBound(s, b, k, recs[k], DataOff(recs, k, |s|));
    RecStatusField(s, b, k, recs[k], DataOff(recs, k, |s|), st);
    var t := Overwrite(s, SlotOff(k), [Code(TslIndex(st))]);
    TsHeadFrame(s, t, b, sec);
    DataLenRestated(recs, k, st, |recs|);
    forall j | 0 <= j < |more| ensures RecAt(t, b, j, more[j], DataOff(more, j, |t|)) {
      DataLenRestated(recs, k, st, j + 1);
      if j != k {
        RecBound(s, b, j, recs[j], DataOff(recs, j, |s|));
        SlotsApart(recs, j, k, |s|);
        RecFrame(s, t, b, j, recs[j], DataOff(recs, j, |s|));
      }
    }
    SlotsBelowGap(recs, k);
  }

  /** No record's data reaches into another's slot. */
  lemma SlotsApart(recs: seq<Rec>, j: nat, k: nat, size: nat)
    requires j < |recs| && k < |recs| && 0 <= Room(recs, size)
    ensures SlotOff(k) + TS_IDX <= DataOff(recs, j, size)
  {
    DataLenMonotone(recs, j + 1, |recs|);
  }

  lemma SlotsBelowGap(recs: seq<Rec>, k: nat)
    requires k < |recs|
    ensures SlotOff(k) + TS_IDX <= SlotOff(|recs|)
  {}
}
