/** What the walks over the records come to. */
module TsWalks {
  import opened Bytes
  import opened Sectors
  import opened TsModel
  import opened TsHistory
  import opened TsLayout
  import opened TsQuery
  import opened TsRead

  /** `get_next_tsl_addr` */
  function GetNextTslAddr(sector: TsInfo, preTsl: Tsl): int {
    if sector.status == Empty then FAILED_ADDR
    else if preTsl.addrIndex + TS_IDX <= sector.endIdx then preTsl.addrIndex + TS_IDX
    else FAILED_ADDR
  }

  /** `get_last_tsl_addr` */
  function GetLastTslAddr(sector: TsInfo, preTsl: Tsl): int {
    if sector.status == Empty then FAILED_ADDR
    else if preTsl.addrIndex >= sector.addr + TS_HDR + TS_IDX then preTsl.addrIndex - TS_IDX
    else FAILED_ADDR
  }

  /** What the traversal has found out when it has come to record `k`. */
  predicate Traversed(sector: TsInfo, sector0: TsInfo, sec: TSec, b: nat, size: nat, k: nat) {
    && sec.TSec? && k <= |sec.recs|
    && sector == sector0.(endTime := sector.endTime, endIdx := sector.endIdx, emptyIdx := sector.emptyIdx,
                          emptyData := sector.emptyData, remain := sector.remain)
    && sector.endTime == LastTime(sec.recs[..k], HeadEnd(sec, b).0)
    && sector.endIdx == (if k == 0 then HeadEnd(sec, b).1 else b + SlotOff(k - 1))
    && sector.emptyIdx == b + SlotOff(k)
    && sector.remain == RoomAt(sec.recs, k, size)
    && (0 < sector.remain || !EndsTorn(sec.recs[..k]) ==> sector.emptyData == b + size - DataLen(sec.recs, k))
  }

  lemma TraverseStarts(sector0: TsInfo, sec: TSec, b: nat, size: nat)
    requires sec.TSec? && HeadRead(sector0, sec, b, size)
    ensures Traversed(sector0, sector0, sec, b, size, 0)
  {}

  lemma TraverseStep(was: TsInfo, now: TsInfo, sector0: TsInfo, sec: TSec, b: nat, size: nat, maxLen: nat, k: nat)
    requires Traversed(was, sector0, sec, b, size, k) && k < |sec.recs| && 0 < was.remain
    requires WfSec(sec, size, maxLen) && Accounted(sec, size, maxLen)
    requires var len := if sec.recs[k].Torn? then maxLen else sec.recs[k].Len();
      && (now.endTime == if sec.recs[k].Rec? then sec.recs[k].time else was.endTime)
      && now.endIdx == b + SlotOff(k) && now.emptyIdx == was.emptyIdx + TS_IDX
      && now.emptyData == (if was.emptyData < len then 0 else was.emptyData - len)
      && now.remain == (if was.remain > TS_IDX + len then was.remain - (TS_IDX + len) else 0)
    requires now == sector0.(endTime := now.endTime, endIdx := now.endIdx, emptyIdx := now.emptyIdx,
                             emptyData := now.emptyData, remain := now.remain)
    ensures Traversed(now, sector0, sec, b, size, k + 1)
  {
    hide WfSec, Accounted, LastTime, HeadEnd;
    LastTimeMore(sec.recs, k, HeadEnd(sec, b).0);
    Accounting(sec, size, maxLen, k, TS_IDX + if sec.recs[k].Torn? then maxLen else sec.recs[k].Len());
    RoomShrinks(sec.recs, k, size);
  }

  lemma TraverseEnds(sector: TsInfo, sector0: TsInfo, sec: TSec, b: nat, size: nat, k: nat)
    requires Traversed(sector, sector0, sec, b, size, k) && HeadRead(sector0, sec, b, size) && k == |sec.recs|
    ensures Known(sector, sec, b, size)
  {
    assert sec.recs[..k] == sec.recs;
  }

  lemma WalkShape(ts: Ts, i: nat)
    requires WfTs(ts) && i < |ts.secs| && ts.cur < |ts.secs| && Filled(ts)
    ensures WfSec(ts.secs[i], ts.secSize, ts.maxLen)
    ensures InStore(ts.secs[i], Using) ==> i == ts.cur
    ensures InStore(ts.secs[i], Using) || InStore(ts.secs[i], Full) ==> ts.secs[i].recs != []
  {
    hide Packed, Room, WfRec;
    var d, n := Steps(ts.oldest, ts.cur, |ts.secs|), |ts.secs|;
    var x := Steps(ts.oldest, i, n);
    assert WfSec(ts.secs[i], ts.secSize, ts.maxLen);
    if x < d {
      assert InStore(ts.secs[RingPos(ts.oldest, x, n)], Full);
    } else if d < x {
      assert InStore(ts.secs[RingPos(ts.oldest, x, n)], Empty);
    }
  }

  lemma PlacesStep(secs: seq<TSec>, start: nat, k: nat)
    requires start < |secs| && k < |secs|
    ensures var i := RingPos(start, k, |secs|);
      && Places(secs, start, 0, k + 1) == Places(secs, start, 0, k) + PlacesIn(secs[i], i)
      && (PlacesIn(secs[i], i) == [] ==> Places(secs, start, 0, k + 1) == Places(secs, start, 0, k))
  {
    hide PlacesIn;
  }

  /** The places visited in the first `k` rounds of a walk back from the current sector, in the order of
      the log. */
  function Behind(ts: Ts, k: nat): seq<Pos>
    requires ts.oldest < |ts.secs| && ts.cur < |ts.secs|
  {
    var d := Steps(ts.oldest, ts.cur, |ts.secs|);
    Places(ts.secs, ts.oldest, if k <= d then d + 1 - k else 0, |ts.secs|)
  }

  lemma BehindStart(ts: Ts)
    requires WfTs(ts) && ts.oldest < |ts.secs| && ts.cur < |ts.secs|
    ensures Behind(ts, 0) == []
  {
    hide WfTs, Places, PlacesIn, RecsOf;
    var d, n := Steps(ts.oldest, ts.cur, |ts.secs|), |ts.secs|;
    forall x | d < x < n ensures RecsOf(ts.secs[RingPos(ts.oldest, x, n)]) == [] {
      EmptyAhead(ts, x);
    }
    PlacesNone(ts.secs, ts.oldest, d + 1, n);
  }

  /** The sectors between the current and the oldest one hold nothing. */
  lemma EmptyAhead(ts: Ts, x: nat)
    requires WfTs(ts) && ts.oldest < |ts.secs| && ts.cur < |ts.secs|
    requires Steps(ts.oldest, ts.cur, |ts.secs|) < x < |ts.secs|
    ensures RecsOf(ts.secs[RingPos(ts.oldest, x, |ts.secs|)]) == []
  {
    hide Packed, WfSec, WfCurrent;
    assert InStore(ts.secs[RingPos(ts.oldest, x, |ts.secs|)], Empty);
    NotUnused(ts.secs[RingPos(ts.oldest, x, |ts.secs|)], ts.secSize, ts.maxLen);
  }

  /** Where a walk back stands after `k` steps. */
  lemma BackIs(ts: Ts, k: nat)
    requires ts.oldest < |ts.secs| && ts.cur < |ts.secs| && k < |ts.secs|
    ensures var d, n := Steps(ts.oldest, ts.cur, |ts.secs|), |ts.secs|;
      && (k <= d ==> BackOf(ts.cur, k, n) == RingPos(ts.oldest, d - k, n))
      && (k == d + 1 ==> BackOf(ts.cur, k, n) == RingPos(ts.oldest, n - 1, n))
  {}

  /** The sector `k` steps before `cur`. */
  function BackOf(cur: nat, k: nat, n: nat): (i: nat)
    requires cur < n && k < n
    ensures i < n
  {
    if k <= cur then cur - k else cur + n - k
  }

  lemma BehindStep(ts: Ts, k: nat)
    requires WfTs(ts) && ts.oldest < |ts.secs| && ts.cur < |ts.secs| && Filled(ts) && k < |ts.secs|
    requires k <= Steps(ts.oldest, ts.cur, |ts.secs|) + 1
    ensures var i := BackOf(ts.cur, k, |ts.secs|); var d := Steps(ts.oldest, ts.cur, |ts.secs|);
      && (k <= d ==> Reversed<Pos>(Behind(ts, k + 1)) == Reversed<Pos>(Behind(ts, k)) + Reversed<Pos>(PlacesIn(ts.secs[i], i)))
      && (k > d ==> Behind(ts, k + 1) == Behind(ts, k) == Places(ts.secs, ts.oldest, 0, |ts.secs|) && InStore(ts.secs[i], Empty))
      && (InStore(ts.secs[i], Empty) ==> Behind(ts, k + 1) == Behind(ts, k) == Places(ts.secs, ts.oldest, 0, |ts.secs|))
  {
    hide Packed, WfSec, Places, PlacesIn, Reversed;
    BackIs(ts, k);
    var i, d, n := BackOf(ts.cur, k, |ts.secs|), Steps(ts.oldest, ts.cur, |ts.secs|), |ts.secs|;
    if k <= d {
      PlacesJoin(ts.secs, ts.oldest, d - k, d - k + 1, n);
      PlacesOne(ts.secs, ts.oldest, d - k);
      ReversedJoin(PlacesIn(ts.secs[i], i), Behind(ts, k));
      if InStore(ts.secs[i], Empty) {
        assert k == 0 && d == 0;
        EmptyPlaces(ts.secs, i, ts.secSize, ts.maxLen);
        assert [] + Behind(ts, k) == Behind(ts, k);
      }
    }
  }

  /** Having visited the whole ring, everything has been visited. */
  lemma BehindEnd(ts: Ts, k: nat)
    requires ts.oldest < |ts.secs| && ts.cur < |ts.secs|
    ensures k == |ts.secs| ==> Behind(ts, k) == Places(ts.secs, ts.oldest, 0, |ts.secs|)
  {}

  lemma ReversedNone(ps: seq<Pos>)
    ensures Reversed<Pos>(ps[|ps|..]) == []
  {}

  lemma TslsBack(a: seq<Tsl>, t: Tsl, secs: seq<TSec>, size: nat, maxLen: nat, ps: seq<Pos>, k: nat)
    requires k < |ps| && TslsAt(a, secs, size, maxLen, Reversed<Pos>(ps[k + 1..])) && TslAt(t, secs, size, maxLen, ps[k])
    ensures TslsAt(a + [t], secs, size, maxLen, Reversed<Pos>(ps[k..]))
  {
    hide TslAt, Reversed;
    ReversedJoin([ps[k]], ps[k + 1..]);
    assert [ps[k]] + ps[k + 1..] == ps[k..];
    ReversedOne(ps[k]);
  }

  lemma ReversedOne(p: Pos)
    ensures Reversed<Pos>([p]) == [p]
  {
    assert [p][..0] == [];
  }

  /** Where the backward loop goes from slot `k`. */
  lemma LastSlot(info: TsInfo, tsl: Tsl, sec: TSec, b: nat, k: nat)
    requires info.status != Empty && info.addr == b && tsl.addrIndex == b + SlotOff(k)
    ensures GetLastTslAddr(info, tsl) == if k > 0 then b + SlotOff(k - 1) else FAILED_ADDR
    ensures tsl.addrIndex < FAILED_ADDR ==> GetLastTslAddr(info, tsl) != FAILED_ADDR || k == 0
  {}

  /** `align_up` */
  function AlignUp(x: int, a: nat): int
    requires 0 < a
  {
    if x <= 0 then 0 else (x + a - 1) / a * a
  }

  /** The middle of `d` slots, counted in bytes. */
  lemma MidIs(d: nat)
    ensures AlignUp(TS_IDX * d / 2, TS_IDX) == TS_IDX * ((d + 1) / 2)
  {}

  lemma SlotLast(sec: TSec, size: nat, maxLen: nat)
    requires WfSec(sec, size, maxLen)
    ensures SlotOff(|sec.recs|) <= size
  {
    hide WfRec;
  }

  lemma TimesSize(sec: TSec)
    ensures sec.TSec? ==> |TimesOf(sec)| == |sec.recs|
  {}

  lemma ExactIndex(times: seq<i32>, after: Slot, from: i32, to: i32, m: nat)
    requires Sorted(times) && m < |times| && times[m] == from
    ensures SearchIndex(times, after, from, to) == m
  {
    Split(times, m);
    LowerBoundIs(times, from, m);
  }

  lemma PicksNone(mem: seq<byte>, b: nat, maxLen: u32)
    ensures Picks([], mem, b, maxLen, [])
  {}

  lemma PicksSnoc(out: seq<Tsl>, mem: seq<byte>, b: nat, maxLen: u32, picked: seq<nat>, k: nat)
    requires Picks(out, mem, b, maxLen, picked) && b + SlotOff(k) < 0x1_0000_0000
    ensures Picks(out + [ReadSlot(mem, b + SlotOff(k), maxLen)], mem, b, maxLen, picked + [k])
  {
    hide ReadSlot;
  }

  lemma SlotUpTo(k: nat, m: nat)
    requires k <= m
    ensures SlotOff(k) <= SlotOff(m)
  {}

  lemma StepSorted(ts: Ts, k: nat)
    requires Timed(ts) && ts.oldest < |ts.secs| && k < |ts.secs|
    ensures Sorted(StepTimes(ts, k)) && AllRecs(ts.secs[RingPos(ts.oldest, k, |ts.secs|)])
    ensures TimedSec(ts.secs[RingPos(ts.oldest, k, |ts.secs|)])
    ensures ts.cur < |ts.secs| && Filled(ts)
  {
    hide WfTs, LogFrom, Increasing;
    SecSorted(ts, k);
    assert TimedSec(ts.secs[RingPos(ts.oldest, k, |ts.secs|)]);
  }

  lemma EmptyOffers(sec: TSec, i: nat, size: nat, maxLen: nat, lo: i32, hi: i32)
    requires WfSec(sec, size, maxLen) && sec.store == Empty
    ensures QuerySec(sec, i, lo, hi) == []
  {
    hide Room;
  }

  /** The ring step that a walk back has come to after `k` rounds. */
  function BackStart(ts: Ts, k: nat): (a: nat)
    requires ts.oldest < |ts.secs| && ts.cur < |ts.secs|
    ensures a <= |ts.secs|
  {
    var d := Steps(ts.oldest, ts.cur, |ts.secs|);
    if k <= d then d + 1 - k else 0
  }

  lemma QueryBehindStart(ts: Ts, lo: i32, hi: i32)
    requires WfTs(ts) && ts.oldest < |ts.secs| && ts.cur < |ts.secs|
    ensures Query(ts.secs, ts.oldest, BackStart(ts, 0), |ts.secs|, lo, hi) == []
  {
    hide Packed, WfSec, WfCurrent;
    var d, n := Steps(ts.oldest, ts.cur, |ts.secs|), |ts.secs|;
    if d + 1 < n {
      assert InStore(ts.secs[RingPos(ts.oldest, d + 1, n)], Empty);
      EmptyEnds(ts, d + 1, lo, hi);
    }
  }

  /** Where round `k` of a walk back is. */
  lemma BackStepIs(ts: Ts, k: nat)
    requires WfTs(ts) && ts.oldest < |ts.secs| && ts.cur < |ts.secs| && k < |ts.secs|
    requires k <= Steps(ts.oldest, ts.cur, |ts.secs|) + 1
    ensures var i, d := BackOf(ts.cur, k, |ts.secs|), Steps(ts.oldest, ts.cur, |ts.secs|);
      && BackStart(ts, k + 1) < |ts.secs| && BackStart(ts, k + 1) <= BackStart(ts, k)
      && (k <= d ==> BackStart(ts, k) == BackStart(ts, k + 1) + 1 && i == RingPos(ts.oldest, BackStart(ts, k + 1), |ts.secs|))
      && (k > d ==> InStore(ts.secs[i], Empty))
  {
    hide Packed, WfSec;
    BackIs(ts, k);
  }

  /** A walk back that has found a record not behind `from` meets none behind it. */
  lemma FirstNotBehind(ts: Ts, k: nat, from: i32, found: bool)
    requires ts.oldest < |ts.secs| && ts.cur < |ts.secs| && k <= Steps(ts.oldest, ts.cur, |ts.secs|)
    requires found ==> NotBehind(ts, BackStart(ts, k), from)
    requires StepTimes(ts, BackStart(ts, k + 1)) != []
    ensures found ==> StepTimes(ts, BackStart(ts, k + 1))[0] <= from
  {}

  lemma NotBehindLess(ts: Ts, a: nat, b: nat, from: i32)
    requires ts.oldest < |ts.secs| && a <= b
    ensures NotBehind(ts, b, from) ==> NotBehind(ts, a, from)
  {}

  lemma TslIndexPositive(st: TslStatus)
    ensures st != TslStatus.Unused ==> 0 < TslIndex(st)
  {}

  /** How many of the records at the places `ps` have the status; a torn record reads as being written. */
  function CountStatus(secs: seq<TSec>, ps: seq<Pos>, st: TslStatus): nat
    decreases |ps|
  {
    if ps == [] then 0
    else
      var p := ps[|ps| - 1];
      CountStatus(secs, ps[..|ps| - 1], st)
      + if At(secs, p) && (if secs[p.sec].recs[p.k].Rec? then secs[p.sec].recs[p.k].st else PreWrite) == st then 1 else 0
  }

  /** How many of the records as read have the status. */
  function StatusCount(out: seq<Tsl>, st: TslStatus): nat {
    if out == [] then 0 else StatusCount(out[..|out| - 1], st) + if out[|out| - 1].status == st then 1 else 0
  }

  /** What is read of records has their statuses. */
  lemma {:induction false} CountsAgree(out: seq<Tsl>, secs: seq<TSec>, size: nat, maxLen: nat, ps: seq<Pos>, st: TslStatus)
    requires TslsAt(out, secs, size, maxLen, ps)
    ensures StatusCount(out, st) == CountStatus(secs, ps, st)
    decreases |out|
  {
    hide Base, DataOff, SlotOff;
    if out != [] {
      var n := |out| - 1;
      assert TslAt(out[n], secs, size, maxLen, ps[n]);
      CountsAgree(out[..n], secs, size, maxLen, ps[..n], st);
    }
  }

  lemma Split(times: seq<i32>, m: nat)
    requires Sorted(times) && m < |times|
    ensures forall j :: 0 <= j < m ==> times[j] < times[m]
    ensures forall j :: m < j < |times| ==> times[m] < times[j]
  {}

  lemma EmptyPlaces(secs: seq<TSec>, i: nat, size: nat, maxLen: nat)
    requires i < |secs| && WfSec(secs[i], size, maxLen)
    ensures secs[i].TSec? && secs[i].store != StoreStatus.Unused
    ensures secs[i].store == Empty ==> PlacesIn(secs[i], i) == []
  {
    hide Room;
  }

  lemma SlotIs(k: nat)
    ensures SlotOff(k) == TS_HDR + TS_IDX * k
  {}

  lemma SlotZero()
    ensures SlotOff(0) == TS_HDR
  {}

  lemma TslsNone(secs: seq<TSec>, size: nat, maxLen: nat, ps: seq<Pos>)
    ensures TslsAt([], secs, size, maxLen, ps[..0])
  {}

  /** Where the forward loop goes from slot `k`. */
  lemma NextSlot(info: TsInfo, tsl: Tsl, sec: TSec, b: nat, size: nat, maxLen: nat, k: nat)
    requires WfSec(sec, size, maxLen) && k < |sec.recs| && b + size < FAILED_ADDR
    requires info.status != Empty && info.endIdx == b + SlotOff(|sec.recs| - 1) && tsl.addrIndex == b + SlotOff(k)
    ensures GetNextTslAddr(info, tsl) == if k + 1 < |sec.recs| then b + SlotOff(k + 1) else FAILED_ADDR
    ensures k + 1 < |sec.recs| ==> b + SlotOff(k + 1) < FAILED_ADDR
  {
    hide WfSec;
    SlotRange(sec, b, size, maxLen);
  }

  /** All slots of a sector lie inside it. */
  lemma SlotRange(sec: TSec, b: nat, size: nat, maxLen: nat)
    requires WfSec(sec, size, maxLen)
    ensures forall k :: 0 <= k < |sec.recs| ==> b + SlotOff(k) + TS_IDX <= b + size
  {
    forall k | 0 <= k < |sec.recs| ensures b + SlotOff(k) + TS_IDX <= b + size {
      SlotFits(sec, b, size, maxLen, k);
    }
  }

  lemma RoomAll(recs: seq<Rec>, size: nat)
    ensures RoomAt(recs, |recs|, size) == Room(recs, size)
  {}

  lemma TslParts(tsl: Tsl, rec: Rec, b: nat, k: nat, d: int, maxLen: nat, sec: TSec, size: nat)
    requires TslIs(tsl, rec, b, k, d, maxLen) && WfSec(sec, size, maxLen) && k < |sec.recs| && rec == sec.recs[k]
    ensures tsl.status != TslStatus.Unused && tsl.addrIndex == b + SlotOff(k)
    ensures tsl.status == PreWrite <==> rec.Torn?
    ensures rec.Rec? ==> tsl.time == rec.time
    ensures tsl.logLen == if rec.Torn? then maxLen else rec.Len()
  {
    hide Room;
    assert WfRec(sec.recs[k], maxLen);
  }

  lemma SlotFits(sec: TSec, b: nat, size: nat, maxLen: nat, k: nat)
    requires WfSec(sec, size, maxLen) && k < |sec.recs|
    ensures b + SlotOff(k) + TS_IDX <= b + size
  {
    hide WfRec;
    RoomShrinks(sec.recs, k, size);
  }
}
