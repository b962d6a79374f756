/** The time-series log above the bytes: a ring of sectors, each a sequence of records, and what appending
    does to it. */
module TsModel {
  import opened Bytes
  import opened Sectors
  import opened Wrappers

  const TS_HDR: nat := 32
  const TS_IDX: nat := 16

  datatype TslStatus = Unused | PreWrite | Write | UserStatus1 | Deleted | UserStatus2

  /** A record. `Torn` is one whose writing was cut off: its index slot is taken, and `room` bytes of data
      are given up for it. */
  datatype Rec =
    | Rec(st: TslStatus, time: i32, blob: seq<byte>)
    | Torn(room: nat)
  {
    function Len(): nat {
      if Torn? then room else |blob|
    }
  }

  /** What a sector header says about the end of a full sector: nothing, something unfinished, or the time
      and the number of the last record. */
  datatype End = NoEnd | HalfEnd | EndAt(time: i32, last: nat)

  /** `Raw` is a sector without the magic word. */
  datatype TSec =
    | Raw
    | TSec(store: StoreStatus, start: i32, end0: End, end1: End, recs: seq<Rec>)

  datatype Ts = Ts(
    secSize: nat,
    maxLen: nat,
    rollover: bool,
    secs: seq<TSec>,
    cur: nat,
    oldest: nat,
    lastTime: i32)

  // ------------------------------------------------------------ space in a sector

  /** Bytes of data of the first `k` records. */
  function DataLen(recs: seq<Rec>, k: nat): nat
    requires k <= |recs|
  {
    if k == 0 then 0 else DataLen(recs, k - 1) + recs[k - 1].Len()
  }

  /** What is left between index and data. */
  function Room(recs: seq<Rec>, secSize: nat): int {
    secSize - TS_HDR - TS_IDX * |recs| - DataLen(recs, |recs|)
  }

  lemma {:induction false} DataLenPrefix(recs: seq<Rec>, more: seq<Rec>, k: nat)
    requires k <= |recs|
    ensures DataLen(recs + more, k) == DataLen(recs, k)
  {
    if k > 0 {
      DataLenPrefix(recs, more, k - 1);
    }
  }

  lemma RoomMore(recs: seq<Rec>, rec: Rec, secSize: nat)
    ensures Room(recs + [rec], secSize) == Room(recs, secSize) - TS_IDX - rec.Len()
  {
    DataLenPrefix(recs, [rec], |recs|);
  }

  lemma {:induction false} DataLenMonotone(recs: seq<Rec>, j: nat, k: nat)
    requires j <= k <= |recs|
    ensures DataLen(recs, j) <= DataLen(recs, k)
    ensures j < k ==> DataLen(recs, j) + recs[j].Len() <= DataLen(recs, k)
    decreases k
  {
    if j < k {
      DataLenMonotone(recs, j, k - 1);
    }
  }

  // ------------------------------------------------------------ well-formed logs

  predicate WfRec(rec: Rec, maxLen: nat) {
    && rec.Len() <= maxLen
    && (rec.Rec? ==> rec.st != TslStatus.Unused && rec.st != PreWrite)
  }

  /** The end information that counts. */
  function EndOf(sec: TSec): End
    requires sec.TSec?
  {
    if sec.end0.EndAt? then sec.end0 else sec.end1
  }

  predicate WfSec(sec: TSec, secSize: nat, maxLen: nat) {
    && sec.TSec?
    && sec.store != StoreStatus.Unused
    && 0 <= Room(sec.recs, secSize)
    && (forall k :: 0 <= k < |sec.recs| ==> WfRec(sec.recs[k], maxLen))
    && (sec.store == Empty ==> sec.recs == [] && sec.start == -1 && sec.end0.NoEnd? && sec.end1.NoEnd?)
    && (sec.store == Using ==> !sec.end0.EndAt? && (sec.end0.NoEnd? || sec.end1.NoEnd?) && !sec.end1.EndAt?)
    && (sec.store == Full ==> sec.recs != [] && EndOf(sec).EndAt? && EndOf(sec).last == |sec.recs| - 1)
  }

  predicate InStore(sec: TSec, st: StoreStatus) {
    sec.TSec? && sec.store == st
  }

  /** From the oldest sector on the ring is full up to the current sector and empty behind it. It is only
      after it has gone around once that the oldest sector is another than the first. */
  predicate WfRing(ts: Ts) {
    var n := |ts.secs|;
    && 2 <= n && ts.oldest < n && ts.cur < n
    && var d := Steps(ts.oldest, ts.cur, n);
      && (forall k :: 0 <= k < d ==> InStore(ts.secs[RingPos(ts.oldest, k, n)], Full))
      && (forall k :: d < k < n ==> InStore(ts.secs[RingPos(ts.oldest, k, n)], Empty))
      && (ts.oldest == 0 || d == n - 1)
  }

  predicate WfCurrent(ts: Ts)
    requires ts.cur < |ts.secs|
  {
    var sec := ts.secs[ts.cur];
    && sec.TSec?
    && (sec.store == Empty ==> ts.oldest == 0)
    && (sec.store == Full ==> ts.cur == |ts.secs| - 1)
  }

  /** The current sector holds a record, unless the log is empty. It does not only while the first record
      is being written to it. */
  predicate Filled(ts: Ts)
    requires ts.cur < |ts.secs|
  {
    && (InStore(ts.secs[ts.cur], Using) ==> ts.secs[ts.cur].recs != [])
    && (InStore(ts.secs[ts.cur], Empty) ==> ts.cur == ts.oldest)
  }

  /** A full sector holds at least as many records as fit whatever their length. */
  function PerSector(secSize: nat, maxLen: nat): nat {
    if secSize < TS_HDR then 0 else (secSize - TS_HDR) / (TS_IDX + maxLen)
  }

  predicate Packed(ts: Ts) {
    forall i :: 0 <= i < |ts.secs| ==>
      InStore(ts.secs[i], Full) ==> PerSector(ts.secSize, ts.maxLen) <= |ts.secs[i].recs|
  }

  predicate WfTs(ts: Ts) {
    && WfRing(ts)
    && WfCurrent(ts)
    && ts.maxLen + 48 <= ts.secSize
    && (forall i :: 0 <= i < |ts.secs| ==> WfSec(ts.secs[i], ts.secSize, ts.maxLen))
    && Packed(ts)
  }

  // ------------------------------------------------------------ the log

  function RecsOf(sec: TSec): seq<Rec> {
    if sec.Raw? then [] else sec.recs
  }

  /** The records of the ring from its `k`-th sector on. */
  function LogFrom(secs: seq<TSec>, start: nat, k: nat): seq<Rec>
    requires start < |secs| && k <= |secs|
    decreases |secs| - k
  {
    if k == |secs| then [] else RecsOf(secs[RingPos(start, k, |secs|)]) + LogFrom(secs, start, k + 1)
  }

  function Log(ts: Ts): seq<Rec>
    requires ts.oldest < |ts.secs|
  {
    LogFrom(ts.secs, ts.oldest, 0)
  }

  // ------------------------------------------------------------ appending

  const FreshSec: TSec := TSec(Empty, -1, NoEnd, NoEnd, [])

  /** The current sector, its end noted and marked full. */
  function Closed(sec: TSec, lastTime: i32): TSec
    requires sec.TSec? && sec.recs != []
  {
    var end := EndAt(lastTime, |sec.recs| - 1);
    if sec.end0.NoEnd? then sec.(end0 := end, store := Full)
    else if sec.end1.NoEnd? then sec.(end1 := end, store := Full)
    else sec.(store := Full)
  }

  predicate Overflows(ts: Ts, len: nat)
    requires ts.cur < |ts.secs|
  {
    var sec := ts.secs[ts.cur];
    InStore(sec, Using) && sec.recs != [] && Room(sec.recs, ts.secSize) < TS_IDX + len
  }

  /** An empty current sector is taken into use. */
  function Opened(ts: Ts, time: i32): (r: Ts)
    requires ts.cur < |ts.secs|
    ensures r.cur == ts.cur && |r.secs| == |ts.secs|
  {
    if InStore(ts.secs[ts.cur], Empty) then ts.(secs := ts.secs[ts.cur := ts.secs[ts.cur].(store := Using, start := time)]) else ts
  }

  datatype Ended = Ended(ts: Ts, outcome: Outcome)

  /** On to the next sector of the ring; if it is in use it is formatted, and the one behind it is the oldest. */
  function Advanced(ts: Ts): (r: Ts)
    requires ts.cur < |ts.secs|
    ensures r.cur < |r.secs|
  {
    var n := |ts.secs|;
    var next := Next(ts.cur, n);
    if InStore(ts.secs[next], Empty) then ts.(cur := next)
    else ts.(cur := next, oldest := Next(next, n), secs := ts.secs[next := FreshSec])
  }

  /** The current sector closed, if it has no room for `len` bytes. */
  function CloseFor(ts: Ts, len: nat): (r: Ts)
    requires ts.cur < |ts.secs|
    ensures r.cur < |r.secs| == |ts.secs|
  {
    if Overflows(ts, len) then ts.(secs := ts.secs[ts.cur := Closed(ts.secs[ts.cur], ts.lastTime)]) else ts
  }

  /** There is no sector to go on to. */
  predicate Exhausted(ts: Ts, len: nat)
    requires ts.cur < |ts.secs|
  {
    if Overflows(ts, len) then ts.cur + 1 == |ts.secs| && !ts.rollover else InStore(ts.secs[ts.cur], Full)
  }

  /** The log with a current sector that takes the record, before that sector is taken into use. */
  function Seated(ts: Ts, len: nat): (r: Ts)
    requires ts.cur < |ts.secs|
    ensures r.cur < |r.secs|
  {
    if Overflows(ts, len) then Advanced(CloseFor(ts, len)) else ts
  }

  /** `update_sec_status` */
  function Update(ts: Ts, len: nat, time: i32): (r: Ended)
    requires ts.cur < |ts.secs|
    ensures r.ts.cur < |r.ts.secs|
  {
    if Exhausted(ts, len) then Ended(CloseFor(ts, len), Failed(SavedFull))
    else Ended(Opened(Seated(ts, len), time), Done)
  }

  function Push(ts: Ts, rec: Rec): Ts
    requires ts.cur < |ts.secs| && ts.secs[ts.cur].TSec?
  {
    var sec := ts.secs[ts.cur];
    ts.(secs := ts.secs[ts.cur := sec.(recs := sec.recs + [rec])])
  }

  /** `tsl_append` */
  function Append(ts: Ts, time: i32, blob: seq<byte>): Ended
    requires ts.cur < |ts.secs|
  {
    if |blob| > ts.maxLen || time <= ts.lastTime then Ended(ts, Failed(WriteErr))
    else
      var u := Update(ts, |blob|, time);
      if u.outcome != Done || u.ts.secs[u.ts.cur].Raw? then u
      else Ended(Push(u.ts, Rec(Write, time, blob)).(lastTime := time), Done)
  }

  /** An append that needs a new sector while none is empty. */
  predicate RollsOver(ts: Ts, len: nat)
    requires ts.cur < |ts.secs|
  {
    && Overflows(ts, len)
    && !Exhausted(ts, len)
    && !InStore(ts.secs[Next(ts.cur, |ts.secs|)], Empty)
  }

  // ------------------------------------------------------------ what appending keeps

  lemma {:induction false} DataBound(recs: seq<Rec>, k: nat, maxLen: nat)
    requires k <= |recs| && forall x :: 0 <= x < |recs| ==> recs[x].Len() <= maxLen
    ensures DataLen(recs, k) <= k * maxLen
  {
    if k > 0 {
      DataBound(recs, k - 1, maxLen);
      assert k * maxLen == (k - 1) * maxLen + maxLen;
    }
  }

  /** A sector that has no room for one more record holds as many as always fit. */
  lemma FullEnough(recs: seq<Rec>, len: nat, secSize: nat, maxLen: nat)
    requires len <= maxLen && maxLen + 48 <= secSize
    requires forall x :: 0 <= x < |recs| ==> recs[x].Len() <= maxLen
    requires Room(recs, secSize) < TS_IDX + len
    ensures PerSector(secSize, maxLen) <= |recs|
  {
    DataBound(recs, |recs|, maxLen);
    var m, w := |recs|, TS_IDX + maxLen;
    assert m * w == TS_IDX * m + m * maxLen;
    assert secSize - TS_HDR < (m + 1) * w by { assert (m + 1) * w == m * w + w; }
    QuotientBelow(secSize - TS_HDR, w, m + 1);
  }

  lemma QuotientBelow(x: nat, w: nat, m: nat)
    requires 0 < w && x < m * w
    ensures x / w < m
  {
    var q := x / w;
    assert q * w + x % w == x;
    if m <= q {
      Grows(m, q, w);
    }
  }

  lemma Grows(m: nat, q: nat, w: nat)
    requires m <= q
    ensures m * w <= q * w
  {
    assert q * w == m * w + (q - m) * w;
  }

  // ------------------------------------------------------------ the ring

  lemma RingNext(start: nat, k: nat, n: nat)
    requires start < n && k + 1 < n
    ensures RingPos(start, k + 1, n) == Next(RingPos(start, k, n), n)
  {}

  lemma RingShift(start: nat, k: nat, n: nat)
    requires start < n && k < n
    ensures RingPos(Next(start, n), k, n) == if k + 1 < n then RingPos(start, k + 1, n) else start
  {}

  lemma RingInjective(start: nat, j: nat, k: nat, n: nat)
    requires start < n && j < n && k < n && RingPos(start, j, n) == RingPos(start, k, n)
    ensures j == k
  {}

  /** Where the next sector stands: the one to be filled, or the oldest. */
  lemma NextIs(ts: Ts)
    requires WfRing(ts) && WfCurrent(ts)
    ensures var d, n := Steps(ts.oldest, ts.cur, |ts.secs|), |ts.secs|;
      && (d + 1 < n ==> Next(ts.cur, n) == RingPos(ts.oldest, d + 1, n) && InStore(ts.secs[Next(ts.cur, n)], Empty))
      && (d + 1 == n ==> Next(ts.cur, n) == ts.oldest && !InStore(ts.secs[Next(ts.cur, n)], Empty))
  {
    var d, n := Steps(ts.oldest, ts.cur, |ts.secs|), |ts.secs|;
    if d + 1 < n {
      RingNext(ts.oldest, d, n);
    } else {
      RingShift(ts.oldest, n - 1, n);
      assert InStore(ts.secs[RingPos(ts.oldest, 0, n)], Full);
    }
  }

  // ------------------------------------------------------------ the log under changes

  lemma {:induction false} LogSame(secs: seq<TSec>, start: nat, k: nat, i: nat, sec: TSec)
    requires start < |secs| && k <= |secs| && i < |secs| && RecsOf(sec) == RecsOf(secs[i])
    ensures LogFrom(secs[i := sec], start, k) == LogFrom(secs, start, k)
    decreases |secs| - k
  {
    if k < |secs| {
      LogSame(secs, start, k + 1, i, sec);
    }
  }

  /** Behind the current sector there is nothing. */
  lemma {:induction false} LogEnds(secs: seq<TSec>, start: nat, k: nat)
    requires start < |secs| && k <= |secs|
    requires forall x :: k <= x < |secs| ==> RecsOf(secs[RingPos(start, x, |secs|)]) == []
    ensures LogFrom(secs, start, k) == []
    decreases |secs| - k
  {
    if k < |secs| {
      LogEnds(secs, start, k + 1);
    }
  }

  /** A record added to the sector at step `d`, behind which there is nothing, is added to the log. */
  lemma {:induction false} LogPush(secs: seq<TSec>, start: nat, k: nat, d: nat, rec: Rec)
    requires start < |secs| && k <= d < |secs| && secs[RingPos(start, d, |secs|)].TSec?
    requires forall x :: d < x < |secs| ==> RecsOf(secs[RingPos(start, x, |secs|)]) == []
    ensures var i := RingPos(start, d, |secs|);
      LogFrom(secs[i := secs[i].(recs := secs[i].recs + [rec])], start, k) == LogFrom(secs, start, k) + [rec]
    decreases d - k
  {
    hide RecsOf;
    var i := RingPos(start, d, |secs|);
    var after := secs[i := secs[i].(recs := secs[i].recs + [rec])];
    if k < d {
      LogPush(secs, start, k + 1, d, rec);
      assert RingPos(start, k, |secs|) != i;
      assert LogFrom(after, start, k) == RecsOf(secs[RingPos(start, k, |secs|)]) + LogFrom(after, start, k + 1);
    } else {
      LogEnds(secs, start, d + 1);
      forall x | d + 1 <= x < |secs| ensures RecsOf(after[RingPos(start, x, |secs|)]) == [] {
        assert RingPos(start, x, |secs|) != i;
      }
      LogEnds(after, start, d + 1);
      assert RecsOf(after[i]) == RecsOf(secs[i]) + [rec] by { PushedRecs(secs[i], rec); }
      assert LogFrom(secs, start, k) == RecsOf(secs[i]) + LogFrom(secs, start, k + 1);
      assert LogFrom(after, start, k) == RecsOf(after[i]) + LogFrom(after, start, k + 1);
    }
  }

  lemma PushedRecs(sec: TSec, rec: Rec)
    requires sec.TSec?
    ensures RecsOf(sec.(recs := sec.recs + [rec])) == RecsOf(sec) + [rec]
  {}

  /** Giving up the oldest sector drops its records and nothing else. */
  lemma {:induction false} LogDrops(secs: seq<TSec>, start: nat, k: nat)
    requires start < |secs| && k < |secs|
    ensures LogFrom(secs[start := FreshSec], Next(start, |secs|), k) == LogFrom(secs, start, k + 1)
    decreases |secs| - k
  {
    var n := |secs|;
    RingShift(start, k, n);
    if k + 1 < n {
      assert RingPos(start, k + 1, n) != start;
      LogDrops(secs, start, k + 1);
    } else {
      assert LogFrom(secs[start := FreshSec], Next(start, n), n) == [];
    }
  }

  // ------------------------------------------------------------ appending, step by step

  /** Marking the current sector full. */
  lemma CloseKeeps(ts: Ts, len: nat)
    requires WfTs(ts) && len <= ts.maxLen && Overflows(ts, len)
    ensures var c := CloseFor(ts, len);
      && WfRing(c) && Packed(c) && InStore(c.secs[c.cur], Full)
      && (forall i :: 0 <= i < |c.secs| ==> WfSec(c.secs[i], c.secSize, c.maxLen))
      && Log(c) == Log(ts)
  {
    hide PerSector, WfRing, WfRec;
    RingSize(ts);
    var sec := ts.secs[ts.cur];
    var c := CloseFor(ts, len);
    assert WfSec(sec, ts.secSize, ts.maxLen);
    RecLens(sec, ts.secSize, ts.maxLen);
    FullEnough(sec.recs, len, ts.secSize, ts.maxLen);
    LogSame(ts.secs, ts.oldest, 0, ts.cur, c.secs[ts.cur]);
    RingKept(ts, c.secs[ts.cur]);
  }

  lemma RecLens(sec: TSec, secSize: nat, maxLen: nat)
    requires WfSec(sec, secSize, maxLen)
    ensures forall k :: 0 <= k < |sec.recs| ==> sec.recs[k].Len() <= maxLen
  {
    hide Room;
    forall k | 0 <= k < |sec.recs| ensures sec.recs[k].Len() <= maxLen {
      assert WfRec(sec.recs[k], maxLen);
    }
  }

  /** Going on to an empty sector. */
  lemma AdvanceEmpty(c: Ts)
    requires WfRing(c) && c.secs[c.cur].TSec? && c.secs[c.cur].store == Full
    requires Steps(c.oldest, c.cur, |c.secs|) + 1 < |c.secs|
    ensures var a := Advanced(c);
      && WfRing(a) && a.secs == c.secs && a.oldest == c.oldest && InStore(a.secs[a.cur], Empty)
      && a == c.(cur := a.cur)
  {
    var d, n := Steps(c.oldest, c.cur, |c.secs|), |c.secs|;
    RingNext(c.oldest, d, n);
    var a := Advanced(c);
    RingInjective(c.oldest, d + 1, Steps(a.oldest, a.cur, n), n);
  }

  /** Going on to the oldest sector, which is given up. */
  lemma AdvanceOldest(c: Ts)
    requires WfRing(c) && c.secs[c.cur].TSec? && c.secs[c.cur].store == Full
    requires Steps(c.oldest, c.cur, |c.secs|) + 1 == |c.secs|
    ensures var a := Advanced(c);
      && WfRing(a) && a.cur == c.oldest && a.secs == c.secs[c.oldest := FreshSec]
      && a == c.(cur := a.cur, oldest := a.oldest, secs := a.secs)
      && a.oldest == Next(c.oldest, |c.secs|)
  {
    var n := |c.secs|;
    RingShift(c.oldest, n - 1, n);
    assert InStore(c.secs[RingPos(c.oldest, 0, n)], Full);
    var a := Advanced(c);
    assert a.cur == c.oldest;
    RingInjective(a.oldest, n - 1, Steps(a.oldest, a.cur, n), n) by { RingShift(c.oldest, n - 1, n); }
    forall k | 0 <= k < n - 1 ensures InStore(a.secs[RingPos(a.oldest, k, n)], Full) {
      RingShift(c.oldest, k, n);
      if k + 1 == n - 1 {
        RingInjective(c.oldest, n - 1, Steps(c.oldest, c.cur, n), n);
      }
    }
  }

  lemma FilledSec(sec: TSec, rec: Rec, time: i32, secSize: nat, maxLen: nat)
    requires WfSec(sec, secSize, maxLen) && sec.store != Full && maxLen + 48 <= secSize
    requires WfRec(rec, maxLen) && (sec.store == Using ==> TS_IDX + rec.Len() <= Room(sec.recs, secSize))
    ensures var start := if sec.store == Empty then time else sec.start;
      WfSec(sec.(store := Using, start := start, recs := sec.recs + [rec]), secSize, maxLen)
  {
    RoomMore(sec.recs, rec, secSize);
  }

  /** Taking an empty current sector into use and adding the first record, or adding one more. */
  lemma OpenAndPush(a: Ts, rec: Rec, time: i32)
    requires CanPush(a, rec.Len()) && WfRec(rec, a.maxLen)
    ensures var p := Push(Opened(a, time), rec);
      && Opened(a, time).secs[a.cur].TSec?
      && WfTs(p) && p.cur < |p.secs| && InStore(p.secs[p.cur], Using) && Filled(p)
      && p == a.(secs := p.secs)
      && Log(p) == Log(a) + [rec]
  {
    hide Packed, PerSector, WfRing, WfSec, LogFrom, Room;
    RingSize(a);
    var sec := a.secs[a.cur];
    var p := Push(Opened(a, time), rec);
    assert p.secs == a.secs[a.cur := p.secs[a.cur]];
    FilledSec(sec, rec, time, a.secSize, a.maxLen);
    NotUnused(sec, a.secSize, a.maxLen);
    PushLog(a, rec, time);
    RingKept(a, p.secs[a.cur]);
    PackedKept(a, p.secs[a.cur]);
  }

  lemma OpenedSec(sec: TSec, time: i32, secSize: nat, maxLen: nat)
    requires WfSec(sec, secSize, maxLen) && sec.store == Empty
    ensures WfSec(sec.(store := Using, start := time), secSize, maxLen)
  {}

  /** Taking an empty current sector into use. */
  lemma OpenKeeps(a: Ts, len: nat, time: i32)
    requires CanPush(a, len)
    ensures var o := Opened(a, time);
      && WfTs(o) && InStore(o.secs[o.cur], Using) && Log(o) == Log(a)
      && CanPush(o, len)
      && o == a.(secs := o.secs)
  {
    hide Packed, PerSector, WfRing, WfSec, LogFrom, Room;
    RingSize(a);
    var sec := a.secs[a.cur];
    NotUnused(sec, a.secSize, a.maxLen);
    if sec.store == Empty {
      var o := Opened(a, time);
      OpenedSec(sec, time, a.secSize, a.maxLen);
      assert o.secs == a.secs[a.cur := o.secs[a.cur]];
      RingKept(a, o.secs[a.cur]);
      PackedKept(a, o.secs[a.cur]);
      LogSame(a.secs, a.oldest, 0, a.cur, o.secs[a.cur]);
      FreshIsWf(a.secSize, a.maxLen);
    }
  }

  /** `update_sec_status` keeps the log in order. */
  lemma UpdateKeeps(ts: Ts, len: nat, time: i32)
    requires WfTs(ts) && len <= ts.maxLen
    ensures ts.cur < |ts.secs|
    ensures var u := Update(ts, len, time);
      && WfTs(u.ts) && u.ts.oldest < |u.ts.secs|
      && u.ts == ts.(secs := u.ts.secs, cur := u.ts.cur, oldest := u.ts.oldest)
      && (u.outcome == Done ==> CanPush(u.ts, len) && InStore(u.ts.secs[u.ts.cur], Using))
      && (u.outcome != Done ==> InStore(u.ts.secs[u.ts.cur], Full))
  {
    hide Packed, PerSector, WfRing, WfSec, LogFrom, Room, CanPush, Seated, CloseFor, Opened, Exhausted;
    RingSize(ts);
    if Exhausted(ts, len) {
      ExhaustedKeeps(ts, len);
      RingSize(CloseFor(ts, len));
    } else {
      SeatedKeeps(ts, len);
      OpenKeeps(Seated(ts, len), len, time);
      RingSize(Opened(Seated(ts, len), time));
    }
  }

  /** The sector that takes the record is fresh if it is empty, and it is empty after going on to it. */
  lemma SeatedFresh(ts: Ts, len: nat)
    requires WfTs(ts) && len <= ts.maxLen && ts.cur < |ts.secs| && !Exhausted(ts, len)
    ensures var a := Seated(ts, len); var sec := a.secs[a.cur];
      && sec.TSec?
      && (sec.store == Empty ==> sec.start == -1 && sec.recs == [])
      && (Overflows(ts, len) ==> sec.store == Empty)
  {
    hide Packed, PerSector, LogFrom, Room, WfRing, Closed;
    SeatedKeeps(ts, len);
    var a := Seated(ts, len);
    assert WfSec(a.secs[a.cur], a.secSize, a.maxLen);
    RingSize(ts);
    NextIs(ts);
    if Overflows(ts, len) {
      NextDiffers(ts.cur, |ts.secs|);
    }
  }

  lemma SeatedSame(ts: Ts, len: nat)
    requires ts.cur < |ts.secs| && !Overflows(ts, len)
    ensures Seated(ts, len) == ts && CloseFor(ts, len) == ts && (Exhausted(ts, len) <==> InStore(ts.secs[ts.cur], Full))
  {}

  lemma SeatedRing(ts: Ts, len: nat)
    requires WfTs(ts) && len <= ts.maxLen && ts.cur < |ts.secs|
    ensures !Exhausted(ts, len) ==> Seated(ts, len).oldest < |Seated(ts, len).secs|
    ensures ts.oldest < |ts.secs|
  {
    hide Packed, PerSector, WfSec, Closed, Room;
    if !Exhausted(ts, len) {
      SeatedKeeps(ts, len);
      RingSize(Seated(ts, len));
    }
  }

  /** A sector without records always has room. */
  lemma OverflowsIs(ts: Ts, len: nat)
    requires WfTs(ts) && len <= ts.maxLen
    ensures ts.cur < |ts.secs|
    ensures Overflows(ts, len) <==> InStore(ts.secs[ts.cur], Using) && Room(ts.secs[ts.cur].recs, ts.secSize) < TS_IDX + len
  {
    hide Packed, WfSec;
    FreshIsWf(ts.secSize, ts.maxLen);
  }

  lemma NotUnused(sec: TSec, secSize: nat, maxLen: nat)
    requires WfSec(sec, secSize, maxLen)
    ensures sec.TSec? && sec.store != StoreStatus.Unused && (sec.store == Empty ==> sec.recs == [])
  {}

  lemma PushLog(a: Ts, rec: Rec, time: i32)
    requires CanPush(a, rec.Len())
    ensures Opened(a, time).secs[a.cur].TSec? && Log(Push(Opened(a, time), rec)) == Log(a) + [rec]
  {
    hide Packed, PerSector, WfSec, LogFrom, Room;
    var o := Opened(a, time);
    var d, n := Steps(a.oldest, a.cur, |a.secs|), |a.secs|;
    assert o.secs == a.secs[a.cur := o.secs[a.cur]];
    forall x | d < x < n ensures RecsOf(o.secs[RingPos(a.oldest, x, n)]) == [] {
      NotCurrent(a, x);
      NotUnused(a.secs[RingPos(a.oldest, x, n)], a.secSize, a.maxLen);
    }
    LogSame(a.secs, a.oldest, 0, a.cur, o.secs[a.cur]);
    LogPush(o.secs, a.oldest, 0, d, rec);
  }

  lemma NotCurrent(a: Ts, x: nat)
    requires WfRing(a) && x < |a.secs| && x != Steps(a.oldest, a.cur, |a.secs|)
    ensures RingPos(a.oldest, x, |a.secs|) != a.cur
  {
    if RingPos(a.oldest, x, |a.secs|) == a.cur {
      RingInjective(a.oldest, x, Steps(a.oldest, a.cur, |a.secs|), |a.secs|);
    }
  }

  /** The ring does not depend on what is in the current sector. */
  lemma RingKept(a: Ts, sec: TSec)
    requires WfRing(a)
    ensures WfRing(a.(secs := a.secs[a.cur := sec]))
  {
    forall x | 0 <= x < |a.secs| && x != Steps(a.oldest, a.cur, |a.secs|) ensures RingPos(a.oldest, x, |a.secs|) != a.cur {
      NotCurrent(a, x);
    }
  }

  lemma PackedKept(a: Ts, sec: TSec)
    requires Packed(a) && a.cur < |a.secs| && !InStore(sec, Full)
    ensures Packed(a.(secs := a.secs[a.cur := sec]))
  {
    hide PerSector;
  }

  lemma FreshIsWf(secSize: nat, maxLen: nat)
    requires maxLen + 48 <= secSize
    ensures WfSec(FreshSec, secSize, maxLen) && Room([], secSize) == secSize - TS_HDR
  {}

  /** How many records the log loses at its old end. */
  function Lost(ts: Ts, len: nat): nat
    requires ts.cur < |ts.secs| && ts.oldest < |ts.secs|
  {
    if RollsOver(ts, len) then |RecsOf(ts.secs[ts.oldest])| else 0
  }

  lemma LostBound(ts: Ts, len: nat)
    requires ts.cur < |ts.secs| && ts.oldest < |ts.secs|
    ensures Lost(ts, len) <= |Log(ts)|
  {
    hide RollsOver;
    assert RingPos(ts.oldest, 0, |ts.secs|) == ts.oldest;
  }

  /** What `update_sec_status` finds: a current sector with room for the record. */
  lemma SeatedKeeps(ts: Ts, len: nat)
    requires WfTs(ts) && len <= ts.maxLen && !Exhausted(ts, len)
    ensures var a := Seated(ts, len);
      && CanPush(a, len)
      && a == ts.(secs := a.secs, cur := a.cur, oldest := a.oldest)
      && Lost(ts, len) <= |Log(ts)| && Log(a) == Log(ts)[Lost(ts, len)..]
      && a.oldest == (if RollsOver(ts, len) then Next(ts.oldest, |ts.secs|) else ts.oldest)
      && (RollsOver(ts, len) ==> Steps(ts.oldest, ts.cur, |ts.secs|) + 1 == |ts.secs|)
  {
    hide Packed, PerSector, WfRing, WfSec, LogFrom, Overflows, Closed, Room, CanPush;
    RingSize(ts);
    LostBound(ts, len);
    NextIs(ts);
    if Overflows(ts, len) {
      var c := CloseFor(ts, len);
      CloseKeeps(ts, len);
      NextCloses(ts, c);
      FreshIsWf(ts.secSize, ts.maxLen);
      if Steps(c.oldest, c.cur, |c.secs|) + 1 < |c.secs| {
        AdvanceEmpty(c);
        PackedTurn(c, Advanced(c).cur);
        CanPushEmpty(Advanced(c), len);
      } else {
        AdvanceOldest(c);
        DropsOldest(c);
        PackedAdvance(c);
        CanPushEmpty(Advanced(c), len);
        assert ts.cur != ts.oldest by { NextDiffers(ts.cur, |ts.secs|); }
      }
    } else {
      CurrentRoom(ts, len);
    }
  }

  lemma NextDiffers(i: nat, n: nat)
    requires i < n && 2 <= n
    ensures Next(i, n) != i
  {}

  lemma PackedTurn(c: Ts, cur: nat)
    requires Packed(c)
    ensures Packed(c.(cur := cur))
  {
    hide PerSector;
  }

  lemma PackedAdvance(c: Ts)
    requires Packed(c) && c.oldest < |c.secs| && c.cur < |c.secs| && Advanced(c).secs == c.secs[c.oldest := FreshSec]
    ensures Packed(Advanced(c))
  {
    hide PerSector, Advanced;
    AdvancedKeeps(c);
  }

  lemma AdvancedKeeps(c: Ts)
    requires c.cur < |c.secs|
    ensures Advanced(c) == c.(secs := Advanced(c).secs, cur := Advanced(c).cur, oldest := Advanced(c).oldest)
  {}

  /** When there is no sector to go on to, all of them are full. */
  lemma ExhaustedKeeps(ts: Ts, len: nat)
    requires WfTs(ts) && len <= ts.maxLen && Exhausted(ts, len)
    ensures var c := CloseFor(ts, len);
      && WfTs(c) && Log(c) == Log(ts) && InStore(c.secs[c.cur], Full)
      && c == ts.(secs := c.secs)
      && !RollsOver(ts, len)
  {
    hide Packed, PerSector, WfRing, WfSec, LogFrom, Closed, Room;
    RingSize(ts);
    if Overflows(ts, len) {
      CloseKeeps(ts, len);
    }
  }

  lemma RingSize(ts: Ts)
    requires WfRing(ts)
    ensures 2 <= |ts.secs| && ts.oldest < |ts.secs| && ts.cur < |ts.secs|
  {}

  lemma NextCloses(ts: Ts, c: Ts)
    requires WfRing(ts) && ts.cur < |ts.secs| == |c.secs| && c == ts.(secs := ts.secs[ts.cur := c.secs[ts.cur]])
    ensures c.secs[Next(ts.cur, |ts.secs|)] == ts.secs[Next(ts.cur, |ts.secs|)]
  {}

  lemma DropsOldest(c: Ts)
    requires WfRing(c)
    ensures LogFrom(c.secs[c.oldest := FreshSec], Next(c.oldest, |c.secs|), 0) == Log(c)[|RecsOf(c.secs[c.oldest])|..]
  {
    LogDrops(c.secs, c.oldest, 0);
    assert RingPos(c.oldest, 0, |c.secs|) == c.oldest;
  }

  /** The current sector can take a record of `len` bytes. */
  ghost predicate CanPush(a: Ts, len: nat) {
    && WfRing(a) && Packed(a) && a.secs[a.cur].TSec? && a.secs[a.cur].store != Full
    && a.maxLen + 48 <= a.secSize && len <= a.maxLen
    && (forall i :: 0 <= i < |a.secs| ==> WfSec(a.secs[i], a.secSize, a.maxLen))
    && (a.secs[a.cur].store == Using ==> TS_IDX + len <= Room(a.secs[a.cur].recs, a.secSize))
  }

  lemma CanPushEmpty(a: Ts, len: nat)
    requires WfRing(a) && Packed(a) && InStore(a.secs[a.cur], Empty) && a.maxLen + 48 <= a.secSize && len <= a.maxLen
    requires forall i :: 0 <= i < |a.secs| ==> WfSec(a.secs[i], a.secSize, a.maxLen)
    ensures CanPush(a, len)
  {}

  lemma CurrentRoom(ts: Ts, len: nat)
    requires WfTs(ts) && len <= ts.maxLen && !Overflows(ts, len) && !InStore(ts.secs[ts.cur], Full)
    ensures CanPush(ts, len)
  {
    hide Packed, WfRing, WfSec;
    RingSize(ts);
    FreshIsWf(ts.secSize, ts.maxLen);
    NotUnused(ts.secs[ts.cur], ts.secSize, ts.maxLen);
  }

  /** Appending: the record comes to the end of the log; a rollover drops exactly the records of the oldest
      sector; a call that fails leaves the log as it was. */
  lemma AppendKeeps(ts: Ts, time: i32, blob: seq<byte>)
    requires WfTs(ts)
    ensures ts.cur < |ts.secs| && ts.oldest < |ts.secs|
    ensures var r := Append(ts, time, blob);
      && WfTs(r.ts) && r.ts.oldest < |r.ts.secs|
      && r.ts == ts.(secs := r.ts.secs, cur := r.ts.cur, oldest := r.ts.oldest, lastTime := r.ts.lastTime)
      && r.outcome == (if |blob| > ts.maxLen || time <= ts.lastTime then Failed(WriteErr)
                       else if Exhausted(ts, |blob|) then Failed(SavedFull) else Done)
      && (r.outcome == Done ==>
            && r.ts.lastTime == time && InStore(r.ts.secs[r.ts.cur], Using) && Filled(r.ts)
            && Lost(ts, |blob|) <= |Log(ts)|
            && Log(r.ts) == Log(ts)[Lost(ts, |blob|)..] + [Rec(Write, time, blob)]
            && r.ts.oldest == (if RollsOver(ts, |blob|) then Next(ts.oldest, |ts.secs|) else ts.oldest))
      && (r.outcome != Done ==> Log(r.ts) == Log(ts) && r.ts.lastTime == ts.lastTime && r.ts.oldest == ts.oldest)
      && (r.outcome == Failed(SavedFull) ==> InStore(r.ts.secs[r.ts.cur], Full))
  {
    hide WfRing, Packed, WfSec, WfCurrent, Overflows, RollsOver, Seated, Opened, Push, LogFrom, Room, Exhausted, CloseFor, Lost, CanPush;
    RingSize(ts);
    if |blob| <= ts.maxLen && time > ts.lastTime {
      var rec := Rec(Write, time, blob);
      if Exhausted(ts, |blob|) {
        ExhaustedKeeps(ts, |blob|);
        RingSize(CloseFor(ts, |blob|));
      } else {
        SeatedKeeps(ts, |blob|);
        OpenAndPush(Seated(ts, |blob|), rec, time);
        RingSize(Push(Opened(Seated(ts, |blob|), time), rec));
        LastTimeKept(Push(Opened(Seated(ts, |blob|), time), rec), time);
      }
    }
  }

  lemma LastTimeKept(ts: Ts, time: i32)
    requires WfTs(ts)
    ensures WfTs(ts.(lastTime := time)) && Log(ts.(lastTime := time)) == Log(ts)
  {
    hide Packed, LogFrom;
    assert Packed(ts.(lastTime := time)) by { PackedTime(ts, time); }
  }

  lemma PackedTime(ts: Ts, time: i32)
    requires Packed(ts)
    ensures Packed(ts.(lastTime := time))
  {}

  // ------------------------------------------------------------ status changes

  /** Record `k` of `sec` with status `st`. */
  function Restated(sec: TSec, k: nat, st: TslStatus): TSec
    requires sec.TSec? && k < |sec.recs| && sec.recs[k].Rec?
  {
    sec.(recs := sec.recs[k := sec.recs[k].(st := st)])
  }

  lemma {:induction false} DataLenRestated(recs: seq<Rec>, k: nat, st: TslStatus, j: nat)
    requires k < |recs| && recs[k].Rec? && j <= |recs|
    ensures DataLen(recs[k := recs[k].(st := st)], j) == DataLen(recs, j)
  {
    if j > 0 {
      DataLenRestated(recs, k, st, j - 1);
    }
  }

  lemma RestatedWf(sec: TSec, k: nat, st: TslStatus, secSize: nat, maxLen: nat)
    requires WfSec(sec, secSize, maxLen) && k < |sec.recs| && sec.recs[k].Rec? && st != TslStatus.Unused && st != PreWrite
    ensures WfSec(Restated(sec, k, st), secSize, maxLen)
  {
    DataLenRestated(sec.recs, k, st, |sec.recs|);
    var r := sec.recs[k].(st := st);
    assert WfRec(sec.recs[k], maxLen);
    assert WfRec(r, maxLen);
  }

  /** The log without the statuses of its records. */
  function Plain(log: seq<Rec>): (p: seq<Rec>)
    ensures |p| == |log|
    ensures forall x :: 0 <= x < |log| ==> p[x] == if log[x].Rec? then log[x].(st := Write) else log[x]
  {
    seq(|log|, x requires 0 <= x < |log| => if log[x].Rec? then log[x].(st := Write) else log[x])
  }

  lemma PlainJoin(a: seq<Rec>, b: seq<Rec>)
    ensures Plain(a + b) == Plain(a) + Plain(b)
  {}

  lemma PlainTail(log: seq<Rec>, l: nat)
    requires l <= |log|
    ensures Plain(log[l..]) == Plain(log)[l..]
  {}

  lemma {:induction false} RestatedLog(secs: seq<TSec>, start: nat, x: nat, i: nat, k: nat, st: TslStatus)
    requires start < |secs| && x <= |secs| && i < |secs| && secs[i].TSec? && k < |secs[i].recs| && secs[i].recs[k].Rec?
    ensures Plain(LogFrom(secs[i := Restated(secs[i], k, st)], start, x)) == Plain(LogFrom(secs, start, x))
    decreases |secs| - x
  {
    if x < |secs| {
      hide LogFrom, Plain;
      var after := secs[i := Restated(secs[i], k, st)];
      var p := RingPos(start, x, |secs|);
      RestatedLog(secs, start, x + 1, i, k, st);
      LogUnfold(secs, start, x);
      LogUnfold(after, start, x);
      PlainJoin(RecsOf(secs[p]), LogFrom(secs, start, x + 1));
      PlainJoin(RecsOf(after[p]), LogFrom(after, start, x + 1));
      if p == i {
        RestatedPlain(secs[i], k, st);
      }
    }
  }

  lemma LogUnfold(secs: seq<TSec>, start: nat, k: nat)
    requires start < |secs| && k < |secs|
    ensures LogFrom(secs, start, k) == RecsOf(secs[RingPos(start, k, |secs|)]) + LogFrom(secs, start, k + 1)
  {}

  lemma RestatedPlain(sec: TSec, k: nat, st: TslStatus)
    requires sec.TSec? && k < |sec.recs| && sec.recs[k].Rec?
    ensures Plain(RecsOf(Restated(sec, k, st))) == Plain(RecsOf(sec))
  {}

  /** A change of status changes nothing but the status. */
  lemma StatusKeeps(ts: Ts, i: nat, k: nat, st: TslStatus)
    requires WfTs(ts) && i < |ts.secs| && ts.secs[i].TSec? && k < |ts.secs[i].recs| && ts.secs[i].recs[k].Rec?
    requires st != TslStatus.Unused && st != PreWrite
    ensures var r := ts.(secs := ts.secs[i := Restated(ts.secs[i], k, st)]);
      && WfTs(r) && ts.oldest < |ts.secs|
      && Plain(Log(r)) == Plain(Log(ts))
  {
    hide WfSec, LogFrom, Plain;
    RestatedLog(ts.secs, ts.oldest, 0, i, k, st);
    RestatedWf(ts.secs[i], k, st, ts.secSize, ts.maxLen);
    var secs := ts.secs[i := Restated(ts.secs[i], k, st)];
    forall x | 0 <= x < |secs| ensures secs[x].TSec? == ts.secs[x].TSec? && (secs[x].TSec? ==> secs[x].store == ts.secs[x].store) {}
  }
}
