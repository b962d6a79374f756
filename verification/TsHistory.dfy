/** Whole runs of appends, status changes and turns of the rollover switch: the log is a suffix of everything
    accepted, it keeps a guaranteed number of records, its times increase, and it can be opened again. */
module TsHistory {
  import opened Bytes
  import opened Sectors
  import opened Wrappers
  import opened TsModel

  datatype Item = Item(time: i32, blob: seq<byte>)

  function Step(ts: Ts, item: Item): Ended
    requires WfTs(ts)
  {
    RingSize(ts);
    Append(ts, item.time, item.blob)
  }

  lemma StepWf(ts: Ts, item: Item)
    requires WfTs(ts)
    ensures WfTs(Step(ts, item).ts)
  {
    hide WfTs, Append;
    AppendKeeps(ts, item.time, item.blob);
  }

  /** What a caller may do to an open database. */
  datatype Op = Add(item: Item) | Restate(sec: nat, k: nat, st: TslStatus) | SetRollover(on: bool)

  /** Record `k` of sector `i` can be given the status `st`. */
  predicate Restatable(ts: Ts, i: nat, k: nat, st: TslStatus) {
    && i < |ts.secs| && ts.secs[i].TSec? && k < |ts.secs[i].recs| && ts.secs[i].recs[k].Rec?
    && st != TslStatus.Unused && st != PreWrite
  }

  /** A status change that names no record changes nothing. */
  function Do(ts: Ts, op: Op): (r: Ts)
    requires WfTs(ts)
    ensures WfTs(r)
  {
    hide WfTs, Append;
    match op
    case Add(item) => StepWf(ts, item); Step(ts, item).ts
    case Restate(i, k, st) =>
      if Restatable(ts, i, k, st) then
        StatusKeeps(ts, i, k, st);
        ts.(secs := ts.secs[i := Restated(ts.secs[i], k, st)])
      else ts
    case SetRollover(on) => SwitchKeeps(ts, on); ts.(rollover := on)
  }

  lemma SwitchKeeps(ts: Ts, on: bool)
    requires WfTs(ts)
    ensures WfTs(ts.(rollover := on)) && ts.oldest < |ts.secs| && Log(ts.(rollover := on)) == Log(ts)
  {
    assert Packed(ts.(rollover := on));
  }

  function Run(ts: Ts, ops: seq<Op>): (r: Ts)
    requires WfTs(ts)
    ensures WfTs(r)
    decreases |ops|
  {
    hide WfTs;
    if ops == [] then ts else Run(Do(ts, ops[0]), ops[1..])
  }

  /** The records of the items that were accepted. */
  function Accepted(ts: Ts, ops: seq<Op>): seq<Rec>
    requires WfTs(ts)
    decreases |ops|
  {
    hide WfTs, Append;
    if ops == [] then [] else AcceptedBy(ts, ops[0]) + Accepted(Do(ts, ops[0]), ops[1..])
  }

  function AcceptedBy(ts: Ts, op: Op): seq<Rec>
    requires WfTs(ts)
  {
    if op.Add? && Step(ts, op.item).outcome == Done then [Rec(Write, op.item.time, op.item.blob)] else []
  }

  lemma LogBound(ts: Ts)
    requires WfTs(ts)
    ensures ts.oldest < |ts.secs| && ts.cur < |ts.secs| && 2 <= |ts.secs|
  {}

  /** The log is, but for statuses, a suffix of what it held and everything accepted since. */
  lemma {:induction false} Suffix(ts: Ts, ops: seq<Op>) returns (k: nat)
    requires WfTs(ts)
    ensures ts.oldest < |ts.secs| && Run(ts, ops).oldest < |Run(ts, ops).secs|
    ensures k <= |Plain(Log(ts)) + Accepted(ts, ops)|
    ensures Plain(Log(Run(ts, ops))) == (Plain(Log(ts)) + Accepted(ts, ops))[k..]
    decreases |ops|
  {
    hide WfTs, LogFrom, Do, Plain, AcceptedBy;
    LogBound(ts);
    if ops == [] {
      k := 0;
      assert Plain(Log(ts)) + [] == Plain(Log(ts));
    } else {
      var l := DoLog(ts, ops[0]);
      var d := Do(ts, ops[0]);
      LogBound(d);
      var i := Suffix(d, ops[1..]);
      k := i + l;
      SuffixJoins(Plain(Log(ts)), AcceptedBy(ts, ops[0]), Accepted(d, ops[1..]), l, i);
    }
  }

  /** One operation drops the oldest records and adds those accepted. */
  lemma DoLog(ts: Ts, op: Op) returns (l: nat)
    requires WfTs(ts)
    ensures ts.oldest < |ts.secs| && Do(ts, op).oldest < |Do(ts, op).secs|
    ensures l <= |Plain(Log(ts))| && Plain(Log(Do(ts, op))) == Plain(Log(ts))[l..] + AcceptedBy(ts, op)
  {
    hide WfTs, Append, LogFrom, RollsOver, Exhausted, Lost, Plain;
    LogBound(ts);
    LogBound(Do(ts, op));
    l := 0;
    match op {
      case Add(item) =>
        AppendKeeps(ts, item.time, item.blob);
        if Step(ts, item).outcome == Done {
          l := Lost(ts, |item.blob|);
          var rec := Rec(Write, item.time, item.blob);
          PlainJoin(Log(ts)[l..], [rec]);
          PlainTail(Log(ts), l);
          PlainOne(rec);
        }
      case Restate(i, k, st) =>
        if Restatable(ts, i, k, st) {
          StatusKeeps(ts, i, k, st);
        }
      case SetRollover(on) => SwitchKeeps(ts, on);
    }
  }

  lemma PlainOne(rec: Rec)
    requires rec.Rec? && rec.st == Write
    ensures Plain([rec]) == [rec]
  {}

  lemma SuffixJoins(log: seq<Rec>, rec: seq<Rec>, rest: seq<Rec>, l: nat, i: nat)
    requires l <= |log| && i <= |log[l..] + rec + rest|
    ensures (log + (rec + rest))[i + l..] == (log[l..] + rec + rest)[i..]
  {
    assert (log + (rec + rest))[l..] == log[l..] + rec + rest;
  }

  // ------------------------------------------------------------ retention

  /** A ring without empty sectors holds at least a guaranteed number of records. */
  lemma {:induction false} FullRing(ts: Ts, k: nat)
    requires WfTs(ts) && k < |ts.secs| && Steps(ts.oldest, ts.cur, |ts.secs|) + 1 == |ts.secs|
    requires (InStore(ts.secs[ts.cur], Using) && Filled(ts)) || InStore(ts.secs[ts.cur], Full)
    ensures |LogFrom(ts.secs, ts.oldest, k)| >= (|ts.secs| - 1 - k) * PerSector(ts.secSize, ts.maxLen)
              + if InStore(ts.secs[ts.cur], Full) then PerSector(ts.secSize, ts.maxLen) else 1
    decreases |ts.secs| - k
  {
    hide PerSector, WfSec;
    var n := |ts.secs|;
    var c := PerSector(ts.secSize, ts.maxLen);
    if k + 1 < n {
      FullRing(ts, k + 1);
      assert InStore(ts.secs[RingPos(ts.oldest, k, n)], Full);
      assert (n - 1 - k) * c == (n - 2 - k) * c + c;
    } else {
      assert RingPos(ts.oldest, k, n) == ts.cur;
      assert LogFrom(ts.secs, ts.oldest, n) == [];
    }
  }

  /** Either nothing was lost of the `total` records accepted, or the ring has no empty sectors. */
  ghost predicate Retains(ts: Ts, total: nat) {
    && WfTs(ts) && ts.oldest < |ts.secs| && ts.cur < |ts.secs| && Filled(ts)
    && (|Log(ts)| == total || (Steps(ts.oldest, ts.cur, |ts.secs|) + 1 == |ts.secs| && !InStore(ts.secs[ts.cur], Empty)))
  }

  lemma StepRetains(ts: Ts, item: Item, total: nat)
    requires Retains(ts, total)
    ensures Retains(Step(ts, item).ts, if Step(ts, item).outcome == Done then total + 1 else total)
  {
    hide WfTs, LogFrom, Room, Packed, WfSec, Overflows;
    LogBound(ts);
    AppendKeeps(ts, item.time, item.blob);
    var s := Step(ts, item);
    LogBound(s.ts);
    if s.outcome == Done && |Log(s.ts)| != total + 1 {
      TurnsFull(ts, item);
    } else if s.outcome != Done {
      FailTurns(ts, item);
    }
  }

  /** An append that loses records, or one to a ring without empty sectors, leaves it without any. */
  lemma TurnsFull(ts: Ts, item: Item)
    requires WfTs(ts) && Step(ts, item).outcome == Done
    requires ts.oldest < |ts.secs| && ts.cur < |ts.secs|
    requires RollsOver(ts, |item.blob|) || Steps(ts.oldest, ts.cur, |ts.secs|) + 1 == |ts.secs|
    ensures var r := Step(ts, item).ts;
      && r.oldest < |r.secs| && r.cur < |r.secs|
      && Steps(r.oldest, r.cur, |r.secs|) + 1 == |r.secs| && InStore(r.secs[r.cur], Using) && Filled(r)
  {
    hide LogFrom, Room, Packed, WfSec, WfRing, Closed;
    LogBound(ts);
    NextIs(ts);
    AppendKeeps(ts, item.time, item.blob);
    if Overflows(ts, |item.blob|) {
      CloseKeeps(ts, |item.blob|);
      AdvanceOldest(CloseFor(ts, |item.blob|));
      RingShift(ts.oldest, |ts.secs| - 1, |ts.secs|);
    }
  }

  lemma FailTurns(ts: Ts, item: Item)
    requires WfTs(ts) && Step(ts, item).outcome != Done && ts.cur < |ts.secs|
    ensures var r := Step(ts, item).ts;
      r.oldest == ts.oldest && r.cur == ts.cur && |r.secs| == |ts.secs|
      && (!InStore(ts.secs[ts.cur], Empty) ==> !InStore(r.secs[r.cur], Empty))
      && (Filled(ts) ==> Filled(r))
  {
    hide LogFrom, Room, Packed, WfSec, WfRing;
  }

  lemma DoRetains(ts: Ts, op: Op, total: nat)
    requires Retains(ts, total)
    ensures WfTs(ts) && Retains(Do(ts, op), total + |AcceptedBy(ts, op)|)
  {
    hide WfTs, Append, LogFrom, Restated;
    match op {
      case Add(item) => StepRetains(ts, item, total);
      case Restate(i, k, st) =>
        if Restatable(ts, i, k, st) {
          StatusKeeps(ts, i, k, st);
          RestatedHead(ts.secs[i], k, st);
          assert |Plain(Log(Do(ts, op)))| == |Plain(Log(ts))|;
        }
      case SetRollover(on) => SwitchKeeps(ts, on);
    }
  }

  lemma RestatedHead(sec: TSec, k: nat, st: TslStatus)
    requires sec.TSec? && k < |sec.recs| && sec.recs[k].Rec?
    ensures var r := Restated(sec, k, st);
      && r == sec.(recs := r.recs) && |r.recs| == |sec.recs|
      && forall x :: 0 <= x < |r.recs| ==> r.recs[x] == sec.recs[x] || (x == k && r.recs[x] == sec.recs[k].(st := st))
  {}

  lemma {:induction false} RunRetains(ts: Ts, ops: seq<Op>, total: nat)
    requires Retains(ts, total)
    ensures WfTs(ts) && Retains(Run(ts, ops), total + |Accepted(ts, ops)|)
    decreases |ops|
  {
    hide WfTs, Append, Retains, Do, AcceptedBy;
    RetainsWf(ts, total);
    if ops != [] {
      DoRetains(ts, ops[0], total);
      RunRetains(Do(ts, ops[0]), ops[1..], total + |AcceptedBy(ts, ops[0])|);
    }
  }

  lemma RetainsWf(ts: Ts, total: nat)
    requires Retains(ts, total)
    ensures WfTs(ts)
  {}

  /** Retention: of all records ever accepted by a database that was empty, the log holds all, or at least
      one more than fit into all sectors but one whatever their length. */
  lemma Retention(ts: Ts, ops: seq<Op>)
    requires WfTs(ts) && ts.oldest < |ts.secs| && ts.cur < |ts.secs| && Log(ts) == [] && Filled(ts)
    ensures var r, total, least := Run(ts, ops), |Accepted(ts, ops)|, (|ts.secs| - 1) * PerSector(ts.secSize, ts.maxLen) + 1;
      && r.oldest < |r.secs|
      && |Log(r)| >= if total < least then total else least
  {
    hide WfTs, LogFrom, Run, Accepted, Step;
    RunRetains(ts, ops, 0);
    var r := Run(ts, ops);
    LogBound(r);
    RunShape(ts, ops);
    if |Log(r)| != |Accepted(ts, ops)| {
      PerSectorPositive(ts);
      CurrentStore(r);
      FullRing(r, 0);
    }
  }

  lemma CurrentStore(ts: Ts)
    requires WfTs(ts)
    ensures ts.cur < |ts.secs| && (InStore(ts.secs[ts.cur], Empty) || InStore(ts.secs[ts.cur], Using) || InStore(ts.secs[ts.cur], Full))
  {
    assert WfSec(ts.secs[ts.cur], ts.secSize, ts.maxLen);
  }

  lemma PerSectorPositive(ts: Ts)
    requires WfTs(ts)
    ensures 1 <= PerSector(ts.secSize, ts.maxLen)
  {
    QuotientAbove(ts.secSize - TS_HDR, TS_IDX + ts.maxLen);
  }

  lemma QuotientAbove(x: nat, w: nat)
    requires 0 < w <= x
    ensures 1 <= x / w
  {
    assert x == (x / w) * w + x % w;
  }

  lemma {:induction false} RunShape(ts: Ts, ops: seq<Op>)
    requires WfTs(ts)
    ensures var r := Run(ts, ops); |r.secs| == |ts.secs| && r.secSize == ts.secSize && r.maxLen == ts.maxLen
    decreases |ops|
  {
    hide WfTs, Do;
    if ops != [] {
      DoShape(ts, ops[0]);
      RunShape(Do(ts, ops[0]), ops[1..]);
    }
  }

  lemma DoShape(ts: Ts, op: Op)
    requires WfTs(ts)
    ensures var r := Do(ts, op);
      && |r.secs| == |ts.secs| && r.secSize == ts.secSize && r.maxLen == ts.maxLen
      && r.rollover == if op.SetRollover? then op.on else ts.rollover
  {
    hide WfTs, LogFrom, Append;
    if op.Add? {
      AppendKeeps(ts, op.item.time, op.item.blob);
      AppendShape(ts, op.item.time, op.item.blob);
    }
  }

  lemma AppendShape(ts: Ts, time: i32, blob: seq<byte>)
    requires ts.cur < |ts.secs|
    ensures |Append(ts, time, blob).ts.secs| == |ts.secs|
  {
    hide Overflows, Closed;
  }

  // ------------------------------------------------------------ rollover on

  /** With rollover on every record that is later than the last one and not too long is accepted, however many there
      are; only a current sector that is full already, as a refused append with rollover off leaves it, is in the way. */
  lemma {:induction false} RolloverAccepts(ts: Ts, ops: seq<Op>)
    requires WfTs(ts) && ts.rollover && InOrder(ops, ts.lastTime, ts.maxLen)
    requires ts.cur < |ts.secs| && !InStore(ts.secs[ts.cur], Full)
    ensures |Accepted(ts, ops)| == |ops|
    decreases |ops|
  {
    hide WfTs, LogFrom, Append, RollsOver, Overflows;
    if ops != [] {
      var item := ops[0].item;
      AppendKeeps(ts, item.time, item.blob);
      LogBound(Step(ts, item).ts);
      RolloverAccepts(Step(ts, item).ts, ops[1..]);
    }
  }

  lemma RefusesFull(ts: Ts, item: Item)
    requires WfTs(ts) && ts.cur < |ts.secs| && InStore(ts.secs[ts.cur], Full)
    ensures Step(ts, item).outcome != Done && Step(ts, item).ts == ts
  {
    hide WfTs;
    AppendKeeps(ts, item.time, item.blob);
  }

  // ------------------------------------------------------------ rollover off

  /** `max_blob_count` */
  function MaxBlobCount(sectors: nat, secSize: nat, maxLen: nat): nat {
    sectors * PerSector(secSize, maxLen)
  }

  /** With rollover off an append still gives up the oldest sector's records exactly if it needs a new sector
      and the ring has gone around before. */
  lemma RollsAnyway(ts: Ts, len: nat)
    requires WfTs(ts) && !ts.rollover
    ensures ts.cur < |ts.secs| && (RollsOver(ts, len) <==> Overflows(ts, len) && ts.oldest != 0)
  {
    hide Packed, WfSec;
    NextIs(ts);
  }

  /** Before the database refuses a record for want of space it holds at least `max_blob_count` records. */
  lemma RefusesLate(ts: Ts, item: Item)
    requires WfTs(ts) && ts.oldest == 0 && Step(ts, item).outcome == Failed(SavedFull)
    ensures ts.oldest < |ts.secs| && |Log(ts)| >= MaxBlobCount(|ts.secs|, ts.secSize, ts.maxLen)
  {
    hide WfTs, LogFrom, PerSector, Append;
    LogBound(ts);
    AppendKeeps(ts, item.time, item.blob);
    var r := Step(ts, item).ts;
    LogBound(r);
    CurrentFull(r);
    FullRing(r, 0);
    var c, n := PerSector(ts.secSize, ts.maxLen), |ts.secs|;
    AppendShape(ts, item.time, item.blob);
    assert n * c == (n - 1) * c + c;
  }

  lemma CurrentFull(ts: Ts)
    requires WfTs(ts) && ts.oldest == 0 && ts.cur < |ts.secs| && InStore(ts.secs[ts.cur], Full)
    ensures Steps(ts.oldest, ts.cur, |ts.secs|) + 1 == |ts.secs|
  {}

  /** Appends in order, after `last`, none of them too long. */
  predicate InOrder(ops: seq<Op>, last: i32, maxLen: nat) {
    && (forall x :: 0 <= x < |ops| ==> ops[x].Add? && |ops[x].item.blob| <= maxLen && last < ops[x].item.time)
    && (forall x, y :: 0 <= x < y < |ops| ==> ops[x].Add? && ops[y].Add? && ops[x].item.time < ops[y].item.time)
  }

  /** With rollover off, an unwrapped database accepts records in order up to `max_blob_count` in all. */
  lemma {:induction false} AcceptsAll(ts: Ts, ops: seq<Op>)
    requires WfTs(ts) && ts.oldest == 0 && !ts.rollover && InOrder(ops, ts.lastTime, ts.maxLen)
    requires ts.oldest < |ts.secs| && |Log(ts)| + |ops| <= MaxBlobCount(|ts.secs|, ts.secSize, ts.maxLen)
    ensures |Accepted(ts, ops)| == |ops|
    ensures Run(ts, ops).oldest < |Run(ts, ops).secs|
    ensures Log(Run(ts, ops)) == Log(ts) + Accepted(ts, ops)
    decreases |ops|
  {
    hide WfTs, LogFrom, MaxBlobCount, Append, RollsOver, Exhausted;
    LogBound(ts);
    if ops != [] {
      var item := ops[0].item;
      AppendKeeps(ts, item.time, item.blob);
      AppendShape(ts, item.time, item.blob);
      var s := Step(ts, item);
      if s.outcome == Failed(SavedFull) {
        RefusesLate(ts, item);
        assert false;
      }
      RollsAnyway(ts, |item.blob|);
      LogBound(s.ts);
      var rec := Rec(Write, item.time, item.blob);
      assert Log(ts)[0..] == Log(ts);
      AcceptsAll(s.ts, ops[1..]);
      var rest := Accepted(s.ts, ops[1..]);
      assert (Log(ts) + [rec]) + rest == Log(ts) + ([rec] + rest);
    } else {
      assert Log(ts) + [] == Log(ts);
    }
  }

  /** Every record has `len` bytes. */
  predicate AllLong(recs: seq<Rec>, len: nat) {
    forall k :: 0 <= k < |recs| ==> recs[k].Len() == len
  }

  lemma {:induction false} LongData(recs: seq<Rec>, k: nat, len: nat)
    requires k <= |recs| && AllLong(recs, len)
    ensures DataLen(recs, k) == k * len
  {
    if k > 0 {
      LongData(recs, k - 1, len);
      assert k * len == (k - 1) * len + len;
    }
  }

  /** No more records of the longest length fit into a sector than always fit. */
  lemma LongMost(recs: seq<Rec>, secSize: nat, maxLen: nat)
    requires AllLong(recs, maxLen) && maxLen + 48 <= secSize && 0 <= Room(recs, secSize)
    ensures |recs| <= PerSector(secSize, maxLen)
    ensures |recs| == PerSector(secSize, maxLen) ==> Room(recs, secSize) < TS_IDX + maxLen
  {
    var m, w, x := |recs|, TS_IDX + maxLen, secSize - TS_HDR;
    LongData(recs, m, maxLen);
    assert m * w == TS_IDX * m + m * maxLen;
    QuotientMost(x, w, m);
  }

  lemma QuotientMost(x: nat, w: nat, m: nat)
    requires 0 < w && m * w <= x
    ensures m <= x / w && x < (x / w) * w + w
  {
    var q := x / w;
    assert x == q * w + x % w;
    assert (q + 1) * w == q * w + w;
    if q < m {
      Grows(q + 1, m, w);
    }
  }

  /** A log of longest records holds at most what always fits, and less if one of its sectors does. */
  lemma {:induction false} LongLog(ts: Ts, k: nat, x: nat)
    requires WfTs(ts) && k <= |ts.secs| && AllLong(LogFrom(ts.secs, ts.oldest, k), ts.maxLen)
    requires k <= x < |ts.secs| ==> |RecsOf(ts.secs[RingPos(ts.oldest, x, |ts.secs|)])| < PerSector(ts.secSize, ts.maxLen)
    ensures var c := PerSector(ts.secSize, ts.maxLen);
      |LogFrom(ts.secs, ts.oldest, k)| <= (|ts.secs| - k) * c - if k <= x < |ts.secs| then 1 else 0
    decreases |ts.secs| - k
  {
    hide PerSector, Room, Packed, WfRing, WfSec;
    LogBound(ts);
    var n, c := |ts.secs|, PerSector(ts.secSize, ts.maxLen);
    if k < n {
      var sec := ts.secs[RingPos(ts.oldest, k, n)];
      var log := LogFrom(ts.secs, ts.oldest, k);
      var rest := LogFrom(ts.secs, ts.oldest, k + 1);
      assert log == RecsOf(sec) + rest;
      forall y | 0 <= y < |RecsOf(sec)| ensures RecsOf(sec)[y].Len() == ts.maxLen {
        assert log[y] == RecsOf(sec)[y];
      }
      forall y | 0 <= y < |rest| ensures rest[y].Len() == ts.maxLen {
        assert log[|RecsOf(sec)| + y] == rest[y];
      }
      SecRoom(sec, ts.secSize, ts.maxLen);
      LongMost(RecsOf(sec), ts.secSize, ts.maxLen);
      LongLog(ts, k + 1, x);
      assert (n - k) * c == (n - (k + 1)) * c + c;
    }
  }

  lemma SecRoom(sec: TSec, secSize: nat, maxLen: nat)
    requires WfSec(sec, secSize, maxLen)
    ensures 0 <= Room(RecsOf(sec), secSize)
  {}

  /** An unwrapped database that holds `max_blob_count` records of the longest length has no room for one more. */
  lemma LongIsFull(ts: Ts)
    requires WfTs(ts) && ts.oldest == 0 && ts.cur < |ts.secs| && AllLong(LogFrom(ts.secs, ts.oldest, 0), ts.maxLen)
    requires |Log(ts)| == MaxBlobCount(|ts.secs|, ts.secSize, ts.maxLen)
    ensures ts.cur == |ts.secs| - 1 && (InStore(ts.secs[ts.cur], Full) || Overflows(ts, ts.maxLen))
  {
    hide PerSector, Room, Packed, LogFrom;
    var n, c := |ts.secs|, PerSector(ts.secSize, ts.maxLen);
    PerSectorPositive(ts);
    CurrentStore(ts);
    if ts.cur < n - 1 {
      assert InStore(ts.secs[RingPos(0, n - 1, n)], Empty);
      assert WfSec(ts.secs[n - 1], ts.secSize, ts.maxLen);
      LongLog(ts, 0, n - 1);
    } else if |RecsOf(ts.secs[ts.cur])| < c {
      LongLog(ts, 0, n - 1);
    } else {
      LongSector(ts, 0, n - 1);
      assert WfSec(ts.secs[ts.cur], ts.secSize, ts.maxLen);
      LongMost(ts.secs[ts.cur].recs, ts.secSize, ts.maxLen);
    }
  }

  lemma {:induction false} LongSector(ts: Ts, k: nat, x: nat)
    requires ts.oldest < |ts.secs| && k <= x < |ts.secs| && AllLong(LogFrom(ts.secs, ts.oldest, k), ts.maxLen)
    ensures AllLong(RecsOf(ts.secs[RingPos(ts.oldest, x, |ts.secs|)]), ts.maxLen)
    decreases x - k
  {
    var n := |ts.secs|;
    var recs, rest := RecsOf(ts.secs[RingPos(ts.oldest, k, n)]), LogFrom(ts.secs, ts.oldest, k + 1);
    var log := LogFrom(ts.secs, ts.oldest, k);
    assert log == recs + rest;
    forall y | 0 <= y < |recs| ensures recs[y].Len() == ts.maxLen {
      assert log[y] == recs[y];
    }
    forall y | 0 <= y < |rest| ensures rest[y].Len() == ts.maxLen {
      assert log[|recs| + y] == rest[y];
    }
    if k < x {
      LongSector(ts, k + 1, x);
    }
  }

  /** Appends of the longest length, in order, to an unwrapped database with rollover off. */
  ghost predicate Filling(ts: Ts, ops: seq<Op>) {
    && WfTs(ts) && ts.oldest == 0 && ts.cur < |ts.secs| && !ts.rollover
    && AllLong(LogFrom(ts.secs, 0, 0), ts.maxLen)
    && InOrder(ops, ts.lastTime, ts.maxLen)
    && (forall x :: 0 <= x < |ops| ==> ops[x].Add? && |ops[x].item.blob| == ts.maxLen)
  }

  /** Once `max_blob_count` records of the longest length are held, every further one is refused for want of space. */
  lemma {:induction false} RefusesRest(ts: Ts, ops: seq<Op>)
    requires Filling(ts, ops)
    requires InStore(ts.secs[ts.cur], Full) || |Log(ts)| == MaxBlobCount(|ts.secs|, ts.secSize, ts.maxLen)
    ensures |Accepted(ts, ops)| == 0
    ensures ops != [] ==> Step(ts, ops[0].item).outcome == Failed(SavedFull)
    decreases |ops|
  {
    hide WfTs, LogFrom, MaxBlobCount, Append, RollsOver, Overflows;
    if ops != [] {
      var item := ops[0].item;
      AppendKeeps(ts, item.time, item.blob);
      AppendShape(ts, item.time, item.blob);
      if !InStore(ts.secs[ts.cur], Full) {
        LongIsFull(ts);
      }
      OverflowsUsing(ts, ts.maxLen);
      var s := Step(ts, item);
      assert s.outcome == Failed(SavedFull);
      LogBound(s.ts);
      RefusesRest(s.ts, ops[1..]);
    }
  }

  lemma OverflowsUsing(ts: Ts, len: nat)
    requires ts.cur < |ts.secs|
    ensures Overflows(ts, len) ==> !InStore(ts.secs[ts.cur], Full)
  {}

  /** `max_blob_count` is exact: of records of the longest length, in order, a database without any accepts just
      so many with its rollover off, and refuses the next one for want of space. */
  lemma MaxBlobsTight(ts: Ts, ops: seq<Op>)
    requires Filling(ts, ops) && Log(ts) == []
    ensures var most := MaxBlobCount(|ts.secs|, ts.secSize, ts.maxLen);
      && |Accepted(ts, ops)| == (if |ops| <= most then |ops| else most)
      && (|ops| > most ==> Step(Run(ts, ops[..most]), ops[most].item).outcome == Failed(SavedFull))
  {
    hide WfTs, LogFrom, MaxBlobCount, Append, Step, Run, Accepted;
    var most := MaxBlobCount(|ts.secs|, ts.secSize, ts.maxLen);
    if |ops| <= most {
      AcceptsAll(ts, ops);
    } else {
      var some, more := ops[..most], ops[most..];
      AcceptsAll(ts, some);
      AcceptedJoins(ts, some, more);
      assert some + more == ops;
      StaysFilling(ts, some, more);
      RunShape(ts, some);
      assert [] + Accepted(ts, some) == Accepted(ts, some);
      RefusesRest(Run(ts, some), more);
    }
  }

  lemma {:induction false} AcceptedJoins(ts: Ts, some: seq<Op>, more: seq<Op>)
    requires WfTs(ts)
    ensures Accepted(ts, some + more) == Accepted(ts, some) + Accepted(Run(ts, some), more)
    decreases |some|
  {
    hide WfTs, Do, AcceptedBy;
    if some == [] {
      assert some + more == more;
    } else {
      assert (some + more)[1..] == some[1..] + more;
      AcceptedJoins(Do(ts, some[0]), some[1..], more);
    }
  }

  lemma FillingStep(ts: Ts, ops: seq<Op>)
    requires Filling(ts, ops) && ops != [] && AcceptedBy(ts, ops[0]) != []
    ensures Filling(Do(ts, ops[0]), ops[1..])
  {
    hide WfTs, LogFrom, Append, RollsOver, Exhausted, MaxBlobCount;
    var item := ops[0].item;
    AppendKeeps(ts, item.time, item.blob);
    AppendShape(ts, item.time, item.blob);
    RollsAnyway(ts, |item.blob|);
    LogBound(Step(ts, item).ts);
    assert Log(ts)[0..] == Log(ts);
  }

  /** Accepted appends of the longest length leave it so that the rest of them is in order. */
  lemma {:induction false} StaysFilling(ts: Ts, some: seq<Op>, more: seq<Op>)
    requires Filling(ts, some + more) && |Accepted(ts, some)| == |some|
    ensures Filling(Run(ts, some), more)
    decreases |some|
  {
    hide WfTs, LogFrom, Step, Do, Filling;
    if some == [] {
      assert some + more == more;
    } else {
      assert (some + more)[0] == some[0];
      assert (some + more)[1..] == some[1..] + more;
      FillingWf(ts, some + more);
      AcceptedFew(Do(ts, some[0]), some[1..]);
      FillingStep(ts, some + more);
      StaysFilling(Do(ts, some[0]), some[1..], more);
    }
  }

  lemma FillingWf(ts: Ts, ops: seq<Op>)
    requires Filling(ts, ops)
    ensures WfTs(ts)
  {}

  lemma {:induction false} AcceptedFew(ts: Ts, ops: seq<Op>)
    requires WfTs(ts)
    ensures |Accepted(ts, ops)| <= |ops|
    decreases |ops|
  {
    hide WfTs, Do, Step;
    if ops != [] {
      AcceptedFew(Do(ts, ops[0]), ops[1..]);
    }
  }

  // ------------------------------------------------------------ times

  /** Complete records with increasing times, the sector's header in step with them. */
  predicate TimedSec(sec: TSec) {
    sec.TSec? && sec.recs != [] ==>
      && (forall k :: 0 <= k < |sec.recs| ==> sec.recs[k].Rec?)
      && sec.start == sec.recs[0].time
      && (sec.store == Full && EndOf(sec).EndAt? ==> EndOf(sec).time == sec.recs[|sec.recs| - 1].time)
  }

  predicate AllTimed(secs: seq<TSec>) {
    forall i :: 0 <= i < |secs| ==> TimedSec(secs[i])
  }

  predicate Increasing(log: seq<Rec>) {
    && (forall x :: 0 <= x < |log| ==> log[x].Rec?)
    && (forall x, y :: 0 <= x < y < |log| ==> log[x].Rec? && log[y].Rec? && log[x].time < log[y].time)
  }

  /** The times of the log increase from 1 on, and the last one is known. */
  ghost predicate Timed(ts: Ts) {
    TimedLog(ts) && ts.cur < |ts.secs| && Filled(ts)
  }

  ghost predicate TimedLog(ts: Ts) {
    && WfTs(ts) && ts.oldest < |ts.secs| && ts.cur < |ts.secs|
    && AllTimed(ts.secs)
    && Increasing(Log(ts))
    && (forall x :: 0 <= x < |Log(ts)| ==> Log(ts)[x].Rec? && 0 < Log(ts)[x].time <= ts.lastTime)
    && (if Log(ts) == [] then ts.lastTime == 0 else Log(ts)[|Log(ts)| - 1].Rec? && Log(ts)[|Log(ts)| - 1].time == ts.lastTime)
  }

  lemma IncreasingMore(log: seq<Rec>, l: nat, rec: Rec, last: i32)
    requires Increasing(log) && l <= |log| && rec.Rec? && last < rec.time
    requires forall x :: 0 <= x < |log| ==> log[x].Rec? && log[x].time <= last
    ensures Increasing(log[l..] + [rec])
  {}

  /** The last record of the log is that of the last sector that holds any. */
  lemma {:induction false} LastOf(secs: seq<TSec>, start: nat, k: nat, d: nat)
    requires start < |secs| && k <= d < |secs| && RecsOf(secs[RingPos(start, d, |secs|)]) != []
    requires forall x :: d < x < |secs| ==> RecsOf(secs[RingPos(start, x, |secs|)]) == []
    ensures var log, recs := LogFrom(secs, start, k), RecsOf(secs[RingPos(start, d, |secs|)]);
      |log| > 0 && log[|log| - 1] == recs[|recs| - 1]
    decreases d - k
  {
    hide RecsOf;
    assert LogFrom(secs, start, k) == RecsOf(secs[RingPos(start, k, |secs|)]) + LogFrom(secs, start, k + 1);
    if k < d {
      LastOf(secs, start, k + 1, d);
    } else {
      LogEnds(secs, start, d + 1);
    }
  }

  /** The last record of a current sector in use is the last of the log. */
  lemma LogLast(ts: Ts)
    requires WfTs(ts) && InStore(ts.secs[ts.cur], Using) && Filled(ts)
    ensures var log, recs := Log(ts), ts.secs[ts.cur].recs;
      |recs| > 0 && |log| > 0 && log[|log| - 1] == recs[|recs| - 1]
  {
    hide Packed, Room, LogFrom, WfSec;
    var d, n := Steps(ts.oldest, ts.cur, |ts.secs|), |ts.secs|;
    forall x | d < x < n ensures RecsOf(ts.secs[RingPos(ts.oldest, x, n)]) == [] {
      NotUnused(ts.secs[RingPos(ts.oldest, x, n)], ts.secSize, ts.maxLen);
    }
    LastOf(ts.secs, ts.oldest, 0, d);
  }

  lemma TimedClose(sec: TSec, secSize: nat, maxLen: nat, last: i32)
    requires TimedSec(sec) && sec.TSec? && sec.recs != [] && sec.store == Using && WfSec(sec, secSize, maxLen)
    requires sec.recs[|sec.recs| - 1].Rec? && sec.recs[|sec.recs| - 1].time == last
    ensures TimedSec(Closed(sec, last))
  {
    hide Room, WfRec;
  }

  lemma TimedFilled(sec: TSec, rec: Rec, time: i32)
    requires TimedSec(sec) && sec.TSec? && sec.store != Full && rec.Rec? && rec.time == time
    requires sec.store == Empty ==> sec.recs == []
    requires sec.store != Empty ==> sec.recs != []
    ensures var start := if sec.store == Empty then time else sec.start;
      TimedSec(sec.(store := Using, start := start, recs := sec.recs + [rec]))
  {}

  /** Times keep increasing. */
  lemma StepTimed(ts: Ts, item: Item)
    requires Timed(ts)
    ensures Timed(Step(ts, item).ts)
  {
    hide WfTs, LogFrom, Append, Increasing, TimedSec;
    LogBound(ts);
    AppendKeeps(ts, item.time, item.blob);
    var s := Step(ts, item);
    LogBound(s.ts);
    StepTimedSecs(ts, item);
    if s.outcome == Done {
      var rec := Rec(Write, item.time, item.blob);
      IncreasingMore(Log(ts), Lost(ts, |item.blob|), rec, ts.lastTime);
    } else {
      FailTurns(ts, item);
    }
  }

  lemma TimedAt(secs: seq<TSec>, i: nat)
    requires AllTimed(secs) && i < |secs|
    ensures TimedSec(secs[i])
  {
    hide TimedSec;
  }

  lemma TimedPut(secs: seq<TSec>, i: nat, sec: TSec)
    requires AllTimed(secs) && i < |secs| && TimedSec(sec)
    ensures AllTimed(secs[i := sec])
  {
    hide TimedSec;
  }

  lemma StepTimedSecs(ts: Ts, item: Item)
    requires Timed(ts)
    ensures AllTimed(Step(ts, item).ts.secs)
  {
    hide LogFrom, Packed, Room, WfRing, WfSec, Increasing, TimedSec, Closed, Overflows, AllTimed, Exhausted;
    var len := |item.blob|;
    RingSize(ts);
    TimedAll(ts);
    if len <= ts.maxLen && item.time > ts.lastTime {
      var c := CloseFor(ts, len);
      if Overflows(ts, len) {
        CloseTimed(ts, len);
        TimedPut(ts.secs, ts.cur, c.secs[ts.cur]);
      }
      if !Exhausted(ts, len) {
        var a := Seated(ts, len);
        if Overflows(ts, len) {
          FreshTimed();
          TimedPut(c.secs, Next(c.cur, |c.secs|), FreshSec);
        }
        CurrentRecs(ts, len);
        var rec := Rec(Write, item.time, item.blob);
        TimedAt(a.secs, a.cur);
        TimedFilled(a.secs[a.cur], rec, item.time);
        var p := Push(Opened(a, item.time), rec);
        assert p.secs == a.secs[a.cur := p.secs[a.cur]];
        TimedPut(a.secs, a.cur, p.secs[a.cur]);
      }
    }
  }

  lemma TimedAll(ts: Ts)
    requires Timed(ts)
    ensures AllTimed(ts.secs)
  {
    hide TimedSec;
  }

  lemma FreshTimed()
    ensures TimedSec(FreshSec)
  {}

  lemma CloseTimed(ts: Ts, len: nat)
    requires Timed(ts) && ts.cur < |ts.secs| && Overflows(ts, len)
    ensures TimedSec(Closed(ts.secs[ts.cur], ts.lastTime))
  {
    hide LogFrom, Packed, Room, Increasing;
    LogLast(ts);
    assert TimedSec(ts.secs[ts.cur]);
    TimedClose(ts.secs[ts.cur], ts.secSize, ts.maxLen, ts.lastTime);
  }

  lemma CurrentRecs(ts: Ts, len: nat)
    requires WfTs(ts) && ts.cur < |ts.secs| && Filled(ts) && len <= ts.maxLen && ts.cur < |ts.secs| && !Exhausted(ts, len)
    ensures var a := Seated(ts, len); var sec := a.secs[a.cur];
      sec.TSec? && (sec.store == Empty || sec.store == Using) && (sec.store == Empty <==> sec.recs == [])
  {
    hide LogFrom, Packed, Room, WfRing, PerSector;
    SeatedKeeps(ts, len);
    var a := Seated(ts, len);
    NotUnused(a.secs[a.cur], a.secSize, a.maxLen);
    RingSize(ts);
    NextIs(ts);
    if Overflows(ts, len) {
      NextDiffers(ts.cur, |ts.secs|);
    }
  }

  lemma {:induction false} RunTimed(ts: Ts, ops: seq<Op>)
    requires Timed(ts)
    ensures WfTs(ts) && Timed(Run(ts, ops))
    decreases |ops|
  {
    hide WfTs, Timed, Do;
    TimedWf(ts);
    if ops != [] {
      DoTimed(ts, ops[0]);
      RunTimed(Do(ts, ops[0]), ops[1..]);
    }
  }

  lemma TimedWf(ts: Ts)
    requires Timed(ts)
    ensures WfTs(ts)
  {}

  lemma DoTimed(ts: Ts, op: Op)
    requires Timed(ts)
    ensures WfTs(ts) && Timed(Do(ts, op))
  {
    hide WfTs, LogFrom, Append, Increasing, TimedSec, Restated;
    match op {
      case Add(item) => StepTimed(ts, item);
      case Restate(i, k, st) =>
        if Restatable(ts, i, k, st) {
          StatusKeeps(ts, i, k, st);
          RestatedHead(ts.secs[i], k, st);
          RestatedTimed(ts.secs[i], k, st);
          TimedPut(ts.secs, i, Restated(ts.secs[i], k, st));
          AlikeTimed(Log(ts), Log(Do(ts, op)), ts.lastTime);
        }
      case SetRollover(on) => SwitchKeeps(ts, on);
    }
  }

  lemma RestatedTimed(sec: TSec, k: nat, st: TslStatus)
    requires sec.TSec? && k < |sec.recs| && sec.recs[k].Rec? && TimedSec(sec)
    ensures TimedSec(Restated(sec, k, st))
  {}

  /** What is said of the times of a log holds of every log alike but for statuses. */
  lemma AlikeTimed(log: seq<Rec>, other: seq<Rec>, last: i32)
    requires Plain(log) == Plain(other) && Increasing(log)
    requires forall x :: 0 <= x < |log| ==> log[x].Rec? && 0 < log[x].time <= last
    ensures |other| == |log| && Increasing(other)
    ensures forall x :: 0 <= x < |other| ==> other[x].Rec? && log[x].Rec? && other[x].time == log[x].time
  {
    assert |Plain(log)| == |Plain(other)|;
    forall x | 0 <= x < |other| ensures other[x].Rec? && other[x].time == log[x].time {
      assert Plain(log)[x] == Plain(other)[x];
    }
  }

  // ------------------------------------------------------------ reopening

  /** What `init` knows after its walk over the sectors. */
  datatype Scan = Scan(failed: bool, cur: Option<nat>, empties: nat, lastEmpty: nat)

  /** The walk of `init` from sector `k` on. */
  function ScanFrom(secs: seq<TSec>, k: nat, s: Scan): Scan
    requires k <= |secs|
    decreases |secs| - k
  {
    if k == |secs| then s
    else if secs[k].Raw? then s.(failed := true)
    else if secs[k].store == Using then
      if s.cur.Some? then s.(failed := true) else ScanFrom(secs, k + 1, s.(cur := Some(k)))
    else if secs[k].store == Empty then
      ScanFrom(secs, k + 1, Scan(s.failed, if s.empties == 0 && s.cur.None? then Some(k) else s.cur, s.empties + 1, k))
    else ScanFrom(secs, k + 1, s)
  }

  function ScanAll(secs: seq<TSec>): Scan {
    ScanFrom(secs, 0, Scan(false, None, 0, 0))
  }

  /** Sector `j` is in use although one before it is in use or empty. */
  predicate SecondUsing(secs: seq<TSec>, i: nat, j: nat) {
    i < j < |secs| && (InStore(secs[i], Using) || InStore(secs[i], Empty)) && InStore(secs[j], Using)
  }

  lemma {:induction false} ScanFailsFrom(secs: seq<TSec>, k: nat, s: Scan)
    requires k <= |secs| && !s.failed && (s.cur.None? ==> s.empties == 0)
    requires s.cur.Some? <==> exists i :: 0 <= i < k && (InStore(secs[i], Using) || InStore(secs[i], Empty))
    ensures ScanFrom(secs, k, s).failed
      <==> (exists i :: k <= i < |secs| && secs[i].Raw?) || (exists i, j :: k <= j && SecondUsing(secs, i, j))
    decreases |secs| - k
  {
    if k < |secs| {
      var sec := secs[k];
      if InStore(sec, Using) && s.cur.Some? {
        var i :| 0 <= i < k && (InStore(secs[i], Using) || InStore(secs[i], Empty));
        assert SecondUsing(secs, i, k);
      } else if InStore(sec, Using) {
        NextScan(secs, k);
        ScanFailsFrom(secs, k + 1, s.(cur := Some(k)));
      } else if InStore(sec, Empty) {
        NextScan(secs, k);
        ScanFailsFrom(secs, k + 1, Scan(s.failed, if s.empties == 0 && s.cur.None? then Some(k) else s.cur, s.empties + 1, k));
      } else if sec.TSec? {
        NextScan(secs, k);
        ScanFailsFrom(secs, k + 1, s);
      }
    }
  }

  lemma NextScan(secs: seq<TSec>, k: nat)
    requires k < |secs| && secs[k].TSec?
    requires InStore(secs[k], Using) ==> forall i :: 0 <= i < k ==> !InStore(secs[i], Using) && !InStore(secs[i], Empty)
    ensures (exists i, j :: k <= j && SecondUsing(secs, i, j)) <==> (exists i, j :: k + 1 <= j && SecondUsing(secs, i, j))
    ensures (exists i :: k <= i < |secs| && secs[i].Raw?) <==> (exists i :: k + 1 <= i < |secs| && secs[i].Raw?)
  {
    if i, j :| k <= j && SecondUsing(secs, i, j) {
      assert k + 1 <= j && SecondUsing(secs, i, j);
    }
  }

  /** Opening takes the sectors for out of order, and formats them all, exactly if one has no header, or one is in use
      behind another that is in use or empty. */
  lemma ScanFails(secs: seq<TSec>)
    ensures ScanAll(secs).failed <==> (exists i :: 0 <= i < |secs| && secs[i].Raw?) || (exists i, j :: SecondUsing(secs, i, j))
  {
    hide ScanFrom, SecondUsing;
    ScanFailsFrom(secs, 0, Scan(false, None, 0, 0));
    if i, j :| SecondUsing(secs, i, j) {
      assert 0 <= j && SecondUsing(secs, i, j);
    }
  }

  /** The oldest sector, as `init` works it out with rollover on. */
  function OldestAfter(s: Scan, n: nat): nat {
    var latest := if s.empties > 0 then s.lastEmpty else if s.cur.Some? then s.cur.value else 0;
    if latest + 1 >= n then 0 else latest + 1
  }

  lemma {:induction false} ScanUnwrapped(ts: Ts, k: nat, s: Scan)
    requires WfTs(ts) && ts.oldest == 0 && k <= |ts.secs| && !s.failed
    requires !InStore(ts.secs[ts.cur], Full)
    requires s.cur == (if k <= ts.cur then None else Some(ts.cur))
    requires s.empties == (if k <= ts.cur then 0 else if InStore(ts.secs[ts.cur], Empty) then k - ts.cur else k - ts.cur - 1)
    requires s.empties > 0 ==> s.lastEmpty == k - 1
    ensures var r := ScanFrom(ts.secs, k, s); var n := |ts.secs|;
      && !r.failed && r.cur == Some(ts.cur)
      && r.empties == (if InStore(ts.secs[ts.cur], Empty) then n - ts.cur else n - ts.cur - 1)
      && (r.empties > 0 ==> r.lastEmpty == n - 1)
    decreases |ts.secs| - k
  {
    hide Packed, WfRec, Room;
    if k < |ts.secs| {
      assert RingPos(0, k, |ts.secs|) == k;
      CurrentStore(ts);
      var step := ts.secs[k];
      if step.store == Using {
        ScanUnwrapped(ts, k + 1, s.(cur := Some(k)));
      } else if step.store == Empty {
        ScanUnwrapped(ts, k + 1, Scan(s.failed, if s.empties == 0 && s.cur.None? then Some(k) else s.cur, s.empties + 1, k));
      } else {
        ScanUnwrapped(ts, k + 1, s);
      }
    }
  }

  lemma {:induction false} ScanWrapped(ts: Ts, k: nat, s: Scan)
    requires WfTs(ts) && Steps(ts.oldest, ts.cur, |ts.secs|) + 1 == |ts.secs| && k <= |ts.secs| && !s.failed
    requires InStore(ts.secs[ts.cur], Using)
    requires s.cur == (if k <= ts.cur then None else Some(ts.cur)) && s.empties == 0
    ensures var r := ScanFrom(ts.secs, k, s); !r.failed && r.cur == Some(ts.cur) && r.empties == 0
    decreases |ts.secs| - k
  {
    hide Packed, WfRec, Room;
    if k < |ts.secs| {
      var j := Steps(ts.oldest, k, |ts.secs|);
      if k == ts.cur {
        ScanWrapped(ts, k + 1, s.(cur := Some(k)));
      } else {
        assert InStore(ts.secs[RingPos(ts.oldest, j, |ts.secs|)], Full);
        ScanWrapped(ts, k + 1, s);
      }
    }
  }

  /** Reopening finds the current and the oldest sector the live database had. */
  lemma ReopenFinds(ts: Ts)
    requires WfTs(ts) && ts.cur < |ts.secs| && !InStore(ts.secs[ts.cur], Full)
    ensures var s := ScanAll(ts.secs);
      !s.failed && s.cur == Some(ts.cur) && OldestAfter(s, |ts.secs|) == ts.oldest
  {
    hide Packed, WfSec;
    var start := Scan(false, None, 0, 0);
    if ts.oldest == 0 {
      CurrentStore(ts);
      ScanUnwrapped(ts, 0, start);
    } else {
      CurrentStore(ts);
      ScanWrapped(ts, 0, start);
      NextIs(ts);
    }
  }

  /** `time` is that of the last complete record, whatever torn ones are behind it; 0 if there is none. */
  predicate LastComplete(recs: seq<Rec>, time: i32) {
    if forall k :: 0 <= k < |recs| ==> recs[k].Torn? then time == 0
    else exists k :: 0 <= k < |recs| && recs[k].Rec? && recs[k].time == time && forall j :: k < j < |recs| ==> recs[j].Torn?
  }

  /** The time that reopening finds: that of the last complete record in the current sector if it is in use,
      that in the header of the sector before an empty one, 0 if there is no such sector. */
  predicate FoundTime(t: Ts, time: i32)
    requires t.cur < |t.secs|
  {
    && (InStore(t.secs[t.cur], Using) ==> LastComplete(t.secs[t.cur].recs, time))
    && (InStore(t.secs[t.cur], Empty) && t.cur == t.oldest ==> time == 0)
    && (InStore(t.secs[t.cur], Empty) && t.cur != t.oldest ==>
          0 < t.cur && t.secs[t.cur - 1].TSec? && EndOf(t.secs[t.cur - 1]).EndAt? && EndOf(t.secs[t.cur - 1]).time == time)
  }

  /** Behind a torn record reopening finds the time of the last append exactly if the sector had a record
      before, or the log was empty. */
  lemma TornTime(a: Ts, room: nat, time: i32)
    requires TimedLog(a) && InStore(a.secs[a.cur], Using) && FoundTime(Push(a, Torn(room)), time)
    ensures time == a.lastTime <==> a.secs[a.cur].recs != [] || Log(a) == []
    ensures a.secs[a.cur].recs == [] ==> time == 0
  {
    hide WfTs, LogFrom, Increasing;
    var recs := a.secs[a.cur].recs;
    assert TimedSec(a.secs[a.cur]);
    var more := recs + [Torn(room)];
    assert Push(a, Torn(room)).secs[a.cur].recs == more;
    if recs != [] {
      ReopenTime(a);
      assert more[|recs| - 1].Rec?;
      var k :| 0 <= k < |more| && more[k].Rec? && more[k].time == time && forall j :: k < j < |more| ==> more[j].Torn?;
      assert k == |recs| - 1;
    } else {
      assert forall k :: 0 <= k < |more| ==> more[k].Torn?;
    }
  }

  /** The time that reopening takes for that of the last record: that of the current sector or, when it is
      empty, that in the header of the sector before it. */
  lemma ReopenTime(ts: Ts)
    requires TimedLog(ts) && ts.cur < |ts.secs| && !InStore(ts.secs[ts.cur], Full)
    requires InStore(ts.secs[ts.cur], Using) ==> ts.secs[ts.cur].recs != []
    ensures InStore(ts.secs[ts.cur], Using) ==>
      var recs := ts.secs[ts.cur].recs; recs[|recs| - 1].Rec? && recs[|recs| - 1].time == ts.lastTime
    ensures InStore(ts.secs[ts.cur], Empty) && ts.cur == ts.oldest ==> ts.lastTime == 0
    ensures InStore(ts.secs[ts.cur], Empty) && ts.cur != ts.oldest ==>
      && 0 < ts.cur && InStore(ts.secs[ts.cur - 1], Full)
      && EndOf(ts.secs[ts.cur - 1]).EndAt? && EndOf(ts.secs[ts.cur - 1]).time == ts.lastTime
  {
    hide Packed, Room, Increasing, TimedSec, WfSec, LogFrom;
    var d, n := Steps(ts.oldest, ts.cur, |ts.secs|), |ts.secs|;
    CurrentStore(ts);
    forall x | d < x < n ensures RecsOf(ts.secs[RingPos(ts.oldest, x, n)]) == [] {
      NotUnused(ts.secs[RingPos(ts.oldest, x, n)], ts.secSize, ts.maxLen);
    }
    if InStore(ts.secs[ts.cur], Using) {
      LastOf(ts.secs, ts.oldest, 0, d);
    } else {
      NotUnused(ts.secs[ts.cur], ts.secSize, ts.maxLen);
      if d == 0 {
        forall x | 0 <= x < n ensures RecsOf(ts.secs[RingPos(ts.oldest, x, n)]) == [] {
          if x == 0 {
            assert RingPos(ts.oldest, 0, n) == ts.cur;
          }
        }
        LogEnds(ts.secs, ts.oldest, 0);
      } else {
        assert RingPos(ts.oldest, d - 1, n) == ts.cur - 1;
        var prev := ts.secs[ts.cur - 1];
        FullEnds(prev, ts.secSize, ts.maxLen);
        assert TimedSec(prev);
        assert RecsOf(ts.secs[RingPos(ts.oldest, d, n)]) == [];
        LastOf(ts.secs, ts.oldest, 0, d - 1);
        FullTime(prev);
      }
    }
  }

  /** A run with rollover on leaves a log that opening finds as it was: its current and its oldest sector. */
  lemma {:induction false} RunReopens(ts: Ts, ops: seq<Op>)
    requires Timed(ts) && ts.rollover && !InStore(ts.secs[ts.cur], Full)
    requires forall x :: 0 <= x < |ops| ==> ops[x].SetRollover? ==> ops[x].on
    ensures WfTs(ts)
    ensures var r, s := Run(ts, ops), ScanAll(Run(ts, ops).secs);
      && Timed(r) && r.rollover && !InStore(r.secs[r.cur], Full)
      && !s.failed && s.cur == Some(r.cur) && OldestAfter(s, |r.secs|) == r.oldest
    decreases |ops|
  {
    hide WfTs, Timed, Do, ScanAll;
    TimedWf(ts);
    TimedCurrent(ts);
    if ops == [] {
      ReopenFinds(ts);
    } else {
      DoTimed(ts, ops[0]);
      TimedCurrent(Do(ts, ops[0]));
      DoShape(ts, ops[0]);
      DoNotFull(ts, ops[0]);
      RunReopens(Do(ts, ops[0]), ops[1..]);
    }
  }

  lemma TimedCurrent(ts: Ts)
    requires Timed(ts)
    ensures ts.cur < |ts.secs|
  {}

  lemma DoNotFull(ts: Ts, op: Op)
    requires WfTs(ts) && ts.cur < |ts.secs| && ts.rollover && !InStore(ts.secs[ts.cur], Full)
    requires Do(ts, op).cur < |Do(ts, op).secs|
    ensures !InStore(Do(ts, op).secs[Do(ts, op).cur], Full)
  {
    hide WfTs, LogFrom, Update, Restated;
    match op {
      case Add(item) => AppendKeeps(ts, item.time, item.blob);
      case Restate(i, k, st) =>
        if Restatable(ts, i, k, st) {
          RestatedHead(ts.secs[i], k, st);
        }
      case SetRollover(on) =>
    }
  }

  lemma FullEnds(sec: TSec, secSize: nat, maxLen: nat)
    requires WfSec(sec, secSize, maxLen) && sec.store == Full
    ensures sec.recs != [] && EndOf(sec).EndAt?
  {
    hide Room;
  }

  lemma FullTime(sec: TSec)
    requires TimedSec(sec) && sec.TSec? && sec.store == Full && sec.recs != [] && EndOf(sec).EndAt?
    ensures sec.recs[|sec.recs| - 1].Rec? && EndOf(sec).time == sec.recs[|sec.recs| - 1].time
  {}
}
