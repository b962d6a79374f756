/** Which records every state of an append keeps. */
module TsStates {
  import opened Bytes
  import opened Sectors
  import opened TsModel
  import opened TsLayout

  /** `g` has the records of `f`, those of sector `i` aside, and perhaps more behind them. */
  ghost predicate Spares(f: seq<TSec>, g: seq<TSec>, i: nat) {
    |g| == |f| && forall k :: 0 <= k < |f| && k != i ==> RecsOf(f[k]) <= RecsOf(g[k])
  }

  /** So does every state logged since `before`. */
  ghost predicate LogSpares(before: seq<seq<TSec>>, after: seq<seq<TSec>>, f: seq<TSec>, i: nat) {
    && |before| <= |after|
    && (forall x :: 0 <= x < |before| ==> after[x] == before[x])
    && (forall x :: |before| <= x < |after| ==> Spares(f, after[x], i))
  }

  lemma SparesSelf(f: seq<TSec>, i: nat)
    ensures Spares(f, f, i)
  {}

  lemma SparesPut(f: seq<TSec>, i: nat, sec: TSec, j: nat)
    requires i < |f| && (i == j || RecsOf(f[i]) <= RecsOf(sec))
    ensures Spares(f, f[i := sec], j)
  {
    hide RecsOf;
  }

  lemma SparesOn(f: seq<TSec>, g: seq<TSec>, h: seq<TSec>, i: nat)
    requires Spares(f, g, i) && Spares(g, h, i)
    ensures Spares(f, h, i)
  {
    hide RecsOf;
  }

  lemma SparesLess(f: seq<TSec>, g: seq<TSec>, i: nat)
    requires Spares(f, g, |f|)
    ensures Spares(f, g, i)
  {}

  lemma LogSparesNone(log: seq<seq<TSec>>, f: seq<TSec>, i: nat)
    ensures LogSpares(log, log, f, i)
  {}

  lemma LogSparesOne(log: seq<seq<TSec>>, f: seq<TSec>, g: seq<TSec>, i: nat)
    requires Spares(f, g, i)
    ensures LogSpares(log, log + [g], f, i)
  {
    hide Spares;
  }

  lemma LogSparesOn(a: seq<seq<TSec>>, b: seq<seq<TSec>>, c: seq<seq<TSec>>, f: seq<TSec>, g: seq<TSec>, i: nat)
    requires LogSpares(a, b, f, i) && Spares(f, g, i) && LogSpares(b, c, g, i)
    ensures LogSpares(a, c, f, i)
  {
    hide Spares;
    forall x | |a| <= x < |c| ensures Spares(f, c[x], i) {
      if x < |b| {
        assert Spares(f, b[x], i);
      } else {
        SparesOn(f, g, c[x], i);
      }
    }
  }

  lemma LogSparesLess(a: seq<seq<TSec>>, b: seq<seq<TSec>>, f: seq<TSec>, i: nat)
    requires LogSpares(a, b, f, |f|)
    ensures LogSpares(a, b, f, i)
  {
    hide Spares;
    forall x | |a| <= x < |b| ensures Spares(f, b[x], i) {
      SparesLess(f, b[x], i);
    }
  }

  /** The sector that an append of `len` bytes formats; none if the current one has room. */
  function GivenUp(ts: Ts, len: nat): nat
    requires ts.cur < |ts.secs|
  {
    if Overflows(ts, len) then Next(ts.cur, |ts.secs|) else |ts.secs|
  }

  /** The image shows a log that has them. */
  ghost predicate ShowsSpared(img: seq<byte>, size: nat, f: seq<TSec>, i: nat) {
    exists g: seq<TSec> :: TsAt(img, g, size) && Spares(f, g, i)
  }

  ghost predicate EachSpares(history: seq<seq<byte>>, size: nat, f: seq<TSec>, i: nat) {
    forall h :: 0 <= h < |history| ==> ShowsSpared(history[h], size, f, i)
  }

  /** The room that a torn record takes from the space left: that of the longest record, or all of it. */
  function Reserved(recs: seq<Rec>, size: nat, maxLen: nat): nat {
    var left := Room(recs, size) - TS_IDX;
    if left < 0 then 0 else if left < maxLen then left else maxLen
  }

  /** `sec` with a torn record behind it. */
  function TornIn(sec: TSec, size: nat, maxLen: nat): TSec
    requires sec.TSec?
  {
    sec.(recs := sec.recs + [Torn(Reserved(sec.recs, size, maxLen))])
  }

  lemma ReservedFits(recs: seq<Rec>, size: nat, maxLen: nat, len: nat)
    requires len <= maxLen && TS_IDX + len <= Room(recs, size)
    ensures len <= Reserved(recs, size, maxLen) && TS_IDX + Reserved(recs, size, maxLen) <= Room(recs, size)
  {}

  lemma TornIs(sec: TSec, size: nat, maxLen: nat)
    requires sec.TSec?
    ensures TornIn(sec, size, maxLen) == sec.(recs := sec.recs + [Torn(Reserved(sec.recs, size, maxLen))])
  {}

  lemma FormatSpares(log: seq<seq<TSec>>, secs: seq<TSec>, i: nat)
    requires i < |secs|
    ensures LogSpares(log, log + [secs[i := Raw]] + [secs[i := Raw]] + [secs[i := FreshSec]], secs, i)
  {
    SparesPut(secs, i, Raw, i);
    SparesPut(secs, i, FreshSec, i);
  }

  lemma EndSpares(log: seq<seq<TSec>>, secs: seq<TSec>, i: nat, first: bool, end: End)
    requires i < |secs| && secs[i].TSec?
    ensures var half := secs[i := WithEnd(secs[i], first, HalfEnd)];
      LogSpares(log, log + [half] + [half] + [half] + [secs[i := WithEnd(secs[i], first, end)]], secs, |secs|)
  {
    SparesPut(secs, i, WithEnd(secs[i], first, HalfEnd), |secs|);
    SparesPut(secs, i, WithEnd(secs[i], first, end), |secs|);
  }

  lemma EndKept(secs: seq<TSec>, i: nat, mid: seq<TSec>)
    requires i < |secs| && secs[i].TSec?
    requires mid == secs || exists first, end :: mid == secs[i := WithEnd(secs[i], first, end)]
    ensures Spares(secs, mid, |secs|)
  {}

  lemma FullSpares(before: seq<seq<TSec>>, log: seq<seq<TSec>>, secs: seq<TSec>, mid: seq<TSec>, i: nat)
    requires LogSpares(before, log, secs, |secs|) && Spares(secs, mid, |secs|) && i < |mid| && mid[i].TSec?
    ensures var g := mid[i := mid[i].(store := Full)]; LogSpares(before, log + [g], secs, |secs|) && Spares(secs, g, |secs|)
  {
    var g := mid[i := mid[i].(store := Full)];
    SparesPut(mid, i, g[i], |secs|);
    SparesOn(secs, mid, g, |secs|);
    LogSparesOne(log, mid, g, |secs|);
    LogSparesOn(before, log, log + [g], secs, mid, |secs|);
  }

  lemma OpenSpares(log: seq<seq<TSec>>, secs: seq<TSec>, i: nat, time: i32)
    requires i < |secs| && secs[i].TSec?
    ensures var sec := secs[i];
      LogSpares(log, log + [secs[i := sec.(store := Using)]] + [secs[i := sec.(store := Using, start := time)]], secs, |secs|)
  {
    SparesPut(secs, i, secs[i].(store := Using), |secs|);
    SparesPut(secs, i, secs[i].(store := Using, start := time), |secs|);
  }

  /** Going on to the next sector and taking it into use costs the records of no other. */
  lemma UpdateSpares(ts: Ts, len: nat, time: i32)
    requires ts.cur < |ts.secs|
    ensures Spares(ts.secs, CloseFor(ts, len).secs, GivenUp(ts, len))
    ensures Spares(ts.secs, Seated(ts, len).secs, GivenUp(ts, len))
    ensures Spares(ts.secs, Update(ts, len, time).ts.secs, GivenUp(ts, len))
  {
    hide Room;
  }

  lemma TornMore(sec: TSec, size: nat, maxLen: nat)
    requires sec.TSec?
    ensures RecsOf(sec) <= RecsOf(TornIn(sec, size, maxLen))
  {
    hide Reserved;
  }

  /** A record being written, and the record written, leave what was there before. */
  lemma PushSpares(before: seq<seq<TSec>>, log: seq<seq<TSec>>, g: seq<TSec>, cur: nat, torn: TSec, full: TSec, i: nat)
    requires cur < |g| && RecsOf(g[cur]) <= RecsOf(torn) && RecsOf(g[cur]) <= RecsOf(full)
    requires |before| < |log| && log[..|before|] == before && log[|log| - 1] == g[cur := full]
    requires forall x :: |before| <= x < |log| - 1 ==> log[x] == g[cur := torn]
    ensures LogSpares(before, log, g, i)
  {
    SparesPut(g, cur, torn, i);
    SparesPut(g, cur, full, i);
    forall x | 0 <= x < |before| ensures log[x] == before[x] {
      assert log[..|before|][x] == before[x];
    }
  }
}
