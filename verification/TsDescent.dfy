/** The descending query, whatever lies behind the records of a sector: exactly when it yields the records in
    the range. */
module TsDescent {
  import opened Bytes
  import opened Sectors
  import opened TsModel
  import opened TsHistory
  import opened TsLayout
  import opened TsQuery
  import opened TsRead

  /** The slot behind the last record of ring step `k`. */
  function AfterStep(mem: seq<byte>, ts: Ts, maxLen: u32, k: nat): Slot
    requires ts.oldest < |ts.secs| && k < |ts.secs|
  {
    var i := RingPos(ts.oldest, k, |ts.secs|);
    After(mem, ts.secs[i], Base(i, ts.secSize), maxLen)
  }

  /** No sector from ring step `a` on that begins in time for a query from `from` down begins before `to`: the
      query does not end there. */
  ghost predicate RunsOn(ts: Ts, a: nat, from: i32, to: i32)
    requires ts.oldest < |ts.secs|
  {
    forall y: nat :: a <= y < |ts.secs| && StepTimes(ts, y) != [] && StepTimes(ts, y)[0] <= from ==> to <= StepTimes(ts, y)[0]
  }

  /** A query from `from` down begins in ring step `k` behind the last record, at a slot that reads as a record
      no later than `from`. */
  ghost predicate MisreadAt(mem: seq<byte>, ts: Ts, maxLen: u32, k: nat, from: i32)
    requires ts.oldest < |ts.secs| && k < |ts.secs|
  {
    var times := StepTimes(ts, k);
    times != [] && times[|times| - 1] < from && Misread(AfterStep(mem, ts, maxLen, k), from)
  }

  /** And this costs the query records in the range, or adds one that is none. */
  ghost predicate Misleads(mem: seq<byte>, ts: Ts, maxLen: u32, k: nat, from: i32, to: i32)
    requires ts.oldest < |ts.secs| && k < |ts.secs|
  {
    var times := StepTimes(ts, k);
    && MisreadAt(mem, ts, maxLen, k, from) && times[0] <= from
    && (to <= times[|times| - 1] || (to <= AfterStep(mem, ts, maxLen, k).time && RunsOn(ts, k + 1, from, to)))
  }

  ghost predicate Misled(mem: seq<byte>, ts: Ts, maxLen: u32, from: i32, to: i32)
    requires ts.oldest < |ts.secs|
  {
    exists k: nat :: k < |ts.secs| && Misleads(mem, ts, maxLen, k, from, to)
  }

  /** `out` is the answer if and only if nothing misled the query. */
  ghost predicate Verdict(out: seq<Tsl>, mem: seq<byte>, ts: Ts, maxLen: u32, from: i32, to: i32)
    requires ts.oldest < |ts.secs|
  {
    TslsAt(out, ts.secs, ts.secSize, maxLen, Reversed<Pos>(QueryAll(ts, to, from))) <==> !Misled(mem, ts, maxLen, from, to)
  }

  // ------------------------------------------------------------ wrong answers

  /** No record has its index slot where `t` was read. */
  predicate Foreign(t: Tsl, secs: seq<TSec>, size: nat) {
    forall i: nat, k: nat :: i < |secs| && k < |RecsOf(secs[i])| ==> t.addrIndex != Base(i, size) + SlotOff(k)
  }

  ghost predicate Spoiled(out: seq<Tsl>, secs: seq<TSec>, size: nat) {
    exists x :: 0 <= x < |out| && Foreign(out[x], secs, size)
  }

  lemma SpoiledIsWrong(out: seq<Tsl>, secs: seq<TSec>, size: nat, maxLen: nat, ps: seq<Pos>)
    requires Spoiled(out, secs, size)
    ensures !TslsAt(out, secs, size, maxLen, ps)
  {
    hide Foreign, TslAt;
    forall x | 0 <= x < |out| && |ps| == |out| && TslAt(out[x], secs, size, maxLen, ps[x]) ensures !Foreign(out[x], secs, size) {
      HasSlot(out[x], secs, size, maxLen, ps[x]);
    }
  }

  lemma HasSlot(t: Tsl, secs: seq<TSec>, size: nat, maxLen: nat, p: Pos)
    requires TslAt(t, secs, size, maxLen, p)
    ensures !Foreign(t, secs, size)
  {
    hide Base, SlotOff, DataOff;
    assert RecsOf(secs[p.sec]) == secs[p.sec].recs;
  }

  lemma SpoiledMore(a: seq<Tsl>, b: seq<Tsl>, secs: seq<TSec>, size: nat)
    requires Spoiled(a, secs, size) || Spoiled(b, secs, size)
    ensures Spoiled(a + b, secs, size)
  {
    hide Foreign;
    if Spoiled(a, secs, size) {
      var x :| 0 <= x < |a| && Foreign(a[x], secs, size);
      assert (a + b)[x] == a[x];
    } else {
      var x :| 0 <= x < |b| && Foreign(b[x], secs, size);
      assert (a + b)[|a| + x] == b[x];
    }
  }

  /** The slot behind the last record of a sector is that of no record. */
  lemma BehindIsForeign(t: Tsl, secs: seq<TSec>, size: nat, maxLen: nat, i: nat)
    requires i < |secs| && (forall x :: 0 <= x < |secs| ==> WfSec(secs[x], size, maxLen))
    requires t.addrIndex == Base(i, size) + SlotOff(|RecsOf(secs[i])|)
    ensures Foreign(t, secs, size)
  {
    hide Base, Room, WfRec;
    forall x: nat, k: nat | x < |secs| && k < |RecsOf(secs[x])| ensures t.addrIndex != Base(x, size) + SlotOff(k) {
      RoomBound(secs[x], size, maxLen);
      RoomBound(secs[i], size, maxLen);
      if x != i {
        BaseApart(i, x, size);
      }
    }
  }

  lemma RoomBound(sec: TSec, size: nat, maxLen: nat)
    requires WfSec(sec, size, maxLen)
    ensures SlotOff(|RecsOf(sec)|) <= size
  {
    hide WfRec;
  }

  // ------------------------------------------------------------ the walk back

  /** The walk back has come to ring step `a`, has what it should have, and has not been stopped. */
  ghost predicate Fine(out: seq<Tsl>, mem: seq<byte>, ts: Ts, maxLen: u32, a: nat, from: i32, to: i32)
    requires ts.oldest < |ts.secs| && a <= |ts.secs|
  {
    && TslsAt(out, ts.secs, ts.secSize, maxLen, Reversed<Pos>(Query(ts.secs, ts.oldest, a, |ts.secs|, to, from)))
    && (forall y: nat :: a <= y < |ts.secs| ==> !Misleads(mem, ts, maxLen, y, from, to))
    && RunsOn(ts, a, from, to)
  }

  lemma FineEnds(out: seq<Tsl>, mem: seq<byte>, ts: Ts, maxLen: u32, from: i32, to: i32)
    requires ts.oldest < |ts.secs| && Fine(out, mem, ts, maxLen, 0, from, to)
    ensures Verdict(out, mem, ts, maxLen, from, to)
  {
    hide TslsAt, Misleads, RunsOn;
  }

  lemma SpoiledEnds(out: seq<Tsl>, mem: seq<byte>, ts: Ts, maxLen: u32, from: i32, to: i32)
    requires ts.oldest < |ts.secs| && Spoiled(out, ts.secs, ts.secSize) && Misled(mem, ts, maxLen, from, to)
    ensures Verdict(out, mem, ts, maxLen, from, to)
  {
    hide TslsAt, Misled, Spoiled;
    SpoiledIsWrong(out, ts.secs, ts.secSize, maxLen, Reversed<Pos>(QueryAll(ts, to, from)));
  }

  /** What ring step `x` adds to the answer. */
  lemma QueryGrows(ts: Ts, x: nat, lo: i32, hi: i32)
    requires ts.oldest < |ts.secs| && x < |ts.secs|
    ensures var i := RingPos(ts.oldest, x, |ts.secs|);
      Reversed<Pos>(Query(ts.secs, ts.oldest, x, |ts.secs|, lo, hi))
      == Reversed<Pos>(Query(ts.secs, ts.oldest, x + 1, |ts.secs|, lo, hi)) + Reversed<Pos>(QuerySec(ts.secs[i], i, lo, hi))
  {
    hide Query, QuerySec, Reversed;
    var i := RingPos(ts.oldest, x, |ts.secs|);
    QueryJoin(ts.secs, ts.oldest, x, x + 1, |ts.secs|, lo, hi);
    QueryOne(ts.secs, ts.oldest, x, lo, hi);
    ReversedJoin(QuerySec(ts.secs[i], i, lo, hi), Query(ts.secs, ts.oldest, x + 1, |ts.secs|, lo, hi));
  }

  /** A sector that the query passes over. */
  lemma FineSkips(out: seq<Tsl>, mem: seq<byte>, ts: Ts, maxLen: u32, x: nat, from: i32, to: i32)
    requires Timed(ts) && ts.oldest < |ts.secs| && x < |ts.secs| && Fine(out, mem, ts, maxLen, x + 1, from, to)
    requires StepTimes(ts, x) == [] || from < StepTimes(ts, x)[0]
    ensures Fine(out, mem, ts, maxLen, x, from, to)
  {
    hide TslsAt, Query, QuerySec, StepTimes, Timed, AfterStep;
    QueryGrows(ts, x, to, from);
    var i := RingPos(ts.oldest, x, |ts.secs|);
    if StepTimes(ts, x) == [] {
      NothingThere(ts, x, to, from);
    } else {
      SkipDown(ts, x, from, to);
    }
    ReversedEmpty();
    assert Reversed<Pos>(Query(ts.secs, ts.oldest, x + 1, |ts.secs|, to, from)) + []
        == Reversed<Pos>(Query(ts.secs, ts.oldest, x + 1, |ts.secs|, to, from));
  }

  lemma NothingThere(ts: Ts, x: nat, lo: i32, hi: i32)
    requires ts.oldest < |ts.secs| && x < |ts.secs| && StepTimes(ts, x) == []
    ensures var i := RingPos(ts.oldest, x, |ts.secs|); QuerySec(ts.secs[i], i, lo, hi) == []
  {
    NoneInSec(ts.secs[RingPos(ts.oldest, x, |ts.secs|)], RingPos(ts.oldest, x, |ts.secs|), lo, hi);
  }

  lemma ReversedEmpty()
    ensures Reversed<Pos>([]) == []
  {}

  /** A sector read rightly. */
  lemma FineGrows(out: seq<Tsl>, part: seq<Tsl>, mem: seq<byte>, ts: Ts, maxLen: u32, x: nat, from: i32, to: i32)
    requires ts.oldest < |ts.secs| && x < |ts.secs| && Fine(out, mem, ts, maxLen, x + 1, from, to)
    requires !MisreadAt(mem, ts, maxLen, x, from)
    requires var i := RingPos(ts.oldest, x, |ts.secs|);
      TslsAt(part, ts.secs, ts.secSize, maxLen, Reversed<Pos>(QuerySec(ts.secs[i], i, to, from)))
    ensures TslsAt(out + part, ts.secs, ts.secSize, maxLen, Reversed<Pos>(Query(ts.secs, ts.oldest, x, |ts.secs|, to, from)))
    ensures forall y: nat :: x <= y < |ts.secs| ==> !Misleads(mem, ts, maxLen, y, from, to)
  {
    hide TslsAt, Query, QuerySec, StepTimes, AfterStep, MisreadAt, RunsOn;
    QueryGrows(ts, x, to, from);
    var i := RingPos(ts.oldest, x, |ts.secs|);
    TslsJoin(out, part, ts.secs, ts.secSize, maxLen, Reversed<Pos>(Query(ts.secs, ts.oldest, x + 1, |ts.secs|, to, from)),
             Reversed<Pos>(QuerySec(ts.secs[i], i, to, from)));
  }

  /** The sectors before one that begins before `to` do not mislead the query: it does not come to them. */
  lemma NoneMisleads(mem: seq<byte>, ts: Ts, maxLen: u32, x: nat, y: nat, from: i32, to: i32)
    requires Timed(ts) && ts.oldest < |ts.secs| && y < x < |ts.secs|
    requires StepTimes(ts, x) != [] && StepTimes(ts, x)[0] < to && StepTimes(ts, x)[0] <= from
    ensures !Misleads(mem, ts, maxLen, y, from, to)
  {
    hide WfTs, LogFrom, AllTimed, Timed;
    var times := StepTimes(ts, y);
    if times != [] {
      RingOrdered(ts, y, |times| - 1, x, 0);
      assert times[|times| - 1] < StepTimes(ts, x)[0];
    }
    assert !RunsOn(ts, y + 1, from, to);
    assert MisreadAt(mem, ts, maxLen, y, from) ==> times != [];
  }

  /** A sector read rightly that ends the query, since it begins before `to`. */
  lemma FineStops(out: seq<Tsl>, mem: seq<byte>, ts: Ts, maxLen: u32, x: nat, from: i32, to: i32)
    requires Timed(ts) && ts.oldest < |ts.secs| && x < |ts.secs|
    requires TslsAt(out, ts.secs, ts.secSize, maxLen, Reversed<Pos>(Query(ts.secs, ts.oldest, x, |ts.secs|, to, from)))
    requires forall y: nat :: x <= y < |ts.secs| ==> !Misleads(mem, ts, maxLen, y, from, to)
    requires StepTimes(ts, x) != [] && StepTimes(ts, x)[0] < to && StepTimes(ts, x)[0] <= from
    ensures Verdict(out, mem, ts, maxLen, from, to)
  {
    hide TslsAt, Query, StepTimes, Misleads, Timed;
    PastStart(ts, x, to, from);
    QueryJoin(ts.secs, ts.oldest, 0, x, |ts.secs|, to, from);
    assert QueryAll(ts, to, from) == Query(ts.secs, ts.oldest, x, |ts.secs|, to, from);
    forall y: nat | y < |ts.secs| ensures !Misleads(mem, ts, maxLen, y, from, to) {
      if y < x {
        NoneMisleads(mem, ts, maxLen, x, y, from, to);
      }
    }
  }

  /** A sector misread so that the walk stops there at once. */
  lemma StopsShort(out: seq<Tsl>, mem: seq<byte>, ts: Ts, maxLen: u32, x: nat, from: i32, to: i32)
    requires Timed(ts) && ts.oldest < |ts.secs| && x < |ts.secs| && to < from && Fine(out, mem, ts, maxLen, x + 1, from, to)
    requires MisreadAt(mem, ts, maxLen, x, from) && StepTimes(ts, x)[0] <= from && AfterStep(mem, ts, maxLen, x).time < to
    ensures Verdict(out, mem, ts, maxLen, from, to)
  {
    hide TslsAt, Query, QuerySec, StepTimes, AfterStep, Timed, RunsOn;
    var times := StepTimes(ts, x);
    var i := RingPos(ts.oldest, x, |ts.secs|);
    QueryGrows(ts, x, to, from);
    StepOrder(ts, x);
    if to <= times[|times| - 1] {
      assert Misleads(mem, ts, maxLen, x, from, to);
      LastIsPicked(ts, x, to, from);
      QueryJoin(ts.secs, ts.oldest, 0, x, |ts.secs|, to, from);
      TooShort(out, ts.secs, ts.secSize, maxLen, Reversed<Pos>(Query(ts.secs, ts.oldest, x + 1, |ts.secs|, to, from)),
               Reversed<Pos>(QueryAll(ts, to, from)));
    } else {
      SecNone(ts, x, to, from);
      ReversedEmpty();
      var ps := Reversed<Pos>(Query(ts.secs, ts.oldest, x + 1, |ts.secs|, to, from));
      assert ps + [] == ps;
      FineStops(out, mem, ts, maxLen, x, from, to);
    }
  }

  lemma StepOrder(ts: Ts, x: nat)
    requires Timed(ts) && ts.oldest < |ts.secs| && x < |ts.secs|
    ensures var times := StepTimes(ts, x); times != [] ==> times[0] <= times[|times| - 1]
    ensures Sorted(StepTimes(ts, x))
  {
    hide Timed;
    SecSorted(ts, x);
  }

  /** The last record of the sector is in the range, so that the sector has something to offer. */
  lemma LastIsPicked(ts: Ts, x: nat, lo: i32, hi: i32)
    requires ts.oldest < |ts.secs| && x < |ts.secs|
    requires var times := StepTimes(ts, x); times != [] && Within(times[|times| - 1], lo, hi)
    ensures var i := RingPos(ts.oldest, x, |ts.secs|); |QuerySec(ts.secs[i], i, lo, hi)| > 0
  {}

  lemma SecNone(ts: Ts, x: nat, lo: i32, hi: i32)
    requires Timed(ts) && ts.oldest < |ts.secs| && x < |ts.secs|
    requires var times := StepTimes(ts, x); times != [] && times[|times| - 1] < lo
    ensures var i := RingPos(ts.oldest, x, |ts.secs|); QuerySec(ts.secs[i], i, lo, hi) == []
  {
    hide Timed;
    var i := RingPos(ts.oldest, x, |ts.secs|);
    StepOrder(ts, x);
    AllBefore(StepTimes(ts, x), lo);
    NoneInSec(ts.secs[i], i, lo, hi);
  }

  lemma TooShort(out: seq<Tsl>, secs: seq<TSec>, size: nat, maxLen: nat, ps: seq<Pos>, all: seq<Pos>)
    requires TslsAt(out, secs, size, maxLen, ps) && |ps| < |all|
    ensures !TslsAt(out, secs, size, maxLen, all)
  {}

  /** A sector misread so that the slot behind its records is yielded. */
  lemma YieldsNone(mem: seq<byte>, ts: Ts, maxLen: u32, x: nat, from: i32, to: i32)
    requires ts.oldest < |ts.secs| && x < |ts.secs| && RunsOn(ts, x + 1, from, to)
    requires MisreadAt(mem, ts, maxLen, x, from) && StepTimes(ts, x)[0] <= from && to <= AfterStep(mem, ts, maxLen, x).time
    ensures Misled(mem, ts, maxLen, from, to)
  {
    hide StepTimes, AfterStep, RunsOn, MisreadAt;
    assert Misleads(mem, ts, maxLen, x, from, to);
  }
}
