/** Queries by time: what the search and the walks over a sector find, and that together they are the
    records of the log in the range. */
module TsQuery {
  import opened Bytes
  import opened Sectors
  import opened TsModel
  import opened TsHistory

  // ------------------------------------------------------------ one sector

  predicate Sorted(times: seq<i32>) {
    forall i, j :: 0 <= i < j < |times| ==> times[i] < times[j]
  }

  /** How many of the times lie before `from`. */
  function LowerBound(times: seq<i32>, from: i32): (n: nat)
    ensures n <= |times| && (n < |times| ==> from <= times[n])
    ensures forall j :: 0 <= j < n ==> times[j] < from
  {
    if times == [] || from <= times[0] then 0
    else
      var n := 1 + LowerBound(times[1..], from);
      assert forall j :: 1 <= j < n ==> times[j] == times[1..][j - 1];
      n
  }

  lemma LowerBoundIs(times: seq<i32>, from: i32, n: nat)
    requires Sorted(times) && n <= |times| && (n < |times| ==> from <= times[n])
    requires forall j :: 0 <= j < n ==> times[j] < from
    ensures LowerBound(times, from) == n
  {}

  /** What an index slot reads as. */
  datatype Slot = Slot(st: TslStatus, time: i32)

  /** What `search_start_tsl_addr` returns, as the number of a slot. For a descending query beyond all
      times it depends on what the slot behind the last record reads as. */
  function SearchIndex(times: seq<i32>, after: Slot, from: i32, to: i32): (r: int)
    ensures -1 <= r <= |times|
  {
    var n := LowerBound(times, from);
    if (n < |times| && times[n] == from) || from <= to then n
    else if n < |times| then n - 1
    else if after.time > from then n - 1
    else n
  }

  predicate Within(t: i32, lo: i32, hi: i32) {
    lo <= t <= hi
  }

  /** The numbers from `a` up to `b` whose times lie in the range. */
  function Picked(times: seq<i32>, lo: i32, hi: i32, a: nat, b: nat): (p: seq<nat>)
    requires a <= b <= |times|
    decreases b - a
  {
    if a == b then [] else Picked(times, lo, hi, a, b - 1) + (if Within(times[b - 1], lo, hi) then [b - 1] else [])
  }

  datatype Walk = Walk(picked: seq<nat>, exit: bool)

  /** The ascending walk over the records from number `r` on. */
  function WalkUp(times: seq<i32>, from: i32, to: i32, r: nat): Walk
    requires r <= |times|
    decreases |times| - r
  {
    if r == |times| then Walk([], false)
    else if Within(times[r], from, to) then
      var w := WalkUp(times, from, to, r + 1);
      Walk([r] + w.picked, w.exit)
    else Walk([], true)
  }

  /** The descending walk from slot `r` down; slot `|times|` is the one behind the last record. */
  function WalkDown(times: seq<i32>, after: Slot, from: i32, to: i32, r: nat): Walk
    requires r <= |times|
  {
    var slot := if r == |times| then after else Slot(Write, times[r]);
    if slot.st == TslStatus.Unused then
      if r == 0 then Walk([], false) else WalkDown(times, after, from, to, r - 1)
    else if Within(slot.time, to, from) then
      if r == 0 then Walk([r], false)
      else
        var w := WalkDown(times, after, from, to, r - 1);
        Walk([r] + w.picked, w.exit)
    else Walk([], true)
  }

  lemma WalkDownIs(times: seq<i32>, after: Slot, from: i32, to: i32, r: nat)
    requires r <= |times|
    ensures var slot := if r == |times| then after else Slot(Write, times[r]); var w := WalkDown(times, after, from, to, r);
      && (slot.st != TslStatus.Unused && !Within(slot.time, to, from) ==> w == Walk([], true))
      && (slot.st == TslStatus.Unused || Within(slot.time, to, from) ==>
            var here := if slot.st == TslStatus.Unused then [] else [r];
            if r == 0 then w == Walk(here, false)
            else w == Walk(here + WalkDown(times, after, from, to, r - 1).picked, WalkDown(times, after, from, to, r - 1).exit))
  {}

  function Reversed<T>(s: seq<T>): (r: seq<T>)
    ensures |r| == |s|
  {
    if s == [] then [] else [s[|s| - 1]] + Reversed(s[..|s| - 1])
  }

  lemma {:induction false} ReversedJoin<T>(a: seq<T>, b: seq<T>)
    ensures Reversed(a + b) == Reversed(b) + Reversed(a)
    decreases |b|
  {
    if b == [] {
      assert a + b == a;
    } else {
      assert (a + b)[..|a + b| - 1] == a + b[..|b| - 1];
      ReversedJoin(a, b[..|b| - 1]);
      assert (a + b)[|a + b| - 1] == b[|b| - 1];
      assert Reversed(a + b) == [b[|b| - 1]] + Reversed(a + b[..|b| - 1]);
      assert Reversed(b) == [b[|b| - 1]] + Reversed(b[..|b| - 1]);
    }
  }

  lemma {:induction false} PickedNone(times: seq<i32>, lo: i32, hi: i32, a: nat, b: nat)
    requires a <= b <= |times| && forall j :: a <= j < b ==> !Within(times[j], lo, hi)
    ensures Picked(times, lo, hi, a, b) == []
    decreases b - a
  {
    if a < b {
      PickedNone(times, lo, hi, a, b - 1);
    }
  }

  lemma {:induction false} PickedJoin(times: seq<i32>, lo: i32, hi: i32, a: nat, m: nat, b: nat)
    requires a <= m <= b <= |times|
    ensures Picked(times, lo, hi, a, b) == Picked(times, lo, hi, a, m) + Picked(times, lo, hi, m, b)
    decreases b - m
  {
    if m < b {
      PickedJoin(times, lo, hi, a, m, b - 1);
    }
  }

  /** The ascending walk from the first time not before `from` picks the times in the range. */
  lemma {:induction false} WalkUpPicks(times: seq<i32>, from: i32, to: i32, r: nat)
    requires Sorted(times) && r <= |times| && forall j :: r <= j < |times| ==> from <= times[j]
    ensures var w := WalkUp(times, from, to, r);
      && w.picked == Picked(times, from, to, r, |times|)
      && (w.exit <==> exists j :: r <= j < |times| && times[j] > to)
    decreases |times| - r
  {
    if r < |times| {
      if Within(times[r], from, to) {
        WalkUpPicks(times, from, to, r + 1);
        PickedJoin(times, from, to, r, r + 1, |times|);
        assert Picked(times, from, to, r, r + 1) == Picked(times, from, to, r, r) + [r];
      } else {
        PickedNone(times, from, to, r, |times|);
      }
    }
  }

  /** Of an ascending query a sector yields just the records in the range. */
  lemma SectorUp(times: seq<i32>, after: Slot, from: i32, to: i32)
    requires Sorted(times) && times != [] && from <= to && from <= times[|times| - 1]
    ensures var r := SearchIndex(times, after, from, to);
      && 0 <= r < |times|
      && var w := WalkUp(times, from, to, r);
      && w.picked == Picked(times, from, to, 0, |times|)
      && (w.exit ==> times[|times| - 1] > to)
      && (!w.exit ==> times[|times| - 1] <= to)
  {
    var n := LowerBound(times, from);
    assert n < |times|;
    WalkUpPicks(times, from, to, n);
    PickedNone(times, from, to, 0, n);
    PickedJoin(times, from, to, 0, n, |times|);
  }

  /** The descending walk from a record whose time is not behind `from` picks the times in the range. */
  lemma {:induction false} WalkDownPicks(times: seq<i32>, after: Slot, from: i32, to: i32, r: nat)
    requires Sorted(times) && r < |times| && times[r] <= from
    ensures var w := WalkDown(times, after, from, to, r);
      && w.picked == Reversed<nat>(Picked(times, to, from, 0, r + 1))
      && (w.exit <==> times[0] < to)
  {
    assert Picked(times, to, from, r, r + 1) == Picked(times, to, from, r, r) + (if Within(times[r], to, from) then [r] else []);
    PickedJoin(times, to, from, 0, r, r + 1);
    if Within(times[r], to, from) {
      assert Reversed([r]) == [r] + Reversed([r][..0]);
      ReversedJoin(Picked(times, to, from, 0, r), [r]);
      if r > 0 {
        WalkDownPicks(times, after, from, to, r - 1);
      } else {
        assert Picked(times, to, from, 0, 0) == [];
      }
    } else {
      PickedNone(times, to, from, 0, r + 1);
    }
  }

  /** The slot behind the last record is taken for a record no later than `from`. */
  predicate Misread(after: Slot, from: i32) {
    after.st != TslStatus.Unused && after.time <= from
  }

  /** A descending query yields just the records in the range, exactly unless it begins behind the last
      record, the slot there is misread, and either that slot or the last record lies in the range. */
  lemma SectorDown(times: seq<i32>, after: Slot, from: i32, to: i32)
    requires Sorted(times) && times != [] && to < from && times[0] <= from
    ensures var r := SearchIndex(times, after, from, to);
      && 0 <= r <= |times|
      && var w := WalkDown(times, after, from, to, r);
      var last := times[|times| - 1];
      && (w.picked == Reversed<nat>(Picked(times, to, from, 0, |times|))
          <==> !(last < from && Misread(after, from) && (to <= after.time || to <= last)))
      && (!(last < from && Misread(after, from)) ==> (w.exit <==> times[0] < to))
  {
    hide SearchIndex, WalkDown, Picked, Reversed;
    if times[|times| - 1] < from && Misread(after, from) {
      MisreadDown(times, after, from, to);
    } else {
      ReadDown(times, after, from, to);
    }
  }

  lemma ReadDown(times: seq<i32>, after: Slot, from: i32, to: i32)
    requires Sorted(times) && times != [] && to < from && times[0] <= from
    requires !(times[|times| - 1] < from && Misread(after, from))
    ensures var r := SearchIndex(times, after, from, to);
      && 0 <= r <= |times|
      && var w := WalkDown(times, after, from, to, r);
      && w.picked == Reversed<nat>(Picked(times, to, from, 0, |times|))
      && (w.exit <==> times[0] < to)
  {
    hide Picked, Reversed, WalkDown;
    var n, m := LowerBound(times, from), |times|;
    var r := SearchIndex(times, after, from, to);
    var s: nat := if n < m && times[n] == from then n else n - 1;
    assert s < m && times[s] <= from;
    WalkDownPicks(times, after, from, to, s);
    PickedNone(times, to, from, s + 1, m);
    PickedJoin(times, to, from, 0, s + 1, m);
    assert Picked(times, to, from, 0, m) == Picked(times, to, from, 0, s + 1);
    if r != s {
      assert r == m == s + 1 && after.st == TslStatus.Unused;
      WalkDownSkips(times, after, from, to);
    }
  }

  lemma WalkDownSkips(times: seq<i32>, after: Slot, from: i32, to: i32)
    requires times != [] && after.st == TslStatus.Unused
    ensures WalkDown(times, after, from, to, |times|) == WalkDown(times, after, from, to, |times| - 1)
  {}

  lemma SearchBelow(times: seq<i32>, after: Slot, from: i32, to: i32)
    requires Sorted(times) && times != [] && to < from && times[0] <= from
    ensures 0 <= SearchIndex(times, after, from, to) <= |times|
  {
    if LowerBound(times, from) == 0 {
      assert times[0] == from;
    }
  }

  /** The walk from a slot that is misread. */
  lemma MisreadWalk(times: seq<i32>, after: Slot, from: i32, to: i32)
    requires Sorted(times) && times != [] && to < from && times[|times| - 1] < from && Misread(after, from)
    ensures SearchIndex(times, after, from, to) == |times|
    ensures var w := WalkDown(times, after, from, to, |times|);
      if to <= after.time then |w.picked| > 0 && w.picked[0] == |times| else w == Walk([], true)
  {
    hide Sorted;
    LowerBoundIs(times, from, |times|) by { AllBefore(times, from); }
  }

  /** What becomes of a descending query when the slot behind the last record is misread. */
  lemma MisreadDown(times: seq<i32>, after: Slot, from: i32, to: i32)
    requires Sorted(times) && times != [] && to < from && times[|times| - 1] < from && Misread(after, from)
    ensures var r := SearchIndex(times, after, from, to); var last := times[|times| - 1];
      && r == |times|
      && (WalkDown(times, after, from, to, r).picked == Reversed<nat>(Picked(times, to, from, 0, |times|))
          <==> !(to <= after.time || to <= last))
  {
    hide Reversed, Sorted;
    var m := |times|;
    LowerBoundIs(times, from, m) by { AllBefore(times, from); }
    var wanted := Reversed<nat>(Picked(times, to, from, 0, m));
    PickedBelow(times, to, from, 0, m);
    ReversedBelow(Picked(times, to, from, 0, m), m);
    if Within(after.time, to, from) {
      assert WalkDown(times, after, from, to, m).picked[0] == m;
      assert wanted != [] ==> wanted[0] < m;
    } else if to <= times[m - 1] {
      assert |Picked(times, to, from, 0, m)| > 0;
    } else {
      PickedNone(times, to, from, 0, m) by { AllBefore(times, to); }
    }
  }

  lemma AllBefore(times: seq<i32>, from: i32)
    requires Sorted(times) && times != [] && times[|times| - 1] < from
    ensures forall j :: 0 <= j < |times| ==> times[j] < from
  {}

  lemma {:induction false} PickedBelow(times: seq<i32>, lo: i32, hi: i32, a: nat, b: nat)
    requires a <= b <= |times|
    ensures forall x :: 0 <= x < |Picked(times, lo, hi, a, b)| ==> a <= Picked(times, lo, hi, a, b)[x] < b
    decreases b - a
  {
    if a < b {
      PickedBelow(times, lo, hi, a, b - 1);
    }
  }

  lemma {:induction false} ReversedBelow(s: seq<nat>, b: nat)
    requires forall x :: 0 <= x < |s| ==> s[x] < b
    ensures forall x :: 0 <= x < |Reversed<nat>(s)| ==> Reversed<nat>(s)[x] < b
    decreases |s|
  {
    if s != [] {
      ReversedBelow(s[..|s| - 1], b);
    }
  }

  // ------------------------------------------------------------ the ring

  /** The place of a record: its sector and its number there. */
  datatype Pos = Pos(sec: nat, k: nat)

  function TimesOf(sec: TSec): (t: seq<i32>)
    ensures |t| == |RecsOf(sec)|
  {
    var recs := RecsOf(sec);
    seq(|recs|, k requires 0 <= k < |recs| => if recs[k].Rec? then recs[k].time else 0)
  }

  function Placed(i: nat, picked: seq<nat>): (ps: seq<Pos>)
    ensures |ps| == |picked| && forall x :: 0 <= x < |ps| ==> ps[x] == Pos(i, picked[x])
  {
    seq(|picked|, x requires 0 <= x < |picked| => Pos(i, picked[x]))
  }

  lemma {:induction false} PlacedReversed(i: nat, picked: seq<nat>)
    ensures Placed(i, Reversed<nat>(picked)) == Reversed<Pos>(Placed(i, picked))
    decreases |picked|
  {
    if picked != [] {
      var rest := picked[..|picked| - 1];
      PlacedReversed(i, rest);
      assert Placed(i, picked)[..|picked| - 1] == Placed(i, rest);
    }
  }

  function QuerySec(sec: TSec, i: nat, lo: i32, hi: i32): seq<Pos> {
    Placed(i, Picked(TimesOf(sec), lo, hi, 0, |TimesOf(sec)|))
  }

  /** The records in the range among ring steps `a` up to `b`, in the order of the log. */
  function Query(secs: seq<TSec>, start: nat, a: nat, b: nat, lo: i32, hi: i32): seq<Pos>
    requires start < |secs| && a <= b <= |secs|
    decreases b - a
  {
    if a == b then []
    else
      var i := RingPos(start, b - 1, |secs|);
      Query(secs, start, a, b - 1, lo, hi) + QuerySec(secs[i], i, lo, hi)
  }

  lemma {:induction false} QueryJoin(secs: seq<TSec>, start: nat, a: nat, m: nat, b: nat, lo: i32, hi: i32)
    requires start < |secs| && a <= m <= b <= |secs|
    ensures Query(secs, start, a, b, lo, hi) == Query(secs, start, a, m, lo, hi) + Query(secs, start, m, b, lo, hi)
    decreases b - m
  {
    hide QuerySec;
    if m < b {
      QueryJoin(secs, start, a, m, b - 1, lo, hi);
    }
  }

  lemma QueryOne(secs: seq<TSec>, start: nat, k: nat, lo: i32, hi: i32)
    requires start < |secs| && k < |secs|
    ensures var i := RingPos(start, k, |secs|); Query(secs, start, k, k + 1, lo, hi) == QuerySec(secs[i], i, lo, hi)
  {
    hide QuerySec;
    assert Query(secs, start, k, k, lo, hi) == [];
  }

  predicate NoneWithin(sec: TSec, lo: i32, hi: i32) {
    forall j :: 0 <= j < |TimesOf(sec)| ==> !Within(TimesOf(sec)[j], lo, hi)
  }

  lemma {:induction false} QueryNone(secs: seq<TSec>, start: nat, a: nat, b: nat, lo: i32, hi: i32)
    requires start < |secs| && a <= b <= |secs|
    requires forall x :: a <= x < b ==> NoneWithin(secs[RingPos(start, x, |secs|)], lo, hi)
    ensures Query(secs, start, a, b, lo, hi) == []
    decreases b - a
  {
    hide NoneWithin, QuerySec;
    if a < b {
      QueryNone(secs, start, a, b - 1, lo, hi);
      NoneInSec(secs[RingPos(start, b - 1, |secs|)], RingPos(start, b - 1, |secs|), lo, hi);
    }
  }

  lemma NoneInSec(sec: TSec, i: nat, lo: i32, hi: i32)
    requires NoneWithin(sec, lo, hi)
    ensures QuerySec(sec, i, lo, hi) == []
  {
    PickedNone(TimesOf(sec), lo, hi, 0, |TimesOf(sec)|);
  }

  // ------------------------------------------------------------ queries and the log

  function FilterLog(log: seq<Rec>, lo: i32, hi: i32): seq<Rec> {
    if log == [] then []
    else
      var last := log[|log| - 1];
      FilterLog(log[..|log| - 1], lo, hi) + (if last.Rec? && Within(last.time, lo, hi) then [last] else [])
  }

  lemma {:induction false} FilterJoin(a: seq<Rec>, b: seq<Rec>, lo: i32, hi: i32)
    ensures FilterLog(a + b, lo, hi) == FilterLog(a, lo, hi) + FilterLog(b, lo, hi)
    decreases |b|
  {
    if b == [] {
      assert a + b == a;
    } else {
      assert (a + b)[..|a + b| - 1] == a + b[..|b| - 1];
      FilterJoin(a, b[..|b| - 1], lo, hi);
    }
  }

  predicate At(secs: seq<TSec>, p: Pos) {
    p.sec < |secs| && secs[p.sec].TSec? && p.k < |secs[p.sec].recs|
  }

  /** The records at the places `ps`. */
  function RecsAtAll(secs: seq<TSec>, ps: seq<Pos>): (r: seq<Rec>)
    requires forall x :: 0 <= x < |ps| ==> At(secs, ps[x])
    ensures |r| == |ps|
  {
    seq(|ps|, x requires 0 <= x < |ps| && At(secs, ps[x]) => secs[ps[x].sec].recs[ps[x].k])
  }

  lemma {:induction false} PickedFilters(secs: seq<TSec>, i: nat, lo: i32, hi: i32, b: nat)
    requires i < |secs| && secs[i].TSec? && b <= |secs[i].recs| && forall k :: 0 <= k < |secs[i].recs| ==> secs[i].recs[k].Rec?
    ensures var ps := Placed(i, Picked(TimesOf(secs[i]), lo, hi, 0, b));
      && (forall x :: 0 <= x < |ps| ==> At(secs, ps[x]))
      && RecsAtAll(secs, ps) == FilterLog(secs[i].recs[..b], lo, hi)
    decreases b
  {
    if b > 0 {
      PickedFilters(secs, i, lo, hi, b - 1);
      assert secs[i].recs[..b][..b - 1] == secs[i].recs[..b - 1];
      var was, now := Placed(i, Picked(TimesOf(secs[i]), lo, hi, 0, b - 1)), Placed(i, Picked(TimesOf(secs[i]), lo, hi, 0, b));
      if Within(secs[i].recs[b - 1].time, lo, hi) {
        assert now == was + [Pos(i, b - 1)];
        assert RecsAtAll(secs, now) == RecsAtAll(secs, was) + [secs[i].recs[b - 1]];
      } else {
        assert now == was;
      }
    }
  }

  lemma SecFilters(secs: seq<TSec>, i: nat, lo: i32, hi: i32)
    requires i < |secs| && forall k :: 0 <= k < |RecsOf(secs[i])| ==> RecsOf(secs[i])[k].Rec?
    ensures var ps := QuerySec(secs[i], i, lo, hi);
      && (forall x :: 0 <= x < |ps| ==> At(secs, ps[x]))
      && RecsAtAll(secs, ps) == FilterLog(RecsOf(secs[i]), lo, hi)
  {
    if secs[i].TSec? {
      assert RecsOf(secs[i]) == secs[i].recs;
      PickedFilters(secs, i, lo, hi, |secs[i].recs|);
      assert secs[i].recs[..|secs[i].recs|] == secs[i].recs;
    }
  }

  lemma {:induction false} QueryFilters(secs: seq<TSec>, start: nat, a: nat, lo: i32, hi: i32)
    requires start < |secs| && a <= |secs| && forall x :: 0 <= x < |LogFrom(secs, start, a)| ==> LogFrom(secs, start, a)[x].Rec?
    ensures var ps := Query(secs, start, a, |secs|, lo, hi);
      && (forall x :: 0 <= x < |ps| ==> At(secs, ps[x]))
      && RecsAtAll(secs, ps) == FilterLog(LogFrom(secs, start, a), lo, hi)
    decreases |secs| - a
  {
    hide QuerySec, RecsOf, At;
    if a < |secs| {
      hide Query, FilterLog, LogFrom, RecsAtAll;
      LogStep(secs, start, a);
      QueryFilters(secs, start, a + 1, lo, hi);
      FiltersStep(secs, start, a, lo, hi);
    }
  }

  lemma LogStep(secs: seq<TSec>, start: nat, a: nat)
    requires start < |secs| && a < |secs|
    requires forall x :: 0 <= x < |LogFrom(secs, start, a)| ==> LogFrom(secs, start, a)[x].Rec?
    ensures var recs := RecsOf(secs[RingPos(start, a, |secs|)]);
      && LogFrom(secs, start, a) == recs + LogFrom(secs, start, a + 1)
      && forall k :: 0 <= k < |recs| ==> recs[k].Rec?
    ensures var log := LogFrom(secs, start, a + 1); forall x :: 0 <= x < |log| ==> log[x].Rec?
  {
    hide RecsOf;
    var recs, log := RecsOf(secs[RingPos(start, a, |secs|)]), LogFrom(secs, start, a + 1);
    assert LogFrom(secs, start, a) == recs + log;
    forall x | 0 <= x < |log| ensures log[x].Rec? {
      assert log[x] == LogFrom(secs, start, a)[|recs| + x];
    }
    forall k | 0 <= k < |recs| ensures recs[k].Rec? {
      assert recs[k] == LogFrom(secs, start, a)[k];
    }
  }

  lemma FiltersStep(secs: seq<TSec>, start: nat, a: nat, lo: i32, hi: i32)
    requires start < |secs| && a < |secs|
    requires var recs := RecsOf(secs[RingPos(start, a, |secs|)]);
      && LogFrom(secs, start, a) == recs + LogFrom(secs, start, a + 1)
      && forall k :: 0 <= k < |recs| ==> recs[k].Rec?
    requires var q := Query(secs, start, a + 1, |secs|, lo, hi);
      && (forall x :: 0 <= x < |q| ==> At(secs, q[x]))
      && RecsAtAll(secs, q) == FilterLog(LogFrom(secs, start, a + 1), lo, hi)
    ensures var ps := Query(secs, start, a, |secs|, lo, hi);
      && (forall x :: 0 <= x < |ps| ==> At(secs, ps[x]))
      && RecsAtAll(secs, ps) == FilterLog(LogFrom(secs, start, a), lo, hi)
  {
    hide QuerySec, RecsOf, At, Query, FilterLog, LogFrom, RecsAtAll;
    var i := RingPos(start, a, |secs|);
    SecFilters(secs, i, lo, hi);
    QueryJoin(secs, start, a, a + 1, |secs|, lo, hi);
    QueryOne(secs, start, a, lo, hi);
    FilterJoin(RecsOf(secs[i]), LogFrom(secs, start, a + 1), lo, hi);
    RecsJoin(secs, QuerySec(secs[i], i, lo, hi), Query(secs, start, a + 1, |secs|, lo, hi));
  }

  lemma RecsJoin(secs: seq<TSec>, p: seq<Pos>, q: seq<Pos>)
    requires (forall x :: 0 <= x < |p| ==> At(secs, p[x])) && forall x :: 0 <= x < |q| ==> At(secs, q[x])
    ensures forall x :: 0 <= x < |p + q| ==> At(secs, (p + q)[x])
    ensures RecsAtAll(secs, p + q) == RecsAtAll(secs, p) + RecsAtAll(secs, q)
  {
    hide At;
  }

  /** All records in the range, in the order of the log. */
  function QueryAll(ts: Ts, lo: i32, hi: i32): seq<Pos>
    requires ts.oldest < |ts.secs|
  {
    Query(ts.secs, ts.oldest, 0, |ts.secs|, lo, hi)
  }

  /** They are the log filtered to the range. */
  lemma QueryIsFilter(ts: Ts, lo: i32, hi: i32)
    requires Timed(ts)
    ensures ts.oldest < |ts.secs|
    ensures forall x :: 0 <= x < |QueryAll(ts, lo, hi)| ==> At(ts.secs, QueryAll(ts, lo, hi)[x])
    ensures RecsAtAll(ts.secs, QueryAll(ts, lo, hi)) == FilterLog(Log(ts), lo, hi)
  {
    hide WfTs, LogFrom, AllTimed, Query;
    QueryFilters(ts.secs, ts.oldest, 0, lo, hi);
  }

  // ------------------------------------------------------------ order around the ring

  /** Where the records of ring step `k` begin in the log. */
  lemma {:induction false} LogTail(secs: seq<TSec>, start: nat, k: nat)
    requires start < |secs| && k <= |secs|
    ensures var off := |LogFrom(secs, start, 0)| - |LogFrom(secs, start, k)|;
      0 <= off && LogFrom(secs, start, 0)[off..] == LogFrom(secs, start, k)
    decreases k
  {
    hide RecsOf;
    if k > 0 {
      LogTail(secs, start, k - 1);
      assert LogFrom(secs, start, k - 1) == RecsOf(secs[RingPos(start, k - 1, |secs|)]) + LogFrom(secs, start, k);
    }
  }

  lemma LogAt(secs: seq<TSec>, start: nat, k: nat, j: nat)
    requires start < |secs| && k < |secs| && j < |RecsOf(secs[RingPos(start, k, |secs|)])|
    ensures var off := |LogFrom(secs, start, 0)| - |LogFrom(secs, start, k)|;
      0 <= off && off + j < |LogFrom(secs, start, 0)| - |LogFrom(secs, start, k + 1)|
      && LogFrom(secs, start, 0)[off + j] == RecsOf(secs[RingPos(start, k, |secs|)])[j]
  {
    hide RecsOf;
    LogTail(secs, start, k);
    LogTail(secs, start, k + 1);
    var off := |LogFrom(secs, start, 0)| - |LogFrom(secs, start, k)|;
    assert LogFrom(secs, start, k) == RecsOf(secs[RingPos(start, k, |secs|)]) + LogFrom(secs, start, k + 1);
    assert LogFrom(secs, start, 0)[off..][j] == LogFrom(secs, start, k)[j];
  }

  lemma {:induction false} LogShrinks(secs: seq<TSec>, start: nat, j: nat, k: nat)
    requires start < |secs| && j <= k <= |secs|
    ensures |LogFrom(secs, start, k)| <= |LogFrom(secs, start, j)|
    decreases k - j
  {
    if j < k {
      LogShrinks(secs, start, j + 1, k);
    }
  }

  /** Along the ring times increase. */
  lemma RingOrdered(ts: Ts, x: nat, i: nat, y: nat, j: nat)
    requires Timed(ts) && x <= y < |ts.secs| && (x < y || i < j)
    requires i < |RecsOf(ts.secs[RingPos(ts.oldest, x, |ts.secs|)])| && j < |RecsOf(ts.secs[RingPos(ts.oldest, y, |ts.secs|)])|
    ensures TimesOf(ts.secs[RingPos(ts.oldest, x, |ts.secs|)])[i] < TimesOf(ts.secs[RingPos(ts.oldest, y, |ts.secs|)])[j]
  {
    hide WfTs, LogFrom, AllTimed;
    LogAt(ts.secs, ts.oldest, x, i);
    LogAt(ts.secs, ts.oldest, y, j);
    if x < y {
      LogShrinks(ts.secs, ts.oldest, x + 1, y);
    }
  }

  lemma SecSorted(ts: Ts, x: nat)
    requires Timed(ts) && x < |ts.secs|
    ensures Sorted(TimesOf(ts.secs[RingPos(ts.oldest, x, |ts.secs|)]))
  {
    hide WfTs, LogFrom, AllTimed, Timed;
    TimedRing(ts);
    var times := TimesOf(ts.secs[RingPos(ts.oldest, x, |ts.secs|)]);
    forall i, j | 0 <= i < j < |times| ensures times[i] < times[j] {
      RingOrdered(ts, x, i, x, j);
    }
  }

  /** The times of ring step `k`. */
  function StepTimes(ts: Ts, k: nat): seq<i32>
    requires ts.oldest < |ts.secs| && k < |ts.secs|
  {
    TimesOf(ts.secs[RingPos(ts.oldest, k, |ts.secs|)])
  }

  lemma NoneAfter(ts: Ts, k: nat, x: nat, lo: i32, hi: i32)
    requires Timed(ts) && ts.oldest < |ts.secs| && k < x < |ts.secs|
    requires var times := StepTimes(ts, k); times != [] && times[|times| - 1] > hi
    ensures NoneWithin(ts.secs[RingPos(ts.oldest, x, |ts.secs|)], lo, hi)
  {
    hide WfTs, LogFrom, AllTimed, Timed;
    var times, later := StepTimes(ts, k), StepTimes(ts, x);
    forall j | 0 <= j < |later| ensures !Within(later[j], lo, hi) {
      RingOrdered(ts, k, |times| - 1, x, j);
    }
  }

  lemma NoneBefore(ts: Ts, k: nat, x: nat, lo: i32, hi: i32)
    requires Timed(ts) && ts.oldest < |ts.secs| && x < k < |ts.secs|
    requires var times := StepTimes(ts, k); times != [] && times[0] < lo
    ensures NoneWithin(ts.secs[RingPos(ts.oldest, x, |ts.secs|)], lo, hi)
  {
    hide WfTs, LogFrom, AllTimed, Timed;
    var earlier := StepTimes(ts, x);
    forall j | 0 <= j < |earlier| ensures !Within(earlier[j], lo, hi) {
      RingOrdered(ts, x, j, k, 0);
    }
  }

  /** The sectors behind one whose last time is past `hi` have nothing in the range. */
  lemma PastEnd(ts: Ts, k: nat, lo: i32, hi: i32)
    requires Timed(ts) && ts.oldest < |ts.secs| && k < |ts.secs|
    requires var times := StepTimes(ts, k); times != [] && times[|times| - 1] > hi
    ensures Query(ts.secs, ts.oldest, k + 1, |ts.secs|, lo, hi) == []
  {
    hide Timed, NoneWithin, StepTimes, Query;
    forall x | k + 1 <= x < |ts.secs| ensures NoneWithin(ts.secs[RingPos(ts.oldest, x, |ts.secs|)], lo, hi) {
      NoneAfter(ts, k, x, lo, hi);
    }
    QueryNone(ts.secs, ts.oldest, k + 1, |ts.secs|, lo, hi);
  }

  /** The sectors before one whose first time is ahead of `lo` have nothing in the range. */
  lemma PastStart(ts: Ts, k: nat, lo: i32, hi: i32)
    requires Timed(ts) && ts.oldest < |ts.secs| && k < |ts.secs|
    requires var times := StepTimes(ts, k); times != [] && times[0] < lo
    ensures Query(ts.secs, ts.oldest, 0, k, lo, hi) == []
  {
    hide Timed, NoneWithin, StepTimes, Query;
    forall x | 0 <= x < k ensures NoneWithin(ts.secs[RingPos(ts.oldest, x, |ts.secs|)], lo, hi) {
      NoneBefore(ts, k, x, lo, hi);
    }
    QueryNone(ts.secs, ts.oldest, 0, k, lo, hi);
  }

  lemma TimedRing(ts: Ts)
    requires Timed(ts)
    ensures ts.oldest < |ts.secs| && ts.cur < |ts.secs|
  {}

  // ------------------------------------------------------------ all records

  /** The places of the records of one sector. */
  function PlacesIn(sec: TSec, i: nat): (ps: seq<Pos>)
    ensures |ps| == |RecsOf(sec)| && forall k :: 0 <= k < |ps| ==> ps[k] == Pos(i, k)
  {
    seq(|RecsOf(sec)|, k requires 0 <= k => Pos(i, k))
  }

  /** The places of the records among ring steps `a` up to `b`, in the order of the log. */
  function Places(secs: seq<TSec>, start: nat, a: nat, b: nat): seq<Pos>
    requires start < |secs| && a <= b <= |secs|
    decreases b - a
  {
    if a == b then []
    else Places(secs, start, a, b - 1) + PlacesIn(secs[RingPos(start, b - 1, |secs|)], RingPos(start, b - 1, |secs|))
  }

  lemma {:induction false} PlacesJoin(secs: seq<TSec>, start: nat, a: nat, m: nat, b: nat)
    requires start < |secs| && a <= m <= b <= |secs|
    ensures Places(secs, start, a, b) == Places(secs, start, a, m) + Places(secs, start, m, b)
    decreases b - m
  {
    hide PlacesIn;
    if m < b {
      PlacesJoin(secs, start, a, m, b - 1);
    }
  }

  lemma PlacesOne(secs: seq<TSec>, start: nat, k: nat)
    requires start < |secs| && k < |secs|
    ensures var i := RingPos(start, k, |secs|); Places(secs, start, k, k + 1) == PlacesIn(secs[i], i)
  {
    hide PlacesIn;
    assert Places(secs, start, k, k) == [];
  }

  lemma {:induction false} PlacesNone(secs: seq<TSec>, start: nat, a: nat, b: nat)
    requires start < |secs| && a <= b <= |secs| && forall x :: a <= x < b ==> RecsOf(secs[RingPos(start, x, |secs|)]) == []
    ensures Places(secs, start, a, b) == []
    decreases b - a
  {
    hide PlacesIn, RecsOf;
    if a < b {
      PlacesNone(secs, start, a, b - 1);
    }
  }

  lemma PlacesInAt(secs: seq<TSec>, i: nat)
    requires i < |secs|
    ensures var ps := PlacesIn(secs[i], i);
      && (forall x :: 0 <= x < |ps| ==> At(secs, ps[x]))
      && RecsAtAll(secs, ps) == RecsOf(secs[i])
  {}

  /** The records at all places are the log. */
  lemma {:induction false} PlacesAreLog(secs: seq<TSec>, start: nat, a: nat)
    requires start < |secs| && a <= |secs|
    ensures var ps := Places(secs, start, a, |secs|);
      && (forall x :: 0 <= x < |ps| ==> At(secs, ps[x]))
      && RecsAtAll(secs, ps) == LogFrom(secs, start, a)
    decreases |secs| - a
  {
    hide PlacesIn, RecsOf, At;
    if a < |secs| {
      hide Places, LogFrom, RecsAtAll;
      PlacesAreLog(secs, start, a + 1);
      LogPlacesStep(secs, start, a);
    }
  }

  lemma LogPlacesStep(secs: seq<TSec>, start: nat, a: nat)
    requires start < |secs| && a < |secs|
    requires var q := Places(secs, start, a + 1, |secs|);
      && (forall x :: 0 <= x < |q| ==> At(secs, q[x]))
      && RecsAtAll(secs, q) == LogFrom(secs, start, a + 1)
    ensures var ps := Places(secs, start, a, |secs|);
      && (forall x :: 0 <= x < |ps| ==> At(secs, ps[x]))
      && RecsAtAll(secs, ps) == LogFrom(secs, start, a)
  {
    hide PlacesIn, RecsOf, At, Places, RecsAtAll;
    var i := RingPos(start, a, |secs|);
    PlacesInAt(secs, i);
    PlacesJoin(secs, start, a, a + 1, |secs|);
    PlacesOne(secs, start, a);
    RecsJoin(secs, PlacesIn(secs[i], i), Places(secs, start, a + 1, |secs|));
  }

  // ------------------------------------------------------------ the query walks, sector by sector

  /** From ring step `k` on nothing lies before `from`. */
  ghost predicate NotBefore(ts: Ts, k: nat, from: i32)
    requires ts.oldest < |ts.secs|
  {
    forall x: nat, j: nat :: k <= x < |ts.secs| && j < |StepTimes(ts, x)| ==> from <= StepTimes(ts, x)[j]
  }

  /** Before ring step `k` nothing lies behind `from`. */
  ghost predicate NotBehind(ts: Ts, k: nat, from: i32)
    requires ts.oldest < |ts.secs|
  {
    forall x: nat, j: nat :: x < k && x < |ts.secs| && j < |StepTimes(ts, x)| ==> StepTimes(ts, x)[j] <= from
  }

  lemma LaterNotBefore(ts: Ts, k: nat, from: i32)
    requires Timed(ts) && k < |ts.secs| && ts.oldest < |ts.secs|
    requires var times := StepTimes(ts, k); times != [] && from <= times[|times| - 1]
    ensures NotBefore(ts, k + 1, from)
  {
    hide WfTs, LogFrom, AllTimed, Timed;
    var times := StepTimes(ts, k);
    forall x: nat, j: nat | k + 1 <= x < |ts.secs| && j < |StepTimes(ts, x)| ensures from <= StepTimes(ts, x)[j] {
      RingOrdered(ts, k, |times| - 1, x, j);
    }
  }

  lemma EarlierNotBehind(ts: Ts, k: nat, from: i32)
    requires Timed(ts) && k < |ts.secs| && ts.oldest < |ts.secs|
    requires var times := StepTimes(ts, k); times != [] && times[0] <= from
    ensures NotBehind(ts, k, from)
  {
    hide WfTs, LogFrom, AllTimed, Timed;
    forall x: nat, j: nat | x < k && x < |ts.secs| && j < |StepTimes(ts, x)| ensures StepTimes(ts, x)[j] <= from {
      RingOrdered(ts, x, j, k, 0);
    }
  }

  /** A sector whose last time lies before `from` has nothing to offer an ascending query. */
  lemma SkipUp(ts: Ts, k: nat, from: i32, to: i32)
    requires Timed(ts) && k < |ts.secs| && ts.oldest < |ts.secs|
    requires var times := StepTimes(ts, k); times != [] && times[|times| - 1] < from
    ensures var i := RingPos(ts.oldest, k, |ts.secs|); QuerySec(ts.secs[i], i, from, to) == []
  {
    hide WfTs, LogFrom, AllTimed, Timed;
    SecSorted(ts, k);
    NoneInSec(ts.secs[RingPos(ts.oldest, k, |ts.secs|)], RingPos(ts.oldest, k, |ts.secs|), from, to);
  }

  /** A sector whose first time lies behind `from` has nothing to offer a descending query. */
  lemma SkipDown(ts: Ts, k: nat, from: i32, to: i32)
    requires Timed(ts) && k < |ts.secs| && ts.oldest < |ts.secs|
    requires var times := StepTimes(ts, k); times != [] && from < times[0]
    ensures var i := RingPos(ts.oldest, k, |ts.secs|); QuerySec(ts.secs[i], i, to, from) == []
  {
    hide WfTs, LogFrom, AllTimed, Timed;
    SecSorted(ts, k);
    NoneInSec(ts.secs[RingPos(ts.oldest, k, |ts.secs|)], RingPos(ts.oldest, k, |ts.secs|), to, from);
  }

  lemma QueryStep(ts: Ts, k: nat, lo: i32, hi: i32)
    requires ts.oldest < |ts.secs| && k < |ts.secs|
    ensures var i := RingPos(ts.oldest, k, |ts.secs|); var q := QuerySec(ts.secs[i], i, lo, hi);
      && Query(ts.secs, ts.oldest, 0, k + 1, lo, hi) == Query(ts.secs, ts.oldest, 0, k, lo, hi) + q
      && (q == [] ==> Query(ts.secs, ts.oldest, 0, k + 1, lo, hi) == Query(ts.secs, ts.oldest, 0, k, lo, hi))
  {
    hide QuerySec;
  }

  /** An ascending query is complete once nothing is left behind step `k`. */
  lemma QueryStops(ts: Ts, k: nat, lo: i32, hi: i32)
    requires ts.oldest < |ts.secs| && k <= |ts.secs| && Query(ts.secs, ts.oldest, k, |ts.secs|, lo, hi) == []
    ensures Query(ts.secs, ts.oldest, 0, k, lo, hi) == QueryAll(ts, lo, hi)
  {
    hide Query;
    QueryJoin(ts.secs, ts.oldest, 0, k, |ts.secs|, lo, hi);
  }

  /** An empty sector ends the log. */
  lemma EmptyEnds(ts: Ts, k: nat, lo: i32, hi: i32)
    requires WfTs(ts) && ts.oldest < |ts.secs| && k < |ts.secs| && InStore(ts.secs[RingPos(ts.oldest, k, |ts.secs|)], Empty)
    ensures Query(ts.secs, ts.oldest, k, |ts.secs|, lo, hi) == []
  {
    hide Packed, WfSec, WfCurrent;
    forall x | k <= x < |ts.secs| ensures NoneWithin(ts.secs[RingPos(ts.oldest, x, |ts.secs|)], lo, hi) {
      var d := Steps(ts.oldest, ts.cur, |ts.secs|);
      NotUnused(ts.secs[RingPos(ts.oldest, x, |ts.secs|)], ts.secSize, ts.maxLen);
    }
    QueryNone(ts.secs, ts.oldest, k, |ts.secs|, lo, hi);
  }
}
