/** What a collection gains: which sectors it collects, when it stops, and how many bytes are free afterwards. */
module KvReclaim {
  import opened Bytes
  import opened Wrappers
  import opened Sectors
  import opened KvModel
  import opened KvContents
  import opened KvInvariant
  import opened KvGc
  import opened KvMap

  // ------------------------------------------------------------ the sectors collected

  /** The dirty ones among the sectors from the `k`-th to the `n`-th of the ring. */
  function Dirties(flash: seq<Sector>, start: nat, k: nat, n: nat): seq<nat>
    requires start < |flash| && k <= n <= |flash|
    decreases n - k
  {
    if k == n then []
    else
      var i := RingPos(start, k, |flash|);
      (if IsDirty(flash[i]) then [i] else []) + Dirties(flash, start, k + 1, n)
  }

  /** What they hold that need not be moved. */
  function WasteFrom(flash: seq<Sector>, start: nat, k: nat, n: nat): int
    requires start < |flash| && k <= n <= |flash|
    decreases n - k
  {
    if k == n then 0
    else
      var i := RingPos(start, k, |flash|);
      (if IsDirty(flash[i]) then Waste(flash[i]) else 0) + WasteFrom(flash, start, k + 1, n)
  }

  lemma {:induction false} SameDirties(f: seq<Sector>, g: seq<Sector>, i: nat, start: nat, k: nat, n: nat)
    requires Elsewhere(f, g, i) && start < |f| && k <= n <= |f|
    requires forall x :: k <= x < n ==> RingPos(start, x, |f|) != i
    ensures Dirties(f, start, k, n) == Dirties(g, start, k, n) && WasteFrom(f, start, k, n) == WasteFrom(g, start, k, n)
    decreases n - k
  {
    hide Waste;
    if k < n {
      var x := RingPos(start, k, |f|);
      assert Gains(f[x], g[x]);
      SameDirties(f, g, i, start, k + 1, n);
    }
  }

  /** A sector that is clean has at most gained records; a dirty one is clean once the collection has passed it, and
      otherwise as it was. */
  predicate ReclaimedSector(f: Sector, g: Sector, passed: bool) {
    if !IsDirty(f) then Gains(f, g) else if passed then g.Sector? && !IsDirty(g) else g == f
  }

  /** A collection has gone from the `k`-th to the `n`-th sector of the ring and has collected the dirty ones. With the
      sector `last` these are its receivers, one after the other. Each but the last two has at most `freeSize` bytes
      left. It has ended before the end of the ring only right behind the last receiver, because the one before has
      more than that left. */
  ghost predicate Reclaimed(f: Db, g: Db, start: nat, k: nat, n: nat, last: nat, freeSize: nat) {
    && start < |f.flash| && k <= n <= |f.flash| && |g.flash| == |f.flash| && g.secSize == f.secSize
    && (forall x :: 0 <= x < |f.flash| ==>
          ReclaimedSector(f.flash[RingPos(start, x, |f.flash|)], g.flash[RingPos(start, x, |f.flash|)], x < n))
    && UsedAll(g.flash) == UsedAll(f.flash) - WasteFrom(f.flash, start, k, n)
    && Received(g, [last] + Dirties(f.flash, start, k, n), freeSize)
    && var c := [last] + Dirties(f.flash, start, k, n);
      && (n < |f.flash| ==> 2 <= |c| && k < n && c[|c| - 1] == RingPos(start, n - 1, |f.flash|)
                            && c[|c| - 2] < |g.flash| && Remain(g, c[|c| - 2]) > freeSize)
      && g.oldest == (if |c| == 1 then f.oldest else if c[|c| - 1] < |f.flash| then Next(c[|c| - 1], |f.flash|) else 0)
  }

  ghost predicate Received(g: Db, c: seq<nat>, freeSize: nat) {
    && (forall y :: 0 <= y < |c| ==> c[y] < |g.flash|)
    && (forall y :: 0 <= y < |c| - 2 ==> Remain(g, c[y]) <= freeSize)
  }

  /** A sector that gains records has no more bytes left than before. */
  lemma RemainFalls(f: Db, g: Db, t: nat)
    requires f.secSize == g.secSize && t < |f.flash| == |g.flash| && f.flash[t].Sector? && Gains(f.flash[t], g.flash[t])
    requires f.flash[t].store == Empty || f.flash[t].store == Using
    ensures Remain(g, t) <= Remain(f, t)
  {
    hide Live;
    var a, b := f.flash[t].nodes, g.flash[t].nodes;
    if a <= b {
      assert b == a + b[|a|..];
      OffPrefix(a, b[|a|..], |a|);
      OffMonotone(b, |a|, |b|);
    }
  }

  lemma StoreIs(db: Db, t: nat)
    requires WfDb(db) && t < |db.flash|
    ensures db.flash[t].Sector? && (db.flash[t].store == Empty || db.flash[t].store == Using)
  {
    assert WfSector(db.flash[t], db.secSize);
  }

  /** The walk over the ring, from the `k`-th sector on, those before being clean. */
  lemma {:induction false} GcFromReclaims(db: Db, start: nat, k: nat, freeSize: nat, last: nat) returns (n: nat)
    requires Collectable(db) && start < |db.flash| && k <= |db.flash| && last < |db.flash|
    requires !IsDirty(db.flash[last]) && forall x :: 0 <= x < k ==> !IsDirty(db.flash[RingPos(start, x, |db.flash|)])
    ensures Reclaimed(db, GcFrom(db, start, k, freeSize, last), start, k, n, last, freeSize)
    decreases |db.flash| - k
  {
    hide WfSector, Calm, Preserves, GcSector, Count, Collected, NoneBegun, UsedTo, Remain, WasteFrom, Dirties, Gains, IsDirty, Received;
    var N := |db.flash|;
    if k == N {
      n := k;
      NoneLeft(db, start, last, freeSize);
    } else {
      var i := RingPos(start, k, N);
      GcSectorKeeps(db, i, freeSize, last);
      var s := GcSector(db, i, freeSize, last);
      if !IsDirty(db.flash[i]) {
        n := GcFromReclaims(db, start, k + 1, freeSize, last);
        PassedOver(db, GcFrom(db, start, k, freeSize, last), start, k, n, last, freeSize);
      } else if s.stop {
        n := k + 1;
        OneCollected(db, s.db, start, k, last, freeSize);
      } else {
        StepClean(db, s.db, start, k);
        n := GcFromReclaims(s.db, start, k + 1, freeSize, i);
        StoreIs(s.db, last);
        MoreCollected(db, s.db, GcFrom(s.db, start, k + 1, freeSize, i), start, k, n, last, freeSize);
      }
    }
  }

  lemma NoneLeft(db: Db, start: nat, last: nat, freeSize: nat)
    requires start < |db.flash| && last < |db.flash|
    requires forall x :: 0 <= x < |db.flash| ==> !IsDirty(db.flash[RingPos(start, x, |db.flash|)])
    ensures Reclaimed(db, db, start, |db.flash|, |db.flash|, last, freeSize)
  {
    hide UsedTo, Remain, IsDirty;
  }

  lemma PassedOver(f: Db, g: Db, start: nat, k: nat, n: nat, last: nat, freeSize: nat)
    requires start < |f.flash| && k < |f.flash| && !IsDirty(f.flash[RingPos(start, k, |f.flash|)])
    requires Reclaimed(f, g, start, k + 1, n, last, freeSize)
    ensures Reclaimed(f, g, start, k, n, last, freeSize)
  {
    hide UsedTo, Remain, IsDirty, ReclaimedSector, Received;
    assert [] + Dirties(f.flash, start, k + 1, n) == Dirties(f.flash, start, k + 1, n);
  }

  lemma StepClean(db: Db, d: Db, start: nat, k: nat)
    requires start < |db.flash| && k < |db.flash| && Collected(db, d, RingPos(start, k, |db.flash|))
    requires forall x :: 0 <= x < k ==> !IsDirty(db.flash[RingPos(start, x, |db.flash|)])
    ensures |d.flash| == |db.flash|
    ensures forall x :: 0 <= x < k + 1 ==> !IsDirty(d.flash[RingPos(start, x, |db.flash|)])
    ensures !IsDirty(d.flash[RingPos(start, k, |db.flash|)])
  {
    hide UsedTo, Waste;
    forall x | 0 <= x < k + 1 ensures !IsDirty(d.flash[RingPos(start, x, |db.flash|)]) {
      if x < k {
        assert Gains(db.flash[RingPos(start, x, |db.flash|)], d.flash[RingPos(start, x, |db.flash|)]);
      }
    }
  }

  /** Collecting the `k`-th sector of the ring, seen from all sectors. */
  lemma CollectedSectors(db: Db, d: Db, start: nat, k: nat)
    requires start < |db.flash| && k < |db.flash| && Collected(db, d, RingPos(start, k, |db.flash|))
    requires IsDirty(db.flash[RingPos(start, k, |db.flash|)])
    requires forall x :: 0 <= x < k ==> !IsDirty(db.flash[RingPos(start, x, |db.flash|)])
    ensures |d.flash| == |db.flash|
    ensures forall x :: 0 <= x < |db.flash| ==>
      ReclaimedSector(db.flash[RingPos(start, x, |db.flash|)], d.flash[RingPos(start, x, |db.flash|)], x < k + 1)
  {
    hide UsedTo, Waste;
    var N, i := |db.flash|, RingPos(start, k, |db.flash|);
    forall x | 0 <= x < N ensures ReclaimedSector(db.flash[RingPos(start, x, N)], d.flash[RingPos(start, x, N)], x < k + 1) {
      if x != k {
        assert RingPos(start, x, N) != i;
        assert Gains(db.flash[RingPos(start, x, N)], d.flash[RingPos(start, x, N)]);
      }
    }
  }

  lemma OneCollected(db: Db, d: Db, start: nat, k: nat, last: nat, freeSize: nat)
    requires start < |db.flash| && k < |db.flash| && last < |db.flash| && d.secSize == db.secSize && |d.flash| == |db.flash|
    requires var i := RingPos(start, k, |db.flash|); IsDirty(db.flash[i]) && Collected(db, d, i)
    requires forall x :: 0 <= x < k ==> !IsDirty(db.flash[RingPos(start, x, |db.flash|)])
    requires Remain(d, last) > freeSize
    ensures Reclaimed(db, d, start, k, k + 1, last, freeSize)
  {
    hide UsedTo, Remain, IsDirty, ReclaimedSector, Elsewhere, Waste;
    CollectedSectors(db, d, start, k);
    var i := RingPos(start, k, |db.flash|);
    assert Dirties(db.flash, start, k + 1, k + 1) == [] && WasteFrom(db.flash, start, k + 1, k + 1) == 0;
    assert Dirties(db.flash, start, k, k + 1) == [i];
    assert [last] + [i] == [last, i];
  }

  lemma MoreCollected(db: Db, d: Db, g: Db, start: nat, k: nat, n: nat, last: nat, freeSize: nat)
    requires start < |db.flash| && k < |db.flash| && last < |db.flash| && d.secSize == db.secSize && |d.flash| == |db.flash|
    requires var i := RingPos(start, k, |db.flash|); IsDirty(db.flash[i]) && Collected(db, d, i)
    requires forall x :: 0 <= x < k ==> !IsDirty(db.flash[RingPos(start, x, |db.flash|)])
    requires !IsDirty(db.flash[last]) && Remain(d, last) <= freeSize
    requires d.flash[last].Sector? && (d.flash[last].store == Empty || d.flash[last].store == Using)
    requires Reclaimed(d, g, start, k + 1, n, RingPos(start, k, |db.flash|), freeSize)
    ensures Reclaimed(db, g, start, k, n, last, freeSize)
  {
    hide UsedTo, Remain, IsDirty, ReclaimedSector, Elsewhere, Waste, Gains;
    var N, i := |db.flash|, RingPos(start, k, |db.flash|);
    CollectedSectors(db, d, start, k);
    forall x | 0 <= x < N ensures ReclaimedSector(db.flash[RingPos(start, x, N)], g.flash[RingPos(start, x, N)], x < n) {
      ReclaimedTwice(db.flash[RingPos(start, x, N)], d.flash[RingPos(start, x, N)], g.flash[RingPos(start, x, N)], x < k + 1, x < n);
    }
    assert forall x :: k + 1 <= x < n ==> RingPos(start, x, N) != i;
    SameDirties(db.flash, d.flash, i, start, k + 1, n);
    var c := [i] + Dirties(db.flash, start, k + 1, n);
    assert Dirties(db.flash, start, k, n) == c;
    var x := Steps(start, last, N);
    LastFalls(db, d, g, i, start, n, last);
    forall y | 0 <= y < |[last] + c| - 2 ensures Remain(g, ([last] + c)[y]) <= freeSize {
      if y > 0 {
        assert ([last] + c)[y] == c[y - 1];
      }
    }
    assert forall y :: 0 < y < |[last] + c| ==> ([last] + c)[y] == c[y - 1];
  }

  lemma ReclaimedTwice(f: Sector, g: Sector, h: Sector, first: bool, second: bool)
    requires ReclaimedSector(f, g, first) && ReclaimedSector(g, h, second) && (first ==> second)
    ensures ReclaimedSector(f, h, second)
  {
    hide Live;
    if !IsDirty(f) {
      GainsTransitive(f, g, h);
    }
  }

  lemma LastFalls(db: Db, d: Db, g: Db, i: nat, start: nat, n: nat, last: nat)
    requires start < |db.flash| && last < |db.flash| && |d.flash| == |db.flash| && |g.flash| == |db.flash| && g.secSize == d.secSize
    requires d.flash[last].Sector? && (d.flash[last].store == Empty || d.flash[last].store == Using)
    requires !IsDirty(db.flash[last]) && Elsewhere(db.flash, d.flash, i) && (i == last ==> !IsDirty(d.flash[i]))
    requires forall x :: 0 <= x < |db.flash| ==>
      ReclaimedSector(d.flash[RingPos(start, x, |db.flash|)], g.flash[RingPos(start, x, |db.flash|)], x < n)
    ensures Remain(g, last) <= Remain(d, last)
  {
    hide Remain, Live;
    var x := Steps(start, last, |db.flash|);
    assert RingPos(start, x, |db.flash|) == last;
    if last != i {
      assert Gains(db.flash[last], d.flash[last]);
    }
    assert Gains(d.flash[last], g.flash[last]);
    RemainFalls(d, g, last);
  }

  // ------------------------------------------------------------ a whole collection

  /** The reserve: the last empty sector of the ring. */
  predicate LastOfEmpty(flash: seq<Sector>, oldest: nat, i: nat)
    requires oldest < |flash|
  {
    && i < |flash| && HasStore(flash[i], Empty)
    && forall x :: Steps(oldest, i, |flash|) < x < |flash| ==> !HasStore(flash[RingPos(oldest, x, |flash|)], Empty)
  }

  lemma {:induction false} LastEmptyIs(flash: seq<Sector>, oldest: nat, k: nat)
    requires oldest < |flash| && k <= |flash|
    requires exists x :: 0 <= x < k && HasStore(flash[RingPos(oldest, x, |flash|)], Empty)
    requires forall x :: k <= x < |flash| ==> !HasStore(flash[RingPos(oldest, x, |flash|)], Empty)
    ensures LastOfEmpty(flash, oldest, LastEmpty(flash, oldest, k))
  {
    hide HasStore;
    if !HasStore(flash[RingPos(oldest, k - 1, |flash|)], Empty) {
      LastEmptyIs(flash, oldest, k - 1);
    }
  }

  lemma LastEmptyFound(db: Db)
    requires WfDb(db) && 0 < Count(db.flash, Empty)
    ensures var i := LastEmpty(db.flash, db.oldest, |db.flash|);
      LastOfEmpty(db.flash, db.oldest, i) && !IsDirty(db.flash[i])
  {
    hide LastEmpty, HasStore;
    var e := CountWitness(db.flash, Empty, |db.flash|);
    assert RingPos(db.oldest, Steps(db.oldest, e, |db.flash|), |db.flash|) == e;
    LastEmptyIs(db.flash, db.oldest, |db.flash|);
    EmptyClean(db, LastEmpty(db.flash, db.oldest, |db.flash|));
  }

  lemma EmptyClean(db: Db, i: nat)
    requires WfDb(db) && i < |db.flash|
    ensures HasStore(db.flash[i], Empty) ==> !IsDirty(db.flash[i])
  {
    assert WfSector(db.flash[i], db.secSize);
  }

  /** From the first sector of the ring on a collection collects every dirty sector, the reserve and the sectors
      collected receiving what is moved, until a receiver has more than `freeSize` bytes left once the next sector has
      been collected. It gains exactly the bytes that the collected sectors wasted. With two empty sectors or more
      there is no collection. */
  lemma GcCollectReclaims(db: Db, freeSize: nat) returns (n: nat, last: nat)
    requires Collectable(db)
    ensures var d := GcCollect(db, freeSize);
      if 1 < Count(db.flash, Empty) then d == db.(gcRequest := false)
      else LastOfEmpty(db.flash, db.oldest, last) && Reclaimed(db, d, db.oldest, 0, n, last, freeSize)
  {
    hide WfSector, Calm, GcFrom, LastEmpty, LastOfEmpty, Count, IsDirty, UsedTo, Dirties, WasteFrom, ReclaimedSector, Remain;
    n, last := 0, 0;
    if Count(db.flash, Empty) <= 1 {
      LastEmptyFound(db);
      last := LastEmpty(db.flash, db.oldest, |db.flash|);
      n := GcFromReclaims(db, db.oldest, 0, freeSize, last);
      RequestAside(db, GcFrom(db, db.oldest, 0, freeSize, last), db.oldest, n, last, freeSize);
    }
  }

  lemma RequestAside(f: Db, g: Db, start: nat, n: nat, last: nat, freeSize: nat)
    requires Reclaimed(f, g, start, 0, n, last, freeSize)
    ensures Reclaimed(f, g.(gcRequest := false), start, 0, n, last, freeSize)
  {
    hide UsedTo, Dirties, WasteFrom, ReclaimedSector, IsDirty;
    assert forall t: nat :: t < |g.flash| ==> Remain(g.(gcRequest := false), t) == Remain(g, t);
  }

  // ------------------------------------------------------------ progress

  lemma {:induction false} DirtiesIn(flash: seq<Sector>, start: nat, k: nat, n: nat)
    requires start < |flash| && k <= n <= |flash|
    ensures Dirties(flash, start, k, n) == [] <==> forall x :: k <= x < n ==> !IsDirty(flash[RingPos(start, x, |flash|)])
    decreases n - k
  {
    hide IsDirty;
    if k < n {
      DirtiesIn(flash, start, k + 1, n);
    }
  }

  ghost predicate NoDirt(flash: seq<Sector>) {
    forall i :: 0 <= i < |flash| ==> !IsDirty(flash[i])
  }

  /** After a collection in a log with one empty sector no sector is dirty, or one that took part has more than
      `freeSize` bytes left; and if any was dirty, fewer are. */
  lemma GcProgress(db: Db, freeSize: nat)
    requires Collectable(db) && Count(db.flash, Empty) <= 1
    ensures var d := GcCollect(db, freeSize);
      && |d.flash| == |db.flash|
      && (NoDirt(d.flash) || exists t :: 0 <= t < |d.flash| && !IsDirty(d.flash[t]) && Remain(d, t) > freeSize)
      && (forall i :: 0 <= i < |d.flash| && IsDirty(d.flash[i]) ==> d.flash[i] == db.flash[i])
      && (NoDirt(db.flash) || exists i :: 0 <= i < |d.flash| && IsDirty(db.flash[i]) && !IsDirty(d.flash[i]))
  {
    hide WfSector, Calm, GcCollect, LastOfEmpty, Count, IsDirty, UsedTo, Dirties, WasteFrom, Remain, Gains;
    var n, last := GcCollectReclaims(db, freeSize);
    var d, N, o := GcCollect(db, freeSize), |db.flash|, db.oldest;
    var c := [last] + Dirties(db.flash, o, 0, n);
    forall i | 0 <= i < N ensures ReclaimedSector(db.flash[i], d.flash[i], Steps(o, i, N) < n) {
      assert RingPos(o, Steps(o, i, N), N) == i;
    }
    forall i | 0 <= i < N && IsDirty(d.flash[i]) ensures d.flash[i] == db.flash[i] && n <= Steps(o, i, N) {
      DirtStays(db.flash[i], d.flash[i], Steps(o, i, N) < n);
    }
    if n < N {
      var t := c[|c| - 2];
      if |c| > 2 {
        DirtiesAre(db.flash, o, 0, n, |c| - 3);
      } else {
        LastClean(db, last);
      }
      DirtStays(db.flash[t], d.flash[t], Steps(o, t, N) < n);
      DirtiesIn(db.flash, o, 0, n);
    }
    if !NoDirt(db.flash) {
      var i :| 0 <= i < N && IsDirty(db.flash[i]);
      if n == N {
        DirtStays(db.flash[i], d.flash[i], true);
      } else {
        var x :| 0 <= x < n && IsDirty(db.flash[RingPos(o, x, N)]);
        DirtStays(db.flash[RingPos(o, x, N)], d.flash[RingPos(o, x, N)], true);
      }
    }
  }

  lemma LastClean(db: Db, last: nat)
    requires WfDb(db) && LastOfEmpty(db.flash, db.oldest, last)
    ensures !IsDirty(db.flash[last])
  {
    EmptyClean(db, last);
  }

  lemma DirtStays(f: Sector, g: Sector, passed: bool)
    requires ReclaimedSector(f, g, passed)
    ensures IsDirty(g) ==> !passed && g == f
    ensures !IsDirty(f) || passed ==> !IsDirty(g)
  {
    hide Live;
  }

  lemma {:induction false} DirtiesAre(flash: seq<Sector>, start: nat, k: nat, n: nat, y: nat)
    requires start < |flash| && k <= n <= |flash| && y < |Dirties(flash, start, k, n)|
    ensures var t := Dirties(flash, start, k, n)[y];
      t < |flash| && k <= Steps(start, t, |flash|) < n && IsDirty(flash[t])
    decreases n - k
  {
    hide IsDirty;
    var i := RingPos(start, k, |flash|);
    if IsDirty(flash[i]) {
      if y > 0 {
        DirtiesAre(flash, start, k + 1, n, y - 1);
      }
    } else {
      DirtiesAre(flash, start, k + 1, n, y);
    }
  }

  // ------------------------------------------------------------ when a record fits

  lemma {:induction false} SumGains(f: seq<Sector>, g: seq<Sector>, i: nat, x: nat, k: nat)
    requires Elsewhere(f, g, i) && i < |f| && x < |f| && i != x && k <= |f|
    ensures UsedTo(f, k) + (if i < k then UsedIn(g[i]) - UsedIn(f[i]) else 0) + (if x < k then UsedIn(g[x]) - UsedIn(f[x]) else 0)
         <= UsedTo(g, k)
  {
    hide UsedIn, Gains;
    if k > 0 {
      SumGains(f, g, i, x, k - 1);
      if k - 1 != i {
        assert Gains(f[k - 1], g[k - 1]);
        UsedGains(f[k - 1], g[k - 1]);
      }
    }
  }

  lemma UsedGains(f: Sector, g: Sector)
    requires Gains(f, g)
    ensures UsedIn(f) <= UsedIn(g)
  {
    hide Live;
    if f.Sector? {
      var a, b := f.nodes, g.nodes;
      assert b == a + b[|a|..];
      OffPrefix(a, b[|a|..], |a|);
      OffMonotone(b, |a|, |b|);
    }
  }

  lemma {:induction false} GcFromFirst(db: Db, start: nat, k: nat, p: nat, freeSize: nat, last: nat)
    requires Collectable(db) && start < |db.flash| && k <= p < |db.flash| && last < |db.flash|
    requires forall x :: k <= x < p ==> !IsDirty(db.flash[RingPos(start, x, |db.flash|)])
    ensures GcFrom(db, start, k, freeSize, last) == GcFrom(db, start, p, freeSize, last)
    decreases p - k
  {
    hide GcSector, IsDirty, WfSector, Calm, Count, Preserves, Collected, NoneBegun;
    if k < p {
      GcSectorKeeps(db, RingPos(start, k, |db.flash|), freeSize, last);
      GcFromFirst(db, start, k + 1, p, freeSize, last);
    }
  }

  lemma CountTwo(flash: seq<Sector>, i: nat, x: nat)
    requires i < |flash| && x < |flash| && i != x && HasStore(flash[i], Empty) && HasStore(flash[x], Empty)
    ensures 1 < Count(flash, Empty)
  {
    hide CountStore, HasStore;
    NotRaw();
    CountUpdate(flash, i, Raw, Empty, |flash|);
    CountPositive(flash[i := Raw], Empty, x, |flash|);
  }

  lemma NotRaw()
    ensures !HasStore(Raw, Empty)
  {}

  /** The first dirty sector of the ring, once collected, makes room for a record that fits into one sector together
      with what is moved. */
  lemma FirstMakesRoom(db: Db, size: nat, p: nat)
    requires Collectable(db) && NoneBegun(db.flash) && !db.recovering && Count(db.flash, Empty) == 1 && p < |db.flash|
    requires var i := RingPos(db.oldest, p, |db.flash|);
      IsDirty(db.flash[i]) && 16 + CarrierBytes(db.flash[i].nodes, 0) + size + 88 < db.secSize
    requires forall x :: 0 <= x < p ==> !IsDirty(db.flash[RingPos(db.oldest, x, |db.flash|)])
    ensures !NoSpare(GcCollect(db, size), size)
  {
    hide WfSector, Calm, GcSector, LastEmpty, LastOfEmpty, Count, UsedTo, Gains, NoneBegun, Preserves, SpareRoom, Waste, CarrierBytes;
    var N, i := |db.flash|, RingPos(db.oldest, p, |db.flash|);
    LastEmptyFound(db);
    var last := LastEmpty(db.flash, db.oldest, N);
    GcFromFirst(db, db.oldest, 0, p, size, last);
    GcSectorKeeps(db, i, size, last);
    var d := GcSector(db, i, size, last).db;
    LastGets(db, d, i, last);
    StillRoom(d, last, i, size);
    assert GcFrom(db, db.oldest, p, size, last) == d;
    assert GcCollect(db, size) == d.(gcRequest := false);
  }

  /** What the reserve holds after the first sector has been collected. */
  lemma LastGets(db: Db, d: Db, i: nat, last: nat)
    requires WfDb(db) && WfDb(d) && Collected(db, d, i) && last < |db.flash| && IsDirty(db.flash[i]) && LastOfEmpty(db.flash, db.oldest, last)
    ensures last != i && d.flash[last].Sector? && d.flash[last].dirty == False
    ensures (d.flash[last].store == Using || d.flash[last].store == Empty) && Used(d.flash[last].nodes) <= CarrierBytes(db.flash[i].nodes, 0)
    ensures HasStore(d.flash[i], Empty)
  {
    hide WfNode, UsedTo, CarrierBytes, Off, Live;
    assert WfSector(db.flash[last], db.secSize);
    EmptyClean(db, last);
    SumGains(db.flash, d.flash, i, last, |db.flash|);
    assert Gains(db.flash[last], d.flash[last]);
    NoBytes();
  }

  lemma NoBytes()
    ensures Used([]) == 0
  {}

  lemma StillRoom(d: Db, last: nat, i: nat, size: nat)
    requires last < |d.flash| && i < |d.flash| && i != last && HasStore(d.flash[i], Empty)
    requires d.flash[last].Sector? && d.flash[last].dirty == False && (d.flash[last].store == Using || d.flash[last].store == Empty)
    requires 16 + Used(d.flash[last].nodes) + size + 88 < d.secSize
    ensures Remain(d, last) > size && SpareRoom(d.(gcRequest := false), size, last)
  {
    hide CountStore;
    if d.flash[last].store == Empty {
      CountTwo(d.flash, i, last);
    }
  }

  /** A `set` never fails for want of space while what the first dirty sector of the ring has to keep fits into one
      sector together with the new record. */
  lemma FitsAfterFirst(db: Db, size: nat, p: nat)
    requires Resting(db) && p < |db.flash|
    requires var i := RingPos(db.oldest, p, |db.flash|);
      IsDirty(db.flash[i]) && 16 + CarrierBytes(db.flash[i].nodes, 0) + size + 88 < db.secSize
    requires forall x :: 0 <= x < p ==> !IsDirty(db.flash[RingPos(db.oldest, x, |db.flash|)])
    ensures !FullFor(db, size)
  {
    hide WfSector, Calm, GcCollect, Count, IsDirty, CarrierBytes;
    if Count(db.flash, Empty) == 1 {
      FirstMakesRoom(db.(gcRequest := true), size, p);
    } else {
      TwoMakeRoom(db, size);
    }
  }

  /** Two empty sectors are room for whatever fits into a sector at all. */
  lemma TwoMakeRoom(db: Db, size: nat)
    requires Resting(db) && Count(db.flash, Empty) != 1 && 16 + size + 88 < db.secSize
    ensures !NoSpare(db, size)
  {
    hide WfNode, Off, CountStore, Calm;
    var e := CountWitness(db.flash, Empty, |db.flash|);
    ShapedEmpty(db, e) by { WfIsShaped(db); }
    assert HasRoom(db, Empty, size, e);
    assert SpareRoom(db, size, e);
  }

  // ------------------------------------------------------------ a set without space

  /** What a `set` that fails for want of space has done: with more than one empty sector the record fits into none;
      otherwise it has collected. */
  ghost predicate FullAfter(db: Db, d: Db, size: nat)
    requires db.oldest < |db.flash|
  {
    if Count(db.flash, Empty) != 1 then d.flash == db.flash && db.secSize <= 16 + size + 88
    else exists n: nat, last: nat :: LastOfEmpty(db.flash, db.oldest, last) && Reclaimed(db, d, db.oldest, 0, n, last, size)
  }

  lemma SetReclaims(db: Db, key: Key, value: seq<byte>)
    requires Resting(db) && NodeSize(key, value) < 0x1_0000_0000
    requires FullFor(Begin(db), NodeSize(key, value))
    ensures var r := SetKv(db, key, value);
      r.outcome == Failed(SavedFull) && FullAfter(db, r.db, NodeSize(key, value))
  {
    hide NodeCrc, WfSector, Calm, GcCollect, Count, SpareRoom, LastOfEmpty, Replace, IsDirty, Preserves, Reclaimed;
    var b, size := Begin(db), NodeSize(key, value);
    BeginRests(db);
    NewKvKeeps(b, size);
    if Count(db.flash, Empty) == 1 {
      var e := b.(gcRequest := true);
      var n, last := GcCollectReclaims(e, size);
      AllocSpares(b, size);
      FullRuns(b, size);
      FromBegin(db, e, SetKv(db, key, value).db, n, last, size);
    } else {
      AllocSpares(b, size);
      if 16 + size + 88 < db.secSize {
        TwoMakeRoom(b, size);
      }
    }
  }

  lemma FullRuns(b: Db, size: nat)
    requires Resting(b) && FullFor(b, size) && Count(b.flash, Empty) == 1
    ensures var d := GcCollect(b.(gcRequest := true), size); NewKv(b, size).db == d
  {
    hide WfSector, Calm, GcCollect, Count, SpareRoom, Preserves, AllocKv;
    AllocSpares(b, size);
    var d := GcCollect(b.(gcRequest := true), size);
    SpareIs(b, size);
    SpareIs(d, size);
  }

  lemma FromBegin(db: Db, e: Db, g: Db, n: nat, last: nat, size: nat)
    requires db.oldest < |db.flash| && e == db.(log := e.log, gcRequest := e.gcRequest)
    requires Reclaimed(e, g, db.oldest, 0, n, last, size)
    ensures Reclaimed(db, g, db.oldest, 0, n, last, size)
  {
    hide UsedTo, Dirties, WasteFrom, ReclaimedSector, IsDirty, Remain;
  }
}
