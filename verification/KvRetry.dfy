/** Recovery that has to collect before it finds room: the retry loop of opening, and when it ends. */
module KvRetry {
  import opened Bytes
  import opened Wrappers
  import opened Sectors
  import opened KvModel
  import opened KvContents
  import opened KvInvariant
  import opened KvGc
  import opened KvMap
  import opened KvLoad
  import opened KvCrash
  import opened KvResume
  import opened KvPowerCut

  /** The log after the collection that a recovery pass asks for. */
  function Tidied(e: Db): (d: Db)
    requires e.oldest < |e.flash|
    ensures |d.flash| == |e.flash| && d.oldest < |d.flash| && !d.gcRequest && d.secSize == e.secSize && d.recovering == e.recovering
  {
    GcCollect(e.(gcRequest := true), |e.flash| * e.secSize)
  }

  /** A deletion is pending in a sector that has not been marked dirty, and there is no room for a copy of the node, not
      even after a collection. */
  ghost predicate StuckAt(e: Db, l: Loc)
    requires e.oldest < |e.flash|
  {
    && At(e, l.sec, l.node) && IsPending(e.flash[l.sec].nodes[l.node]) && !IsDirty(e.flash[l.sec])
    && !CanCopy(e, l.sec, l.node)
    && At(Tidied(e), l.sec, l.node) && !CanCopy(Tidied(e), l.sec, l.node)
  }

  ghost predicate Stuck(e: Db) {
    e.oldest < |e.flash| && exists l: Loc :: StuckAt(e, l)
  }

  // ------------------------------------------------------------ a pass that finds no room

  /** Recovery of the pending node asks for a collection. */
  lemma NoRoomAsks(e: Db, loose: set<nat>, l: Loc)
    requires Opening(e, loose) && At(e, l.sec, l.node) && IsPending(e.flash[l.sec].nodes[l.node]) && !CanCopy(e, l.sec, l.node)
    ensures Count(e.flash, Empty) == 1
    ensures RecoverNode(e, l.sec, l.node) == Recovered(e.(gcRequest := true), true)
  {
    hide NodeCrc, WfNode, Off, CountStore, AllocKv, SpareRoom, Find;
    var size := e.flash[l.sec].nodes[l.node].Len();
    AllocSpares(e, size);
    if Count(e.flash, Empty) != 1 {
      EmptyHasRoom(e, loose, l);
    }
  }

  lemma EmptyHasRoom(e: Db, loose: set<nat>, l: Loc)
    requires Opening(e, loose) && At(e, l.sec, l.node) && Count(e.flash, Empty) != 1
    ensures CanCopy(e, l.sec, l.node)
  {
    hide NodeCrc, WfNode, CountStore;
    var nodes := e.flash[l.sec].nodes;
    assert WfShape(e.flash[l.sec], e.secSize);
    OffMonotone(nodes, l.node, |nodes|);
    var t := CountWitness(e.flash, Empty, |e.flash|);
    assert WfShape(e.flash[t], e.secSize);
    assert SpareRoom(e, nodes[l.node].Len(), t);
  }

  /** A pass over a log whose pending node finds no room ends there. */
  lemma PassAsks(e: Db, l: Loc, bad: set<Loc>)
    requires Opening(e, {l.sec}) && At(e, l.sec, l.node) && QuietExcept(e.flash, bad)
    requires forall b :: b in bad ==> b.sec < |e.flash| && !Precedes(e, b, l)
    requires IsPending(e.flash[l.sec].nodes[l.node]) && !CanCopy(e, l.sec, l.node)
    ensures Count(e.flash, Empty) == 1 && RecoverPass(e, 0) == e.(gcRequest := true)
  {
    hide Scan, Quiet, RecoverPass, WfShape, WfSector, RecoverNode, CanCopy, Count, IsPending;
    PassStart(e, {l.sec}, l, bad);
    NoRoomAsks(e, {l.sec}, l);
    ScanStep(e, Rank(e, l).0, l.node);
  }

  lemma RoundOn(e: Db, rounds: nat)
    requires e.oldest < |e.flash| && 0 < rounds && RecoverPass(e, 0) == e.(gcRequest := true)
    ensures RecoverRounds(e, rounds) == RecoverRounds(Tidied(e), rounds - 1)
  {
    hide RecoverPass, GcCollect;
  }

  lemma RoundEnds(e: Db, d: Db, rounds: nat)
    requires e.oldest < |e.flash| && 0 < rounds && RecoverPass(e, 0) == d && !d.gcRequest
    ensures RecoverRounds(e, rounds) == Some(d)
  {
    hide RecoverPass, GcCollect;
  }

  // ------------------------------------------------------------ the log after the collection

  /** The nodes of `bad` in clean sectors. */
  function InClean(f: seq<Sector>, bad: set<Loc>): set<Loc> {
    set b | b in bad && b.sec < |f| && !IsDirty(f[b.sec])
  }

  /** The sector of the pending node, unless it has been marked dirty. */
  function StillLoose(f: seq<Sector>, i: nat): set<nat> {
    if i < |f| && IsDirty(f[i]) then {} else {i}
  }

  /** The collection leaves a log that recovery can go on with. */
  lemma TidiedOpens(e: Db, l: Loc, key: Key, m: Table)
    requires Opening(e, {l.sec}) && Owing(e.flash, Some(l), key, m) && Count(e.flash, Empty) == 1
    ensures var d := Tidied(e);
      && Opening(d, StillLoose(e.flash, l.sec))
      && SweptFrom(e.flash, d.flash, e.oldest, 0)
      && Owing(d.flash, if l.sec < |e.flash| && IsDirty(e.flash[l.sec]) then None else Some(l), key, m)
  {
    hide Owing, WfNode, Off, CountStore, GcCollect, SweptFrom;
    OpeningShaped(e, {l.sec});
    TotalIsMore(e);
    CollectsWhileOpening(e, |e.flash| * e.secSize, Some(l), key, m);
    var d := Tidied(e);
    SweptIsClean(e.flash, d.flash, e.oldest);
    forall x | 0 <= x < |d.flash| ensures WfShape(d.flash[x], d.secSize) && Unvictimized(d.flash[x]) {
      AllUnvictimized(d.flash);
    }
    forall x | 0 <= x < |d.flash| && x !in StillLoose(e.flash, l.sec) ensures WfSector(d.flash[x], d.secSize) {
      SweptSector(e, d, {l.sec}, x);
    }
  }

  lemma OpeningShaped(e: Db, loose: set<nat>)
    requires Opening(e, loose)
    ensures Shaped(e)
  {
    hide WfShape, WfSector, Count;
  }

  lemma SweptSector(e: Db, d: Db, loose: set<nat>, x: nat)
    requires Opening(e, loose) && SweptFrom(e.flash, d.flash, e.oldest, 0) && d.secSize == e.secSize && x < |e.flash|
    requires !(x in loose && !IsDirty(e.flash[x])) && WfShape(d.flash[x], d.secSize)
    ensures WfSector(d.flash[x], d.secSize)
  {
    hide WfShape, Intact, Count;
    var o, n := e.oldest, |e.flash|;
    assert Swept(e.flash[RingPos(o, Steps(o, x, n), n)], d.flash[RingPos(o, Steps(o, x, n), n)], true);
    if !IsDirty(e.flash[x]) {
      assert WfSector(e.flash[x], e.secSize);
      HasHeader(e.flash[x], e.secSize);
    }
    LiveStays(d.flash[x]);
  }

  /** What is still not quiet after the collection was so before, in a clean sector. */
  lemma SweptQuietExcept(f: seq<Sector>, g: seq<Sector>, start: nat, bad: set<Loc>)
    requires SweptFrom(f, g, start, 0) && QuietExcept(f, bad)
    ensures QuietExcept(g, InClean(f, bad))
    ensures forall b ::
      b in bad && b.sec < |f| && !IsDirty(f[b.sec]) && f[b.sec].Sector? && b.node < |f[b.sec].nodes|
      ==> g[b.sec].Sector? && b.node < |g[b.sec].nodes| && g[b.sec].nodes[b.node] == f[b.sec].nodes[b.node]
  {
    hide Intact;
    var left := InClean(f, bad);
    forall x: nat, y: nat | x < |g| && g[x].Sector? && y < |g[x].nodes| && Loc(x, y) !in left ensures Quiet(g[x].nodes[y]) {
      assert Swept(f[RingPos(start, Steps(start, x, |f|), |f|)], g[RingPos(start, Steps(start, x, |f|), |f|)], true);
      if !IsDirty(f[x]) && f[x].Sector? && y < |f[x].nodes| {
        assert Loc(x, y) !in bad;
        assert Quiet(f[x].nodes[y]);
      }
    }
    forall b | b in bad && b.sec < |f| && !IsDirty(f[b.sec]) && f[b.sec].Sector? && b.node < |f[b.sec].nodes|
      ensures g[b.sec].Sector? && b.node < |g[b.sec].nodes| && g[b.sec].nodes[b.node] == f[b.sec].nodes[b.node]
    {
      assert Swept(f[RingPos(start, Steps(start, b.sec, |f|), |f|)], g[RingPos(start, Steps(start, b.sec, |f|), |f|)], true);
    }
  }

  // ------------------------------------------------------------ the rounds

  /** The database after its last round is at rest and holds `m`. */
  ghost predicate Ends(r: Option<Db>, m: Table) {
    r.Some? && Opens(Some(r.value.(recovering := false)), m)
  }

  lemma OwesOld(e: Db, l: Loc, b: Loc, key: Key, m: Table)
    requires OldAside(e, l, key, m) && QuietExcept(e.flash, {l, b})
    requires b == l || (At(e, b.sec, b.node) && IsTorn(e.flash[b.sec].nodes[b.node]))
    ensures Owing(e.flash, Some(l), key, m)
  {
    hide NodeCrc, ReadName, Contents, Opening;
    OwedAlone(e.flash, l, b);
  }

  lemma OwedAlone(f: seq<Sector>, l: Loc, b: Loc)
    requires QuietExcept(f, {l, b})
    requires b == l || (b.sec < |f| && f[b.sec].Sector? && b.node < |f[b.sec].nodes| && IsTorn(f[b.sec].nodes[b.node]))
    ensures forall x: nat, y: nat ::
      x < |f| && f[x].Sector? && y < |f[x].nodes| && IsPending(f[x].nodes[y]) ==> Some(l) == Some(Loc(x, y))
  {
    hide NodeCrc;
    forall x: nat, y: nat | x < |f| && f[x].Sector? && y < |f[x].nodes| && IsPending(f[x].nodes[y]) ensures Loc(x, y) == l {
      assert Loc(x, y) !in {l, b} ==> Quiet(f[x].nodes[y]);
    }
  }

  lemma OwesNew(e: Db, l: Loc, key: Key, m: Table)
    requires LeftReplaced(e, l, key, m)
    ensures Owing(e.flash, Some(l), key, m)
  {
    hide NodeCrc, ReadName, Contents, Opening;
    assert {l, l} == {l};
    OwedAlone(e.flash, l, l);
  }

  /** After the collection the pending node of a dirty sector is settled, and at most a torn one is left to abandon. */
  lemma DirtyEnds(e: Db, l: Loc, b: Loc, key: Key, m: Table)
    requires Opening(e, {l.sec}) && Owing(e.flash, Some(l), key, m) && Count(e.flash, Empty) == 1
    requires l.sec < |e.flash| && IsDirty(e.flash[l.sec]) && QuietExcept(e.flash, {l, b})
    requires b == l || (At(e, b.sec, b.node) && IsTorn(e.flash[b.sec].nodes[b.node]))
    ensures Ends(RecoverRounds(Tidied(e), 1), m)
  {
    hide NodeCrc, ReadName, Contents, Opening, Owing, RecoverPass, RecoverNode, Quiet, Opens, SweptFrom, Tidied, QuietExcept, IsDirty, RecoverRounds, Count, OnlySettles, Holds;
    OpeningRequest(e, {l.sec});
    TidiedOpens(e, l, key, m);
    var d := Tidied(e);
    HoldsOwedAny(d.flash, key, m);
    SweptQuietExcept(e.flash, d.flash, e.oldest, {l, b});
    var left := InClean(e.flash, {l, b});
    if b != l && !IsDirty(e.flash[b.sec]) {
      assert left == {b};
      PassTorn(d, {}, b, {b});
      AbandonTorn(d, {}, b.sec, b.node);
      var r := RecoverNode(d, b.sec, b.node).db;
      SettlesQuiet(d.flash, r.flash, b, {b});
      assert {b} - {b} == {};
      OpeningRequest(r, {});
      RoundEnds(d, r, 1);
      SameHolds(d.flash, r.flash, m);
      OpenedHolds(r, m);
    } else {
      assert left == {};
      PassQuiet(d);
      OpeningRequest(d, {});
      RoundEnds(d, d, 1);
      OpenedHolds(d, m);
    }
  }

  lemma SameHolds(f: seq<Sector>, g: seq<Sector>, m: Table)
    requires Holds(f, m) && Contents(g, false) == Contents(f, false)
    ensures Holds(g, m)
  {
    hide FlashTo;
  }

  lemma HoldsOwedAny(flash: seq<Sector>, key: Key, m: Table)
    ensures Owing(flash, None, key, m) ==> Holds(flash, m)
  {
    hide Contents, IsPending;
  }

  lemma OpeningRequest(e: Db, loose: set<nat>)
    requires Opening(e, loose)
    ensures !e.gcRequest && e.recovering && e.oldest < |e.flash|
  {
    hide WfShape, WfSector, Count;
  }

  /** The pending node comes first and finds no room: the collection settles it. */
  lemma RetryDirty(e: Db, l: Loc, b: Loc, key: Key, m: Table)
    requires Opening(e, {l.sec}) && Owing(e.flash, Some(l), key, m) && At(e, l.sec, l.node) && IsPending(e.flash[l.sec].nodes[l.node])
    requires IsDirty(e.flash[l.sec]) && QuietExcept(e.flash, {l, b}) && !CanCopy(e, l.sec, l.node)
    requires b == l || (At(e, b.sec, b.node) && IsTorn(e.flash[b.sec].nodes[b.node]) && !Precedes(e, b, l))
    ensures Ends(RecoverRounds(e, 2), m)
  {
    hide NodeCrc, ReadName, Contents, Opening, Owing, RecoverPass, Quiet, Opens, Tidied, QuietExcept, IsDirty, RecoverRounds, Count, CanCopy, IsPending, IsTorn;
    OpeningRequest(e, {l.sec});
    PassAsks(e, l, {l, b});
    RoundOn(e, 2);
    DirtyEnds(e, l, b, key, m);
  }

  // ------------------------------------------------------------ a pending node in a clean sector

  lemma {:induction false} CleanRound(d: Db, k: nat, start: nat, freeSize: nat, last: nat)
    requires Shaped(d) && start < |d.flash| && k <= |d.flash| && last < |d.flash| && forall i :: 0 <= i < |d.flash| ==> !IsDirty(d.flash[i])
    ensures GcFrom(d, start, k, freeSize, last) == d
    decreases |d.flash| - k
  {
    hide WfShape, GcSector, IsDirty;
    if k < |d.flash| {
      CleanPassed(d, RingPos(start, k, |d.flash|), freeSize, last);
      CleanRound(d, k + 1, start, freeSize, last);
    }
  }

  /** Where nothing is dirty a collection changes nothing. */
  lemma TidyIdle(d: Db)
    requires Shaped(d) && !d.gcRequest && forall i :: 0 <= i < |d.flash| ==> !IsDirty(d.flash[i])
    ensures Tidied(d) == d
  {
    hide WfShape, GcFrom, LastEmpty, Count, IsDirty;
    var g := d.(gcRequest := true);
    RequestShapedOn(d);
    CleanRound(g, 0, d.oldest, |d.flash| * d.secSize, LastEmpty(d.flash, d.oldest, |d.flash|));
    assert g.(gcRequest := false) == d;
  }

  lemma RequestShapedOn(d: Db)
    requires Shaped(d)
    ensures Shaped(d.(gcRequest := true))
  {
    hide WfShape;
  }

  /** Without room the retry loop goes on for ever. */
  lemma {:induction false} StuckForever(d: Db, l: Loc, rounds: nat)
    requires Opening(d, {l.sec}) && At(d, l.sec, l.node) && QuietExcept(d.flash, {l})
    requires IsPending(d.flash[l.sec].nodes[l.node]) && !CanCopy(d, l.sec, l.node)
    requires forall i :: 0 <= i < |d.flash| ==> !IsDirty(d.flash[i])
    ensures d.oldest < |d.flash| && RecoverRounds(d, rounds) == None
    decreases rounds
  {
    hide NodeCrc, Opening, RecoverPass, Quiet, Tidied, QuietExcept, IsDirty, CanCopy, IsPending, Count, GcCollect;
    OpeningRequest(d, {l.sec});
    if 0 < rounds {
      PassAsks(d, l, {l});
      RoundOn(d, rounds);
      OpeningShaped(d, {l.sec});
      TidyIdle(d);
      StuckForever(d, l, rounds - 1);
    }
  }

  /** The pending node is in a clean sector: the loop ends exactly if there is room after a collection. */
  lemma RetryClean(e: Db, l: Loc, key: Key, m: Table)
    requires OldAside(e, l, key, m) && QuietExcept(e.flash, {l}) && !IsDirty(e.flash[l.sec]) && !CanCopy(e, l.sec, l.node)
    ensures StuckAt(e, l) ==> forall rounds: nat :: RecoverRounds(e, rounds) == None
    ensures !StuckAt(e, l) ==> Ends(RecoverRounds(e, 2), m)
  {
    hide NodeCrc, ReadName, Contents, Opening, Owing, RecoverPass, RecoverNode, Quiet, Opens, SweptFrom, Tidied, QuietExcept, IsDirty, RecoverRounds, Count, CanCopy, IsPending;
    assert {l, l} == {l};
    OpeningRequest(e, {l.sec});
    PassAsks(e, l, {l});
    OwesOld(e, l, l, key, m);
    TidiedOpens(e, l, key, m);
    var d := Tidied(e);
    SweptQuietExcept(e.flash, d.flash, e.oldest, {l});
    assert InClean(e.flash, {l}) == {l};
    SweptIsClean(e.flash, d.flash, e.oldest);
    if CanCopy(d, l.sec, l.node) {
      RoundOn(e, 2);
      CleanSettles(d, l, key, m);
    } else {
      forall rounds: nat ensures RecoverRounds(e, rounds) == None {
        NoRounds(e);
        if 0 < rounds {
          RoundOn(e, rounds);
          StuckForever(d, l, rounds - 1);
        }
      }
    }
  }

  lemma NoRounds(e: Db)
    requires e.oldest < |e.flash|
    ensures RecoverRounds(e, 0) == None
  {}

  /** With room the pending node is settled in the next round. */
  lemma CleanSettles(d: Db, l: Loc, key: Key, m: Table)
    requires Opening(d, {l.sec}) && Owing(d.flash, Some(l), key, m) && QuietExcept(d.flash, {l}) && CanCopy(d, l.sec, l.node)
    ensures d.oldest < |d.flash| && Ends(RecoverRounds(d, 1), m)
  {
    hide NodeCrc, ReadName, Contents, Opening, RecoverPass, RecoverNode, Quiet, Opens, QuietExcept, RecoverRounds, Count, CanCopy, OnlySettles, Intact;
    OpeningRequest(d, {l.sec});
    var r := RecoverNode(d, l.sec, l.node).db;
    if Holds(d.flash, m) {
      EntryIs(m, (key, m[key]));
      DropOld(d, l.sec, l.node, m[key]);
      SameHolds(d.flash, r.flash, m);
    } else {
      PendingEntry(d.flash[l.sec].nodes[l.node], key, m);
      RestoredHolds(d, l, key, m);
    }
    PassPending(d, l, r);
    OpeningRequest(r, {});
    RoundEnds(d, r, 1);
    OpenedHolds(r, m);
  }

  lemma PendingEntry(node: Node, key: Key, m: Table)
    requires IsPending(node) && Name(node) == key && key in m && Value(node) == m[key]
    ensures EntryOf(node) == (key, m[key])
  {
    hide NodeCrc, ReadName;
  }

  // ------------------------------------------------------------ opening

  lemma LoadIsRounds(secSize: nat, f: seq<Sector>, loose: set<nat>, rounds: nat)
    requires 0 < |f| && Opening(Fresh(secSize, f), loose)
    ensures var r := RecoverRounds(Fresh(secSize, f), rounds);
      Load(secSize, f, rounds) == if r.None? then None else Some(r.value.(recovering := false))
  {
    hide RecoverPass, WfSector, Count, Off, WfNode, RecoverRounds;
    var e := Fresh(secSize, f);
    forall x | 0 <= x < |f| ensures f[x].Sector? && Unvictimized(f[x]) {
      assert WfShape(e.flash[x], e.secSize);
    }
    CheckNothing(e, 0, 0);
    ResumeNothing(e, e.oldest, 0);
    assert Prepare(secSize, f) == e;
  }

  /** One round more makes no difference once the loop has ended. */
  lemma OneMore(secSize: nat, f: seq<Sector>)
    requires 0 < |f| && Load(secSize, f, 1).Some?
    ensures Load(secSize, f, 2) == Load(secSize, f, 1)
  {
    hide RecoverPass, Prepare, GcCollect, Extends;
    var e := Prepare(secSize, f);
    assert RecoverRounds(e, 1).Some?;
    var d := RecoverPass(e, 0);
    NoRounds(GcCollect(d, |d.flash| * d.secSize));
    assert !d.gcRequest;
  }

  /** What opening makes of what a cut of a `set` of `key` to `value` has left of a log holding `m`, if need be with a
      collection: the old or the new map at rest or, when a torn node comes first, the old one without the key, and
      all of it after one more opening. */
  ghost predicate Retried(secSize: nat, f: seq<Sector>, key: Key, value: seq<byte>, m: Table) {
    && 0 < |f|
    && var d := Load(secSize, f, 2);
    && d.Some?
    && (!TornFirst(Fresh(secSize, f)) ==> Opens(d, m) || Opens(d, m[key := value]))
    && (TornFirst(Fresh(secSize, f)) ==>
          && key in m && Holds(d.value.flash, m - {key}) && AllSearched(d.value.flash)
          && 0 < |d.value.flash| && Opens(Load(secSize, d.value.flash, 2), m))
  }

  lemma RecoversRetried(secSize: nat, f: seq<Sector>, key: Key, value: seq<byte>, m: Table)
    requires Recovers(secSize, f, key, value, m)
    ensures Retried(secSize, f, key, value, m)
  {
    hide Load, Opens, TornFirst, Contents, Fresh;
    OneMore(secSize, f);
    if TornFirst(Fresh(secSize, f)) {
      var g := Load(secSize, f, 1).value.flash;
      OpensSome(Load(secSize, g, 1), m);
      OneMore(secSize, g);
    }
  }

  lemma OpensSome(d: Option<Db>, m: Table)
    requires Opens(d, m)
    ensures d.Some?
  {
    hide Holds, Resting;
  }

  /** A pending node for which there is no room at once, in a dirty sector, no torn node before it. */
  lemma LoadDirty(secSize: nat, f: seq<Sector>, l: Loc, b: Loc, key: Key, m: Table)
    requires var e := Fresh(secSize, f);
      && Opening(e, {l.sec}) && Owing(f, Some(l), key, m) && At(e, l.sec, l.node) && IsPending(f[l.sec].nodes[l.node])
      && IsDirty(f[l.sec]) && QuietExcept(f, {l, b}) && !CanCopy(e, l.sec, l.node)
      && (b == l || (At(e, b.sec, b.node) && IsTorn(f[b.sec].nodes[b.node]) && !Precedes(e, b, l)))
    ensures 0 < |f| && Opens(Load(secSize, f, 2), m)
  {
    hide NodeCrc, ReadName, Contents, Opening, Owing, Quiet, Opens, QuietExcept, IsDirty, RecoverRounds, CanCopy, IsPending, IsTorn, Load, Fresh;
    FreshIs(secSize, f);
    RetryDirty(Fresh(secSize, f), l, b, key, m);
    LoadIsRounds(secSize, f, {l.sec}, 2);
  }

  lemma OnlyStuckAt(e: Db, l: Loc, b: Loc)
    requires e.oldest < |e.flash| && QuietExcept(e.flash, {l, b})
    requires b == l || (At(e, b.sec, b.node) && IsTorn(e.flash[b.sec].nodes[b.node]))
    ensures Stuck(e) <==> StuckAt(e, l)
  {
    hide NodeCrc, Tidied, CanCopy;
    OwedAlone(e.flash, l, b);
  }

  lemma NoneStuck(e: Db)
    requires RoomToRecover(e)
    ensures !Stuck(e)
  {
    hide IsPending, CanCopy, Tidied;
  }

  /** The old node marked, and nothing else. */
  lemma RetriesPending(secSize: nat, f: seq<Sector>, l: Loc, key: Key, value: seq<byte>, m: Table)
    requires LeftPending(Fresh(secSize, f), l, key, m) && !CanCopy(Fresh(secSize, f), l.sec, l.node)
    ensures 0 < |f|
    ensures Stuck(Fresh(secSize, f)) ==> forall rounds: nat :: Load(secSize, f, rounds) == None
    ensures !Stuck(Fresh(secSize, f)) ==> Retried(secSize, f, key, value, m)
  {
    hide NodeCrc, ReadName, Contents, Opening, Owing, Quiet, Opens, QuietExcept, IsDirty, RecoverRounds, CanCopy, IsPending, IsTorn, Load, Fresh, Stuck, StuckAt, TornFirst;
    FreshIs(secSize, f);
    var e := Fresh(secSize, f);
    assert {l, l} == {l};
    OpeningRequest(e, {l.sec});
    OnlyStuckAt(e, l, l);
    PendingNotTorn(e, l);
    NoTornFirst(e, {l});
    if IsDirty(f[l.sec]) {
      OwesOld(e, l, l, key, m);
      NotStuckDirty(e, l);
      LoadDirty(secSize, f, l, l, key, m);
    } else {
      RetryClean(e, l, key, m);
      forall rounds: nat ensures Load(secSize, f, rounds) == None <==> RecoverRounds(e, rounds) == None {
        LoadIsRounds(secSize, f, {l.sec}, rounds);
      }
      LoadIsRounds(secSize, f, {l.sec}, 2);
    }
    if !Stuck(e) {
      OpensSome(Load(secSize, f, 2), m);
    }
  }

  lemma NotStuckDirty(e: Db, l: Loc)
    requires e.oldest < |e.flash|
    ensures l.sec < |e.flash| && IsDirty(e.flash[l.sec]) ==> !StuckAt(e, l)
  {
    hide IsPending, CanCopy, Tidied, IsDirty;
  }

  lemma RetriesReplaced(secSize: nat, f: seq<Sector>, l: Loc, key: Key, value: seq<byte>, m: Table)
    requires LeftReplaced(Fresh(secSize, f), l, key, m[key := value]) && !CanCopy(Fresh(secSize, f), l.sec, l.node)
    ensures !Stuck(Fresh(secSize, f)) && Retried(secSize, f, key, value, m)
  {
    hide NodeCrc, ReadName, Contents, Opening, Owing, Quiet, Opens, QuietExcept, IsDirty, CanCopy, IsPending, IsTorn, Load, Fresh, Stuck, StuckAt, TornFirst, Holds;
    FreshIs(secSize, f);
    var e, n := Fresh(secSize, f), m[key := value];
    assert {l, l} == {l};
    OpeningRequest(e, {l.sec});
    OnlyStuckAt(e, l, l);
    PendingNotTorn(e, l);
    NoTornFirst(e, {l});
    OwesNew(e, l, key, n);
    NotStuckDirty(e, l);
    LoadDirty(secSize, f, l, l, key, n);
    OpensSome(Load(secSize, f, 2), n);
  }

  lemma RetriesBoth(secSize: nat, f: seq<Sector>, l: Loc, b: Loc, key: Key, value: seq<byte>, m: Table)
    requires LeftBoth(Fresh(secSize, f), l, b, key, m) && !CanCopy(Fresh(secSize, f), l.sec, l.node)
    ensures !Stuck(Fresh(secSize, f)) && Retried(secSize, f, key, value, m)
  {
    hide NodeCrc, ReadName, Contents, Opening, Owing, Quiet, Opens, QuietExcept, IsDirty, CanCopy, IsPending, Load, Fresh, Stuck, StuckAt, TornFirst, Holds, RecoverNode;
    FreshIs(secSize, f);
    var e := Fresh(secSize, f);
    OpeningRequest(e, {l.sec});
    OnlyStuckAt(e, l, b);
    NotStuckDirty(e, l);
    OnePendingOneTorn(e, l, b);
    if Precedes(e, b, l) {
      OpenTornFirst(secSize, f, l, b, key, m);
      OneMore(secSize, f);
      PendingNotTorn(e, l);
      TornLeavesPending(secSize, f, l, b, key, m);
      var g := Load(secSize, f, 1).value.flash;
      AgainDirty(secSize, g, l, key, m);
    } else {
      OwesOld(e, l, b, key, m);
      LoadDirty(secSize, f, l, b, key, m);
      OpensSome(Load(secSize, f, 2), m);
    }
  }

  /** The second opening, after the torn node has been abandoned. */
  lemma AgainDirty(secSize: nat, g: seq<Sector>, l: Loc, key: Key, m: Table)
    requires OldAside(Fresh(secSize, g), l, key, m) && QuietExcept(g, {l}) && l.sec < |g| && IsDirty(g[l.sec])
    ensures 0 < |g| && Opens(Load(secSize, g, 2), m)
  {
    hide NodeCrc, ReadName, Contents, Opening, Owing, Quiet, Opens, QuietExcept, IsDirty, CanCopy, IsPending, Load, Fresh, Holds;
    FreshIs(secSize, g);
    var e := Fresh(secSize, g);
    OpeningRequest(e, {l.sec});
    if CanCopy(e, l.sec, l.node) {
      OpenPending(secSize, g, l, key, m);
      OpensSome(Load(secSize, g, 1), m);
      OneMore(secSize, g);
    } else {
      assert {l, l} == {l};
      OwesOld(e, l, l, key, m);
      LoadDirty(secSize, g, l, l, key, m);
    }
  }

  /** The retry loop ends, after two rounds at most, exactly unless the log is stuck; and then all is well. */
  lemma Retries(secSize: nat, f: seq<Sector>, key: Key, value: seq<byte>, m: Table)
    requires CutLeaves(Fresh(secSize, f), key, value, m)
    ensures 0 < |f|
    ensures Stuck(Fresh(secSize, f)) <==> forall rounds: nat :: Load(secSize, f, rounds) == None
    ensures !Stuck(Fresh(secSize, f)) ==> Retried(secSize, f, key, value, m)
  {
    hide NodeCrc, ReadName, Contents, Opening, Owing, Quiet, Opens, QuietExcept, IsDirty, CanCopy, IsPending, IsTorn, Load, Fresh, Stuck, StuckAt, TornFirst, Holds, RoomToRecover,
         LeftQuiet, LeftPending, LeftReplaced, LeftTorn, LeftBoth;
    FreshIs(secSize, f);
    var e := Fresh(secSize, f);
    LeavesSome(e, key, value, m);
    if RoomToRecover(e) {
      NoneStuck(e);
      LeavesRecovers(secSize, f, key, value, m);
      RecoversRetried(secSize, f, key, value, m);
    } else {
      RetriesNoRoom(secSize, f, key, value, m);
    }
  }

  lemma RetriesNoRoom(secSize: nat, f: seq<Sector>, key: Key, value: seq<byte>, m: Table)
    requires CutLeaves(Fresh(secSize, f), key, value, m) && !RoomToRecover(Fresh(secSize, f))
    ensures 0 < |f|
    ensures Stuck(Fresh(secSize, f)) ==> forall rounds: nat :: Load(secSize, f, rounds) == None
    ensures !Stuck(Fresh(secSize, f)) ==> Retried(secSize, f, key, value, m)
  {
    hide NodeCrc, ReadName, Contents, Opening, Owing, Quiet, Opens, IsDirty, CanCopy, Load, Fresh, Stuck, StuckAt, TornFirst, Holds, IsPending, IsTorn, QuietExcept;
    FreshIs(secSize, f);
    var e := Fresh(secSize, f);
    LeavesSome(e, key, value, m);
    var i: nat, j: nat :| At(e, i, j) && IsPending(e.flash[i].nodes[j]) && !CanCopy(e, i, j);
    PendingIs(e, Loc(i, j));
    if l: Loc :| LeftPending(e, l, key, m) {
      OneOf(e, l, l, Loc(i, j));
      RetriesPending(secSize, f, l, key, value, m);
    } else if SomeReplaced(e, key, m[key := value]) {
      var n := m[key := value];
      var l: Loc :| LeftReplaced(e, l, key, n);
      OneOf(e, l, l, Loc(i, j));
      RetriesReplaced(secSize, f, l, key, value, m);
    } else if l: Loc, b: Loc :| LeftBoth(e, l, b, key, m) {
      OneOf(e, l, b, Loc(i, j));
      RetriesBoth(secSize, f, l, b, key, value, m);
    } else {
      NoPending(e, Loc(i, j), key, value, m);
    }
  }

  lemma PendingIs(e: Db, l: Loc)
    requires At(e, l.sec, l.node) && IsPending(e.flash[l.sec].nodes[l.node])
    ensures !Quiet(e.flash[l.sec].nodes[l.node])
  {}

  lemma OneOf(e: Db, l: Loc, b: Loc, c: Loc)
    requires At(e, c.sec, c.node) && IsPending(e.flash[c.sec].nodes[c.node]) && At(e, b.sec, b.node)
    requires QuietExcept(e.flash, {l, b}) || (b == l && QuietExcept(e.flash, {l}))
    requires b == l || IsTorn(e.flash[b.sec].nodes[b.node])
    ensures c == l
  {
    hide NodeCrc;
  }

  lemma NoPending(e: Db, c: Loc, key: Key, value: seq<byte>, m: Table)
    requires At(e, c.sec, c.node) && IsPending(e.flash[c.sec].nodes[c.node])
    ensures !LeftQuiet(e, m) && !LeftQuiet(e, m[key := value]) && forall b: Loc :: !LeftTorn(e, b, m)
  {
    hide NodeCrc, Opening, Contents;
    assert !Quiet(e.flash[c.sec].nodes[c.node]);
    assert c !in {};
  }

  /** A power cut at any write of a `set` that runs no collection: opening, which may have to collect, ends after two
      rounds and recovers, exactly unless the old node has been marked in a clean sector and finds no room even after a
      collection. Then it does not end at all. */
  lemma CutRetries(db: Db, key: Key, value: seq<byte>, m: Table, x: nat)
    requires Resting(db) && Holds(db.flash, m)
    requires Readable(key) && NodeSize(key, value) < 0x1_0000_0000
    requires AllocKv(Begin(db), NodeSize(key, value)).sec.Some?
    requires x < |SetKv(db, key, value).db.log|
    ensures var f := Seen(SetKv(db, key, value).db.log[x]);
      && 0 < |f|
      && (Stuck(Fresh(db.secSize, f)) <==> forall rounds: nat :: Load(db.secSize, f, rounds) == None)
      && (!Stuck(Fresh(db.secSize, f)) ==> Retried(db.secSize, f, key, value, m))
  {
    hide NodeCrc, WfSector, Contents, SpareRoom, Count, Calm, Fresh, SetKv, AllocKv, Find, Holds, CutLeaves, Stuck, Retried, Load, Seen;
    CutShapes(db, key, value, m, x);
    Retries(db.secSize, Seen(SetKv(db, key, value).db.log[x]), key, value, m);
  }
}
