/** Media on which some sectors have no header: opening formats just those, and keeps everything else. */
module KvHeaders {
  import opened Bytes
  import opened Wrappers
  import opened Sectors
  import opened KvModel
  import opened KvContents
  import opened KvInvariant
  import opened KvGc
  import opened KvMap
  import opened KvLoad
  import opened KvCrash
  import opened KvRuns

  function FillHeader(sec: Sector): Sector {
    if sec.Raw? then NewSector else sec
  }

  /** Every sector without a header formatted, the others as they are. */
  function Filled(flash: seq<Sector>): (r: seq<Sector>)
    ensures |r| == |flash| && forall i :: 0 <= i < |flash| ==> r[i] == FillHeader(flash[i])
  {
    seq(|flash|, i requires 0 <= i < |flash| => FillHeader(flash[i]))
  }

  /** What is left of the header check formats just the sectors without a header, and counts them. */
  lemma {:induction false} CheckFills(db: Db, k: nat, failed: nat)
    requires db.oldest < |db.flash| && k <= |db.flash|
    ensures var c := CheckHeaders(db, k, failed); var n := |db.flash|;
      && c.db == db.(flash := c.db.flash, log := c.db.log) && |c.db.flash| == n
      && (forall x :: 0 <= x < n ==>
            c.db.flash[RingPos(db.oldest, x, n)]
            == if x < k then db.flash[RingPos(db.oldest, x, n)] else FillHeader(db.flash[RingPos(db.oldest, x, n)]))
      && failed <= c.failed <= failed + (n - k)
      && (c.failed == failed + (n - k) <==> forall x :: k <= x < n ==> db.flash[RingPos(db.oldest, x, n)].Raw?)
    decreases |db.flash| - k
  {
    hide Format, FillHeader;
    var n := |db.flash|;
    if k < n {
      var i := RingPos(db.oldest, k, n);
      HeaderIs(db.flash[i]);
      if db.flash[i].Raw? {
        FormatFlash(db, i);
        FormatKeeps(db, i);
        assert forall x :: 0 <= x < n && x != k ==> RingPos(db.oldest, x, n) != i;
        CheckFills(Format(db, i), k + 1, failed + 1);
      } else {
        CheckFills(db, k + 1, failed);
      }
    }
  }

  lemma HeaderIs(sec: Sector)
    ensures FillHeader(sec) == if sec.Raw? then NewSector else sec
  {}

  /** The check of all headers. */
  lemma ChecksAll(db: Db)
    requires db.oldest < |db.flash|
    ensures var c := CheckHeaders(db, 0, 0);
      && c.db == db.(flash := Filled(db.flash), log := c.db.log)
      && c.failed <= |db.flash|
      && (c.failed == |db.flash| <==> forall i :: 0 <= i < |db.flash| ==> db.flash[i].Raw?)
  {
    hide FillHeader, CheckHeaders;
    var n := |db.flash|;
    CheckFills(db, 0, 0);
    var c := CheckHeaders(db, 0, 0);
    forall i | 0 <= i < n ensures c.db.flash[i] == Filled(db.flash)[i] {
      assert RingPos(db.oldest, Steps(db.oldest, i, n), n) == i;
    }
    assert c.db.flash == Filled(db.flash);
    if forall x :: 0 <= x < n ==> db.flash[RingPos(db.oldest, x, n)].Raw? {
      forall i | 0 <= i < n ensures db.flash[i].Raw? {
        assert db.flash[RingPos(db.oldest, Steps(db.oldest, i, n), n)].Raw?;
      }
    }
  }

  /** A log at rest of which some sectors have lost, or never had, their header while they held nothing: opening
      writes just those headers, and the map is what it was. */
  lemma OpenFills(db: Db, f: seq<Sector>, m: Table)
    requires Resting(db) && Holds(db.flash, m) && Filled(f) == db.flash
    requires exists i :: 0 <= i < |f| && f[i].Sector?
    ensures 0 < |f|
    ensures var d := Load(db.secSize, f, 1);
      && d.Some? && d.value.flash == db.flash && d.value.secSize == db.secSize
      && Resting(d.value) && Holds(d.value.flash, m) && LogBegins(f, d.value.oldest)
  {
    hide NodeCrc, Contents, WfSector, Count, FindOldest, LogBegins, CheckHeaders, RecoverPass, Resume, Filled, Quiet;
    var e := CheckHeaders(Fresh(db.secSize, f), 0, 0).db;
    assert |Filled(f)| == |f|;
    ChecksAll(Fresh(db.secSize, f));
    RestQuiet(db, e);
    ResumeNothing(e, e.oldest, 0);
    PassQuiet(e);
    assert Prepare(db.secSize, f) == e;
    assert RecoverRounds(e, 1) == Some(e);
    OpenedRests(e);
    OldestIs(f, FindOldest(f));
  }

  lemma RestQuiet(db: Db, e: Db)
    requires Resting(db) && e.flash == db.flash && e.secSize == db.secSize && e.oldest < |e.flash| && e.recovering && !e.gcRequest
    ensures Opening(e, {}) && QuietExcept(e.flash, {})
    ensures forall x :: 0 <= x < |e.flash| ==> Unvictimized(e.flash[x])
  {
    hide NodeCrc, WfNode, Off, Count;
    forall x: nat, y: nat | x < |db.flash| && db.flash[x].Sector? && y < |db.flash[x].nodes| ensures Quiet(db.flash[x].nodes[y]) {
      assert CalmSector(db.flash[x]);
    }
  }

  // ------------------------------------------------------------ a larger medium, a lost header

  function Blanks(n: nat): seq<Sector> {
    seq(n, _ => Raw)
  }

  /** The log with `n` empty sectors more. */
  function Grown(db: Db, n: nat): Db {
    db.(flash := db.flash + seq(n, _ => NewSector))
  }

  lemma {:induction false} ContentsGrown(flash: seq<Sector>, n: nat, i: nat, pd: bool)
    requires i <= |flash| + n
    ensures FlashTo(flash + seq(n, _ => NewSector), i, pd) == FlashTo(flash, if i <= |flash| then i else |flash|, pd)
  {
    hide SectorEntries;
    if i > 0 {
      ContentsGrown(flash, n, i - 1, pd);
      if i > |flash| {
        NoneIn(pd);
      }
    }
  }

  lemma NoneIn(pd: bool)
    ensures SectorEntries(NewSector, pd) == multiset{}
  {}

  lemma NewIsWf(secSize: nat)
    ensures WfSector(NewSector, secSize) && CalmSector(NewSector) && Unvictimized(NewSector)
  {}

  lemma GrownRests(db: Db, n: nat, m: Table)
    requires Resting(db) && Holds(db.flash, m)
    ensures Resting(Grown(db, n)) && Holds(Grown(db, n).flash, m)
  {
    hide WfSector, CalmSector, Unvictimized, FlashTo, CountStore;
    var f := Grown(db, n).flash;
    ContentsGrown(db.flash, n, |db.flash| + n, false);
    var e := CountWitness(db.flash, Empty, |db.flash|);
    CountPositive(f, Empty, e, |f|);
    forall i | 0 <= i < |f| ensures WfSector(f[i], db.secSize) && CalmSector(f[i]) && Unvictimized(f[i]) {
      if |db.flash| <= i {
        NewIsWf(db.secSize);
      } else {
        assert f[i] == db.flash[i] && WfSector(db.flash[i], db.secSize) && CalmSector(db.flash[i]) && Unvictimized(db.flash[i]);
      }
    }
  }

  /** A log at rest opens on a medium to which any number of blank sectors has been added. */
  lemma OpenGrown(db: Db, n: nat, m: Table)
    requires Resting(db) && Holds(db.flash, m)
    ensures var d := Load(db.secSize, db.flash + Blanks(n), 1);
      && d.Some? && d.value.flash == Grown(db, n).flash
      && Resting(d.value) && Holds(d.value.flash, m)
  {
    hide NodeCrc, Contents, Count, WfSector, Load, Calm;
    GrownRests(db, n, m);
    AllHeaders(db);
    var f := db.flash + Blanks(n);
    assert f[0] == db.flash[0];
    assert Filled(f) == Grown(db, n).flash;
    OpenFills(Grown(db, n), f, m);
  }

  lemma AllHeaders(db: Db)
    requires WfDb(db)
    ensures forall i :: 0 <= i < |db.flash| ==> db.flash[i].Sector? && (db.flash[i].store == Empty ==> db.flash[i] == NewSector)
  {
    forall i | 0 <= i < |db.flash| ensures db.flash[i].Sector? && (db.flash[i].store == Empty ==> db.flash[i] == NewSector) {
      assert WfSector(db.flash[i], db.secSize);
    }
  }

  /** And with the header of an empty sector missing, as a cut between erasing and formatting leaves it. */
  lemma OpenErased(db: Db, i: nat, m: Table)
    requires Resting(db) && Holds(db.flash, m) && i < |db.flash| && HasStore(db.flash[i], Empty)
    ensures var d := Load(db.secSize, db.flash[i := Raw], 1);
      && d.Some? && d.value.flash == db.flash
      && Resting(d.value) && Holds(d.value.flash, m)
  {
    hide NodeCrc, Contents, Count, WfSector, Load, Calm;
    AllHeaders(db);
    var f := db.flash[i := Raw];
    var x := if i == 0 then 1 else 0;
    assert f[x].Sector?;
    assert Filled(f) == db.flash;
    OpenFills(db, f, m);
  }
}
