/** Power cuts during `del`. */
module KvDelete {
  import opened Bytes
  import opened Wrappers
  import opened Sectors
  import opened KvModel
  import opened KvContents
  import opened KvInvariant
  import opened KvGc
  import opened KvMap
  import opened KvLoad
  import opened KvCrash
  import opened KvPowerCut

  /** The record has been marked deleted; its sector is marked dirty, or as it was. */
  function Struck(db: Db, l: Loc, dirty: DirtyStatus): seq<Sector>
    requires At(db, l.sec, l.node) && db.flash[l.sec].nodes[l.node].Node?
  {
    db.flash[l.sec := MarkNode(db.flash[l.sec].(dirty := dirty), l.node, Deleted)]
  }

  /** The states of a deletion: before it, with the record marked, and with its sector marked as well if it was clean. */
  lemma DeleteStates(db: Db, key: Key, m: Table, x: nat)
    requires Resting(db) && Holds(db.flash, m) && x < |DelKv(db, key).db.log|
    ensures x == 0 ==> DelKv(db, key).db.log[x] == db.flash
    ensures x > 0 ==> key in m && Find(db, key).Some?
    ensures x > 0 ==>
      var l := Find(db, key).value;
      && At(db, l.sec, l.node) && Live(db.flash[l.sec].nodes[l.node])
      && var f := DelKv(db, key).db.log[x];
        && (f == Struck(db, l, db.flash[l.sec].dirty) || f == Struck(db, l, True))
        && Holds(f, m - {key})
  {
    hide NodeCrc, ReadName, WfSector, Contents, Find, Count, Calm, FindFrom, Matches;
    FindIgnoresLog(db, key);
    DelRefinesMap(db, key, m);
    if Find(db, key).Some? {
      FoundNode(db, m, key);
      var l := Find(db, key).value;
      var b := Begin(db);
      MarkDelTrades(b, l.sec, l.node, true, false);
      if 0 < x {
        MarkLogIs(b, l, x);
      }
    }
  }

  lemma MarkLogIs(b: Db, l: Loc, x: nat)
    requires At(b, l.sec, l.node) && b.flash[l.sec].nodes[l.node].Node? && |b.log| == 1 && 0 < x
    ensures var d := MarkDel(b, l.sec, l.node, true);
      x < |d.log| ==> d.log[x] == Struck(b, l, b.flash[l.sec].dirty) || d.log[x] == Struck(b, l, True)
  {
    var sec := b.flash[l.sec];
    var steps := MarkSteps(sec, l.node, Deleted);
    assert sec.(dirty := sec.dirty) == sec;
    assert forall y :: 0 <= y < |steps| ==>
      steps[y] == MarkNode(sec.(dirty := sec.dirty), l.node, Deleted) || steps[y] == MarkNode(sec.(dirty := True), l.node, Deleted);
  }

  lemma StruckOpening(db: Db, l: Loc, dirty: DirtyStatus)
    requires Resting(db) && At(db, l.sec, l.node) && Live(db.flash[l.sec].nodes[l.node])
    requires dirty == db.flash[l.sec].dirty || dirty == True
    ensures var f := Struck(db, l, dirty);
      && Opening(Fresh(db.secSize, f), {l.sec}) && QuietExcept(f, {})
      && (IsDirty(f[l.sec]) ==> Opening(Fresh(db.secSize, f), {}))
      && (!IsDirty(f[l.sec]) ==> !WfSector(f[l.sec], db.secSize))
  {
    hide NodeCrc, ReadName, Off, Contents, SectorEntries, FindOldest;
    var i, j := l.sec, l.node;
    var sec := db.flash[i];
    var struck := MarkNode(sec.(dirty := dirty), j, Deleted);
    var f := db.flash[i := struck];
    CalmIsQuiet(db);
    assert WfSector(sec, db.secSize) && Unvictimized(sec);
    WfMark(sec, db.secSize, j, Deleted, True);
    assert MarkNode(sec.(dirty := True), j, Deleted).(dirty := dirty) == struck;
    CountUpdate(db.flash, i, struck, Empty, |db.flash|);
    forall x: nat, y: nat | x < |f| && f[x].Sector? && y < |f[x].nodes| ensures Quiet(f[x].nodes[y]) {
      if Loc(x, y) != l {
        assert f[x].nodes[y] == db.flash[x].nodes[y];
        assert Loc(x, y) !in {};
      }
    }
    assert Going(struck.nodes[j]);
  }

  /** A power cut at any write of a deletion, then opening, which writes nothing: the key has its value or is gone, and
      every other key has its own. The store is at rest again exactly if the sector of the deleted record is dirty: a cut
      between the two writes leaves a deleted record in a clean sector, which no collection finds. */
  lemma CutDelete(db: Db, key: Key, m: Table, x: nat)
    requires Resting(db) && Holds(db.flash, m) && x < |DelKv(db, key).db.log|
    ensures var f := DelKv(db, key).db.log[x];
      && 0 < |f| && Load(db.secSize, f, 1).Some?
      && var d := Load(db.secSize, f, 1).value;
        && d.flash == f && AllSearched(d.flash)
        && Holds(d.flash, if x == 0 then m else m - {key})
        && (Resting(d) <==> (x == 0 || (Find(db, key).Some? && Find(db, key).value.sec < |f| && IsDirty(f[Find(db, key).value.sec]))))
  {
    hide NodeCrc, ReadName, WfSector, Contents, Find, Count, Calm, Opening, QuietExcept, RecoverPass, Load, DelKv, Quiet;
    DeleteStates(db, key, m, x);
    var f := DelKv(db, key).db.log[x];
    if x == 0 {
      OpeningRest(db);
      CalmIsQuiet(db);
      FreshIs(db.secSize, f);
      OpenQuiet(db.secSize, f, m);
    } else {
      var l := Find(db, key).value;
      var dirty := if f == Struck(db, l, db.flash[l.sec].dirty) then db.flash[l.sec].dirty else True;
      StruckOpening(db, l, dirty);
      OpensAsIs(db.secSize, f, l.sec, m - {key});
      StruckRests(db.secSize, f, l.sec);
    }
  }

  /** A log in which nothing is pending opens as it is. */
  lemma OpensAsIs(secSize: nat, f: seq<Sector>, i: nat, m: Table)
    requires 0 < |f| && Opening(Fresh(secSize, f), {i}) && QuietExcept(f, {}) && Holds(f, m)
    ensures Load(secSize, f, 1) == Some(Fresh(secSize, f).(recovering := false)) && AllSearched(f)
  {
    hide Contents, Quiet, WfShape, WfSector, RecoverPass, Load, Scan, Count;
    FreshIs(secSize, f);
    var e := Fresh(secSize, f);
    PassIsScan(e, 0);
    ScanToEnd(e, 0, 0);
    LoadIsPass(secSize, f, {i}, e);
    ShapeSearched(e, {i});
  }

  lemma StruckRests(secSize: nat, f: seq<Sector>, i: nat)
    requires i < |f| && Opening(Fresh(secSize, f), {i}) && QuietExcept(f, {})
    requires IsDirty(f[i]) ==> Opening(Fresh(secSize, f), {})
    requires !IsDirty(f[i]) ==> !WfSector(f[i], secSize)
    ensures Resting(Fresh(secSize, f).(recovering := false)) <==> IsDirty(f[i])
  {
    hide Contents, Quiet, WfShape, WfSector, Count, Calm, Opening, QuietExcept;
    FreshIs(secSize, f);
    if IsDirty(f[i]) {
      OpenedRests(Fresh(secSize, f));
    }
  }
}
