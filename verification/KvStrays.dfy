/** Stray bytes: which stores a collection can work on although they hold some. */
module KvStrays {
  import opened Bytes
  import opened Sectors
  import opened Wrappers
  import opened KvModel
  import opened KvInvariant
  import opened KvScan

  /** No intact record ends in an erased byte. */
  predicate NoErasedEnds(flash: seq<Sector>) {
    forall i: nat, j: nat :: i < |flash| && flash[i].Sector? && j < |flash[i].nodes| && Intact(flash[i].nodes[j]) ==> !EndsErased(flash[i].nodes[j])
  }

  /** Whatever record is moved where, the ends of all sectors show. */
  predicate Blunt(flash: seq<Sector>) {
    AllShowEnd(flash) && NoErasedEnds(flash)
  }

  /** Moving records does not hide the end of a sector. */
  predicate Firm(flash: seq<Sector>) {
    NoStray(flash) || Blunt(flash)
  }

  lemma FirmShows(flash: seq<Sector>)
    requires Firm(flash)
    ensures AllShowEnd(flash)
  {
    if NoStray(flash) {
      NoStrayShows(flash);
    }
  }

  lemma BluntPut(f: seq<Sector>, i: nat, sec: Sector)
    requires Blunt(f) && i < |f| && EndShows(sec)
    requires sec.Sector? ==> forall j :: 0 <= j < |sec.nodes| ==> Intact(sec.nodes[j]) ==> !EndsErased(sec.nodes[j])
    ensures Blunt(f[i := sec])
  {
    hide EndShows, Intact, EndsErased;
  }

  lemma BluntMark(f: seq<Sector>, i: nat, j: nat, st: KvStatus, dirty: DirtyStatus)
    requires Blunt(f) && i < |f| && f[i].Sector? && j < |f[i].nodes| && f[i].nodes[j].Node?
    ensures Blunt(f[i := MarkNode(f[i].(dirty := dirty), j, st)])
  {
    hide NodeCrc, EndShows;
    assert EndShows(f[i]);
    MarkShows(f[i], j, st, dirty);
    var sec := MarkNode(f[i].(dirty := dirty), j, st);
    forall x | 0 <= x < |sec.nodes| && Intact(sec.nodes[x]) ensures !EndsErased(sec.nodes[x]) {
      assert Intact(f[i].nodes[x]);
    }
    BluntPut(f, i, sec);
  }

  lemma BluntHold(f: seq<Sector>, t: nat, store: StoreStatus, node: Node)
    requires Blunt(f) && t < |f| && f[t].Sector? && Intact(node) && !EndsErased(node)
    ensures Blunt(f[t := Hold(f[t].(store := store), node.(st := Write))])
  {
    hide NodeCrc;
    var sec := Hold(f[t].(store := store), node.(st := Write));
    forall x | 0 <= x < |sec.nodes| && Intact(sec.nodes[x]) ensures !EndsErased(sec.nodes[x]) {
      assert x < |f[t].nodes| ==> sec.nodes[x] == f[t].nodes[x];
    }
    BluntPut(f, t, sec);
  }

  lemma MarkDelBlunt(db: Db, i: nat, j: nat, complete: bool)
    requires At(db, i, j) && db.flash[i].nodes[j].Node? && Blunt(db.flash)
    ensures Blunt(MarkDel(db, i, j, complete).flash)
  {
    hide Blunt, MarkNode, MarkDel;
    MarkDelFlash(db, i, j, complete);
    var sec := db.flash[i];
    BluntMark(db.flash, i, j, if complete then Deleted else PreDelete, if sec.dirty == False then True else sec.dirty);
  }

  lemma CopyBlunt(db: Db, t: nat, node: Node)
    requires Formatted(db, t) && Intact(node) && !EndsErased(node) && Blunt(db.flash)
    ensures Blunt(CopyTo(db, t, node).flash)
  {
    hide Blunt, Hold, CopyTo, NodeCrc, Opened;
    CopyFlash(db, t, node);
    BluntHold(db.flash, t, Opened(db, t, node.Len()), node);
    assert OpenedSector(db, t, node.Len()) == db.flash[t].(store := Opened(db, t, node.Len()));
  }

  /** A move keeps a store in which records may be moved freely. */
  lemma MoveBlunt(db: Db, i: nat, j: nat)
    requires db.oldest < |db.flash| && At(db, i, j) && Intact(db.flash[i].nodes[j]) && Blunt(db.flash)
    ensures Blunt(MoveKv(db, i, j).db.flash)
  {
    hide NodeCrc, MarkDel, CopyTo, AllocKv, Find, HasRoom, Extends, Blunt;
    var node := db.flash[i].nodes[j];
    assert !EndsErased(node) by { BluntNode(db.flash, i, j); }
    MarkDelBlunt(db, i, j, false);
    var d1 := if node.st == Write then MarkDel(db, i, j, false) else db;
    ExtendsSelf(db.flash);
    AtExtends(db, d1, i, j);
    ExtendsLength(db.flash, d1.flash);
    SameIntact(d1.flash[i].nodes[j], node);
    var a := AllocKv(d1, node.Len());
    if a.sec.Some? {
      if a.db.recovering && node.st == PreDelete && Find(a.db, Name(node)).Some? {
        MarkDelBlunt(a.db, i, j, true);
      } else {
        RoomIsFormatted(a.db, node.Len(), a.sec.value);
        CopyBlunt(a.db, a.sec.value, node);
        var d2 := CopyTo(a.db, a.sec.value, node);
        AtExtends(a.db, d2, i, j);
        SameIntact(d2.flash[i].nodes[j], node);
        MarkDelBlunt(d2, i, j, true);
      }
    }
  }

  lemma BluntNode(flash: seq<Sector>, i: nat, j: nat)
    requires Blunt(flash) && i < |flash| && flash[i].Sector? && j < |flash[i].nodes| && Intact(flash[i].nodes[j])
    ensures !EndsErased(flash[i].nodes[j])
  {
    hide EndsErased, Intact;
  }

  lemma MoveFirm(db: Db, i: nat, j: nat)
    requires db.oldest < |db.flash| && At(db, i, j) && Intact(db.flash[i].nodes[j]) && Firm(db.flash)
    ensures var g := MoveKv(db, i, j).db.flash;
      && Firm(g) && AllShowEnd(g) && (NoStray(db.flash) ==> NoStray(g))
      && (Scannable(db.flash, db.secSize) ==> Scannable(g, db.secSize)) && (AllIntact(db.flash) ==> AllIntact(g))
  {
    hide MoveKv, NoStray, Blunt, Intact, Scannable, AllIntact, AllShowEnd;
    MoveScans(db, i, j);
    if Blunt(db.flash) {
      MoveBlunt(db, i, j);
    }
    FirmShows(MoveKv(db, i, j).db.flash);
  }

  /** A victim is in use, and stays as it is when it is marked as such. */
  lemma VictimFirm(flash: seq<Sector>, i: nat)
    requires Firm(flash) && i < |flash| && flash[i].Sector?
    ensures var f := flash[i := flash[i].(dirty := Gc)];
      Firm(f) && AllShowEnd(f) && (NoStray(flash) ==> NoStray(f))
  {
    hide EndsErased, Intact;
    var f := flash[i := flash[i].(dirty := Gc)];
    if Blunt(flash) {
      assert EndShows(flash[i]);
      BluntPut(flash, i, f[i]);
    } else {
      assert NoStraySector(flash[i]);
    }
    FirmShows(f);
  }

  lemma FormatFirm(db: Db, i: nat)
    requires i < |db.flash| && Firm(db.flash)
    ensures var f := Format(db, i).flash;
      Firm(f) && AllShowEnd(f) && (NoStray(db.flash) ==> NoStray(f))
  {
    var f := Format(db, i).flash;
    assert f == db.flash[i := Sector(Empty, False, [])];
    if Blunt(db.flash) {
      BluntPut(db.flash, i, Sector(Empty, False, []));
    }
    FirmShows(f);
  }

  /** Allocating room for `size` bytes begins with a collection. */
  ghost predicate AsksForRoom(db: Db, size: nat)
    requires db.oldest < |db.flash|
  {
    AllocKv(db, size).sec.None? && AllocKv(db, size).db.gcRequest
  }

  lemma AsksIgnoresLog(db: Db, size: nat)
    requires db.oldest < |db.flash|
    ensures AsksForRoom(Begin(db), size) <==> AsksForRoom(db, size)
  {
    hide AllocScan;
    ScanIgnoresLog(db, Using, size, 0);
    ScanIgnoresLog(db, Empty, size, 0);
  }

  lemma {:induction false} ScanIgnoresLog(db: Db, want: StoreStatus, size: nat, k: nat)
    requires db.oldest < |db.flash| && k <= |db.flash|
    ensures AllocScan(Begin(db), want, size, k) == AllocScan(db, want, size, k)
    decreases |db.flash| - k
  {
    hide Used;
    if k < |db.flash| {
      ScanIgnoresLog(db, want, size, k + 1);
    }
  }

  lemma EndsKept(f: seq<Sector>, g: seq<Sector>, size: nat)
    requires KeepsScan(f, g, size, true)
    ensures AllShowEnd(f) ==> AllShowEnd(g)
  {}

  /** The record written by `set` ends in an erased byte, and the sector it goes to holds a stray one. */
  ghost predicate HidesEnd(db: Db, key: seq<byte>, value: seq<byte>)
    requires db.oldest < |db.flash| && NodeSize(key, value) < 0x1_0000_0000
  {
    var a := NewKv(Begin(db), NodeSize(key, value));
    && a.sec.Some? && |key| <= KV_NAME_MAX && NodeSize(key, value) + SECTOR_HDR <= db.secSize
    && EndsErased(NewNode(Write, key, value)) && !NoStraySector(a.db.flash[a.sec.value])
  }

  lemma MarkEndShows(sec: Sector, j: nat, st: KvStatus, dirty: DirtyStatus)
    requires sec.Sector? && j < |sec.nodes| && sec.nodes[j].Node?
    ensures var m := MarkNode(sec.(dirty := dirty), j, st);
      (NoStraySector(m) <==> NoStraySector(sec)) && (EndShows(m) <==> EndShows(sec))
  {
    var m := MarkNode(sec.(dirty := dirty), j, st);
    forall y | 0 <= y < |sec.nodes| ensures m.nodes[y].Stray? <==> sec.nodes[y].Stray? {}
  }

  lemma MarkDelShows(db: Db, i: nat, j: nat, complete: bool)
    requires At(db, i, j) && db.flash[i].nodes[j].Node?
    ensures var d := MarkDel(db, i, j, complete);
      && (AllShowEnd(d.flash) <==> AllShowEnd(db.flash)) && |d.flash| == |db.flash|
      && forall t :: 0 <= t < |db.flash| ==> (NoStraySector(d.flash[t]) <==> NoStraySector(db.flash[t]))
  {
    hide NoStraySector, EndShows, MarkNode, MarkDel;
    MarkDelFlash(db, i, j, complete);
    var d := MarkDel(db, i, j, complete);
    var sec := db.flash[i];
    MarkEndShows(sec, j, if complete then Deleted else PreDelete, if sec.dirty == False then True else sec.dirty);
    assert forall t :: 0 <= t < |db.flash| && t != i ==> d.flash[t] == db.flash[t];
    assert EndShows(d.flash[i]) <==> EndShows(db.flash[i]);
  }

  lemma CreateShows(db: Db, t: nat, key: seq<byte>, value: seq<byte>)
    requires AllShowEnd(db.flash) && NodeSize(key, value) < 0x1_0000_0000 && HasSpace(db, t, NodeSize(key, value))
    ensures var c := CreateChecked(db, t, key, value);
      AllShowEnd(c.db.flash) <==> c.outcome != Done || NoStraySector(db.flash[t]) || !EndsErased(NewNode(Write, key, value))
  {
    hide NodeCrc, CreateChecked, Used, NewNode, OpenedSector;
    CreateFlash(db, t, key, value);
    CreateCases(db, t, key, value);
    FitsOpens(db, t, NodeSize(key, value));
    var c := CreateChecked(db, t, key, value);
    if c.outcome == Done {
      var node := NewNode(Write, key, value);
      assert node.Node? by { assert Intact(node); }
      HoldShows(db.flash[t], node);
      assert EndShows(c.db.flash[t]) <==> NoStraySector(db.flash[t]) || !EndsErased(node);
    }
  }

  lemma HoldShows(sec: Sector, node: Node)
    requires sec.Sector? && node.Node?
    ensures EndShows(Hold(sec.(store := Using), node)) <==> NoStraySector(sec) || !EndsErased(node)
  {
    hide EndsErased;
    var h := Hold(sec.(store := Using), node);
    assert forall y :: 0 <= y < |sec.nodes| ==> h.nodes[y] == sec.nodes[y];
  }

  /** When replacing a record hides the end of the sector written to. */
  lemma ReplaceShows(db: Db, t: nat, key: seq<byte>, value: seq<byte>)
    requires db.oldest < |db.flash| && AllShowEnd(db.flash)
    requires NodeSize(key, value) < 0x1_0000_0000 && HasSpace(db, t, NodeSize(key, value))
    ensures var r := Replace(db, t, key, value);
      AllShowEnd(r.db.flash)
      <==> |key| > KV_NAME_MAX || NodeSize(key, value) + SECTOR_HDR > db.secSize
           || NoStraySector(db.flash[t]) || !EndsErased(NewNode(Write, key, value))
  {
    hide NodeCrc, FindFrom, MarkDel, CreateChecked, NoStraySector, AllShowEnd, EndsErased, Extends, NewNode, CreateAt, FillsUp;
    hide HasSpace;
    CreateShows(db, t, key, value);
    SpaceFormatted(db, t, NodeSize(key, value));
    CreateCases(db, t, key, value);
    var hit := Find(db, key);
    if hit.Some? {
      var i, j := hit.value.sec, hit.value.node;
      var d1 := MarkDel(db, i, j, false);
      MarkDelShows(db, i, j, false);
      MarkSpace(db, i, j, t, NodeSize(key, value));
      CreateShows(d1, t, key, value);
      SpaceFormatted(d1, t, NodeSize(key, value));
      CreateCases(d1, t, key, value);
      var c := CreateChecked(d1, t, key, value);
      if c.outcome == Done {
        AtExtends(d1, c.db, i, j);
        MarkDelShows(c.db, i, j, true);
      }
    }
  }

  lemma SpaceFormatted(db: Db, t: nat, size: nat)
    requires HasSpace(db, t, size)
    ensures Formatted(db, t)
  {}

  lemma MarkSpace(db: Db, i: nat, j: nat, t: nat, size: nat)
    requires At(db, i, j) && db.flash[i].nodes[j].Node? && HasSpace(db, t, size)
    ensures HasSpace(MarkDel(db, i, j, false), t, size) && MarkDel(db, i, j, false).secSize == db.secSize
    ensures At(MarkDel(db, i, j, false), i, j) && MarkDel(db, i, j, false).flash[i].nodes[j].Node?
  {
    hide MarkDel;
    MarkDelFlash(db, i, j, false);
    OffUpdate(db.flash[i].nodes, j, db.flash[i].nodes[j].(st := PreDelete), |db.flash[i].nodes|);
  }

  /** Should a replacement ask for a collection, nothing would be in its way: none does. */
  lemma NotFilled(db: Db, key: seq<byte>, value: seq<byte>)
    requires db.oldest < |db.flash| && !db.gcRequest && NodeSize(key, value) < 0x1_0000_0000
    ensures var a := NewKv(Begin(db), NodeSize(key, value));
      a.sec.Some? ==>
        && Formatted(a.db, a.sec.value)
        && var r := Replace(a.db, a.sec.value, key, value);
          r.db.gcRequest ==> Firm(r.db.flash) && !HidesEnd(db, key, value)
  {
    hide NodeCrc, FindFrom, MarkDel, CreateAt, Used, Extends, GcCollect, AllocKv, NewNode, Firm, HidesEnd, HasRoom, Replace;
    var size := NodeSize(key, value);
    var a := NewKv(Begin(db), size);
    if a.sec.Some? {
      var t := a.sec.value;
      OpensUsing(a.db, size, t);
      ReplaceAsks(a.db, t, key, value);
    }
  }

  lemma ReplaceAsks(db: Db, t: nat, key: seq<byte>, value: seq<byte>)
    requires db.oldest < |db.flash| && Formatted(db, t) && NodeSize(key, value) < 0x1_0000_0000
    requires !db.gcRequest && !FillsUp(db, t, NodeSize(key, value))
    ensures !Replace(db, t, key, value).db.gcRequest
  {
    hide NodeCrc, FindFrom, MarkDel, CreateAt, FillsUp, Extends, NewNode, CreateChecked;
    CreateCases(db, t, key, value);
    var hit := Find(db, key);
    if hit.Some? {
      var d := MarkDel(db, hit.value.sec, hit.value.node, false);
      MarkFills(db, hit.value.sec, hit.value.node, t, NodeSize(key, value));
      CreateCases(d, t, key, value);
    }
  }

  lemma MarkFills(db: Db, i: nat, j: nat, t: nat, size: nat)
    requires At(db, i, j) && db.flash[i].nodes[j].Node? && Formatted(db, t)
    ensures Formatted(MarkDel(db, i, j, false), t)
    ensures FillsUp(MarkDel(db, i, j, false), t, size) <==> FillsUp(db, t, size)
  {
    hide MarkDel;
    MarkDelFlash(db, i, j, false);
    var node := db.flash[i].nodes[j];
    OffUpdate(db.flash[i].nodes, j, node.(st := PreDelete), |db.flash[i].nodes|);
  }

  lemma GcNone(db: Db, i: nat, n: nat)
    requires db.oldest < |db.flash| && Formatted(db, i) && n == |db.flash[i].nodes|
    ensures GcNodes(db, i, n, n) == db
  {
    hide Extends;
  }

  lemma GcNext(db: Db, i: nat, j: nat, n: nat)
    requires db.oldest < |db.flash| && At(db, i, j) && n == |db.flash[i].nodes|
    ensures var d := if Carrier(db.flash[i].nodes[j]) then MoveKv(db, i, j).db else db;
      && Formatted(d, i) && d.oldest < |d.flash| && n <= |d.flash[i].nodes|
      && GcNodes(db, i, j, n) == GcNodes(d, i, j + 1, n)
  {
    hide NodeCrc, MoveKv, Extends;
    if Carrier(db.flash[i].nodes[j]) {
      FormattedExtends(db, MoveKv(db, i, j).db, i);
    }
  }

  /** A collection passes over stray bytes. */
  lemma {:induction false} GcSkips(db: Db, i: nat, j: nat, x: nat, n: nat)
    requires db.oldest < |db.flash| && Formatted(db, i) && j <= x <= n <= |db.flash[i].nodes|
    requires forall y :: j <= y < x ==> db.flash[i].nodes[y].Stray?
    ensures GcNodes(db, i, j, n) == GcNodes(db, i, x, n)
    decreases x - j
  {
    hide NodeCrc, MoveKv, Extends;
    if j < x {
      GcSkips(db, i, j + 1, x, n);
    }
  }
}
