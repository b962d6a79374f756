/** What recovery meets: logs in which a power cut has left a torn node, a pending deletion or a stray
    byte, and that its steps keep them readable. */
module KvRecovery {
  import opened Wrappers
  import opened Sectors
  import opened KvModel
  import opened KvImage
  import opened KvRead
  import opened KvLoad
  import opened KvScan
  import opened KvStrays

  ghost predicate NonePending(flash: seq<Sector>) {
    forall x: nat, y: nat :: x < |flash| && flash[x].Sector? && y < |flash[x].nodes| ==> !IsPending(flash[x].nodes[y])
  }

  /** No deletion is pending except perhaps that of node `l`. */
  ghost predicate OnlyPending(flash: seq<Sector>, l: Loc) {
    forall x: nat, y: nat :: x < |flash| && flash[x].Sector? && y < |flash[x].nodes| && IsPending(flash[x].nodes[y])
      ==> Loc(x, y) == l
  }

  /** Whenever recovery allocates space, the ends of all sectors show. */
  ghost predicate Recoverable(flash: seq<Sector>) {
    || Firm(flash)
    || NonePending(flash)
    || (AllShowEnd(flash) && exists l :: OnlyPending(flash, l))
  }

  lemma PendingShows(flash: seq<Sector>, i: nat, j: nat)
    requires Recoverable(flash) && i < |flash| && flash[i].Sector? && j < |flash[i].nodes| && IsPending(flash[i].nodes[j])
    ensures AllShowEnd(flash)
  {
    if Firm(flash) {
      FirmShows(flash);
    }
  }

  lemma PendingIsOnly(flash: seq<Sector>, l: Loc, i: nat, j: nat)
    requires OnlyPending(flash, l) && i < |flash| && flash[i].Sector? && j < |flash[i].nodes| && IsPending(flash[i].nodes[j])
    ensures l == Loc(i, j)
  {}

  /** Every node of `g` that is not pending in `f` is not pending in `g`, nor is `gone`. */
  ghost predicate NoNewPending(f: seq<Sector>, g: seq<Sector>, gone: Loc) {
    forall x: nat, y: nat :: x < |g| && g[x].Sector? && y < |g[x].nodes| && IsPending(g[x].nodes[y]) ==>
      Loc(x, y) != gone && x < |f| && f[x].Sector? && y < |f[x].nodes| && IsPending(f[x].nodes[y])
  }

  lemma MarkNoPending(flash: seq<Sector>, i: nat, j: nat)
    requires i < |flash| && flash[i].Sector? && j < |flash[i].nodes| && flash[i].nodes[j].Node?
    ensures NoNewPending(flash, flash[i := MarkedSector(flash[i], j, Deleted)], Loc(i, j))
  {
    hide Intact;
  }

  lemma HoldNoPending(flash: seq<Sector>, t: nat, store: StoreStatus, node: Node, gone: Loc)
    requires t < |flash| && flash[t].Sector? && node.Node?
    ensures var g := flash[t := Hold(flash[t].(store := store), node.(st := Write))];
      forall x: nat, y: nat :: x < |g| && g[x].Sector? && y < |g[x].nodes| && IsPending(g[x].nodes[y]) ==>
        x < |flash| && flash[x].Sector? && y < |flash[x].nodes| && IsPending(flash[x].nodes[y])
  {
    hide NodeCrc;
  }

  /** Moving a pending node settles it and makes nothing else pending. */
  lemma MoveSettles(db: Db, i: nat, j: nat)
    requires db.oldest < |db.flash| && At(db, i, j) && IsPending(db.flash[i].nodes[j])
    ensures var m := MoveKv(db, i, j);
      if m.ok then NoNewPending(db.flash, m.db.flash, Loc(i, j)) else m.db.flash == db.flash
  {
    hide NodeCrc, AllocKv, Find, MarkDel, CopyTo, HasRoom, Extends, IsPending, MarkedSector;
    var node := db.flash[i].nodes[j];
    var a := AllocKv(db, node.Len());
    PendingNode(node);
    if a.sec.Some? {
      if a.db.recovering && Find(a.db, Name(node)).Some? {
        MarkDelFlash(db, i, j, true);
        MarkNoPending(db.flash, i, j);
      } else {
        var t := a.sec.value;
        RoomIsFormatted(db, node.Len(), t);
        CopyFlash(db, t, node);
        var d2 := CopyTo(db, t, node);
        AtExtends(db, d2, i, j);
        MarkDelFlash(d2, i, j, true);
        HoldNoPending(db.flash, t, Opened(db, t, node.Len()), node, Loc(i, j));
        MarkNoPending(d2.flash, i, j);
      }
    }
  }

  lemma PendingNode(node: Node)
    requires IsPending(node)
    ensures node.Node? && Intact(node) && node.st == PreDelete
  {}

  lemma MoveRecoverable(db: Db, i: nat, j: nat)
    requires db.oldest < |db.flash| && At(db, i, j) && IsPending(db.flash[i].nodes[j])
    requires Recoverable(db.flash)
    ensures Recoverable(MoveKv(db, i, j).db.flash)
  {
    hide MoveKv, NoStray, Firm, AllShowEnd, IsPending, AllIntact;
    PendingNode(db.flash[i].nodes[j]);
    MoveSettles(db, i, j);
    if Firm(db.flash) {
      MoveFirm(db, i, j);
    } else if MoveKv(db, i, j).ok {
      var l :| OnlyPending(db.flash, l);
      PendingIsOnly(db.flash, l, i, j);
    }
  }

  lemma StraysKept(f: seq<Sector>, g: seq<Sector>, size: nat, ends: bool)
    requires KeepsScan(f, g, size, ends)
    ensures NoStray(f) ==> NoStray(g)
    ensures Scannable(f, size) ==> Scannable(g, size)
    ensures AllIntact(f) ==> AllIntact(g)
  {
    hide NoStray, Scannable, AllShowEnd, AllIntact;
  }

  /** Marking a torn node erroneous. */
  lemma AbandonScans(db: Db, i: nat, j: nat)
    requires At(db, i, j) && db.flash[i].nodes[j].Node? && db.flash[i].nodes[j].st == PreWrite
    ensures var g := db.flash[i := MarkNode(db.flash[i], j, ErrHdr)];
      && KeepsScan(db.flash, g, db.secSize, true)
      && (Recoverable(db.flash) ==> Recoverable(g)) && (Firm(db.flash) ==> Firm(g))
  {
    hide NodeCrc, Walkable, NoStraySector, EndShows, IntactSector, KeepsScan, Blunt;
    var sec := db.flash[i];
    var g := db.flash[i := MarkNode(sec, j, ErrHdr)];
    assert sec.(dirty := sec.dirty) == sec;
    MarkShows(sec, j, ErrHdr, sec.dirty);
    if Walkable(sec, db.secSize) {
      HasDirty(sec, db.secSize);
      WalkMark(sec, db.secSize, j, ErrHdr, sec.dirty);
    }
    PutScans(db.flash, db.secSize, i, MarkNode(sec, j, ErrHdr), true);
    StraysKept(db.flash, g, db.secSize, true);
    if Blunt(db.flash) {
      BluntMark(db.flash, i, j, ErrHdr, sec.dirty);
    }
    if Recoverable(db.flash) {
      AbandonPending(db.flash, i, j);
      AbandonRecoverable(db.flash, g, db.secSize);
    }
  }

  lemma AbandonPending(flash: seq<Sector>, i: nat, j: nat)
    requires i < |flash| && flash[i].Sector? && j < |flash[i].nodes| && flash[i].nodes[j].Node?
    ensures NoNewPending(flash, flash[i := MarkNode(flash[i], j, ErrHdr)], Loc(i, j))
  {
    hide Intact;
  }

  lemma AbandonRecoverable(f: seq<Sector>, g: seq<Sector>, size: nat)
    requires KeepsScan(f, g, size, true) && Recoverable(f) && (Firm(f) ==> Firm(g)) && exists gone :: NoNewPending(f, g, gone)
    ensures Recoverable(g)
  {
    hide NoStray, Firm, AllShowEnd, IsPending, Scannable, AllIntact;
    if !Firm(f) && !NonePending(f) {
      var l :| OnlyPending(f, l);
      assert OnlyPending(g, l);
    }
  }

  // ------------------------------------------------------------ the node loop

  lemma RecoverStray(db: Db, i: nat, j: nat)
    requires db.oldest < |db.flash| && At(db, i, j) && db.flash[i].nodes[j].Stray?
    ensures RecoverNodes(db, i, j) == RecoverNodes(db, i, j + 1)
  {
    hide PendingFrom, Extends;
    assert RecoverNode(db, i, j) == Recovered(db, false);
  }

  lemma {:induction false} RecoverSkips(db: Db, i: nat, j: nat, x: nat)
    requires db.oldest < |db.flash| && Formatted(db, i) && j <= x <= |db.flash[i].nodes|
    requires forall y :: j <= y < x ==> db.flash[i].nodes[y].Stray?
    ensures RecoverNodes(db, i, j) == RecoverNodes(db, i, x)
    decreases x - j
  {
    hide RecoverNodes;
    if j < x {
      RecoverStray(db, i, j);
      RecoverSkips(db, i, j + 1, x);
    }
  }

  lemma RecoverOn(db: Db, i: nat, j: nat)
    requires db.oldest < |db.flash| && At(db, i, j)
    ensures var s := RecoverNode(db, i, j);
      && Formatted(s.db, i) && j < |s.db.flash[i].nodes| && s.db.oldest < |s.db.flash|
      && RecoverNodes(db, i, j) == if s.stop then s else RecoverNodes(s.db, i, NextSeen(s.db.flash[i].nodes, j + 1))
  {
    hide RecoverNode, Extends, PendingFrom;
    var s := RecoverNode(db, i, j);
    AtExtends(db, s.db, i, j);
    ExtendsLength(db.flash, s.db.flash);
    if !s.stop {
      RecoverNodeSettles(db, i, j);
      RecoverSkips(s.db, i, j + 1, NextSeen(s.db.flash[i].nodes, j + 1));
    }
  }

  lemma {:induction false} OffExtends(f: Sector, g: Sector, j: nat)
    requires f.Sector? && ExtendsSector(f, g) && j <= |f.nodes|
    ensures Off(g.nodes, j) == Off(f.nodes, j)
  {
    hide SameNode;
    if j > 0 {
      OffExtends(f, g, j - 1);
      assert SameNode(g.nodes[j - 1], f.nodes[j - 1]);
      SameLen(g.nodes[j - 1], f.nodes[j - 1]);
    }
  }

  lemma SameLen(a: Node, b: Node)
    requires SameNode(a, b)
    ensures a.Len() == b.Len()
  {}

  /** Recovery of a node leaves it, and the walk that has come to it, in place. */
  lemma KvStaysOn(kv: Kv, db: Db, d: Db, size: nat, i: nat, j: nat)
    requires KvStands(kv, db.flash, size, i, j) && Extends(db.flash, d.flash) && Scannable(d.flash, size)
    ensures KvStands(kv, d.flash, size, i, j)
  {
    hide SameNode, NodeCrc, Base, KvStands, Walkable, Followed;
    StandsAt(kv, db.flash, size, i, j);
    assert ExtendsSector(db.flash[i], d.flash[i]);
    OffExtends(db.flash[i], d.flash[i], j);
    WalkFollowed(d.flash[i], size, j) by { ScanAt(d.flash, size, i); }
    KvStays(kv, db.flash, d.flash, size, i, j);
  }

  lemma StandsAt(kv: Kv, flash: seq<Sector>, size: nat, i: nat, j: nat)
    requires KvStands(kv, flash, size, i, j)
    ensures i < |flash| && flash[i].Sector? && j < |flash[i].nodes| && !flash[i].nodes[j].Stray?
  {}

  /** What recovery does at a node, by what has been read of it. */
  lemma RecoverReads(kv: Kv, flash: seq<Sector>, size: nat, i: nat, j: nat)
    requires KvAt(kv, flash, size, i, j)
    ensures IsPending(flash[i].nodes[j]) <==> kv.crcOk && kv.status == PreDelete
    ensures !IsPending(flash[i].nodes[j]) ==>
      (flash[i].nodes[j].Node? && flash[i].nodes[j].st == PreWrite <==> kv.status == PreWrite)
  {
    hide NodeCrc, ReadName, Base;
  }

  lemma {:induction false} PendingDrops(nodes: seq<Node>, j: nat, x: nat)
    requires j <= x <= |nodes|
    ensures PendingFrom(nodes, x) <= PendingFrom(nodes, j)
    decreases x - j
  {
    hide IsPending;
    if j < x {
      PendingDrops(nodes, j + 1, x);
    }
  }

  lemma RecoverEnds(db: Db, i: nat)
    requires db.oldest < |db.flash| && Formatted(db, i)
    ensures RecoverNodes(db, i, |db.flash[i].nodes|) == Recovered(db, false)
  {
    hide RecoverNode, Extends;
  }

  lemma PassStep(db: Db, k: nat)
    requires db.oldest < |db.flash| && k < |db.flash|
    ensures var i := RingPos(db.oldest, k, |db.flash|);
      RecoverPass(db, k)
      == if Searched(db.flash[i])
         then var s := RecoverNodes(db, i, 0);
           ExtendsLength(db.flash, s.db.flash);
           if s.stop then s.db else RecoverPass(s.db, k + 1)
         else RecoverPass(db, k + 1)
  {
    hide RecoverNodes, Extends;
  }

  // ------------------------------------------------------------ opening

  predicate NoVictim(flash: seq<Sector>) {
    forall i :: 0 <= i < |flash| ==> flash[i].Sector? ==> flash[i].dirty != Gc
  }

  lemma CleanMends(flash: seq<Sector>)
    requires Firm(flash)
    ensures Recoverable(flash)
  {}

  /** Formatting a sector leaves the log as readable, and recoverable, as it was. */
  lemma FormatMends(db: Db, i: nat)
    requires i < |db.flash|
    ensures var g := Format(db, i).flash;
      && KeepsScan(db.flash, g, db.secSize, true)
      && (Recoverable(db.flash) ==> Recoverable(g))
      && (Firm(db.flash) ==> Firm(g))
      && (NoVictim(db.flash) ==> NoVictim(g))
  {
    hide Walkable, NoStraySector, EndShows, IntactSector, KeepsScan, Firm;
    var sec := Sector(Empty, False, []);
    var g := Format(db, i).flash;
    assert g == db.flash[i := sec];
    NewShows();
    WalkNew(db.secSize);
    PutScans(db.flash, db.secSize, i, sec, true);
    if Firm(db.flash) {
      FormatFirm(db, i);
    }
    if Recoverable(db.flash) {
      NewPending(db.flash, i, sec);
      AbandonRecoverable(db.flash, g, db.secSize);
    }
  }

  lemma NewShows()
    ensures var sec := Sector(Empty, False, []); NoStraySector(sec) && EndShows(sec) && IntactSector(sec)
  {}

  lemma NewPending(flash: seq<Sector>, i: nat, sec: Sector)
    requires i < |flash| && sec == Sector(Empty, False, [])
    ensures NoNewPending(flash, flash[i := sec], Loc(i, 0))
  {
    hide IsPending;
  }

  /** What opening asks of the medium: a log in which stray bytes are in the way of no collection, or one
      that can be recovered in a single pass without collecting. */
  ghost predicate Openable(secSize: nat, flash: seq<Sector>) {
    && 2 <= |flash|
    && Scannable(flash, secSize)
    && (Firm(flash) || (Recoverable(flash) && NoVictim(flash) && Load(secSize, flash, 1).Some?))
  }

  lemma RecoverFirst(db: Db, rounds: nat)
    requires db.oldest < |db.flash| && RecoverRounds(db, rounds).Some?
    ensures 0 < rounds
    ensures var d := RecoverPass(db, 0);
      && |d.flash| == |db.flash| && d.oldest == db.oldest && d.secSize == db.secSize
      && RecoverRounds(db, rounds)
         == if d.gcRequest then RecoverRounds(GcCollect(d, |d.flash| * d.secSize), rounds - 1) else Some(d)
  {
    hide RecoverPass, GcCollect, Extends;
    ExtendsLength(db.flash, RecoverPass(db, 0).flash);
  }
}
