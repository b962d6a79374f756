/** Opening a key-value log: finding the oldest sector, formatting what has no header, resuming an
    interrupted collection and recovering half-done replacements. */
module KvLoad {
  import opened Bytes
  import opened Wrappers
  import opened Sectors
  import opened KvModel

  // ------------------------------------------------------------ the oldest sector

  function StoreOf(sec: Sector): StoreStatus {
    if sec.Raw? then StoreStatus.Unused else sec.store
  }

  /** The walk of `find_oldest_addr` from sector `k` on: the last sector in use that follows an empty one. */
  function OldestFrom(flash: seq<Sector>, k: nat, last: StoreStatus, found: nat): (r: nat)
    requires k <= |flash| && (found < |flash| || |flash| == 0)
    ensures r < |flash| || |flash| == 0
    decreases |flash| - k
  {
    if k == |flash| then found
    else
      var st := StoreOf(flash[k]);
      OldestFrom(flash, k + 1, st, if last == Empty && (st == Full || st == Using) then k else found)
  }

  function FindOldest(flash: seq<Sector>): (r: nat)
    ensures r < |flash| || |flash| == 0
  {
    OldestFrom(flash, 0, StoreStatus.Unused, 0)
  }

  /** Sector `k` is in use and stands right behind an empty one. */
  predicate BehindEmpty(flash: seq<Sector>, k: nat) {
    0 < k < |flash| && HasStore(flash[k - 1], Empty) && Searched(flash[k])
  }

  /** The log begins at the last sector in use that stands behind an empty one, or at sector 0 if there is none. */
  predicate LogBegins(flash: seq<Sector>, o: nat) {
    || (BehindEmpty(flash, o) && forall k :: o < k < |flash| ==> !BehindEmpty(flash, k))
    || (o == 0 && forall k :: 0 <= k < |flash| ==> !BehindEmpty(flash, k))
  }

  lemma {:induction false} OldestFromBegins(flash: seq<Sector>, k: nat, last: StoreStatus, found: nat)
    requires k <= |flash| && found < |flash| && last == if k == 0 then StoreStatus.Unused else StoreOf(flash[k - 1])
    requires if found == 0 then forall x :: 0 <= x < k ==> !BehindEmpty(flash, x)
             else BehindEmpty(flash, found) && forall x :: found < x < k ==> !BehindEmpty(flash, x)
    ensures LogBegins(flash, OldestFrom(flash, k, last, found))
    decreases |flash| - k
  {
    if k < |flash| {
      var st := StoreOf(flash[k]);
      var here := last == Empty && (st == Full || st == Using);
      assert here <==> BehindEmpty(flash, k);
      OldestFromBegins(flash, k + 1, st, if here then k else found);
    }
  }

  /** The walk finds where the log begins, whatever the states of the sectors. */
  lemma OldestIs(flash: seq<Sector>, o: nat)
    requires 0 < |flash|
    ensures o == FindOldest(flash) <==> LogBegins(flash, o)
  {
    hide LogBegins;
    OldestFromBegins(flash, 0, StoreStatus.Unused, 0);
    BeginsOnce(flash, o, FindOldest(flash));
  }

  lemma BeginsOnce(flash: seq<Sector>, o: nat, r: nat)
    ensures LogBegins(flash, o) && LogBegins(flash, r) ==> o == r
  {}

  // ------------------------------------------------------------ headers

  datatype Checked = Checked(db: Db, failed: nat)

  /** The header check of `kv_load` from the `k`-th sector of the ring on: sectors without a header are formatted. */
  function CheckHeaders(db: Db, k: nat, failed: nat): (r: Checked)
    requires db.oldest < |db.flash| && k <= |db.flash|
    ensures |r.db.flash| == |db.flash| && r.db.oldest == db.oldest && r.db.secSize == db.secSize
    decreases |db.flash| - k
  {
    if k == |db.flash| then Checked(db, failed)
    else
      var i := RingPos(db.oldest, k, |db.flash|);
      if db.flash[i].Raw? then CheckHeaders(Format(db, i), k + 1, failed + 1) else CheckHeaders(db, k + 1, failed)
  }

  /** `set_default` with an empty default set, from sector `k` on. */
  function FormatAll(db: Db, k: nat): (r: Db)
    requires k <= |db.flash|
    ensures |r.flash| == |db.flash| && r.secSize == db.secSize
    decreases |db.flash| - k
  {
    if k == |db.flash| then db.(oldest := 0) else FormatAll(Format(db, k), k + 1)
  }

  // ------------------------------------------------------------ resuming a collection

  function Resume(db: Db, start: nat, k: nat): (r: Db)
    requires db.oldest < |db.flash| && start < |db.flash| && k <= |db.flash|
    ensures |r.flash| == |db.flash| && r.oldest < |r.flash| && r.secSize == db.secSize
    decreases |db.flash| - k
  {
    if k == |db.flash| then db
    else
      var i := RingPos(start, k, |db.flash|);
      if db.flash[i].Sector? && db.flash[i].dirty == Gc then
        Resume(GcCollect(db.(gcRequest := true), |db.flash| * db.secSize), start, k + 1)
      else Resume(db, start, k + 1)
  }

  // ------------------------------------------------------------ recovering nodes

  predicate IsPending(node: Node) {
    Intact(node) && node.st == PreDelete
  }

  /** How many deletions are pending among the nodes from `j` on. */
  function PendingFrom(nodes: seq<Node>, j: nat): nat
    requires j <= |nodes|
    decreases |nodes| - j
  {
    if j == |nodes| then 0 else (if IsPending(nodes[j]) then 1 else 0) + PendingFrom(nodes, j + 1)
  }

  datatype Recovered = Recovered(db: Db, stop: bool)

  /** `check_and_recovery_kv_cb` */
  function RecoverNode(db: Db, i: nat, j: nat): (r: Recovered)
    requires db.oldest < |db.flash| && At(db, i, j)
    ensures Extends(db.flash, r.db.flash)
    ensures r.db == db.(flash := r.db.flash, log := r.db.log, gcRequest := r.db.gcRequest)
  {
    hide MoveKv, Extends;
    ExtendsSelf(db.flash);
    var node := db.flash[i].nodes[j];
    if IsPending(node) then
      var m := MoveKv(db, i, j);
      Recovered(m.db, !m.ok)
    else if node.Node? && node.st == PreWrite then
      MarkExtends(db, i, j, ErrHdr);
      Recovered(Rewrite(db, i, [MarkNode(db.flash[i], j, ErrHdr)]), true)
    else Recovered(db, false)
  }

  lemma MarkExtends(db: Db, i: nat, j: nat, st: KvStatus)
    requires At(db, i, j) && db.flash[i].nodes[j].Node?
    ensures Extends(db.flash, Rewrite(db, i, [MarkNode(db.flash[i], j, st)]).flash)
  {}

  lemma {:induction false} PendingAfter(nodes: seq<Node>, more: seq<Node>, j: nat, x: nat, node: Node)
    requires j < x <= |nodes| && forall y :: 0 <= y < |more| ==> !IsPending(more[y])
    ensures PendingFrom(nodes[j := node] + more, x) == PendingFrom(nodes, x)
    decreases |nodes| - x
  {
    hide IsPending;
    if x < |nodes| {
      PendingAfter(nodes, more, j, x + 1, node);
    } else {
      PendingNone(nodes[j := node] + more, x);
    }
  }

  lemma {:induction false} PendingNone(nodes: seq<Node>, x: nat)
    requires x <= |nodes| && forall y :: x <= y < |nodes| ==> !IsPending(nodes[y])
    ensures PendingFrom(nodes, x) == 0
    decreases |nodes| - x
  {
    hide IsPending;
    if x < |nodes| {
      PendingNone(nodes, x + 1);
    }
  }

  /** After a successful move of a pending node, its sector has it deleted and has at most gained its copy. */
  lemma MovedPending(db: Db, i: nat, j: nat) returns (more: seq<Node>)
    requires db.oldest < |db.flash| && At(db, i, j) && IsPending(db.flash[i].nodes[j])
    requires MoveKv(db, i, j).ok
    ensures var d := MoveKv(db, i, j).db; var node := db.flash[i].nodes[j];
      && Formatted(d, i)
      && d.flash[i].nodes == db.flash[i].nodes[j := node.(st := Deleted)] + more
      && (more == [] || more == [node.(st := Write)])
  {
    hide NodeCrc, AllocKv, Find, Opened, MarkDel, CopyTo, CreateAt, Extends, HasRoom;
    var node := db.flash[i].nodes[j];
    var a := AllocKv(db, node.Len());
    if a.db.recovering && Find(a.db, Name(node)).Some? {
      MarkDelFlash(db, i, j, true);
      more := [];
    } else {
      var t := a.sec.value;
      RoomIsFormatted(db, node.Len(), t);
      CopyFlash(db, t, node);
      var d := CopyTo(db, t, node);
      AtExtends(db, d, i, j);
      MarkDelFlash(d, i, j, true);
      more := if t == i then [node.(st := Write)] else [];
    }
  }

  lemma {:induction false} PendingStep(nodes: seq<Node>, j: nat)
    requires j < |nodes|
    ensures PendingFrom(nodes, j) == (if IsPending(nodes[j]) then 1 else 0) + PendingFrom(nodes, j + 1)
  {}

  /** The node loop of `recover_kvs_pass`. Nodes that recovery appends to the sector are visited too;
      it ends because every move settles one pending deletion. */
  function RecoverNodes(db: Db, i: nat, j: nat): (r: Recovered)
    requires db.oldest < |db.flash| && Formatted(db, i) && j <= |db.flash[i].nodes|
    ensures Extends(db.flash, r.db.flash)
    ensures r.db == db.(flash := r.db.flash, log := r.db.log, gcRequest := r.db.gcRequest)
    decreases PendingFrom(db.flash[i].nodes, j), |db.flash[i].nodes| - j
  {
    hide RecoverNode, Extends, PendingFrom, At;
    AtIs(db, i, j);
    ExtendsSelf(db.flash);
    if j == |db.flash[i].nodes| then Recovered(db, false)
    else
      var s := RecoverNode(db, i, j);
      if s.stop then s
      else
        RecoverNodeSettles(db, i, j);
        var r := RecoverNodes(s.db, i, j + 1);
        ExtendsTransitive(db.flash, s.db.flash, r.db.flash);
        r
  }

  lemma AtIs(db: Db, i: nat, j: nat)
    requires Formatted(db, i)
    ensures At(db, i, j) <==> j < |db.flash[i].nodes|
  {}

  lemma RecoverNodeSettles(db: Db, i: nat, j: nat)
    requires db.oldest < |db.flash| && At(db, i, j) && !RecoverNode(db, i, j).stop
    ensures var d := RecoverNode(db, i, j).db;
      && Formatted(d, i) && j < |d.flash[i].nodes|
      && PendingFrom(d.flash[i].nodes, j + 1) <= PendingFrom(db.flash[i].nodes, j)
      && (PendingFrom(d.flash[i].nodes, j + 1) == PendingFrom(db.flash[i].nodes, j) ==> |d.flash[i].nodes| == |db.flash[i].nodes|)
  {
    hide NodeCrc, MoveKv;
    var nodes := db.flash[i].nodes;
    PendingStep(nodes, j);
    if IsPending(nodes[j]) {
      var more := MovedPending(db, i, j);
      PendingAfter(nodes, more, j, j + 1, nodes[j].(st := Deleted));
    }
  }

  /** `recover_kvs_pass` from the `k`-th sector of the ring on. */
  function RecoverPass(db: Db, k: nat): (r: Db)
    requires db.oldest < |db.flash| && k <= |db.flash|
    ensures Extends(db.flash, r.flash)
    ensures r == db.(flash := r.flash, log := r.log, gcRequest := r.gcRequest)
    decreases |db.flash| - k
  {
    hide RecoverNodes, Extends;
    ExtendsSelf(db.flash);
    if k == |db.flash| then db
    else
      var i := RingPos(db.oldest, k, |db.flash|);
      if Searched(db.flash[i]) then
        var s := RecoverNodes(db, i, 0);
        if s.stop then s.db
        else
          ExtendsLength(db.flash, s.db.flash);
          var r := RecoverPass(s.db, k + 1);
          ExtendsTransitive(db.flash, s.db.flash, r.flash);
          r
      else RecoverPass(db, k + 1)
  }

  /** The retry loop of `kv_load`: passes are repeated while they ask for a collection. Nothing in the
      engine bounds it; `None` means that `rounds` passes were not enough. */
  function RecoverRounds(db: Db, rounds: nat): (r: Option<Db>)
    requires db.oldest < |db.flash|
    ensures r.Some? ==> |r.value.flash| == |db.flash| && r.value.oldest < |r.value.flash|
    decreases rounds
  {
    if rounds == 0 then None
    else
      var d := RecoverPass(db, 0);
      ExtendsLength(db.flash, d.flash);
      if d.gcRequest then RecoverRounds(GcCollect(d, |d.flash| * d.secSize), rounds - 1) else Some(d)
  }

  // ------------------------------------------------------------ opening

  /** The database as `with_options` sets it up, before `kv_load`. */
  function Fresh(secSize: nat, flash: seq<Sector>): Db {
    Db(secSize, flash, FindOldest(flash), false, true, [flash])
  }

  /** `kv_load` up to the recovery loop. */
  function Prepare(secSize: nat, flash: seq<Sector>): (r: Db)
    requires 0 < |flash|
    ensures |r.flash| == |flash| && r.oldest < |r.flash|
  {
    var c := CheckHeaders(Fresh(secSize, flash), 0, 0);
    var d := if c.failed == |flash| then FormatAll(c.db, 0) else c.db;
    FormatAllOldest(c.db, 0);
    Resume(d, d.oldest, 0)
  }

  lemma {:induction false} FormatAllOldest(db: Db, k: nat)
    requires k <= |db.flash|
    ensures FormatAll(db, k).oldest == 0
    decreases |db.flash| - k
  {
    if k < |db.flash| {
      FormatAllOldest(Format(db, k), k + 1);
    }
  }

  /** Opening the database on a medium that holds `flash`. */
  function Load(secSize: nat, flash: seq<Sector>, rounds: nat): (r: Option<Db>)
    requires 0 < |flash|
    ensures r.Some? ==> |r.value.flash| == |flash| && r.value.oldest < |flash|
  {
    var r := RecoverRounds(Prepare(secSize, flash), rounds);
    if r.None? then None else Some(r.value.(recovering := false))
  }
}
