/** What holds of every sector between the engine's operations, and the arithmetic of space. */
module KvInvariant {
  import opened Bytes
  import opened Wrappers
  import opened Sectors
  import opened KvModel
  import opened KvContents

  predicate WfNode(node: Node) {
    node.Node? ==>
      && Sized(node)
      && node.st != KvStatus.Unused
      && (node.st == Write || node.st == PreDelete || node.st == Deleted ==> Intact(node))
  }

  predicate Going(node: Node) {
    node.Node? && (node.st == PreDelete || node.st == Deleted)
  }

  /** A sector in use holds at least one node and keeps more than the threshold free. No sector is ever
      marked full. */
  predicate WfShape(sec: Sector, secSize: nat) {
    && sec.Sector?
    && (sec.store == Empty || sec.store == Using)
    && (sec.store == Empty ==> sec.nodes == [] && sec.dirty == False)
    && (sec.store == Using ==> sec.nodes != [] && SECTOR_HDR + Used(sec.nodes) + THRESHOLD < secSize)
    && sec.dirty != DirtyStatus.Unused
    && (forall j :: 0 <= j < |sec.nodes| ==> WfNode(sec.nodes[j]))
    && (forall j :: 0 <= j < |sec.nodes| ==> (sec.nodes[j].Blank? ==> j == 0))
  }

  /** Deleted nodes make a sector dirty. */
  predicate WfSector(sec: Sector, secSize: nat) {
    && WfShape(sec, secSize)
    && (sec.dirty == False ==> forall j :: 0 <= j < |sec.nodes| ==> !Going(sec.nodes[j]))
  }

  lemma ShapeOf(sec: Sector, secSize: nat)
    requires WfSector(sec, secSize)
    ensures WfShape(sec, secSize)
  {}

  predicate WfDb(db: Db) {
    && 2 <= |db.flash|
    && db.oldest < |db.flash|
    && forall i :: 0 <= i < |db.flash| ==> WfSector(db.flash[i], db.secSize)
  }

  /** Every sector has the shape the engine gives it. */
  predicate Shaped(db: Db) {
    && 2 <= |db.flash|
    && db.oldest < |db.flash|
    && forall i :: 0 <= i < |db.flash| ==> WfShape(db.flash[i], db.secSize)
  }

  lemma WfIsShaped(db: Db)
    requires WfDb(db)
    ensures Shaped(db)
  {
    hide WfShape;
    forall i | 0 <= i < |db.flash| ensures WfShape(db.flash[i], db.secSize) {
      ShapeOf(db.flash[i], db.secSize);
    }
  }

  // ------------------------------------------------------------ offsets

  lemma {:induction false} OffUpdate(nodes: seq<Node>, j: nat, node: Node, k: nat)
    requires j < |nodes| && k <= |nodes| && node.Len() == nodes[j].Len()
    ensures Off(nodes[j := node], k) == Off(nodes, k)
  {
    if k > 0 {
      OffUpdate(nodes, j, node, k - 1);
    }
  }

  lemma {:induction false} OffPrefix(nodes: seq<Node>, more: seq<Node>, k: nat)
    requires k <= |nodes|
    ensures Off(nodes + more, k) == Off(nodes, k)
  {
    if k > 0 {
      OffPrefix(nodes, more, k - 1);
    }
  }

  lemma {:induction false} OffMonotone(nodes: seq<Node>, j: nat, k: nat)
    requires j <= k <= |nodes|
    ensures Off(nodes, j) <= Off(nodes, k)
    ensures j < k ==> Off(nodes, j) + nodes[j].Len() <= Off(nodes, k)
    decreases k
  {
    if j < k {
      OffMonotone(nodes, j, k - 1);
    }
  }

  lemma UsedHold(nodes: seq<Node>, node: Node)
    ensures Used(nodes + [node]) == Used(nodes) + node.Len()
  {
    OffPrefix(nodes, [node], |nodes|);
  }

  /** Bytes taken by the nodes of the first `k` sectors. */
  function UsedTo(flash: seq<Sector>, k: nat): nat
    requires k <= |flash|
  {
    if k == 0 then 0 else UsedTo(flash, k - 1) + UsedIn(flash[k - 1])
  }

  function UsedIn(sec: Sector): nat {
    if sec.Raw? then 0 else Used(sec.nodes)
  }

  function UsedAll(flash: seq<Sector>): nat {
    UsedTo(flash, |flash|)
  }

  lemma {:induction false} UsedUpdate(flash: seq<Sector>, i: nat, sec: Sector, k: nat)
    requires i < |flash| && k <= |flash|
    ensures UsedTo(flash[i := sec], k) == UsedTo(flash, k) + if i < k then UsedIn(sec) - UsedIn(flash[i]) else 0
  {
    hide UsedIn;
    if k > 0 {
      UsedUpdate(flash, i, sec, k - 1);
    }
  }

  // ------------------------------------------------------------ counting

  lemma {:induction false} CountUpdate(flash: seq<Sector>, i: nat, sec: Sector, st: StoreStatus, k: nat)
    requires i < |flash| && k <= |flash|
    ensures CountStore(flash[i := sec], st, 0, k)
         == CountStore(flash, st, 0, k)
            + (if i < k && HasStore(sec, st) then 1 else 0) - (if i < k && HasStore(flash[i], st) then 1 else 0)
  {
    hide HasStore;
    if k > 0 {
      CountUpdate(flash, i, sec, st, k - 1);
    }
  }

  lemma {:induction false} CountWitness(flash: seq<Sector>, st: StoreStatus, k: nat) returns (i: nat)
    requires k <= |flash| && CountStore(flash, st, 0, k) > 0
    ensures i < k && HasStore(flash[i], st)
  {
    hide HasStore;
    if HasStore(flash[k - 1], st) {
      i := k - 1;
    } else {
      i := CountWitness(flash, st, k - 1);
    }
  }

  lemma {:induction false} CountPositive(flash: seq<Sector>, st: StoreStatus, i: nat, k: nat)
    requires i < k <= |flash| && HasStore(flash[i], st)
    ensures CountStore(flash, st, 0, k) > 0
  {
    hide HasStore;
    if i < k - 1 {
      CountPositive(flash, st, i, k - 1);
    }
  }

  // ------------------------------------------------------------ allocation

  lemma {:induction false} AllocScanFinds(db: Db, want: StoreStatus, size: nat, k: nat, x: nat)
    requires db.oldest < |db.flash| && k <= x < |db.flash|
    requires HasRoom(db, want, size, RingPos(db.oldest, x, |db.flash|))
    ensures AllocScan(db, want, size, k).Some?
    decreases |db.flash| - k
  {
    hide HasRoom;
    if k < x {
      AllocScanFinds(db, want, size, k + 1, x);
    }
  }

  /** A used sector with room is found, whatever else there is. */
  lemma AllocUsing(db: Db, size: nat, i: nat)
    requires db.oldest < |db.flash| && i < |db.flash| && HasRoom(db, Using, size, i)
    ensures AllocKv(db, size).sec.Some? && HasRoom(db, Using, size, AllocKv(db, size).sec.value)
    ensures AllocKv(db, size).db == db
  {
    CountPositive(db.flash, Using, i, |db.flash|);
    AllocScanFinds(db, Using, size, 0, Steps(db.oldest, i, |db.flash|));
    hide AllocScan, HasRoom;
  }

  /** While collecting, an empty sector with room is found too. */
  lemma AllocEmpty(db: Db, size: nat, i: nat)
    requires db.oldest < |db.flash| && i < |db.flash| && HasRoom(db, Empty, size, i) && db.gcRequest
    ensures AllocKv(db, size).sec.Some? && AllocKv(db, size).db == db
  {
    CountPositive(db.flash, Empty, i, |db.flash|);
    AllocScanFinds(db, Empty, size, 0, Steps(db.oldest, i, |db.flash|));
    hide AllocScan, HasRoom;
  }

  // ------------------------------------------------------------ sectors stay well formed

  lemma WfMark(sec: Sector, secSize: nat, j: nat, st: KvStatus, dirty: DirtyStatus)
    requires WfShape(sec, secSize) && j < |sec.nodes| && Intact(sec.nodes[j])
    requires st == PreDelete || st == Deleted
    requires dirty == True || dirty == Gc
    ensures WfSector(MarkNode(sec.(dirty := dirty), j, st), secSize)
    ensures Used(MarkNode(sec.(dirty := dirty), j, st).nodes) == Used(sec.nodes)
  {
    hide NodeCrc;
    var node := sec.nodes[j].(st := st);
    OffUpdate(sec.nodes, j, node, |sec.nodes|);
    assert WfNode(node);
  }

  lemma HoldShape(sec: Sector, secSize: nat, node: Node)
    requires WfShape(sec, secSize) && WfNode(node) && !Going(node) && (node.Blank? ==> sec.nodes == [])
    requires SECTOR_HDR + Used(sec.nodes) + node.Len() + THRESHOLD < secSize
    ensures WfShape(Hold(sec.(store := Using), node), secSize)
    ensures WfSector(sec, secSize) ==> WfSector(Hold(sec.(store := Using), node), secSize)
  {
    hide NodeCrc;
    UsedHold(sec.nodes, node);
  }

  lemma WfHold(sec: Sector, secSize: nat, node: Node)
    requires WfSector(sec, secSize) && WfNode(node) && !Going(node) && node.Node?
    requires SECTOR_HDR + Used(sec.nodes) + node.Len() + THRESHOLD < secSize
    ensures WfSector(Hold(sec.(store := Using), node), secSize)
    ensures Used(Hold(sec.(store := Using), node).nodes) == Used(sec.nodes) + node.Len()
  {
    hide Intact;
    UsedHold(sec.nodes, node);
  }

  /** `update_sec_status` never marks an allocated sector full, and leaves it in use. */
  lemma OpensUsing(db: Db, size: nat, i: nat)
    requires i < |db.flash| && (HasRoom(db, Using, size, i) || HasRoom(db, Empty, size, i))
    ensures Formatted(db, i) && Opened(db, i, size) == Using && !FillsUp(db, i, size)
  {}
}
