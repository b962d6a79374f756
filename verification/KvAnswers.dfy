/** What lookups, checks and iterations find. */
module KvAnswers {
  import opened Bytes
  import opened Sectors
  import opened KvModel
  import opened KvLayout
  import opened KvImage
  import opened KvRead
  import opened KvScan
  import opened KvContents
  import opened KvMap
  import opened KvIterate

  lemma FoundLive(db: Db, key: seq<byte>)
    requires db.oldest < |db.flash| && Find(db, key).Some?
    ensures var l := Find(db, key).value;
      At(db, l.sec, l.node) && Live(db.flash[l.sec].nodes[l.node])
  {
    hide NodeCrc, ReadName;
    var l := Find(db, key).value;
    assert Matches(db.flash[l.sec].nodes[l.node], key);
  }

  lemma FoundSource(kv: Kv, db: Db, key: seq<byte>, size: nat)
    requires db.oldest < |db.flash| && Find(db, key).Some?
    requires var l := Find(db, key).value; KvAt(kv, db.flash, size, l.sec, l.node)
    ensures var l := Find(db, key).value;
      && At(db, l.sec, l.node) && Live(db.flash[l.sec].nodes[l.node])
      && KeepsSource(db.flash, size, l.sec, l.node, kv.addrStart, db.flash[l.sec].nodes[l.node])
      && Located(db.flash, size, l.sec, l.node, kv.addrStart)
  {
    hide NodeCrc, ReadName, Base, Find;
    FoundLive(db, key);
  }

  lemma ReadsInPart(mem: seq<byte>, flash: seq<Sector>, size: nat, i: nat, j: nat, a: nat) returns (read: Node)
    requires FlashAt(mem, flash, size) && Located(flash, size, i, j, a)
    ensures Base(i, size) + size <= |mem|
    ensures NodeAt(Part(mem, i, size), SECTOR_HDR + Off(flash[i].nodes, j), read)
    ensures ReadsAs(read, flash[i].nodes[j]) && !read.Stray? && !read.Clipped?
  {
    hide Base, HeadAt, NodeAt, Off, ReadsAs, Followed, FlashAt, NodesAt;
    PartAt(mem, flash, size, i);
    read := NodeReads(Part(mem, i, size), flash[i].nodes, j);
  }

  lemma MarkHead(sec: Sector, j: nat, st: KvStatus)
    requires sec.Sector? && j < |sec.nodes| && sec.nodes[j].Node?
    ensures MarkNode(sec, j, st).Sector? && MarkNode(sec, j, st).dirty == sec.dirty && MarkNode(sec, j, st).store == sec.store
  {}

  lemma LocatedAt(flash: seq<Sector>, size: nat, i: nat, j: nat, a: nat)
    requires Located(flash, size, i, j, a)
    ensures i < |flash| && flash[i].Sector? && j < |flash[i].nodes|
  {}

  lemma LookupIsMap(db: Db, m: Table, key: Key)
    requires db.oldest < |db.flash| && AllSearched(db.flash) && Holds(db.flash, m)
    ensures Find(db, key).Some? <==> key in m
    ensures Find(db, key).Some? ==>
      var l := Find(db, key).value;
      At(db, l.sec, l.node) && Intact(db.flash[l.sec].nodes[l.node]) && Value(db.flash[l.sec].nodes[l.node]) == m[key]
  {
    hide Find, NodeCrc, ReadName, Contents;
    GetIsMapLookup(db, m, key);
    GetNone(db, key);
    if Find(db, key).Some? {
      FoundLive(db, key);
    }
  }

  /** Every node that a walk sees is intact. */
  predicate SeenGood(nodes: seq<Node>) {
    forall j :: 0 <= j < |nodes| ==> nodes[j].Stray? || Intact(nodes[j])
  }

  predicate GoodSector(sec: Sector) {
    sec.Sector? && (Searched(sec) ==> SeenGood(sec.nodes))
  }

  predicate AllGood(flash: seq<Sector>) {
    forall i :: 0 <= i < |flash| ==> GoodSector(flash[i])
  }

  lemma GoodAround(flash: seq<Sector>, start: nat)
    requires start < |flash| && forall x :: 0 <= x < |flash| ==> GoodSector(flash[RingPos(start, x, |flash|)])
    ensures AllGood(flash)
  {
    hide GoodSector;
    forall i | 0 <= i < |flash| ensures GoodSector(flash[i]) {
      assert RingPos(start, Steps(start, i, |flash|), |flash|) == i;
    }
  }

  /** The `name` of a node. */
  function KvNamed(kv: Kv): Key {
    if kv.nameLen <= |kv.name| then kv.name[..kv.nameLen] else kv.name
  }

  /** The nodes listed are the entries of the map: every key once, and nothing else. */
  predicate ListsTable(out: seq<Kv>, m: Table) {
    && |out| == |m|
    && (forall x :: 0 <= x < |out| ==> KvNamed(out[x]) in m && out[x].valueLen == |m[KvNamed(out[x])]|)
    && (forall x, y :: 0 <= x < y < |out| ==> KvNamed(out[x]) != KvNamed(out[y]))
  }

  lemma KvNames(kv: Kv, flash: seq<Sector>, size: nat, l: Loc)
    requires KvAt(kv, flash, size, l.sec, l.node) && Placed(flash, l)
    ensures KvNamed(kv) == EntryAt(flash, l).0 && kv.valueLen == |EntryAt(flash, l).1|
  {
    hide NodeCrc, ReadName, Base;
  }

  /** The records read are those at the places listed. */
  predicate AllRead(out: seq<Kv>, flash: seq<Sector>, size: nat, locs: seq<Loc>) {
    |out| == |locs| && forall x :: 0 <= x < |out| ==> KvAt(out[x], flash, size, locs[x].sec, locs[x].node)
  }

  lemma NoneRead(flash: seq<Sector>, size: nat)
    ensures AllRead([], flash, size, [])
  {}

  lemma OneMoreRead(out: seq<Kv>, flash: seq<Sector>, size: nat, locs: seq<Loc>, kv: Kv, l: Loc)
    requires AllRead(out, flash, size, locs) && KvAt(kv, flash, size, l.sec, l.node)
    ensures AllRead(out + [kv], flash, size, locs + [l])
  {
    hide KvAt;
  }

  lemma ListsVisited(out: seq<Kv>, db: Db, size: nat, m: Table)
    requires db.oldest < |db.flash|
    requires AllRead(out, db.flash, size, LiveFrom(db.flash, db.oldest, 0))
    ensures AllSearched(db.flash) && Holds(db.flash, m) ==> ListsTable(out, m)
  {
    hide Contents, NodeCrc, LiveFrom, KvAt, Placed, EntryAt, KvNamed;
    if AllSearched(db.flash) && Holds(db.flash, m) {
      VisitsEachOnce(db.flash, db.oldest, m);
      var locs := LiveFrom(db.flash, db.oldest, 0);
      forall x | 0 <= x < |out|
        ensures KvNamed(out[x]) == EntryAt(db.flash, locs[x]).0 && out[x].valueLen == |EntryAt(db.flash, locs[x]).1|
      {
        KvNames(out[x], db.flash, size, locs[x]);
      }
    }
  }

  lemma LiveEnds(flash: seq<Sector>, i: nat)
    requires i < |flash| && flash[i].Sector?
    ensures LiveIn(flash, i, |flash[i].nodes|) == []
  {}
}
