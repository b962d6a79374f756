/** What a key-value log means: the multiset of the entries held by its nodes. */
module KvContents {
  import opened Bytes
  import opened Wrappers
  import opened Sectors
  import opened KvModel

  /** A node counts when it is live or, with `pd`, also while its deletion is pending. */
  predicate Counts(node: Node, pd: bool) {
    if pd then Carrier(node) else Live(node)
  }

  function NodeEntries(node: Node, pd: bool): multiset<Entry> {
    if Counts(node, pd) then multiset{(Name(node), Value(node))} else multiset{}
  }

  /** The entries of the first `j` nodes. */
  function EntriesTo(nodes: seq<Node>, j: nat, pd: bool): multiset<Entry>
    requires j <= |nodes|
  {
    if j == 0 then multiset{} else EntriesTo(nodes, j - 1, pd) + NodeEntries(nodes[j - 1], pd)
  }

  function SectorEntries(sec: Sector, pd: bool): multiset<Entry> {
    if sec.Raw? then multiset{} else EntriesTo(sec.nodes, |sec.nodes|, pd)
  }

  /** The entries of the first `i` sectors. */
  function FlashTo(flash: seq<Sector>, i: nat, pd: bool): multiset<Entry>
    requires i <= |flash|
  {
    if i == 0 then multiset{} else FlashTo(flash, i - 1, pd) + SectorEntries(flash[i - 1], pd)
  }

  function Contents(flash: seq<Sector>, pd: bool): multiset<Entry> {
    FlashTo(flash, |flash|, pd)
  }

  // ------------------------------------------------------------ local changes

  lemma {:induction false} EntriesUpdate(nodes: seq<Node>, j: nat, node: Node, k: nat, pd: bool)
    requires j < |nodes| && k <= |nodes|
    ensures j < k ==>
      EntriesTo(nodes[j := node], k, pd) + NodeEntries(nodes[j], pd) == EntriesTo(nodes, k, pd) + NodeEntries(node, pd)
    ensures k <= j ==> EntriesTo(nodes[j := node], k, pd) == EntriesTo(nodes, k, pd)
  {
    hide NodeEntries;
    if k > 0 {
      EntriesUpdate(nodes, j, node, k - 1, pd);
      var a, b := EntriesTo(nodes, k - 1, pd), EntriesTo(nodes[j := node], k - 1, pd);
      if j < k - 1 {
        var x := NodeEntries(nodes[k - 1], pd);
        assert (b + x) + NodeEntries(nodes[j], pd) == (b + NodeEntries(nodes[j], pd)) + x;
        assert (a + x) + NodeEntries(node, pd) == (a + NodeEntries(node, pd)) + x;
      } else if j == k - 1 {
        assert (a + NodeEntries(node, pd)) + NodeEntries(nodes[j], pd) == (a + NodeEntries(nodes[j], pd)) + NodeEntries(node, pd);
      }
    }
  }

  lemma {:induction false} EntriesPrefix(nodes: seq<Node>, more: seq<Node>, k: nat, pd: bool)
    requires k <= |nodes|
    ensures EntriesTo(nodes + more, k, pd) == EntriesTo(nodes, k, pd)
  {
    hide NodeEntries;
    if k > 0 {
      EntriesPrefix(nodes, more, k - 1, pd);
    }
  }

  lemma {:induction false} FlashUpdate(flash: seq<Sector>, i: nat, sec: Sector, k: nat, pd: bool)
    requires i < |flash| && k <= |flash|
    ensures i < k ==>
      FlashTo(flash[i := sec], k, pd) + SectorEntries(flash[i], pd) == FlashTo(flash, k, pd) + SectorEntries(sec, pd)
    ensures k <= i ==> FlashTo(flash[i := sec], k, pd) == FlashTo(flash, k, pd)
  {
    hide SectorEntries;
    if k > 0 {
      FlashUpdate(flash, i, sec, k - 1, pd);
      var a, b := FlashTo(flash, k - 1, pd), FlashTo(flash[i := sec], k - 1, pd);
      var was, now := SectorEntries(flash[i], pd), SectorEntries(sec, pd);
      if i < k - 1 {
        var x := SectorEntries(flash[k - 1], pd);
        assert (b + x) + was == (b + was) + x;
        assert (a + x) + now == (a + now) + x;
      } else if i == k - 1 {
        assert (a + now) + was == (a + was) + now;
      }
    }
  }

  lemma HoldEntries(sec: Sector, store: StoreStatus, node: Node, pd: bool)
    requires sec.Sector?
    ensures SectorEntries(Hold(sec.(store := store), node), pd) == SectorEntries(sec, pd) + NodeEntries(node, pd)
    ensures SectorEntries(sec.(store := store), pd) == SectorEntries(sec, pd)
  {
    hide NodeEntries;
    EntriesPrefix(sec.nodes, [node], |sec.nodes|, pd);
  }

  lemma MarkEntries(sec: Sector, j: nat, st: KvStatus, dirty: DirtyStatus, pd: bool)
    requires sec.Sector? && j < |sec.nodes| && sec.nodes[j].Node?
    ensures SectorEntries(MarkNode(sec.(dirty := dirty), j, st), pd) + NodeEntries(sec.nodes[j], pd)
         == SectorEntries(sec, pd) + NodeEntries(sec.nodes[j].(st := st), pd)
  {
    hide NodeEntries;
    EntriesUpdate(sec.nodes, j, sec.nodes[j].(st := st), |sec.nodes|, pd);
  }

  // ------------------------------------------------------------ membership

  lemma EntryOfNode(node: Node, pd: bool)
    requires Counts(node, pd)
    ensures NodeEntries(node, pd) == multiset{(Name(node), Value(node))}
  {}

  lemma EntryIsNode(node: Node, e: Entry, pd: bool)
    requires e in NodeEntries(node, pd)
    ensures Counts(node, pd) && e == (Name(node), Value(node))
  {}

  lemma {:induction false} EntriesAt(nodes: seq<Node>, j: nat, k: nat, e: Entry, pd: bool)
    requires j < k <= |nodes| && e in NodeEntries(nodes[j], pd)
    ensures e in EntriesTo(nodes, k, pd)
  {
    hide NodeEntries;
    if j < k - 1 {
      EntriesAt(nodes, j, k - 1, e, pd);
    }
  }

  lemma {:induction false} NodeOfEntry(nodes: seq<Node>, e: Entry, k: nat, pd: bool) returns (j: nat)
    requires k <= |nodes| && e in EntriesTo(nodes, k, pd)
    ensures j < k && e in NodeEntries(nodes[j], pd)
  {
    hide NodeEntries;
    if e in EntriesTo(nodes, k - 1, pd) {
      j := NodeOfEntry(nodes, e, k - 1, pd);
    } else {
      j := k - 1;
    }
  }

  lemma {:induction false} FlashContains(flash: seq<Sector>, i: nat, k: nat, e: Entry, pd: bool)
    requires i < k <= |flash| && e in SectorEntries(flash[i], pd)
    ensures e in FlashTo(flash, k, pd)
  {
    hide SectorEntries;
    if i < k - 1 {
      FlashContains(flash, i, k - 1, e, pd);
    }
  }

  lemma {:induction false} SectorOfEntry(flash: seq<Sector>, e: Entry, k: nat, pd: bool) returns (i: nat)
    requires k <= |flash| && e in FlashTo(flash, k, pd)
    ensures i < k && e in SectorEntries(flash[i], pd)
  {
    hide SectorEntries;
    if e in FlashTo(flash, k - 1, pd) {
      i := SectorOfEntry(flash, e, k - 1, pd);
    } else {
      i := k - 1;
    }
  }

  /** Every counting node contributes its entry. */
  lemma ContentsAt(flash: seq<Sector>, i: nat, j: nat, pd: bool)
    requires i < |flash| && flash[i].Sector? && j < |flash[i].nodes| && Counts(flash[i].nodes[j], pd)
    ensures (Name(flash[i].nodes[j]), Value(flash[i].nodes[j])) in Contents(flash, pd)
  {
    hide NodeCrc, ReadName, NodeEntries;
    var e := (Name(flash[i].nodes[j]), Value(flash[i].nodes[j]));
    EntryOfNode(flash[i].nodes[j], pd);
    EntriesAt(flash[i].nodes, j, |flash[i].nodes|, e, pd);
    FlashContains(flash, i, |flash|, e, pd);
  }

  /** Every entry comes from a counting node. */
  lemma PlaceOf(flash: seq<Sector>, e: Entry, pd: bool) returns (i: nat, j: nat)
    requires e in Contents(flash, pd)
    ensures i < |flash| && flash[i].Sector? && j < |flash[i].nodes|
    ensures Counts(flash[i].nodes[j], pd) && e == (Name(flash[i].nodes[j]), Value(flash[i].nodes[j]))
  {
    hide NodeCrc, ReadName, NodeEntries;
    i := SectorOfEntry(flash, e, |flash|, pd);
    j := NodeOfEntry(flash[i].nodes, e, |flash[i].nodes|, pd);
    EntryIsNode(flash[i].nodes[j], e, pd);
  }

  // ------------------------------------------------------------ lookup

  /** Nodes occur only where `Find` looks. */
  predicate AllSearched(flash: seq<Sector>) {
    forall i :: 0 <= i < |flash| && flash[i].Sector? && !Searched(flash[i]) ==> flash[i].nodes == []
  }

  lemma {:induction false} FindFromMisses(flash: seq<Sector>, oldest: nat, key: seq<byte>, k: nat, x: nat, j: nat)
    requires oldest < |flash| && k <= x < |flash|
    requires FindFrom(flash, oldest, key, k).None?
    requires Searched(flash[RingPos(oldest, x, |flash|)]) && j < |flash[RingPos(oldest, x, |flash|)].nodes|
    ensures !Matches(flash[RingPos(oldest, x, |flash|)].nodes[j], key)
    decreases |flash| - k
  {
    hide Matches;
    if k < x {
      FindFromMisses(flash, oldest, key, k + 1, x, j);
    }
  }

  /** `Find` succeeds exactly for the names of live entries, and returns one of that name. */
  lemma FindFinds(db: Db, key: seq<byte>)
    requires db.oldest < |db.flash| && AllSearched(db.flash)
    ensures Find(db, key).None? ==> forall e :: e in Contents(db.flash, false) ==> e.0 != key
    ensures Find(db, key).Some? ==> Get(db, key).Some? && (key, Get(db, key).value) in Contents(db.flash, false)
  {
    hide Matches, Contents;
    var hit := Find(db, key);
    if hit.None? {
      forall e | e in Contents(db.flash, false) ensures e.0 != key {
        var i, j := PlaceOf(db.flash, e, false);
        FindFromMisses(db.flash, db.oldest, key, 0, Steps(db.oldest, i, |db.flash|), j);
        MatchesIs(db.flash[i].nodes[j], key);
      }
    } else {
      MatchesIs(db.flash[hit.value.sec].nodes[hit.value.node], key);
      ContentsAt(db.flash, hit.value.sec, hit.value.node, false);
    }
  }

  lemma MatchesIs(node: Node, key: seq<byte>)
    ensures Matches(node, key) <==> Counts(node, false) && Name(node) == key
  {}

  // ------------------------------------------------------------ the map

  /** The entries of a map. */
  ghost function Entries(m: map<seq<byte>, seq<byte>>): set<Entry> {
    set k | k in m :: (k, m[k])
  }

  lemma EntryIs(m: map<seq<byte>, seq<byte>>, e: Entry)
    ensures e in Entries(m) <==> e.0 in m && m[e.0] == e.1
  {
    if e.0 in m && m[e.0] == e.1 {
      assert e == (e.0, m[e.0]);
    }
  }

  /** The live entries are those of the map, each held once. */
  ghost predicate Holds(flash: seq<Sector>, m: map<seq<byte>, seq<byte>>) {
    Contents(flash, false) == multiset(Entries(m))
  }

  /** Lookup in the log is lookup in the map. */
  lemma GetIsMapLookup(db: Db, m: map<seq<byte>, seq<byte>>, key: seq<byte>)
    requires db.oldest < |db.flash| && AllSearched(db.flash) && Holds(db.flash, m)
    ensures Get(db, key) == if key in m then Some(m[key]) else None
  {
    hide Get, Find, Contents;
    FindFinds(db, key);
    var g := Get(db, key);
    if key in m {
      assert (key, m[key]) in Entries(m);
      assert (key, m[key]) in Contents(db.flash, false);
    }
    GetNone(db, key);
    if g.Some? {
      assert (key, g.value) in Entries(m);
    }
  }

  lemma GetNone(db: Db, key: seq<byte>)
    requires db.oldest < |db.flash|
    ensures Get(db, key).None? <==> Find(db, key).None?
  {}
}
