/** Which logs the engine's walks can read, and that its steps keep them readable. */
module KvScan {
  import opened Bytes
  import opened Status
  import opened Sectors
  import opened KvModel
  import opened Wrappers
  import opened KvInvariant
  import opened KvLayout
  import opened KvImage
  import opened KvRead
  import opened KvIterate

  /** Every sector is blank or can be walked. */
  ghost predicate Scannable(flash: seq<Sector>, size: nat) {
    forall i :: 0 <= i < |flash| ==> flash[i].Raw? || Walkable(flash[i], size)
  }

  lemma ScanPut(flash: seq<Sector>, size: nat, i: nat, sec: Sector)
    requires Scannable(flash, size) && i < |flash| && (sec.Raw? || Walkable(sec, size))
    ensures Scannable(flash[i := sec], size)
  {
    hide Walkable;
  }

  lemma ScanAt(flash: seq<Sector>, size: nat, i: nat)
    requires Scannable(flash, size) && i < |flash| && flash[i].Sector?
    ensures Walkable(flash[i], size)
  {
    hide Walkable;
  }

  lemma MagicIgnoresStatus(node: Node, st: KvStatus)
    requires node.Node? && OneMagic(node)
    ensures OneMagic(node.(st := st))
  {
    hide MagicAt, NodeCrc, Word, CrcHead;
    if Sized(node) && 24 + |node.data| < 0x1_0000_0000 {
      assert Body(node.(st := st)) == Body(node);
    }
  }

  lemma WalkMark(sec: Sector, size: nat, j: nat, st: KvStatus, dirty: DirtyStatus)
    requires Walkable(sec, size) && j < |sec.nodes| && sec.nodes[j].Node?
    requires st == ErrHdr || ((st == PreDelete || st == Deleted) && Intact(sec.nodes[j]))
    requires dirty != DirtyStatus.Unused
    ensures Walkable(MarkNode(sec.(dirty := dirty), j, st), size)
  {
    hide NodeCrc, OneMagic;
    var node := sec.nodes[j].(st := st);
    OffUpdate(sec.nodes, j, node, |sec.nodes|);
    if !Intact(sec.nodes[j]) {
      MagicIgnoresStatus(sec.nodes[j], st);
    }
    assert WfNode(sec.nodes[j]);
  }

  lemma WalkDirty(sec: Sector, size: nat, dirty: DirtyStatus)
    requires Walkable(sec, size) && sec.dirty != False && dirty != DirtyStatus.Unused
    ensures Walkable(sec.(dirty := dirty), size)
  {
    hide Intact, OneMagic, WfNode;
  }

  lemma WalkHold(sec: Sector, size: nat, node: Node)
    requires Walkable(sec, size) && Intact(node) && SECTOR_HDR + Used(sec.nodes) + node.Len() + THRESHOLD < size
    ensures Walkable(Hold(sec.(store := Using), node.(st := Write)), size)
  {
    hide NodeCrc, OneMagic;
    UsedHold(sec.nodes, node.(st := Write));
  }

  lemma WalkNew(size: nat)
    ensures Walkable(Sector(Empty, False, []), size)
  {}

  // ------------------------------------------------------------ addresses

  /** The address of node `j` of sector `i`. */
  function NodeAddr(flash: seq<Sector>, size: nat, i: nat, j: nat): nat
    requires i < |flash| && flash[i].Sector? && j <= |flash[i].nodes|
  {
    Base(i, size) + SECTOR_HDR + Off(flash[i].nodes, j)
  }

  /** `a` is the address of node `j` of sector `i`, one that a walk stops at. */
  predicate Located(flash: seq<Sector>, size: nat, i: nat, j: nat, a: nat) {
    && i < |flash| && flash[i].Sector? && j < |flash[i].nodes|
    && !flash[i].nodes[j].Stray?
    && (flash[i].nodes[j].Blank? ==> j == 0)
    && Followed(flash[i].nodes, j)
    && a == NodeAddr(flash, size, i, j)
  }

  /** `kv` stands at node `j` of sector `i`. */
  predicate KvStands(kv: Kv, flash: seq<Sector>, size: nat, i: nat, j: nat) {
    && kv.addrStart != FAILED_ADDR
    && Located(flash, size, i, j, kv.addrStart)
    && kv.crcOk == Intact(flash[i].nodes[j]) && kv.len == Says(flash[i].nodes[j])
  }

  /** `kv` is what reading node `j` of sector `i` gives. */
  predicate KvAt(kv: Kv, flash: seq<Sector>, size: nat, i: nat, j: nat) {
    KvStands(kv, flash, size, i, j) && KvIs(kv, flash[i].nodes[j], kv.addrStart)
  }

  /** `r` is the address of the node that the walk sees after node `j` of sector `i`, if there is one. */
  predicate NextAt(r: u32, flash: seq<Sector>, size: nat, i: nat, j: nat) {
    && i < |flash| && flash[i].Sector? && j < |flash[i].nodes|
    && var x := NextSeen(flash[i].nodes, j + 1);
      if x == |flash[i].nodes| then r == FAILED_ADDR else r != FAILED_ADDR && Located(flash, size, i, x, r)
  }

  lemma NodeInSector(s: seq<byte>, sec: Sector, j: nat)
    requires SectorAt(s, sec) && sec.Sector? && j < |sec.nodes|
    ensures NodeAt(s, SECTOR_HDR + Off(sec.nodes, j), sec.nodes[j])
    ensures SECTOR_HDR + Off(sec.nodes, j) + sec.nodes[j].Len() <= |s| < 0x1_0000_0000
  {
    hide NodeAt, Off, HeadAt;
    NodeBound(s, SECTOR_HDR + Off(sec.nodes, j), sec.nodes[j]);
  }

  lemma NodeInImage(mem: seq<byte>, flash: seq<Sector>, size: nat, i: nat, j: nat)
    requires FlashAt(mem, flash, size) && i < |flash| && flash[i].Sector? && j < |flash[i].nodes|
    ensures Base(i, size) + size <= |mem| && Base(i, size) + size <= Base(|flash|, size)
    ensures NodeAt(Part(mem, i, size), SECTOR_HDR + Off(flash[i].nodes, j), flash[i].nodes[j])
    ensures NodeAddr(flash, size, i, j) + flash[i].nodes[j].Len() <= Base(i, size) + size
  {
    hide SectorAt, Base, NodeAt, Off;
    PartAt(mem, flash, size, i);
    BaseBound(i, |flash|, size);
    NodeInSector(Part(mem, i, size), flash[i], j);
  }

  /** What a sector header reads as. */
  lemma HeaderInSector(s: seq<byte>, sec: Sector)
    requires SectorAt(s, sec) && 16 <= |s|
    ensures sec.Raw? ==> RdWord(s[4..8]) != SECTOR_MAGIC
    ensures sec.Sector? ==>
      && RdWord(s[4..8]) == SECTOR_MAGIC && RdWord(s[8..12]) == NOT_COMBINED
      && s[0] == Code(StoreIndex(sec.store)) && s[1] == Code(DirtyIndex(sec.dirty))
  {
    hide NodesAt, Off, Word, RdWord, Code;
    MagicBytes();
    if sec.Raw? {
      assert s[4..8] == [0xFF, 0xFF, 0xFF, 0xFF];
      WordRoundTrip(NOT_COMBINED);
    } else {
      WordRoundTrip(SECTOR_MAGIC);
      WordRoundTrip(NOT_COMBINED);
    }
  }

  // ------------------------------------------------------------ the walk

  lemma MagicInPart(mem: seq<byte>, i: nat, size: nat, p: nat)
    requires Base(i, size) + size <= |mem| && p + 4 <= size
    ensures MagicAt(mem, Base(i, size) + p) <==> MagicAt(Part(mem, i, size), p)
  {
    hide Base, Word;
    PartRead(mem, i, size, p, 4);
  }

  lemma {:induction false} ReachBelow(start: nat, end: nat)
    requires start <= end
    ensures Reach(start, end) <= end
    decreases end - start
  {
    if start + 32 < end {
      ReachBelow(start + 28, end);
    }
  }

  /** A walkable sector ends well behind its last node. */
  lemma WalkEnds(sec: Sector, size: nat, j: nat)
    requires Walkable(sec, size) && j < |sec.nodes|
    ensures sec.Sector? && sec.store == Using
    ensures SECTOR_HDR <= ScanFrom(sec.nodes, j) <= SECTOR_HDR + Off(sec.nodes, j + 1) <= SECTOR_HDR + Used(sec.nodes)
    ensures SECTOR_HDR + Used(sec.nodes) + THRESHOLD < size
  {
    hide Intact, OneMagic, Off, WfNode;
    OffMonotone(sec.nodes, j + 1, |sec.nodes|);
    OffNext(sec.nodes, j);
  }

  /** Scanning on from node `j`, the next magic word within reach is that of the next node that is seen. */
  lemma WalkNext(mem: seq<byte>, flash: seq<Sector>, size: nat, i: nat, j: nat)
    requires FlashAt(mem, flash, size) && i < |flash| && Walkable(flash[i], size) && j < |flash[i].nodes|
    ensures var nodes := flash[i].nodes;
      var from, end := Base(i, size) + ScanFrom(nodes, j), Base(i, size) + size - SECTOR_HDR;
      var x := NextSeen(nodes, j + 1);
      && flash[i].store == Using
      && SECTOR_HDR <= from <= end < Base(i, size) + size <= |mem|
      && Base(i, size) + size <= Base(|flash|, size)
      && (x < |nodes| ==>
            && from <= NodeAddr(flash, size, i, x) && NodeAddr(flash, size, i, x) + 4 < Reach(from, end)
            && NodeAddr(flash, size, i, x) <= Base(i, size) + size
            && MagicAt(mem, NodeAddr(flash, size, i, x) + 4)
            && forall p :: from + 4 <= p < NodeAddr(flash, size, i, x) + 4 ==> !MagicAt(mem, p))
      && (x == |nodes| ==> forall p :: from + 4 <= p < Reach(from, end) ==> !MagicAt(mem, p))
  {
    hide Base, SectorAt, Off, Walkable, MagicAt, Reach, ScanFrom, FlashAt;
    var sec := flash[i];
    WalkEnds(sec, size, j);
    PartAt(mem, flash, size, i);
    var s := Part(mem, i, size);
    var x := NextSeen(sec.nodes, j + 1);
    var from, end := Base(i, size) + ScanFrom(sec.nodes, j), Base(i, size) + size - SECTOR_HDR;
    ReachBelow(from, end);
    ReachEnd(from, end);
    BaseBound(i, |flash|, size);
    if x < |sec.nodes| {
      NextMagic(s, sec, size, j);
      MagicInPart(mem, i, size, SECTOR_HDR + Off(sec.nodes, x) + 4);
    }
    forall p | from + 4 <= p < end && (x < |sec.nodes| ==> p < NodeAddr(flash, size, i, x) + 4) ensures !MagicAt(mem, p) {
      var q := p - Base(i, size);
      MagicInPart(mem, i, size, q);
      if q < SECTOR_HDR + Off(sec.nodes, x) + 4 {
        NoMagicBetween(s, sec, size, j, q);
      } else {
        NoMagicBehind(s, sec, q);
      }
    }
  }

  lemma ReachEnd(start: nat, end: nat)
    ensures end <= Reach(start, end) + 32
  {}

  /** Where a walk begins, and that there is nothing to walk in an empty sector. */
  lemma WalkStarts(flash: seq<Sector>, size: nat, i: nat)
    requires i < |flash| && Walkable(flash[i], size)
    ensures flash[i].Sector? && (flash[i].store == Empty || flash[i].store == Using)
    ensures flash[i].store == Empty ==> flash[i].nodes == [] && Used(flash[i].nodes) == 0
    ensures flash[i].store == Using ==> Located(flash, size, i, 0, Base(i, size) + SECTOR_HDR)
    ensures SeenLen(flash[i].nodes, 0) == 0
  {
    hide Intact, OneMagic, WfNode, Base;
    OffZero(flash[i].nodes);
    if flash[i].store == Using {
      WalkFollowed(flash[i], size, 0);
    }
  }

  lemma WalkFollowed(sec: Sector, size: nat, j: nat)
    requires Walkable(sec, size) && j < |sec.nodes|
    ensures Followed(sec.nodes, j)
  {
    hide Intact, OneMagic;
    assert sec.nodes[j].Clipped? ==> WfNode(sec.nodes[j + 1]);
  }

  lemma WalkOn(flash: seq<Sector>, size: nat, i: nat, j: nat)
    requires i < |flash| && Walkable(flash[i], size) && j < |flash[i].nodes| && Base(|flash|, size) < FAILED_ADDR
    ensures var x := NextSeen(flash[i].nodes, j + 1);
      && flash[i].Sector?
      && (x < |flash[i].nodes| ==>
            Located(flash, size, i, x, NodeAddr(flash, size, i, x)) && NodeAddr(flash, size, i, x) < FAILED_ADDR)
  {
    hide Intact, OneMagic, WfNode, Base, Off;
    BaseBound(i, |flash|, size);
    OffMonotone(flash[i].nodes, NextSeen(flash[i].nodes, j + 1), |flash[i].nodes|);
    if NextSeen(flash[i].nodes, j + 1) < |flash[i].nodes| {
      WalkFollowed(flash[i], size, NextSeen(flash[i].nodes, j + 1));
    }
  }

  // ------------------------------------------------------------ measuring free space

  /** The bytes of the first `j` nodes that the walk accounts for. */
  function SeenLen(nodes: seq<Node>, j: nat): (n: nat)
    requires j <= |nodes|
    ensures n <= Off(nodes, j)
  {
    if j == 0 then 0 else SeenLen(nodes, j - 1) + if nodes[j - 1].Stray? then 0 else nodes[j - 1].Len()
  }

  lemma {:induction false} SeenStrays(nodes: seq<Node>, j: nat, x: nat)
    requires j <= x <= |nodes| && forall y :: j <= y < x ==> nodes[y].Stray?
    ensures SeenLen(nodes, x) == SeenLen(nodes, j)
  {
    if j < x {
      SeenStrays(nodes, j, x - 1);
    }
  }

  lemma {:induction false} SeenAll(nodes: seq<Node>, j: nat)
    requires j <= |nodes|
    ensures SeenLen(nodes, j) == Off(nodes, j) <==> forall y :: 0 <= y < j ==> !nodes[y].Stray?
  {
    if j > 0 {
      SeenAll(nodes, j - 1);
    }
  }

  /** The last byte of the node is an erased one. */
  predicate EndsErased(node: Node) {
    node.Blank? || (node.Node? && node.data != [] && node.data[|node.data| - 1] == BYTE_ERASED)
  }

  /** The walk finds the end of the sector's contents. A stray byte makes it count too little; it then
      goes by the last byte that is not erased. */
  predicate EndShows(sec: Sector) {
    NoStraySector(sec) || !EndsErased(sec.nodes[|sec.nodes| - 1])
  }

  lemma EmptyShows(sec: Sector)
    requires sec.Sector? && sec.nodes == []
    ensures EndShows(sec)
  {}

  /** The walk of every sector finds where its contents end. */
  predicate AllShowEnd(flash: seq<Sector>) {
    forall i :: 0 <= i < |flash| ==> EndShows(flash[i])
  }

  lemma NoStrayShows(flash: seq<Sector>)
    requires NoStray(flash)
    ensures AllShowEnd(flash)
  {
    hide EndsErased;
  }

  lemma WalkStep(flash: seq<Sector>, size: nat, i: nat, j: nat)
    requires i < |flash| && Walkable(flash[i], size) && j < |flash[i].nodes| && !flash[i].nodes[j].Stray?
    ensures var nodes := flash[i].nodes;
      && SeenLen(nodes, NextSeen(nodes, j + 1)) == SeenLen(nodes, j) + nodes[j].Len()
      && SECTOR_HDR + SeenLen(nodes, NextSeen(nodes, j + 1)) + THRESHOLD < size
  {
    hide Intact, OneMagic, WfNode, Base, Off;
    var nodes := flash[i].nodes;
    SeenStrays(nodes, j + 1, NextSeen(nodes, j + 1));
    OffMonotone(nodes, NextSeen(nodes, j + 1), |nodes|);
    WalkEnds(flash[i], size, j);
  }

  lemma NodeEnds(s: seq<byte>, o: nat, node: Node)
    requires NodeAt(s, o, node) && !node.Clipped?
    ensures s[o + node.Len() - 1] == BYTE_ERASED <==> EndsErased(node)
  {
    hide Word, NodeCrc;
    CodesNest(1, 1);
    if node.Node? && node.data == [] {
      assert s[o + 23] == s[o + 16..o + 24][7] == Word(0)[3];
      WordOfDigits(0, 0, 0, 0);
    } else if node.Node? {
      assert s[o + 24..o + 24 + |node.data|][|node.data| - 1] == s[o + node.Len() - 1];
    }
  }

  lemma SectorEnds(mem: seq<byte>, flash: seq<Sector>, size: nat, i: nat)
    requires FlashAt(mem, flash, size) && i < |flash| && flash[i].Sector? && flash[i].nodes != []
    requires !flash[i].nodes[|flash[i].nodes| - 1].Clipped?
    ensures 0 < Base(i, size) + SECTOR_HDR + Used(flash[i].nodes) <= |mem|
    ensures mem[Base(i, size) + SECTOR_HDR + Used(flash[i].nodes) - 1] == BYTE_ERASED
       <==> EndsErased(flash[i].nodes[|flash[i].nodes| - 1])
  {
    hide SectorAt, Base, NodeAt;
    var j: nat := |flash[i].nodes| - 1;
    PartAt(mem, flash, size, i);
    NodeInImage(mem, flash, size, i, j);
    NodeEnds(Part(mem, i, size), SECTOR_HDR + Off(flash[i].nodes, j), flash[i].nodes[j]);
    assert Part(mem, i, size)[SECTOR_HDR + Used(flash[i].nodes) - 1] == mem[Base(i, size) + SECTOR_HDR + Used(flash[i].nodes) - 1];
  }

  /** What the walk, which accounts for `seen` bytes, and the search for erased bytes behind it find: the end
      of the contents exactly when it shows. */
  lemma EndFound(mem: seq<byte>, flash: seq<Sector>, size: nat, i: nat, seen: nat, r: nat)
    requires FlashAt(mem, flash, size) && i < |flash| && flash[i].Sector? && flash[i].nodes != []
    requires !flash[i].nodes[|flash[i].nodes| - 1].Clipped?
    requires seen <= Used(flash[i].nodes) && (seen == Used(flash[i].nodes) <==> NoStraySector(flash[i]))
    requires Base(i, size) + SECTOR_HDR + seen <= r <= Base(i, size) + size <= |mem|
    requires Erased(mem[r..Base(i, size) + size])
    requires r > Base(i, size) + SECTOR_HDR + seen ==> mem[r - 1] != BYTE_ERASED
    ensures r <= Base(i, size) + SECTOR_HDR + Used(flash[i].nodes)
    ensures r == Base(i, size) + SECTOR_HDR + Used(flash[i].nodes) <==> EndShows(flash[i])
  {
    hide SectorAt, Base, Off;
    var e := Base(i, size) + SECTOR_HDR + Used(flash[i].nodes);
    TailErased(mem, flash, size, i);
    SectorEnds(mem, flash, size, i);
    if r < e {
      assert mem[r..Base(i, size) + size][e - 1 - r] == mem[e - 1];
    }
  }

  lemma LastUnclipped(sec: Sector, size: nat)
    requires Walkable(sec, size) && sec.nodes != []
    ensures !sec.nodes[|sec.nodes| - 1].Clipped?
  {
    hide OneMagic, Intact, WfNode;
  }

  /** The walk accounts for all bytes if and only if it comes to the end and has passed over none. A clipped
      node ends it. */
  lemma SeenEnd(sec: Sector, j: nat)
    requires sec.Sector? && j <= |sec.nodes| && forall y :: 0 <= y < j ==> !sec.nodes[y].Clipped?
    requires j < |sec.nodes| ==> sec.nodes[j].Clipped?
    ensures SeenLen(sec.nodes, j) <= Used(sec.nodes)
    ensures SeenLen(sec.nodes, j) == Used(sec.nodes) <==> NoStraySector(sec)
  {
    SeenAll(sec.nodes, j);
    OffMonotone(sec.nodes, j, |sec.nodes|);
  }

  /** Nodes that recovery has nothing left of have said so. */
  lemma KvWellFormed(kv: Kv, flash: seq<Sector>, size: nat, i: nat, j: nat)
    requires KvAt(kv, flash, size, i, j) && Walkable(flash[i], size)
    ensures flash[i].nodes[j].Clipped? <==> !kv.crcOk && kv.status != PreWrite && kv.status != ErrHdr
    ensures !flash[i].nodes[j].Clipped? ==> kv.len == flash[i].nodes[j].Len()
    ensures |kv.name| == KV_NAME_MAX
  {
    hide NodeCrc, OneMagic, Base, Off, ReadName;
    assert WfNode(flash[i].nodes[j]);
  }

  lemma TailErased(mem: seq<byte>, flash: seq<Sector>, size: nat, i: nat)
    requires FlashAt(mem, flash, size) && i < |flash| && flash[i].Sector?
    ensures Base(i, size) + size <= Base(|flash|, size) <= |mem|
    ensures Base(i, size) + SECTOR_HDR + Used(flash[i].nodes) <= Base(i, size) + size
    ensures forall k :: Base(i, size) + SECTOR_HDR + Used(flash[i].nodes) <= k < Base(i, size) + size ==> mem[k] == BYTE_ERASED
  {
    hide SectorAt, Base, Off;
    PartAt(mem, flash, size, i);
    BaseBound(i, |flash|, size);
    TailBlank(Part(mem, i, size), flash[i]);
    forall k | Base(i, size) + SECTOR_HDR + Used(flash[i].nodes) <= k < Base(i, size) + size ensures mem[k] == BYTE_ERASED {
      assert mem[k] == Part(mem, i, size)[k - Base(i, size)];
    }
  }

  lemma SameWords(s: seq<byte>, h: seq<byte>)
    requires |s| >= 16 && h == s[0..16]
    ensures h[4..8] == s[4..8] && h[8..12] == s[8..12]
  {}

  // ------------------------------------------------------------ counting around the ring

  /** How many of the first `k` sectors of the ring from `start` on are in store state `st`. */
  function CountRing(flash: seq<Sector>, st: StoreStatus, start: nat, k: nat): nat
    requires start < |flash| && k <= |flash|
  {
    if k == 0 then 0
    else CountRing(flash, st, start, k - 1) + if HasStore(flash[RingPos(start, k - 1, |flash|)], st) then 1 else 0
  }

  lemma {:induction false} CountRingIs(flash: seq<Sector>, st: StoreStatus, start: nat, k: nat)
    requires start < |flash| && k <= |flash|
    ensures CountRing(flash, st, start, k)
         == if start + k <= |flash| then CountStore(flash, st, start, start + k)
            else CountStore(flash, st, start, |flash|) + CountStore(flash, st, 0, start + k - |flash|)
  {
    hide HasStore;
    if k > 0 {
      CountRingIs(flash, st, start, k - 1);
    }
  }

  lemma {:induction false} CountJoins(flash: seq<Sector>, st: StoreStatus, mid: nat, hi: nat)
    requires mid <= hi <= |flash|
    ensures CountStore(flash, st, 0, mid) + CountStore(flash, st, mid, hi) == CountStore(flash, st, 0, hi)
  {
    hide HasStore;
    if mid < hi {
      CountJoins(flash, st, mid, hi - 1);
    }
  }

  /** Going around the ring once visits each sector once. */
  lemma CountRingAll(flash: seq<Sector>, st: StoreStatus, start: nat)
    requires start < |flash|
    ensures CountRing(flash, st, start, |flash|) == Count(flash, st)
  {
    CountRingIs(flash, st, start, |flash|);
    CountJoins(flash, st, start, |flash|);
  }

  // ------------------------------------------------------------ lookup

  lemma KvMatches(kv: Kv, node: Node, key: seq<byte>)
    requires KvIs(kv, node, kv.addrStart) && !node.Stray?
    ensures kv.crcOk ==> kv.nameLen <= KV_NAME_MAX == |kv.name|
    ensures Matches(node, key) <==> kv.crcOk && kv.status == Write && kv.nameLen == |key| && kv.name[..kv.nameLen] == key
  {
    hide NodeCrc, ReadName;
  }

  /** What a walk does not stop at does not match. */
  lemma FindSkips(nodes: seq<Node>, key: seq<byte>, j: nat)
    requires j < |nodes| && !Matches(nodes[j], key)
    ensures FindNode(nodes, key, j) == FindNode(nodes, key, NextSeen(nodes, j + 1))
  {
    FindSkipsTo(nodes, key, j + 1, NextSeen(nodes, j + 1));
  }

  lemma {:induction false} FindSkipsTo(nodes: seq<Node>, key: seq<byte>, j: nat, x: nat)
    requires j <= x <= |nodes| && forall y :: j <= y < x ==> nodes[y].Stray?
    ensures FindNode(nodes, key, j) == FindNode(nodes, key, x)
    decreases x - j
  {
    hide NodeCrc, ReadName;
    if j < x {
      FindSkipsTo(nodes, key, j + 1, x);
    }
  }

  // ------------------------------------------------------------ copying

  /** The image holds node `j` of sector `i`, except perhaps for its status, at address `a`. */
  predicate KeepsSource(flash: seq<Sector>, size: nat, i: nat, j: nat, a: nat, node: Node) {
    && i < |flash| && flash[i].Sector? && j < |flash[i].nodes|
    && node.Node? && flash[i].nodes[j].Node?
    && flash[i].nodes[j] == node.(st := flash[i].nodes[j].st) && flash[i].nodes[j].st != ErrHdr
    && a == NodeAddr(flash, size, i, j)
  }

  /** Adding a node anywhere leaves the source where it is. */
  lemma KeepsAdded(flash: seq<Sector>, size: nat, i: nat, j: nat, a: nat, node: Node, t: nat, sec: Sector, more: seq<Node>)
    requires KeepsSource(flash, size, i, j, a, node) && t < |flash| && flash[t].Sector?
    requires sec.Sector? && sec.nodes == flash[t].nodes + more
    ensures KeepsSource(flash[t := sec], size, i, j, a, node)
  {
    hide Base;
    if i == t {
      OffPrefix(flash[t].nodes, more, j);
    }
  }

  lemma KeepsMarked(flash: seq<Sector>, size: nat, i: nat, j: nat, a: nat, node: Node, dirty: DirtyStatus, st: KvStatus)
    requires KeepsSource(flash, size, i, j, a, node) && st != ErrHdr
    ensures KeepsSource(flash[i := MarkNode(flash[i].(dirty := dirty), j, st)], size, i, j, a, node)
  {
    hide Base;
    OffUpdate(flash[i].nodes, j, flash[i].nodes[j].(st := st), j);
  }

  /** Where the bytes that `move_kv` copies read from. */
  lemma SourceReads(mem: seq<byte>, flash: seq<Sector>, size: nat, i: nat, j: nat, a: nat, node: Node, from: nat, n: nat)
    requires FlashAt(mem, flash, size) && KeepsSource(flash, size, i, j, a, node) && Sized(node)
    requires from + n <= 20 + |node.data|
    ensures 24 + |node.data| < 0x1_0000_0000
    ensures a + 4 + from + n <= |mem| && a + 24 + |node.data| <= Base(|flash|, size)
    ensures mem[a + 4 + from..a + 4 + from + n] == Body(node)[from..from + n]
  {
    hide Base, SectorAt, Off, NodeCrc, Word, CrcHead, Code;
    NodeInImage(mem, flash, size, i, j);
    var s, o := Part(mem, i, size), SECTOR_HDR + Off(flash[i].nodes, j);
    BodyOf(s, o, flash[i].nodes[j]);
    Sub(s, o + 4, o + 24 + |node.data|, from, from + n);
    PartRead(mem, i, size, o + 4 + from, n);
  }

  lemma ChunkStep(node: Node, len: nat, n: nat, stages: seq<Node>, all: seq<Node>)
    requires node.Node? && (len == 0 || 20 <= len) && len < 20 + |node.data|
    requires n == if 32 < 20 + |node.data| - len then 32 else 20 + |node.data| - len
    requires stages + ChunkStages(node, len) == all
    ensures 20 <= len + n && stages + [Partial(node, len + n - 20)] + ChunkStages(node, len + n) == all
  {
    hide Partial;
    assert ChunkStages(node, len) == [Partial(node, len + n - 20)] + ChunkStages(node, len + n);
  }

  lemma ChunksEnd(node: Node)
    requires node.Node?
    ensures ChunkStages(node, 20 + |node.data|) == []
  {}

  lemma CopyToIs(db: Db, t: nat, node: Node, stages: seq<Node>)
    requires Formatted(db, t) && node.Node?
    requires stages == [Headless(OpenedSector(db, t, node.Len()))] + ChunkStages(node, 0)
    ensures CopyTo(db, t, node) == WriteNode(db, t, node.Len(), stages + [node.(st := Write)])
  {
    hide ChunkStages, WriteNode, Opened;
    assert CopyStages(db.flash[t], node) == stages + [node.(st := Write)];
  }

  // ------------------------------------------------------------ logs stay readable

  predicate IntactSector(sec: Sector) {
    sec.Sector? ==> forall j :: 0 <= j < |sec.nodes| ==> Intact(sec.nodes[j])
  }

  /** Every node has its checksum right: nothing was ever torn. */
  predicate AllIntact(flash: seq<Sector>) {
    forall i :: 0 <= i < |flash| ==> IntactSector(flash[i])
  }

  /** What a step of the engine keeps: the log can be walked; no strays appear; and, if `ends`, the ends
      of all sectors show as before. */
  ghost predicate KeepsScan(f: seq<Sector>, g: seq<Sector>, size: nat, ends: bool) {
    && |g| == |f|
    && (Scannable(f, size) ==> Scannable(g, size))
    && (NoStray(f) ==> NoStray(g))
    && (AllIntact(f) ==> AllIntact(g))
    && (ends && AllShowEnd(f) ==> AllShowEnd(g))
  }

  lemma MarkShows(sec: Sector, j: nat, st: KvStatus, dirty: DirtyStatus)
    requires sec.Sector? && j < |sec.nodes| && sec.nodes[j].Node?
    ensures NoStraySector(sec) ==> NoStraySector(MarkNode(sec.(dirty := dirty), j, st))
    ensures EndShows(sec) ==> EndShows(MarkNode(sec.(dirty := dirty), j, st))
    ensures IntactSector(sec) ==> IntactSector(MarkNode(sec.(dirty := dirty), j, st))
  {
    hide NodeCrc;
  }

  lemma PutScans(f: seq<Sector>, size: nat, i: nat, sec: Sector, ends: bool)
    requires i < |f|
    requires f[i].Sector? && Walkable(f[i], size) ==> sec.Raw? || Walkable(sec, size)
    requires f[i].Raw? ==> sec.Raw? || Walkable(sec, size)
    requires NoStraySector(f[i]) ==> NoStraySector(sec)
    requires ends && EndShows(f[i]) ==> EndShows(sec)
    requires IntactSector(f[i]) ==> IntactSector(sec)
    ensures KeepsScan(f, f[i := sec], size, ends)
  {
    hide Walkable, NoStraySector, EndShows, IntactSector;
  }

  lemma MarkScans(db: Db, i: nat, j: nat, complete: bool)
    requires At(db, i, j) && Intact(db.flash[i].nodes[j])
    ensures KeepsScan(db.flash, MarkDel(db, i, j, complete).flash, db.secSize, true)
  {
    hide NodeCrc, Walkable, NoStraySector, EndShows, IntactSector, MarkDel, MarkNode, KeepsScan;
    var sec := db.flash[i];
    var st := if complete then Deleted else PreDelete;
    var dirty := if sec.dirty == False then True else sec.dirty;
    MarkDelFlash(db, i, j, complete);
    MarkShows(sec, j, st, dirty);
    if Walkable(sec, db.secSize) {
      HasDirty(sec, db.secSize);
      WalkMark(sec, db.secSize, j, st, dirty);
    }
    PutScans(db.flash, db.secSize, i, MarkNode(sec.(dirty := dirty), j, st), true);
  }

  lemma HasDirty(sec: Sector, size: nat)
    requires Walkable(sec, size)
    ensures sec.dirty != DirtyStatus.Unused
  {
    hide OneMagic, Intact, WfNode;
  }

  lemma CopyScans(db: Db, t: nat, node: Node)
    requires t < |db.flash| && Intact(node)
    requires HasRoom(db, Using, node.Len(), t) || HasRoom(db, Empty, node.Len(), t)
    ensures Formatted(db, t) && KeepsScan(db.flash, CopyTo(db, t, node).flash, db.secSize, false)
  {
    hide NodeCrc, Walkable, EndShows, CopyTo, KeepsScan, Used;
    OpensUsing(db, node.Len(), t);
    CopyFlash(db, t, node);
    var sec := Hold(db.flash[t].(store := Using), node.(st := Write));
    assert OpenedSector(db, t, node.Len()) == db.flash[t].(store := Using);
    if Walkable(db.flash[t], db.secSize) {
      WalkStarts(db.flash, db.secSize, t);
      WalkHold(db.flash[t], db.secSize, node);
    }
    PutScans(db.flash, db.secSize, t, sec, false);
  }

  lemma ScansOn(f: seq<Sector>, g: seq<Sector>, h: seq<Sector>, size: nat, first: bool, second: bool)
    requires KeepsScan(f, g, size, first) && KeepsScan(g, h, size, second)
    ensures KeepsScan(f, h, size, first && second)
  {
    hide Scannable, NoStray, AllShowEnd, AllIntact;
  }

  /** A move keeps the log readable. Only the copy it makes can hide the end of a sector. */
  lemma MoveScans(db: Db, i: nat, j: nat)
    requires db.oldest < |db.flash| && At(db, i, j) && Intact(db.flash[i].nodes[j])
    ensures KeepsScan(db.flash, MoveKv(db, i, j).db.flash, db.secSize, !MoveKv(db, i, j).ok)
  {
    hide NodeCrc, KeepsScan, MarkDel, CopyTo, AllocKv, Find, HasRoom, Extends;
    var node := db.flash[i].nodes[j];
    KeepsSelf(db.flash, db.secSize);
    var d1 := if node.st == Write then MarkDel(db, i, j, false) else db;
    ExtendsSelf(db.flash);
    MarkScans(db, i, j, false);
    AtExtends(db, d1, i, j);
    ExtendsLength(db.flash, d1.flash);
    SameIntact(d1.flash[i].nodes[j], node);
    var a := AllocKv(d1, node.Len());
    if a.sec.Some? {
      if a.db.recovering && node.st == PreDelete && Find(a.db, Name(node)).Some? {
        MarkScans(a.db, i, j, true);
        ScansOn(db.flash, d1.flash, MarkDel(a.db, i, j, true).flash, db.secSize, true, true);
        WeakerScan(db.flash, MarkDel(a.db, i, j, true).flash, db.secSize, true);
      } else {
        CopyScans(a.db, a.sec.value, node);
        var d2 := CopyTo(a.db, a.sec.value, node);
        AtExtends(a.db, d2, i, j);
        SameIntact(d2.flash[i].nodes[j], node);
        MarkScans(d2, i, j, true);
        ScansOn(db.flash, d1.flash, d2.flash, db.secSize, true, false);
        ScansOn(db.flash, d2.flash, MarkDel(d2, i, j, true).flash, db.secSize, false, true);
      }
    }
  }

  lemma WeakerScan(f: seq<Sector>, g: seq<Sector>, size: nat, ends: bool)
    requires KeepsScan(f, g, size, ends)
    ensures KeepsScan(f, g, size, false)
  {}

  lemma KeepsSelf(f: seq<Sector>, size: nat)
    ensures KeepsScan(f, f, size, true)
  {}

  lemma SameIntact(a: Node, b: Node)
    requires SameNode(a, b)
    ensures Intact(a) == Intact(b)
  {
    hide NodeCrc;
  }

  lemma KeptScan(f: seq<Sector>, g: seq<Sector>, size: nat)
    requires KeepsScan(f, g, size, true) && Scannable(f, size) && AllShowEnd(f)
    ensures Scannable(g, size) && AllShowEnd(g)
  {
    hide Scannable, AllShowEnd, NoStray;
  }

  /** What moving a node needs to know of it once it has been read. */
  lemma KvSource(kv: Kv, flash: seq<Sector>, size: nat, i: nat, j: nat)
    requires KvAt(kv, flash, size, i, j) && Carrier(flash[i].nodes[j])
    ensures var node := flash[i].nodes[j];
      && KeepsSource(flash, size, i, j, kv.addrStart, node)
      && kv.status == node.st && kv.len == node.Len()
      && kv.nameLen <= |kv.name| && kv.name[..kv.nameLen] == Name(node)
  {
    hide NodeCrc, ReadName, Base;
  }

  lemma SourceLocated(flash: seq<Sector>, size: nat, i: nat, j: nat, a: nat, node: Node)
    requires KeepsSource(flash, size, i, j, a, node)
    ensures Located(flash, size, i, j, a) && flash[i].nodes[j].Node? && StIndex(flash[i].nodes[j].st) <= StIndex(Deleted)
  {
    hide Base;
  }

  lemma SourceIntact(flash: seq<Sector>, size: nat, i: nat, j: nat, a: nat, node: Node)
    requires KeepsSource(flash, size, i, j, a, node) && Intact(node)
    ensures i < |flash| && flash[i].Sector? && j < |flash[i].nodes| && Intact(flash[i].nodes[j])
  {
    hide NodeCrc;
  }

  lemma MarkKeeps(db: Db, i: nat, j: nat, complete: bool, size: nat, a: nat, node: Node)
    requires KeepsSource(db.flash, size, i, j, a, node)
    ensures At(db, i, j) && KeepsSource(MarkDel(db, i, j, complete).flash, size, i, j, a, node)
  {
    hide MarkNode, MarkDel, KeepsSource;
    assert At(db, i, j) && db.flash[i].nodes[j].Node? by { SourceAt(db.flash, size, i, j, a, node); }
    MarkDelFlash(db, i, j, complete);
    var sec := db.flash[i];
    KeepsMarked(db.flash, size, i, j, a, node, if sec.dirty == False then True else sec.dirty, if complete then Deleted else PreDelete);
  }

  lemma SourceAt(flash: seq<Sector>, size: nat, i: nat, j: nat, a: nat, node: Node)
    requires KeepsSource(flash, size, i, j, a, node)
    ensures i < |flash| && flash[i].Sector? && j < |flash[i].nodes| && flash[i].nodes[j].Node?
  {}

  lemma RoomFits(db: Db, size: nat, t: nat)
    requires t < |db.flash| && Scannable(db.flash, db.secSize)
    requires HasRoom(db, Using, size, t) || HasRoom(db, Empty, size, t)
    ensures Formatted(db, t) && SECTOR_HDR + Used(db.flash[t].nodes) + size + THRESHOLD < db.secSize
  {
    hide Used, Walkable;
    ScanAt(db.flash, db.secSize, t);
    WalkStarts(db.flash, db.secSize, t);
  }

  // ------------------------------------------------------------ collecting

  lemma MovedScan(f: seq<Sector>, g: seq<Sector>, size: nat, ends: bool)
    requires KeepsScan(f, g, size, ends) && Scannable(f, size) && NoStray(f)
    ensures Scannable(g, size) && NoStray(g) && AllShowEnd(g)
    ensures AllIntact(f) ==> AllIntact(g)
  {
    hide Scannable, NoStray, AllShowEnd, AllIntact;
    NoStrayShows(g);
  }

  lemma KvCarries(kv: Kv, flash: seq<Sector>, size: nat, i: nat, j: nat)
    requires KvAt(kv, flash, size, i, j)
    ensures Carrier(flash[i].nodes[j]) <==> kv.crcOk && (kv.status == Write || kv.status == PreDelete)
  {
    hide NodeCrc, ReadName, Base;
  }

  /** Moving a node out of a victim leaves the victim with as many nodes: no sector under collection is
      allocated from. */
  lemma VictimStays(db: Db, i: nat, j: nat)
    requires db.oldest < |db.flash| && At(db, i, j) && Carrier(db.flash[i].nodes[j]) && db.flash[i].dirty == Gc
    ensures var d := MoveKv(db, i, j).db;
      && |d.flash| == |db.flash| && d.flash[i].Sector? && d.flash[i].dirty == Gc && d.flash[i].store == db.flash[i].store
      && |d.flash[i].nodes| == |db.flash[i].nodes|
      && Off(d.flash[i].nodes, j) == Off(db.flash[i].nodes, j)
      && (forall x :: 0 <= x < |d.flash[i].nodes| ==> SameNode(d.flash[i].nodes[x], db.flash[i].nodes[x]))
  {
    hide NodeCrc, AllocKv, Find, MarkDel, CopyTo, HasRoom, Off, Extends;
    var node := db.flash[i].nodes[j];
    ExtendsSelf(db.flash);
    MarkDelFlash(db, i, j, false);
    var d1 := if node.st == Write then MarkDel(db, i, j, false) else db;
    MarkOff(db.flash[i], j, PreDelete, Gc);
    AtExtends(db, d1, i, j);
    ExtendsLength(db.flash, d1.flash);
    var a := AllocKv(d1, node.Len());
    if a.sec.Some? {
      MarkDelFlash(d1, i, j, true);
      MarkOff(d1.flash[i], j, Deleted, Gc);
      var t := a.sec.value;
      NoRoomInVictim(d1, node.Len(), t, i);
      RoomIsFormatted(d1, node.Len(), t);
      CopyFlash(d1, t, node);
      var d2 := CopyTo(d1, t, node);
      MarkDelFlash(d2, i, j, true);
    }
  }

  lemma NoRoomInVictim(db: Db, size: nat, t: nat, i: nat)
    requires t < |db.flash| && i < |db.flash| && db.flash[i].Sector? && db.flash[i].dirty == Gc
    requires HasRoom(db, Using, size, t) || HasRoom(db, Empty, size, t)
    ensures t != i
  {}

  lemma MarkOff(sec: Sector, j: nat, st: KvStatus, dirty: DirtyStatus)
    requires sec.Sector? && j < |sec.nodes| && sec.nodes[j].Node?
    ensures var m := MarkNode(sec.(dirty := dirty), j, st);
      && Off(m.nodes, j) == Off(sec.nodes, j)
      && forall x :: 0 <= x < |sec.nodes| ==> SameNode(m.nodes[x], sec.nodes[x])
  {
    OffUpdate(sec.nodes, j, sec.nodes[j].(st := st), j);
  }

  lemma KvStays(kv: Kv, f: seq<Sector>, g: seq<Sector>, size: nat, i: nat, j: nat)
    requires KvStands(kv, f, size, i, j) && i < |g| && g[i].Sector? && j < |g[i].nodes| && Followed(g[i].nodes, j)
    requires SameNode(g[i].nodes[j], f[i].nodes[j]) && Off(g[i].nodes, j) == Off(f[i].nodes, j)
    ensures KvStands(kv, g, size, i, j)
  {
    hide NodeCrc, Base;
  }

  /** A victim is in use, and stays readable when it is marked as such. */
  lemma VictimScans(flash: seq<Sector>, size: nat, i: nat)
    requires Scannable(flash, size) && i < |flash|
    requires flash[i].Sector? && (flash[i].dirty == True || flash[i].dirty == Gc)
    ensures flash[i].store == Using
    ensures var f := flash[i := flash[i].(dirty := Gc)];
      Scannable(f, size) && (AllIntact(flash) ==> AllIntact(f))
  {
    hide Walkable, Intact;
    ScanAt(flash, size, i);
    DirtyInUse(flash[i], size);
    WalkDirty(flash[i], size, Gc);
    assert AllIntact(flash) ==> IntactSector(flash[i]);
  }

  lemma DirtyInUse(sec: Sector, size: nat)
    requires Walkable(sec, size) && sec.dirty != False
    ensures sec.store == Using
  {
    hide OneMagic, Intact, WfNode;
  }

  lemma FormatScans(db: Db, i: nat)
    requires i < |db.flash| && Scannable(db.flash, db.secSize)
    ensures Scannable(Format(db, i).flash, db.secSize)
    ensures AllIntact(db.flash) ==> AllIntact(Format(db, i).flash)
  {
    hide Walkable;
    WalkNew(db.secSize);
  }

  lemma FormatKeepsRest(db: Db, i: nat)
    requires i < |db.flash|
    ensures Format(db, i) == db.(flash := Format(db, i).flash, log := Format(db, i).log)
    ensures |Format(db, i).flash| == |db.flash|
  {}

  lemma MaybeWalkable(flash: seq<Sector>, size: nat, i: nat)
    requires Scannable(flash, size) && i < |flash|
    ensures flash[i].Raw? || Walkable(flash[i], size)
  {
    hide Walkable;
  }

  lemma EndAt(flash: seq<Sector>, i: nat)
    requires AllShowEnd(flash) && i < |flash|
    ensures EndShows(flash[i])
  {
    hide EndShows;
  }

  // ------------------------------------------------------------ replacing

  lemma CreateFlash(db: Db, t: nat, key: seq<byte>, value: seq<byte>)
    requires Formatted(db, t) && NodeSize(key, value) < 0x1_0000_0000
    ensures var r := CreateChecked(db, t, key, value);
      r.db.flash == if r.outcome == Done then db.flash[t := Hold(OpenedSector(db, t, NodeSize(key, value)), NewNode(Write, key, value))]
                    else db.flash
  {
    hide NodeCrc, Opened;
    if CreateChecked(db, t, key, value).outcome == Done {
      var node := NewNode(Write, key, value);
      var steps := OpenSteps(db, t, node.Len()) + HoldAll(OpenedSector(db, t, node.Len()), CreateStages(db.flash[t], node));
      assert node.Len() == NodeSize(key, value);
      assert steps[|steps| - 1] == Hold(OpenedSector(db, t, node.Len()), node);
    }
  }

  /** There is room in sector `t` for `size` more bytes and the threshold. */
  predicate HasSpace(db: Db, t: nat, size: nat) {
    && t < |db.flash| && db.flash[t].Sector?
    && (db.flash[t].store == Empty || db.flash[t].store == Using)
    && SECTOR_HDR + Used(db.flash[t].nodes) + size + THRESHOLD < db.secSize
  }

  lemma FitsOpens(db: Db, t: nat, size: nat)
    requires HasSpace(db, t, size)
    ensures OpenedSector(db, t, size) == db.flash[t].(store := Using)
  {
    hide Used;
  }

  lemma CreateScans(db: Db, t: nat, key: seq<byte>, value: seq<byte>)
    requires NodeSize(key, value) < 0x1_0000_0000 && HasSpace(db, t, NodeSize(key, value))
    ensures KeepsScan(db.flash, CreateChecked(db, t, key, value).db.flash, db.secSize, false)
  {
    hide NodeCrc, Walkable, EndShows, CreateAt, KeepsScan, Used, Remain;
    FitsOpens(db, t, NodeSize(key, value));
    CreateFlash(db, t, key, value);
    KeepsSelf(db.flash, db.secSize);
    WeakerScan(db.flash, db.flash, db.secSize, true);
    if CreateChecked(db, t, key, value).outcome == Done {
      var node := NewNode(Write, key, value);
      if Walkable(db.flash[t], db.secSize) {
        WalkHold(db.flash[t], db.secSize, node);
      }
      PutScans(db.flash, db.secSize, t, Hold(db.flash[t].(store := Using), node), false);
    }
  }

  /** Creating a node leaves every other one where it is. */
  lemma CreateKeeps(db: Db, t: nat, key: seq<byte>, value: seq<byte>, i: nat, j: nat, size: nat, a: nat, node: Node)
    requires Formatted(db, t) && NodeSize(key, value) < 0x1_0000_0000 && KeepsSource(db.flash, size, i, j, a, node)
    ensures KeepsSource(CreateChecked(db, t, key, value).db.flash, size, i, j, a, node)
  {
    hide NodeCrc, CreateChecked, KeepsSource, Opened;
    CreateFlash(db, t, key, value);
    if CreateChecked(db, t, key, value).outcome == Done {
      var added := NewNode(Write, key, value);
      KeepsAdded(db.flash, size, i, j, a, node, t, Hold(OpenedSector(db, t, NodeSize(key, value)), added), [added]);
    }
  }

  /** What a walk does not stop at is not live. */
  lemma {:induction false} LiveSkips(flash: seq<Sector>, i: nat, j: nat, x: nat)
    requires i < |flash| && flash[i].Sector? && j <= x <= |flash[i].nodes|
    requires forall y :: j <= y < x ==> flash[i].nodes[y].Stray?
    ensures LiveIn(flash, i, j) == LiveIn(flash, i, x)
    decreases x - j
  {
    hide NodeCrc;
    if j < x {
      LiveSkips(flash, i, j + 1, x);
    }
  }

  lemma KvLive(kv: Kv, flash: seq<Sector>, size: nat, i: nat, j: nat)
    requires KvAt(kv, flash, size, i, j)
    ensures Live(flash[i].nodes[j]) <==> kv.status == Write && kv.crcOk
    ensures Live(flash[i].nodes[j]) ==> kv.len == flash[i].nodes[j].Len() && kv.valueLen == |EntryAt(flash, Loc(i, j)).1|
  {
    hide NodeCrc, ReadName, Base;
  }

  lemma BehindHeader(kv: Kv, flash: seq<Sector>, size: nat, i: nat, j: nat)
    requires KvAt(kv, flash, size, i, j)
    ensures SECTOR_HDR <= kv.addrStart
  {
    hide Base, KvIs, Off;
  }

  /** Where the value of a node that was read is. */
  lemma ValueReads(mem: seq<byte>, flash: seq<Sector>, size: nat, i: nat, j: nat, kv: Kv)
    requires FlashAt(mem, flash, size) && KvAt(kv, flash, size, i, j) && Intact(flash[i].nodes[j])
    ensures kv.addrValue + kv.valueLen <= |mem|
    ensures mem[kv.addrValue..kv.addrValue + kv.valueLen] == Value(flash[i].nodes[j])
  {
    hide Base, SectorAt, Off, NodeCrc, Word, CrcHead, Code, ReadName;
    NodeInImage(mem, flash, size, i, j);
    var s, o, node := Part(mem, i, size), SECTOR_HDR + Off(flash[i].nodes, j), flash[i].nodes[j];
    PartRead(mem, i, size, o + 24 + node.nameLen, |node.data| - node.nameLen);
    Sub(s, o + 24, o + 24 + |node.data|, node.nameLen, |node.data|);
  }
}
