/** The bytes of a key-value log: where each part of a node and of a sector header lies, and what one
    write does to them. */
module KvLayout {
  import opened Bytes
  import opened Status
  import opened Crc32
  import opened Sectors
  import opened KvModel
  import opened KvInvariant

  /** `F`, `D`, `B`, `1` */
  const SECTOR_MAGIC: u32 := 0x3042_4446
  /** `K`, `V`, `0`, `0` */
  const KV_MAGIC: u32 := 0x3030_564B
  const NOT_COMBINED: u32 := 0xFFFF_FFFF

  const KV_STATUS_NUM: nat := 6
  const DIRTY_STATUS_NUM: nat := 4

  function StIndex(st: KvStatus): (i: nat)
    ensures i < KV_STATUS_NUM
  {
    match st
    case Unused => 0
    case PreWrite => 1
    case Write => 2
    case PreDelete => 3
    case Deleted => 4
    case ErrHdr => 5
  }

  function StFromIndex(i: nat): KvStatus {
    if i == 0 then KvStatus.Unused else if i == 1 then PreWrite else if i == 2 then Write
    else if i == 3 then PreDelete else if i == 4 then Deleted else ErrHdr
  }

  function DirtyIndex(d: DirtyStatus): (i: nat)
    ensures i < DIRTY_STATUS_NUM
  {
    match d
    case Unused => 0
    case False => 1
    case True => 2
    case Gc => 3
  }

  function DirtyFromIndex(i: nat): DirtyStatus {
    if i == 1 then False else if i == 2 then True else if i == 3 then Gc else DirtyStatus.Unused
  }

  // ------------------------------------------------------------ nodes in bytes

  /** The bytes `s` of a sector hold `node` from offset `o` on. The status byte of a headless node is
      whatever the cut and later reads have made of it. */
  predicate NodeAt(s: seq<byte>, o: nat, node: Node) {
    && o + node.Len() <= |s| < 0x1_0000_0000
    && (node.Blank? ==> (s[o] == Code(0) || s[o] == Code(1) || s[o] == Code(5)) && Blanked(s, o + 1, o + 24))
    && (node.Stray? ==> s[o] == Code(1))
    && (node.Node? ==>
          && Sized(node)
          && s[o] == Code(StIndex(node.st))
          && Blanked(s, o + 1, o + 4)
          && s[o + 4..o + 8] == Word(KV_MAGIC)
          && s[o + 8..o + 12] == Word(24 + |node.data|)
          && s[o + 12..o + 16] == Word(node.crc)
          && s[o + 16..o + 24] == CrcHead(node.nameLen, |node.data| - node.nameLen)
          && s[o + 24..o + 24 + |node.data|] == node.data)
    && (node.Clipped? ==> ClippedAt(s, o, node))
  }

  /** All of the node is there but its last byte, which was an erased one. */
  predicate ClippedAt(s: seq<byte>, o: nat, node: Node)
    requires node.Clipped? && o + node.Len() <= |s| < 0x1_0000_0000
  {
    && 24 + |node.data| < 0x1_0000_0000
    && node.data != [] && node.data[|node.data| - 1] == BYTE_ERASED && Intact(Unclipped(node))
    && s[o] == Code(2)
    && Blanked(s, o + 1, o + 4)
    && s[o + 4..o + 8] == Word(KV_MAGIC)
    && s[o + 8..o + 12] == Word(24 + |node.data|)
    && s[o + 12..o + 16] == Word(node.crc)
    && s[o + 16..o + 24] == CrcHead(node.nameLen, |node.data| - node.nameLen)
    && s[o + 24..o + 23 + |node.data|] == node.data[..|node.data| - 1]
  }

  /** What is read in place of a clipped node: the last byte of its data is the first one of the next node. */
  function Ruin(node: Node, b: byte): Node
    requires node.Clipped? && node.data != []
  {
    Node(Write, node.nameLen, node.crc, node.data[..|node.data| - 1] + [b])
  }

  lemma RuinAt(s: seq<byte>, o: nat, node: Node)
    requires NodeAt(s, o, node) && node.Clipped? && o + node.Len() < |s|
    ensures node.data != [] && NodeAt(s, o, Ruin(node, s[o + node.Len()]))
    ensures Says(node) == Ruin(node, s[o + node.Len()]).Len()
  {
    hide NodeCrc, Word, CrcHead, Code;
    var n := |node.data|;
    assert s[o + 24..o + 24 + n] == s[o + 24..o + 23 + n] + [s[o + 23 + n]];
  }

  /** Its checksum is wrong. */
  lemma RuinBroken(node: Node, b: byte)
    requires node.Clipped? && Intact(Unclipped(node)) && node.data != [] && node.data[|node.data| - 1] != b
    ensures Sized(Ruin(node, b)) && !Intact(Ruin(node, b))
  {
    hide Crc, CrcHead;
    var u, v := node.data, Ruin(node, b).data;
    var head := CrcHead(node.nameLen, |u| - node.nameLen);
    LastDiffers(head, u, b);
    DetectsBurst(0, head + u, head + v, |head + u| - 1);
    if Crc(0, head + u) as int == Crc(0, head + v) as int {
      SameWord(Crc(0, head + u), Crc(0, head + v));
    }
  }

  lemma LastDiffers(head: seq<byte>, u: seq<byte>, b: byte)
    requires u != [] && u[|u| - 1] != b
    ensures var v := u[..|u| - 1] + [b];
      && |head + v| == |head + u| && (forall i :: 0 <= i < |head + u| - 1 ==> (head + u)[i] == (head + v)[i])
      && head + u != head + v
  {
    assert (head + u)[|head + u| - 1] == u[|u| - 1];
  }

  lemma SameWord(x: bv32, y: bv32)
    requires x as int == y as int
    ensures x == y
  {
    assert (x as int) as bv32 == x && (y as int) as bv32 == y;
  }

  /** Everything of a node after its status field. */
  function Body(node: Node): (b: seq<byte>)
    requires node.Node? && Sized(node) && 24 + |node.data| < 0x1_0000_0000
    ensures |b| == 20 + |node.data|
  {
    Word(KV_MAGIC) + Word(24 + |node.data|) + Word(node.crc)
    + CrcHead(node.nameLen, |node.data| - node.nameLen) + node.data
  }

  predicate HeadAt(s: seq<byte>, store: StoreStatus, dirty: DirtyStatus) {
    && 16 <= |s| < 0x1_0000_0000
    && s[0] == Code(StoreIndex(store)) && s[1] == Code(DirtyIndex(dirty))
    && Blanked(s, 2, 4)
    && s[4..8] == Word(SECTOR_MAGIC)
    && s[8..12] == Word(NOT_COMBINED)
    && Blanked(s, 12, 16)
  }

  predicate NodesAt(s: seq<byte>, nodes: seq<Node>) {
    forall j :: 0 <= j < |nodes| ==> NodeAt(s, SECTOR_HDR + Off(nodes, j), nodes[j])
  }

  /** The bytes `s` of a sector hold `sec`. */
  predicate SectorAt(s: seq<byte>, sec: Sector) {
    && (sec.Raw? ==> Erased(s))
    && (sec.Sector? ==>
          && HeadAt(s, sec.store, sec.dirty)
          && NodesAt(s, sec.nodes)
          && SECTOR_HDR + Used(sec.nodes) <= |s|
          && Blanked(s, SECTOR_HDR + Used(sec.nodes), |s|))
  }

  lemma NodeBound(s: seq<byte>, o: nat, node: Node)
    requires NodeAt(s, o, node)
    ensures o + node.Len() <= |s| < 0x1_0000_0000
  {}

  lemma NodeFrame(s: seq<byte>, t: seq<byte>, o: nat, node: Node)
    requires NodeAt(s, o, node) && |t| == |s|
    requires forall k :: o <= k < o + node.Len() ==> t[k] == s[k]
    ensures NodeAt(t, o, node)
  {
    hide NodeCrc, Word, CrcHead, Code;
    if node.Node? {
      assert t[o + 4..o + 8] == s[o + 4..o + 8];
      assert t[o + 8..o + 12] == s[o + 8..o + 12];
      assert t[o + 12..o + 16] == s[o + 12..o + 16];
      assert t[o + 16..o + 24] == s[o + 16..o + 24];
      assert t[o + 24..o + 24 + |node.data|] == s[o + 24..o + 24 + |node.data|];
    } else if node.Clipped? {
      assert t[o] == s[o];
      assert t[o + 4..o + 8] == s[o + 4..o + 8];
      assert t[o + 8..o + 12] == s[o + 8..o + 12];
      assert t[o + 12..o + 16] == s[o + 12..o + 16];
      assert t[o + 16..o + 24] == s[o + 16..o + 24];
      assert t[o + 24..o + 23 + |node.data|] == s[o + 24..o + 23 + |node.data|];
    }
  }

  // ------------------------------------------------------------ single writes

  lemma NodesFrame(s: seq<byte>, t: seq<byte>, nodes: seq<Node>)
    requires NodesAt(s, nodes) && |t| == |s|
    requires forall k :: SECTOR_HDR <= k < |s| ==> t[k] == s[k]
    ensures NodesAt(t, nodes)
  {
    hide NodeAt, Off;
    forall j | 0 <= j < |nodes| ensures NodeAt(t, SECTOR_HDR + Off(nodes, j), nodes[j]) {
      NodeBound(s, SECTOR_HDR + Off(nodes, j), nodes[j]);
      NodeFrame(s, t, SECTOR_HDR + Off(nodes, j), nodes[j]);
    }
  }

  lemma HeadFrame(s: seq<byte>, t: seq<byte>, store: StoreStatus, dirty: DirtyStatus)
    requires HeadAt(s, store, dirty) && |t| == |s|
    requires forall k :: 0 <= k < SECTOR_HDR ==> t[k] == s[k]
    ensures HeadAt(t, store, dirty)
  {
    hide Word, Code;
    assert t[4..8] == s[4..8] && t[8..12] == s[8..12];
  }

  lemma HeadFields(s: seq<byte>, store: StoreStatus, dirty: DirtyStatus, newStore: StoreStatus, newDirty: DirtyStatus)
    requires HeadAt(s, store, dirty)
    ensures HeadAt(Overwrite(s, 0, [Code(StoreIndex(newStore))]), newStore, dirty)
    ensures HeadAt(Overwrite(s, 1, [Code(DirtyIndex(newDirty))]), store, newDirty)
  {
    hide Word, Code;
    var t, u := Overwrite(s, 0, [Code(StoreIndex(newStore))]), Overwrite(s, 1, [Code(DirtyIndex(newDirty))]);
    assert t[4..8] == s[4..8] && t[8..12] == s[8..12];
    assert u[4..8] == s[4..8] && u[8..12] == s[8..12];
  }

  /** Programming the store or the dirty field of the header. */
  lemma HeaderField(s: seq<byte>, sec: Sector, store: StoreStatus, dirty: DirtyStatus)
    requires SectorAt(s, sec) && sec.Sector?
    ensures SectorAt(Overwrite(s, 0, [Code(StoreIndex(store))]), sec.(store := store))
    ensures SectorAt(Overwrite(s, 1, [Code(DirtyIndex(dirty))]), sec.(dirty := dirty))
  {
    hide HeadAt, Code, NodesAt, Off;
    HeadSize(s, sec.store, sec.dirty);
    HeadFields(s, sec.store, sec.dirty, store, dirty);
    NodesFrame(s, Overwrite(s, 0, [Code(StoreIndex(store))]), sec.nodes);
    NodesFrame(s, Overwrite(s, 1, [Code(DirtyIndex(dirty))]), sec.nodes);
  }

  lemma HeadSize(s: seq<byte>, store: StoreStatus, dirty: DirtyStatus)
    requires HeadAt(s, store, dirty)
    ensures 16 <= |s| < 0x1_0000_0000
  {}

  /** Nodes lie one behind the other. */
  lemma NodesApart(nodes: seq<Node>, j: nat, x: nat)
    requires j < |nodes| && x < |nodes| && j != x
    ensures Off(nodes, x) + nodes[x].Len() <= Off(nodes, j) || Off(nodes, j) + nodes[j].Len() <= Off(nodes, x)
  {
    if j < x {
      OffMonotone(nodes, j, x);
    } else {
      OffMonotone(nodes, x, j);
    }
  }

  lemma StatusField(s: seq<byte>, o: nat, node: Node, st: KvStatus)
    requires NodeAt(s, o, node) && node.Node?
    ensures NodeAt(Overwrite(s, o, [Code(StIndex(st))]), o, node.(st := st))
  {
    hide NodeCrc, Word, CrcHead, Code;
    var t := Overwrite(s, o, [Code(StIndex(st))]);
    assert t[o + 4..o + 8] == s[o + 4..o + 8];
    assert t[o + 8..o + 12] == s[o + 8..o + 12];
    assert t[o + 12..o + 16] == s[o + 12..o + 16];
    assert t[o + 16..o + 24] == s[o + 16..o + 24];
    assert t[o + 24..o + 24 + |node.data|] == s[o + 24..o + 24 + |node.data|];
  }

  /** Programming the status of a node. */
  lemma NodeStatus(s: seq<byte>, sec: Sector, j: nat, st: KvStatus)
    requires SectorAt(s, sec) && sec.Sector? && j < |sec.nodes| && sec.nodes[j].Node?
    ensures SECTOR_HDR + Off(sec.nodes, j) < |s|
    ensures SectorAt(Overwrite(s, SECTOR_HDR + Off(sec.nodes, j), [Code(StIndex(st))]), MarkNode(sec, j, st))
  {
    hide HeadAt, Code, Off, NodeAt;
    var nodes := sec.nodes;
    var o := SECTOR_HDR + Off(nodes, j);
    OffMonotone(nodes, j, |nodes|);
    NodeBound(s, o, nodes[j]);
    var t := Overwrite(s, o, [Code(StIndex(st))]);
    var marked := nodes[j := nodes[j].(st := st)];
    HeadFrame(s, t, sec.store, sec.dirty);
    forall x | 0 <= x <= |nodes| ensures Off(marked, x) == Off(nodes, x) {
      OffUpdate(nodes, j, nodes[j].(st := st), x);
    }
    forall x | 0 <= x < |nodes| ensures NodeAt(t, SECTOR_HDR + Off(marked, x), marked[x]) {
      NodeBound(s, SECTOR_HDR + Off(nodes, x), nodes[x]);
      if x != j {
        NodesApart(nodes, j, x);
        NodeFrame(s, t, SECTOR_HDR + Off(nodes, x), nodes[x]);
      } else {
        StatusField(s, o, nodes[j], st);
      }
    }
  }

  /** The nodes as they are, and one node `p` behind them, in place of what was there. */
  lemma NodesThen(s: seq<byte>, t: seq<byte>, nodes: seq<Node>, more: seq<Node>, p: Node)
    requires NodesAt(s, nodes + more) && |t| == |s|
    requires forall k :: 0 <= k < SECTOR_HDR + Used(nodes) && k < |s| ==> t[k] == s[k]
    requires NodeAt(t, SECTOR_HDR + Used(nodes), p)
    ensures NodesAt(t, nodes + [p])
  {
    hide NodeAt, Off;
    var added := nodes + [p];
    OffPrefix(nodes, [p], |nodes|);
    forall x | 0 <= x < |added| ensures NodeAt(t, SECTOR_HDR + Off(added, x), added[x]) {
      if x < |nodes| {
        OffPrefix(nodes, [p], x);
        OffPrefix(nodes, more, x);
        assert (nodes + more)[x] == nodes[x];
        NodeBound(s, SECTOR_HDR + Off(nodes, x), nodes[x]);
        OffMonotone(nodes, x, |nodes|);
        NodeFrame(s, t, SECTOR_HDR + Off(nodes, x), nodes[x]);
      }
    }
  }

  /** The same for a whole sector. */
  lemma LastNode(s: seq<byte>, t: seq<byte>, sec: Sector, more: seq<Node>, p: Node)
    requires sec.Sector? && SectorAt(s, sec.(nodes := sec.nodes + more)) && |t| == |s|
    requires forall k :: 0 <= k < SECTOR_HDR + Used(sec.nodes) && k < |s| ==> t[k] == s[k]
    requires NodeAt(t, SECTOR_HDR + Used(sec.nodes), p)
    requires SECTOR_HDR + Used(sec.nodes) + p.Len() <= |t| && Blanked(t, SECTOR_HDR + Used(sec.nodes) + p.Len(), |t|)
    ensures SectorAt(t, Hold(sec, p))
  {
    hide HeadAt, NodeAt, NodesAt, Off;
    HeadSize(s, sec.store, sec.dirty);
    UsedHold(sec.nodes, p);
    NodesThen(s, t, sec.nodes, more, p);
    HeadFrame(s, t, sec.store, sec.dirty);
  }

  /** The first write of a node: its status. */
  lemma WriteHeadless(s: seq<byte>, sec: Sector)
    requires SectorAt(s, sec) && sec.Sector? && SECTOR_HDR + Used(sec.nodes) + KV_HDR <= |s|
    ensures SectorAt(Overwrite(s, SECTOR_HDR + Used(sec.nodes), [Code(1)]), Hold(sec, Headless(sec)))
  {
    hide Word, Code, SectorAt;
    var o := SECTOR_HDR + Used(sec.nodes);
    var t := Overwrite(s, o, [Code(1)]);
    assert Blanked(s, o, |s|) by { TailBlank(s, sec); }
    assert NodeAt(t, o, Headless(sec)) by { SizeOf(s, sec); }
    assert sec.nodes + [] == sec.nodes;
    LastNode(s, t, sec, [], Headless(sec));
  }

  lemma TailBlank(s: seq<byte>, sec: Sector)
    requires SectorAt(s, sec) && sec.Sector?
    ensures SECTOR_HDR + Used(sec.nodes) <= |s| && Blanked(s, SECTOR_HDR + Used(sec.nodes), |s|)
  {
    hide HeadAt, NodesAt, Off;
  }

  lemma SizeOf(s: seq<byte>, sec: Sector)
    requires SectorAt(s, sec) && sec.Sector?
    ensures 16 <= |s| < 0x1_0000_0000
  {
    hide Word, Code, NodesAt, Off;
  }

  // ------------------------------------------------------------ the body of a node

  lemma BodyParts(node: Node)
    requires node.Node? && Sized(node) && 24 + |node.data| < 0x1_0000_0000
    ensures var b := Body(node);
      && b[0..4] == Word(KV_MAGIC) && b[4..8] == Word(24 + |node.data|) && b[8..12] == Word(node.crc)
      && b[12..20] == CrcHead(node.nameLen, |node.data| - node.nameLen) && b[20..] == node.data
  {
    hide Word, NodeCrc;
  }

  /** The status and the first `20 + h` bytes of the body in place: a node written as far as `h`. */
  lemma BodyMakes(t: seq<byte>, o: nat, node: Node, h: nat)
    requires node.Node? && Sized(node) && h <= |node.data| && o + 24 + |node.data| <= |t| < 0x1_0000_0000
    requires t[o] == Code(1) && Blanked(t, o + 1, o + 4)
    requires t[o + 4..o + 24 + h] == Body(node)[..20 + h]
    requires Blanked(t, o + 24 + h, o + 24 + |node.data|)
    ensures NodeAt(t, o, Partial(node, h))
  {
    hide Word, NodeCrc, CrcHead, Code;
    BodyParts(node);
    var b := Body(node);
    var c := t[o + 4..o + 24 + h];
    Sub(t, o + 4, o + 24 + h, 0, 4);
    Sub(t, o + 4, o + 24 + h, 4, 8);
    Sub(t, o + 4, o + 24 + h, 8, 12);
    Sub(t, o + 4, o + 24 + h, 12, 20);
    Sub(t, o + 4, o + 24 + h, 20, 20 + h);
    Sub(b, 0, 20 + h, 0, 4);
    Sub(b, 0, 20 + h, 4, 8);
    Sub(b, 0, 20 + h, 8, 12);
    Sub(b, 0, 20 + h, 12, 20);
    Sub(b, 0, 20 + h, 20, 20 + h);
    assert b[..20 + h] == b[0..20 + h] == c;
    assert b[20..20 + h] == b[20..][..h];
    assert t[o + 24..o + 24 + |node.data|] == node.data[..h] + Fill(|node.data| - h);
  }

  /** The converse for a complete node: what `move_kv` copies. */
  lemma BodyOf(s: seq<byte>, o: nat, node: Node)
    requires NodeAt(s, o, node) && node.Node?
    ensures s[o + 4..o + 24 + |node.data|] == Body(node)
  {
    hide Word, NodeCrc, CrcHead, Code;
    var c := s[o + 4..o + 24 + |node.data|];
    Sub(s, o + 4, o + 24 + |node.data|, 0, 4);
    Sub(s, o + 4, o + 24 + |node.data|, 4, 8);
    Sub(s, o + 4, o + 24 + |node.data|, 8, 12);
    Sub(s, o + 4, o + 24 + |node.data|, 12, 20);
    Sub(s, o + 4, o + 24 + |node.data|, 20, 20 + |node.data|);
    BodyParts(node);
    assert c == c[0..4] + c[4..8] + c[8..12] + c[12..20] + c[20..20 + |node.data|];
  }

  /** How far a node has been written: `from` bytes of the body, behind a status that says so. */
  predicate Written(s: seq<byte>, sec: Sector, node: Node, from: nat)
    requires sec.Sector? && node.Node? && Sized(node)
  {
    var o := SECTOR_HDR + Used(sec.nodes);
    && from <= 20 + |node.data|
    && o + 24 + |node.data| <= |s| < 0x1_0000_0000
    && s[o] == Code(1) && Blanked(s, o + 1, o + 4)
    && s[o + 4..o + 4 + from] == Body(node)[..from]
    && Blanked(s, o + 4 + from, |s|)
  }

  /** The first write of a node, and that nothing of its body has been written yet. */
  lemma HeadlessWritten(s: seq<byte>, sec: Sector, node: Node)
    requires SectorAt(s, sec) && sec.Sector? && node.Node? && Sized(node)
    requires SECTOR_HDR + Used(sec.nodes) + node.Len() <= |s|
    ensures Written(Overwrite(s, SECTOR_HDR + Used(sec.nodes), [Code(1)]), sec, node, 0)
  {
    hide Word, Code, SectorAt, Body;
    TailBlank(s, sec);
    SizeOf(s, sec);
  }

  /** The next bytes of the body, at least as far as the header goes. */
  lemma WriteBody(s: seq<byte>, sec: Sector, more: seq<Node>, node: Node, from: nat, to: nat)
    requires sec.Sector? && node.Node? && Sized(node)
    requires SectorAt(s, sec.(nodes := sec.nodes + more)) && Written(s, sec, node, from)
    requires from <= to && 20 <= to <= 20 + |node.data|
    ensures var t := Overwrite(s, SECTOR_HDR + Used(sec.nodes) + 4 + from, Body(node)[from..to]);
      && SectorAt(t, Hold(sec, Partial(node, to - 20)))
      && Written(t, sec, node, to)
  {
    hide Word, Code, SectorAt, Body, CrcHead, NodeCrc, NodeAt;
    var o := SECTOR_HDR + Used(sec.nodes);
    var b := Body(node);
    var t := Overwrite(s, o + 4 + from, b[from..to]);
    assert t[o + 4..o + 4 + to] == s[o + 4..o + 4 + from] + b[from..to] == b[..to];
    BodyMakes(t, o, node, to - 20);
    LastNode(s, t, sec, more, Partial(node, to - 20));
  }

  /** The header of a formatted sector. */
  function FreshHeader(): (h: seq<byte>)
    ensures |h| == SECTOR_HDR
  {
    [Code(1), Code(1), 0xFF, 0xFF] + Word(SECTOR_MAGIC) + Word(NOT_COMBINED) + [0xFF, 0xFF, 0xFF, 0xFF]
  }

  /** Erasing, and programming a fresh header. */
  lemma Formatting(s: seq<byte>)
    requires 16 <= |s| < 0x1_0000_0000
    ensures SectorAt(Fill(|s|), Raw)
    ensures SectorAt(Overwrite(Fill(|s|), 0, FreshHeader()), Sector(Empty, False, []))
  {
    hide Word, Code;
    var hdr := FreshHeader();
    var t := Overwrite(Fill(|s|), 0, hdr);
    assert t[4..8] == hdr[4..8] == Word(SECTOR_MAGIC);
    assert t[8..12] == hdr[8..12] == Word(NOT_COMBINED);
  }

  lemma RawIsFill(s: seq<byte>)
    requires SectorAt(s, Raw)
    ensures s == Fill(|s|)
  {}

  lemma RawFill(n: nat)
    ensures SectorAt(Fill(n), Raw)
  {}

  lemma ClearsFill(n: nat, a: nat, buf: seq<byte>)
    requires a + |buf| <= n
    ensures OnlyClears(Fill(n), a, buf)
  {
    OverErased(Fill(n), a, buf);
  }

  lemma HeadByte(s: seq<byte>, sec: Sector)
    requires SectorAt(s, sec) && sec.Sector?
    ensures 16 <= |s| && s[0] == Code(StoreIndex(sec.store)) && s[1] == Code(DirtyIndex(sec.dirty))
  {
    hide Code, Word, NodesAt, Off;
  }

  /** Everything behind what has been written is erased. */
  lemma WrittenClears(s: seq<byte>, sec: Sector, node: Node, from: nat, buf: seq<byte>)
    requires sec.Sector? && node.Node? && Sized(node) && Written(s, sec, node, from)
    requires from + |buf| <= 20 + |node.data|
    ensures SECTOR_HDR + Used(sec.nodes) + 4 + from + |buf| <= |s|
    ensures OnlyClears(s, SECTOR_HDR + Used(sec.nodes) + 4 + from, buf)
  {
    hide Body, Code, NodeCrc, Used;
    OverErased(s, SECTOR_HDR + Used(sec.nodes) + 4 + from, buf);
  }

  /** Programming the final status of the last node. */
  lemma LastStatus(s: seq<byte>, sec: Sector, node: Node)
    requires sec.Sector? && node.Node? && SectorAt(s, Hold(sec, Partial(node, |node.data|)))
    ensures var o := SECTOR_HDR + Used(sec.nodes);
      && o < |s| && s[o] == Code(1)
      && SectorAt(Overwrite(s, o, [Code(2)]), Hold(sec, node.(st := Write)))
  {
    hide SectorAt, Off, Code, NodeCrc;
    var p := Partial(node, |node.data|);
    var all := Hold(sec, p);
    assert p == node.(st := PreWrite) by { assert node.data[..|node.data|] + Fill(0) == node.data; }
    OffPrefix(sec.nodes, [p], |sec.nodes|);
    NodeStatus(s, all, |sec.nodes|, Write);
    assert MarkNode(all, |sec.nodes|, Write) == Hold(sec, node.(st := Write));
    NodeByte(s, all, |sec.nodes|);
  }

  lemma NodeByte(s: seq<byte>, sec: Sector, j: nat)
    requires SectorAt(s, sec) && sec.Sector? && j < |sec.nodes| && sec.nodes[j].Node?
    ensures SECTOR_HDR + Off(sec.nodes, j) < |s| && s[SECTOR_HDR + Off(sec.nodes, j)] == Code(StIndex(sec.nodes[j].st))
  {
    hide HeadAt, Off, Code, Word, CrcHead, NodeCrc;
    assert NodeAt(s, SECTOR_HDR + Off(sec.nodes, j), sec.nodes[j]);
  }

  // ------------------------------------------------------------ new nodes

  /** The checksum of a new node, taken part by part. */
  lemma NewCrc(key: seq<byte>, value: seq<byte>)
    requires |key| <= KV_NAME_MAX && NodeSize(key, value) < 0x1_0000_0000
    ensures NewNode(Write, key, value).crc
         == Crc(Crc(Crc(Crc(0, [Byte(|key|), 0xFF, 0xFF, 0xFF]), Word(|value|)), key), value) as int
  {
    hide Word, Byte, Crc;
    var a, b := [Byte(|key|), 0xFF, 0xFF, 0xFF], Word(|value|);
    Streams(0, a, b);
    Streams(0, a + b, key);
    Streams(0, a + b + key, value);
    assert (a + b + key) + value == CrcHead(|key|, |value|) + (key + value);
    assert |key + value| - |key| == |value|;
  }

  lemma NewNodeParts(key: seq<byte>, value: seq<byte>)
    requires |key| <= KV_NAME_MAX && NodeSize(key, value) < 0x1_0000_0000
    ensures var node := NewNode(Write, key, value);
      && node.Node? && Sized(node) && node.Len() == NodeSize(key, value) && node.nameLen == |key| && node.st == Write
      && node.data == key + value
      && 24 + |node.data| < 0x1_0000_0000
      && Body(node)[20..20 + |key|] == key && Body(node)[20 + |key|..20 + |node.data|] == value
  {
    hide NodeCrc, Word;
    var node := NewNode(Write, key, value);
    BodyParts(node);
    var b := Body(node);
    Sub(b, 20, |b|, 0, |key|);
    Sub(b, 20, |b|, |key|, |key| + |value|);
  }
}
