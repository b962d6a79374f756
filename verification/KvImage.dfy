/** The whole image of a key-value log: its sectors one after the other, and what scans see in them. */
module KvImage {
  import opened Bytes
  import opened Status
  import opened Sectors
  import opened KvModel
  import opened KvInvariant
  import opened KvLayout

  // ------------------------------------------------------------ sectors in the image

  /** The image `mem` holds `flash`, in sectors of `size` bytes. */
  predicate FlashAt(mem: seq<byte>, flash: seq<Sector>, size: nat) {
    && Base(|flash|, size) <= |mem|
    && forall i :: 0 <= i < |flash| ==> Base(i, size) + size <= |mem| && SectorAt(Part(mem, i, size), flash[i])
  }

  lemma PartAt(mem: seq<byte>, flash: seq<Sector>, size: nat, i: nat)
    requires FlashAt(mem, flash, size) && i < |flash|
    ensures Base(i, size) + size <= |mem| && SectorAt(Part(mem, i, size), flash[i])
  {
    hide Base, SectorAt;
  }

  /** A write inside sector `i` changes that sector and no other. */
  lemma FlashWrite(mem: seq<byte>, flash: seq<Sector>, size: nat, i: nat, o: nat, buf: seq<byte>, sec: Sector)
    requires FlashAt(mem, flash, size) && i < |flash| && o + |buf| <= size
    requires Base(i, size) + size <= |mem| && SectorAt(Overwrite(Part(mem, i, size), o, buf), sec)
    ensures FlashAt(Overwrite(mem, Base(i, size) + o, buf), flash[i := sec], size)
  {
    hide SectorAt, Base;
    var t := Overwrite(mem, Base(i, size) + o, buf);
    forall x | 0 <= x < |flash| ensures Base(x, size) + size <= |t| && SectorAt(Part(t, x, size), flash[i := sec][x]) {
      PartAt(mem, flash, size, x);
      PartWrite(mem, i, size, o, buf, x);
    }
  }

  // ------------------------------------------------------------ magic words

  predicate MagicAt(s: seq<byte>, p: nat) {
    p + 4 <= |s| && s[p..p + 4] == Word(KV_MAGIC)
  }

  lemma MagicBytes()
    ensures Word(KV_MAGIC) == [0x4B, 0x56, 0x30, 0x30]
    ensures Word(SECTOR_MAGIC) == [0x46, 0x44, 0x42, 0x30]
    ensures Word(NOT_COMBINED) == [0xFF, 0xFF, 0xFF, 0xFF]
  {
    hide Word, Byte;
    WordOfDigits(0x4B, 0x56, 0x30, 0x30);
    WordOfDigits(0x46, 0x44, 0x42, 0x30);
    WordOfDigits(0xFF, 0xFF, 0xFF, 0xFF);
    ByteLiterals();
  }

  lemma ByteLiterals()
    ensures Byte(0x4B) == 0x4B && Byte(0x56) == 0x56 && Byte(0x30) == 0x30
    ensures Byte(0x46) == 0x46 && Byte(0x44) == 0x44 && Byte(0x42) == 0x42 && Byte(0xFF) == 0xFF
  {}

  lemma CodesAreNotMagic(i: nat)
    requires i < 8
    ensures Code(i) != 0x4B && Code(i) != 0x56 && Code(i) != 0x30
  {
    if i == 0 {} else if i == 1 {} else if i == 2 {} else if i == 3 {}
    else if i == 4 {} else if i == 5 {} else if i == 6 {} else {}
  }

  /** The node's bytes hold the magic word in its own place only. */
  ghost predicate OneMagic(node: Node) {
    var w := Unclipped(node);
    w.Node? && Sized(w) && 24 + |w.data| < 0x1_0000_0000 ==>
      forall k: nat :: 1 <= k ==> !MagicAt(Body(w), k)
  }

  /** What the walk over a sector relies on: it begins at a node, and nodes with a wrong checksum, which
      are searched for the next magic word byte by byte, hold none but their own. */
  ghost predicate Walkable(sec: Sector, size: nat) {
    && sec.Sector?
    && WfShape(sec, size)
    && (sec.nodes != [] ==> !sec.nodes[0].Stray?)
    && (forall j :: 0 <= j < |sec.nodes| ==> sec.nodes[j].Clipped? ==> j + 1 < |sec.nodes|)
    && (forall j :: 0 <= j < |sec.nodes| ==> Intact(sec.nodes[j]) || OneMagic(sec.nodes[j]))
  }

  /** Where a scan for the next node begins. */
  function ScanFrom(nodes: seq<Node>, j: nat): nat
    requires j < |nodes|
  {
    SECTOR_HDR + Off(nodes, j) + if Intact(nodes[j]) then nodes[j].Len() else 1
  }

  /** The next node from `j` on that a walk stops at, the number of nodes if there is none. */
  function NextSeen(nodes: seq<Node>, j: nat): (x: nat)
    requires j <= |nodes|
    ensures j <= x <= |nodes|
    ensures forall y :: j <= y < x ==> nodes[y].Stray?
    ensures x < |nodes| ==> !nodes[x].Stray?
    decreases |nodes| - j
  {
    if j == |nodes| || !nodes[j].Stray? then j else NextSeen(nodes, j + 1)
  }

  lemma OffNext(nodes: seq<Node>, j: nat)
    requires j < |nodes|
    ensures Off(nodes, j + 1) == Off(nodes, j) + nodes[j].Len()
  {}

  lemma {:induction false} OffStrays(nodes: seq<Node>, j: nat, y: nat)
    requires j <= y <= |nodes| && forall k :: j <= k < y ==> nodes[k].Stray?
    ensures Off(nodes, y) == Off(nodes, j) + (y - j)
  {
    if j < y {
      OffStrays(nodes, j, y - 1);
    }
  }

  predicate NotMagic(b: byte) {
    b != 0x4B && b != 0x56 && b != 0x30
  }

  lemma NodeStarts(s: seq<byte>, o: nat, node: Node, k: nat)
    requires NodeAt(s, o, node) && o <= k < o + 4 && k < o + node.Len()
    ensures NotMagic(s[k])
  {
    hide Code, Word, CrcHead, NodeCrc;
    CodesAreNotMagic(0);
    CodesAreNotMagic(1);
    CodesAreNotMagic(2);
    CodesAreNotMagic(5);
    if node.Node? {
      CodesAreNotMagic(StIndex(node.st));
    }
  }

  /** From the end of a node to the magic word of the next one that is seen, no byte belongs to a magic word. */
  lemma BytesBehind(s: seq<byte>, sec: Sector, j: nat, k: nat)
    requires SectorAt(s, sec) && sec.Sector? && j < |sec.nodes|
    requires SECTOR_HDR + Off(sec.nodes, j + 1) <= k < SECTOR_HDR + Off(sec.nodes, NextSeen(sec.nodes, j + 1)) + 4 && k < |s|
    ensures NotMagic(s[k])
  {
    hide Off, HeadAt, NodeAt;
    var x := NextSeen(sec.nodes, j + 1);
    OffStrays(sec.nodes, j + 1, x);
    if k < SECTOR_HDR + Off(sec.nodes, x) {
      var y := j + 1 + (k - SECTOR_HDR - Off(sec.nodes, j + 1));
      OffStrays(sec.nodes, j + 1, y);
      NodeStarts(s, SECTOR_HDR + Off(sec.nodes, y), sec.nodes[y], k);
    } else if x < |sec.nodes| {
      NodeStarts(s, SECTOR_HDR + Off(sec.nodes, x), sec.nodes[x], k);
    }
  }

  lemma MagicIs(s: seq<byte>, p: nat, k: nat)
    requires MagicAt(s, p) && p <= k < p + 4
    ensures k < |s| && !NotMagic(s[k])
  {
    MagicBytes();
    hide Word;
    assert s[p..p + 4][k - p] == s[k];
  }

  /** Between a node and the next one that is seen the scan sees no magic word. */
  lemma NoMagicBetween(s: seq<byte>, sec: Sector, size: nat, j: nat, p: nat)
    requires SectorAt(s, sec) && |s| == size && Walkable(sec, size) && j < |sec.nodes|
    requires ScanFrom(sec.nodes, j) + 4 <= p < SECTOR_HDR + Off(sec.nodes, NextSeen(sec.nodes, j + 1)) + 4
    ensures !MagicAt(s, p)
  {
    hide Intact, Off, HeadAt, NodesAt, MagicAt, WfShape, OneMagic;
    var e := SECTOR_HDR + Off(sec.nodes, j + 1);
    OffNext(sec.nodes, j);
    if MagicAt(s, p) {
      if p + 4 <= e {
        NoMagicInside(s, sec, size, j, p);
      } else {
        var k := if p < e then e else p;
        MagicIs(s, p, k);
        OffStrays(sec.nodes, j + 1, NextSeen(sec.nodes, j + 1));
        BytesBehind(s, sec, j, k);
      }
    }
  }

  lemma NoMagicInside(s: seq<byte>, sec: Sector, size: nat, j: nat, p: nat)
    requires SectorAt(s, sec) && |s| == size && Walkable(sec, size) && j < |sec.nodes|
    requires !Intact(sec.nodes[j])
    requires SECTOR_HDR + Off(sec.nodes, j) + 5 <= p && p + 4 <= SECTOR_HDR + Off(sec.nodes, j) + sec.nodes[j].Len()
    ensures !MagicAt(s, p)
  {
    hide Intact, Off, HeadAt, Word, Code, CrcHead, WfShape;
    var o := SECTOR_HDR + Off(sec.nodes, j);
    var node := sec.nodes[j];
    assert NodeAt(s, o, node);
    if node.Node? {
      BodyOf(s, o, node);
      var k: nat := p - o - 4;
      Sub(s, o + 4, o + 24 + |node.data|, k, k + 4);
      assert !MagicAt(Body(node), k);
      assert Body(node)[k..k + 4] == s[p..p + 4];
    } else if node.Clipped? {
      NoMagicClipped(s, o, node, p);
    } else {
      MagicBytes();
      assert s[p..p + 4][0] == BYTE_ERASED;
    }
  }

  lemma NoMagicClipped(s: seq<byte>, o: nat, node: Node, p: nat)
    requires NodeAt(s, o, node) && node.Clipped? && OneMagic(node)
    requires o + 5 <= p && p + 4 <= o + node.Len()
    ensures !MagicAt(s, p)
  {
    hide NodeCrc, Word, Code, CrcHead;
    var w, k := Unclipped(node), p - o - 4;
    ClippedBody(s, o, node);
    Sub(s, o + 4, o + 23 + |node.data|, k, k + 4);
    Sub(Body(w), 0, 19 + |node.data|, k, k + 4);
    assert !MagicAt(Body(w), k);
    assert Body(w)[k..k + 4] == s[p..p + 4];
  }

  lemma ClippedBody(s: seq<byte>, o: nat, node: Node)
    requires NodeAt(s, o, node) && node.Clipped?
    ensures var w := Unclipped(node);
      Sized(w) && 24 + |w.data| < 0x1_0000_0000 && s[o + 4..o + 23 + |node.data|] == Body(w)[0..19 + |node.data|]
  {
    hide NodeCrc, Word, CrcHead, Code;
    var w := Unclipped(node);
    var c := s[o + 4..o + 23 + |node.data|];
    Sub(s, o + 4, o + 23 + |node.data|, 0, 4);
    Sub(s, o + 4, o + 23 + |node.data|, 4, 8);
    Sub(s, o + 4, o + 23 + |node.data|, 8, 12);
    Sub(s, o + 4, o + 23 + |node.data|, 12, 20);
    Sub(s, o + 4, o + 23 + |node.data|, 20, 19 + |node.data|);
    BodyParts(w);
    assert c == c[0..4] + c[4..8] + c[8..12] + c[12..20] + c[20..19 + |node.data|];
    var b := Body(w);
    assert b[0..19 + |node.data|] == b[0..4] + b[4..8] + b[8..12] + b[12..20] + b[20..][..|node.data| - 1];
  }

  /** Behind the last node there is none either. */
  lemma NoMagicBehind(s: seq<byte>, sec: Sector, p: nat)
    requires SectorAt(s, sec) && sec.Sector? && SECTOR_HDR + Used(sec.nodes) <= p
    ensures !MagicAt(s, p)
  {
    hide HeadAt, NodesAt, Off, Word;
    MagicBytes();
    if p + 4 <= |s| {
      assert s[p..p + 4][0] == BYTE_ERASED;
    }
  }

  lemma NextMagic(s: seq<byte>, sec: Sector, size: nat, j: nat)
    requires SectorAt(s, sec) && |s| == size && Walkable(sec, size) && j < |sec.nodes|
    requires NextSeen(sec.nodes, j + 1) < |sec.nodes|
    ensures var e := SECTOR_HDR + Off(sec.nodes, NextSeen(sec.nodes, j + 1));
      MagicAt(s, e + 4) && e + KV_HDR + THRESHOLD < size && ScanFrom(sec.nodes, j) <= e
  {
    hide Intact, Off, HeadAt, OneMagic, Code, Word, CrcHead, WfNode;
    var x := NextSeen(sec.nodes, j + 1);
    assert NodeAt(s, SECTOR_HDR + Off(sec.nodes, x), sec.nodes[x]);
    OffMonotone(sec.nodes, x, |sec.nodes|);
    OffMonotone(sec.nodes, j + 1, x);
    OffNext(sec.nodes, j);
  }
}
