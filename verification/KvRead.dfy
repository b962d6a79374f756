/** What the engine reads of a node: its header fields as slices of the image. */
module KvRead {
  import opened Bytes
  import opened Status
  import opened Crc32
  import opened Sectors
  import opened KvModel
  import KvInvariant
  import opened KvLayout
  import opened KvImage

  const FAILED_ADDR: u32 := 0xFFFF_FFFF

  /** A node as read into memory. */
  datatype Kv = Kv(
    status: KvStatus,
    crcOk: bool,
    nameLen: nat,
    len: u32,
    valueLen: u32,
    name: seq<byte>,
    addrStart: u32,
    addrValue: u32)

  function BlankKv(): (kv: Kv)
    ensures |kv.name| == KV_NAME_MAX && kv.addrStart == FAILED_ADDR
  {
    Kv(KvStatus.Unused, false, 0, 0, 0, seq(KV_NAME_MAX, _ => 0), FAILED_ADDR, FAILED_ADDR)
  }

  /** `kv` is what reading `node` at address `a` gives. */
  predicate KvIs(kv: Kv, node: Node, a: nat) {
    && kv.addrStart == a
    && |kv.name| == KV_NAME_MAX
    && kv.len == Says(node)
    && kv.crcOk == Intact(node)
    && (node.Blank? ==> kv.status == ErrHdr)
    && (node.Clipped? ==> kv.status == Write)
    && (node.Node? ==> kv.status == node.st)
    && (Intact(node) ==>
          && kv.nameLen == node.nameLen
          && kv.valueLen == |node.data| - node.nameLen
          && kv.addrValue == a + KV_HDR + node.nameLen
          && kv.name[..node.nameLen] == Name(node))
  }

  lemma StateOfCode(i: nat)
    requires i < KV_STATUS_NUM
    ensures State(Code(i), KV_STATUS_NUM) == i
  {
    CodeIsTable(KV_STATUS_NUM, i);
  }

  lemma StatusRoundTrip(st: KvStatus)
    ensures StFromIndex(State(Code(StIndex(st)), KV_STATUS_NUM)) == st
  {
    StateOfCode(StIndex(st));
  }

  lemma HeadRoundTrip(store: StoreStatus, dirty: DirtyStatus)
    ensures StoreFromIndex(State(Code(StoreIndex(store)), STORE_STATUS_NUM)) == store
    ensures DirtyFromIndex(State(Code(DirtyIndex(dirty)), DIRTY_STATUS_NUM)) == dirty
  {
    CodeIsTable(STORE_STATUS_NUM, StoreIndex(store));
    CodeIsTable(DIRTY_STATUS_NUM, DirtyIndex(dirty));
  }

  lemma CrcHeadParts(nameLen: nat, valueLen: u32)
    requires nameLen < 256
    ensures var c := CrcHead(nameLen, valueLen);
      |c| == 8 && c[0] == Byte(nameLen) && c[4..8] == Word(valueLen)
  {
    hide Word, Byte;
    var c := CrcHead(nameLen, valueLen);
    assert c[4..8] == Word(valueLen);
  }

  /** What the header bytes `h` of a node read as. */
  predicate HeaderIs(h: seq<byte>, node: Node) {
    && |h| == 24
    && (node.Blank? ==> RdWord(h[8..12]) == 0xFFFF_FFFF)
    && (node.Node? ==>
        && Sized(node)
        && |node.data| < 0xFFFF_FFE8
        && StFromIndex(State(h[0], KV_STATUS_NUM)) == node.st
        && RdWord(h[8..12]) == node.Len()
        && RdWord(h[12..16]) == node.crc
        && h[16..20] + h[20..24] == CrcHead(node.nameLen, |node.data| - node.nameLen)
        && ByteValue(h[16]) == node.nameLen
        && RdWord(h[20..24]) == |node.data| - node.nameLen)
  }

  lemma HeaderOfNode(s: seq<byte>, o: nat, node: Node)
    requires NodeAt(s, o, node) && node.Node?
    ensures HeaderIs(s[o..o + 24], node)
  {
    hide NodeCrc, Word, RdWord, CrcHead, Code, Byte, ByteValue, Decode, State;
    var c := CrcHead(node.nameLen, |node.data| - node.nameLen);
    CrcHeadParts(node.nameLen, |node.data| - node.nameLen);
    Sub(s, o, o + 24, 8, 12);
    Sub(s, o, o + 24, 12, 16);
    Sub(s, o, o + 24, 16, 20);
    Sub(s, o, o + 24, 20, 24);
    Sub(s, o + 16, o + 24, 0, 4);
    Sub(s, o + 16, o + 24, 4, 8);
    WordRoundTrip(24 + |node.data|);
    WordRoundTrip(node.crc);
    WordRoundTrip(|node.data| - node.nameLen);
    ByteAsInt(node.nameLen);
    StatusRoundTrip(node.st);
    assert c == c[0..4] + c[4..8];
    assert s[o + 16] == s[o + 16..o + 24][0];
  }

  lemma HeaderOfBlank(s: seq<byte>, o: nat)
    requires NodeAt(s, o, Blank)
    ensures HeaderIs(s[o..o + 24], Blank)
  {
    hide Word, RdWord, Code;
    MagicBytes();
    Sub(s, o, o + 24, 8, 12);
    assert s[o + 8..o + 12] == [0xFF, 0xFF, 0xFF, 0xFF];
    WordRoundTrip(NOT_COMBINED);
  }

  lemma HeaderReads(s: seq<byte>, o: nat, node: Node)
    requires NodeAt(s, o, node) && !node.Stray? && !node.Clipped?
    ensures o + 24 <= |s| && HeaderIs(s[o..o + 24], node)
  {
    hide HeaderIs, NodeAt;
    NodeBound(s, o, node);
    if node.Blank? {
      HeaderOfBlank(s, o);
    } else {
      HeaderOfNode(s, o, node);
    }
  }

  lemma NodesHealed(s: seq<byte>, t: seq<byte>, nodes: seq<Node>)
    requires NodesAt(s, nodes) && |nodes| > 0 && nodes[0].Blank? && SECTOR_HDR < |s|
    requires t == Overwrite(s, SECTOR_HDR, [Code(5)])
    ensures NodesAt(t, nodes)
  {
    hide NodeAt, Code, Off;
    OffZero(nodes);
    forall x | 0 <= x < |nodes| ensures NodeAt(t, SECTOR_HDR + Off(nodes, x), nodes[x]) {
      NodeBound(s, SECTOR_HDR + Off(nodes, x), nodes[x]);
      if x > 0 {
        NodesApart(nodes, 0, x);
        NodeFrame(s, t, SECTOR_HDR + Off(nodes, x), nodes[x]);
      } else {
        BlankHealed(s, SECTOR_HDR);
      }
    }
  }

  lemma OffZero(nodes: seq<Node>)
    ensures Off(nodes, 0) == 0
  {}

  /** Marking a blank node erroneous leaves the sector what it was. */
  lemma HealBlank(s: seq<byte>, sec: Sector)
    requires SectorAt(s, sec) && sec.Sector? && |sec.nodes| > 0 && sec.nodes[0].Blank?
    ensures SECTOR_HDR < |s| && SectorAt(Overwrite(s, SECTOR_HDR, [Code(5)]), sec)
    ensures s[SECTOR_HDR] & Code(5) == Code(5)
  {
    hide HeadAt, NodesAt, Code, Off;
    var nodes := sec.nodes;
    OffZero(nodes);
    KvInvariant.OffMonotone(nodes, 0, |nodes|);
    FirstNode(s, nodes);
    BlankByte(s, SECTOR_HDR);
    var t := Overwrite(s, SECTOR_HDR, [Code(5)]);
    HeadFrame(s, t, sec.store, sec.dirty);
    NodesHealed(s, t, nodes);
  }

  lemma FirstNode(s: seq<byte>, nodes: seq<Node>)
    requires NodesAt(s, nodes) && |nodes| > 0
    ensures NodeAt(s, SECTOR_HDR, nodes[0])
  {
    hide NodeAt, Off;
    OffZero(nodes);
    assert NodeAt(s, SECTOR_HDR + Off(nodes, 0), nodes[0]);
  }

  lemma BlankByte(s: seq<byte>, o: nat)
    requires NodeAt(s, o, Blank)
    ensures s[o] & Code(5) == Code(5)
  {
    CodesNest(0, 5);
    CodesNest(1, 5);
    CodesNest(5, 5);
    hide Code;
  }

  lemma BlankHealed(s: seq<byte>, o: nat)
    requires NodeAt(s, o, Blank)
    ensures NodeAt(Overwrite(s, o, [Code(5)]), o, Blank)
  {
    hide Code;
  }

  /** The data read in chunks after the covered header bytes give the node's checksum. */
  lemma ChecksumOf(node: Node, h: seq<byte>, data: seq<byte>)
    requires HeaderIs(h, node) && node.Node? && data == node.data
    ensures Crc(Crc(Crc(0, h[16..20]), h[20..24]), data) as int == NodeCrc(node.nameLen, node.data)
  {
    hide Crc, CrcHead;
    Streams(0, h[16..20], h[20..24]);
    Streams(0, h[16..20] + h[20..24], data);
  }

  lemma HeaderTop(h: seq<byte>, node: Node)
    requires HeaderIs(h, node)
    ensures |h| == 24
    ensures node.Blank? ==> RdWord(h[8..12]) == 0xFFFF_FFFF
    ensures node.Node? ==>
      RdWord(h[8..12]) == node.Len() && StFromIndex(Decode([h[0]], KV_STATUS_NUM - 1)) == node.st
  {
    hide RdWord, ByteValue, CrcHead, Decode;
  }

  lemma HeaderParts(h: seq<byte>, node: Node)
    requires HeaderIs(h, node) && node.Node?
    ensures |h| == 24 && Sized(node) && |node.data| < 0xFFFF_FFE8
    ensures RdWord(h[12..16]) == node.crc
    ensures ByteValue(h[16]) == node.nameLen
    ensures RdWord(h[20..24]) == |node.data| - node.nameLen
  {
    hide RdWord, ByteValue, CrcHead, State;
  }

  lemma KvIsRead(kv: Kv, node: Node, a: nat)
    requires KvIs(kv, node, a)
    ensures kv.crcOk == Intact(node) && kv.len == Says(node)
  {
    hide NodeCrc, ReadName;
  }

  /** A programmed node lies behind a clipped one. */
  predicate Followed(nodes: seq<Node>, j: nat)
    requires j < |nodes|
  {
    nodes[j].Clipped? ==>
      j + 1 < |nodes| && !nodes[j + 1].Blank? && (nodes[j + 1].Node? ==> nodes[j + 1].st != KvStatus.Unused)
  }

  lemma FirstByte(s: seq<byte>, o: nat, node: Node)
    requires NodeAt(s, o, node) && !node.Blank? && (node.Node? ==> node.st != KvStatus.Unused)
    ensures s[o] != BYTE_ERASED
  {
    hide Word, CrcHead, NodeCrc;
  }

  lemma IntactSays(node: Node)
    ensures Intact(node) ==> Says(node) == node.Len()
  {}

  /** What the engine takes a node for: a clipped one for a node with a wrong checksum. */
  predicate ReadsAs(read: Node, node: Node) {
    if node.Clipped? then read.Node? && read.st == Write && !Intact(read) && read.Len() == Says(node) else read == node
  }

  lemma NodeReads(s: seq<byte>, nodes: seq<Node>, j: nat) returns (read: Node)
    requires NodesAt(s, nodes) && j < |nodes| && !nodes[j].Stray? && Followed(nodes, j)
    ensures NodeAt(s, SECTOR_HDR + Off(nodes, j), read) && ReadsAs(read, nodes[j]) && !read.Stray? && !read.Clipped?
  {
    hide NodeAt, ReadsAs, Intact, Off;
    var o := SECTOR_HDR + Off(nodes, j);
    assert NodeAt(s, o, nodes[j]);
    if nodes[j].Clipped? {
      assert NodeAt(s, SECTOR_HDR + Off(nodes, j + 1), nodes[j + 1]);
      OffNext(nodes, j);
      read := RuinReads(s, o, nodes[j], nodes[j + 1]);
    } else {
      read := nodes[j];
      ReadsAsSelf(read);
    }
  }

  lemma ReadsAsSelf(node: Node)
    requires !node.Clipped?
    ensures ReadsAs(node, node)
  {}

  lemma RuinReads(s: seq<byte>, o: nat, node: Node, next: Node) returns (read: Node)
    requires NodeAt(s, o, node) && node.Clipped? && NodeAt(s, o + node.Len(), next)
    requires !next.Blank? && (next.Node? ==> next.st != KvStatus.Unused)
    ensures NodeAt(s, o, read) && ReadsAs(read, node) && read.Node?
  {
    hide NodeAt, Intact, NodeCrc;
    NodeBound(s, o + node.Len(), next);
    FirstByte(s, o + node.Len(), next);
    RuinAt(s, o, node);
    ClippedEnds(s, o, node);
    RuinBroken(node, s[o + node.Len()]);
    read := Ruin(node, s[o + node.Len()]);
  }

  lemma ClippedEnds(s: seq<byte>, o: nat, node: Node)
    requires NodeAt(s, o, node) && node.Clipped?
    ensures node.data != [] && node.data[|node.data| - 1] == BYTE_ERASED && Intact(Unclipped(node))
  {
    hide NodeCrc;
  }

  lemma KvReadsAs(kv: Kv, read: Node, node: Node, a: nat)
    requires KvIs(kv, read, a) && ReadsAs(read, node)
    ensures KvIs(kv, node, a)
  {
    hide NodeCrc, ReadName;
  }

  lemma KvIsBlank(kv: Kv, a: nat)
    requires kv.addrStart == a && |kv.name| == KV_NAME_MAX && kv.len == KV_HDR && !kv.crcOk && kv.status == ErrHdr
    ensures KvIs(kv, Blank, a)
  {}

  lemma KvIsBad(kv: Kv, node: Node, a: nat)
    requires kv.addrStart == a && |kv.name| == KV_NAME_MAX && kv.len == node.Len() && !kv.crcOk
    requires node.Node? && kv.status == node.st && !Intact(node)
    ensures KvIs(kv, node, a)
  {
    hide NodeCrc;
  }

  lemma KvIsGood(kv: Kv, node: Node, a: nat)
    requires kv.addrStart == a && |kv.name| == KV_NAME_MAX && kv.len == node.Len() && kv.crcOk
    requires Intact(node) && kv.status == node.st
    requires kv.nameLen == node.nameLen && kv.valueLen == |node.data| - node.nameLen && kv.addrValue == a + KV_HDR + node.nameLen
    requires kv.name[..node.nameLen] == Name(node)
    ensures KvIs(kv, node, a)
  {
    hide NodeCrc, ReadName;
  }

  /** The name as `read_kv` leaves it in its buffer: a terminator behind it or over its last byte. */
  lemma NameReads(node: Node, name: seq<byte>, rest: seq<byte>)
    requires Intact(node) && |name| == node.nameLen && |name + rest| == KV_NAME_MAX
    requires name == node.data[..node.nameLen]
    ensures (name + rest)[(if node.nameLen >= KV_NAME_MAX then KV_NAME_MAX - 1 else node.nameLen) := 0][..node.nameLen] == Name(node)
  {
    hide NodeCrc;
  }

  /** The data of a node as bytes of the image. */
  predicate DataAt(mem: seq<byte>, a: nat, node: Node)
    requires node.Node?
  {
    a + |node.data| <= |mem| && a + |node.data| < 0x1_0000_0000 && mem[a..a + |node.data|] == node.data
  }

  lemma EmptyCrc(crc: bv32)
    ensures Crc(crc, []) == crc
  {
    XorTwice(crc, 0xFFFF_FFFF);
  }

  /** Where the data of a node reads from. */
  lemma DataReads(mem: seq<byte>, i: nat, size: nat, o: nat, node: Node)
    requires Base(i, size) + size <= |mem| && Base(i, size) + size < 0x1_0000_0000
    requires NodeAt(Part(mem, i, size), o, node) && node.Node?
    ensures DataAt(mem, Base(i, size) + o + 24, node)
  {
    hide Base, Word, Code, NodeCrc, CrcHead;
    PartRead(mem, i, size, o + 24, |node.data|);
  }

  // ------------------------------------------------------------ the scan for magic words

  /** Where the scan of `find_next_kv_addr` from `start` stops looking: its windows advance by 28 bytes as
      long as 32 bytes fit before `end`. */
  function Reach(start: nat, end: nat): (r: nat)
    ensures start <= r && end <= r + 32
    decreases if start < end then end - start else 0
  {
    if start + 32 < end then Reach(start + 28, end) else start
  }

  lemma {:induction false} ReachAhead(start: nat, end: nat)
    requires start + 32 < end
    ensures start + 28 <= Reach(start, end) == Reach(start + 28, end)
  {}

  /** A window shows the magic word where the image has it. */
  lemma MagicReads(mem: seq<byte>, start: nat, buf: seq<byte>, i: nat)
    requires start + 32 <= |mem| && buf == mem[start..start + 32] && i < 28
    ensures RdWord(buf[i..i + 4]) == KV_MAGIC <==> MagicAt(mem, start + i)
  {
    hide Word, RdWord;
    Sub(mem, start, start + 32, i, i + 4);
    WordRoundTrip(KV_MAGIC);
    RdWordRoundTrip(buf[i..i + 4]);
  }
}
