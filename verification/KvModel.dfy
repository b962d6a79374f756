/** The key-value log above the bytes: sectors as sequences of nodes, and every operation of the
    engine as a function on them.

    The functions follow the engine branch by branch; each write or erase of the engine is one
    `Put`, which also appends the new flash contents to `log`. The log of an operation therefore
    lists every state in which a power cut can leave the medium. */
module KvModel {
  import opened Bytes
  import opened Sectors
  import opened Wrappers
  import opened Crc32

  const SECTOR_HDR: nat := 16
  const KV_HDR: nat := 24
  const KV_NAME_MAX: nat := 64
  /** `SEC_REMAIN_THRESHOLD`: a node header and the longest name. */
  const THRESHOLD: nat := 88

  datatype KvStatus = Unused | PreWrite | Write | PreDelete | Deleted | ErrHdr
  datatype DirtyStatus = Unused | False | True | Gc

  /** A node of the log. `Node` has its header and `data`, which is the name followed by the value as
      far as they have been programmed. The other two are what is left of a node whose header was never
      programmed: at the start of a sector the walk takes it for an erroneous node of header size, a
      `Blank`; elsewhere the walk does not see it at all, and it is the single byte of its status, a
      `Stray`. `Clipped` is what is left of a live node with this data when the next node has been
      written over its last byte. */
  datatype Node =
    | Blank
    | Stray
    | Node(st: KvStatus, nameLen: nat, crc: u32, data: seq<byte>)
    | Clipped(nameLen: nat, crc: u32, data: seq<byte>)
  {
    function Len(): nat {
      if Blank? then KV_HDR else if Stray? then 1 else if Node? then KV_HDR + |data| else KV_HDR + |data| - 1
    }
  }

  /** The length in the header of the node. */
  function Says(node: Node): nat {
    if node.Clipped? then KV_HDR + |node.data| else node.Len()
  }

  /** The node as it was when it was written. */
  function Unclipped(node: Node): Node {
    if node.Clipped? then Node(Write, node.nameLen, node.crc, node.data) else node
  }

  /** `Raw` is a sector without a header: erased and not yet formatted. */
  datatype Sector =
    | Raw
    | Sector(store: StoreStatus, dirty: DirtyStatus, nodes: seq<Node>)

  datatype Db = Db(
    secSize: nat,
    flash: seq<Sector>,
    oldest: nat,
    gcRequest: bool,
    recovering: bool,
    log: seq<seq<Sector>>)

  type Entry = (seq<byte>, seq<byte>)

  // ------------------------------------------------------------ nodes

  /** The header bytes that the checksum covers. */
  function CrcHead(nameLen: nat, valueLen: u32): seq<byte>
    requires nameLen < 256
  {
    [Byte(nameLen), 0xFF, 0xFF, 0xFF] + Word(valueLen)
  }

  function NodeCrc(nameLen: nat, data: seq<byte>): u32
    requires nameLen <= |data| < 0x1_0000_0000 && nameLen < 256
  {
    Crc(0, CrcHead(nameLen, |data| - nameLen) + data) as int
  }

  predicate Sized(node: Node) {
    node.Node? ==> node.nameLen <= KV_NAME_MAX && node.nameLen <= |node.data| < 0x1_0000_0000
  }

  /** The stored checksum is the checksum of what is stored. */
  predicate Intact(node: Node) {
    node.Node? && Sized(node) && node.crc == NodeCrc(node.nameLen, node.data)
  }

  /** The name as the engine reads it back: a terminator overwrites byte 63. */
  function ReadName(name: seq<byte>): (r: seq<byte>)
    requires |name| <= KV_NAME_MAX
    ensures |r| == |name|
  {
    if |name| == KV_NAME_MAX then name[KV_NAME_MAX - 1 := 0] else name
  }

  function Name(node: Node): seq<byte>
    requires Intact(node)
  {
    ReadName(node.data[..node.nameLen])
  }

  function Value(node: Node): seq<byte>
    requires Intact(node)
  {
    node.data[node.nameLen..]
  }

  predicate Live(node: Node) {
    Intact(node) && node.st == Write
  }

  /** Holds data that recovery can still reach. */
  predicate Carrier(node: Node) {
    Intact(node) && (node.st == Write || node.st == PreDelete)
  }

  function NewNode(st: KvStatus, key: seq<byte>, value: seq<byte>): (node: Node)
    requires |key| <= KV_NAME_MAX && |key| + |value| < 0x1_0000_0000
    ensures Intact(node)
  {
    Node(st, |key|, NodeCrc(|key|, key + value), key + value)
  }

  /** A node being written, with its header and the first `h` bytes of its data in place. */
  function Partial(node: Node, h: nat): Node
    requires node.Node? && h <= |node.data|
  {
    node.(st := PreWrite, data := node.data[..h] + Fill(|node.data| - h))
  }

  /** Bytes taken by the first `j` nodes. */
  function Off(nodes: seq<Node>, j: nat): nat
    requires j <= |nodes|
  {
    if j == 0 then 0 else Off(nodes, j - 1) + nodes[j - 1].Len()
  }

  function Used(nodes: seq<Node>): nat {
    Off(nodes, |nodes|)
  }

  predicate NoStraySector(sec: Sector) {
    sec.Sector? ==> forall y :: 0 <= y < |sec.nodes| ==> !sec.nodes[y].Stray? && !sec.nodes[y].Clipped?
  }

  /** No node was cut off right after its first write, and none has been clipped. */
  predicate NoStray(flash: seq<Sector>) {
    forall x :: 0 <= x < |flash| ==> NoStraySector(flash[x])
  }

  // ------------------------------------------------------------ the sector ring

  predicate HasStore(sec: Sector, st: StoreStatus) {
    sec.Sector? && sec.store == st
  }

  /** How many of the sectors from `lo` up to `hi` are in store state `st`. */
  function CountStore(flash: seq<Sector>, st: StoreStatus, lo: nat, hi: nat): nat
    requires lo <= hi <= |flash|
    decreases hi - lo
  {
    if lo == hi then 0 else (if HasStore(flash[hi - 1], st) then 1 else 0) + CountStore(flash, st, lo, hi - 1)
  }

  function Count(flash: seq<Sector>, st: StoreStatus): nat {
    CountStore(flash, st, 0, |flash|)
  }

  // ------------------------------------------------------------ single writes

  predicate At(db: Db, i: nat, j: nat) {
    i < |db.flash| && db.flash[i].Sector? && j < |db.flash[i].nodes|
  }

  predicate Formatted(db: Db, i: nat) {
    i < |db.flash| && db.flash[i].Sector?
  }

  /** Equal except perhaps in status. */
  predicate SameNode(a: Node, b: Node) {
    a == b || (a.Node? && b.Node? && a == b.(st := a.st))
  }

  /** Sectors may gain nodes and nodes may change status, nothing else. */
  predicate Extends(f: seq<Sector>, g: seq<Sector>) {
    |f| == |g| && forall i :: 0 <= i < |f| ==> ExtendsSector(f[i], g[i])
  }

  predicate ExtendsSector(f: Sector, g: Sector) {
    f.Sector? ==>
      && g.Sector?
      && |f.nodes| <= |g.nodes|
      && forall j :: 0 <= j < |f.nodes| ==> SameNode(g.nodes[j], f.nodes[j])
  }

  lemma ExtendsSelf(f: seq<Sector>)
    ensures Extends(f, f)
  {}

  lemma ExtendsTransitive(f: seq<Sector>, g: seq<Sector>, h: seq<Sector>)
    requires Extends(f, g) && Extends(g, h)
    ensures Extends(f, h)
  {
    forall i | 0 <= i < |f| ensures ExtendsSector(f[i], h[i]) {
      assert ExtendsSector(f[i], g[i]) && ExtendsSector(g[i], h[i]);
    }
  }

  lemma AtExtends(db: Db, d: Db, i: nat, j: nat)
    requires At(db, i, j) && Extends(db.flash, d.flash)
    ensures At(d, i, j) && SameNode(d.flash[i].nodes[j], db.flash[i].nodes[j])
  {
    assert ExtendsSector(db.flash[i], d.flash[i]);
  }

  function Put(db: Db, i: nat, sec: Sector): Db
    requires i < |db.flash|
  {
    var flash := db.flash[i := sec];
    db.(flash := flash, log := db.log + [flash])
  }

  /** Sector `i` goes through the contents `steps`, one write or erase each. */
  function Rewrite(db: Db, i: nat, steps: seq<Sector>): (r: Db)
    requires i < |db.flash|
    ensures r == db.(flash := r.flash, log := r.log)
    ensures r.flash == if steps == [] then db.flash else db.flash[i := steps[|steps| - 1]]
    ensures |r.log| == |db.log| + |steps|
    ensures forall x :: 0 <= x < |db.log| ==> r.log[x] == db.log[x]
    ensures forall x :: 0 <= x < |steps| ==> r.log[|db.log| + x] == db.flash[i := steps[x]]
    decreases |steps|
  {
    if steps == [] then db else Put(Rewrite(db, i, steps[..|steps| - 1]), i, steps[|steps| - 1])
  }

  lemma RewriteSnoc(db: Db, i: nat, steps: seq<Sector>, sec: Sector)
    requires i < |db.flash|
    ensures Rewrite(db, i, steps + [sec]) == Put(Rewrite(db, i, steps), i, sec)
  {
    assert (steps + [sec])[..|steps|] == steps;
  }

  lemma RewriteNone(db: Db, i: nat)
    requires i < |db.flash|
    ensures Rewrite(db, i, []) == db
  {}

  lemma RewriteOne(db: Db, i: nat, sec: Sector)
    requires i < |db.flash|
    ensures Rewrite(db, i, [sec]) == Put(db, i, sec)
  {}

  lemma RewriteTwo(db: Db, i: nat, a: Sector, b: Sector)
    requires i < |db.flash|
    ensures Rewrite(db, i, [a, b]) == Put(Put(db, i, a), i, b)
  {
    RewriteSnoc(db, i, [a], b);
    assert [a] + [b] == [a, b];
  }

  /** `format_sector`: erase, then program the header. */
  function Format(db: Db, i: nat): Db
    requires i < |db.flash|
  {
    Rewrite(db, i, [Raw, Sector(Empty, False, [])])
  }

  // ------------------------------------------------------------ allocation

  /** The free bytes `read_sector_info` reports. */
  function Remain(db: Db, i: nat): int
    requires i < |db.flash|
  {
    var sec := db.flash[i];
    if HasStore(sec, Empty) then db.secSize - SECTOR_HDR
    else if HasStore(sec, Using) then db.secSize - SECTOR_HDR - Used(sec.nodes)
    else 0
  }

  predicate HasRoom(db: Db, want: StoreStatus, size: nat, i: nat)
    requires i < |db.flash|
  {
    var sec := db.flash[i];
    && HasStore(sec, want)
    && Remain(db, i) > size + THRESHOLD
    && (sec.dirty == False || (sec.dirty == True && !db.gcRequest))
  }

  /** `alloc_scan` from the `k`-th sector of the ring on. */
  function AllocScan(db: Db, want: StoreStatus, size: nat, k: nat): (r: Option<nat>)
    requires db.oldest < |db.flash| && k <= |db.flash|
    ensures r.Some? ==> r.value < |db.flash| && HasRoom(db, want, size, r.value)
    decreases |db.flash| - k
  {
    if k == |db.flash| then None
    else
      var i := RingPos(db.oldest, k, |db.flash|);
      if HasRoom(db, want, size, i) then Some(i) else AllocScan(db, want, size, k + 1)
  }

  datatype Alloc = Alloc(db: Db, sec: Option<nat>)

  function AllocKv(db: Db, size: nat): (r: Alloc)
    requires db.oldest < |db.flash|
    ensures r.db == db.(gcRequest := r.db.gcRequest)
    ensures r.sec.Some? ==> r.sec.value < |db.flash| && r.db == db
    ensures r.sec.Some? ==> HasRoom(db, Using, size, r.sec.value) || HasRoom(db, Empty, size, r.sec.value)
  {
    var empty := Count(db.flash, Empty);
    var fromUsing := if Count(db.flash, Using) > 0 then AllocScan(db, Using, size, 0) else None;
    if fromUsing.None? && empty > 0 then
      if empty > 1 || db.gcRequest then Alloc(db, AllocScan(db, Empty, size, 0))
      else Alloc(db.(gcRequest := true), None)
    else
      Alloc(db, fromUsing)
  }

  // ------------------------------------------------------------ lookup

  predicate Matches(node: Node, key: seq<byte>) {
    Live(node) && node.nameLen == |key| && Name(node) == key
  }

  /** The first match among the nodes from `j` on. */
  function FindNode(nodes: seq<Node>, key: seq<byte>, j: nat): (r: Option<nat>)
    requires j <= |nodes|
    ensures r.Some? ==> j <= r.value < |nodes| && Matches(nodes[r.value], key)
    ensures r.None? ==> forall x :: j <= x < |nodes| ==> !Matches(nodes[x], key)
    decreases |nodes| - j
  {
    if j == |nodes| then None else if Matches(nodes[j], key) then Some(j) else FindNode(nodes, key, j + 1)
  }

  predicate Searched(sec: Sector) {
    HasStore(sec, Using) || HasStore(sec, Full)
  }

  datatype Loc = Loc(sec: nat, node: nat)

  /** `find_kv_no_cache` from the `k`-th sector of the ring on. */
  function FindFrom(flash: seq<Sector>, oldest: nat, key: seq<byte>, k: nat): (r: Option<Loc>)
    requires oldest < |flash| && k <= |flash|
    ensures r.Some? ==>
              && r.value.sec < |flash| && Searched(flash[r.value.sec])
              && r.value.node < |flash[r.value.sec].nodes|
              && Matches(flash[r.value.sec].nodes[r.value.node], key)
    decreases |flash| - k
  {
    if k == |flash| then None
    else
      var i := RingPos(oldest, k, |flash|);
      var hit := if Searched(flash[i]) then FindNode(flash[i].nodes, key, 0) else None;
      if hit.Some? then Some(Loc(i, hit.value)) else FindFrom(flash, oldest, key, k + 1)
  }

  function Find(db: Db, key: seq<byte>): Option<Loc>
    requires db.oldest < |db.flash|
  {
    FindFrom(db.flash, db.oldest, key, 0)
  }

  // ------------------------------------------------------------ writing nodes

  /** Whether `update_sec_status` finds the sector full. */
  predicate FillsUp(db: Db, i: nat, size: nat)
    requires Formatted(db, i)
  {
    db.flash[i].store == Using && (Remain(db, i) < THRESHOLD || Remain(db, i) - size < THRESHOLD)
  }

  /** The store state `update_sec_status` leaves. */
  function Opened(db: Db, i: nat, size: nat): StoreStatus
    requires Formatted(db, i)
  {
    if db.flash[i].store == Empty then Using else if FillsUp(db, i, size) then Full else db.flash[i].store
  }

  function OpenedSector(db: Db, i: nat, size: nat): Sector
    requires Formatted(db, i)
  {
    db.flash[i].(store := Opened(db, i, size))
  }

  /** `update_sec_status` */
  function OpenSteps(db: Db, i: nat, size: nat): seq<Sector>
    requires Formatted(db, i)
  {
    if db.flash[i].store == Empty || FillsUp(db, i, size) then [OpenedSector(db, i, size)] else []
  }

  lemma OpenCases(db: Db, i: nat, size: nat)
    requires Formatted(db, i)
    ensures FillsUp(db, i, size) <==>
      db.flash[i].store == Using && (Remain(db, i) < THRESHOLD || Remain(db, i) - size < THRESHOLD)
    ensures OpenedSector(db, i, size) == db.flash[i].(store := Opened(db, i, size))
    ensures db.flash[i].store == Empty ==> Opened(db, i, size) == Using
    ensures FillsUp(db, i, size) ==> Opened(db, i, size) == Full
    ensures OpenSteps(db, i, size)
         == if db.flash[i].store == Empty || FillsUp(db, i, size) then [OpenedSector(db, i, size)] else []
  {
    hide Remain;
  }

  /** The sector with one more node. */
  function Hold(sec: Sector, node: Node): Sector
    requires sec.Sector?
  {
    sec.(nodes := sec.nodes + [node])
  }

  function HoldAll(sec: Sector, stages: seq<Node>): seq<Sector>
    requires sec.Sector?
  {
    seq(|stages|, x requires 0 <= x < |stages| => Hold(sec, stages[x]))
  }

  /** A node of `size` bytes is written to sector `i`, passing through `stages`. */
  function WriteNode(db: Db, i: nat, size: nat, stages: seq<Node>): (r: Db)
    requires Formatted(db, i)
    ensures Extends(db.flash, r.flash)
    ensures r == db.(flash := r.flash, log := r.log)
  {
    Rewrite(db, i, OpenSteps(db, i, size) + HoldAll(OpenedSector(db, i, size), stages))
  }

  lemma OpenedNodes(db: Db, i: nat, size: nat)
    requires Formatted(db, i)
    ensures OpenedSector(db, i, size).Sector? && OpenedSector(db, i, size).nodes == db.flash[i].nodes
  {
    hide Opened;
  }

  lemma WriteNodeStart(db: Db, i: nat, size: nat)
    requires Formatted(db, i)
    ensures WriteNode(db, i, size, []) == Rewrite(db, i, OpenSteps(db, i, size))
    ensures WriteNode(db, i, size, []).flash == db.flash[i := OpenedSector(db, i, size)]
  {
    hide FillsUp;
    assert OpenSteps(db, i, size) + HoldAll(OpenedSector(db, i, size), []) == OpenSteps(db, i, size);
    assert OpenSteps(db, i, size) == [] ==> OpenedSector(db, i, size) == db.flash[i];
  }

  lemma WriteNodeSnoc(db: Db, i: nat, size: nat, stages: seq<Node>, p: Node)
    requires Formatted(db, i)
    ensures |WriteNode(db, i, size, stages).flash| == |db.flash|
    ensures WriteNode(db, i, size, stages + [p]) == Put(WriteNode(db, i, size, stages), i, Hold(OpenedSector(db, i, size), p))
  {
    hide OpenSteps, Opened;
    var sec := OpenedSector(db, i, size);
    assert HoldAll(sec, stages + [p]) == HoldAll(sec, stages) + [Hold(sec, p)];
    assert OpenSteps(db, i, size) + HoldAll(sec, stages + [p]) == (OpenSteps(db, i, size) + HoldAll(sec, stages)) + [Hold(sec, p)];
    RewriteSnoc(db, i, OpenSteps(db, i, size) + HoldAll(sec, stages), Hold(sec, p));
  }

  /** What a node of which only the status is programmed amounts to in the sector. */
  function Headless(sec: Sector): Node
    requires sec.Sector?
  {
    if sec.nodes == [] then Blank else Stray
  }

  /** `create_kv_blob`: status, header, name, value, status; empty parts make no write. */
  function CreateStages(sec: Sector, node: Node): seq<Node>
    requires sec.Sector? && node.Node? && node.nameLen <= |node.data|
  {
    [Headless(sec), Partial(node, 0)]
    + (if node.nameLen == 0 then [] else [Partial(node, node.nameLen)])
    + (if node.nameLen == |node.data| then [] else [Partial(node, |node.data|)])
    + [node.(st := Write)]
  }

  /** The copy loop of `move_kv_body`: chunks of 32 bytes, of which the first holds the header. */
  function ChunkStages(node: Node, len: nat): seq<Node>
    requires node.Node?
    requires len == 0 || 20 <= len
    decreases 20 + |node.data| - len
  {
    if len < 20 + |node.data| then
      var size := if 20 + |node.data| - len < 32 then 20 + |node.data| - len else 32;
      [Partial(node, len + size - 20)] + ChunkStages(node, len + size)
    else []
  }

  /** `move_kv_body` */
  function CopyStages(sec: Sector, node: Node): seq<Node>
    requires sec.Sector? && node.Node?
  {
    [Headless(sec)] + ChunkStages(node, 0) + [node.(st := Write)]
  }

  /** Write `node` to sector `i` the way `move_kv_body` does. */
  function CopyTo(db: Db, i: nat, node: Node): (r: Db)
    requires Formatted(db, i) && node.Node?
    ensures Extends(db.flash, r.flash)
    ensures r == db.(flash := r.flash, log := r.log)
  {
    WriteNode(db, i, node.Len(), CopyStages(db.flash[i], node))
  }

  /** Write `node` to sector `i` the way `create_kv_blob` does. */
  function CreateAt(db: Db, i: nat, node: Node): (r: Db)
    requires Formatted(db, i) && node.Node? && node.nameLen <= |node.data|
    ensures Extends(db.flash, r.flash)
    ensures r == db.(flash := r.flash, log := r.log)
  {
    WriteNode(db, i, node.Len(), CreateStages(db.flash[i], node))
  }

  lemma CreateAtIs(db: Db, i: nat, node: Node, stages: seq<Node>)
    requires Formatted(db, i) && node.Node? && node.nameLen <= |node.data| && node.st == Write
    requires stages == [Headless(OpenedSector(db, i, node.Len())), Partial(node, 0)]
                       + (if node.nameLen == 0 then [] else [Partial(node, node.nameLen)])
                       + (if node.nameLen == |node.data| then [] else [Partial(node, |node.data|)])
    ensures CreateAt(db, i, node) == WriteNode(db, i, node.Len(), stages + [node])
  {
    hide Partial, WriteNode, Opened;
    assert CreateStages(db.flash[i], node) == stages + [node];
  }

  /** `create_kv_blob` once a sector has been allocated and the arguments accepted. */
  function Create(db: Db, i: nat, key: seq<byte>, value: seq<byte>): Db
    requires Formatted(db, i) && |key| <= KV_NAME_MAX && |key| + |value| < 0x1_0000_0000
  {
    var node := NewNode(Write, key, value);
    var d := CreateAt(db, i, node);
    if FillsUp(db, i, node.Len()) then d.(gcRequest := true) else d
  }

  function MarkNode(sec: Sector, j: nat, st: KvStatus): Sector
    requires sec.Sector? && j < |sec.nodes| && sec.nodes[j].Node?
  {
    sec.(nodes := sec.nodes[j := sec.nodes[j].(st := st)])
  }

  /** `del_kv` at a known place: status first, then the sector's dirty flag. */
  function MarkSteps(sec: Sector, j: nat, st: KvStatus): seq<Sector>
    requires sec.Sector? && j < |sec.nodes| && sec.nodes[j].Node?
  {
    var marked := MarkNode(sec, j, st);
    if sec.dirty == False then [marked, marked.(dirty := True)] else [marked]
  }

  function MarkDel(db: Db, i: nat, j: nat, complete: bool): (r: Db)
    requires At(db, i, j) && db.flash[i].nodes[j].Node?
    ensures Extends(db.flash, r.flash)
    ensures r == db.(flash := r.flash, log := r.log)
  {
    Rewrite(db, i, MarkSteps(db.flash[i], j, if complete then Deleted else PreDelete))
  }

  function MarkedSector(sec: Sector, j: nat, st: KvStatus): Sector
    requires sec.Sector? && j < |sec.nodes| && sec.nodes[j].Node?
  {
    MarkNode(sec.(dirty := if sec.dirty == False then True else sec.dirty), j, st)
  }

  lemma MarkDelFlash(db: Db, i: nat, j: nat, complete: bool)
    requires At(db, i, j) && db.flash[i].nodes[j].Node?
    ensures MarkDel(db, i, j, complete).flash == db.flash[i := MarkedSector(db.flash[i], j, if complete then Deleted else PreDelete)]
  {
    var steps := MarkSteps(db.flash[i], j, if complete then Deleted else PreDelete);
    assert steps[|steps| - 1] == MarkedSector(db.flash[i], j, if complete then Deleted else PreDelete);
  }

  lemma CopyFlash(db: Db, t: nat, node: Node)
    requires Formatted(db, t) && node.Node?
    ensures CopyTo(db, t, node).flash
         == db.flash[t := Hold(OpenedSector(db, t, node.Len()), node.(st := Write))]
  {
    hide Opened, ChunkStages;
    var steps := OpenSteps(db, t, node.Len()) + HoldAll(OpenedSector(db, t, node.Len()), CopyStages(db.flash[t], node));
    assert steps[|steps| - 1] == Hold(OpenedSector(db, t, node.Len()), node.(st := Write));
  }

  datatype Moved = Moved(db: Db, ok: bool)

  /** `move_kv` */
  function MoveKv(db: Db, i: nat, j: nat): (r: Moved)
    requires db.oldest < |db.flash|
    requires At(db, i, j) && Intact(db.flash[i].nodes[j])
    ensures Extends(db.flash, r.db.flash)
    ensures r.db == db.(flash := r.db.flash, log := r.db.log, gcRequest := r.db.gcRequest)
  {
    hide Find, AllocKv, CopyTo, MarkDel, NodeCrc, Extends;
    var node := db.flash[i].nodes[j];
    ExtendsSelf(db.flash);
    var d1 := if node.st == Write then MarkDel(db, i, j, false) else db;
    AtExtends(db, d1, i, j);
    var a := AllocKv(d1, node.Len());
    if a.sec.None? then Moved(a.db, false)
    else if a.db.recovering && node.st == PreDelete && Find(a.db, Name(node)).Some? then
      var d2 := MarkDel(a.db, i, j, true);
      ExtendsTransitive(db.flash, d1.flash, d2.flash);
      Moved(d2, true)
    else
      var d2 := CopyTo(a.db, a.sec.value, node);
      AtExtends(a.db, d2, i, j);
      var d3 := MarkDel(d2, i, j, true);
      ExtendsTransitive(db.flash, d1.flash, d2.flash);
      ExtendsTransitive(db.flash, d2.flash, d3.flash);
      Moved(d3, true)
  }

  // ------------------------------------------------------------ garbage collection

  /** The node loop of `do_gc_one`: move every carrier among the first `n` nodes, from node `j` on. */
  function GcNodes(db: Db, i: nat, j: nat, n: nat): (r: Db)
    requires db.oldest < |db.flash|
    requires Formatted(db, i) && j <= n <= |db.flash[i].nodes|
    ensures Extends(db.flash, r.flash)
    ensures r == db.(flash := r.flash, log := r.log, gcRequest := r.gcRequest)
    decreases n - j
  {
    hide MoveKv, Extends;
    ExtendsSelf(db.flash);
    if j == n then db
    else if Carrier(db.flash[i].nodes[j]) then
      var d := MoveKv(db, i, j).db;
      FormattedExtends(db, d, i);
      var r := GcNodes(d, i, j + 1, n);
      ExtendsTransitive(db.flash, d.flash, r.flash);
      r
    else GcNodes(db, i, j + 1, n)
  }

  datatype GcStep = GcStep(db: Db, stop: bool, last: nat)

  /** `do_gc_one` */
  function GcSector(db: Db, i: nat, freeSize: nat, last: nat): (r: GcStep)
    requires db.oldest < |db.flash| && i < |db.flash| && last < |db.flash|
    ensures |r.db.flash| == |db.flash| && r.db.oldest < |db.flash| && r.last < |db.flash|
    ensures r.db.secSize == db.secSize && r.db.recovering == db.recovering
  {
    hide GcNodes, Extends;
    if db.flash[i].Sector? && (db.flash[i].dirty == True || db.flash[i].dirty == Gc) then
      var d1 := Rewrite(db, i, [db.flash[i].(dirty := Gc)]);
      var d2 := GcNodes(d1, i, 0, |d1.flash[i].nodes|);
      FormattedExtends(d1, d2, i);
      var d3 := Format(d2, i).(oldest := Next(i, |db.flash|));
      GcStep(d3, d3.flash[last].Sector? && Remain(d3, last) > freeSize, i)
    else GcStep(db, false, last)
  }

  /** The sector walk of `gc_collect_by_free_size`, from the `k`-th sector after `start` on. */
  function GcFrom(db: Db, start: nat, k: nat, freeSize: nat, last: nat): (r: Db)
    requires db.oldest < |db.flash| && start < |db.flash| && k <= |db.flash| && last < |db.flash|
    ensures |r.flash| == |db.flash| && r.oldest < |r.flash|
    ensures r.secSize == db.secSize && r.recovering == db.recovering
    decreases |db.flash| - k
  {
    hide GcSector;
    if k == |db.flash| then db
    else
      var s := GcSector(db, RingPos(start, k, |db.flash|), freeSize, last);
      if s.stop then s.db else GcFrom(s.db, start, k + 1, freeSize, s.last)
  }

  /** The last empty sector among the first `k` of the ring, sector 0 if there is none. */
  function LastEmpty(flash: seq<Sector>, oldest: nat, k: nat): (i: nat)
    requires oldest < |flash| && k <= |flash|
    ensures i < |flash|
  {
    if k == 0 then 0
    else if HasStore(flash[RingPos(oldest, k - 1, |flash|)], Empty) then RingPos(oldest, k - 1, |flash|)
    else LastEmpty(flash, oldest, k - 1)
  }

  /** `gc_collect_by_free_size` */
  function GcCollect(db: Db, freeSize: nat): (r: Db)
    requires db.oldest < |db.flash|
    ensures |r.flash| == |db.flash| && r.oldest < |r.flash| && !r.gcRequest
    ensures r.secSize == db.secSize && r.recovering == db.recovering
  {
    var d := if Count(db.flash, Empty) <= 1
             then GcFrom(db, db.oldest, 0, freeSize, LastEmpty(db.flash, db.oldest, |db.flash|))
             else db;
    d.(gcRequest := false)
  }

  // ------------------------------------------------------------ the public operations

  /** `new_kv`: allocate; when that asks for a collection, collect and try once more. */
  function NewKv(db: Db, size: nat): (r: Alloc)
    requires db.oldest < |db.flash|
    ensures |r.db.flash| == |db.flash| && r.db.oldest < |r.db.flash|
    ensures r.db.secSize == db.secSize && r.db.recovering == db.recovering
    ensures r.sec.Some? ==> r.sec.value < |r.db.flash|
    ensures r.sec.Some? ==> HasRoom(r.db, Using, size, r.sec.value) || HasRoom(r.db, Empty, size, r.sec.value)
  {
    hide HasRoom;
    var a := AllocKv(db, size);
    if a.sec.Some? || !a.db.gcRequest then a
    else
      var b := AllocKv(GcCollect(a.db, size), size);
      if b.sec.Some? then b else Alloc(b.db.(gcRequest := false), None)
  }

  datatype Ended = Ended(db: Db, outcome: Outcome)

  function NodeSize(key: seq<byte>, value: seq<byte>): nat {
    KV_HDR + |key| + |value|
  }

  /** `create_kv_blob` in the sector that was allocated. */
  function CreateChecked(db: Db, i: nat, key: seq<byte>, value: seq<byte>): (r: Ended)
    requires Formatted(db, i) && NodeSize(key, value) < 0x1_0000_0000
    ensures Extends(db.flash, r.db.flash)
    ensures r.db == db.(flash := r.db.flash, log := r.db.log, gcRequest := r.db.gcRequest)
  {
    ExtendsSelf(db.flash);
    if |key| > KV_NAME_MAX then Ended(db, Failed(KvNameErr))
    else if NodeSize(key, value) + SECTOR_HDR > db.secSize then Ended(db, Failed(SavedFull))
    else Ended(Create(db, i, key, value), Done)
  }

  lemma CreateCases(db: Db, i: nat, key: seq<byte>, value: seq<byte>)
    requires Formatted(db, i) && NodeSize(key, value) < 0x1_0000_0000
    ensures CreateChecked(db, i, key, value)
         == if |key| > KV_NAME_MAX then Ended(db, Failed(KvNameErr))
            else if NodeSize(key, value) + SECTOR_HDR > db.secSize then Ended(db, Failed(SavedFull))
            else
              var d := CreateAt(db, i, NewNode(Write, key, value));
              Ended(if FillsUp(db, i, NodeSize(key, value)) then d.(gcRequest := true) else d, Done)
  {
    hide CreateAt, FillsUp, NodeCrc;
  }

  /** The part of `set_kv` after allocation: the old copy is marked, the new one written, the old one deleted. */
  function Replace(db: Db, i: nat, key: seq<byte>, value: seq<byte>): (r: Ended)
    requires db.oldest < |db.flash| && Formatted(db, i) && NodeSize(key, value) < 0x1_0000_0000
    ensures Extends(db.flash, r.db.flash)
    ensures r.db == db.(flash := r.db.flash, log := r.db.log, gcRequest := r.db.gcRequest)
  {
    hide Extends, MarkDel, CreateChecked;
    var hit := Find(db, key);
    if hit.None? then CreateChecked(db, i, key, value)
    else
      var d1 := MarkDel(db, hit.value.sec, hit.value.node, false);
      FormattedExtends(db, d1, i);
      var c := CreateChecked(d1, i, key, value);
      ExtendsTransitive(db.flash, d1.flash, c.db.flash);
      if c.outcome == Done then
        AtExtends(db, c.db, hit.value.sec, hit.value.node);
        var d2 := MarkDel(c.db, hit.value.sec, hit.value.node, true);
        ExtendsTransitive(db.flash, c.db.flash, d2.flash);
        Ended(d2, Done)
      else c
  }

  /** `set_kv` */
  function SetKv(db: Db, key: seq<byte>, value: seq<byte>): (r: Ended)
    requires db.oldest < |db.flash| && NodeSize(key, value) < 0x1_0000_0000
    ensures |r.db.flash| == |db.flash| && r.db.oldest < |r.db.flash|
    ensures r.db.secSize == db.secSize && r.db.recovering == db.recovering
  {
    hide Extends, Replace, GcCollect, HasRoom;
    var a := NewKv(Begin(db), NodeSize(key, value));
    if a.sec.None? then Ended(a.db, Failed(SavedFull))
    else
      RoomIsFormatted(a.db, NodeSize(key, value), a.sec.value);
      var c := Replace(a.db, a.sec.value, key, value);
      ExtendsLength(a.db.flash, c.db.flash);
      if c.db.gcRequest then Ended(GcCollect(c.db, NodeSize(key, value)), c.outcome) else c
  }

  /** The log starts over with each public operation. */
  function Begin(db: Db): Db {
    db.(log := [db.flash])
  }

  /** `del` */
  function DelKv(db: Db, key: seq<byte>): Ended
    requires db.oldest < |db.flash|
  {
    var hit := Find(db, key);
    if hit.None? then Ended(Begin(db), Failed(KvNameErr))
    else Ended(MarkDel(Begin(db), hit.value.sec, hit.value.node, true), Done)
  }

  /** `get_vec` */
  function Get(db: Db, key: seq<byte>): Option<seq<byte>>
    requires db.oldest < |db.flash|
  {
    var hit := Find(db, key);
    if hit.None? then None else Some(Value(db.flash[hit.value.sec].nodes[hit.value.node]))
  }

  lemma RoomIsFormatted(db: Db, size: nat, i: nat)
    requires i < |db.flash| && (HasRoom(db, Using, size, i) || HasRoom(db, Empty, size, i))
    ensures Formatted(db, i)
  {}

  lemma ExtendsLength(f: seq<Sector>, g: seq<Sector>)
    requires Extends(f, g)
    ensures |f| == |g|
  {}

  lemma FormattedExtends(db: Db, d: Db, i: nat)
    requires Formatted(db, i) && Extends(db.flash, d.flash)
    ensures Formatted(d, i) && |db.flash| == |d.flash| && |db.flash[i].nodes| <= |d.flash[i].nodes|
  {
    assert ExtendsSector(db.flash[i], d.flash[i]);
  }
}
