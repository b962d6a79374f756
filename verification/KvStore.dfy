/** The key-value database over its storage. Every method is the engine's, with its loops and its
    branches, and states what it does to the log above the bytes. */
module KvStore {
  import opened Bytes
  import opened Wrappers
  import opened Status
  import opened Crc32
  import opened Storage
  import opened Flash
  import opened Sectors
  import opened KvModel
  import opened KvLoad
  import opened KvInvariant
  import opened KvLayout
  import opened KvImage
  import opened KvRead
  import opened KvScan
  import opened KvRecovery
  import opened KvStrays
  import opened KvClip
  import opened KvContents
  import opened KvGc
  import opened KvMap
  import opened KvReclaim
  import opened KvIterate
  import opened KvInfo
  import opened KvShows
  import opened KvAnswers

  /** The state of an iteration over all live nodes. */
  class KvIterator {
    var currKv: Kv
    var iteratedCnt: nat
    var iteratedObjBytes: nat
    var iteratedValueBytes: nat
    var sectorAddr: u32
    var traversedLen: u32
    /** The ring position reached, the next node there, and the places visited. */
    ghost var k: nat
    ghost var j: nat
    ghost var visited: seq<Loc>

    constructor (sectorAddr: u32)
      ensures currKv == BlankKv().(addrStart := 0) && this.sectorAddr == sectorAddr && traversedLen == 0
      ensures iteratedCnt == 0 && iteratedObjBytes == 0 && iteratedValueBytes == 0
      ensures k == 0 && j == 0 && visited == []
    {
      currKv := BlankKv().(addrStart := 0);
      iteratedCnt, iteratedObjBytes, iteratedValueBytes := 0, 0, 0;
      this.sectorAddr := sectorAddr;
      traversedLen := 0;
      k, j, visited := 0, 0, [];
    }

    /** Count the node read as `kv`. */
    method Visit(kv: Kv, ghost flash: seq<Sector>, ghost l: Loc)
      requires Sums(flash) && Placed(flash, l)
      requires kv.len == flash[l.sec].nodes[l.node].Len() && kv.valueLen == |EntryAt(flash, l).1|
      modifies this`currKv, this`iteratedCnt, this`iteratedObjBytes, this`iteratedValueBytes, this`visited, this`j
      ensures Sums(flash) && visited == old(visited) + [l] && currKv == kv && j == l.node + 1
    {
      hide Live, NodeCrc, ReadName, ObjBytes, ValueBytes;
      SumsMore(flash, visited, l);
      currKv := kv;
      iteratedCnt := iteratedCnt + 1;
      iteratedObjBytes := iteratedObjBytes + kv.len;
      iteratedValueBytes := iteratedValueBytes + kv.valueLen;
      visited := visited + [l];
      j := l.node + 1;
    }

    /** The counters are the sums over what was visited. */
    ghost predicate Sums(flash: seq<Sector>)
      reads this
    {
      && AllPlaced(flash, visited)
      && iteratedCnt == |visited|
      && iteratedObjBytes == ObjBytes(flash, visited)
      && iteratedValueBytes == ValueBytes(flash, visited)
    }

    /** The iterator stands on the node last visited, or in front of a sector. */
    ghost predicate Stands(flash: seq<Sector>, oldest: nat, size: nat)
      reads this
    {
      && oldest < |flash| && k < |flash| && |currKv.name| == KV_NAME_MAX
      && sectorAddr == Base(RingPos(oldest, k, |flash|), size) && traversedLen == Base(k, size)
      && var i := RingPos(oldest, k, |flash|);
        if currKv.addrStart == 0 then j == 0 else Searched(flash[i]) && 0 < j && KvAt(currKv, flash, size, i, j - 1)
    }
  }

  class Kvdb {
    const storage: RamStorage
    const secSize: u32
    const maxSize: u32
    var oldestAddr: u32
    var initOk: bool
    var gcRequest: bool
    var inRecoveryCheck: bool
    /** The log that the image holds, and the states it went through since the operation began. */
    ghost var db: Db
    /** The map that the log stands for. */
    ghost var table: Table
    /** Nothing was torn when the medium was opened. */
    ghost var sound: bool

    ghost predicate Valid()
      reads this, storage
    {
      && storage.Valid()
      && 64 <= secSize
      && db.secSize == secSize
      && 2 <= |db.flash| && db.oldest < |db.flash|
      && maxSize == Base(|db.flash|, secSize)
      && maxSize + secSize < 0x1_0000_0000
      && oldestAddr == Base(db.oldest, secSize)
      && gcRequest == db.gcRequest && inRecoveryCheck == db.recovering
      && FlashAt(storage.mem, db.flash, secSize)
      && |db.log| > 0 && db.log[|db.log| - 1] == db.flash
      && AllShow(storage.history, db.log, secSize)
    }

    /** The object before anything has been read; `flash` is what the medium holds. */
    constructor (storage: RamStorage, secSize: u32, maxSize: u32, ghost flash: seq<Sector>)
      ensures this.storage == storage && this.secSize == secSize && this.maxSize == maxSize
      ensures oldestAddr == 0 && !initOk && !gcRequest && !inRecoveryCheck
      ensures db == Db(secSize, flash, 0, false, false, [flash]) && table == map[] && !sound
    {
      this.storage := storage;
      this.secSize := secSize;
      this.maxSize := maxSize;
      oldestAddr := 0;
      initOk := false;
      gcRequest := false;
      inRecoveryCheck := false;
      db := Db(secSize, flash, 0, false, false, [flash]);
      table := map[];
      sound := false;
    }

    // ---------------------------------------------------------- reads

    /** The checksum loop of `read_kv`. */
    method ReadCrc(addr: u32, n: nat, crc0: bv32) returns (crc: bv32)
      requires addr + n <= |storage.mem| && addr + n < 0x1_0000_0000
      ensures crc == Crc(crc0, storage.mem[addr..addr + n])
    {
      hide Crc;
      crc := crc0;
      var len := 0;
      assert storage.mem[addr..addr] == [];
      EmptyCrc(crc0);
      while len < n
        invariant len <= n
        invariant crc == Crc(crc0, storage.mem[addr..addr + len])
      {
        var size := if 32 < n - len then 32 else n - len;
        var buf := storage.Read(addr + len, size);
        Streams(crc0, storage.mem[addr..addr + len], buf.value);
        SliceOn(storage.mem, addr, addr + len, addr + len + size);
        crc := CalcCrc32(crc, buf.value);
        len := len + size;
      }
    }

    /** `read_kv` for node `j` of sector `i`. A node without a header is marked erroneous on the medium,
        which does not change what the log holds. */
    method ReadKv(kv0: Kv, ghost i: nat, ghost j: nat) returns (kv: Kv, r: Outcome)
      requires Valid() && Located(db.flash, secSize, i, j, kv0.addrStart) && |kv0.name| == KV_NAME_MAX
      modifies storage
      ensures Valid()
      ensures KvAt(kv, db.flash, secSize, i, j) && kv.addrStart == kv0.addrStart && |kv.name| == KV_NAME_MAX
      ensures r == if kv.crcOk then Done else Failed(ReadErr)
    {
      hide Base, SectorAt, Part, FlashAt, AllShow, NodeCrc, Off, Word, RdWord, Code, CrcHead, ReadName, NodeAt, Decode, KvIs, HeaderIs,
           HeadAt, DataAt;
      ghost var node := db.flash[i].nodes[j];
      ghost var o := SECTOR_HDR + Off(db.flash[i].nodes, j);
      var a := kv0.addrStart;
      NodeInImage(storage.mem, db.flash, secSize, i, j);
      ghost var read := ReadsInPart(storage.mem, db.flash, secSize, i, j, a);
      HeaderReads(Part(storage.mem, i, secSize), o, read);
      PartRead(storage.mem, i, secSize, o, KV_HDR);
      var hdr := storage.Read(a, KV_HDR);
      var index := GetStatus(hdr.value[0..1], KV_STATUS_NUM);
      assert hdr.value[0..1] == [hdr.value[0]];
      HeaderTop(hdr.value, read);
      kv := kv0.(status := StFromIndex(index), len := RdWord(hdr.value[8..12]));

      if kv.len == 0xFFFF_FFFF || kv.len > maxSize || kv.len < KV_HDR {
        kv := kv.(len := KV_HDR);
        if kv.status != ErrHdr {
          kv := kv.(status := ErrHdr);
          Heal(a, i);
        }
        kv := kv.(crcOk := false);
        r := Failed(ReadErr);
        KvIsBlank(kv, a);
      } else {
        DataReads(storage.mem, i, secSize, o, read);
        kv, r := ReadData(kv, hdr.value, read);
      }
      KvReadsAs(kv, read, node, a);
      KvIsRead(kv, node, a);
    }

    /** The part of `read_kv` after the header has been accepted. */
    method ReadData(kv0: Kv, hdr: seq<byte>, ghost node: Node) returns (kv: Kv, r: Outcome)
      requires node.Node? && HeaderIs(hdr, node) && DataAt(storage.mem, kv0.addrStart + KV_HDR, node)
      requires |kv0.name| == KV_NAME_MAX && kv0.len == node.Len() && kv0.status == node.st
      ensures KvIs(kv, node, kv0.addrStart) && kv.addrStart == kv0.addrStart && |kv.name| == KV_NAME_MAX
      ensures r == if kv.crcOk then Done else Failed(ReadErr)
    {
      hide NodeCrc, Word, RdWord, CrcHead, Crc, Decode, KvIs, HeaderIs, ByteValue;
      HeaderParts(hdr, node);
      var a := kv0.addrStart;
      var hdrCrc32 := RdWord(hdr[12..16]);
      var hdrNameLen := ByteValue(hdr[16]);
      var hdrValueLen := RdWord(hdr[20..24]);
      var sum := CalcCrc32(0, hdr[16..20]);
      sum := CalcCrc32(sum, hdr[20..24]);
      sum := ReadCrc(a + KV_HDR, kv0.len - KV_HDR, sum);
      ChecksumOf(node, hdr, node.data);

      var kvNameAddr := a + KV_HDR;
      var readN := if hdrNameLen < KV_NAME_MAX then hdrNameLen else KV_NAME_MAX;
      var name := storage.Read(kvNameAddr, readN);
      kv := kv0.(name := name.value + kv0.name[readN..]);
      if sum as int != hdrCrc32 {
        kv := kv.(crcOk := false, nameLen := hdrNameLen);
        KvIsBad(kv, node, a);
        return kv, Failed(ReadErr);
      }
      kv := kv.(crcOk := true, addrValue := kvNameAddr + hdrNameLen, valueLen := hdrValueLen, nameLen := hdrNameLen);
      var nl := if hdrNameLen >= KV_NAME_MAX then KV_NAME_MAX - 1 else hdrNameLen;
      assert name.value == node.data[..node.nameLen];
      NameReads(node, name.value, kv0.name[readN..]);
      kv := kv.(name := kv.name[nl := 0]);
      KvIsGood(kv, node, a);
      r := Done;
    }

    /** Mark the blank node at the start of sector `i` erroneous. */
    method Heal(addr: u32, ghost i: nat)
      requires Valid() && Located(db.flash, secSize, i, 0, addr) && db.flash[i].nodes[0].Blank?
      modifies storage
      ensures Valid()
    {
      hide Base, SectorAt, FlashAt, AllShow, Off, Code;
      OffZero(db.flash[i].nodes);
      PartAt(storage.mem, db.flash, secSize, i);
      HealBlank(Part(storage.mem, i, secSize), db.flash[i]);
      assert storage.mem[addr] == Part(storage.mem, i, secSize)[SECTOR_HDR];
      FlashWrite(storage.mem, db.flash, secSize, i, SECTOR_HDR, [Code(5)], db.flash[i]);
      assert db.flash[i := db.flash[i]] == db.flash;
      WriteStatus(storage, addr, KV_STATUS_NUM, StIndex(ErrHdr));
      ShowsMore(old(storage.history), db.log, secSize, storage.mem, db.flash);
    }

    /** `find_next_kv_addr`: the first magic word within reach, in overlapping windows of 32 bytes. */
    method FindNextKvAddr(start0: u32, end: u32) returns (r: u32)
      requires 4 <= start0 <= end <= |storage.mem| && end < 0xFFFF_FFE0
      ensures r != FAILED_ADDR ==>
                && start0 <= r && r + 4 < Reach(start0, end) && MagicAt(storage.mem, r + 4)
                && forall p :: start0 + 4 <= p < r + 4 ==> !MagicAt(storage.mem, p)
      ensures r == FAILED_ADDR ==> forall p :: start0 + 4 <= p < Reach(start0, end) ==> !MagicAt(storage.mem, p)
    {
      hide Word, RdWord;
      var start := start0;
      while start < end && start + 32 < end
        invariant start0 <= start <= end
        invariant Reach(start, end) == Reach(start0, end)
        invariant forall p :: start0 + 4 <= p < start ==> !MagicAt(storage.mem, p)
      {
        var buf := storage.Read(start, 32);
        if buf.Err? {
          return FAILED_ADDR;
        }
        var i := 0;
        while i < 28 && start + i <= end
          invariant 0 <= i <= 28
          invariant forall p :: start0 + 4 <= p < start + i ==> !MagicAt(storage.mem, p)
        {
          var magic := RdWord(buf.value[i..i + 4]);
          MagicReads(storage.mem, start, buf.value, i);
          var back := start + i - 4;
          if magic == KV_MAGIC && back >= start0 {
            ReachAhead(start, end);
            return back;
          }
          i := i + 1;
        }
        start := start + 28;
      }
      r := FAILED_ADDR;
    }

    /** `get_next_kv_addr` behind node `j` of sector `i`: the next node, stray bytes aside. */
    method GetNextKvAddr(sector: SecInfo, preKv: Kv, ghost i: nat, ghost j: nat) returns (r: u32)
      requires Valid() && i < |db.flash| && Walkable(db.flash[i], secSize)
      requires sector.addr == Base(i, secSize) && sector.store == db.flash[i].store
      requires preKv.addrStart != FAILED_ADDR ==> KvStands(preKv, db.flash, secSize, i, j)
      ensures preKv.addrStart == FAILED_ADDR ==>
                r == if sector.store == Empty then FAILED_ADDR else sector.addr + SECTOR_HDR
      ensures preKv.addrStart != FAILED_ADDR ==> NextAt(r, db.flash, secSize, i, j)
    {
      hide Base, SectorAt, FlashAt, AllShow, Off, Walkable, Intact, MagicAt, Reach;
      BaseBound(i, |db.flash|, secSize);
      if preKv.addrStart != FAILED_ADDR {
        WalkNext(storage.mem, db.flash, secSize, i, j);
        WalkOn(db.flash, secSize, i, j);
        IntactSays(db.flash[i].nodes[j]);
      }
      if sector.store == Empty {
        return FAILED_ADDR;
      }
      if preKv.addrStart == FAILED_ADDR {
        return sector.addr + SECTOR_HDR;
      }
      if preKv.addrStart <= sector.addr + secSize {
        var addr := preKv.addrStart + if preKv.crcOk then preKv.len else 1;
        addr := FindNextKvAddr(addr, sector.addr + secSize - SECTOR_HDR);
        if addr == FAILED_ADDR || addr > sector.addr + secSize || preKv.len == 0 {
          return FAILED_ADDR;
        }
        return addr;
      }
      r := FAILED_ADDR;
    }

    /** `read_sector_info` for sector `i`; with `traversal` also its free space, found by walking its nodes. */
    method ReadSectorInfo(addr: u32, traversal: bool, ghost i: nat) returns (sector: SecInfo, r: Outcome)
      requires Valid() && i < |db.flash| && addr == Base(i, secSize)
      requires traversal ==> db.flash[i].Raw? || Walkable(db.flash[i], secSize)
      modifies storage
      ensures Valid() && InfoIs(sector, db, i)
      ensures traversal && (db.flash[i].Sector? ==> EndShows(db.flash[i])) ==> Measured(sector, db, i)
      ensures traversal && (db.flash[i].Sector? ==> Measurable(db.flash[i])) ==> Measured(sector, ApparentLog(db), i)
      ensures r == if sector.checkOk then Done else Failed(InitFailed)
      ensures !traversal ==> storage.mem == old(storage.mem) && storage.history == old(storage.history)
    {
      hide Base, SectorAt, FlashAt, AllShow, Off, Part, Word, RdWord, Code, Walkable, EndShows, Clippable, Apparent, Used;
      ApparentHead(db.flash[i]);
      BaseBound(i, |db.flash|, secSize);
      PartAt(storage.mem, db.flash, secSize, i);
      HeaderInSector(Part(storage.mem, i, secSize), db.flash[i]);
      PartRead(storage.mem, i, secSize, 0, SECTOR_HDR);
      var hdr := storage.Read(addr, SECTOR_HDR);
      SameWords(Part(storage.mem, i, secSize), hdr.value);
      sector, r := ParseHeader(addr, hdr.value, db.flash[i]);
      if traversal && r == Done {
        sector := MeasureSector(sector, i);
      }
    }

    /** The header part of `read_sector_info`. */
    method ParseHeader(addr: u32, hdr: seq<byte>, ghost sec: Sector) returns (sector: SecInfo, r: Outcome)
      requires |hdr| == SECTOR_HDR
      requires sec.Raw? ==> RdWord(hdr[4..8]) != SECTOR_MAGIC
      requires sec.Sector? ==>
        && RdWord(hdr[4..8]) == SECTOR_MAGIC && RdWord(hdr[8..12]) == NOT_COMBINED
        && hdr[0] == Code(StoreIndex(sec.store)) && hdr[1] == Code(DirtyIndex(sec.dirty))
      ensures sector == BlankSecInfo().(checkOk := sec.Sector?, store := StoreOf(sec), dirty := sector.dirty, addr := addr)
      ensures sector.dirty == if sec.Raw? then DirtyStatus.Unused else sec.dirty
      ensures r == if sec.Sector? then Done else Failed(InitFailed)
    {
      hide RdWord, Code, Decode, StoreIndex, DirtyIndex, StoreFromIndex, DirtyFromIndex;
      sector := BlankSecInfo().(addr := addr);
      var magic := RdWord(hdr[4..8]);
      var combined := RdWord(hdr[8..12]);
      if magic != SECTOR_MAGIC || (combined != NOT_COMBINED && combined != 0) {
        return sector, Failed(InitFailed);
      }
      var storeIndex := GetStatus(hdr[0..1], STORE_STATUS_NUM);
      var dirtyIndex := GetStatus(hdr[1..2], DIRTY_STATUS_NUM);
      assert hdr[0..1] == [hdr[0]] && hdr[1..2] == [hdr[1]];
      HeadRoundTrip(sec.store, sec.dirty);
      sector := sector.(checkOk := true, combined := combined,
        store := StoreFromIndex(storeIndex), dirty := DirtyFromIndex(dirtyIndex));
      r := Done;
    }

    /** The node walk of `read_sector_info` in a sector in use. It ends at a clipped node. */
    method WalkSector(sector0: SecInfo, ghost i: nat) returns (sector: SecInfo, ghost seen: nat)
      requires Valid() && i < |db.flash| && Walkable(db.flash[i], secSize) && db.flash[i].store == Using
      requires InfoIs(sector0, db, i)
      modifies storage
      ensures Valid() && sector == sector0.(remain := sector.remain, emptyKv := sector.emptyKv)
      ensures sector.emptyKv == Base(i, secSize) + SECTOR_HDR + seen && seen <= Used(db.flash[i].nodes)
      ensures seen == Used(db.flash[i].nodes) <==> NoStraySector(db.flash[i])
      ensures NoClipped(db.flash[i]) ==>
                seen == SeenLen(db.flash[i].nodes, |db.flash[i].nodes|) && sector.remain == secSize - SECTOR_HDR - seen
    {
      hide Base, SectorAt, FlashAt, AllShow, Off, Part, Walkable, SeenLen, Intact, KvIs;
      BaseBound(i, |db.flash|, secSize);
      WalkStarts(db.flash, secSize, i);
      sector := sector0.(remain := secSize - SECTOR_HDR, emptyKv := sector0.addr + SECTOR_HDR);
      var kv := BlankKv().(addrStart := sector.addr + SECTOR_HDR);
      ghost var j := 0;
      while true
        invariant Valid() && 0 <= j < |db.flash[i].nodes|
        invariant Located(db.flash, secSize, i, j, kv.addrStart) && |kv.name| == KV_NAME_MAX
        invariant sector == sector0.(remain := sector.remain, emptyKv := sector.emptyKv)
        invariant sector.emptyKv == Base(i, secSize) + SECTOR_HDR + SeenLen(db.flash[i].nodes, j)
        invariant sector.remain == secSize - SECTOR_HDR - SeenLen(db.flash[i].nodes, j)
        invariant forall y :: 0 <= y < j ==> !db.flash[i].nodes[y].Clipped?
        decreases |db.flash[i].nodes| - j
      {
        var r;
        kv, r := ReadKv(kv, i, j);
        KvWellFormed(kv, db.flash, secSize, i, j);
        if !kv.crcOk && kv.status != PreWrite && kv.status != ErrHdr {
          sector := sector.(remain := 0);
          break;
        }
        WalkStep(db.flash, secSize, i, j);
        sector := sector.(emptyKv := sector.emptyKv + kv.len, remain := sector.remain - kv.len);
        var next := GetNextKvAddr(sector, kv, i, j);
        j := NextSeen(db.flash[i].nodes, j + 1);
        if next == FAILED_ADDR {
          break;
        }
        kv := kv.(addrStart := next);
      }
      SeenEnd(db.flash[i], j);
      seen := SeenLen(db.flash[i].nodes, j);
    }

    /** The traversal of `read_sector_info`. */
    method MeasureSector(sector0: SecInfo, ghost i: nat) returns (sector: SecInfo)
      requires Valid() && i < |db.flash| && Walkable(db.flash[i], secSize)
      requires InfoIs(sector0, db, i)
      modifies storage
      ensures Valid() && sector == sector0.(remain := sector.remain, emptyKv := sector.emptyKv)
      ensures Measured(sector, db, i) <==> EndShows(db.flash[i])
      ensures Measurable(db.flash[i]) ==> Measured(sector, ApparentLog(db), i)
    {
      hide Base, SectorAt, FlashAt, AllShow, Off, Part, Walkable, SeenLen, EndShows, Intact, KvIs, Clippable, Clip;
      BaseBound(i, |db.flash|, secSize);
      WalkStarts(db.flash, secSize, i);
      sector := sector0.(remain := 0, emptyKv := sector0.addr + SECTOR_HDR);
      if sector.store == Empty {
        sector := sector.(remain := secSize - SECTOR_HDR);
        EmptyShows(db.flash[i]);
      } else if sector.store == Using {
        ghost var seen;
        sector, seen := WalkSector(sector, i);
        TailErased(storage.mem, db.flash, secSize, i);
        LastUnclipped(db.flash[i], secSize);
        var ffAddr := ContinueFfAddr(storage, sector.emptyKv, sector.addr + secSize);
        EndFound(storage.mem, db.flash, secSize, i, seen, ffAddr);
        MeasuredEnd(storage.mem, db, i, seen, ffAddr);
        if sector.emptyKv != ffAddr {
          sector := sector.(emptyKv := ffAddr, remain := secSize - (ffAddr - sector.addr));
        }
      }
    }

    // ---------------------------------------------------------- the ring of sectors

    /** `get_next_sector_addr` */
    function GetNextSectorAddr(preSec: SecInfo, traversedLen: u32): int {
      var curBlockSize := if preSec.combined == NOT_COMBINED then secSize else preSec.combined * secSize;
      if traversedLen + curBlockSize <= maxSize then
        if preSec.addr + curBlockSize < maxSize then preSec.addr + curBlockSize else 0
      else FAILED_ADDR
    }

    /** A walk around the ring has come from sector `start` to its `k`-th sector. */
    ghost predicate OnRing(start: nat, k: nat, secAddr: int, traversedLen: int)
      reads this
    {
      && start < |db.flash| && k < |db.flash|
      && secAddr == Base(RingPos(start, k, |db.flash|), secSize)
      && traversedLen == Base(k, secSize)
    }

    lemma RingNext(start: nat, k: nat, info: SecInfo)
      requires Valid() && start < |db.flash| && k < |db.flash| && InfoIs(info, db, RingPos(start, k, |db.flash|))
      ensures Base(k, secSize) + secSize == Base(k + 1, secSize) <= maxSize
      ensures var next := GetNextSectorAddr(info, Base(k + 1, secSize));
        && 0 <= next < 0x1_0000_0000
        && (next == FAILED_ADDR <==> k + 1 == |db.flash|)
        && (k + 1 < |db.flash| ==> OnRing(start, k + 1, next, Base(k + 1, secSize)))
    {
      hide Base, FlashAt, AllShow;
      var n, pos := |db.flash|, RingPos(start, k, |db.flash|);
      BaseNext(k, secSize);
      BaseNext(pos, secSize);
      BaseBound(k, n, secSize);
      BaseBound(pos, n, secSize);
      if k + 1 < n {
        BaseBound(k + 1, n, secSize);
      }
      if pos + 1 < n {
        BaseBound(pos + 1, n, secSize);
      }
    }

    lemma RingStart(start: nat)
      requires Valid() && start < |db.flash|
      ensures OnRing(start, 0, Base(start, secSize), 0)
    {
      hide Base, FlashAt, AllShow;
      BaseNext(0, secSize);
    }

    /** How many sectors are empty and how many in use. */
    method CountSectors() returns (empty: nat, using: nat)
      requires Valid()
      modifies storage
      ensures Valid()
      ensures empty == Count(db.flash, Empty) && using == Count(db.flash, Using)
      ensures storage.mem == old(storage.mem) && storage.history == old(storage.history)
    {
      hide Base, FlashAt, AllShow, HasStore;
      empty, using := 0, 0;
      var secAddr: u32, traversedLen: u32 := oldestAddr, 0;
      ghost var k := 0;
      RingStart(db.oldest);
      while true
        invariant Valid() && OnRing(db.oldest, k, secAddr, traversedLen)
        invariant empty == CountRing(db.flash, Empty, db.oldest, k)
        invariant using == CountRing(db.flash, Using, db.oldest, k)
        invariant storage.mem == old(storage.mem) && storage.history == old(storage.history)
        decreases |db.flash| - k
      {
        RingBound(k);
        traversedLen := traversedLen + secSize;
        var s, r := ReadSectorInfo(secAddr, false, RingPos(db.oldest, k, |db.flash|));
        InfoStore(s, db, RingPos(db.oldest, k, |db.flash|));
        if s.checkOk && s.store == Empty {
          empty := empty + 1;
        } else if s.checkOk && s.store == Using {
          using := using + 1;
        }
        RingNext(db.oldest, k, s);
        var next := GetNextSectorAddr(s, traversedLen);
        if next == FAILED_ADDR {
          break;
        }
        secAddr := next;
        k := k + 1;
      }
      CountRingAll(db.flash, Empty, db.oldest);
      CountRingAll(db.flash, Using, db.oldest);
    }

    lemma RingBound(k: nat)
      requires Valid() && k < |db.flash|
      ensures Base(k, secSize) + secSize == Base(k + 1, secSize) <= maxSize
    {
      hide Base, FlashAt, AllShow;
      BaseNext(k, secSize);
      BaseBound(k, |db.flash|, secSize);
    }

    // ---------------------------------------------------------- allocation

    /** Every sector can be walked, and the walk finds where its contents end. */
    ghost predicate Ready()
      reads this, storage
    {
      Valid() && Scannable(db.flash, secSize) && AllShowEnd(db.flash)
    }

    /** The walk finds the end of every sector, or is off by the one byte of a single stray. */
    ghost predicate Sizable()
      reads this, storage
    {
      Valid() && Scannable(db.flash, secSize) && AllMeasurable(db.flash)
    }

    /** `alloc_scan` */
    method ScanForRoom(want: StoreStatus, kvSize: nat) returns (found: Option<SecInfo>, ghost sec: Option<nat>)
      requires Sizable() && (want == Empty || want == Using)
      modifies storage
      ensures Sizable()
      ensures sec == AllocScan(ApparentLog(db), want, kvSize, 0) && found.Some? == sec.Some?
      ensures sec.Some? ==> InfoIs(found.value, db, sec.value) && Measured(found.value, ApparentLog(db), sec.value)
    {
      hide Base, FlashAt, AllShow, HasRoom, Walkable, Measurable, Apparent, Remain;
      found, sec := None, None;
      var secAddr: u32, traversedLen: u32 := oldestAddr, 0;
      ghost var k := 0;
      RingStart(db.oldest);
      while true
        invariant Sizable() && OnRing(db.oldest, k, secAddr, traversedLen)
        invariant AllocScan(ApparentLog(db), want, kvSize, k) == AllocScan(ApparentLog(db), want, kvSize, 0)
        decreases |db.flash| - k
      {
        ghost var i := RingPos(db.oldest, k, |db.flash|);
        RingBound(k);
        traversedLen := traversedLen + secSize;
        var s, r := ReadSectorInfo(secAddr, false, i);
        if s.store == want {
          s, r := ReadSectorInfo(secAddr, true, i);
          InfoApparent(s, db, i);
          RoomReads(s, ApparentLog(db), want, kvSize, i);
          if s.checkOk && s.remain > kvSize + THRESHOLD && (s.dirty == False || (s.dirty == True && !gcRequest)) {
            return Some(s), Some(i);
          }
        } else {
          InfoApparent(s, db, i);
          NoRoomReads(s, ApparentLog(db), want, kvSize, i);
        }
        RingNext(db.oldest, k, s);
        var next := GetNextSectorAddr(s, traversedLen);
        if next == FAILED_ADDR {
          break;
        }
        secAddr := next;
        k := k + 1;
      }
    }

    /** `alloc_kv`; the result is the address for the new node. */
    method Allocate(kvSize: nat) returns (emptyKv: u32, sector: SecInfo, ghost sec: Option<nat>)
      requires Sizable()
      modifies storage, `gcRequest, `db
      ensures Sizable()
      ensures var a := AllocKv(ApparentLog(old(db)), kvSize); db == old(db).(gcRequest := a.db.gcRequest) && sec == a.sec
      ensures sec.None? ==> emptyKv == FAILED_ADDR
      ensures sec.Some? ==>
                && emptyKv == sector.emptyKv && emptyKv != FAILED_ADDR
                && InfoIs(sector, db, sec.value) && Measured(sector, ApparentLog(db), sec.value)
    {
      hide Base, FlashAt, AllShow, HasRoom, Walkable, Measurable, Apparent, Remain, CountStore, AllocScan;
      var emptyCount, usingCount := CountSectors();
      CountApparent(db, Empty, |db.flash|);
      CountApparent(db, Using, |db.flash|);
      emptyKv, sector, sec := FAILED_ADDR, BlankSecInfo(), None;
      if usingCount > 0 {
        var s;
        s, sec := ScanForRoom(Using, kvSize);
        if s.Some? {
          sector, emptyKv := s.value, s.value.emptyKv;
          RoomIsFormatted(ApparentLog(db), kvSize, sec.value);
          RoomAddress(sector, sec.value);
        }
      }
      if emptyCount > 0 && emptyKv == FAILED_ADDR {
        if emptyCount > 1 || gcRequest {
          var s;
          s, sec := ScanForRoom(Empty, kvSize);
          if s.Some? {
            sector, emptyKv := s.value, s.value.emptyKv;
            RoomIsFormatted(ApparentLog(db), kvSize, sec.value);
            RoomAddress(sector, sec.value);
          }
        } else {
          SetRequest(true);
        }
      }
    }

    lemma RoomAddress(info: SecInfo, i: nat)
      requires Valid() && i < |db.flash| && ApparentLog(db).flash[i].Sector? && Measured(info, ApparentLog(db), i)
      ensures info.emptyKv != FAILED_ADDR
    {
      hide Base, AllShow, Used, SectorAt, Apparent;
      ApparentHead(db.flash[i]);
      TailErased(storage.mem, db.flash, secSize, i);
    }

    // ---------------------------------------------------------- writes

    /** One storage write inside sector `i`, at offset `o`, that turns its contents into `sec`. */
    method Program(addr: u32, buf: seq<byte>, ghost i: nat, ghost o: nat, ghost sec: Sector)
      requires Valid()
      requires i < |db.flash| && addr == Base(i, secSize) + o && o + |buf| <= secSize
      requires Base(i, secSize) + secSize <= |storage.mem|
      requires OnlyClears(Part(storage.mem, i, secSize), o, buf)
      requires SectorAt(Overwrite(Part(storage.mem, i, secSize), o, buf), sec)
      modifies storage, `db
      ensures Valid() && db == Put(old(db), i, sec)
      ensures storage.mem == Overwrite(old(storage.mem), addr, buf)
    {
      hide Base, SectorAt, Part, OnlyClears, Overwrite, FlashAt, AllShow;
      ClearsInPart(storage.mem, i, secSize, o, buf);
      FlashWrite(storage.mem, db.flash, secSize, i, o, buf, sec);
      var _ := storage.Write(addr, buf);
      ShowsMore(old(storage.history), old(db.log), secSize, storage.mem, old(db.flash)[i := sec]);
      db := Put(db, i, sec);
    }

    /** The same for a status byte. */
    method ProgramStatus(addr: u32, num: nat, index: nat, ghost i: nat, ghost o: nat, ghost sec: Sector)
      requires Valid() && 0 < index < num <= 8
      requires i < |db.flash| && addr == Base(i, secSize) + o && o < secSize
      requires Base(i, secSize) + secSize <= |storage.mem|
      requires Part(storage.mem, i, secSize)[o] & Code(index) == Code(index)
      requires SectorAt(Overwrite(Part(storage.mem, i, secSize), o, [Code(index)]), sec)
      modifies storage, `db
      ensures Valid() && db == Put(old(db), i, sec)
      ensures storage.mem == Overwrite(old(storage.mem), addr, [Code(index)])
    {
      hide Base, SectorAt, Overwrite, FlashAt, AllShow, Code;
      assert storage.mem[addr] == Part(storage.mem, i, secSize)[o];
      FlashWrite(storage.mem, db.flash, secSize, i, o, [Code(index)], sec);
      WriteStatus(storage, addr, num, index);
      ShowsMore(old(storage.history), old(db.log), secSize, storage.mem, old(db.flash)[i := sec]);
      db := Put(db, i, sec);
    }

    method EraseSector(addr: u32, ghost i: nat)
      requires Valid() && i < |db.flash| && addr == Base(i, secSize)
      modifies storage, `db
      ensures Valid() && db == Put(old(db), i, Raw)
    {
      hide Base, SectorAt, Overwrite, FlashAt, AllShow, Fill;
      PartAt(storage.mem, db.flash, secSize, i);
      Whole(Part(storage.mem, i, secSize));
      RawFill(secSize);
      FlashWrite(storage.mem, db.flash, secSize, i, 0, Fill(secSize), Raw);
      var _ := storage.Erase(addr, secSize);
      ShowsMore(old(storage.history), old(db.log), secSize, storage.mem, old(db.flash)[i := Raw]);
      db := Put(db, i, Raw);
    }

    method NewHeader() returns (hdr: seq<byte>)
      ensures hdr == FreshHeader()
    {
      hide Word, Code, StatusTable;
      var table := new byte[1](_ => 0xFF);
      CodeIsTable(STORE_STATUS_NUM, 1);
      CodeIsTable(DIRTY_STATUS_NUM, 1);
      var _ := SetStatus(table, STORE_STATUS_NUM, StoreIndex(Empty));
      assert table[..] == [Code(1)];
      var store := table[0];
      var _ := SetStatus(table, DIRTY_STATUS_NUM, DirtyIndex(False));
      assert table[..] == [Code(1)];
      hdr := [store, table[0], 0xFF, 0xFF] + Word(SECTOR_MAGIC) + Word(NOT_COMBINED) + [0xFF, 0xFF, 0xFF, 0xFF];
    }

    /** `format_sector` */
    method FormatSector(addr: u32, ghost i: nat)
      requires Valid() && i < |db.flash| && addr == Base(i, secSize)
      modifies storage, `db
      ensures Valid() && db == Format(old(db), i)
    {
      hide Base, SectorAt, Part, OnlyClears, Overwrite, FlashAt, AllShow, FreshHeader, Fill, Put, Rewrite;
      EraseSector(addr, i);
      var hdr := NewHeader();
      PartOfPut(storage.mem, old(db), i, Raw);
      RawIsFill(Part(storage.mem, i, secSize));
      Formatting(Part(storage.mem, i, secSize));
      ClearsFill(secSize, 0, hdr);
      Program(addr, hdr, i, 0, Sector(Empty, False, []));
      RewriteTwo(old(db), i, Raw, Sector(Empty, False, []));
    }

    /** `update_sec_status` for a node of `newKvLen` bytes; tells whether the sector became full. */
    method UpdateSecStatus(sector: SecInfo, newKvLen: nat, ghost i: nat) returns (isFull: bool)
      requires Valid() && Allotted(sector, db, i)
      modifies storage, `db
      ensures Valid()
      ensures db == Rewrite(old(db), i, OpenSteps(old(db), i, newKvLen)) && isFull == FillsUp(old(db), i, newKvLen)
    {
      hide Base, SectorAt, FlashAt, AllShow, Code, Remain, Used, Overwrite, Put, Rewrite, OpenSteps, OpenedSector, Opened, FillsUp, Part;
      isFull := false;
      PartAt(storage.mem, db.flash, secSize, i);
      OpenCases(db, i, newKvLen);
      HeaderField(Part(storage.mem, i, secSize), db.flash[i], Opened(db, i, newKvLen), False);
      HeadByte(Part(storage.mem, i, secSize), db.flash[i]);
      RewriteOne(db, i, OpenedSector(db, i, newKvLen));
      RewriteNone(db, i);
      if sector.store == Empty {
        CodesNest(1, 2);
        ProgramStatus(sector.addr, STORE_STATUS_NUM, StoreIndex(Using), i, 0, OpenedSector(db, i, newKvLen));
      } else if sector.store == Using && (sector.remain < THRESHOLD || sector.remain - newKvLen < THRESHOLD) {
        CodesNest(2, 3);
        ProgramStatus(sector.addr, STORE_STATUS_NUM, StoreIndex(Full), i, 0, OpenedSector(db, i, newKvLen));
        isFull := true;
      }
    }

    // ---------------------------------------------------------- writing nodes

    /** Sector `i` is `sec` with a node behind it of which `from` bytes of the body have been written, so
        that it now counts as `p`. */
    ghost predicate Writing(i: nat, sec: Sector, p: Node, node: Node, from: nat)
      reads this, storage
    {
      && i < |db.flash| && sec.Sector? && node.Node? && Sized(node)
      && Base(i, secSize) + secSize <= |storage.mem|
      && db.flash[i] == Hold(sec, p)
      && Written(Part(storage.mem, i, secSize), sec, node, from)
    }

    /** The first write of a node: its status. */
    method BeginNode(addr: u32, ghost i: nat, ghost sec: Sector, ghost node: Node)
      requires Valid() && i < |db.flash| && db.flash[i] == sec && sec.Sector?
      requires node.Node? && Sized(node) && SECTOR_HDR + Used(sec.nodes) + node.Len() <= secSize
      requires addr == Base(i, secSize) + SECTOR_HDR + Used(sec.nodes)
      modifies storage, `db
      ensures Valid() && db == Put(old(db), i, Hold(sec, Headless(sec)))
      ensures Writing(i, sec, Headless(sec), node, 0)
    {
      hide Base, SectorAt, Part, OnlyClears, Overwrite, FlashAt, AllShow, Used, Code, Written, NodeCrc;
      ghost var s := storage.mem;
      PartAt(s, db.flash, secSize, i);
      WriteHeadless(Part(s, i, secSize), sec);
      HeadlessWritten(Part(s, i, secSize), sec, node);
      TailBlank(Part(s, i, secSize), sec);
      CodesNest(0, 1);
      ProgramStatus(addr, KV_STATUS_NUM, StIndex(PreWrite), i, SECTOR_HDR + Used(sec.nodes), Hold(sec, Headless(sec)));
      PartWrite(s, i, secSize, SECTOR_HDR + Used(sec.nodes), [Code(1)], i);
    }

    /** A later write: the body up to `from + |buf|`. */
    method AppendNode(addr: u32, buf: seq<byte>, ghost i: nat, ghost sec: Sector, ghost p: Node, ghost node: Node, ghost from: nat)
      requires Valid() && Writing(i, sec, p, node, from)
      requires 20 <= from + |buf| <= 20 + |node.data| && 24 + |node.data| < 0x1_0000_0000
      requires buf == Body(node)[from..from + |buf|]
      requires addr == Base(i, secSize) + SECTOR_HDR + Used(sec.nodes) + 4 + from
      modifies storage, `db
      ensures Valid() && db == Put(old(db), i, Hold(sec, Partial(node, from + |buf| - 20)))
      ensures Writing(i, sec, Partial(node, from + |buf| - 20), node, from + |buf|)
    {
      hide Base, SectorAt, Part, OnlyClears, Overwrite, FlashAt, AllShow, Used, Code, Written, NodeCrc, Body, Partial;
      ghost var s := storage.mem;
      ghost var o := SECTOR_HDR + Used(sec.nodes) + 4 + from;
      PartAt(s, db.flash, secSize, i);
      WriteBody(Part(s, i, secSize), sec, [p], node, from, from + |buf|);
      WrittenClears(Part(s, i, secSize), sec, node, from, buf);
      Program(addr, buf, i, o, Hold(sec, Partial(node, from + |buf| - 20)));
      PartWrite(s, i, secSize, o, buf, i);
    }

    /** The last write: the final status. */
    method EndNode(addr: u32, ghost i: nat, ghost sec: Sector, ghost node: Node)
      requires Valid() && i < |db.flash| && sec.Sector? && node.Node? && db.flash[i] == Hold(sec, Partial(node, |node.data|))
      requires addr == Base(i, secSize) + SECTOR_HDR + Used(sec.nodes)
      modifies storage, `db
      ensures Valid() && db == Put(old(db), i, Hold(sec, node.(st := Write)))
    {
      hide Base, SectorAt, Part, OnlyClears, Overwrite, FlashAt, AllShow, Used, Code, NodeCrc;
      PartAt(storage.mem, db.flash, secSize, i);
      LastStatus(Part(storage.mem, i, secSize), sec, node);
      CodesNest(1, 2);
      ProgramStatus(addr, KV_STATUS_NUM, StIndex(Write), i, SECTOR_HDR + Used(sec.nodes), Hold(sec, node.(st := Write)));
    }

    /** `write_kv_hdr`: status, then the rest of the header. */
    method WriteKvHdr(addr: u32, hdr: seq<byte>, ghost i: nat, ghost sec: Sector, ghost node: Node)
      requires Valid() && i < |db.flash| && db.flash[i] == sec && sec.Sector?
      requires node.Node? && Sized(node) && SECTOR_HDR + Used(sec.nodes) + node.Len() <= secSize
      requires addr == Base(i, secSize) + SECTOR_HDR + Used(sec.nodes)
      requires |hdr| == KV_HDR && hdr[4..] == Body(node)[0..20]
      modifies storage, `db
      ensures Valid() && Writing(i, sec, Partial(node, 0), node, 20)
      ensures db == Put(Put(old(db), i, Hold(sec, Headless(sec))), i, Hold(sec, Partial(node, 0)))
    {
      hide Base, SectorAt, Part, FlashAt, AllShow, Used, Written, NodeCrc, Body, Partial, Headless;
      BaseBound(i, |db.flash|, secSize);
      BeginNode(addr, i, sec, node);
      AppendNode(addr + 4, hdr[4..], i, sec, Headless(sec), node, 0);
    }

    /** The header of a new node. */
    method MakeKvHdr(key: seq<byte>, value: seq<byte>) returns (hdr: seq<byte>)
      requires |key| <= KV_NAME_MAX && NodeSize(key, value) < 0x1_0000_0000
      ensures |hdr| == KV_HDR && hdr[4..] == Body(NewNode(Write, key, value))[0..20]
    {
      hide Word, Byte, Crc;
      var head := [Byte(|key|), 0xFF, 0xFF, 0xFF];
      var crc := CalcCrc32(0, head);
      crc := CalcCrc32(crc, Word(|value|));
      crc := CalcCrc32(crc, key);
      crc := CalcCrc32(crc, value);
      NewCrc(key, value);
      hdr := [0xFF, 0xFF, 0xFF, 0xFF] + Word(KV_MAGIC) + Word(NodeSize(key, value)) + Word(crc as int) + head + Word(|value|);
      assert hdr[4..] == Body(NewNode(Write, key, value))[0..20];
    }

    /** The writes of `create_kv_blob`: header, name, value, final status. */
    method WriteKv(kvAddr: u32, key: seq<byte>, value: seq<byte>, ghost i: nat, ghost d0: Db, ghost sec: Sector)
      requires Valid() && |key| <= KV_NAME_MAX && NodeSize(key, value) < 0x1_0000_0000
      requires Formatted(d0, i) && sec == OpenedSector(d0, i, NodeSize(key, value))
      requires db == WriteNode(d0, i, NodeSize(key, value), [])
      requires SECTOR_HDR + Used(sec.nodes) + NodeSize(key, value) <= secSize
      requires kvAddr == Base(i, secSize) + SECTOR_HDR + Used(sec.nodes)
      modifies storage, `db
      ensures Valid() && db == CreateAt(d0, i, NewNode(Write, key, value))
    {
      hide Base, SectorAt, Part, FlashAt, AllShow, Used, Written, NodeCrc, Body, Partial, Headless, NewNode, FillsUp, WriteNode, Put,
           OpenedSector, CreateAt;
      ghost var size := NodeSize(key, value);
      ghost var node := NewNode(Write, key, value);
      NewNodeParts(key, value);
      BaseBound(i, |d0.flash|, secSize);
      WriteNodeStart(d0, i, size);
      OpenedNodes(d0, i, size);
      var hdr := MakeKvHdr(key, value);
      WriteKvHdr(kvAddr, hdr, i, sec, node);
      WriteNodeSnoc(d0, i, size, [], Headless(sec));
      WriteNodeSnoc(d0, i, size, [Headless(sec)], Partial(node, 0));
      assert [Headless(sec)] + [Partial(node, 0)] == [Headless(sec), Partial(node, 0)] && [] + [Headless(sec)] == [Headless(sec)];
      WriteNameAndValue(kvAddr, key, value, i, d0, sec, node);
    }

    method WriteNameAndValue(kvAddr: u32, key: seq<byte>, value: seq<byte>, ghost i: nat, ghost d0: Db, ghost sec: Sector, ghost node: Node)
      requires Valid() && |key| <= KV_NAME_MAX && NodeSize(key, value) < 0x1_0000_0000 && node == NewNode(Write, key, value)
      requires Formatted(d0, i) && sec == OpenedSector(d0, i, node.Len()) && Writing(i, sec, Partial(node, 0), node, 20)
      requires db == WriteNode(d0, i, node.Len(), [Headless(sec), Partial(node, 0)])
      requires kvAddr == Base(i, secSize) + SECTOR_HDR + Used(sec.nodes)
      requires Base(i, secSize) + SECTOR_HDR + Used(sec.nodes) + NodeSize(key, value) < 0x1_0000_0000
      modifies storage, `db
      ensures Valid() && db == CreateAt(d0, i, node)
    {
      hide Base, SectorAt, Part, FlashAt, AllShow, Used, Written, NodeCrc, Body, Partial, Headless, NewNode, FillsUp, WriteNode, Put,
           OpenedSector, CreateAt;
      ghost var size := node.Len();
      NewNodeParts(key, value);
      ghost var stages := [Headless(sec), Partial(node, 0)];
      // `write_align` makes no storage call for an empty buffer.
      if key != [] {
        AppendNode(kvAddr + KV_HDR, key, i, sec, Partial(node, 0), node, 20);
        WriteNodeSnoc(d0, i, size, stages, Partial(node, |key|));
        stages := stages + [Partial(node, |key|)];
      }
      assert Writing(i, sec, Partial(node, |key|), node, 20 + |key|);
      if value != [] {
        AppendNode(kvAddr + KV_HDR + |key|, value, i, sec, Partial(node, |key|), node, 20 + |key|);
        WriteNodeSnoc(d0, i, size, stages, Partial(node, |node.data|));
        stages := stages + [Partial(node, |node.data|)];
      }
      assert Writing(i, sec, Partial(node, |node.data|), node, 20 + |node.data|);
      assert db == WriteNode(d0, i, size, stages);
      assert node.(st := Write) == node;
      EndNode(kvAddr, i, sec, node);
      WriteNodeSnoc(d0, i, size, stages, node);
      CreateAtIs(d0, i, node, stages);
    }

    method SetRequest(on: bool)
      requires Valid()
      modifies `gcRequest, `db
      ensures Valid() && db == old(db).(gcRequest := on)
    {
      hide Base, FlashAt, AllShow;
      gcRequest := on;
      db := db.(gcRequest := on);
    }

    /** `create_kv_blob` in sector `i`, which has been allocated. */
    method CreateKvBlob(sector: SecInfo, key: seq<byte>, value: seq<byte>, ghost i: nat) returns (r: Outcome)
      requires Valid() && Allotted(sector, db, i)
      requires NodeSize(key, value) < 0x1_0000_0000
      requires NodeSize(key, value) + SECTOR_HDR <= secSize ==>
                 SECTOR_HDR + Used(db.flash[i].nodes) + NodeSize(key, value) <= secSize
      modifies storage, `db, `gcRequest
      ensures Valid()
      ensures db == CreateChecked(old(db), i, key, value).db && r == CreateChecked(old(db), i, key, value).outcome
    {
      hide Base, SectorAt, FlashAt, AllShow, Used, NodeCrc, NewNode, FillsUp, WriteNode, OpenedSector, CreateAt, Rewrite, OpenSteps, Remain,
           CreateChecked, Extends;
      CreateCases(db, i, key, value);
      if |key| > KV_NAME_MAX {
        return Failed(KvNameErr);
      }
      var kvLen := NodeSize(key, value);
      if kvLen > secSize - SECTOR_HDR {
        return Failed(SavedFull);
      }
      var kvAddr := sector.emptyKv;
      OpenedNodes(db, i, kvLen);
      WriteNodeStart(db, i, kvLen);
      NewNodeParts(key, value);
      var isFull := UpdateSecStatus(sector, kvLen, i);
      WriteKv(kvAddr, key, value, i, old(db), OpenedSector(old(db), i, kvLen));
      if isFull {
        SetRequest(true);
      }
      r := Done;
    }

    // ---------------------------------------------------------- lookup

    /** The node loop of `find_kv_no_cache` in sector `i`. */
    method FindInSector(sector: SecInfo, key: seq<byte>, kv0: Kv, ghost i: nat) returns (found: bool, kv: Kv, ghost hit: Option<nat>)
      requires Valid() && InfoIs(sector, db, i) && Walkable(db.flash[i], secSize) && db.flash[i].store == Using
      requires |kv0.name| == KV_NAME_MAX
      modifies storage
      ensures Valid() && |kv.name| == KV_NAME_MAX
      ensures hit == FindNode(db.flash[i].nodes, key, 0) && found == hit.Some?
      ensures found ==> KvAt(kv, db.flash, secSize, i, hit.value)
    {
      hide Base, SectorAt, FlashAt, AllShow, Off, Part, Walkable, KvIs, Matches, SeenLen;
      WalkStarts(db.flash, secSize, i);
      BaseBound(i, |db.flash|, secSize);
      kv := kv0.(addrStart := sector.addr + SECTOR_HDR);
      ghost var j := 0;
      hit := None;
      while true
        invariant Valid() && 0 <= j < |db.flash[i].nodes|
        invariant Located(db.flash, secSize, i, j, kv.addrStart) && |kv.name| == KV_NAME_MAX
        invariant FindNode(db.flash[i].nodes, key, 0) == FindNode(db.flash[i].nodes, key, j)
        decreases |db.flash[i].nodes| - j
      {
        var r;
        kv, r := ReadKv(kv, i, j);
        KvMatches(kv, db.flash[i].nodes[j], key);
        if kv.crcOk && kv.status == Write && kv.nameLen == |key| && kv.name[..kv.nameLen] == key {
          return true, kv, Some(j);
        }
        var next := GetNextKvAddr(sector, kv, i, j);
        FindSkips(db.flash[i].nodes, key, j);
        j := NextSeen(db.flash[i].nodes, j + 1);
        if next == FAILED_ADDR {
          break;
        }
        kv := kv.(addrStart := next);
      }
      found := false;
    }

    /** `find_kv_no_cache` */
    method FindKv(key: seq<byte>) returns (found: bool, kv: Kv, ghost hit: Option<Loc>)
      requires Valid() && Scannable(db.flash, secSize)
      modifies storage
      ensures Valid()
      ensures hit == Find(db, key) && found == hit.Some?
      ensures found ==> KvAt(kv, db.flash, secSize, hit.value.sec, hit.value.node)
    {
      hide Base, FlashAt, AllShow, Walkable, FindNode, KvIs;
      kv, hit := BlankKv(), None;
      var secAddr: u32, traversedLen: u32 := oldestAddr, 0;
      ghost var k := 0;
      RingStart(db.oldest);
      while true
        invariant Valid() && OnRing(db.oldest, k, secAddr, traversedLen) && |kv.name| == KV_NAME_MAX
        invariant FindFrom(db.flash, db.oldest, key, k) == Find(db, key)
        decreases |db.flash| - k
      {
        ghost var i := RingPos(db.oldest, k, |db.flash|);
        RingBound(k);
        traversedLen := traversedLen + secSize;
        var sector, r := ReadSectorInfo(secAddr, false, i);
        SearchedReads(sector, db, i);
        if r == Done && (sector.store == Using || sector.store == Full) {
          var inSector;
          ghost var node;
          inSector, kv, node := FindInSector(sector, key, kv, i);
          if inSector {
            return true, kv, Some(Loc(i, node.value));
          }
        }
        RingNext(db.oldest, k, sector);
        var next := GetNextSectorAddr(sector, traversedLen);
        if next == FAILED_ADDR {
          break;
        }
        secAddr := next;
        k := k + 1;
      }
      found := false;
    }

    // ---------------------------------------------------------- marking

    /** `del_kv` for the node at `addrStart`: its status, then the sector's dirty flag. */
    method MarkKv(addrStart: u32, complete: bool, ghost i: nat, ghost j: nat)
      requires Valid() && Located(db.flash, secSize, i, j, addrStart) && db.flash[i].nodes[j].Node?
      requires StIndex(db.flash[i].nodes[j].st) <= if complete then StIndex(Deleted) else StIndex(PreDelete)
      modifies storage, `db
      ensures Valid() && db == MarkDel(old(db), i, j, complete)
    {
      hide Base, SectorAt, FlashAt, AllShow, Off, Code, Overwrite, Part, Put, Rewrite, MarkNode;
      ghost var st := if complete then Deleted else PreDelete;
      ghost var sec := db.flash[i];
      ghost var o := SECTOR_HDR + Off(sec.nodes, j);
      PartAt(storage.mem, db.flash, secSize, i);
      NodeStatus(Part(storage.mem, i, secSize), sec, j, st);
      NodeByte(Part(storage.mem, i, secSize), sec, j);
      CodesNest(StIndex(sec.nodes[j].st), StIndex(st));
      ProgramStatus(addrStart, KV_STATUS_NUM, if complete then StIndex(Deleted) else StIndex(PreDelete), i, o, MarkNode(sec, j, st));
      MarkHead(sec, j, st);
      PutAt(old(db), i, MarkNode(sec, j, st));
      MarkDirty(addrStart, i, o);
      RewriteOne(old(db), i, MarkNode(sec, j, st));
      RewriteTwo(old(db), i, MarkNode(sec, j, st), MarkNode(sec, j, st).(dirty := True));
    }

    /** The second half of `del_kv`: the dirty flag of the sector that address `addr` lies in. */
    method MarkDirty(addr: u32, ghost i: nat, ghost o: nat)
      requires Valid() && i < |db.flash| && db.flash[i].Sector? && addr == Base(i, secSize) + o && o < secSize
      modifies storage, `db
      ensures Valid()
      ensures db == if old(db.flash[i]).dirty == False then Put(old(db), i, old(db.flash[i]).(dirty := True)) else old(db)
    {
      hide Base, SectorAt, FlashAt, AllShow, Code, Overwrite, Part, Put;
      ghost var sec := db.flash[i];
      AlignDown(addr, i, secSize, o);
      BaseBound(i, |db.flash|, secSize);
      var dirtyStatusAddr := addr / secSize * secSize + 1;
      PartAt(storage.mem, db.flash, secSize, i);
      HeadByte(Part(storage.mem, i, secSize), sec);
      PartByte(storage.mem, i, secSize, 1);
      CodeIsTable(DIRTY_STATUS_NUM, DirtyIndex(sec.dirty));
      var dirty := ReadStatus(storage, dirtyStatusAddr, DIRTY_STATUS_NUM);
      if dirty == DirtyIndex(False) {
        HeaderField(Part(storage.mem, i, secSize), sec, sec.store, True);
        CodesNest(1, 2);
        ProgramStatus(dirtyStatusAddr, DIRTY_STATUS_NUM, DirtyIndex(True), i, 1, sec.(dirty := True));
      }
    }

    /** `del_kv` */
    method DelKv(key: seq<byte>, oldKv: Option<Kv>, complete: bool, ghost i: nat, ghost j: nat) returns (r: Outcome)
      requires Valid() && Scannable(db.flash, secSize)
      requires oldKv.Some? ==>
        && Located(db.flash, secSize, i, j, oldKv.value.addrStart) && db.flash[i].nodes[j].Node?
        && StIndex(db.flash[i].nodes[j].st) <= if complete then StIndex(Deleted) else StIndex(PreDelete)
      modifies storage, `db
      ensures Valid()
      ensures oldKv.Some? ==> r == Done && db == MarkDel(old(db), i, j, complete)
      ensures oldKv.None? ==>
                var hit := Find(old(db), key);
                if hit.None? then r == Failed(KvNameErr) && db == old(db)
                else r == Done && db == MarkDel(old(db), hit.value.sec, hit.value.node, complete)
    {
      hide Base, FlashAt, AllShow, AllIntact, Scannable, KvIs, Find, MarkDel, NodeCrc, Off;
      if oldKv.Some? {
        MarkKv(oldKv.value.addrStart, complete, i, j);
      } else {
        var found, kv;
        ghost var hit;
        found, kv, hit := FindKv(key);
        if !found {
          return Failed(KvNameErr);
        }
        FoundLive(db, key);
        MarkKv(kv.addrStart, complete, hit.value.sec, hit.value.node);
      }
      r := Done;
    }

    // ---------------------------------------------------------- moving

    /** The copy loop of `move_kv_body`. */
    method CopyChunks(kv: Kv, kvAddr: u32, ghost i: nat, ghost j: nat, ghost t: nat, ghost d0: Db, ghost sec: Sector, ghost node: Node)
      requires Valid() && Formatted(d0, t) && d0.secSize == secSize && node.Node? && sec == OpenedSector(d0, t, node.Len())
      requires KeepsSource(d0.flash, secSize, i, j, kv.addrStart, node) && Sized(node) && kv.len == node.Len()
      requires Writing(t, sec, Headless(sec), node, 0)
      requires db == WriteNode(d0, t, node.Len(), [Headless(sec)]) && db.flash == d0.flash[t := Hold(sec, Headless(sec))]
      requires kvAddr == Base(t, secSize) + SECTOR_HDR + Used(sec.nodes) && kvAddr + node.Len() < 0x1_0000_0000
      modifies storage, `db
      ensures Valid()
      ensures db == WriteNode(d0, t, node.Len(), [Headless(sec)] + ChunkStages(node, 0))
      ensures db.flash == d0.flash[t := Hold(sec, Partial(node, |node.data|))]
    {
      hide Base, SectorAt, FlashAt, AllShow, Used, Written, NodeCrc, Body, Partial, Headless, WriteNode, Put, OpenedSector,
           Part, ChunkStages, KeepsSource;
      OpenedNodes(d0, t, node.Len());
      var kvLen := kv.len - 4;
      var len := 0;
      ghost var stages, p := [Headless(sec)], Headless(sec);
      while len < kvLen
        invariant Valid() && (len == 0 || 20 <= len <= kvLen)
        invariant Writing(t, sec, p, node, len) && (len > 0 ==> p == Partial(node, len - 20))
        invariant db == WriteNode(d0, t, node.Len(), stages)
        invariant db.flash == d0.flash[t := Hold(sec, p)]
        invariant stages + ChunkStages(node, len) == [Headless(sec)] + ChunkStages(node, 0)
      {
        var n := if 32 < kvLen - len then 32 else kvLen - len;
        ghost var q := Partial(node, len + n - 20);
        KeepsAdded(d0.flash, secSize, i, j, kv.addrStart, node, t, Hold(sec, p), [p]);
        SourceReads(storage.mem, db.flash, secSize, i, j, kv.addrStart, node, len, n);
        var buf := storage.Read(kv.addrStart + 4 + len, n);
        ChunkStep(node, len, n, stages, [Headless(sec)] + ChunkStages(node, 0));
        WriteNodeSnoc(d0, t, node.Len(), stages, q);
        PutPut(d0.flash, t, Hold(sec, p), Hold(sec, q));
        PutFlash(db, t, Hold(sec, q));
        AppendNode(kvAddr + 4 + len, buf.value, t, sec, p, node, len);
        stages, p, len := stages + [q], q, len + n;
      }
      ChunksEnd(node);
      assert stages + ChunkStages(node, len) == stages;
    }

    /** `move_kv_body`: the node at `kv.addrStart` is copied to the end of sector `t`. */
    method MoveKvBody(kv: Kv, sector: SecInfo, kvAddr: u32, ghost i: nat, ghost j: nat, ghost t: nat, ghost node: Node)
      requires Valid() && Allotted(sector, db, t)
      requires KeepsSource(db.flash, secSize, i, j, kv.addrStart, node) && Intact(node) && kv.len == node.Len()
      requires SECTOR_HDR + Used(db.flash[t].nodes) + node.Len() <= secSize && kvAddr == sector.emptyKv
      modifies storage, `db
      ensures Valid() && db == CopyTo(old(db), t, node)
      ensures KeepsSource(db.flash, secSize, i, j, kv.addrStart, node)
    {
      hide Base, SectorAt, FlashAt, AllShow, Used, Written, NodeCrc, Body, Partial, Headless, WriteNode, Put, Rewrite, OpenSteps, FillsUp,
           Part, ChunkStages, OpenedSector, CopyTo, Remain, KeepsSource;
      ghost var d0 := db;
      ghost var size := node.Len();
      ghost var sec := OpenedSector(db, t, size);
      ghost var done := node.(st := Write);
      OpenedNodes(d0, t, size);
      BaseBound(t, |d0.flash|, secSize);
      var _ := UpdateSecStatus(sector, kv.len, t);
      WriteNodeStart(d0, t, size);
      BeginNode(kvAddr, t, sec, node);
      WriteNodeSnoc(d0, t, size, [], Headless(sec));
      assert [] + [Headless(sec)] == [Headless(sec)];
      PutPut(d0.flash, t, sec, Hold(sec, Headless(sec)));
      PutFlash(WriteNode(d0, t, size, []), t, Hold(sec, Headless(sec)));
      CopyChunks(kv, kvAddr, i, j, t, d0, sec, node);
      ghost var stages := [Headless(sec)] + ChunkStages(node, 0);
      WriteNodeSnoc(d0, t, size, stages, done);
      CopyToIs(d0, t, node, stages);
      PutFlash(db, t, Hold(sec, done));
      PutPut(d0.flash, t, Hold(sec, Partial(node, |node.data|)), Hold(sec, done));
      KeepsAdded(d0.flash, secSize, i, j, kv.addrStart, node, t, Hold(sec, done), [done]);
      EndNode(kvAddr, t, sec, node);
    }

    /** `move_kv` for the node that was read as `kv`. */
    method MoveNode(kv: Kv, ghost i: nat, ghost j: nat) returns (r: Outcome)
      requires Ready() && KvAt(kv, db.flash, secSize, i, j) && Carrier(db.flash[i].nodes[j])
      modifies storage, `db, `gcRequest
      ensures Valid() && db == MoveKv(old(db), i, j).db
      ensures r == if MoveKv(old(db), i, j).ok then Done else Failed(SavedFull)
    {
      hide Base, FlashAt, AllShow, AllIntact, Scannable, AllShowEnd, NodeCrc, Off, MarkDel, AllocKv, CopyTo, Find, KeepsScan, KeepsSource, ReadName,
           HasRoom, Measured, InfoIs, Used, KvIs, NodeAddr;
      ghost var node := db.flash[i].nodes[j];
      KvSource(kv, db.flash, secSize, i, j);
      if kv.status == Write {
        MarkScans(db, i, j, false);
        MarkKeeps(db, i, j, false, secSize, kv.addrStart, node);
        MarkKv(kv.addrStart, false, i, j);
        KeptScan(old(db.flash), db.flash, secSize);
      }
      SourceLocated(db.flash, secSize, i, j, kv.addrStart, node);
      var kvAddr, sector;
      ghost var t;
      ShowingMeasures(db.flash);
      ApparentSame(db);
      kvAddr, sector, t := Allocate(kv.len);
      ApparentSame(db);
      if t.Some? {
        RoomFits(db, kv.len, t.value);
        InfoAllots(sector, db, t.value);
      }
      if kvAddr == FAILED_ADDR {
        return Failed(SavedFull);
      }
      if inRecoveryCheck && kv.status == PreDelete {
        var found, kvBak;
        ghost var hit;
        found, kvBak, hit := FindKv(kv.name[..kv.nameLen]);
        if found {
          MarkKv(kv.addrStart, true, i, j);
          return Done;
        }
      }
      MoveKvBody(kv, sector, kvAddr, i, j, t.value, node);
      SourceLocated(db.flash, secSize, i, j, kv.addrStart, node);
      MarkKv(kv.addrStart, true, i, j);
      r := Done;
    }

    // ---------------------------------------------------------- garbage collection

    ghost predicate Collected(i: nat, n: nat)
      reads this, storage
    {
      && Ready() && Firm(db.flash) && (sound ==> AllIntact(db.flash))
      && i < |db.flash| && db.flash[i].Sector? && db.flash[i].store == Using && db.flash[i].dirty == Gc
      && |db.flash[i].nodes| == n
    }

    /** The loop body of `do_gc_one`: the node read as `kv` is moved if it still carries data. */
    method MoveIfCarrier(kv: Kv, ghost i: nat, ghost j: nat, ghost n: nat)
      requires Collected(i, n) && KvAt(kv, db.flash, secSize, i, j)
      modifies storage, `db, `gcRequest
      ensures Collected(i, n) && KvStands(kv, db.flash, secSize, i, j)
      ensures NoStray(old(db).flash) ==> NoStray(db.flash)
      ensures At(old(db), i, j) && old(db).oldest < |old(db).flash|
      ensures db == if Carrier(old(db).flash[i].nodes[j]) then MoveKv(old(db), i, j).db else old(db)
    {
      hide Base, FlashAt, AllShow, AllIntact, Scannable, AllShowEnd, NodeCrc, Off, KvIs, MoveKv, NoStray, Firm, Used, NodeAddr;
      KvCarries(kv, db.flash, secSize, i, j);
      ghost var d := db;
      if kv.crcOk && (kv.status == Write || kv.status == PreDelete) {
        VictimStays(db, i, j);
        MoveFirm(db, i, j);
        var r := MoveNode(kv, i, j);
        KvStays(kv, d.flash, db.flash, secSize, i, j);
      }
    }

    /** The node loop of `do_gc_one` over victim `i`. */
    method MoveCarriers(sector: SecInfo, ghost i: nat, ghost n: nat)
      requires Collected(i, n) && sector.addr == Base(i, secSize) && sector.store == Using
      modifies storage, `db, `gcRequest
      ensures Collected(i, n)
      ensures NoStray(old(db).flash) ==> NoStray(db.flash)
      ensures n == |old(db).flash[i].nodes| && db == GcNodes(old(db), i, 0, n)
    {
      hide Base, FlashAt, AllShow, AllIntact, Scannable, AllShowEnd, NodeCrc, Off, KvIs, MoveKv, NoStray, Firm, Used, GcNodes, Extends,
           Walkable, Intact, Followed;
      ScanAt(db.flash, secSize, i);
      WalkStarts(db.flash, secSize, i);
      BaseBound(i, |db.flash|, secSize);
      var kv := BlankKv().(addrStart := sector.addr + SECTOR_HDR);
      ghost var j := 0;
      while true
        invariant Collected(i, n) && 0 <= j < n && |kv.name| == KV_NAME_MAX
        invariant Located(db.flash, secSize, i, j, kv.addrStart)
        invariant GcNodes(db, i, j, n) == GcNodes(old(db), i, 0, n)
        invariant NoStray(old(db).flash) ==> NoStray(db.flash)
        decreases n - j
      {
        var r;
        kv, r := ReadKv(kv, i, j);
        GcNext(db, i, j, n);
        MoveIfCarrier(kv, i, j, n);
        ScanAt(db.flash, secSize, i);
        var next := GetNextKvAddr(sector, kv, i, j);
        GcSkips(db, i, j + 1, NextSeen(db.flash[i].nodes, j + 1), n);
        j := NextSeen(db.flash[i].nodes, j + 1);
        if next == FAILED_ADDR {
          GcNone(db, i, n);
          break;
        }
        kv := kv.(addrStart := next);
      }
    }

    /** Every sector can be walked. */
    ghost predicate Legible()
      reads this, storage
    {
      Valid() && Scannable(db.flash, secSize) && (sound ==> AllIntact(db.flash))
    }

    /** Stray bytes are in the way of no collection. */
    ghost predicate Clean()
      reads this, storage
    {
      Legible() && Firm(db.flash)
    }

    /** Sector `i` becomes the victim of a collection. */
    method MarkVictim(sector: SecInfo, ghost i: nat)
      requires Clean() && InfoIs(sector, db, i) && db.flash[i].Sector? && (db.flash[i].dirty == True || db.flash[i].dirty == Gc)
      modifies storage, `db
      ensures db == Rewrite(old(db), i, [old(db).flash[i].(dirty := Gc)])
      ensures i < |old(db).flash| && Collected(i, |old(db).flash[i].nodes|)
      ensures NoStray(old(db).flash) ==> NoStray(db.flash)
    {
      hide Base, FlashAt, AllShow, AllIntact, Scannable, AllShowEnd, NoStray, Firm, SectorAt, Part, Code, Overwrite, Put, Rewrite;
      BaseBound(i, |db.flash|, secSize);
      VictimScans(db.flash, secSize, i);
      VictimFirm(db.flash, i);
      PartAt(storage.mem, db.flash, secSize, i);
      HeadByte(Part(storage.mem, i, secSize), db.flash[i]);
      HeaderField(Part(storage.mem, i, secSize), db.flash[i], db.flash[i].store, Gc);
      CodesNest(DirtyIndex(db.flash[i].dirty), 3);
      PutFlash(db, i, db.flash[i].(dirty := Gc));
      RewriteOne(db, i, db.flash[i].(dirty := Gc));
      ProgramStatus(sector.addr + 1, DIRTY_STATUS_NUM, DirtyIndex(Gc), i, 1, db.flash[i].(dirty := Gc));
    }

    /** The sector after the collected one becomes the oldest. */
    method AdvanceOldest(sector: SecInfo, ghost i: nat)
      requires Clean() && i < |db.flash| && sector.addr == Base(i, secSize) && sector.combined == NOT_COMBINED
      modifies `db, `oldestAddr
      ensures Clean() && db == old(db).(oldest := Next(i, |old(db).flash|))
    {
      hide Base, FlashAt, AllShow, AllIntact, Scannable, Firm;
      RingTurn(i, sector);
      oldestAddr := GetNextSectorAddr(sector, 0);
      db := db.(oldest := Next(i, |db.flash|));
    }

    /** `do_gc_one` for sector `i`. */
    method DoGcOne(sector: SecInfo, freeSize: nat, last0: u32, ghost i: nat, ghost lastSec: nat)
      returns (stop: bool, last: u32)
      requires Clean() && InfoIs(sector, db, i) && lastSec < |db.flash| && last0 == Base(lastSec, secSize)
      modifies storage, `db, `gcRequest, `oldestAddr
      ensures Clean() && db == GcSector(old(db), i, freeSize, lastSec).db
      ensures stop == GcSector(old(db), i, freeSize, lastSec).stop
      ensures last == Base(GcSector(old(db), i, freeSize, lastSec).last, secSize)
      ensures NoStray(old(db).flash) ==> NoStray(db.flash)
    {
      hide Base, FlashAt, AllShow, AllIntact, Scannable, AllShowEnd, NoStray, Firm, GcNodes, Remain, Rewrite, Format;
      last := last0;
      if !(sector.checkOk && (sector.dirty == True || sector.dirty == Gc)) {
        return false, last;
      }
      MarkVictim(sector, i);
      MoveCarriers(sector, i, |db.flash[i].nodes|);
      FormatScans(db, i);
      FormatFirm(db, i);
      FormatKeepsRest(db, i);
      FormatSector(sector.addr, i);
      var prev := last;
      last := sector.addr;
      RemainIgnoresOldest(db, lastSec);
      AdvanceOldest(sector, i);
      FirmShows(db.flash);
      MaybeWalkable(db.flash, secSize, lastSec);
      EndAt(db.flash, lastSec);
      var lastGcSector, r := ReadSectorInfo(prev, true, lastSec);
      stop := r == Done && lastGcSector.remain > freeSize;
    }

    lemma RingTurn(i: nat, info: SecInfo)
      requires Valid() && i < |db.flash| && info.addr == Base(i, secSize) && info.combined == NOT_COMBINED
      ensures GetNextSectorAddr(info, 0) == Base(Next(i, |db.flash|), secSize) < 0x1_0000_0000
    {
      hide Base, FlashAt, AllShow;
      BaseNext(i, secSize);
      BaseNext(0, secSize);
      BaseBound(0, |db.flash|, secSize);
      BaseBound(i, |db.flash|, secSize);
      if i + 1 < |db.flash| {
        BaseBound(i + 1, |db.flash|, secSize);
      }
    }

    /** The first walk of `gc_collect_by_free_size`: how many sectors are empty, and where the last one is. */
    method LastEmptySector() returns (num: nat, addr: u32)
      requires Valid()
      modifies storage
      ensures Valid()
      ensures num == Count(db.flash, Empty) && addr == Base(LastEmpty(db.flash, db.oldest, |db.flash|), secSize)
      ensures storage.mem == old(storage.mem) && storage.history == old(storage.history)
    {
      hide Base, FlashAt, AllShow, HasStore;
      num, addr := 0, 0;
      var secAddr: u32, traversedLen: u32 := oldestAddr, 0;
      ghost var k := 0;
      RingStart(db.oldest);
      BaseNext(0, secSize);
      while true
        invariant Valid() && OnRing(db.oldest, k, secAddr, traversedLen)
        invariant num == CountRing(db.flash, Empty, db.oldest, k)
        invariant addr == Base(LastEmpty(db.flash, db.oldest, k), secSize)
        invariant storage.mem == old(storage.mem) && storage.history == old(storage.history)
        decreases |db.flash| - k
      {
        RingBound(k);
        traversedLen := traversedLen + secSize;
        var s, r := ReadSectorInfo(secAddr, false, RingPos(db.oldest, k, |db.flash|));
        InfoStore(s, db, RingPos(db.oldest, k, |db.flash|));
        if s.store == Empty && s.checkOk {
          num := num + 1;
          addr := s.addr;
        }
        RingNext(db.oldest, k, s);
        var next := GetNextSectorAddr(s, traversedLen);
        if next == FAILED_ADDR {
          break;
        }
        secAddr := next;
        k := k + 1;
      }
      CountRingAll(db.flash, Empty, db.oldest);
    }

    /** `gc_collect_by_free_size` */
    method CollectGarbage(freeSize: nat)
      requires Clean()
      modifies storage, `db, `gcRequest, `oldestAddr
      ensures Clean() && db == GcCollect(old(db), freeSize)
      ensures NoStray(old(db).flash) ==> NoStray(db.flash)
    {
      hide Base, FlashAt, AllShow, AllIntact, Scannable, AllShowEnd, NoStray, Firm, GcSector, CountStore, InfoIs;
      var emptyNum, emptyAddr := LastEmptySector();
      if emptyNum <= 1 {
        var last := emptyAddr;
        ghost var lastSec: nat := LastEmpty(db.flash, db.oldest, |db.flash|);
        ghost var start := db.oldest;
        var secAddr: u32, traversedLen: u32 := oldestAddr, 0;
        ghost var k := 0;
        RingStart(start);
        while true
          invariant Clean() && OnRing(start, k, secAddr, traversedLen)
          invariant NoStray(old(db).flash) ==> NoStray(db.flash)
          invariant lastSec < |db.flash| && last == Base(lastSec, secSize)
          invariant GcFrom(db, start, k, freeSize, lastSec)
                 == GcFrom(old(db), start, 0, freeSize, LastEmpty(old(db).flash, start, |old(db).flash|))
          decreases |db.flash| - k
        {
          ghost var i := RingPos(start, k, |db.flash|);
          RingBound(k);
          traversedLen := traversedLen + secSize;
          var s, r := ReadSectorInfo(secAddr, false, i);
          RingNext(start, k, s);
          ghost var step := GcSector(db, i, freeSize, lastSec);
          var stop;
          stop, last := DoGcOne(s, freeSize, last, i, lastSec);
          if stop {
            break;
          }
          lastSec := step.last;
          var next := GetNextSectorAddr(s, traversedLen);
          if next == FAILED_ADDR {
            break;
          }
          secAddr := next;
          k := k + 1;
        }
      }
      SetRequest(false);
    }

    /** `gc_collect` */
    method CollectAll()
      requires Clean()
      modifies storage, `db, `gcRequest, `oldestAddr
      ensures Clean() && db == GcCollect(old(db), Base(|old(db).flash|, secSize))
      ensures NoStray(old(db).flash) ==> NoStray(db.flash)
    {
      CollectGarbage(maxSize);
    }

    /** Room for `size` bytes is found at once, or collecting is safe. */
    ghost predicate Roomy(size: nat)
      reads this, storage
    {
      && Legible() && AllMeasurable(db.flash)
      && (AllocKv(ApparentLog(db), size).sec.Some?
          || (AllShowEnd(db.flash) && (Firm(db.flash) || !AsksForRoom(db, size))))
    }

    /** `new_kv`: allocate; when that asks for a collection, collect and try once more. */
    method NewNodeAddr(kvSize: nat) returns (emptyKv: u32, sector: SecInfo, ghost sec: Option<nat>)
      requires Roomy(kvSize)
      modifies storage, `db, `gcRequest, `oldestAddr
      ensures Legible() && AllMeasurable(db.flash)
      ensures AllShowEnd(old(db).flash) ==>
                AllShowEnd(db.flash) && db == NewKv(old(db), kvSize).db && sec == NewKv(old(db), kvSize).sec
      ensures AllocKv(ApparentLog(old(db)), kvSize).sec.Some? ==>
                db == old(db) && sec == AllocKv(ApparentLog(old(db)), kvSize).sec
      ensures NoStray(old(db).flash) ==> NoStray(db.flash)
      ensures sec.None? <==> emptyKv == FAILED_ADDR
      ensures sec.Some? ==> InfoIs(sector, db, sec.value) && Measured(sector, ApparentLog(db), sec.value)
    {
      hide Base, FlashAt, AllShow, AllIntact, Scannable, AllShowEnd, AllMeasurable, ApparentLog, NoStray, Firm, AllocKv, GcCollect, HasRoom, InfoIs, Measured, Used;
      var alreadyGc := false;
      if AllShowEnd(db.flash) {
        ApparentSame(db);
      }
      while true
        invariant Legible() && AllMeasurable(db.flash)
        invariant AllShowEnd(old(db).flash) ==> AllShowEnd(db.flash)
        invariant NoStray(old(db).flash) ==> NoStray(db.flash)
        invariant if alreadyGc
                  then var a := AllocKv(old(db), kvSize);
                    AllShowEnd(old(db).flash) && a.sec.None? && a.db.gcRequest && db == GcCollect(a.db, kvSize)
                  else db == old(db)
        decreases !alreadyGc
      {
        ghost var d := db;
        if AllShowEnd(db.flash) {
          ApparentSame(db);
        }
        emptyKv, sector, sec := Allocate(kvSize);
        if emptyKv != FAILED_ADDR {
          return;
        }
        if gcRequest && !alreadyGc {
          CollectGarbage(kvSize);
          FirmShows(db.flash);
          ShowingMeasures(db.flash);
          alreadyGc := true;
        } else {
          if alreadyGc {
            SetRequest(false);
          }
          return;
        }
      }
    }

    // ---------------------------------------------------------- replacing

    /** The image also shows sector `i` without the last byte of its last record. */
    ghost method ClipSector(i: nat)
      requires Valid() && i < |db.flash| && Clippable(db.flash[i])
      modifies `db
      ensures Valid() && db == Put(old(db), i, Clip(old(db).flash[i]))
    {
      hide Base, FlashAt, AllShow, Clippable, Clip;
      ClippableLast(db.flash[i]);
      ClipFlash(storage.mem, db.flash, secSize, i);
      ShowsLonger(storage.history, db.log, secSize, db.flash[i := Clip(db.flash[i])]);
      db := Put(db, i, Clip(db.flash[i]));
    }

    /** The part of `set_kv` after allocation. */
    method ReplaceKv(sector: SecInfo, key: seq<byte>, value: seq<byte>, ghost t: nat) returns (r: Outcome)
      requires Legible() && Allotted(sector, ApparentLog(db), t)
      requires NodeSize(key, value) < 0x1_0000_0000 && HasSpace(ApparentLog(db), t, NodeSize(key, value))
      requires EndShows(db.flash[t]) || (Clippable(db.flash[t]) && Find(db, key).None? && |key| <= KV_NAME_MAX)
      modifies storage, `db, `gcRequest
      ensures Legible()
      ensures NoStray(old(db).flash) ==> NoStray(db.flash)
      ensures Formatted(old(db), t)
      ensures db == Behind(old(db), t, key, value).db && r == Behind(old(db), t, key, value).outcome
    {
      hide Base, FlashAt, AllShow, AllIntact, Scannable, NoStray, Allotted, MarkDel, CreateChecked, NodeCrc, Find, Used, KeepsScan, Extends,
           Located, KvIs, NodeAddr, HasSpace, KeepsSource, EndShows, Clippable, Clip, ApparentLog;
      ApparentAllots(sector, db, t, NodeSize(key, value));
      var found, curKv;
      ghost var hit;
      found, curKv, hit := FindKv(key);
      if !found {
        r := CreateNew(sector, key, value, t);
        return;
      }
      AllotFits(sector, db, t, NodeSize(key, value));
      ghost var i, j := hit.value.sec, hit.value.node;
      FoundSource(curKv, db, key, secSize);
      ghost var node := db.flash[i].nodes[j];
      AllotMarked(sector, db, t, hit.value, false);
      MarkScans(db, i, j, false);
      MarkKeeps(db, i, j, false, secSize, curKv.addrStart, node);
      r := DelKv(key, Some(curKv), false, i, j);
      ghost var d1 := db;
      StraysKept(old(db).flash, d1.flash, secSize, true);
      AllotFits(sector, d1, t, NodeSize(key, value));
      CreateScans(d1, t, key, value);
      CreateKeeps(d1, t, key, value, i, j, secSize, curKv.addrStart, node);
      r := CreateKvBlob(sector, key, value, t);
      StraysKept(d1.flash, db.flash, secSize, false);
      if r == Done {
        ghost var d2 := db;
        SourceLocated(db.flash, secSize, i, j, curKv.addrStart, node);
        SourceIntact(db.flash, secSize, i, j, curKv.addrStart, node);
        MarkScans(db, i, j, true);
        r := DelKv(key, Some(curKv), true, i, j);
        StraysKept(d2.flash, db.flash, secSize, true);
      }
    }

    /** The same for a key that has no record yet. */
    method CreateNew(sector: SecInfo, key: seq<byte>, value: seq<byte>, ghost t: nat) returns (r: Outcome)
      requires Legible() && Find(db, key).None? && Allotted(sector, ApparentLog(db), t)
      requires NodeSize(key, value) < 0x1_0000_0000 && HasSpace(ApparentLog(db), t, NodeSize(key, value))
      requires EndShows(db.flash[t]) || (Clippable(db.flash[t]) && |key| <= KV_NAME_MAX)
      modifies storage, `db, `gcRequest
      ensures Legible()
      ensures NoStray(old(db).flash) ==> NoStray(db.flash)
      ensures Formatted(old(db), t)
      ensures db == Behind(old(db), t, key, value).db && r == Behind(old(db), t, key, value).outcome
    {
      hide Base, FlashAt, AllShow, AllIntact, Scannable, NoStray, Allotted, CreateChecked, NodeCrc, Find, Used, KeepsScan, Extends,
           HasSpace, EndShows, Clippable, Clip, ApparentLog;
      ApparentAllots(sector, db, t, NodeSize(key, value));
      if EndShows(db.flash[t]) {
        AllotFits(sector, db, t, NodeSize(key, value));
        CreateScans(db, t, key, value);
      } else {
        ClipScans(db, t, key, value);
        NotShowing(db.flash, t);
        ClipSector(t);
        ClipAllots(sector, old(db), t, NodeSize(key, value));
        AllotFits(sector, db, t, NodeSize(key, value));
      }
      ghost var d := db;
      r := CreateKvBlob(sector, key, value, t);
      if EndShows(old(db).flash[t]) {
        StraysKept(d.flash, db.flash, secSize, false);
      }
    }

    // ---------------------------------------------------------- recovery

    /** A log that recovery can work on. */
    ghost predicate Mendable()
      reads this, storage
    {
      && Valid() && Scannable(db.flash, secSize) && Recoverable(db.flash)
      && (sound ==> AllIntact(db.flash))
    }

    /** Mark the torn node `j` of sector `i` erroneous. */
    method AbandonKv(kv: Kv, ghost i: nat, ghost j: nat)
      requires Mendable() && KvStands(kv, db.flash, secSize, i, j)
      requires db.flash[i].nodes[j].Node? && db.flash[i].nodes[j].st == PreWrite
      modifies storage, `db
      ensures Mendable() && i < |old(db).flash| && old(db).flash[i].Sector? && j < |old(db).flash[i].nodes|
      ensures db == Rewrite(old(db), i, [MarkNode(old(db).flash[i], j, ErrHdr)])
      ensures (NoStray(old(db).flash) ==> NoStray(db.flash)) && (Firm(old(db).flash) ==> Firm(db.flash))
    {
      hide Base, FlashAt, AllShow, AllIntact, Scannable, NoStray, Firm, Recoverable, SectorAt, Part, Code, Overwrite, Put, Rewrite, MarkNode, Off, NodeCrc, KeepsScan;
      PartAt(storage.mem, db.flash, secSize, i);
      NodeStatus(Part(storage.mem, i, secSize), db.flash[i], j, ErrHdr);
      NodeByte(Part(storage.mem, i, secSize), db.flash[i], j);
      CodesNest(1, 5);
      AbandonScans(db, i, j);
      PutFlash(db, i, MarkNode(db.flash[i], j, ErrHdr));
      RewriteOne(db, i, MarkNode(db.flash[i], j, ErrHdr));
      StraysKept(db.flash, Put(db, i, MarkNode(db.flash[i], j, ErrHdr)).flash, secSize, true);
      ProgramStatus(kv.addrStart, KV_STATUS_NUM, StIndex(ErrHdr), i, SECTOR_HDR + Off(db.flash[i].nodes, j), MarkNode(db.flash[i], j, ErrHdr));
    }

    /** `recover_one_kv`; tells whether the pass is to stop. */
    method RecoverOneKv(kv: Kv, ghost i: nat, ghost j: nat) returns (stop: bool)
      requires Mendable() && KvAt(kv, db.flash, secSize, i, j)
      modifies storage, `db, `gcRequest
      ensures Mendable()
      ensures (NoStray(old(db).flash) ==> NoStray(db.flash)) && (Firm(old(db).flash) ==> Firm(db.flash))
      ensures At(old(db), i, j) && db == RecoverNode(old(db), i, j).db && stop == RecoverNode(old(db), i, j).stop
    {
      hide Base, FlashAt, AllShow, AllIntact, Scannable, NoStray, Firm, Recoverable, NodeCrc, KeepsScan, MoveKv, Extends, KvIs, NodeAddr, Rewrite;
      RecoverReads(kv, db.flash, secSize, i, j);
      if kv.crcOk && kv.status == PreDelete {
        PendingShows(db.flash, i, j);
        MoveRecoverable(db, i, j);
        MoveScans(db, i, j);
        if Firm(db.flash) {
          MoveFirm(db, i, j);
        }
        ghost var f := db.flash;
        var r := MoveNode(kv, i, j);
        StraysKept(f, db.flash, secSize, r != Done);
        stop := r != Done;
      } else if kv.status == PreWrite {
        AbandonKv(kv, i, j);
        stop := true;
      } else {
        stop := false;
      }
    }

    /** The node loop of `recover_kvs_pass` in sector `i`. */
    method RecoverInSector(sector: SecInfo, ghost i: nat) returns (stop: bool)
      requires Mendable() && InfoIs(sector, db, i) && Searched(db.flash[i])
      modifies storage, `db, `gcRequest
      ensures Mendable()
      ensures i < |old(db).flash| && Formatted(old(db), i)
      ensures (NoStray(old(db).flash) ==> NoStray(db.flash)) && (Firm(old(db).flash) ==> Firm(db.flash))
      ensures db == RecoverNodes(old(db), i, 0).db && stop == RecoverNodes(old(db), i, 0).stop
    {
      hide Base, FlashAt, AllShow, AllIntact, Scannable, NoStray, Firm, Recoverable, RecoverNode, RecoverNodes, Extends, KvIs, NodeAddr, Off, Intact;
      SearchedReads(sector, db, i) by { ScanAt(db.flash, secSize, i); }
      WalkStarts(db.flash, secSize, i);
      BaseBound(i, |db.flash|, secSize);
      var kv := BlankKv().(addrStart := sector.addr + SECTOR_HDR);
      ghost var j := 0;
      while true
        invariant Mendable() && At(db, i, j) && |kv.name| == KV_NAME_MAX
        invariant Located(db.flash, secSize, i, j, kv.addrStart)
        invariant RecoverNodes(db, i, j) == RecoverNodes(old(db), i, 0)
        invariant (NoStray(old(db).flash) ==> NoStray(db.flash)) && (Firm(old(db).flash) ==> Firm(db.flash))
        decreases PendingFrom(db.flash[i].nodes, j), |db.flash[i].nodes| - j
      {
        var r;
        kv, r := ReadKv(kv, i, j);
        ghost var d := db;
        RecoverOn(db, i, j);
        stop := RecoverOneKv(kv, i, j);
        if stop {
          return;
        }
        RecoverNodeSettles(d, i, j);
        KvStaysOn(kv, d, db, secSize, i, j);
        ScanAt(db.flash, secSize, i);
        WalkStarts(db.flash, secSize, i);
        var next := GetNextKvAddr(sector, kv, i, j);
        PendingDrops(db.flash[i].nodes, j + 1, NextSeen(db.flash[i].nodes, j + 1));
        j := NextSeen(db.flash[i].nodes, j + 1);
        if next == FAILED_ADDR {
          RecoverEnds(db, i);
          return;
        }
        kv := kv.(addrStart := next);
      }
    }

    /** `recover_kvs_pass` */
    method RecoverKvsPass()
      requires Mendable()
      modifies storage, `db, `gcRequest
      ensures Mendable() && db == RecoverPass(old(db), 0)
      ensures (NoStray(old(db).flash) ==> NoStray(db.flash)) && (Firm(old(db).flash) ==> Firm(db.flash))
    {
      hide Base, FlashAt, AllShow, AllIntact, Scannable, NoStray, Firm, Recoverable, RecoverNodes, Extends, InfoIs, Searched;
      var secAddr: u32, traversedLen: u32 := oldestAddr, 0;
      ghost var k := 0;
      RingStart(db.oldest);
      while true
        invariant Mendable() && OnRing(db.oldest, k, secAddr, traversedLen)
        invariant RecoverPass(db, k) == RecoverPass(old(db), 0)
        invariant (NoStray(old(db).flash) ==> NoStray(db.flash)) && (Firm(old(db).flash) ==> Firm(db.flash))
        decreases |db.flash| - k
      {
        ghost var i := RingPos(db.oldest, k, |db.flash|);
        RingBound(k);
        traversedLen := traversedLen + secSize;
        var s, r := ReadSectorInfo(secAddr, false, i);
        RingNext(db.oldest, k, s);
        SearchedReads(s, db, i);
        PassStep(db, k);
        if r == Done && (s.store == Using || s.store == Full) {
          ExtendsLength(db.flash, RecoverNodes(db, i, 0).db.flash);
          var stop := RecoverInSector(s, i);
          if stop {
            return;
          }
        }
        var next := GetNextSectorAddr(s, traversedLen);
        if next == FAILED_ADDR {
          break;
        }
        secAddr := next;
        k := k + 1;
      }
    }

    // ---------------------------------------------------------- opening

    /** `find_oldest_addr` */
    method FindOldestAddr()
      requires Valid()
      modifies storage, `db, `oldestAddr
      ensures Valid() && db == old(db).(oldest := FindOldest(old(db).flash)) && LogBegins(db.flash, db.oldest)
      ensures storage.mem == old(storage.mem) && storage.history == old(storage.history)
    {
      hide Base, FlashAt, AllShow;
      oldestAddr := 0;
      db := db.(oldest := 0);
      BaseNext(0, secSize);
      var sectorOldestAddr, lastStatus := 0, StoreStatus.Unused;
      ghost var found: nat := 0;
      var secAddr: u32, traversedLen: u32 := 0, 0;
      ghost var k := 0;
      RingStart(0);
      while true
        invariant Valid() && OnRing(0, k, secAddr, traversedLen) && found < |db.flash|
        invariant db == old(db).(oldest := 0)
        invariant sectorOldestAddr == Base(found, secSize)
        invariant OldestFrom(db.flash, k, lastStatus, found) == FindOldest(db.flash)
        invariant storage.mem == old(storage.mem) && storage.history == old(storage.history)
        decreases |db.flash| - k
      {
        RingBound(k);
        traversedLen := traversedLen + secSize;
        var s, r := ReadSectorInfo(secAddr, false, k);
        if lastStatus == Empty && (s.store == Full || s.store == Using) {
          sectorOldestAddr := s.addr;
          found := k;
        }
        lastStatus := s.store;
        RingNext(0, k, s);
        var next := GetNextSectorAddr(s, traversedLen);
        if next == FAILED_ADDR {
          break;
        }
        secAddr := next;
        k := k + 1;
      }
      BaseBound(found, |db.flash|, secSize);
      oldestAddr := sectorOldestAddr;
      OldestIs(db.flash, found);
      db := db.(oldest := found);
    }

    /** The header check of `kv_load`. */
    method CheckSectors() returns (failed: nat)
      requires Mendable()
      modifies storage, `db
      ensures Mendable() && db == CheckHeaders(old(db), 0, 0).db && failed == CheckHeaders(old(db), 0, 0).failed
      ensures (NoStray(old(db).flash) ==> NoStray(db.flash)) && (Firm(old(db).flash) ==> Firm(db.flash))
      ensures NoVictim(old(db).flash) ==> NoVictim(db.flash)
    {
      hide Base, FlashAt, AllShow, AllIntact, Scannable, Recoverable, KeepsScan, Format, NoVictim, NoStray, Firm;
      failed := 0;
      var secAddr: u32, traversedLen: u32 := oldestAddr, 0;
      ghost var k := 0;
      RingStart(db.oldest);
      while true
        invariant Mendable() && OnRing(db.oldest, k, secAddr, traversedLen)
        invariant CheckHeaders(db, k, failed) == CheckHeaders(old(db), 0, 0)
        invariant (NoStray(old(db).flash) ==> NoStray(db.flash)) && (Firm(old(db).flash) ==> Firm(db.flash))
        invariant NoVictim(old(db).flash) ==> NoVictim(db.flash)
        decreases |db.flash| - k
      {
        ghost var i := RingPos(db.oldest, k, |db.flash|);
        RingBound(k);
        traversedLen := traversedLen + secSize;
        var s, r := ReadSectorInfo(secAddr, false, i);
        RingNext(db.oldest, k, s);
        if !s.checkOk {
          failed := failed + 1;
          FormatMends(db, i);
          FormatKeepsRest(db, i);
          StraysKept(db.flash, Format(db, i).flash, secSize, true);
          FormatSector(s.addr, i);
        }
        var next := GetNextSectorAddr(s, traversedLen);
        if next == FAILED_ADDR {
          break;
        }
        secAddr := next;
        k := k + 1;
      }
    }

    /** The formatting loop of `set_default`. */
    method FormatSectors()
      requires Mendable()
      modifies storage, `db, `oldestAddr
      ensures Mendable() && db == FormatAll(old(db), 0)
      ensures (NoStray(old(db).flash) ==> NoStray(db.flash)) && (Firm(old(db).flash) ==> Firm(db.flash))
      ensures NoVictim(old(db).flash) ==> NoVictim(db.flash)
    {
      hide Base, FlashAt, AllShow, AllIntact, Scannable, Recoverable, KeepsScan, Format, NoVictim, NoStray, Firm;
      var addr: u32 := 0;
      ghost var k := 0;
      BaseNext(0, secSize);
      while addr < maxSize
        invariant Mendable() && k <= |db.flash| && addr == Base(k, secSize) && oldestAddr == old(oldestAddr)
        invariant FormatAll(db, k) == FormatAll(old(db), 0)
        invariant (NoStray(old(db).flash) ==> NoStray(db.flash)) && (Firm(old(db).flash) ==> Firm(db.flash))
        invariant NoVictim(old(db).flash) ==> NoVictim(db.flash)
        decreases |db.flash| - k
      {
        BaseNext(k, secSize);
        BaseBound(k, |db.flash|, secSize);
        FormatMends(db, k);
        FormatKeepsRest(db, k);
        StraysKept(db.flash, Format(db, k).flash, secSize, true);
        FormatSector(addr, k);
        addr := addr + secSize;
        k := k + 1;
      }
      if k < |db.flash| {
        BaseBound(k, |db.flash|, secSize);
      }
      oldestAddr := 0;
      db := db.(oldest := 0);
    }

    /** The part of `kv_load` that resumes an interrupted collection. */
    method ResumeGc()
      requires Mendable() && (Firm(db.flash) || NoVictim(db.flash))
      modifies storage, `db, `gcRequest, `oldestAddr
      ensures Mendable() && db == Resume(old(db), old(db).oldest, 0)
      ensures (NoStray(old(db).flash) ==> NoStray(db.flash)) && (Firm(old(db).flash) ==> Firm(db.flash))
    {
      hide Base, FlashAt, AllShow, AllIntact, Scannable, Recoverable, GcCollect, NoStray, Firm, InfoIs;
      ghost var start := db.oldest;
      var secAddr: u32, traversedLen: u32 := oldestAddr, 0;
      ghost var k := 0;
      RingStart(start);
      while true
        invariant Mendable() && OnRing(start, k, secAddr, traversedLen)
        invariant Firm(db.flash) || NoVictim(db.flash)
        invariant (NoStray(old(db).flash) ==> NoStray(db.flash)) && (Firm(old(db).flash) ==> Firm(db.flash))
        invariant Resume(db, start, k) == Resume(old(db), start, 0)
        decreases |db.flash| - k
      {
        ghost var i := RingPos(start, k, |db.flash|);
        RingBound(k);
        traversedLen := traversedLen + secSize;
        var s, r := ReadSectorInfo(secAddr, false, i);
        RingNext(start, k, s);
        VictimReads(s, db, i);
        if s.checkOk && s.dirty == Gc {
          BaseIsProduct(|db.flash|, secSize);
          SetRequest(true);
          CollectAll();
          CleanMends(db.flash);
        }
        var next := GetNextSectorAddr(s, traversedLen);
        if next == FAILED_ADDR {
          break;
        }
        secAddr := next;
        k := k + 1;
      }
    }

    /** The recovery loop of `kv_load`, which takes at most `rounds` passes. */
    method RecoverAll(ghost rounds: nat)
      requires Mendable() && RecoverRounds(db, rounds).Some?
      requires Firm(db.flash) || !RecoverPass(db, 0).gcRequest
      modifies storage, `db, `gcRequest, `oldestAddr
      ensures Mendable() && Some(db) == RecoverRounds(old(db), rounds)
      ensures (NoStray(old(db).flash) ==> NoStray(db.flash)) && (Firm(old(db).flash) ==> Firm(db.flash))
    {
      hide Base, FlashAt, AllShow, AllIntact, Scannable, Recoverable, GcCollect, NoStray, Firm, RecoverPass, RecoverRounds;
      ghost var left := rounds;
      while true
        invariant Mendable()
        invariant (NoStray(old(db).flash) ==> NoStray(db.flash)) && (Firm(old(db).flash) ==> Firm(db.flash))
        invariant Firm(db.flash) || !RecoverPass(db, 0).gcRequest
        invariant RecoverRounds(db, left).Some? && RecoverRounds(db, left) == RecoverRounds(old(db), rounds)
        decreases left
      {
        ghost var d := db;
        RecoverFirst(db, left);
        RecoverKvsPass();
        if gcRequest {
          BaseIsProduct(|db.flash|, secSize);
          CollectAll();
          CleanMends(db.flash);
          left := left - 1;
        } else {
          break;
        }
      }
    }

    /** `kv_load` */
    method LoadLog(ghost flash: seq<Sector>, ghost rounds: nat)
      requires Valid() && Openable(secSize, flash) && Load(secSize, flash, rounds).Some?
      requires db == Db(secSize, flash, FindOldest(flash), false, false, [flash]) && (sound ==> AllIntact(flash))
      modifies storage, `db, `gcRequest, `oldestAddr, `inRecoveryCheck
      ensures Mendable() && Some(db) == Load(secSize, flash, rounds)
      ensures (NoStray(flash) ==> NoStray(db.flash)) && (Firm(flash) ==> Firm(db.flash))
    {
      hide Base, FlashAt, AllShow, AllIntact, Scannable, Recoverable, GcCollect, NoStray, Firm, NoVictim, RecoverPass, CheckHeaders, FormatAll, Resume, RecoverRounds;
      inRecoveryCheck := true;
      db := db.(recovering := true);
      OpenableMends(secSize, flash);
      var failed := CheckSectors();
      DivideBy(|db.flash|, secSize, 0);
      BaseIsProduct(|db.flash|, secSize);
      if failed == maxSize / secSize {
        FormatSectors();
      }
      LoadIs(secSize, flash, rounds);
      ResumeGc();
      RecoverAll(rounds);
      inRecoveryCheck := false;
      db := db.(recovering := false);
    }

    /** `with_options`, without default values; `flash` is what the medium holds and `m` the map it stands for. */
    static method Open(storage: RamStorage, secSize: u32, maxSize: u32, ghost flash: seq<Sector>, ghost rounds: nat, ghost m: Table)
      returns (r: Result<Kvdb>)
      requires storage.Valid()
      requires ValidGeometry(secSize, maxSize) ==> OnMedium(storage.mem, secSize, maxSize, flash) && Load(secSize, flash, rounds).Some?
      modifies storage
      ensures !ValidGeometry(secSize, maxSize) ==> r == Err(InitFailed)
      ensures ValidGeometry(secSize, maxSize) ==>
                && r.Ok? && fresh(r.value) && r.value.storage == storage && r.value.secSize == secSize
                && r.value.initOk && r.value.Valid() && r.value.Mendable()
                && Some(r.value.db) == Load(secSize, flash, rounds)
                && (NoStray(flash) ==> NoStray(r.value.db.flash)) && (Firm(flash) ==> Firm(r.value.db.flash))
                && r.value.table == m && r.value.sound == AllIntact(flash)
    {
      hide Base, FlashAt, Scannable, Recoverable, Load, NoStray, Firm, AllIntact;
      if !ValidGeometry(secSize, maxSize) {
        return Err(InitFailed);
      }
      storage.Mark();
      var kvdb := new Kvdb(storage, secSize, maxSize, flash);
      assert [flash][0] == flash && Shows(storage.mem, [flash], secSize);
      MediumIsValid(storage.mem, secSize, maxSize, flash);
      kvdb.sound := AllIntact(flash);
      kvdb.FindOldestAddr();
      kvdb.LoadLog(flash, rounds);
      kvdb.initOk := true;
      kvdb.table := m;
      r := Ok(kvdb);
    }

    // ---------------------------------------------------------- public operations

    /** The log stands for `table`, and lookups see all of it. */
    ghost predicate Mapped()
      reads this, storage
    {
      Legible() && AllSearched(db.flash) && Holds(db.flash, table)
    }

    /** Between public operations: the log is at rest and stands for `table`. */
    ghost predicate Rested()
      reads this, storage
    {
      Legible() && Resting(db) && Holds(db.flash, table)
    }

    /** Allocation also finds where the contents of every sector end. */
    ghost predicate AtRest()
      reads this, storage
    {
      Rested() && AllShowEnd(db.flash)
    }

    lemma RestedIsMapped()
      requires Rested()
      ensures Mapped()
    {
      hide FlashAt, AllShow, Scannable, AllIntact, Holds, Calm, Count, WfSector;
      SearchedAll(db);
    }

    ghost method Restart()
      requires Valid()
      modifies storage`history, `db
      ensures Valid() && db == Begin(old(db)) && storage.history == [storage.mem]
    {
      hide Base, FlashAt;
      storage.Mark();
      db := Begin(db);
      assert db.log[0] == db.flash && Shows(storage.mem, db.log, secSize);
    }

    /** `set_kv` */
    method SetValue(key: seq<byte>, value: seq<byte>) returns (r: Outcome)
      requires NodeSize(key, value) < 0x1_0000_0000 && !gcRequest && Roomy(NodeSize(key, value))
      requires AllShowEnd(db.flash) || (Find(db, key).None? && |key| <= KV_NAME_MAX)
      modifies storage, `db, `gcRequest, `oldestAddr
      ensures Legible()
      ensures AllShowEnd(old(db).flash) ==>
                && db == SetKv(old(db), key, value).db && r == SetKv(old(db), key, value).outcome
                && (AllShowEnd(db.flash) <==> !HidesEnd(old(db), key, value))
      ensures !AllShowEnd(old(db).flash) ==>
                var t := AllocKv(ApparentLog(Begin(old(db))), NodeSize(key, value)).sec;
                && t.Some? && Formatted(Begin(old(db)), t.value) && Measurable(Begin(old(db)).flash[t.value])
                && db == Behind(Begin(old(db)), t.value, key, value).db
                && r == Behind(Begin(old(db)), t.value, key, value).outcome
      ensures NoStray(old(db).flash) ==> NoStray(db.flash)
    {
      hide Base, FlashAt, AllShow, AllIntact, Scannable, NoStray, Firm, AllShowEnd, EndShows, Clippable, ApparentLog, GcCollect, NewKv, Replace, Behind, Find,
           AllocKv, HasRoom, Extends, Used;
      var size := NodeSize(key, value);
      BeginAlike(db, key, size);
      Restart();
      ghost var d := db;
      if AllShowEnd(db.flash) {
        ApparentSame(db);
      }
      var kvAddr, sector;
      ghost var t;
      kvAddr, sector, t := NewNodeAddr(size);
      if kvAddr == FAILED_ADDR {
        return Failed(SavedFull);
      }
      if AllShowEnd(db.flash) {
        ApparentSame(db);
      }
      ApparentRoom(db, size, t.value);
      InfoApparent(sector, db, t.value);
      InfoAllots(sector, ApparentLog(db), t.value);
      assert Measurable(db.flash[t.value]);
      if AllShowEnd(d.flash) {
        BehindShown(db, t.value, key, value);
        NotFilled(old(db), key, value);
      } else {
        BehindAsks(db, t.value, key, value);
      }
      r := ReplaceKv(sector, key, value, t.value);
      if gcRequest {
        CollectGarbage(size);
        FirmShows(db.flash);
      }
    }

    /** `set`: the map gains the value or, when the call fails, stays as it was. Whatever the cause of a
        failure, and at every storage call on the way, the medium holds the old or the new value. Where the end
        of a sector is hidden, a new key is stored, but the last record of that sector is lost. */
    method Set(key: seq<byte>, value: seq<byte>) returns (r: Outcome)
      requires initOk ==> Rested() && Roomy(NodeSize(key, value))
      requires initOk ==> AllShowEnd(db.flash) || (|key| <= KV_NAME_MAX && StoredKey(key) !in table)
      requires NodeSize(key, value) < 0x1_0000_0000 && (initOk ==> Storable(key, table))
      modifies storage, `db, `gcRequest, `oldestAddr, `table
      ensures !initOk ==> r == Failed(InitFailed) && storage.mem == old(storage.mem) && table == old(table)
      ensures initOk ==> Rested() && (NoStray(old(db).flash) ==> NoStray(db.flash))
      ensures initOk && AllShowEnd(old(db).flash) ==>
                && table == SetTable(old(table), StoredKey(key), value, r)
                && db == SetKv(old(db), key, value).db && r == SetKv(old(db), key, value).outcome
                && (AllShowEnd(db.flash) <==> !HidesEnd(old(db), key, value))
                && r in {Done, Failed(KvNameErr), Failed(SavedFull)}
                && (r == Done ==> |key| <= KV_NAME_MAX)
                && (r == Failed(KvNameErr) ==> |key| > KV_NAME_MAX)
                && (r == Failed(SavedFull) <==> FullFor(Begin(old(db)), NodeSize(key, value)))
                && (r == Failed(SavedFull) ==>
                      NoSpare(db, NodeSize(key, value)) && FullAfter(old(db), db, NodeSize(key, value)))
                && EachKeeps(storage.history, secSize, old(table), StoredKey(key), value)
      ensures initOk && !AllShowEnd(old(db).flash) ==>
                r == Done && table == (old(table) - Lost(old(db), NodeSize(key, value)))[StoredKey(key) := value]
    {
      hide Base, FlashAt, AllShow, AllIntact, Scannable, NoStray, Firm, AllShowEnd, AllMeasurable, Holds, Calm, WfSector, Count, SetKv, LogOldOrNew,
           SpareRoom, HidesEnd, Behind, Lost, Find, AllocKv, ApparentLog, Measurable, EachKeeps, NodeCrc, AllSearched, FullFor, FullAfter, NoSpare;
      if !initOk {
        return Failed(InitFailed);
      }
      ghost var d := db;
      if AllShowEnd(db.flash) {
        SetRefinesMap(db, key, value, table);
        if FullFor(Begin(db), NodeSize(key, value)) {
          SetReclaims(db, key, value);
        }
      } else {
        NotInMap(db, table, key);
        SetBehind(db, key, value, table);
      }
      r := SetValue(key, value);
      if AllShowEnd(d.flash) {
        table := SetTable(table, StoredKey(key), value, r);
        LogKeepsEach(storage.history, db, secSize, old(table), StoredKey(key), value);
      } else {
        table := (table - Lost(d, NodeSize(key, value)))[StoredKey(key) := value];
      }
    }

    /** `del_kv` from the start of a public operation. */
    method DeleteKey(key: seq<byte>) returns (r: Outcome)
      requires Legible()
      modifies storage, `db
      ensures Legible() && db == KvModel.DelKv(old(db), key).db && r == KvModel.DelKv(old(db), key).outcome
      ensures NoStray(old(db).flash) ==> NoStray(db.flash)
      ensures AllShowEnd(old(db).flash) ==> AllShowEnd(db.flash)
    {
      hide Base, FlashAt, AllShow, AllIntact, Scannable, NoStray, AllShowEnd, Find, MarkDel, KeepsScan, NodeCrc;
      FindIgnoresLog(db, key);
      ghost var hit := Find(db, key);
      Restart();
      if hit.Some? {
        FoundLive(db, key);
        MarkScans(db, hit.value.sec, hit.value.node, true);
        StraysKept(db.flash, MarkDel(db, hit.value.sec, hit.value.node, true).flash, secSize, true);
        EndsKept(db.flash, MarkDel(db, hit.value.sec, hit.value.node, true).flash, secSize);
      }
      r := DelKv(key, None, true, 0, 0);
    }

    /** `del`: the key is removed; the call fails exactly when the map does not have it. */
    method Del(key: seq<byte>) returns (r: Outcome)
      requires initOk ==> Rested()
      modifies storage, `db, `table
      ensures !initOk ==> r == Failed(InitFailed) && storage.mem == old(storage.mem) && table == old(table)
      ensures initOk ==>
                && Rested() && table == old(table) - {key}
                && (AllShowEnd(old(db).flash) ==> AllShowEnd(db.flash)) && (NoStray(old(db).flash) ==> NoStray(db.flash))
                && db == KvModel.DelKv(old(db), key).db
                && r == (if key in old(table) then Done else Failed(KvNameErr))
                && EachKeepsOrDrops(storage.history, secSize, old(table), key)
    {
      hide Base, FlashAt, AllShow, AllIntact, Scannable, NoStray, AllShowEnd, Resting, Holds, Kept, KvModel.DelKv;
      if !initOk {
        return Failed(InitFailed);
      }
      DelRefinesMap(db, key, table);
      r := DeleteKey(key);
      table := table - {key};
      KeepsOrDropsEach(storage.history, db, secSize, old(table), key);
    }

    /** `get_vec` */
    method GetVec(key: seq<byte>) returns (r: Option<seq<byte>>)
      requires initOk ==> Mapped()
      modifies storage
      ensures !initOk ==> r == None
      ensures initOk ==> Mapped() && r == if key in table then Some(table[key]) else None
    {
      hide Base, FlashAt, AllShow, AllIntact, Scannable, AllSearched, Holds, Find, NodeCrc, KvIs, Located;
      if !initOk {
        return None;
      }
      LookupIsMap(db, table, key);
      var found, kv;
      ghost var hit;
      found, kv, hit := FindKv(key);
      if found {
        FoundLive(db, key);
        ValueReads(storage.mem, db.flash, secSize, hit.value.sec, hit.value.node, kv);
        var v := storage.Read(kv.addrValue, kv.valueLen);
        r := Some(v.value);
      } else {
        r := None;
      }
    }

    /** `get`: as much of the value as fits in `buf`. */
    method Get(key: seq<byte>, buf: array<byte>) returns (r: Option<nat>)
      requires initOk ==> Mapped()
      modifies storage, buf
      ensures !initOk ==> r == None
      ensures initOk ==> Mapped() && r.Some? == (key in table)
      ensures r.Some? ==>
                && initOk && key in table
                && r.value == (if buf.Length < |table[key]| then buf.Length else |table[key]|)
                && buf[..r.value] == table[key][..r.value]
                && buf[r.value..] == old(buf[r.value..])
      ensures r.None? ==> buf[..] == old(buf[..])
    {
      hide Base, FlashAt, AllShow, AllIntact, Scannable, AllSearched, Holds, Find, NodeCrc, KvIs, Located;
      if !initOk {
        return None;
      }
      LookupIsMap(db, table, key);
      var found, kv;
      ghost var hit;
      found, kv, hit := FindKv(key);
      if found {
        FoundLive(db, key);
        ValueReads(storage.mem, db.flash, secSize, hit.value.sec, hit.value.node, kv);
        var readLen := if buf.Length < kv.valueLen then buf.Length else kv.valueLen;
        var v := storage.Read(kv.addrValue, readLen);
        Sub(storage.mem, kv.addrValue, kv.addrValue + kv.valueLen, 0, readLen);
        forall x | 0 <= x < readLen {
          buf[x] := v.value[x];
        }
        r := Some(readLen);
      } else {
        r := None;
      }
    }

    // ---------------------------------------------------------- checking

    /** `check`: succeeds exactly when every sector has its header and every node that a walk sees its checksum. */
    method Check() returns (r: Outcome)
      requires initOk ==> Valid() && Scannable(db.flash, secSize)
      modifies storage
      ensures !initOk ==> r == Failed(InitFailed)
      ensures initOk ==> Valid()
      ensures initOk ==> (r == Done <==> AllGood(db.flash))
      ensures initOk && Rested() && sound ==> r == Done
    {
      hide Base, FlashAt, AllShow, AllIntact, Scannable, InfoIs, SeenGood, Resting, Holds, Measured, Measurable, ApparentLog, Walkable, RingPos;
      if !initOk {
        return Failed(InitFailed);
      }
      RestIsGood();
      var secAddr: u32, traversedLen: u32 := oldestAddr, 0;
      ghost var k := 0;
      RingStart(db.oldest);
      while true
        invariant Valid() && OnRing(db.oldest, k, secAddr, traversedLen)
        invariant forall x :: 0 <= x < k ==> GoodSector(db.flash[RingPos(db.oldest, x, |db.flash|)])
        decreases |db.flash| - k
      {
        ghost var i := RingPos(db.oldest, k, |db.flash|);
        RingBound(k);
        traversedLen := traversedLen + secSize;
        var sector, o := ReadSectorInfo(secAddr, false, i);
        RingNext(db.oldest, k, sector);
        SearchedReads(sector, db, i);
        InfoRaw(sector, db, i);
        if o != Done {
          return Failed(InitFailed);
        }
        if sector.store == Using || sector.store == Full {
          o := CheckInSector(sector, i);
          if o != Done {
            return o;
          }
        }
        var next := GetNextSectorAddr(sector, traversedLen);
        if next == FAILED_ADDR {
          break;
        }
        secAddr := next;
        k := k + 1;
      }
      GoodAround(db.flash, db.oldest);
      r := Done;
    }

    lemma RestIsGood()
      ensures Rested() && sound ==> AllGood(db.flash)
    {
      hide NodeCrc, Holds, Scannable, FlashAt, AllShow, Base;
      if Rested() && sound {
        forall i | 0 <= i < |db.flash| ensures GoodSector(db.flash[i]) {
          assert WfSector(db.flash[i], db.secSize);
          assert IntactSector(db.flash[i]);
        }
      }
    }

    /** The node loop of `check` in sector `i`. */
    method CheckInSector(sector: SecInfo, ghost i: nat) returns (r: Outcome)
      requires Valid() && InfoIs(sector, db, i) && Walkable(db.flash[i], secSize) && db.flash[i].store == Using
      modifies storage
      ensures Valid()
      ensures r == if SeenGood(db.flash[i].nodes) then Done else Failed(ReadErr)
    {
      hide Base, SectorAt, FlashAt, AllShow, Off, Part, Walkable, KvIs, NodeCrc;
      WalkStarts(db.flash, secSize, i);
      BaseBound(i, |db.flash|, secSize);
      var kv := BlankKv().(addrStart := sector.addr + SECTOR_HDR);
      ghost var j := 0;
      while true
        invariant Valid() && 0 <= j < |db.flash[i].nodes|
        invariant Located(db.flash, secSize, i, j, kv.addrStart) && |kv.name| == KV_NAME_MAX
        invariant forall x :: 0 <= x < j ==> db.flash[i].nodes[x].Stray? || Intact(db.flash[i].nodes[x])
        decreases |db.flash[i].nodes| - j
      {
        var rr;
        kv, rr := ReadKv(kv, i, j);
        var next := GetNextKvAddr(sector, kv, i, j);
        if rr != Done {
          return rr;
        }
        j := NextSeen(db.flash[i].nodes, j + 1);
        if next == FAILED_ADDR {
          break;
        }
        kv := kv.(addrStart := next);
      }
      r := Done;
    }

    // ---------------------------------------------------------- iterating

    /** `iterator` */
    method Iterator() returns (it: KvIterator)
      requires Valid()
      ensures fresh(it) && it.Stands(db.flash, db.oldest, secSize) && it.Sums(db.flash) && it.visited == []
      ensures RestKnown(it.k, it.j) && RestAt(it.k, it.j) == LiveFrom(db.flash, db.oldest, 0)
    {
      hide Base, FlashAt, AllShow, LiveIn;
      BaseNext(0, secSize);
      it := new KvIterator(oldestAddr);
    }

    /** The node loop of `iterate`: on to the next live node of sector `i`, from node `j` on. */
    method SeekLive(kv0: Kv, sector: SecInfo, ghost i: nat, ghost j: nat) returns (found: bool, kv: Kv, ghost x: nat)
      requires Valid() && InfoIs(sector, db, i) && Walkable(db.flash[i], secSize) && db.flash[i].store == Using
      requires |kv0.name| == KV_NAME_MAX && Located(db.flash, secSize, i, j, kv0.addrStart)
      modifies storage
      ensures Valid() && |kv.name| == KV_NAME_MAX && i < |db.flash| && j < |db.flash[i].nodes|
      ensures found ==>
                && x < |db.flash[i].nodes| && KvAt(kv, db.flash, secSize, i, x) && Live(db.flash[i].nodes[x])
                && LiveIn(db.flash, i, j) == [Loc(i, x)] + LiveIn(db.flash, i, x + 1)
      ensures !found ==> LiveIn(db.flash, i, j) == []
    {
      hide Base, SectorAt, FlashAt, AllShow, Off, Part, Walkable, KvIs, NodeCrc, Live, ReadName, Located;
      LocatedAt(db.flash, secSize, i, j, kv0.addrStart);
      kv, x := kv0, j;
      while true
        invariant Valid()
        invariant 0 <= x < |db.flash[i].nodes| && |kv.name| == KV_NAME_MAX
        invariant Located(db.flash, secSize, i, x, kv.addrStart)
        invariant LiveIn(db.flash, i, x) == LiveIn(db.flash, i, j)
        decreases |db.flash[i].nodes| - x
      {
        var r;
        kv, r := ReadKv(kv, i, x);
        KvLive(kv, db.flash, secSize, i, x);
        if kv.status == Write && kv.crcOk {
          return true, kv, x;
        }
        var next := GetNextKvAddr(sector, kv, i, x);
        LiveSkips(db.flash, i, x + 1, NextSeen(db.flash[i].nodes, x + 1));
        x := NextSeen(db.flash[i].nodes, x + 1);
        if next == FAILED_ADDR {
          break;
        }
        kv := kv.(addrStart := next);
      }
      found := false;
    }

    /** The iterator moves on to the next sector of the ring; tells whether there is one. */
    method NextForIterator(it: KvIterator, sector: SecInfo) returns (more: bool)
      requires Valid() && it.k < |db.flash| && InfoIs(sector, db, RingPos(db.oldest, it.k, |db.flash|))
      requires it.traversedLen == Base(it.k, secSize) && |it.currKv.name| == KV_NAME_MAX
      modifies it`currKv, it`j, it`k, it`traversedLen, it`sectorAddr
      ensures more == (old(it.k) + 1 < |db.flash|)
      ensures it.j == 0 && |it.currKv.name| == KV_NAME_MAX
      ensures more ==> it.k == old(it.k) + 1 && it.Stands(db.flash, db.oldest, secSize)
      ensures !more ==> it.k == old(it.k)
    {
      hide Base, FlashAt, AllShow, InfoIs, KvIs;
      RingBound(it.k);
      RingNext(db.oldest, it.k, sector);
      it.currKv := it.currKv.(addrStart := 0);
      it.j := 0;
      it.traversedLen := it.traversedLen + secSize;
      var nsec := GetNextSectorAddr(sector, it.traversedLen);
      if nsec == FAILED_ADDR {
        return false;
      }
      it.sectorAddr := nsec;
      it.k := it.k + 1;
      more := true;
    }

    /** Where `iterate` goes on in the sector it has come to. */
    method NextForSeek(it: KvIterator, sector: SecInfo) returns (addr: u32, ghost j: nat)
      requires Valid() && it.Stands(db.flash, db.oldest, secSize)
      requires var i := RingPos(db.oldest, it.k, |db.flash|);
        InfoIs(sector, db, i) && Walkable(db.flash[i], secSize) && db.flash[i].store == Using
      ensures var i := RingPos(db.oldest, it.k, |db.flash|);
        && i < |db.flash| && db.flash[i].Sector? && it.j <= |db.flash[i].nodes|
        && if addr == FAILED_ADDR then LiveIn(db.flash, i, it.j) == []
          else Located(db.flash, secSize, i, j, addr) && j <= |db.flash[i].nodes| && LiveIn(db.flash, i, j) == LiveIn(db.flash, i, it.j)
    {
      hide Base, FlashAt, AllShow, Scannable, KvIs, LiveIn, NodeCrc, Live, ReadName, Walkable, NodeAddr;
      ghost var i := RingPos(db.oldest, it.k, |db.flash|);
      j := it.j;
      if it.currKv.addrStart == 0 {
        WalkStarts(db.flash, secSize, i);
        BaseBound(i, |db.flash|, secSize);
        addr := sector.addr + SECTOR_HDR;
      } else {
        addr := GetNextKvAddr(sector, it.currKv, i, j - 1);
        LiveSkips(db.flash, i, j, NextSeen(db.flash[i].nodes, j));
        j := NextSeen(db.flash[i].nodes, j);
        LiveEnds(db.flash, i);
      }
    }

    /** The rest of a sector in use: on to its next live node, if it has one. */
    method SeekInSector(it: KvIterator, sector: SecInfo) returns (found: bool)
      requires Valid() && it.Stands(db.flash, db.oldest, secSize) && it.Sums(db.flash)
      requires var i := RingPos(db.oldest, it.k, |db.flash|);
        InfoIs(sector, db, i) && Walkable(db.flash[i], secSize) && db.flash[i].store == Using
      modifies storage, it`currKv, it`j, it`visited, it`iteratedCnt, it`iteratedObjBytes, it`iteratedValueBytes
      ensures Valid() && it.Sums(db.flash) && |it.currKv.name| == KV_NAME_MAX
      ensures it.k < |db.flash| && RingPos(db.oldest, it.k, |db.flash|) < |db.flash|
      ensures var i := RingPos(db.oldest, it.k, |db.flash|);
        && db.flash[i].Sector? && old(it.j) <= |db.flash[i].nodes|
        && (!found ==> LiveIn(db.flash, i, old(it.j)) == [] && it.visited == old(it.visited))
        && (found ==>
              && 0 < it.j && it.currKv.addrStart != 0 && KvAt(it.currKv, db.flash, secSize, i, it.j - 1)
              && it.visited == old(it.visited) + [Loc(i, it.j - 1)]
              && it.j <= |db.flash[i].nodes| && LiveIn(db.flash, i, old(it.j)) == [Loc(i, it.j - 1)] + LiveIn(db.flash, i, it.j))
    {
      hide Base, FlashAt, AllShow, InfoIs, KvIs, LiveIn, NodeCrc, Live, ReadName, AllPlaced, ObjBytes, ValueBytes, Walkable, Located;
      found := false;
      ghost var i := RingPos(db.oldest, it.k, |db.flash|);
      var addr;
      ghost var j;
      addr, j := NextForSeek(it, sector);
      if addr != FAILED_ADDR {
        var kv;
        ghost var x;
        found, kv, x := SeekLive(it.currKv.(addrStart := addr), sector, i, j);
        if found {
          KvLive(kv, db.flash, secSize, i, x);
          BehindHeader(kv, db.flash, secSize, i, x);
          it.Visit(kv, db.flash, Loc(i, x));
        } else {
          it.currKv := kv;
        }
      }
    }

    /** One round of the loop of `iterate`: the rest of the sector the iterator has come to. */
    method IterateSector(it: KvIterator) returns (found: bool, more: bool)
      requires Valid() && Scannable(db.flash, secSize)
      requires it.Stands(db.flash, db.oldest, secSize) && it.Sums(db.flash)
      modifies storage, it
      ensures Valid() && it.Sums(db.flash) && |it.currKv.name| == KV_NAME_MAX
      ensures RestKnown(old(it.k), old(it.j)) && it.k < |db.flash| && old(it.k) <= it.k
      ensures found ==> Advanced(it, old(it.k), old(it.j), old(it.visited))
      ensures !found ==> it.visited == old(it.visited)
      ensures !found && more ==>
                && it.Stands(db.flash, db.oldest, secSize) && RestKnown(it.k, it.j)
                && it.k == old(it.k) + 1 && RestAt(old(it.k), old(it.j)) == RestAt(it.k, it.j)
      ensures !found && !more ==> RestAt(old(it.k), old(it.j)) == []
    {
      hide Base, FlashAt, AllShow, Scannable, InfoIs, KvIs, LiveIn, AllPlaced, ObjBytes, ValueBytes, Walkable, Located;
      found, more := false, true;
      ghost var i := RingPos(db.oldest, it.k, |db.flash|);
      IteratorIn(it);
      var sector, r := ReadSectorInfo(it.sectorAddr, false, i);
      SearchedReads(sector, db, i);
      InfoRaw(sector, db, i);
      if r == Done && (sector.store == Using || sector.store == Full) {
        found := SeekInSector(it, sector);
        if found {
          return;
        }
      }
      more := NextForIterator(it, sector);
    }

    /** The iterator has come from `(k, j)` to the first node it had still to visit there. */
    ghost predicate Advanced(it: KvIterator, k: nat, j: nat, visited: seq<Loc>)
      requires RestKnown(k, j)
      reads this, it
    {
      && it.Stands(db.flash, db.oldest, secSize) && RestKnown(it.k, it.j)
      && it.currKv.addrStart != 0 && it.j > 0
      && var l := Loc(RingPos(db.oldest, it.k, |db.flash|), it.j - 1);
        && RestAt(k, j) == [l] + RestAt(it.k, it.j)
        && it.visited == visited + [l]
    }

    /** `iterate`: on to the next live node; false when there is none left. */
    method Iterate(it: KvIterator) returns (found: bool)
      requires Valid() && Scannable(db.flash, secSize)
      requires it.Stands(db.flash, db.oldest, secSize) && it.Sums(db.flash)
      modifies storage, it
      ensures Valid() && it.Sums(db.flash)
      ensures RestKnown(old(it.k), old(it.j))
      ensures found ==> Advanced(it, old(it.k), old(it.j), old(it.visited))
      ensures !found ==> RestAt(old(it.k), old(it.j)) == [] && it.visited == old(it.visited)
    {
      hide Base, FlashAt, AllShow, Scannable, LiveIn, LiveFrom, AllPlaced, ObjBytes, ValueBytes, KvIs;
      IteratorIn(it);
      while true
        invariant Valid() && it.Sums(db.flash) && it.Stands(db.flash, db.oldest, secSize)
        invariant RestKnown(it.k, it.j) && RestAt(it.k, it.j) == old(RestAt(it.k, it.j)) && it.visited == old(it.visited)
        decreases |db.flash| - it.k
      {
        var more;
        found, more := IterateSector(it);
        if found || !more {
          return;
        }
      }
    }

    ghost predicate RestKnown(k: nat, j: nat)
      reads this
    {
      && db.oldest < |db.flash| && k < |db.flash|
      && var i := RingPos(db.oldest, k, |db.flash|);
        Searched(db.flash[i]) ==> j <= |db.flash[i].nodes|
    }

    /** What an iterator at node `j` of the `k`-th sector still has to visit. */
    ghost function RestAt(k: nat, j: nat): seq<Loc>
      requires RestKnown(k, j)
      reads this
    {
      var i := RingPos(db.oldest, k, |db.flash|);
      (if Searched(db.flash[i]) then LiveIn(db.flash, i, j) else []) + LiveFrom(db.flash, db.oldest, k + 1)
    }

    lemma IteratorIn(it: KvIterator)
      requires Valid() && it.Stands(db.flash, db.oldest, secSize)
      ensures RestKnown(it.k, it.j)
      ensures Base(RingPos(db.oldest, it.k, |db.flash|), secSize) + SECTOR_HDR < 0x1_0000_0000
    {
      hide Base, FlashAt, AllShow, KvIs;
      BaseBound(RingPos(db.oldest, it.k, |db.flash|), |db.flash|, secSize);
    }

    /** `iter_collect` */
    method IterCollect() returns (out: seq<Kv>)
      requires Valid() && Scannable(db.flash, secSize)
      modifies storage
      ensures Valid()
      ensures db.oldest < |db.flash|
      ensures var locs := LiveFrom(db.flash, db.oldest, 0);
        AllRead(out, db.flash, secSize, locs)
      ensures Mapped() ==> ListsTable(out, table)
    {
      hide Base, FlashAt, AllShow, Scannable, LiveIn, LiveFrom, AllPlaced, ObjBytes, ValueBytes, KvIs, Located, AllSearched, Holds, AllIntact,
           AllRead, KvAt, ListsTable;
      out := [];
      NoneRead(db.flash, secSize);
      var it := Iterator();
      while true
        invariant Valid() && fresh(it) && it.Sums(db.flash) && it.Stands(db.flash, db.oldest, secSize)
        invariant RestKnown(it.k, it.j) && it.visited + RestAt(it.k, it.j) == LiveFrom(db.flash, db.oldest, 0)
        invariant AllRead(out, db.flash, secSize, it.visited)
        decreases |RestAt(it.k, it.j)|
      {
        ghost var was := it.visited;
        var found := Iterate(it);
        if !found {
          assert it.visited + [] == it.visited;
          break;
        }
        OneMoreRead(out, db.flash, secSize, was, it.currKv, Loc(RingPos(db.oldest, it.k, |db.flash|), it.j - 1));
        out := out + [it.currKv];
      }
      assert it.visited == LiveFrom(db.flash, db.oldest, 0);
      ListsVisited(out, db, secSize, table);
    }

    /** `set_default` without default values: everything is erased. */
    method SetDefault() returns (r: Outcome)
      requires Mendable() && !gcRequest && !inRecoveryCheck
      modifies storage, `db, `oldestAddr, `table, `sound
      ensures r == Done && AtRest() && NoStray(db.flash) && table == map[] && sound
    {
      hide Base, FlashAt, AllShow, AllIntact, Scannable, Recoverable, NoStray, Resting, Holds, FormatAll;
      Restart();
      FormatAllRests(db);
      FormatSectors();
      NoStrayShows(db.flash);
      table := map[];
      sound := true;
      r := Done;
    }
  }
}
