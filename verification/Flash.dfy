/** Status programming and scanning helpers shared by the two engines. */
module Flash {
  import opened Bytes
  import opened Status
  import opened Storage
  import opened Wrappers

  const BYTE_WRITTEN: byte := 0x00

  /** Program state `index` of a one-byte table at `addr`; state 0 is the erased pattern and writes nothing. */
  method WriteStatus(s: RamStorage, addr: u32, num: nat, index: nat)
    requires s.Valid()
    requires index < num <= 8 && addr < |s.mem|
    requires s.mem[addr] & Code(index) == Code(index)
    modifies s
    ensures s.Valid()
    ensures index == 0 ==> s.mem == old(s.mem) && s.history == old(s.history)
    ensures index > 0 ==> s.mem == Overwrite(old(s.mem), addr, [Code(index)])
    ensures index > 0 ==> s.history == old(s.history) + [s.mem]
  {
    hide Code, StatusTable, OnlyClears;
    ClearsByte(s.mem, addr, Code(index));
    var table := new byte[4](_ => 0xFF);
    var r := SetStatus(table, num, index);
    CodeIsTable(num, index);
    if r.Some? {
      assert table[..][0] == Code(index);
      var _ := s.Write(addr + r.value, table[r.value..r.value + 1]);
      assert table[0..1] == [Code(index)];
    }
  }

  lemma ClearsByte(mem: seq<byte>, addr: nat, b: byte)
    requires addr < |mem| && mem[addr] & b == b
    ensures OnlyClears(mem, addr, [b])
  {}

  method ReadStatus(s: RamStorage, addr: u32, num: nat) returns (index: nat)
    requires 0 < num <= 8 && addr < |s.mem|
    ensures index == State(s.mem[addr], num)
  {
    hide Decode;
    var table := s.Read(addr, TableSize(num));
    assert table.value == [s.mem[addr]];
    index := GetStatus(table.value, num);
  }

  /** The start of the maximal erased suffix of the range from `start` to `end`, `end` if there is none. */
  method ContinueFfAddr(s: RamStorage, start: u32, end: u32) returns (r: u32)
    requires start <= end <= |s.mem| && end + 32 < 0x1_0000_0000
    ensures start <= r <= end
    ensures Erased(s.mem[r..end])
    ensures r > start ==> s.mem[r - 1] != BYTE_ERASED
  {
    var pos, addr, lastData := start, start, BYTE_WRITTEN;
    while pos < end
      invariant start <= addr <= pos && (addr <= end) && start <= pos
      invariant pos == start ==> lastData == BYTE_WRITTEN
      invariant pos > start ==> start < end
      invariant pos > start ==> lastData == s.mem[(if pos < end then pos else end) - 1]
      invariant lastData == BYTE_ERASED ==>
                  && addr < (if pos < end then pos else end)
                  && (forall k :: addr <= k < (if pos < end then pos else end) ==> s.mem[k] == BYTE_ERASED)
                  && (addr > start ==> s.mem[addr - 1] != BYTE_ERASED)
      decreases end - pos
    {
      var readSize := if pos + 32 <= end then 32 else end - pos;
      var buf := s.Read(pos, readSize);
      assert pos + readSize <= end && buf.value == s.mem[pos..pos + readSize];
      for i := 0 to readSize
        invariant start <= addr <= pos + i
        invariant pos + i == start ==> lastData == BYTE_WRITTEN
        invariant pos + i > start ==> lastData == s.mem[pos + i - 1]
        invariant lastData == BYTE_ERASED ==>
                    && addr < pos + i
                    && (forall k :: addr <= k < pos + i ==> s.mem[k] == BYTE_ERASED)
                    && (addr > start ==> s.mem[addr - 1] != BYTE_ERASED)
      {
        var b := buf.value[i];
        assert b == s.mem[pos..pos + readSize][i] == s.mem[pos + i];
        if lastData != BYTE_ERASED && b == BYTE_ERASED {
          addr := pos + i;
        }
        lastData := b;
        assert lastData == BYTE_ERASED ==> forall k :: addr <= k < pos + i + 1 ==> s.mem[k] == BYTE_ERASED;
      }
      pos := pos + 32;
    }
    r := if lastData == BYTE_ERASED then addr else end;
  }
}
