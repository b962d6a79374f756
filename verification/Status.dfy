/** Status tables: a state is stored by clearing one more high bit than the state before it. */
module Status {
  import opened Bytes
  import opened Wrappers

  function TableSize(num: nat): nat {
    (num + 7) / 8
  }

  /** The mask of the bit that state `i + 1` clears. */
  function Mask(i: nat): byte {
    0x80 >> (i % 8)
  }

  predicate ClearAt(x: byte, i: nat) {
    x & Mask(i) == 0
  }

  predicate BitClear(table: seq<byte>, i: nat)
    requires i / 8 < |table|
  {
    ClearAt(table[i / 8], i)
  }

  /** The table that `SetStatus` writes. */
  function StatusTable(num: nat, index: nat): (t: seq<byte>)
    requires index < num
    ensures |t| == TableSize(num)
  {
    var blank := Fill(TableSize(num));
    if index == 0 then blank else blank[(index - 1) / 8 := 0xFF & (0xFF >> (index % 8))]
  }

  /** The highest state up to `top` whose bit is cleared, 0 when none is. */
  function Decode(table: seq<byte>, top: nat): (s: nat)
    requires top <= 8 * |table|
    ensures s <= top
    ensures s > 0 ==> BitClear(table, s - 1)
    ensures forall i :: s <= i < top ==> !BitClear(table, i)
  {
    if top == 0 then 0 else if BitClear(table, top - 1) then top else Decode(table, top - 1)
  }

  method SetStatus(table: array<byte>, num: nat, index: nat) returns (r: Option<nat>)
    requires TableSize(num) <= table.Length
    requires index < num
    modifies table
    ensures table[..] == StatusTable(num, index) + old(table[..])[TableSize(num)..]
    ensures r == if index == 0 then None else Some((index - 1) / 8)
  {
    var size := TableSize(num);
    for i := 0 to size
      invariant forall k :: 0 <= k < i ==> table[k] == 0xFF
      invariant forall k :: i <= k < table.Length ==> table[k] == old(table[k])
    {
      table[i] := 0xFF;
    }
    if index > 0 {
      var byteIndex := (index - 1) / 8;
      table[byteIndex] := table[byteIndex] & (0xFF >> (index % 8));
      r := Some(byteIndex);
    } else {
      r := None;
    }
  }

  method GetStatus(table: seq<byte>, num: nat) returns (s: nat)
    requires 0 < num && TableSize(num) <= |table|
    ensures s == Decode(table, num - 1)
  {
    hide Decode;
    var bak := num - 1;
    var sn, i := bak, 0;
    while sn != 0
      invariant sn + i == bak
      invariant Decode(table, bak) == Decode(table, sn)
    {
      sn := sn - 1;
      DecodeStep(table, sn);
      if table[sn / 8] & (0x80 >> (sn % 8)) == 0 {
        break;
      }
      i := i + 1;
    }
    DecodeNone(table);
    s := bak - i;
  }

  lemma DecodeStep(table: seq<byte>, i: nat)
    requires i < 8 * |table|
    ensures Decode(table, i + 1) == if table[i / 8] & (0x80 >> (i % 8)) == 0 then i + 1 else Decode(table, i)
  {}

  lemma DecodeNone(table: seq<byte>)
    ensures Decode(table, 0) == 0
  {}

  // ------------------------------------------------------------ the code

  lemma ShiftClearsTop(i: nat)
    requires 0 < i < 8
    ensures (0xFF as byte) & ((0xFF as byte) >> i) & Mask(i - 1) == 0
    ensures forall j: nat :: i <= j < 8 ==> (0xFF as byte) & ((0xFF as byte) >> i) & Mask(j) != 0
  {
    forall j: nat | i <= j < 8 ensures (0xFF as byte) & ((0xFF as byte) >> i) & Mask(j) != 0 {
      if j == 1 {} else if j == 2 {} else if j == 3 {} else if j == 4 {} else if j == 5 {} else if j == 6 {} else {}
      if i == 1 {} else if i == 2 {} else if i == 3 {} else if i == 4 {} else if i == 5 {} else if i == 6 {} else {}
    }
    if i == 1 {} else if i == 2 {} else if i == 3 {} else if i == 4 {} else if i == 5 {} else if i == 6 {} else {}
  }

  /** `Decode` is the only state that fits its own postconditions. */
  lemma {:induction false} DecodeIs(table: seq<byte>, top: nat, s: nat)
    requires s <= top <= 8 * |table|
    requires s > 0 ==> BitClear(table, s - 1)
    requires forall i :: s <= i < top ==> !BitClear(table, i)
    ensures Decode(table, top) == s
  {
    if s < top {
      assert !BitClear(table, top - 1);
      DecodeIs(table, top - 1, s);
    }
  }

  lemma ErasedBitsSet(table: seq<byte>, i: nat)
    requires i < 8 * |table| && table[i / 8] == 0xFF
    ensures !BitClear(table, i)
  {
    var j := i % 8;
    if j == 0 {} else if j == 1 {} else if j == 2 {} else if j == 3 {}
    else if j == 4 {} else if j == 5 {} else if j == 6 {} else {}
  }

  lemma TableBitSet(num: nat, index: nat, i: nat)
    requires index < num && i + 1 < num
    requires index % 8 == 0 || index <= i
    ensures !BitClear(StatusTable(num, index), i)
  {
    var t := StatusTable(num, index);
    if index == 0 || i / 8 != (index - 1) / 8 {
      ErasedBitsSet(t, i);
    } else if index % 8 == 0 {
      assert (0xFF as byte) & ((0xFF as byte) >> 0) == 0xFF;
      ErasedBitsSet(t, i);
    } else {
      ShiftClearsTop(index % 8);
      assert (index - 1) / 8 == index / 8 && index % 8 <= i % 8;
      assert Mask(i) == Mask(i % 8);
    }
  }

  lemma TableBitClear(num: nat, index: nat)
    requires index < num && index % 8 != 0
    ensures BitClear(StatusTable(num, index), index - 1)
  {
    ShiftClearsTop(index % 8);
    assert (index - 1) % 8 == index % 8 - 1;
    assert Mask(index - 1) == Mask(index % 8 - 1);
  }

  /** A state can be read back exactly when its number is not a positive multiple of 8; the others
      leave the table erased. Tables of up to eight states hold no such number. */
  lemma RoundTrip(num: nat, index: nat)
    requires index < num
    ensures Decode(StatusTable(num, index), num - 1) == if index % 8 == 0 then 0 else index
    ensures Decode(StatusTable(num, index), num - 1) == index <==> index == 0 || index % 8 != 0
  {
    hide StatusTable, BitClear;
    var s := if index % 8 == 0 then 0 else index;
    forall i | s <= i < num - 1 ensures !BitClear(StatusTable(num, index), i) {
      TableBitSet(num, index, i);
    }
    if s > 0 {
      TableBitClear(num, index);
    }
    DecodeIs(StatusTable(num, index), num - 1, s);
  }

  /** The last of nine states is lost. */
  lemma NinthStateLost()
    ensures Decode(StatusTable(9, 8), 8) == 0
  {
    RoundTrip(9, 8);
  }

  function And(x: byte, y: byte): byte {
    x & y
  }

  /** The bytewise AND of two tables: what a NOR device holds after programming one over the other. */
  function Merge(a: seq<byte>, b: seq<byte>): (t: seq<byte>)
    requires |a| == |b|
    ensures |t| == |a|
  {
    seq(|a|, i requires 0 <= i < |a| => And(a[i], b[i]))
  }

  lemma MergeBits(x: byte, y: byte, i: nat)
    ensures ClearAt(And(x, y), i) <==> ClearAt(x, i) || ClearAt(y, i)
  {
    var j := i % 8;
    if j == 0 {} else if j == 1 {} else if j == 2 {} else if j == 3 {}
    else if j == 4 {} else if j == 5 {} else if j == 6 {} else {}
  }

  lemma MergeClears(a: seq<byte>, b: seq<byte>, i: nat)
    requires |a| == |b| && i / 8 < |a|
    ensures BitClear(Merge(a, b), i) <==> BitClear(a, i) || BitClear(b, i)
  {
    hide ClearAt, And;
    MergeBits(a[i / 8], b[i / 8], i);
  }

  /** Programming a status over another never moves a state backwards. */
  lemma MergeIsMax(a: seq<byte>, b: seq<byte>, top: nat)
    requires |a| == |b| && top <= 8 * |a|
    ensures Decode(Merge(a, b), top) == if Decode(a, top) < Decode(b, top) then Decode(b, top) else Decode(a, top)
  {
    hide BitClear, Merge;
    var s := if Decode(a, top) < Decode(b, top) then Decode(b, top) else Decode(a, top);
    forall i: nat | i < top ensures BitClear(Merge(a, b), i) <==> BitClear(a, i) || BitClear(b, i) {
      MergeClears(a, b, i);
    }
    DecodeIs(Merge(a, b), top, s);
  }

  // ------------------------------------------------------------ one-byte tables

  /** The byte that stores state `i` of a table of at most eight states. */
  function Code(i: nat): byte
    requires i < 8
  {
    0xFF >> i
  }

  function State(b: byte, num: nat): (s: nat)
    requires 0 < num <= 8
    ensures s < num
  {
    Decode([b], num - 1)
  }

  lemma CodeIsTable(num: nat, i: nat)
    requires i < num <= 8
    ensures StatusTable(num, i) == [Code(i)]
    ensures State(Code(i), num) == i
  {
    RoundTrip(num, i);
    assert TableSize(num) == 1;
    if i == 0 {} else if i == 1 {} else if i == 2 {} else if i == 3 {}
    else if i == 4 {} else if i == 5 {} else if i == 6 {} else {}
  }

  /** Later states are bit subsets of earlier ones. */
  lemma CodesNest(i: nat, j: nat)
    requires i <= j < 8
    ensures Code(i) & Code(j) == Code(j)
    ensures Code(0) == 0xFF
  {
    if i == 0 {} else if i == 1 {} else if i == 2 {} else if i == 3 {}
    else if i == 4 {} else if i == 5 {} else if i == 6 {} else {}
    if j == 0 {} else if j == 1 {} else if j == 2 {} else if j == 3 {}
    else if j == 4 {} else if j == 5 {} else if j == 6 {} else {}
  }
}
