/** Bytes, little-endian words and flat byte images.

    An image is the whole content of a storage medium, one `byte` per address.
    Numbers that the program keeps in `u32` or `i32` variables are integers with
    an explicit range; their on-storage form is the four bytes of `Word`. */
module Bytes {
  type byte = bv8
  type u32 = x: int | 0 <= x < 0x1_0000_0000
  type i32 = x: int | -0x8000_0000 <= x < 0x8000_0000

  /** The value of an erased flash byte. */
  const BYTE_ERASED: byte := 0xFF

  function Fill(n: nat): (s: seq<byte>)
    ensures |s| == n && Erased(s)
  {
    seq(n, _ => BYTE_ERASED)
  }

  predicate Erased(s: seq<byte>) {
    forall i :: 0 <= i < |s| ==> s[i] == BYTE_ERASED
  }

  /** `mem` with `buf` stored from address `a` on. */
  function Overwrite(mem: seq<byte>, a: nat, buf: seq<byte>): (r: seq<byte>)
    requires a + |buf| <= |mem|
    ensures |r| == |mem|
    ensures forall i :: 0 <= i < |mem| ==> r[i] == if a <= i < a + |buf| then buf[i - a] else mem[i]
  {
    mem[..a] + buf + mem[a + |buf|..]
  }

  /** What a NOR device makes of programming `buf` from address `a` on: bits can only be cleared. */
  function Program(mem: seq<byte>, a: nat, buf: seq<byte>): (r: seq<byte>)
    requires a + |buf| <= |mem|
    ensures |r| == |mem|
    ensures forall i :: 0 <= i < |mem| ==> r[i] == if a <= i < a + |buf| then mem[i] & buf[i - a] else mem[i]
  {
    mem[..a] + seq(|buf|, i requires 0 <= i < |buf| => mem[a + i] & buf[i]) + mem[a + |buf|..]
  }

  /** Programming `buf` at `a` asks for no bit to go from 0 to 1. */
  predicate OnlyClears(mem: seq<byte>, a: nat, buf: seq<byte>)
    requires a + |buf| <= |mem|
  {
    forall i :: 0 <= i < |buf| ==> mem[a + i] & buf[i] == buf[i]
  }

  lemma ProgramIsOverwrite(mem: seq<byte>, a: nat, buf: seq<byte>)
    requires a + |buf| <= |mem|
    ensures OnlyClears(mem, a, buf) <==> Program(mem, a, buf) == Overwrite(mem, a, buf)
  {
    if Program(mem, a, buf) == Overwrite(mem, a, buf) {
      forall i | 0 <= i < |buf| ensures mem[a + i] & buf[i] == buf[i] {
        assert Program(mem, a, buf)[a + i] == Overwrite(mem, a, buf)[a + i];
      }
    }
  }

  lemma OverErased(mem: seq<byte>, a: nat, buf: seq<byte>)
    requires a + |buf| <= |mem| && Erased(mem[a..a + |buf|])
    ensures OnlyClears(mem, a, buf)
  {
    forall i | 0 <= i < |buf| ensures mem[a + i] & buf[i] == buf[i] {
      assert mem[a..a + |buf|][i] == BYTE_ERASED;
      AndOnes(buf[i]);
    }
  }

  lemma AndOnes(b: byte)
    ensures 0xFF & b == b
  {}

  // ------------------------------------------------------------ words

  function Byte(x: int): (b: byte)
    requires 0 <= x < 256
  {
    x as byte
  }

  function ByteValue(b: byte): (x: int)
    ensures 0 <= x < 256
  {
    b as int
  }

  /** The little-endian bytes of a 32-bit word. */
  function Word(x: u32): (w: seq<byte>)
    ensures |w| == 4
  {
    [Byte(x % 256), Byte(x / 256 % 256), Byte(x / 65536 % 256), Byte(x / 16777216)]
  }

  function RdWord(s: seq<byte>): (x: u32)
    requires |s| == 4
  {
    ByteValue(s[0]) + 256 * ByteValue(s[1]) + 65536 * ByteValue(s[2]) + 16777216 * ByteValue(s[3])
  }

  lemma IntAsByte(b: byte)
    ensures Byte(ByteValue(b)) == b
  {}

  lemma ByteEnds()
    ensures ByteValue(0) == 0 && ByteValue(255) == 255
  {}

  lemma ByteStep(b: byte)
    requires b != 255
    ensures ByteValue(b + 1) == ByteValue(b) + 1
  {}

  /** Every number below 256 is the value of a byte. */
  lemma {:induction false} ByteOf(x: nat) returns (b: byte)
    requires x < 256
    ensures ByteValue(b) == x
  {
    hide ByteValue;
    ByteEnds();
    if x == 0 {
      b := 0;
    } else {
      b := ByteOf(x - 1);
      ByteStep(b);
      b := b + 1;
    }
  }

  lemma ByteAsInt(x: int)
    requires 0 <= x < 256
    ensures ByteValue(Byte(x)) == x
  {
    hide Byte, ByteValue;
    var b := ByteOf(x);
    IntAsByte(b);
  }

  lemma Digits(x: u32)
    ensures 0 <= x / 16777216 < 256
    ensures x == x % 256 + 256 * (x / 256 % 256) + 65536 * (x / 65536 % 256) + 16777216 * (x / 16777216)
  {
    var q := x / 256;
    var r := q / 256;
    assert r == x / 65536;
    assert r / 256 == x / 16777216;
  }

  lemma FromDigits(a: int, b: int, c: int, d: int)
    requires 0 <= a < 256 && 0 <= b < 256 && 0 <= c < 256 && 0 <= d < 256
    ensures var x := a + 256 * b + 65536 * c + 16777216 * d;
            x % 256 == a && x / 256 % 256 == b && x / 65536 % 256 == c && x / 16777216 == d
  {
    var x := a + 256 * b + 65536 * c + 16777216 * d;
    assert x / 256 == b + 256 * c + 65536 * d;
    assert x / 65536 == c + 256 * d;
  }

  lemma WordRoundTrip(x: u32)
    ensures RdWord(Word(x)) == x
  {
    hide Byte, ByteValue;
    Digits(x);
    ByteAsInt(x % 256);
    ByteAsInt(x / 256 % 256);
    ByteAsInt(x / 65536 % 256);
    ByteAsInt(x / 16777216);
  }

  lemma WordOfDigits(a: int, b: int, c: int, d: int)
    requires 0 <= a < 256 && 0 <= b < 256 && 0 <= c < 256 && 0 <= d < 256
    ensures Word(a + 256 * b + 65536 * c + 16777216 * d) == [Byte(a), Byte(b), Byte(c), Byte(d)]
  {
    hide Byte, ByteValue;
    FromDigits(a, b, c, d);
  }

  lemma RdWordRoundTrip(s: seq<byte>)
    requires |s| == 4
    ensures Word(RdWord(s)) == s
  {
    hide Byte, ByteValue, Word;
    IntAsByte(s[0]);
    IntAsByte(s[1]);
    IntAsByte(s[2]);
    IntAsByte(s[3]);
    WordOfDigits(ByteValue(s[0]), ByteValue(s[1]), ByteValue(s[2]), ByteValue(s[3]));
  }

  /** Two's complement: the word that stores a signed number. */
  function Unsigned(t: i32): (x: u32) {
    if t < 0 then t + 0x1_0000_0000 else t
  }

  function Signed(x: u32): (t: i32) {
    if x < 0x8000_0000 then x else x - 0x1_0000_0000
  }
}
