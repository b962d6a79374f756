/** Sectors of a medium: their place in the image, the ring they form and their store status. */
module Sectors {
  import opened Bytes

  datatype StoreStatus = Unused | Empty | Using | Full

  const STORE_STATUS_NUM: nat := 4

  function StoreIndex(st: StoreStatus): (i: nat)
    ensures i < STORE_STATUS_NUM
  {
    match st
    case Unused => 0
    case Empty => 1
    case Using => 2
    case Full => 3
  }

  function StoreFromIndex(i: nat): StoreStatus {
    if i == 1 then Empty else if i == 2 then Using else if i == 3 then Full else StoreStatus.Unused
  }

  /** The sector visited `k` steps after `start`. */
  function RingPos(start: nat, k: nat, n: nat): (i: nat)
    requires start < n && k <= n
    ensures k < n ==> i < n
  {
    if start + k < n then start + k else start + k - n
  }

  /** The number of steps from `start` to sector `i`. */
  function Steps(start: nat, i: nat, n: nat): (k: nat)
    requires start < n && i < n
    ensures k < n && RingPos(start, k, n) == i
  {
    if start <= i then i - start else i + n - start
  }

  function Next(i: nat, n: nat): (r: nat)
    requires i < n
    ensures r < n
  {
    if i + 1 < n then i + 1 else 0
  }

  /** The bitwise AND of two numbers. */
  function BitAnd(a: nat, b: nat): nat {
    if a == 0 || b == 0 then 0 else 2 * BitAnd(a / 2, b / 2) + (if a % 2 == 1 && b % 2 == 1 then 1 else 0)
  }

  /** The geometry that `validate_geometry` accepts. */
  predicate ValidGeometry(secSize: u32, maxSize: u32) {
    && secSize != 0 && maxSize != 0
    && BitAnd(secSize, secSize - 1) == 0
    && maxSize % secSize == 0
    && 2 <= maxSize / secSize
  }

  function Power2(k: nat): nat {
    if k == 0 then 1 else 2 * Power2(k - 1)
  }

  lemma {:induction false} AndSelf(n: nat)
    ensures BitAnd(n, n) == n
  {
    if n > 0 {
      AndSelf(n / 2);
    }
  }

  ghost predicate IsPower2(n: nat) {
    exists k: nat :: n == Power2(k)
  }

  lemma HalfPower(n: nat)
    requires 1 < n
    ensures IsPower2(n) <==> n % 2 == 0 && IsPower2(n / 2)
  {
    if IsPower2(n) {
      var k: nat :| n == Power2(k);
      assert n / 2 == Power2(k - 1);
    }
    if n % 2 == 0 && IsPower2(n / 2) {
      var k: nat :| n / 2 == Power2(k);
      assert n == Power2(k + 1);
    }
  }

  /** A number and its predecessor share no bit exactly if it is a power of two. */
  lemma {:induction false} PowerOfTwo(n: nat)
    requires 0 < n
    ensures BitAnd(n, n - 1) == 0 <==> IsPower2(n)
  {
    hide IsPower2;
    if n == 1 {
      OneIsPower();
    } else {
      HalfPower(n);
      if n % 2 == 1 {
        assert (n - 1) / 2 == n / 2;
        AndSelf(n / 2);
      } else {
        assert (n - 1) / 2 == n / 2 - 1;
        PowerOfTwo(n / 2);
      }
    }
  }

  lemma OneIsPower()
    ensures IsPower2(1) && !IsPower2(0)
  {
    assert 1 == Power2(0);
    forall k: nat ensures 0 != Power2(k) {
      PowerPositive(k);
    }
  }

  lemma {:induction false} PowerPositive(k: nat)
    ensures 0 < Power2(k)
  {
    if 0 < k {
      PowerPositive(k - 1);
    }
  }

  /** The sizes accepted: sectors of a power of two bytes, and at least two of them in all. */
  lemma GeometryIs(secSize: u32, maxSize: u32)
    ensures ValidGeometry(secSize, maxSize) <==> IsPower2(secSize) && exists n: nat :: 2 <= n && maxSize == Base(n, secSize)
  {
    hide BitAnd, IsPower2;
    OneIsPower();
    if 0 < secSize {
      PowerOfTwo(secSize);
      if ValidGeometry(secSize, maxSize) {
        assert maxSize == Base(maxSize / secSize, secSize);
      }
      if n: nat :| 2 <= n && maxSize == Base(n, secSize) {
        DivideBy(n, secSize, 0);
        assert maxSize % secSize == maxSize - maxSize / secSize * secSize == 0;
      }
    }
  }

  // ------------------------------------------------------------ sectors in the image

  /** The address of sector `i`. */
  function Base(i: nat, size: nat): nat {
    i * size
  }

  lemma BaseBound(i: nat, n: nat, size: nat)
    requires i < n
    ensures Base(i, size) + size <= Base(n, size)
  {
    assert n * size == i * size + size + (n - i - 1) * size;
  }

  lemma BaseApart(i: nat, x: nat, size: nat)
    requires i != x
    ensures Base(x, size) + size <= Base(i, size) || Base(i, size) + size <= Base(x, size)
  {
    if i < x {
      BaseBound(i, x, size);
    } else {
      BaseBound(x, i, size);
    }
  }

  lemma BaseNext(i: nat, size: nat)
    ensures Base(i + 1, size) == Base(i, size) + size
    ensures Base(0, size) == 0 && Base(1, size) == size
  {}

  /** The bytes of sector `i`. */
  function Part(mem: seq<byte>, i: nat, size: nat): (s: seq<byte>)
    requires Base(i, size) + size <= |mem|
    ensures |s| == size
  {
    mem[Base(i, size)..Base(i, size) + size]
  }

  lemma PartRead(mem: seq<byte>, i: nat, size: nat, o: nat, n: nat)
    requires Base(i, size) + size <= |mem| && o + n <= size
    ensures mem[Base(i, size) + o..Base(i, size) + o + n] == Part(mem, i, size)[o..o + n]
  {
    hide Base;
    Sub(mem, Base(i, size), Base(i, size) + size, o, o + n);
  }

  lemma RangeWrite(mem: seq<byte>, b: nat, c: nat, size: nat, o: nat, buf: seq<byte>)
    requires b + size <= |mem| && c + size <= |mem| && o + |buf| <= size
    requires b == c || b + size <= c || c + size <= b
    ensures b + size <= c || c + size <= b ==> Overwrite(mem, b + o, buf)[c..c + size] == mem[c..c + size]
    ensures b == c ==> Overwrite(mem, b + o, buf)[c..c + size] == Overwrite(mem[b..b + size], o, buf)
  {}

  lemma PartWrite(mem: seq<byte>, i: nat, size: nat, o: nat, buf: seq<byte>, x: nat)
    requires Base(i, size) + size <= |mem| && Base(x, size) + size <= |mem| && o + |buf| <= size
    ensures Part(Overwrite(mem, Base(i, size) + o, buf), x, size)
         == if x == i then Overwrite(Part(mem, i, size), o, buf) else Part(mem, x, size)
  {
    hide Base;
    if x != i {
      BaseApart(i, x, size);
    }
    RangeWrite(mem, Base(i, size), Base(x, size), size, o, buf);
  }

  lemma ClearsInPart(mem: seq<byte>, i: nat, size: nat, o: nat, buf: seq<byte>)
    requires Base(i, size) + size <= |mem| && o + |buf| <= size
    requires OnlyClears(Part(mem, i, size), o, buf)
    ensures OnlyClears(mem, Base(i, size) + o, buf)
  {
    hide Base;
    forall k | 0 <= k < |buf| ensures mem[Base(i, size) + o + k] & buf[k] == buf[k] {
      assert Part(mem, i, size)[o + k] == mem[Base(i, size) + o + k];
    }
  }

  lemma SliceOn(s: seq<byte>, a: nat, b: nat, c: nat)
    requires a <= b <= c <= |s|
    ensures s[a..b] + s[b..c] == s[a..c]
  {}

  lemma Sub(s: seq<byte>, a: nat, b: nat, c: nat, d: nat)
    requires a <= b <= |s| && c <= d <= b - a
    ensures s[a..b][c..d] == s[a + c..a + d]
  {
    var m := s[a..b];
    forall k | 0 <= k < d - c ensures m[c..d][k] == s[a + c..a + d][k] {
      assert m[c..d][k] == m[c + k] == s[a + (c + k)];
    }
    assert |m[c..d]| == |s[a + c..a + d]|;
  }

  lemma Whole(s: seq<byte>)
    ensures Overwrite(s, 0, Fill(|s|)) == Fill(|s|)
  {}

  predicate Blanked(s: seq<byte>, a: nat, b: nat)
    requires b <= |s|
  {
    forall k :: a <= k < b ==> s[k] == BYTE_ERASED
  }

  lemma PartByte(mem: seq<byte>, i: nat, size: nat, o: nat)
    requires Base(i, size) + size <= |mem| && o < size
    ensures Part(mem, i, size)[o] == mem[Base(i, size) + o]
  {
    hide Base;
  }

  lemma AlignDown(a: nat, i: nat, size: nat, o: nat)
    requires a == Base(i, size) + o && o < size
    ensures a / size * size == Base(i, size)
  {
    assert a / size == i by { DivideBy(i, size, o); }
  }

  lemma DivideBy(i: nat, size: nat, o: nat)
    requires o < size
    ensures (i * size + o) / size == i
  {
    var x := i * size + o;
    Quotient(i, o, x / size, x % size, size);
  }

  lemma Quotient(q: nat, r: nat, p: nat, t: nat, size: nat)
    requires r < size && t < size && q * size + r == p * size + t
    ensures q == p
  {
    if q < p {
      BaseBound(q, p, size);
    } else if p < q {
      BaseBound(p, q, size);
    }
  }
}
