/** Words in memory and in network order (include/little-oscar/osc.h:41-57, ideas/osc.h:24-37). */
module Bytes {
  type Byte = b: int | 0 <= b < 256

  const TWO_8 := 0x100
  const TWO_16 := 0x1_0000
  const TWO_24 := 0x100_0000
  const TWO_31 := 0x8000_0000
  const TWO_32 := 0x1_0000_0000
  const TWO_63 := 0x8000_0000_0000_0000
  const TWO_64 := 0x1_0000_0000_0000_0000

  type Word32 = w: int | 0 <= w < TWO_32
  type Word64 = w: int | 0 <= w < TWO_64

  /** 256 to the n. */
  function Range(n: nat): nat {
    if n == 0 then 1 else TWO_8 * Range(n - 1)
  }

  // ---------- Images of numbers ----------

  /** The n-byte image of x, most significant byte first. */
  function BigEndian(x: nat, n: nat): (b: seq<Byte>)
    ensures |b| == n
  {
    if n == 0 then [] else BigEndian(x / TWO_8, n - 1) + [x % TWO_8]
  }

  function FromBigEndian(b: seq<Byte>): nat {
    if b == [] then 0 else TWO_8 * FromBigEndian(b[..|b| - 1]) + b[|b| - 1]
  }

  /** The n-byte image of x, least significant byte first. */
  function LittleEndian(x: nat, n: nat): (b: seq<Byte>)
    ensures |b| == n
  {
    if n == 0 then [] else [x % TWO_8] + LittleEndian(x / TWO_8, n - 1)
  }

  function FromLittleEndian(b: seq<Byte>): nat {
    if b == [] then 0 else b[0] + TWO_8 * FromLittleEndian(b[1..])
  }

  lemma {:induction false} BigEndianInverse(x: nat, n: nat)
    requires x < Range(n)
    ensures FromBigEndian(BigEndian(x, n)) == x
  {
    if n > 0 {
      BigEndianInverse(x / TWO_8, n - 1);
      assert BigEndian(x, n)[..n - 1] == BigEndian(x / TWO_8, n - 1);
    }
  }

  lemma {:induction false} FromBigEndianInverse(b: seq<Byte>)
    ensures FromBigEndian(b) < Range(|b|) && BigEndian(FromBigEndian(b), |b|) == b
  {
    if b != [] {
      var front := b[..|b| - 1];
      FromBigEndianInverse(front);
      assert FromBigEndian(b) / TWO_8 == FromBigEndian(front) && FromBigEndian(b) % TWO_8 == b[|b| - 1];
      assert b == front + [b[|b| - 1]];
    }
  }

  lemma {:induction false} LittleEndianInverse(x: nat, n: nat)
    requires x < Range(n)
    ensures FromLittleEndian(LittleEndian(x, n)) == x
  {
    if n > 0 {
      LittleEndianInverse(x / TWO_8, n - 1);
      assert LittleEndian(x, n)[1..] == LittleEndian(x / TWO_8, n - 1);
    }
  }

  lemma {:induction false} FromLittleEndianInverse(b: seq<Byte>)
    ensures FromLittleEndian(b) < Range(|b|) && LittleEndian(FromLittleEndian(b), |b|) == b
  {
    if b != [] {
      FromLittleEndianInverse(b[1..]);
      assert FromLittleEndian(b) / TWO_8 == FromLittleEndian(b[1..]) && FromLittleEndian(b) % TWO_8 == b[0];
      assert b == [b[0]] + b[1..];
    }
  }

  lemma Ranges()
    ensures Range(4) == TWO_32 && Range(8) == TWO_64
  {
    assert Range(1) == TWO_8;
    assert Range(2) == TWO_16;
    assert Range(3) == TWO_24;
    assert Range(4) == TWO_32;
    assert Range(5) == TWO_8 * TWO_32;
    assert Range(6) == TWO_16 * TWO_32;
    assert Range(7) == TWO_24 * TWO_32;
  }

  // ---------- The byte-order macros ----------

  datatype Host = Little | Big

  /** The word with the given bytes, most significant first. */
  function Word(b0: Byte, b1: Byte, b2: Byte, b3: Byte): Word32 {
    b0 * TWO_24 + b1 * TWO_16 + b2 * TWO_8 + b3
  }

  /** htonl on a little-endian host: the four bytes of x, exchanged end for end. */
  function Swap32(x: Word32): Word32 {
    Word(x % TWO_8, x / TWO_8 % TWO_8, x / TWO_16 % TWO_8, x / TWO_24)
  }

  function HostToNet32(h: Host, x: Word32): Word32 {
    if h.Big? then x else Swap32(x)
  }

  /** The two-half form: htonl of the low half in the high place, and the other way round.
      The halves do not overlap, so that | adds them. */
  function HostToNet64(h: Host, x: Word64): Word64 {
    if h.Big? then x else Swap32(x % TWO_32) * TWO_32 + Swap32(x / TWO_32)
  }

  /** What memcpy of an n-byte word leaves in memory. */
  function Store(h: Host, x: nat, n: nat): (b: seq<Byte>)
    ensures |b| == n
  {
    if h.Big? then BigEndian(x, n) else LittleEndian(x, n)
  }

  function Load(h: Host, b: seq<Byte>): nat {
    if h.Big? then FromBigEndian(b) else FromLittleEndian(b)
  }

  lemma Peel(q: nat, r: Byte)
    ensures (q * TWO_8 + r) / TWO_8 == q && (q * TWO_8 + r) % TWO_8 == r
  {
  }

  lemma Digits(b0: Byte, b1: Byte, b2: Byte, b3: Byte)
    ensures var y := Word(b0, b1, b2, b3);
            y / TWO_24 == b0 && y / TWO_16 % TWO_8 == b1 && y / TWO_8 % TWO_8 == b2 && y % TWO_8 == b3
  {
    var y := Word(b0, b1, b2, b3);
    assert y / TWO_8 == b0 * TWO_16 + b1 * TWO_8 + b2;
    assert y / TWO_16 == b0 * TWO_8 + b1;
  }

  lemma SplitWord(x: Word32)
    ensures x == Word(x / TWO_24, x / TWO_16 % TWO_8, x / TWO_8 % TWO_8, x % TWO_8)
  {
    var q1 := x / TWO_8;
    var q2 := q1 / TWO_8;
    assert x / TWO_16 == q2 && x / TWO_24 == q2 / TWO_8;
  }

  lemma WordImages(b0: Byte, b1: Byte, b2: Byte, b3: Byte)
    ensures LittleEndian(Word(b0, b1, b2, b3), 4) == [b3, b2, b1, b0]
    ensures BigEndian(Word(b0, b1, b2, b3), 4) == [b0, b1, b2, b3]
  {
    var y0: nat, y1: nat, y2: nat := b0, b0 * TWO_8 + b1, (b0 * TWO_8 + b1) * TWO_8 + b2;
    Peel(y2, b3);
    Peel(y1, b2);
    Peel(y0, b1);
    Peel(0, b0);
    assert LittleEndian(y0, 1) == [b0] && BigEndian(y0, 1) == [b0];
    assert LittleEndian(y1, 2) == [b1, b0] && BigEndian(y1, 2) == [b0, b1];
    assert LittleEndian(y2, 3) == [b2, b1, b0] && BigEndian(y2, 3) == [b0, b1, b2];
  }

  /** The little-endian image of a swapped word is the big-endian image of the word. */
  lemma Swap32Image(x: Word32)
    ensures LittleEndian(Swap32(x), 4) == BigEndian(x, 4)
  {
    SplitWord(x);
    WordImages(x / TWO_24, x / TWO_16 % TWO_8, x / TWO_8 % TWO_8, x % TWO_8);
    WordImages(x % TWO_8, x / TWO_8 % TWO_8, x / TWO_16 % TWO_8, x / TWO_24);
  }

  lemma Swap32Twice(x: Word32)
    ensures Swap32(Swap32(x)) == x
  {
    SplitWord(x);
    Digits(x % TWO_8, x / TWO_8 % TWO_8, x / TWO_16 % TWO_8, x / TWO_24);
  }

  lemma {:induction false} Halves(hi: nat, lo: nat, n: nat)
    requires lo < Range(n)
    ensures forall m: nat :: LittleEndian(hi * Range(n) + lo, n + m) == LittleEndian(lo, n) + LittleEndian(hi, m)
    ensures forall m: nat :: BigEndian(hi * Range(n) + lo, n + m) == BigEndian(hi, m) + BigEndian(lo, n)
    decreases n
  {
    if n == 0 {
      assert forall m: nat :: LittleEndian(hi, m) == [] + LittleEndian(hi, m);
      assert forall m: nat :: BigEndian(hi, m) == BigEndian(hi, m) + [];
    } else {
      var x := hi * Range(n) + lo;
      HalvesStep(hi, lo, n);
      Halves(hi, lo / TWO_8, n - 1);
      forall m: nat
        ensures LittleEndian(x, n + m) == LittleEndian(lo, n) + LittleEndian(hi, m)
        ensures BigEndian(x, n + m) == BigEndian(hi, m) + BigEndian(lo, n)
      {
        var y := x / TWO_8;
        assert LittleEndian(y, (n - 1) + m) == LittleEndian(lo / TWO_8, n - 1) + LittleEndian(hi, m);
        assert BigEndian(y, (n - 1) + m) == BigEndian(hi, m) + BigEndian(lo / TWO_8, n - 1);
      }
    }
  }

  lemma HalvesStep(hi: nat, lo: nat, n: nat)
    requires n > 0 && lo < Range(n)
    ensures (hi * Range(n) + lo) / TWO_8 == hi * Range(n - 1) + lo / TWO_8
    ensures (hi * Range(n) + lo) % TWO_8 == lo % TWO_8 && lo / TWO_8 < Range(n - 1)
  {
    var q := hi * Range(n - 1);
    assert hi * (TWO_8 * Range(n - 1)) == q * TWO_8;
    Peel(q + lo / TWO_8, lo % TWO_8);
  }

  /** On either host, storing the converted word gives the big-endian image. */
  lemma StoredWordIsBigEndian(h: Host, x: Word32)
    ensures Store(h, HostToNet32(h, x), 4) == BigEndian(x, 4)
  {
    Swap32Image(x);
  }

  lemma StoredDoubleWordIsBigEndian(h: Host, x: Word64)
    ensures Store(h, HostToNet64(h, x), 8) == BigEndian(x, 8)
  {
    if h.Little? {
      var hi, lo := x / TWO_32, x % TWO_32;
      Ranges();
      Swap32Image(hi);
      Swap32Image(lo);
      Halves(hi, lo, 4);
      Halves(Swap32(lo), Swap32(hi), 4);
      assert BigEndian(hi * Range(4) + lo, 4 + 4) == BigEndian(hi, 4) + BigEndian(lo, 4);
      assert LittleEndian(Swap32(lo) * Range(4) + Swap32(hi), 4 + 4) ==
             LittleEndian(Swap32(hi), 4) + LittleEndian(Swap32(lo), 4);
    }
  }

  lemma HalvesApart(a: Word32, b: Word32)
    ensures (a * TWO_32 + b) % TWO_32 == b && (a * TWO_32 + b) / TWO_32 == a
  {
  }

  /** Converting twice is the identity, so ntoh is hton. */
  lemma ConversionIsInvolution(h: Host, x: Word32, y: Word64)
    ensures HostToNet32(h, HostToNet32(h, x)) == x
    ensures HostToNet64(h, HostToNet64(h, y)) == y
  {
    hide Swap32;
    if h.Little? {
      Swap32Twice(x);
      Swap32Twice(y % TWO_32);
      Swap32Twice(y / TWO_32);
      HalvesApart(Swap32(y % TWO_32), Swap32(y / TWO_32));
    }
  }

  /** READ_FIXED: whatever the host, loading and converting recovers the number whose
      big-endian image is in memory. */
  lemma LoadedWord(h: Host, b: seq<Byte>)
    requires |b| == 4
    ensures Load(h, b) < TWO_32 && HostToNet32(h, Load(h, b)) == FromBigEndian(b) < TWO_32
  {
    Ranges();
    FromBigEndianInverse(b);
    if h.Little? {
      FromLittleEndianInverse(b);
      var x := FromBigEndian(b);
      StoredWordIsBigEndian(h, x);
      LittleEndianInverse(Swap32(x), 4);
      ConversionIsInvolution(h, x, 0);
    }
  }

  lemma LoadedDoubleWord(h: Host, b: seq<Byte>)
    requires |b| == 8
    ensures Load(h, b) < TWO_64 && HostToNet64(h, Load(h, b)) == FromBigEndian(b) < TWO_64
  {
    Ranges();
    FromBigEndianInverse(b);
    if h.Little? {
      FromLittleEndianInverse(b);
      var x := FromBigEndian(b);
      StoredDoubleWordIsBigEndian(h, x);
      LittleEndianInverse(HostToNet64(h, x), 8);
      ConversionIsInvolution(h, 0, x);
    }
  }

  // ---------- Signed words ----------

  type Int32 = i: int | -TWO_31 <= i < TWO_31
  type Int64 = i: int | -TWO_63 <= i < TWO_63

  function Unsigned32(i: Int32): Word32 {
    if i < 0 then i + TWO_32 else i
  }

  function Signed32(w: Word32): (i: Int32)
    ensures Unsigned32(i) == w
  {
    if w < TWO_31 then w else w - TWO_32
  }

  function Unsigned64(i: Int64): Word64 {
    if i < 0 then i + TWO_64 else i
  }

  function Signed64(w: Word64): (i: Int64)
    ensures Unsigned64(i) == w
  {
    if w < TWO_63 then w else w - TWO_64
  }

  /** A byte as the source's char, which is signed. */
  function SignedChar(b: Byte): int {
    if b < 128 then b else b - 256
  }
}
