/** Counting and searching bits a word at a time.

    The address of the buffer enters only through its alignment, so that is a parameter.
    Words are integers; 32-bit sums and products wrap explicitly.
 */
module BitScan {
  import opened BitFields

  const TWO32: int := 0x1_0000_0000

  /** Bitwise and. */
  function And(x: nat, y: nat): nat {
    if x == 0 then 0 else 2 * And(x / 2, y / 2) + if x % 2 == 1 && y % 2 == 1 then 1 else 0
  }

  function Bit(b: bv8, i: nat): (r: nat)
    requires i < 8
    ensures r <= 1
  {
    if ByteBit(b, i) then 1 else 0
  }

  /** A byte is the number its bits spell. */
  lemma ByteValue(b: bv8)
    ensures b as int == Bit(b, 0) + 2 * Bit(b, 1) + 4 * Bit(b, 2) + 8 * Bit(b, 3)
                        + 16 * Bit(b, 4) + 32 * Bit(b, 5) + 64 * Bit(b, 6) + 128 * Bit(b, 7)
  {}

  // ---- bitwise and, lane by lane --------------------------------------------

  lemma {:induction false} AndNothing(x: nat)
    ensures And(x, 0) == 0
  {
    if x > 0 { AndNothing(x / 2); }
  }

  lemma AndStep(e: nat, x: nat, f: nat, m: nat)
    requires e <= 1 && f <= 1
    ensures And(e + 2 * x, f + 2 * m) == 2 * And(x, m) + if e == 1 && f == 1 then 1 else 0
  {
    assert (e + 2 * x) / 2 == x && (f + 2 * m) / 2 == m;
  }

  /** A word and a mask cut at the same bit, with p the power of two there, are masked
      part by part. */
  lemma {:induction false} AndSplit(k: nat, p: nat, x: nat, y: nat, m: nat, n: nat)
    requires p == Pow2(k) && x < p && m < p
    ensures And(x + p * y, m + p * n) == And(x, m) + p * And(y, n)
    decreases k
  {
    hide And;
    if k > 0 {
      var h := Pow2(k - 1);
      AndSplit(k - 1, h, x / 2, y, m / 2, n);
      AndStep(x % 2, x / 2, m % 2, m / 2);
      AndStep(x % 2, x / 2 + h * y, m % 2, m / 2 + h * n);
      Doubled(h, x, y);
      Doubled(h, m, n);
      DoubledProduct(h, And(y, n));
    } else {
      AndStep(0, 0, 0, 0);
    }
  }

  lemma DoubledProduct(h: nat, t: nat)
    ensures 2 * h * t == 2 * (h * t)
  {}

  lemma Doubled(h: nat, x: nat, y: nat)
    ensures x + 2 * h * y == x % 2 + 2 * (x / 2 + h * y)
  {}

  lemma AndLow(k: nat, p: nat, x: nat, y: nat, m: nat)
    requires p == Pow2(k) && x < p && m < p
    ensures And(x + p * y, m) == And(x, m)
  {
    hide And;
    AndSplit(k, p, x, y, m, 0);
    AndNothing(y);
  }

  /** Masking with 2^k - 1 keeps the low k bits. */
  lemma {:induction false} AndOnes(k: nat, p: nat, x: nat, y: nat)
    requires p == Pow2(k) && x < p
    ensures And(x + p * y, p - 1) == x
    decreases k
  {
    hide And;
    if k == 0 {
      AndNothing(x + y);
    } else {
      var h := Pow2(k - 1);
      AndOnes(k - 1, h, x / 2, y);
      AndStep(x % 2, x / 2 + h * y, 1, h - 1);
      Doubled(h, x, y);
    }
  }

  // ---- counting -------------------------------------------------------------

  /** bitsinbyte. */
  function BitsInByte(b: bv8): (n: nat)
    ensures n <= 8
  {
    Bit(b, 0) + Bit(b, 1) + Bit(b, 2) + Bit(b, 3) + Bit(b, 4) + Bit(b, 5) + Bit(b, 6) + Bit(b, 7)
  }

  /** The bits set in the first n bytes, one byte at a time. */
  function CountBytes(s: seq<bv8>, n: nat): nat
    requires n <= |s|
  {
    if n == 0 then 0 else CountBytes(s, n - 1) + BitsInByte(s[n - 1])
  }

  function Word(a: nat, b: nat, c: nat, d: nat): nat { a + 256 * (b + 256 * (c + 256 * d)) }

  // The three masking steps, on a word and on one of its bytes.

  function Pairs(w: nat): nat { (w - And(w / 2, 0x55555555)) % TWO32 }

  function Nibbles(w: nat): nat { (And(w, 0x33333333) + And(w / 4, 0x33333333)) % TWO32 }

  function Folded(w: nat): nat { w + w / 16 }

  function Bytes(w: nat): nat { And(Folded(w) % TWO32, 0x0F0F0F0F) }

  function Lanes(w: nat): nat { Bytes(Nibbles(Pairs(w))) }

  lemma Powers()
    ensures Pow2(0) == 1 && Pow2(1) == 2 && Pow2(2) == 4 && Pow2(4) == 16 && Pow2(6) == 64 && Pow2(7) == 128
            && Pow2(8) == 256
  {}

  /** A shift by j with q == 256 >> j: the mask of a lane stays clear of the bits that come
      in from the next. */
  predicate Clear(j: nat, k: nat, q: nat, m: nat) {
    ((j == 0 && k == 1 && q == 256) || (j == 1 && k == 2 && q == 128) || (j == 2 && k == 4 && q == 64)) && m < q
  }

  lemma ShiftIn(j: nat, k: nat, q: nat, m: nat, a: nat, r: nat)
    requires Clear(j, k, q, m) && a < 256
    ensures (a + 256 * r) / k == (a / k + q * (r % k)) + 256 * (r / k)
    ensures a / k < q && a / k + q * (r % k) < 256
  {}

  lemma MaskStep(j: nat, k: nat, q: nat, a: nat, r: nat, m: nat, n: nat)
    requires Clear(j, k, q, m) && a < 256
    ensures And((a + 256 * r) / k, m + 256 * n) == And(a / k, m) + 256 * And(r / k, n)
  {
    hide And, Pow2;
    Powers();
    ShiftIn(j, k, q, m, a, r);
    AndSplit(8, 256, a / k + q * (r % k), r / k, m, n);
    AndLow(8 - j, q, a / k, r % k, m);
  }

  /** A mask that stays clear of the bits a shift brings in works lane by lane. */
  lemma MaskLanes(j: nat, k: nat, q: nat, a: nat, b: nat, c: nat, d: nat, m: nat)
    requires Clear(j, k, q, m) && a < 256 && b < 256 && c < 256 && d < 256
    ensures And(Word(a, b, c, d) / k, Word(m, m, m, m))
            == Word(And(a / k, m), And(b / k, m), And(c / k, m), And(d / k, m))
  {
    hide And;
    MaskStep(j, k, q, a, b + 256 * (c + 256 * d), m, m + 256 * (m + 256 * m));
    MaskStep(j, k, q, b, c + 256 * d, m, m + 256 * m);
    MaskStep(j, k, q, c, d, m, m);
  }

  /** The last step adds before it masks; no lane reaches 256. */
  lemma BytesStep(a: nat, r: nat, n: nat)
    requires a + a / 16 + 16 * (r % 16) < 256
    ensures And(Folded(a + 256 * r), 15 + 256 * n) == Bytes8(a) + 256 * And(Folded(r), n)
  {
    hide And, Pow2;
    Powers();
    assert (a + 256 * r) + (a + 256 * r) / 16 == (a + a / 16 + 16 * (r % 16)) + 256 * (r + r / 16);
    AndSplit(8, 256, a + a / 16 + 16 * (r % 16), r + r / 16, 15, n);
    var x := a + a / 16;
    AndOnes(4, 16, x % 16, x / 16 + r % 16);
    assert x + 16 * (r % 16) == x % 16 + 16 * (x / 16 + r % 16);
  }

  /** The steps on one byte. */
  function Pairs8(a: nat): int { a - And(a / 2, 0x55) }

  function Nibbles8(a: nat): nat { And(a, 0x33) + And(a / 4, 0x33) }

  function Bytes8(a: nat): nat { Folded(a) % 16 }

  lemma AndFives(h0: nat, l0: nat, h1: nat, l1: nat, h2: nat, l2: nat, h3: nat)
    requires h0 <= 1 && l0 <= 1 && h1 <= 1 && l1 <= 1 && h2 <= 1 && l2 <= 1 && h3 <= 1
    ensures And((h0 + 2 * l0) + 4 * ((h1 + 2 * l1) + 4 * ((h2 + 2 * l2) + 4 * h3)), 0x55)
            == h0 + 4 * (h1 + 4 * (h2 + 4 * h3))
  {
    hide And, Pow2;
    Powers();
    AndSplit(2, 4, h0 + 2 * l0, (h1 + 2 * l1) + 4 * ((h2 + 2 * l2) + 4 * h3), 1, 21);
    AndSplit(2, 4, h1 + 2 * l1, (h2 + 2 * l2) + 4 * h3, 1, 5);
    AndSplit(2, 4, h2 + 2 * l2, h3, 1, 1);
    AndOnes(1, 2, h0, l0);
    AndOnes(1, 2, h1, l1);
    AndOnes(1, 2, h2, l2);
    AndOnes(1, 2, h3, 0);
  }

  lemma AndThrees(p: nat, q: nat, r: nat, s: nat)
    requires p < 4 && q < 4 && r < 4 && s < 4
    ensures And((p + 4 * q) + 16 * (r + 4 * s), 0x33) == p + 16 * r
  {
    hide And, Pow2;
    Powers();
    AndSplit(4, 16, p + 4 * q, r + 4 * s, 3, 3);
    AndOnes(2, 4, p, q);
    AndOnes(2, 4, r, s);
  }

  lemma PairsOfBits(e0: nat, e1: nat, e2: nat, e3: nat, e4: nat, e5: nat, e6: nat, e7: nat)
    requires e0 <= 1 && e1 <= 1 && e2 <= 1 && e3 <= 1 && e4 <= 1 && e5 <= 1 && e6 <= 1 && e7 <= 1
    ensures Pairs8(e0 + 2 * ((e1 + 2 * e2) + 4 * ((e3 + 2 * e4) + 4 * ((e5 + 2 * e6) + 4 * e7))))
            == (e0 + e1 + 4 * (e2 + e3)) + 16 * (e4 + e5 + 4 * (e6 + e7))
  {
    hide And;
    var x := (e1 + 2 * e2) + 4 * ((e3 + 2 * e4) + 4 * ((e5 + 2 * e6) + 4 * e7));
    Halved(e0, x);
    AndFives(e1, e2, e3, e4, e5, e6, e7);
  }

  lemma Halved(e: nat, x: nat)
    requires e <= 1
    ensures (e + 2 * x) / 2 == x
  {}

  lemma NibblesOfPairs(p0: nat, p1: nat, p2: nat, p3: nat)
    requires p0 <= 2 && p1 <= 2 && p2 <= 2 && p3 <= 2
    ensures Nibbles8((p0 + 4 * p1) + 16 * (p2 + 4 * p3)) == (p0 + p1) + 16 * (p2 + p3)
  {
    hide And;
    AndThrees(p0, p1, p2, p3);
    AndThrees(p1, p2, p3, 0);
    Quartered(p0, p1 + 4 * p2 + 16 * p3);
  }

  lemma Quartered(p: nat, x: nat)
    requires p < 4
    ensures (p + 4 * x) / 4 == x
  {}

  lemma BytesOfNibbles(n0: nat, n1: nat)
    requires n0 <= 4 && n1 <= 4
    ensures Bytes8(n0 + 16 * n1) == n0 + n1 && Low(n0 + 16 * n1)
  {
    DivUnique(n0 + 16 * n1, 16, n1, n0);
    DivUnique(n0 + 17 * n1, 16, n1, n0 + n1);
  }

  /** Both nibbles are at most 4. */
  predicate Low(a: nat) { a <= 0x44 && a % 16 <= 4 }

  lemma StepsOfBits(a: nat, e0: nat, e1: nat, e2: nat, e3: nat, e4: nat, e5: nat, e6: nat, e7: nat)
    requires e0 <= 1 && e1 <= 1 && e2 <= 1 && e3 <= 1 && e4 <= 1 && e5 <= 1 && e6 <= 1 && e7 <= 1
    requires a == e0 + 2 * e1 + 4 * e2 + 8 * e3 + 16 * e4 + 32 * e5 + 64 * e6 + 128 * e7
    ensures 0 <= Pairs8(a) < 256 && Low(Nibbles8(Pairs8(a)))
    ensures Bytes8(Nibbles8(Pairs8(a))) == e0 + e1 + e2 + e3 + e4 + e5 + e6 + e7
  {
    hide Pairs8, Nibbles8, Bytes8, Low;
    PairsOfBits(e0, e1, e2, e3, e4, e5, e6, e7);
    var x := e0 + 2 * ((e1 + 2 * e2) + 4 * ((e3 + 2 * e4) + 4 * ((e5 + 2 * e6) + 4 * e7)));
    assert a == x;
    NibblesOfPairs(e0 + e1, e2 + e3, e4 + e5, e6 + e7);
    BytesOfNibbles(e0 + e1 + (e2 + e3), e4 + e5 + (e6 + e7));
  }

  /** Step by step the pairs, the nibbles and the byte come to hold their number of bits. */
  lemma ByteSteps(b: bv8)
    ensures 0 <= Pairs8(b as int) < 256
    ensures Low(Nibbles8(Pairs8(b as int)))
    ensures Bytes8(Nibbles8(Pairs8(b as int))) == BitsInByte(b)
  {
    hide Bit, Pairs8, Nibbles8, Bytes8, Low;
    ByteValue(b);
    StepsOfBits(b as int, Bit(b, 0), Bit(b, 1), Bit(b, 2), Bit(b, 3), Bit(b, 4), Bit(b, 5), Bit(b, 6), Bit(b, 7));
  }

  lemma WordRange(a: nat, b: nat, c: nat, d: nat)
    requires a < 256 && b < 256 && c < 256 && d < 256
    ensures Word(a, b, c, d) < TWO32 && Word(a, b, c, d) % TWO32 == Word(a, b, c, d)
  {}

  lemma WordSum(a: nat, b: nat, c: nat, d: nat, w: nat, x: nat, y: nat, z: nat)
    ensures Word(a + w, b + x, c + y, d + z) == Word(a, b, c, d) + Word(w, x, y, z)
  {}

  lemma PairsLanes(a: nat, b: nat, c: nat, d: nat)
    requires a < 256 && b < 256 && c < 256 && d < 256
    requires 0 <= Pairs8(a) < 256 && 0 <= Pairs8(b) < 256 && 0 <= Pairs8(c) < 256 && 0 <= Pairs8(d) < 256
    ensures Pairs(Word(a, b, c, d)) == Word(Pairs8(a), Pairs8(b), Pairs8(c), Pairs8(d))
  {
    hide And, Word;
    Masks();
    MaskLanes(1, 2, 128, a, b, c, d, 0x55);
    WordSum(Pairs8(a), Pairs8(b), Pairs8(c), Pairs8(d),
      And(a / 2, 0x55), And(b / 2, 0x55), And(c / 2, 0x55), And(d / 2, 0x55));
    WordRange(Pairs8(a), Pairs8(b), Pairs8(c), Pairs8(d));
  }

  lemma Masks()
    ensures Word(0x55, 0x55, 0x55, 0x55) == 0x55555555 && Word(0x33, 0x33, 0x33, 0x33) == 0x33333333
  {}

  lemma NibblesLanes(a: nat, b: nat, c: nat, d: nat)
    requires a < 256 && b < 256 && c < 256 && d < 256
    requires Nibbles8(a) < 256 && Nibbles8(b) < 256 && Nibbles8(c) < 256 && Nibbles8(d) < 256
    ensures Nibbles(Word(a, b, c, d)) == Word(Nibbles8(a), Nibbles8(b), Nibbles8(c), Nibbles8(d))
  {
    hide And, Word;
    Masks();
    MaskLanes(0, 1, 256, a, b, c, d, 0x33);
    MaskLanes(2, 4, 64, a, b, c, d, 0x33);
    WordSum(And(a, 0x33), And(b, 0x33), And(c, 0x33), And(d, 0x33),
      And(a / 4, 0x33), And(b / 4, 0x33), And(c / 4, 0x33), And(d / 4, 0x33));
    WordRange(Nibbles8(a), Nibbles8(b), Nibbles8(c), Nibbles8(d));
  }

  lemma BytesRange(a: nat, b: nat, c: nat, d: nat)
    requires Low(a) && Low(b) && Low(c) && Low(d)
    ensures var w := Word(a, b, c, d); Folded(w) % TWO32 == Folded(w)
  {
    WordRange(0x44, 0x44, 0x44, 0x44);
    assert Word(a, b, c, d) <= Word(0x44, 0x44, 0x44, 0x44);
  }

  lemma BytesLanes(a: nat, b: nat, c: nat, d: nat)
    requires Low(a) && Low(b) && Low(c) && Low(d)
    ensures Bytes(Word(a, b, c, d)) == Word(Bytes8(a), Bytes8(b), Bytes8(c), Bytes8(d))
  {
    hide And, Low, Folded, Bytes8;
    BytesRange(a, b, c, d);
    LowSum(a, b, c + 256 * d);
    LowSum(b, c, d);
    LowSum(c, d, 0);
    LowSum(d, 0, 0);
    BytesStep(a, b + 256 * (c + 256 * d), 0x0F0F0F);
    BytesStep(b, c + 256 * d, 0x0F0F);
    BytesStep(c, d, 0x0F);
    BytesStep(d, 0, 0);
    AndNothing(Folded(0));
  }

  lemma LowSum(a: nat, b: nat, r: nat)
    requires Low(a) && (Low(b) || b == 0)
    ensures a + a / 16 + 16 * ((b + 256 * r) % 16) < 256
  {
    DivUnique(b + 256 * r, 16, b / 16 + 16 * r, b % 16);
  }

  /** The steps leave in each lane of a word the count of its byte. */
  lemma LanesCount(a: bv8, b: bv8, c: bv8, d: bv8)
    ensures Lanes(Word(a as int, b as int, c as int, d as int))
            == Word(BitsInByte(a), BitsInByte(b), BitsInByte(c), BitsInByte(d))
  {
    hide And, BitsInByte, Pairs8, Nibbles8, Bytes8, Pairs, Nibbles, Bytes, Word;
    ByteSteps(a);
    ByteSteps(b);
    ByteSteps(c);
    ByteSteps(d);
    PairsLanes(a as int, b as int, c as int, d as int);
    var w, x, y, z := Pairs8(a as int), Pairs8(b as int), Pairs8(c as int), Pairs8(d as int);
    NibblesLanes(w, x, y, z);
    BytesLanes(Nibbles8(w), Nibbles8(x), Nibbles8(y), Nibbles8(z));
  }

  /** The multiplication adds the four lanes up in the top one. */
  lemma Gather(a: nat, b: nat, c: nat, d: nat)
    requires a + b + c + d < 256
    ensures Word(a, b, c, d) % TWO32 * 0x01010101 % TWO32 / 0x1000000 == a + b + c + d
  {
    WordRange(a, b, c, d);
    var low := a + 256 * (a + b) + 65536 * (a + b + c);
    DivUnique(Word(a, b, c, d) * 0x01010101, TWO32, b + c + d + 256 * (c + d) + 65536 * d,
      low + 0x1000000 * (a + b + c + d));
  }

  /** Four bytes as the machine loads them. */
  function WordAt(s: seq<bv8>, i: nat): nat
    requires i + 4 <= |s|
  {
    Word(s[i] as int, s[i + 1] as int, s[i + 2] as int, s[i + 3] as int)
  }

  /** Lane l of the sum over k words. */
  function Lane(s: seq<bv8>, i: nat, k: nat, l: nat): (n: nat)
    requires l < 4 && i + 4 * k <= |s|
    ensures n <= 8 * k
  {
    if k == 0 then 0 else Lane(s, i, k - 1, l) + BitsInByte(s[i + 4 * (k - 1) + l])
  }

  function LaneSum(s: seq<bv8>, i: nat, k: nat): nat
    requires i + 4 * k <= |s|
  {
    if k == 0 then 0 else LaneSum(s, i, k - 1) + Lanes(WordAt(s, i + 4 * (k - 1)))
  }

  lemma NoWords()
    ensures Word(0, 0, 0, 0) == 0
  {}

  lemma FourBytes(s: seq<bv8>, j: nat)
    requires j + 4 <= |s|
    ensures CountBytes(s, j + 4)
            == CountBytes(s, j) + BitsInByte(s[j]) + BitsInByte(s[j + 1]) + BitsInByte(s[j + 2]) + BitsInByte(s[j + 3])
  {
    hide BitsInByte;
    assert CountBytes(s, j + 1) == CountBytes(s, j) + BitsInByte(s[j]);
    assert CountBytes(s, j + 2) == CountBytes(s, j + 1) + BitsInByte(s[j + 1]);
    assert CountBytes(s, j + 3) == CountBytes(s, j + 2) + BitsInByte(s[j + 2]);
  }

  lemma {:induction false} LaneSums(s: seq<bv8>, i: nat, k: nat)
    requires i + 4 * k <= |s|
    ensures LaneSum(s, i, k) == Word(Lane(s, i, k, 0), Lane(s, i, k, 1), Lane(s, i, k, 2), Lane(s, i, k, 3))
    ensures Lane(s, i, k, 0) + Lane(s, i, k, 1) + Lane(s, i, k, 2) + Lane(s, i, k, 3)
            == CountBytes(s, i + 4 * k) - CountBytes(s, i)
    decreases k
  {
    hide Lanes, BitsInByte, CountBytes, Word;
    if k == 0 {
      NoWords();
    } else {
      var j := i + 4 * (k - 1);
      LaneSums(s, i, k - 1);
      LanesCount(s[j], s[j + 1], s[j + 2], s[j + 3]);
      FourBytes(s, j);
      WordSum(Lane(s, i, k - 1, 0), Lane(s, i, k - 1, 1), Lane(s, i, k - 1, 2), Lane(s, i, k - 1, 3),
              BitsInByte(s[j]), BitsInByte(s[j + 1]), BitsInByte(s[j + 2]), BitsInByte(s[j + 3]));
    }
  }

  /** Seven words at a time: no lane of the sum overflows, nor does their total. */
  lemma SevenWords(s: seq<bv8>, i: nat)
    requires i + 28 <= |s|
    ensures LaneSum(s, i, 7) % TWO32 * 0x01010101 % TWO32 / 0x1000000 == CountBytes(s, i + 28) - CountBytes(s, i)
  {
    hide CountBytes, Word, Lane, LaneSum;
    LaneSums(s, i, 7);
    Gather(Lane(s, i, 7, 0), Lane(s, i, 7, 1), Lane(s, i, 7, 2), Lane(s, i, 7, 3));
  }

  lemma Unrolled(s: seq<bv8>, i: nat)
    requires i + 28 <= |s|
    ensures LaneSum(s, i, 7)
            == Lanes(WordAt(s, i)) + Lanes(WordAt(s, i + 4)) + Lanes(WordAt(s, i + 8)) + Lanes(WordAt(s, i + 12))
               + Lanes(WordAt(s, i + 16)) + Lanes(WordAt(s, i + 20)) + Lanes(WordAt(s, i + 24))
  {
    hide Lanes, WordAt;
    assert LaneSum(s, i, 1) == LaneSum(s, i, 0) + Lanes(WordAt(s, i));
    assert LaneSum(s, i, 2) == LaneSum(s, i, 1) + Lanes(WordAt(s, i + 4));
    assert LaneSum(s, i, 3) == LaneSum(s, i, 2) + Lanes(WordAt(s, i + 8));
    assert LaneSum(s, i, 4) == LaneSum(s, i, 3) + Lanes(WordAt(s, i + 12));
    assert LaneSum(s, i, 5) == LaneSum(s, i, 4) + Lanes(WordAt(s, i + 16));
    assert LaneSum(s, i, 6) == LaneSum(s, i, 5) + Lanes(WordAt(s, i + 20));
  }

  method Count28(p: array<bv8>, i: nat) returns (n: nat)
    requires i + 28 <= p.Length
    ensures n == CountBytes(p[..], i + 28) - CountBytes(p[..], i)
  {
    hide CountBytes, Lanes, WordAt, LaneSum;
    var s := p[..];
    var aux1, aux2, aux3, aux4 := WordAt(s, i), WordAt(s, i + 4), WordAt(s, i + 8), WordAt(s, i + 12);
    var aux5, aux6, aux7 := WordAt(s, i + 16), WordAt(s, i + 20), WordAt(s, i + 24);
    var sum := (Lanes(aux1) + Lanes(aux2) + Lanes(aux3) + Lanes(aux4)
      + Lanes(aux5) + Lanes(aux6) + Lanes(aux7)) % TWO32;
    n := sum * 0x01010101 % TWO32 / 0x1000000;
    Unrolled(s, i);
    SevenWords(s, i);
  }

  /** redisPopcount without the POPCNT instruction. */
  method Popcount(p: array<bv8>, length: nat, address: nat) returns (bits: nat)
    requires length <= p.Length
    ensures bits == SetBits(p[..], 8 * length)
  {
    hide BitsInByte, SetBits;
    bits := 0;
    var i, count := 0, length;
    while (address + i) % 4 != 0 && count != 0
      invariant i + count == length && bits == CountBytes(p[..], i)
      decreases count
    {
      bits := bits + BitsInByte(p[i]);
      i, count := i + 1, count - 1;
    }
    while count >= 28
      invariant i + count == length && bits == CountBytes(p[..], i)
    {
      var n := Count28(p, i);
      bits := bits + n;
      i, count := i + 28, count - 28;
    }
    while count != 0
      invariant i + count == length && bits == CountBytes(p[..], i)
      decreases count
    {
      bits := bits + BitsInByte(p[i]);
      i, count := i + 1, count - 1;
    }
    CountIsSetBits(p[..], length);
  }

  /** The number of set bits among the first n. */
  ghost function SetBits(s: seq<bv8>, n: nat): nat
    requires n <= 8 * |s|
  {
    if n == 0 then 0 else SetBits(s, n - 1) + if BitAt(s, n - 1) then 1 else 0
  }

  lemma {:induction false} CountIsSetBits(s: seq<bv8>, n: nat)
    requires n <= |s|
    ensures CountBytes(s, n) == SetBits(s, 8 * n)
  {
    hide BitsInByte, BitAt;
    if n > 0 {
      CountIsSetBits(s, n - 1);
      EightBits(s, n - 1);
    }
  }

  lemma NextSetBit(s: seq<bv8>, i: nat, r: nat)
    requires i < |s| && r < 8
    ensures SetBits(s, 8 * i + r + 1) == SetBits(s, 8 * i + r) + Bit(s[i], 7 - r)
  {
    hide ByteBit;
    assert (8 * i + r) / 8 == i && (8 * i + r) % 8 == r;
  }

  lemma EightBits(s: seq<bv8>, i: nat)
    requires i < |s|
    ensures SetBits(s, 8 * i + 8) == SetBits(s, 8 * i) + BitsInByte(s[i])
  {
    hide SetBits, Bit;
    NextSetBit(s, i, 0);
    NextSetBit(s, i, 1);
    NextSetBit(s, i, 2);
    NextSetBit(s, i, 3);
    NextSetBit(s, i, 4);
    NextSetBit(s, i, 5);
    NextSetBit(s, i, 6);
    NextSetBit(s, i, 7);
  }

  // ---- searching ------------------------------------------------------------

  /** The byte with no bit of the kind looked for. */
  function Skip(bit: bool): bv8 { if bit then 0 else 0xFF }

  lemma SkipByte(bit: bool, r: nat)
    requires r < 8
    ensures ByteBit(Skip(bit), r) != bit
  {}

  lemma {:induction false} OtherByte(b: bv8, bit: bool) returns (r: nat)
    requires b != Skip(bit)
    ensures r < 8 && ByteBit(b, 7 - r) == bit
  {
    if ByteBit(b, 7) == bit { r := 0; }
    else if ByteBit(b, 6) == bit { r := 1; }
    else if ByteBit(b, 5) == bit { r := 2; }
    else if ByteBit(b, 4) == bit { r := 3; }
    else if ByteBit(b, 3) == bit { r := 4; }
    else if ByteBit(b, 2) == bit { r := 5; }
    else if ByteBit(b, 1) == bit { r := 6; }
    else { r := 7; }
  }

  /** n bytes as an unsigned long. */
  function Load(s: seq<bv8>, i: nat, n: nat): nat
    requires i + n <= |s|
    decreases n
  {
    if n == 0 then 0 else s[i] as int + 256 * Load(s, i + 1, n - 1)
  }

  predicate Skipped(s: seq<bv8>, i: nat, n: nat, bit: bool)
    requires i + n <= |s|
  {
    forall j :: i <= j < i + n ==> s[j] == Skip(bit)
  }

  lemma ByteOf(b: bv8, bit: bool)
    ensures 0 <= b as int <= 255 && (b as int == (if bit then 0 else 255) <==> b == Skip(bit))
  {}

  /** A word is all zeroes, or all ones, exactly when its bytes are. */
  lemma {:induction false} LoadSkips(s: seq<bv8>, i: nat, n: nat, bit: bool)
    requires i + n <= |s|
    ensures Load(s, i, n) < Pow2(8 * n)
    ensures Load(s, i, n) == (if bit then 0 else Pow2(8 * n) - 1) <==> Skipped(s, i, n, bit)
    decreases n
  {
    hide Pow2, Skipped, Skip;
    if n == 0 {
      Pow2Zero();
      NoneSkipped(s, i, bit);
    } else {
      LoadSkips(s, i + 1, n - 1, bit);
      ByteOf(s[i], bit);
      Pow2Add(8 * (n - 1), 8);
      Powers();
      SkipSum(s[i] as int, Load(s, i + 1, n - 1), Pow2(8 * (n - 1)), bit);
      MoreSkipped(s, i, n, bit);
    }
  }

  lemma NoneSkipped(s: seq<bv8>, i: nat, bit: bool)
    requires i <= |s|
    ensures Skipped(s, i, 0, bit)
  {}

  lemma MoreSkipped(s: seq<bv8>, i: nat, n: nat, bit: bool)
    requires 0 < n && i + n <= |s|
    ensures Skipped(s, i, n, bit) <==> s[i] == Skip(bit) && Skipped(s, i + 1, n - 1, bit)
  {}

  lemma SkipSum(b: int, rest: int, p: int, bit: bool)
    requires 0 <= b <= 255 && 0 <= rest < p
    ensures b + 256 * rest < 256 * p
    ensures b + 256 * rest == (if bit then 0 else 256 * p - 1)
            <==> b == (if bit then 0 else 255) && rest == (if bit then 0 else p - 1)
  {}

  /** The bits of a number spelled by a field are the field's bits. */
  lemma {:induction false} FieldBits(s: seq<bv8>, offset: nat, n: nat, k: nat)
    requires offset + n <= 8 * |s| && k < n
    ensures BitOf(Field(s, offset, n), n - 1 - k) == BitAt(s, offset + k)
  {
    hide BitAt;
    var x := Field(s, offset, n - 1);
    var e := if BitAt(s, offset + n - 1) then 1 else 0;
    Halved(e, x);
    if k == n - 1 {
      Pow2Zero();
    } else {
      FieldBits(s, offset, n - 1, k);
      DivTwice(e + 2 * x, Pow2(n - 2 - k));
      HalfShift(e, x, Pow2(n - 2 - k));
    }
  }

  lemma HalfShift(e: nat, x: nat, p: nat)
    requires e <= 1 && p > 0
    ensures (e + 2 * x) / (2 * p) == x / p
  {
    assert x == p * (x / p) + x % p;
    assert e + 2 * x == 2 * p * (x / p) + (e + 2 * (x % p));
    DivUnique(e + 2 * x, 2 * p, x / p, e + 2 * (x % p));
  }

  lemma {:induction false} FieldHasBit(s: seq<bv8>, offset: nat, n: nat) returns (k: nat)
    requires offset + n <= 8 * |s| && Field(s, offset, n) != 0
    ensures k < n && BitAt(s, offset + k)
  {
    hide BitAt;
    if BitAt(s, offset + n - 1) {
      k := n - 1;
    } else {
      k := FieldHasBit(s, offset, n - 1);
    }
  }

  lemma FieldByte(s: seq<bv8>, i: nat, n: nat)
    requires i + n < |s|
    ensures Field(s, 8 * i, 8 * n + 8) == 256 * Field(s, 8 * i, 8 * n) + s[i + n] as int
  {
    hide Bit, Field;
    ByteValue(s[i + n]);
    NextFourBits(s, i, n, 0);
    NextFourBits(s, i, n, 4);
  }

  lemma NextFourBits(s: seq<bv8>, i: nat, n: nat, r: nat)
    requires i + n < |s| && r <= 4
    ensures Field(s, 8 * i, 8 * n + r + 4)
            == 16 * Field(s, 8 * i, 8 * n + r)
               + 8 * Bit(s[i + n], 7 - r) + 4 * Bit(s[i + n], 6 - r) + 2 * Bit(s[i + n], 5 - r) + Bit(s[i + n], 4 - r)
  {
    hide Bit, Field;
    NextFieldBit(s, i, n, r);
    NextFieldBit(s, i, n, r + 1);
    NextFieldBit(s, i, n, r + 2);
    NextFieldBit(s, i, n, r + 3);
  }

  lemma NextFieldBit(s: seq<bv8>, i: nat, n: nat, r: nat)
    requires i + n < |s| && r < 8
    ensures Field(s, 8 * i, 8 * n + r + 1) == 2 * Field(s, 8 * i, 8 * n + r) + Bit(s[i + n], 7 - r)
  {
    hide ByteBit;
    assert (8 * i + 8 * n + r) / 8 == i + n && (8 * i + 8 * n + r) % 8 == r;
  }

  /** Testing a bit through a mask with one bit set. */
  lemma {:induction false} AndPower(t: nat, w: nat)
    ensures And(Pow2(t), w) != 0 <==> BitOf(w, t)
  {
    hide And;
    if t == 0 {
      AndStep(1, 0, w % 2, w / 2);
      AndZero(w / 2);
    } else {
      AndPower(t - 1, w / 2);
      AndStep(0, Pow2(t - 1), w % 2, w / 2);
      DivTwice(w, Pow2(t - 1));
      HalfShift(w % 2, w / 2, Pow2(t - 1));
    }
  }

  lemma AndZero(w: nat)
    ensures And(0, w) == 0
  {}

  /** None of the first n bits is the one looked for. */
  ghost predicate Before(s: seq<bv8>, n: nat, bit: bool)
    requires n <= 8 * |s|
  {
    forall k: nat :: k < n ==> BitAt(s, k) != bit
  }

  /** pos is the first bit of the kind looked for among the first n; -1 says there is no set
      bit, n that there is no clear one. */
  ghost predicate First(s: seq<bv8>, n: nat, bit: bool, pos: int)
    requires n <= 8 * |s|
  {
    if pos == -1 then bit && Before(s, n, bit)
    else 0 <= pos <= n && Before(s, pos, bit) && if pos < n then BitAt(s, pos) == bit else !bit
  }

  /** The buffer as the word loop sees it, zero padded on the right. */
  ghost function Padded(s: seq<bv8>, length: nat): seq<bv8>
    requires length <= |s|
  {
    s[..length] + [0, 0, 0, 0, 0, 0, 0, 0]
  }

  lemma PaddedBits(s: seq<bv8>, length: nat, k: nat)
    requires length <= |s| && k < 8 * length + 64
    ensures BitAt(Padded(s, length), k) <==> k < 8 * length && BitAt(s, k)
  {
    if k >= 8 * length {
      SkipByte(true, 7 - k % 8);
      assert Padded(s, length)[k / 8] == 0;
    }
  }

  lemma SkippedBits(s: seq<bv8>, i: nat, n: nat, bit: bool)
    requires i + n <= |s| && Before(s, 8 * i, bit) && Skipped(s, i, n, bit)
    ensures Before(s, 8 * (i + n), bit)
  {
    hide ByteBit, Skip;
    forall k: nat | k < 8 * (i + n) ensures BitAt(s, k) != bit {
      if k >= 8 * i {
        SkipByte(bit, 7 - k % 8);
        assert s[k / 8] == Skip(bit);
      }
    }
  }

  /** Whole bytes, until the address is aligned. */
  method SkipBytes(p: array<bv8>, length: nat, address: nat, bit: bool) returns (i: nat, found: bool)
    requires length <= p.Length
    ensures i <= length && Before(p[..], 8 * i, bit)
    ensures found ==> i < length && p[i] != Skip(bit)
  {
    hide BitAt, Skip;
    i, found := 0, false;
    while (address + i) % 8 != 0 && length - i != 0
      invariant i <= length && Before(p[..], 8 * i, bit) && !found
      decreases length - i
    {
      if p[i] != Skip(bit) {
        return i, true;
      }
      SkippedBits(p[..], i, 1, bit);
      i := i + 1;
    }
  }

  /** Whole words. */
  method SkipWords(p: array<bv8>, length: nat, start: nat, bit: bool) returns (i: nat)
    requires start <= length <= p.Length && Before(p[..], 8 * start, bit)
    ensures i <= length && Before(p[..], 8 * i, bit)
    ensures length - i < 8 || !Skipped(p[..], i, 8, bit)
  {
    hide BitAt, Skip, Load, Skipped;
    i := start;
    while length - i >= 8
      invariant i <= length && Before(p[..], 8 * i, bit)
    {
      LoadSkips(p[..], i, 8, bit);
      Pow2Of64();
      if Load(p[..], i, 8) != if bit then 0 else TWO64 - 1 {
        return;
      }
      SkippedBits(p[..], i, 8, bit);
      i := i + 8;
    }
  }

  /** The next eight bytes as one word, the first most significant, zeroes for missing ones. */
  method LoadWord(p: array<bv8>, length: nat, i: nat) returns (word: nat)
    requires i <= length <= p.Length
    ensures word == Field(Padded(p[..], length), 8 * i, 64)
  {
    hide Field, BitAt, Pow2;
    ghost var s := Padded(p[..], length);
    word := 0;
    var j := 0;
    NoField(s, 8 * i);
    while j < 8
      invariant j <= 8 && word == Field(s, 8 * i, 8 * j)
    {
      FieldByte(s, i, j);
      FieldRoom(s, i, j);
      word := word * 256 % TWO64;
      if i + j < length {
        word := word + p[i + j] as int;
      }
      j := j + 1;
    }
  }

  lemma FieldRoom(s: seq<bv8>, i: nat, j: nat)
    requires j < 8 && i + j < |s|
    ensures Field(s, 8 * i, 8 * j) * 256 < TWO64
  {
    hide Field;
    FieldByte(s, i, j);
    Pow2Grows(8 * j + 8, 64);
    Pow2Of64();
  }

  lemma NoField(s: seq<bv8>, offset: nat)
    requires offset <= 8 * |s|
    ensures Field(s, offset, 0) == 0
  {}

  /** Bit m of the word, from the top, is one that is looked for. */
  ghost predicate Matches(word: nat, bit: bool, m: nat) {
    m < 64 && BitOf(word, 63 - m) == bit
  }

  /** The bit-by-bit search of the last word; `panic` is the branch that aborts the server. */
  method ScanWord(word: nat, bit: bool, ghost m: nat) returns (k: nat, panic: bool)
    requires Matches(word, bit, m)
    ensures !panic && Matches(word, bit, k) && forall i: nat :: i < k ==> !Matches(word, bit, i)
  {
    hide And, BitOf;
    k := 0;
    var one := TWO63;
    Pow2Of64();
    AndPower(63, word);
    while one != 0 && (And(one, word) != 0) != bit
      invariant k <= m && one == Pow2(63 - k)
      invariant And(one, word) != 0 <==> BitOf(word, 63 - k)
      invariant forall i: nat :: i < k ==> !Matches(word, bit, i)
      decreases 64 - k
    {
      assert !Matches(word, bit, k);
      k, one := k + 1, one / 2;
      AndPower(63 - k, word);
    }
    panic := one == 0;
  }

  /** Where the word search has to stop: fewer than eight bytes are left, or one of the
      next eight is not to be skipped. */
  ghost predicate Stops(s: seq<bv8>, length: nat, i: nat, bit: bool)
    requires i <= length <= |s|
  {
    length - i < 8 || exists j :: i <= j < i + 8 && s[j] != Skip(bit)
  }

  lemma WordBit(s: seq<bv8>, length: nat, i: nat, k: nat)
    requires i <= length <= |s| && k < 64
    ensures BitOf(Field(Padded(s, length), 8 * i, 64), 63 - k) <==> 8 * i + k < 8 * length && BitAt(s, 8 * i + k)
  {
    hide BitAt, BitOf, Field;
    FieldBits(Padded(s, length), 8 * i, 64, k);
    PaddedBits(s, length, 8 * i + k);
  }

  /** A byte that is not to be skipped puts a match in the word. */
  lemma OtherByteMatches(s: seq<bv8>, length: nat, i: nat, j: nat, bit: bool) returns (m: nat)
    requires i <= j < i + 8 && j < length <= |s| && s[j] != Skip(bit)
    ensures Matches(Field(Padded(s, length), 8 * i, 64), bit, m)
  {
    hide BitOf, Field, ByteBit, Skip;
    var r := OtherByte(s[j], bit);
    m := 8 * (j - i) + r;
    assert (8 * i + m) / 8 == j && (8 * i + m) % 8 == r;
    WordBit(s, length, i, m);
  }

  lemma SomeMatch(s: seq<bv8>, length: nat, i: nat, bit: bool) returns (m: nat)
    requires i <= length <= |s| && Stops(s, length, i, bit)
    requires bit ==> Field(Padded(s, length), 8 * i, 64) != 0
    ensures Matches(Field(Padded(s, length), 8 * i, 64), bit, m)
  {
    hide BitOf, Field, BitAt, Skip;
    if bit {
      m := FieldHasBit(Padded(s, length), 8 * i, 64);
      FieldBits(Padded(s, length), 8 * i, 64, m);
    } else if length - i < 8 {
      m := 8 * (length - i);
      WordBit(s, length, i, m);
    } else {
      var j :| i <= j < i + 8 && s[j] != Skip(bit);
      m := OtherByteMatches(s, length, i, j, bit);
    }
  }

  /** A zero word has no set bit, and none is left after it. */
  lemma NoneLeft(s: seq<bv8>, length: nat, i: nat)
    requires i <= length <= |s| && Stops(s, length, i, true) && Before(s, 8 * i, true)
    requires Field(Padded(s, length), 8 * i, 64) == 0
    ensures Before(s, 8 * length, true)
  {
    hide BitOf, Field, BitAt, Skip;
    if length - i >= 8 {
      var j :| i <= j < i + 8 && s[j] != Skip(true);
      var m := OtherByteMatches(s, length, i, j, true);
      ZeroBits(63 - m);
    }
    forall k: nat | k < 8 * length ensures !BitAt(s, k) {
      if k >= 8 * i {
        WordBit(s, length, i, k - 8 * i);
        ZeroBits(63 - (k - 8 * i));
      }
    }
  }

  lemma ZeroBits(t: nat)
    ensures !BitOf(0, t)
  {}

  lemma FirstInWord(s: seq<bv8>, length: nat, i: nat, bit: bool, k: nat)
    requires i <= length <= |s| && Before(s, 8 * i, bit)
    requires var w := Field(Padded(s, length), 8 * i, 64);
             Matches(w, bit, k) && forall j: nat :: j < k ==> !Matches(w, bit, j)
    ensures First(s, 8 * length, bit, 8 * i + k)
  {
    hide BitOf, Field, BitAt;
    var w := Field(Padded(s, length), 8 * i, 64);
    WordBit(s, length, i, k);
    if 8 * i + k > 8 * length {
      assert !Matches(w, bit, 8 * (length - i));
      WordBit(s, length, i, 8 * (length - i));
    }
    forall n: nat | n < 8 * i + k && n < 8 * length ensures BitAt(s, n) != bit {
      if n >= 8 * i {
        assert !Matches(w, bit, n - 8 * i);
        WordBit(s, length, i, n - 8 * i);
      }
    }
  }

  /** redisBitpos. */
  method Bitpos(p: array<bv8>, length: nat, address: nat, bit: bool) returns (pos: int, panic: bool)
    requires length <= p.Length
    ensures !panic && First(p[..], 8 * length, bit, pos)
  {
    hide First, Before, Field, Skip, Padded;
    var i, found := SkipBytes(p, length, address, bit);
    if !found {
      i := SkipWords(p, length, i, bit);
    }
    var word := LoadWord(p, length, i);
    if bit && word == 0 {
      NoneLeft(p[..], length, i);
      NoneFirst(p[..], 8 * length);
      return -1, false;
    }
    ghost var m := SomeMatch(p[..], length, i, bit);
    var k;
    k, panic := ScanWord(word, bit, m);
    FirstInWord(p[..], length, i, bit, k);
    pos := 8 * i + k;
  }

  lemma NoneFirst(s: seq<bv8>, n: nat)
    requires n <= 8 * |s| && Before(s, n, true)
    ensures First(s, n, true, -1)
  {}

  /** The position is determined by the buffer. */
  lemma FirstUnique(s: seq<bv8>, n: nat, bit: bool, x: int, y: int)
    requires n <= 8 * |s| && First(s, n, bit, x) && First(s, n, bit, y)
    ensures x == y
  {
    hide BitAt;
  }
}
