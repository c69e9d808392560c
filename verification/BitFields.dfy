/** Integers of up to 64 bits at any bit position of a byte buffer, and the overflow checks
    that decide what an increment stores. Bit 0 is the most significant bit of byte 0.

    64-bit quantities are integers with their width written out: Unsigned wraps a result
    into 64 bits and Signed reads 64 bits as two's complement.
 */
module BitFields {

  const TWO63: int := 0x8000_0000_0000_0000
  const TWO64: int := 0x1_0000_0000_0000_0000

  type uint64 = x: int | 0 <= x < 0x1_0000_0000_0000_0000
  type int64 = x: int | -0x8000_0000_0000_0000 <= x < 0x8000_0000_0000_0000

  function Unsigned(x: int): uint64 { x % TWO64 }

  function Signed(x: uint64): int64 { if x < TWO63 then x else x - TWO64 }

  /** 2^n, 1 shifted left n times. */
  function Pow2(n: nat): (r: nat)
    ensures r >= 1
  {
    if n == 0 then 1 else 2 * Pow2(n - 1)
  }

  /** Bit i of a value, least significant first. */
  function BitOf(v: nat, i: nat): bool { v / Pow2(i) % 2 == 1 }

  /** 1 << i in a byte. */
  function Mask(i: nat): bv8
    requires i < 8
  {
    if i == 0 then 1 else if i == 1 then 2 else if i == 2 then 4 else if i == 3 then 8
    else if i == 4 then 16 else if i == 5 then 32 else if i == 6 then 64 else 128
  }

  function ByteBit(b: bv8, i: nat): bool
    requires i < 8
  {
    b & Mask(i) != 0
  }

  /** Bit k of a buffer. */
  function BitAt(s: seq<bv8>, k: nat): bool
    requires k < 8 * |s|
  {
    ByteBit(s[k / 8], 7 - k % 8)
  }

  /** The number that the bits of a field spell, most significant first. */
  function Field(s: seq<bv8>, offset: nat, bits: nat): (v: nat)
    requires offset + bits <= 8 * |s|
    ensures v < Pow2(bits)
  {
    if bits == 0 then 0
    else 2 * Field(s, offset, bits - 1) + if BitAt(s, offset + bits - 1) then 1 else 0
  }

  function PutBit(b: bv8, i: nat, value: bool): bv8
    requires i < 8
  {
    (b & !Mask(i)) | if value then Mask(i) else 0
  }

  lemma PutBitReads(b: bv8, i: nat, value: bool, j: nat)
    requires i < 8 && j < 8
    ensures ByteBit(PutBit(b, i, value), j) == if i == j then value else ByteBit(b, j)
  {
  }

  // ---- powers of two --------------------------------------------------------

  lemma {:induction false} Pow2Grows(m: nat, n: nat)
    requires m <= n
    ensures Pow2(m) <= Pow2(n)
    decreases n
  {
    if m < n { Pow2Grows(m, n - 1); }
  }

  lemma {:induction false} Pow2Add(m: nat, n: nat)
    ensures Pow2(m + n) == Pow2(m) * Pow2(n)
  {
    if n > 0 {
      Pow2Add(m, n - 1);
      assert Pow2(m + n) == 2 * (Pow2(m) * Pow2(n - 1));
    }
  }

  lemma Pow2Of64()
    ensures Pow2(63) == TWO63 && Pow2(64) == TWO64
  {
    assert Pow2(16) == 65536;
    Pow2Add(16, 16);
    Pow2Add(32, 16);
    Pow2Add(48, 15);
    assert Pow2(15) == 32768;
  }

  lemma DivTwice(v: nat, p: nat)
    requires p > 0
    ensures v / (2 * p) == v / p / 2
  {
    var d := v / p;
    var e, b := d / 2, d % 2;
    assert v == p * d + v % p;
    assert p * d == 2 * p * e + p * b by { assert d == 2 * e + b; }
    assert 0 <= p * b <= p by { if b == 0 {} else {} }
    DivUnique(v, 2 * p, e, p * b + v % p);
  }

  /** Only 0 is a multiple of p strictly between -p and p. */
  lemma Multiple(p: int, k: int)
    requires p > 0 && -p < p * k < p
    ensures k == 0
  {
    assert k >= 1 ==> p * k >= p;
    assert k <= -1 ==> p * k <= -p;
  }

  lemma DivUnique(v: int, p: int, q: int, r: int)
    requires p > 0 && 0 <= r < p && v == p * q + r
    ensures v / p == q && v % p == r
  {
    var k := v / p - q;
    assert p * k == r - v % p;
    Multiple(p, k);
  }

  /** The low n + 1 bits of w are twice the low n bits of its half, plus its last bit. */
  lemma ModTwice(w: nat, p: nat)
    requires p > 0
    ensures w % (2 * p) == 2 * (w / 2 % p) + w % 2
  {
    var h := w / 2;
    assert h == p * (h / p) + h % p;
    assert w == 2 * p * (h / p) + (2 * (h % p) + w % 2);
    DivUnique(w, 2 * p, h / p, 2 * (h % p) + w % 2);
  }

  lemma Pow2Zero()
    ensures Pow2(0) == 1
  {}

  lemma NextBit(v: nat, m: nat, n: nat)
    ensures v / Pow2(m) % Pow2(n + 1) == 2 * (v / Pow2(m + 1) % Pow2(n)) + if BitOf(v, m) then 1 else 0
  {
    DivTwice(v, Pow2(m));
    ModTwice(v / Pow2(m), Pow2(n));
  }

  // ---- fields ---------------------------------------------------------------

  /** The field at offset holds the low bits of v. */
  ghost predicate Spells(s: seq<bv8>, offset: nat, bits: nat, v: nat)
    requires offset + bits <= 8 * |s|
  {
    forall k :: offset <= k < offset + bits ==> BitAt(s, k) == BitOf(v, offset + bits - 1 - k)
  }

  lemma {:induction false} SpelledPrefix(s: seq<bv8>, offset: nat, bits: nat, v: nat, n: nat)
    requires offset + bits <= 8 * |s| && Spells(s, offset, bits, v) && n <= bits
    ensures Field(s, offset, n) == v / Pow2(bits - n) % Pow2(n)
  {
    hide BitAt, Pow2;
    if n > 0 {
      SpelledPrefix(s, offset, bits, v, n - 1);
      NextBit(v, bits - n, n - 1);
      assert BitAt(s, offset + n - 1) == BitOf(v, bits - n);
    } else {
      Pow2Zero();
    }
  }

  /** Reading back what was written gives it modulo 2^bits. */
  lemma SpelledValue(s: seq<bv8>, offset: nat, bits: nat, v: nat)
    requires offset + bits <= 8 * |s| && Spells(s, offset, bits, v)
    ensures Field(s, offset, bits) == v % Pow2(bits)
  {
    SpelledPrefix(s, offset, bits, v, bits);
  }

  /** A field whose bits two buffers share reads the same in both. */
  lemma {:induction false} FieldSame(s: seq<bv8>, t: seq<bv8>, offset: nat, bits: nat)
    requires |s| == |t| && offset + bits <= 8 * |s|
    requires forall k: nat :: offset <= k < offset + bits ==> BitAt(s, k) == BitAt(t, k)
    ensures Field(s, offset, bits) == Field(t, offset, bits)
  {
    if bits > 0 { FieldSame(s, t, offset, bits - 1); }
  }

  /** setUnsignedBitfield. */
  method SetUnsigned(p: array<bv8>, offset: nat, bits: nat, value: uint64)
    requires bits <= 64 && offset + bits <= 8 * p.Length
    modifies p
    ensures Field(p[..], offset, bits) == value % Pow2(bits)
    ensures forall k: nat :: k < 8 * p.Length && !(offset <= k < offset + bits) ==>
              BitAt(p[..], k) == BitAt(old(p[..]), k)
  {
    hide BitAt, BitOf, PutBit;
    ghost var was := p[..];
    var at, j := offset, 0;
    while j < bits
      invariant j <= bits && at == offset + j
      invariant forall k: nat :: k < 8 * p.Length && !(offset <= k < at) ==> BitAt(p[..], k) == BitAt(was, k)
      invariant forall k :: offset <= k < at ==> BitAt(p[..], k) == BitOf(value, offset + bits - 1 - k)
    {
      ghost var before := p[..];
      p[at / 8] := PutBit(p[at / 8], 7 - at % 8, BitOf(value, bits - 1 - j));
      PutReads(before, p[..], at, BitOf(value, bits - 1 - j));
      at, j := at + 1, j + 1;
    }
    SpelledValue(p[..], offset, bits, value);
  }

  lemma PutReads(s: seq<bv8>, t: seq<bv8>, at: nat, value: bool)
    requires at < 8 * |s| && t == s[at / 8 := PutBit(s[at / 8], 7 - at % 8, value)]
    ensures forall k: nat :: k < 8 * |s| ==> BitAt(t, k) == if k == at then value else BitAt(s, k)
  {
    hide ByteBit, PutBit;
    forall k: nat | k < 8 * |s| ensures BitAt(t, k) == if k == at then value else BitAt(s, k) {
      if k / 8 == at / 8 {
        PutBitReads(s[at / 8], 7 - at % 8, value, 7 - k % 8);
      }
    }
  }

  /** getUnsignedBitfield. */
  method GetUnsigned(p: array<bv8>, offset: nat, bits: nat) returns (value: uint64)
    requires bits <= 64 && offset + bits <= 8 * p.Length
    ensures value == Field(p[..], offset, bits)
  {
    hide BitAt;
    value := 0;
    var at, j := offset, 0;
    while j < bits
      invariant j <= bits && at == offset + j && value == Field(p[..], offset, j)
    {
      Pow2Grows(j + 1, 64);
      Pow2Of64();
      assert Field(p[..], offset, j + 1) < Pow2(j + 1);
      var bitval := BitOfByte(p, at);
      value := Unsigned(2 * value + if bitval then 1 else 0);
      at, j := at + 1, j + 1;
    }
  }

  method BitOfByte(p: array<bv8>, at: nat) returns (bit: bool)
    requires at < 8 * p.Length
    ensures bit == BitAt(p[..], at)
  {
    var byteval := p[at / 8];
    bit := ByteBit(byteval, 7 - at % 8);
  }

  // ---- signed values --------------------------------------------------------

  function Min(sign: bool, bits: nat): int
    requires bits > 0
  {
    if sign then 0 - Pow2(bits - 1) else 0
  }

  function Max(sign: bool, bits: nat): int
    requires bits > 0
  {
    if sign then Pow2(bits - 1) - 1 else Pow2(bits) - 1
  }

  predicate InRange(x: int, sign: bool, bits: nat)
    requires bits > 0
  {
    Min(sign, bits) <= x <= Max(sign, bits)
  }

  predicate Congruent(x: int, y: int, m: nat) {
    m > 0 && x % m == y % m
  }

  /** The value in range that is congruent to x modulo 2^bits. */
  function Reduce(x: int, sign: bool, bits: nat): (r: int)
    requires bits > 0
    ensures InRange(r, sign, bits) && Congruent(r, x, Pow2(bits))
  {
    var u := x % Pow2(bits);
    ModAgain(x, Pow2(bits));
    if sign && u >= Pow2(bits - 1) then u - Pow2(bits) else u
  }

  lemma ModAgain(x: int, p: nat)
    requires p > 0
    ensures 0 <= x % p < p && (x % p) % p == x % p && (x % p - p) % p == x % p
  {
    DivUnique(x % p, p, 0, x % p);
    DivUnique(x % p - p, p, -1, x % p);
  }

  /** There is only one. */
  lemma ReduceUnique(x: int, y: int, sign: bool, bits: nat)
    requires bits > 0 && InRange(y, sign, bits) && Congruent(y, x, Pow2(bits))
    ensures y == Reduce(x, sign, bits)
  {
    assert Pow2(bits) == 2 * Pow2(bits - 1);
    CongruentClose(y, Reduce(x, sign, bits), Pow2(bits));
  }

  lemma CongruentClose(y: int, r: int, p: nat)
    requires p > 0 && y % p == r % p && y < r + p && r < y + p
    ensures y == r
  {
    var k := y / p - r / p;
    assert y - r == p * k;
    Multiple(p, k);
  }

  lemma ModOfProduct(x: int, p: nat, q: nat)
    requires p > 0 && q > 0
    ensures p * q > 0 && (x % (p * q)) % p == x % p
  {
    var m := p * q;
    var k, r := x / m, x % m;
    assert x == m * k + r && r == p * (r / p) + r % p;
    assert m * k == p * (q * k);
    DivUnique(x, p, q * k + r / p, r % p);
  }

  /** Wrapping into 64 bits does not change a value modulo 2^bits. */
  lemma UnsignedMod(x: int, bits: nat)
    requires bits <= 64
    ensures Unsigned(x) % Pow2(bits) == x % Pow2(bits)
  {
    Pow2Add(bits, 64 - bits);
    Pow2Of64();
    ModOfProduct(x, Pow2(bits), Pow2(64 - bits));
  }

  /** x | (-1 << bits): the low bits of x under ones. */
  function OnesAbove(x: uint64, bits: nat): uint64
    requires bits < 64
  {
    Pow2Grows(bits, 63);
    Pow2Of64();
    x % Pow2(bits) + (TWO64 - Pow2(bits))
  }

  /** x & ~(-1 << bits): the low bits of x under zeroes. */
  function ZeroesAbove(x: uint64, bits: nat): uint64
    requires bits < 64
  {
    Pow2Grows(bits, 63);
    Pow2Of64();
    x % Pow2(bits)
  }

  /** Spreading the top bit of a field over the bits above it reduces the value. */
  lemma SignSpread(x: uint64, bits: nat)
    requires 0 < bits < 64
    ensures Signed(if BitOf(x, bits - 1) then OnesAbove(x, bits) else ZeroesAbove(x, bits)) == Reduce(x, true, bits)
  {
    Pow2Grows(bits, 63);
    Pow2Of64();
    TopBit(x, bits);
  }

  lemma TopBit(x: nat, bits: nat)
    requires bits > 0
    ensures BitOf(x, bits - 1) <==> x % Pow2(bits) >= Pow2(bits - 1)
  {
    var h := Pow2(bits - 1);
    var d := x / h;
    assert Pow2(bits) == 2 * h;
    assert x == h * d + x % h;
    assert d == 2 * (d / 2) + d % 2;
    assert h * d == 2 * h * (d / 2) + h * (d % 2);
    DivUnique(x, 2 * h, d / 2, h * (d % 2) + x % h);
  }

  /** setSignedBitfield. */
  method SetSigned(p: array<bv8>, offset: nat, bits: nat, value: int64)
    requires bits <= 64 && offset + bits <= 8 * p.Length
    modifies p
    ensures Field(p[..], offset, bits) == value % Pow2(bits)
    ensures forall k: nat :: k < 8 * p.Length && !(offset <= k < offset + bits) ==>
              BitAt(p[..], k) == BitAt(old(p[..]), k)
  {
    hide BitAt, Field;
    SetUnsigned(p, offset, bits, Unsigned(value));
    UnsignedMod(value, bits);
  }

  /** getSignedBitfield: the value in signed range that the field is congruent to. */
  method GetSigned(p: array<bv8>, offset: nat, bits: nat) returns (value: int64)
    requires 0 < bits <= 64 && offset + bits <= 8 * p.Length
    ensures value == Reduce(Field(p[..], offset, bits), true, bits)
  {
    hide BitAt, Field;
    var u := GetUnsigned(p, offset, bits);
    value := Signed(u);
    FieldSpread(u, bits);
    if bits < 64 && BitOf(Unsigned(value), bits - 1) {
      value := Signed(OnesAbove(Unsigned(value), bits));
    }
  }

  lemma FieldSpread(u: uint64, bits: nat)
    requires 0 < bits <= 64 && u < Pow2(bits)
    ensures Unsigned(Signed(u)) == u
    ensures bits == 64 ==> Signed(u) == Reduce(u, true, bits)
    ensures bits < 64 ==>
              u < TWO63 && Reduce(u, true, bits) == if BitOf(u, bits - 1) then Signed(OnesAbove(u, bits)) else u
  {
    Pow2Of64();
    ModAgain(u, Pow2(bits));
    DivUnique(u, Pow2(bits), 0, u);
    if bits < 64 {
      Pow2Grows(bits, 63);
      SignSpread(u, bits);
    }
  }

  // ---- overflow -------------------------------------------------------------

  datatype OverflowType = Wrap | Sat | Fail

  /** What *limit holds after a check: nothing was written, a value, or the result of a
      shift by the full width, which C leaves undefined. */
  datatype Limit = Unset | Value(v: int) | Undefined

  /** checkUnsignedBitfieldOverflow. */
  function CheckUnsigned(value: uint64, incr: int64, bits: nat, ow: OverflowType): (int, Limit)
    requires 0 < bits <= 64
  {
    var max := Max(false, bits);
    var maxincr := Signed(Unsigned(max - value));
    var minincr := Signed(Unsigned(0 - value));
    var wrapped := if bits == 64 then Undefined else Value(ZeroesAbove(Unsigned(value + incr), bits));
    if value > max || (incr > 0 && incr > maxincr) then
      (1, if ow.Wrap? then wrapped else if ow.Sat? then Value(max) else Unset)
    else if incr < 0 && incr < minincr then
      if ow.Wrap? then (1, wrapped) else (-1, if ow.Sat? then Value(0) else Unset)
    else (0, Unset)
  }

  /** checkSignedBitfieldOverflow; the subtractions that may overflow wrap around. */
  function CheckSigned(value: int64, incr: int64, bits: nat, ow: OverflowType): (int, Limit)
    requires 0 < bits <= 64
  {
    var max := Max(true, bits);
    var min := -max - 1;
    var maxincr := Signed(Unsigned(max - value));
    var minincr := Signed(Unsigned(min - value));
    var c := Unsigned(Unsigned(value) + Unsigned(incr));
    var spread := if bits == 64 then c else if BitOf(c, bits - 1) then OnesAbove(c, bits) else ZeroesAbove(c, bits);
    var wrapped := Value(Signed(spread));
    if value > max || (bits != 64 && incr > maxincr) || (value >= 0 && incr > 0 && incr > maxincr) then
      (1, if ow.Wrap? then wrapped else if ow.Sat? then Value(max) else Unset)
    else if value < min || (bits != 64 && incr < minincr) || (value < 0 && incr < 0 && incr < minincr) then
      if ow.Wrap? then (1, wrapped) else (-1, if ow.Sat? then Value(min) else Unset)
    else (0, Unset)
  }

  function Clamp(x: int, sign: bool, bits: nat): int
    requires bits > 0
  {
    if x < Min(sign, bits) then Min(sign, bits) else if x > Max(sign, bits) then Max(sign, bits) else x
  }

  /** What a check should report about the sum x. */
  predicate Reports(r: (int, Limit), x: int, sign: bool, bits: nat, ow: OverflowType)
    requires bits > 0
  {
    && (r.0 == 0 <==> InRange(x, sign, bits))
    && (r.0 != 0 ==> r.0 == if ow.Wrap? || x > Max(sign, bits) then 1 else -1)
    && (r.0 != 0 && ow.Sat? ==> r.1 == Value(Clamp(x, sign, bits)))
    && (r.0 != 0 && ow.Wrap? ==> r.1 == Value(Reduce(x, sign, bits)))
  }

  /** A difference of 64-bit values comes out right unless it needs a 65th bit. */
  lemma Difference(x: int)
    requires -TWO64 < x < TWO64
    ensures Signed(Unsigned(x)) == if x < -TWO63 then x + TWO64 else if x < TWO63 then x else x - TWO64
  {}

  /** The range at each width. */
  lemma Range(sign: bool, bits: nat)
    requires 0 < bits <= 64
    ensures Min(sign, bits) <= 0 <= Max(sign, bits) && (!sign ==> Min(sign, bits) == 0)
    ensures sign ==> Max(sign, bits) < TWO63 && Min(sign, bits) == -Max(sign, bits) - 1
    ensures bits < 64 ==> Max(sign, bits) < TWO63 && (sign ==> Max(sign, bits) < TWO63 / 2)
    ensures bits == 64 ==> Max(sign, bits) == if sign then TWO63 - 1 else TWO64 - 1
  {
    Pow2Of64();
    if bits < 64 { Pow2Grows(bits, 63); }
    assert Pow2(63) == 2 * Pow2(62);
  }

  lemma UnsignedWrap(x: int, bits: nat)
    requires 0 < bits < 64
    ensures ZeroesAbove(Unsigned(x), bits) == Reduce(x, false, bits)
  {
    UnsignedMod(x, bits);
  }

  /** Below 64 bits the unsigned check is right for every increment of a value in range. */
  lemma UnsignedCheck(value: uint64, incr: int64, bits: nat, ow: OverflowType)
    requires 0 < bits < 64 && InRange(value, false, bits)
    ensures Reports(CheckUnsigned(value, incr, bits, ow), value + incr, false, bits, ow)
  {
    hide Min, Max, Reduce, ZeroesAbove, Unsigned, Signed;
    Range(false, bits);
    Difference(Max(false, bits) - value);
    Difference(0 - value);
    UnsignedWrap(value + incr, bits);
  }

  /** At 64 bits the 64-bit signed differences wrap, and the check finds overflow where there
      is none exactly when it adds to a value below 2^63 or takes from one above it. */
  lemma UnsignedCheck64(value: uint64, incr: int64, ow: OverflowType)
    ensures (CheckUnsigned(value, incr, 64, ow).0 == 0 <==> InRange(value + incr, false, 64))
            <==> !((incr > 0 && value < TWO63) || (incr < 0 && value > TWO63))
  {
    hide Min, Max, ZeroesAbove, Unsigned, Signed;
    Range(false, 64);
    Difference(Max(false, 64) - value);
    Difference(0 - value);
  }

  lemma SumWraps(x: int64, y: int64)
    ensures Unsigned(Unsigned(x) + Unsigned(y)) == Unsigned(x + y)
  {}

  lemma ReduceWrapped(x: int, bits: nat)
    requires 0 < bits <= 64
    ensures Reduce(Unsigned(x), true, bits) == Reduce(x, true, bits)
    ensures bits == 64 ==> Signed(Unsigned(x)) == Reduce(x, true, bits)
  {
    UnsignedMod(x, bits);
    Pow2Of64();
  }

  lemma SignedWrap(value: int64, incr: int64, bits: nat)
    requires 0 < bits <= 64
    ensures var c := Unsigned(Unsigned(value) + Unsigned(incr));
            Signed(if bits == 64 then c else if BitOf(c, bits - 1) then OnesAbove(c, bits) else ZeroesAbove(c, bits))
            == Reduce(value + incr, true, bits)
  {
    hide Reduce, BitOf, OnesAbove, ZeroesAbove, Pow2, Unsigned, Signed;
    SumWraps(value, incr);
    ReduceWrapped(value + incr, bits);
    if bits < 64 {
      SignSpread(Unsigned(value + incr), bits);
    }
  }

  /** The signed check is right at every width for every increment of a value in range. */
  lemma SignedCheck(value: int64, incr: int64, bits: nat, ow: OverflowType)
    requires 0 < bits <= 64 && InRange(value, true, bits)
    ensures Reports(CheckSigned(value, incr, bits, ow), value + incr, true, bits, ow)
  {
    hide Min, Max, Reduce, BitOf, OnesAbove, ZeroesAbove, Unsigned, Signed;
    Range(true, bits);
    Difference(Max(true, bits) - value);
    Difference(Min(true, bits) - value);
    SignedWrap(value, incr, bits);
  }

  /** A value to be stored as it is, in range or not. */
  lemma UnsignedStore(value: uint64, bits: nat, ow: OverflowType)
    requires 0 < bits < 64
    ensures Reports(CheckUnsigned(value, 0, bits, ow), value, false, bits, ow)
  {
    hide Min, Max, Reduce, ZeroesAbove, Unsigned, Signed;
    Range(false, bits);
    Difference(Max(false, bits) - value);
    Difference(0 - value);
    UnsignedWrap(value, bits);
  }

  /** So far below the range that the distance to its top needs 64 bits, a value is taken
      for one above the range, and saturation stores the maximum for it. Everywhere else
      the check is right, and so is wrapping even there. */
  lemma SignedStore(value: int64, bits: nat, ow: OverflowType)
    requires 0 < bits <= 64
    ensures Reports(CheckSigned(value, 0, bits, ow), value, true, bits, ow)
            <==> ow.Wrap? || Max(true, bits) - value < TWO63 || bits == 64
  {
    hide Min, Max, Reduce, BitOf, OnesAbove, ZeroesAbove, Unsigned, Signed;
    Range(true, bits);
    Difference(Max(true, bits) - value);
    Difference(Min(true, bits) - value);
    SignedWrap(value, 0, bits);
  }

  // ---- the commands ---------------------------------------------------------

  datatype Op = Set(i64: int64) | IncrBy(i64: int64)

  datatype Reply = Null | Number(n: int)

  /** The integer that a field holds. */
  function Reading(s: seq<bv8>, offset: nat, sign: bool, bits: nat): (v: int)
    requires 0 < bits && offset + bits <= 8 * |s|
    ensures InRange(v, sign, bits)
  {
    Reduce(Field(s, offset, bits), sign, bits)
  }

  /** The exact result of an operation on a field that holds x, before it is made to fit. */
  function Aim(op: Op, x: int, sign: bool): int {
    match op
    case Set(i64) => if sign then i64 else Unsigned(i64)
    case IncrBy(i64) => x + i64
  }

  /** The overflow check takes a value far below the range for one above it. */
  predicate Misjudged(op: Op, sign: bool, bits: nat)
    requires bits > 0
  {
    op.Set? && sign && bits < 64 && Max(sign, bits) - op.i64 >= TWO63
  }

  /** What the field is left with. */
  function Fitted(op: Op, old_: int, sign: bool, bits: nat, ow: OverflowType): int
    requires bits > 0
  {
    var x := Aim(op, old_, sign);
    if InRange(x, sign, bits) then x
    else match ow
      case Wrap => Reduce(x, sign, bits)
      case Sat => if Misjudged(op, sign, bits) then Max(sign, bits) else Clamp(x, sign, bits)
      case Fail => old_
  }

  /** The check an operation makes of the value it is about to store. */
  function Check(op: Op, x: int, sign: bool, bits: nat, ow: OverflowType): (int, Limit)
    requires 0 < bits <= (if sign then 64 else 63) && InRange(x, sign, bits)
  {
    Range(sign, bits);
    match op
    case Set(i64) => if sign then CheckSigned(i64, 0, bits, ow) else CheckUnsigned(Unsigned(i64), 0, bits, ow)
    case IncrBy(i64) => if sign then CheckSigned(x, i64, bits, ow) else CheckUnsigned(x, i64, bits, ow)
  }

  lemma CheckFits(op: Op, x: int, sign: bool, bits: nat, ow: OverflowType)
    requires 0 < bits <= (if sign then 64 else 63) && InRange(x, sign, bits)
    ensures var (code, limit) := Check(op, x, sign, bits, ow);
            && (code == 0 <==> InRange(Aim(op, x, sign), sign, bits))
            && (code != 0 && !ow.Fail? ==> limit == Value(Fitted(op, x, sign, bits, ow)))
  {
    hide Min, Max, Reduce, CheckSigned, CheckUnsigned, Unsigned, Signed;
    Range(sign, bits);
    match op
    case Set(i64) =>
      if sign {
        SignedStore(i64, bits, ow);
        if Misjudged(op, sign, bits) { FarBelow(i64, bits, ow); }
      } else {
        UnsignedStore(Unsigned(i64), bits, ow);
      }
    case IncrBy(i64) =>
      if sign { SignedCheck(x, i64, bits, ow); } else { UnsignedCheck(x, i64, bits, ow); }
  }

  /** Saturation then stores the maximum for a value below the minimum. */
  lemma FarBelow(value: int64, bits: nat, ow: OverflowType)
    requires 0 < bits < 64 && Max(true, bits) - value >= TWO63
    ensures value < Min(true, bits)
    ensures CheckSigned(value, 0, bits, ow).0 == 1
    ensures ow.Sat? ==> CheckSigned(value, 0, bits, ow).1 == Value(Max(true, bits))
  {
    hide Min, Max, Reduce, BitOf, OnesAbove, ZeroesAbove, Unsigned, Signed;
    Range(true, bits);
    Difference(Max(true, bits) - value);
  }

  /** A field that held x and was to become `target` holds `now`: the target if it is in
      range; otherwise the value in range that equals it in the low bits, the nearest end of
      the range, or what it held. */
  ghost predicate Settles(target: int, x: int, now: int, sign: bool, bits: nat, ow: OverflowType)
    requires bits > 0
  {
    if Min(sign, bits) <= target <= Max(sign, bits) then now == target
    else match ow
      case Wrap => Min(sign, bits) <= now <= Max(sign, bits) && now % Pow2(bits) == target % Pow2(bits)
      case Sat => now == if target > Max(sign, bits) then Max(sign, bits) else Min(sign, bits)
      case Fail => now == x
  }

  /** INCRBY settles the sum. */
  lemma IncrementFits(x: int, incr: int64, sign: bool, bits: nat, ow: OverflowType)
    requires 0 < bits <= 64
    ensures Settles(x + incr, x, Fitted(IncrBy(incr), x, sign, bits, ow), sign, bits, ow)
  {
    hide Min, Max;
    Range(sign, bits);
  }

  /** SET settles the argument, taken as a 64-bit number without a sign for an unsigned field;
      but a saturated signed argument far below the range becomes the maximum. */
  lemma SetFits(x: int, value: int64, sign: bool, bits: nat, ow: OverflowType)
    requires 0 < bits <= 64
    ensures var now := Fitted(Set(value), x, sign, bits, ow);
            if ow.Sat? && sign && bits < 64 && Max(sign, bits) - value >= TWO63 then now == Max(sign, bits)
            else Settles(if sign || value >= 0 then value else value + TWO64, x, now, sign, bits, ow)
  {
    hide Min, Max;
    Range(sign, bits);
  }

  /** What a SET or INCRBY makes of a field that held x, and what it replies: SET the old
      value, INCRBY the new one, nothing if the policy refuses. */
  ghost predicate Executed(op: Op, x: int, now: int, reply: Reply, sign: bool, bits: nat, ow: OverflowType)
    requires 0 < bits <= 64
  {
    match op
    case IncrBy(incr) =>
      && Settles(x + incr, x, now, sign, bits, ow)
      && reply == if ow.Fail? && !InRange(x + incr, sign, bits) then Null else Number(now)
    case Set(value) =>
      var target := if sign || value >= 0 then value else value + TWO64;
      && (if ow.Sat? && sign && bits < 64 && Max(sign, bits) - value >= TWO63 then now == Max(sign, bits)
          else Settles(target, x, now, sign, bits, ow))
      && reply == if ow.Fail? && !InRange(target, sign, bits) then Null else Number(x)
  }

  /** The value the code stores settles as it should. */
  lemma FittedExecuted(op: Op, x: int, sign: bool, bits: nat, ow: OverflowType)
    requires 0 < bits <= 64 && InRange(x, sign, bits)
    ensures var now, refused := Fitted(op, x, sign, bits, ow), ow.Fail? && !InRange(Aim(op, x, sign), sign, bits);
            && Executed(op, x, now, if refused then Null else Number(if op.IncrBy? then now else x), sign, bits, ow)
            && InRange(now, sign, bits) && (refused ==> now == x)
            && (InRange(Aim(op, x, sign), sign, bits) ==> now == Aim(op, x, sign))
  {
    hide Min, Max, Reduce, Settles;
    Range(sign, bits);
    match op
    case IncrBy(incr) => IncrementFits(x, incr, sign, bits, ow);
    case Set(value) => SetFits(x, value, sign, bits, ow);
  }

  /** One SET or INCRBY of the BITFIELD command. */
  method Execute(p: array<bv8>, op: Op, offset: nat, sign: bool, bits: nat, ow: OverflowType) returns (reply: Reply)
    requires 0 < bits <= (if sign then 64 else 63) && offset + bits <= 8 * p.Length
    modifies p
    ensures var x, now := Reading(old(p[..]), offset, sign, bits), Reading(p[..], offset, sign, bits);
            && now == Fitted(op, x, sign, bits, ow) && Executed(op, x, now, reply, sign, bits, ow)
            && (reply.Null? ==> p[..] == old(p[..]))
    ensures forall k: nat :: k < 8 * p.Length && !(offset <= k < offset + bits) ==>
              BitAt(p[..], k) == BitAt(old(p[..]), k)
  {
    hide BitAt, Field, InRange, Unsigned, Clamp, Executed, Fitted, Aim;
    Range(sign, bits);
    var x := 0;
    if sign {
      x := GetSigned(p, offset, bits);
    } else {
      x := GetUnsigned(p, offset, bits);
      Small(x, bits);
    }
    CheckFits(op, x, sign, bits, ow);
    FittedExecuted(op, x, sign, bits, ow);
    var (code, limit) := Check(op, x, sign, bits, ow);
    if code != 0 && ow.Fail? {
      return Null;
    }
    var next := if code != 0 then limit.v else Aim(op, x, sign);
    StoredReading(next, sign, bits);
    if sign {
      SetSigned(p, offset, bits, next);
    } else {
      SetUnsigned(p, offset, bits, next);
    }
    return Number(if op.IncrBy? then next else x);
  }

  lemma Small(x: nat, bits: nat)
    requires 0 < bits && x < Pow2(bits)
    ensures Reduce(x, false, bits) == x
  {
    DivUnique(x, Pow2(bits), 0, x);
  }

  /** A value in range survives being cut to the field's width and read back. */
  lemma StoredReading(v: int, sign: bool, bits: nat)
    requires bits > 0 && InRange(v, sign, bits)
    ensures Reduce(v % Pow2(bits), sign, bits) == v
  {
    ModAgain(v, Pow2(bits));
    ReduceUnique(v % Pow2(bits), v, sign, bits);
  }

  /** Bit k of a buffer that is zero beyond its end. */
  predicate PaddedBit(s: seq<bv8>, k: nat) {
    k < 8 * |s| && BitAt(s, k)
  }

  function PaddedField(s: seq<bv8>, offset: nat, bits: nat): (v: nat)
    ensures v < Pow2(bits)
  {
    if bits == 0 then 0
    else 2 * PaddedField(s, offset, bits - 1) + if PaddedBit(s, offset + bits - 1) then 1 else 0
  }

  /** Inside the buffer the padding does not show. */
  lemma {:induction false} PaddedInside(s: seq<bv8>, offset: nat, bits: nat)
    requires offset + bits <= 8 * |s|
    ensures PaddedField(s, offset, bits) == Field(s, offset, bits)
  {
    if bits > 0 { PaddedInside(s, offset, bits - 1); }
  }

  lemma NoBits(i: nat)
    requires i < 8
    ensures !ByteBit(0, i)
  {}

  /** buf holds nine bytes of s from byte `at`, zeroes where s ends. */
  ghost predicate Window(s: seq<bv8>, at: nat, buf: seq<bv8>) {
    |buf| == 9 && forall i :: 0 <= i < 9 ==> buf[i] == if at + i < |s| then s[at + i] else 0
  }

  lemma WindowBit(s: seq<bv8>, at: nat, buf: seq<bv8>, k: nat)
    requires Window(s, at, buf) && k < 72
    ensures BitAt(buf, k) <==> PaddedBit(s, 8 * at + k)
  {
    hide ByteBit;
    assert (8 * at + k) / 8 == at + k / 8 && (8 * at + k) % 8 == k % 8;
    NoBits(7 - k % 8);
  }

  lemma {:induction false} WindowField(s: seq<bv8>, at: nat, buf: seq<bv8>, r: nat, bits: nat)
    requires Window(s, at, buf) && r + bits <= 72
    ensures Field(buf, r, bits) == PaddedField(s, 8 * at + r, bits)
  {
    hide BitAt, PaddedBit, Window;
    if bits > 0 {
      WindowField(s, at, buf, r, bits - 1);
      WindowBit(s, at, buf, r + bits - 1);
      assert 8 * at + (r + bits - 1) == 8 * at + r + bits - 1;
    }
  }

  /** One GET: any field of any string, through a zero-padded copy of nine bytes. */
  method Fetch(src: array<bv8>, offset: nat, sign: bool, bits: nat) returns (value: int)
    requires 0 < bits <= (if sign then 64 else 63)
    ensures value == Reduce(PaddedField(src[..], offset, bits), sign, bits)
  {
    hide BitAt, Field, PaddedField;
    var buf := new bv8[9](_ => 0);
    var at := offset / 8;
    var i := 0;
    while i < 9 && i + at < src.Length
      invariant 0 <= i <= 9
      invariant forall j :: 0 <= j < 9 ==> buf[j] == if j < i && at + j < src.Length then src[at + j] else 0
    {
      buf[i] := src[i + at];
      i := i + 1;
    }
    WindowField(src[..], at, buf[..], offset % 8, bits);
    if sign {
      value := GetSigned(buf, offset - at * 8, bits);
    } else {
      value := GetUnsigned(buf, offset - at * 8, bits);
      Small(value, bits);
    }
  }
}
