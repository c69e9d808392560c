/** Byte-addressed memory: little-endian words laid over a sequence of bytes.

    Block tags are 32-bit words and free-list links are 64-bit words, and both
    share one memory with client data, so the lemmas here are about what one
    store leaves alone as much as about what it writes.
 */
module Memory {

  newtype byte = x: int | 0 <= x < 256

  const WORD_TAG: nat := 4
  const WORD_LINK: nat := 8

  /** 256^n, the number of values an n-byte word can hold. */
  function Capacity(n: nat): (r: nat)
    ensures r >= 1
  {
    if n == 0 then 1 else 256 * Capacity(n - 1)
  }

  /** The n low bytes of v, least significant first. */
  function Encode(v: nat, n: nat): (s: seq<byte>)
    ensures |s| == n
  {
    if n == 0 then [] else [(v % 256) as byte] + Encode(v / 256, n - 1)
  }

  function Decode(s: seq<byte>): nat {
    if s == [] then 0 else s[0] as nat + 256 * Decode(s[1..])
  }

  lemma {:induction false} DecodeEncode(v: nat, n: nat)
    requires v < Capacity(n)
    ensures Decode(Encode(v, n)) == v
  {
    if n > 0 {
      DecodeEncode(v / 256, n - 1);
      assert Encode(v, n)[1..] == Encode(v / 256, n - 1);
    }
  }

  lemma {:induction false} DecodeInjective(s: seq<byte>, t: seq<byte>)
    requires |s| == |t| && Decode(s) == Decode(t)
    ensures s == t
  {
    if s != [] {
      assert s[0] as nat == Decode(s) % 256 && t[0] as nat == Decode(t) % 256;
      DecodeInjective(s[1..], t[1..]);
      assert s == [s[0]] + s[1..] && t == [t[0]] + t[1..];
    }
  }

  lemma CapacityTag()
    ensures Capacity(WORD_TAG) == 0x1_0000_0000
  {
    assert Capacity(1) == 256;
    assert Capacity(2) == 0x1_0000;
    assert Capacity(3) == 0x100_0000;
  }

  lemma CapacityLink()
    ensures Capacity(WORD_LINK) == 0x1_0000_0000_0000_0000
  {
    CapacityTag();
    assert Capacity(5) == 256 * Capacity(4);
    assert Capacity(6) == 256 * Capacity(5);
    assert Capacity(7) == 256 * Capacity(6);
  }

  predicate InBounds(m: seq<byte>, a: int, n: nat) {
    0 <= a && a + n <= |m|
  }

  function Load(m: seq<byte>, a: int, n: nat): nat
    requires InBounds(m, a, n)
  {
    Decode(m[a..a + n])
  }

  function Store(m: seq<byte>, a: int, n: nat, v: nat): (r: seq<byte>)
    requires InBounds(m, a, n)
    ensures |r| == |m|
    ensures forall i :: 0 <= i < |m| && (i < a || a + n <= i) ==> r[i] == m[i]
  {
    m[..a] + Encode(v, n) + m[a + n..]
  }

  /** m and r hold the same n bytes from address a on. */
  predicate SameBytes(m: seq<byte>, r: seq<byte>, a: int, n: int)
  {
    forall i :: a <= i < a + n && 0 <= i < |m| && i < |r| ==> r[i] == m[i]
  }

  /** The n bytes of r at `to` are those of m at `from`. */
  predicate Copied(m: seq<byte>, r: seq<byte>, from: int, to: int, n: int) {
    forall i :: to <= i < to + n && 0 <= i < |r| && 0 <= i - to + from < |m| ==> r[i] == m[i - to + from]
  }

  lemma LoadStored(m: seq<byte>, a: int, n: nat, v: nat)
    requires InBounds(m, a, n) && v < Capacity(n)
    ensures Load(Store(m, a, n, v), a, n) == v
  {
    assert Store(m, a, n, v)[a..a + n] == Encode(v, n);
    DecodeEncode(v, n);
  }

  lemma LoadSame(m: seq<byte>, r: seq<byte>, a: int, n: nat)
    requires |m| == |r| && InBounds(m, a, n) && SameBytes(m, r, a, n)
    ensures Load(r, a, n) == Load(m, a, n)
  {
    assert r[a..a + n] == m[a..a + n];
  }

  // --- the same on a mutable buffer ------------------------------------------

  method LoadWord(mem: array<byte>, a: int, n: nat) returns (v: int)
    requires 0 <= a && a + n <= mem.Length
    ensures v == Load(mem[..], a, n)
  {
    v := 0;
    var i := n;
    while i > 0
      invariant 0 <= i <= n
      invariant v == Decode(mem[..][a + i..a + n])
    {
      i := i - 1;
      v := mem[a + i] as int + 256 * v;
      assert mem[..][a + i..a + n][1..] == mem[..][a + i + 1..a + n];
    }
  }

  method StoreWord(mem: array<byte>, a: int, n: nat, v: int)
    requires 0 <= a && a + n <= mem.Length && v >= 0
    modifies mem
    ensures mem[..] == Store(old(mem[..]), a, n, v)
  {
    var rest, i := v, 0;
    while i < n
      invariant 0 <= i <= n && rest >= 0
      invariant Encode(v, n)[i..] == Encode(rest, n - i)
      invariant mem[..] == old(mem[..])[..a] + Encode(v, n)[..i] + old(mem[..])[a + i..]
    {
      assert Encode(v, n)[i] == Encode(rest, n - i)[0];
      assert Encode(v, n)[i + 1..] == Encode(rest, n - i)[1..];
      mem[a + i] := (rest % 256) as byte;
      rest, i := rest / 256, i + 1;
    }
  }

  /** memset to zero. */
  method ZeroBytes(mem: array<byte>, a: int, n: int)
    requires 0 <= a && 0 <= n && a + n <= mem.Length
    modifies mem
    ensures forall i :: a <= i < a + n ==> mem[i] == 0
    ensures forall i :: 0 <= i < mem.Length && (i < a || a + n <= i) ==> mem[i] == old(mem[i])
  {
    for k := 0 to n
      invariant forall i :: a <= i < a + k ==> mem[i] == 0
      invariant forall i :: 0 <= i < mem.Length && (i < a || a + k <= i) ==> mem[i] == old(mem[i])
    {
      mem[a + k] := 0;
    }
  }

  /** memcpy of n bytes between two ranges that do not overlap. */
  method CopyBytes(mem: array<byte>, to: int, from: int, n: int)
    requires 0 <= to && 0 <= from && 0 <= n && to + n <= mem.Length && from + n <= mem.Length
    requires from + n <= to || to + n <= from
    modifies mem
    ensures forall i :: to <= i < to + n ==> mem[i] == old(mem[i - to + from])
    ensures forall i :: 0 <= i < mem.Length && (i < to || to + n <= i) ==> mem[i] == old(mem[i])
  {
    for k := 0 to n
      invariant forall i :: to <= i < to + k ==> mem[i] == old(mem[i - to + from])
      invariant forall i :: 0 <= i < mem.Length && (i < to || to + k <= i) ==> mem[i] == old(mem[i])
    {
      mem[to + k] := mem[from + k];
    }
  }
}
