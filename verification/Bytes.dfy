/** Machine-level vocabulary shared by every component: octets, fixed-width
    unsigned integers, their little-endian layout, bitwise XOR and memmove. */
module Bytes {

  type byte = x: int | 0 <= x < 256
  type u16 = x: int | 0 <= x < 0x1_0000
  type u32 = x: int | 0 <= x < 0x1_0000_0000
  type u64 = x: int | 0 <= x < 0x1_0000_0000_0000_0000

  datatype Option<+T> = None | Some(value: T)

  // ---- Little-endian integers --------------------------------------------

  /** 256 to the power k: the number of values k octets can hold. */
  function Range(k: nat): (r: nat)
    ensures r >= 1
  {
    if k == 0 then 1 else 256 * Range(k - 1)
  }

  function ToLe(n: nat, k: nat): (s: seq<byte>)
    ensures |s| == k
  {
    if k == 0 then [] else [n % 256] + ToLe(n / 256, k - 1)
  }

  function FromLe(s: seq<byte>): nat
  {
    if s == [] then 0 else s[0] + 256 * FromLe(s[1..])
  }

  /** Reading back k little-endian octets gives the integer modulo 256^k;
      nothing is lost when it fits. */
  lemma {:induction false} LeRoundTrip(n: nat, k: nat)
    requires n < Range(k)
    ensures FromLe(ToLe(n, k)) == n
  {
    if k > 0 {
      LeRoundTrip(n / 256, k - 1);
      assert ToLe(n, k)[1..] == ToLe(n / 256, k - 1);
    }
  }

  lemma {:induction false} FromLeBound(s: seq<byte>)
    ensures FromLe(s) < Range(|s|)
  {
    if s != [] { FromLeBound(s[1..]); }
  }

  lemma {:induction false} LeUnique(s: seq<byte>, t: seq<byte>)
    requires |s| == |t| && FromLe(s) == FromLe(t)
    ensures s == t
  {
    if s != [] {
      LeUnique(s[1..], t[1..]);
      assert s == [s[0]] + s[1..] && t == [t[0]] + t[1..];
    }
  }

  lemma {:induction false} Ranges()
    ensures Range(1) == 256
    ensures Range(2) == 0x1_0000
    ensures Range(4) == 0x1_0000_0000
    ensures Range(8) == 0x1_0000_0000_0000_0000
  {
    assert Range(2) == 256 * Range(1);
    assert Range(3) == 256 * Range(2);
    assert Range(6) == 256 * Range(5);
    assert Range(7) == 256 * Range(6);
  }

  lemma {:induction false} Le16(n: u16)
    ensures FromLe(ToLe(n, 2)) == n
  {
    Ranges();
    LeRoundTrip(n, 2);
  }

  // ---- Bitwise XOR ---------------------------------------------------------

  /** XOR of the low w bits, least significant bit first. */
  function XorBits(a: nat, b: nat, w: nat): (r: nat)
    ensures r < Pow2(w)
  {
    if w == 0 then 0 else (a % 2 + b % 2) % 2 + 2 * XorBits(a / 2, b / 2, w - 1)
  }

  function Pow2(w: nat): (r: nat)
    ensures r >= 1
  {
    if w == 0 then 1 else 2 * Pow2(w - 1)
  }

  lemma {:induction false} BitTwice(x: nat, y: nat)
    requires x < 2 && y < 2
    ensures ((x + y) % 2 + y) % 2 == x
  {
    if y == 0 {
      assert x % 2 == x;
    } else if x == 0 {
      assert 2 % 2 == 0;
    } else {
      assert (1 + 1) % 2 == 0 && (0 + 1) % 2 == 1;
    }
  }

  lemma {:induction false} XorBitsOf(bit: nat, rest: nat, k: nat, w: nat)
    requires bit < 2 && w > 0
    ensures XorBits(bit + 2 * rest, k, w) == (bit + k % 2) % 2 + 2 * XorBits(rest, k / 2, w - 1)
  {
    assert (bit + 2 * rest) % 2 == bit && (bit + 2 * rest) / 2 == rest;
  }

  lemma {:induction false} XorBitsCancel(a: nat, k: nat, w: nat)
    requires a < Pow2(w)
    ensures XorBits(XorBits(a, k, w), k, w) == a
  {
    if w > 0 {
      var bit, rest := (a % 2 + k % 2) % 2, XorBits(a / 2, k / 2, w - 1);
      XorBitsCancel(a / 2, k / 2, w - 1);
      assert XorBits(a, k, w) == bit + 2 * rest;
      XorBitsOf(bit, rest, k, w);
      BitTwice(a % 2, k % 2);
    }
  }

  lemma {:induction false} Pow2Of8()
    ensures Pow2(8) == 256
  {
    assert Pow2(4) == 16;
    assert Pow2(6) == 64;
  }

  function Xor(a: byte, b: byte): byte
  {
    Pow2Of8();
    XorBits(a, b, 8)
  }

  lemma {:induction false} XorCancel(a: byte, k: byte)
    ensures Xor(Xor(a, k), k) == a
  {
    Pow2Of8();
    XorBitsCancel(a, k, 8);
  }

  lemma {:induction false} XorBitsZero(a: nat, w: nat)
    requires a < Pow2(w)
    ensures XorBits(a, 0, w) == a && XorBits(0, a, w) == a
  {
    if w > 0 { XorBitsZero(a / 2, w - 1); }
  }

  lemma {:induction false} XorZero(a: byte)
    ensures Xor(a, 0) == a == Xor(0, a)
  {
    Pow2Of8();
    XorBitsZero(a, 8);
  }

  /** Bit i of x, bit 0 the least significant. */
  function Bit(x: nat, i: nat): (r: nat)
    ensures r < 2
  {
    if i == 0 then x % 2 else Bit(x / 2, i - 1)
  }

  /** Bitwise: each bit of the result is one exactly when the two bits differ. */
  lemma {:induction false} XorBitAt(a: nat, b: nat, w: nat, i: nat)
    requires i < w
    ensures Bit(XorBits(a, b, w), i) == (Bit(a, i) + Bit(b, i)) % 2
  {
    hide Pow2;
    var low, high := (a % 2 + b % 2) % 2, XorBits(a / 2, b / 2, w - 1);
    assert XorBits(a, b, w) == low + 2 * high;
    assert (low + 2 * high) / 2 == high && (low + 2 * high) % 2 == low;
    if i > 0 { XorBitAt(a / 2, b / 2, w - 1, i - 1); }
  }

  /** q above w lower bits. */
  function Above(q: nat, w: nat): nat
  {
    if w == 0 then q else 2 * Above(q, w - 1)
  }

  lemma {:induction false} BitBelow(q: nat, r: nat, w: nat, b: nat)
    requires b < w
    ensures Bit(Above(q, w) + r, b) == Bit(r, b)
  {
    var h := Above(q, w - 1);
    assert (2 * h + r) % 2 == r % 2 && (2 * h + r) / 2 == h + r / 2;
    if b > 0 { BitBelow(q, r / 2, w - 1, b - 1); }
  }

  lemma {:induction false} NoBitAbove(x: nat, w: nat, i: nat)
    requires x < Pow2(w) && i >= w
    ensures Bit(x, i) == 0
  {
    if i > 0 {
      if w == 0 { NoBitAbove(0, 0, i - 1); } else { NoBitAbove(x / 2, w - 1, i - 1); }
    }
  }

  // ---- Memory moves --------------------------------------------------------

  /** memmove within one buffer: n cells from position src to position dst. */
  function Memmove<T>(s: seq<T>, dst: nat, src: nat, n: nat): (r: seq<T>)
    requires dst + n <= |s| && src + n <= |s|
    ensures |r| == |s|
  {
    s[..dst] + s[src..src + n] + s[dst + n..]
  }

  /** s without its element i. */
  function RemoveAt<T>(s: seq<T>, i: nat): (r: seq<T>)
    requires i < |s|
    ensures |r| == |s| - 1
  {
    s[..i] + s[i + 1..]
  }
}
