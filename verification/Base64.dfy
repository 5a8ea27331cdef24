/** In-place base64 decoding (Common/base64.c; section 4 of RFC 4648). */
module Base64 {
  import opened Bytes

  const PAD := 61 // '='
  const INVALID := 255

  type Sextet = x: int | 0 <= x < 64

  /** The value of an alphabet character, either variant; UINT8_MAX for any other. */
  function DecodeChar(c: byte): (x: byte)
    ensures x < 64 || x == INVALID
  {
    if 65 <= c <= 90 then c - 65
    else if 97 <= c <= 122 then c - 97 + 26
    else if 48 <= c <= 57 then c - 48 + 52
    else if c == 43 || c == 45 then 62
    else if c == 47 || c == 95 then 63
    else INVALID
  }

  // ---- Decoding, out of place ---------------------------------------------------------

  function Value(c: byte): (v: seq<Sextet>)
    ensures |v| <= 1
  {
    if DecodeChar(c) < 64 then [DecodeChar(c)] else []
  }

  /** The values of the alphabet characters of a text. */
  function Sextets(s: seq<byte>): (v: seq<Sextet>)
    ensures |v| <= |s|
  {
    if s == [] then [] else Value(s[0]) + Sextets(s[1..])
  }

  function Octet0(x: Sextet, y: Sextet): byte { x as int * 4 + y / 16 }

  function Octet1(x: Sextet, y: Sextet): byte { x as int % 16 * 16 + y / 4 }

  function Octet2(x: Sextet, y: Sextet): byte { x as int % 4 * 64 + y }

  /** Four values to three octets; two or three left over to one or two. */
  function Pack(v: seq<Sextet>): (r: seq<byte>)
    ensures |r| == 6 * |v| / 8
  {
    if |v| < 2 then []
    else if |v| == 2 then [Octet0(v[0], v[1])]
    else if |v| == 3 then [Octet0(v[0], v[1]), Octet1(v[1], v[2])]
    else [Octet0(v[0], v[1]), Octet1(v[1], v[2]), Octet2(v[2], v[3])] + Pack(v[4..])
  }

  /** Four values are 24 bits, most significant first, and so are the three octets. */
  lemma {:induction false} GroupBits(w: Sextet, x: Sextet, y: Sextet, z: Sextet)
    ensures 0x1_0000 * Octet0(w, x) as int + 0x100 * Octet1(x, y) as int + Octet2(y, z) as int
            == 0x4_0000 * w as int + 0x1000 * x as int + 0x40 * y as int + z as int
  {
  }

  function Decoded(s: seq<byte>): seq<byte>
  {
    Pack(Sextets(s))
  }

  // ---- Decoding, in place ----------------------------------------------------------------

  /** The first four of the values, the missing ones marked. */
  function FirstFour(v: seq<Sextet>): (x: seq<byte>)
    ensures |x| == 4
  {
    seq(4, k requires 0 <= k < 4 => if k < |v| then v[k] else INVALID)
  }

  lemma {:induction false} SextetsFrom(s: seq<byte>, i: nat)
    requires i < |s|
    ensures Sextets(s[i..]) == Value(s[i]) + Sextets(s[i + 1..])
  {
    assert s[i..][1..] == s[i + 1..];
  }

  /** The inner loop: the next four alphabet characters, or as many as there are. */
  method ReadFour(src: array<byte>, len: nat, start: nat) returns (x: seq<byte>, pos: nat)
    requires start <= len <= src.Length
    ensures x == FirstFour(Sextets(src[start..len]))
    ensures var v := Sextets(src[start..len]);
            var n := if |v| < 4 then |v| else 4;
            start + n <= pos <= len && Sextets(src[pos..len]) == v[n..]
  {
    hide Sextets, DecodeChar;
    x, pos := [INVALID, INVALID, INVALID, INVALID], start;
    ghost var v, s := Sextets(src[start..len]), src[..len];
    assert s[start..] == src[start..len];
    var i: nat := 0;
    while i < 4
      invariant i <= 4 && i <= |v| && start + i <= pos <= len && |x| == 4
      invariant forall k :: 0 <= k < i ==> x[k] == v[k]
      invariant forall k :: i <= k < 4 ==> x[k] == INVALID
      invariant Sextets(s[pos..]) == v[i..]
      decreases len - pos, 4 - i
    {
      if pos == len {
        SextetsNone();
        break;
      }
      SextetsFrom(s, pos);
      x := x[i := DecodeChar(src[pos])];
      pos := pos + 1;
      if x[i] < 64 {
        assert v[i..][0] == v[i] && v[i..][1..] == v[i + 1..];
        i := i + 1;
      }
    }
    assert s[pos..] == src[pos..len];
  }

  lemma SextetsNone()
    ensures Sextets([]) == []
  {
  }

  /** What a round makes of its four values: octets, and whether there may be more. */
  lemma PackFour(v: seq<Sextet>)
    ensures var x := FirstFour(v);
      && (x[0] > 63 || x[1] > 63 ==> Pack(v) == [])
      && (x[0] <= 63 && x[1] <= 63 && x[2] > 63 ==> Pack(v) == [Octet0(x[0], x[1])])
      && (x[0] <= 63 && x[1] <= 63 && x[2] <= 63 && x[3] > 63 ==> Pack(v) == [Octet0(x[0], x[1]), Octet1(x[1], x[2])])
      && (x[0] <= 63 && x[1] <= 63 && x[2] <= 63 && x[3] <= 63 ==>
           |v| >= 4 && Pack(v) == [Octet0(x[0], x[1]), Octet1(x[1], x[2]), Octet2(x[2], x[3])] + Pack(v[4..]))
  {
  }

  /** One octet more of the decoded text, written behind the part still to be read. */
  method Put(src: array<byte>, newLen: nat, b: byte) returns (n: nat)
    requires newLen < src.Length
    modifies src
    ensures n == newLen + 1 && src[..n] == old(src[..newLen]) + [b]
    ensures forall k :: n <= k < src.Length ==> src[k] == old(src[k])
  {
    src[newLen] := b;
    n := newLen + 1;
  }

  /** One round, the inner loop aside: the octets, and whether there may be more. */
  method WriteThree(src: array<byte>, start: nat, x: seq<byte>, ghost v: seq<Sextet>) returns (newLen: nat, more: bool)
    requires x == FirstFour(v) && start + (if |v| < 4 then |v| else 4) <= src.Length
    modifies src
    ensures start <= newLen && (newLen < start + |v| || newLen == start) && newLen <= start + 3
    ensures forall k :: newLen <= k < src.Length ==> src[k] == old(src[k])
    ensures more <==> |v| >= 4
    ensures old(src[..start]) + Pack(v) == src[..newLen] + if more then Pack(v[4..]) else []
  {
    hide Pack, FirstFour, Octet0, Octet1, Octet2;
    newLen, more := start, false;
    ghost var before := src[..start];
    PackFour(v);
    CountFour(v);
    if x[0] > 63 || x[1] > 63 { return; }
    newLen := Put(src, newLen, Octet0(x[0], x[1]));
    if x[2] > 63 { return; }
    newLen := Put(src, newLen, Octet1(x[1], x[2]));
    if x[3] > 63 { assert src[..newLen] == before + Pack(v); return; }
    newLen := Put(src, newLen, Octet2(x[2], x[3]));
    more := true;
    assert src[..newLen] == before + [Octet0(x[0], x[1]), Octet1(x[1], x[2]), Octet2(x[2], x[3])];
  }

  lemma CountFour(v: seq<Sextet>)
    ensures var x := FirstFour(v);
      && (x[0] <= 63 <==> |v| > 0) && (x[1] <= 63 <==> |v| > 1) && (x[2] <= 63 <==> |v| > 2) && (x[3] <= 63 <==> |v| > 3)
  {
  }

  method Base642Bin(src: array<byte>, len: nat) returns (newLen: nat)
    requires len <= src.Length
    modifies src
    ensures newLen <= len && src[..newLen] == Decoded(old(src[..len]))
  {
    hide Sextets, Pack, FirstFour;
    newLen := 0;
    var pos: nat := 0;
    ghost var want := Decoded(src[..len]);
    assert src[0..len] == src[..len];
    while true
      invariant newLen <= pos <= len
      invariant src[..newLen] + Pack(Sextets(src[pos..len])) == want
      decreases len - pos
    {
      ghost var v := Sextets(src[pos..len]);
      var x, next := ReadFour(src, len, pos);
      ghost var rest := src[next..len];
      var n, more := WriteThree(src, newLen, x, v);
      newLen, pos := n, next;
      if !more { break; }
      assert src[pos..len] == rest;
    }
  }

  // ---- Encoding ------------------------------------------------------------------------------

  function Digit(x: Sextet): (c: byte)
    ensures DecodeChar(c) == x
  {
    if x < 26 then x + 65 else if x < 52 then x - 26 + 97 else if x < 62 then x - 52 + 48
    else if x == 62 then 43 else 47
  }

  /** The alphabet of section 4 of RFC 4648, with the last two characters of section 5 too. */
  lemma {:induction false} Alphabet(x: Sextet)
    ensures x < 26 ==> Digit(x) == 'A' as int + x
    ensures 26 <= x < 52 ==> Digit(x) == 'a' as int + x - 26
    ensures 52 <= x < 62 ==> Digit(x) == '0' as int + x - 52
    ensures Digit(62) == '+' as int && Digit(63) == '/' as int
  {
  }

  lemma {:induction false} OnlyAlphabet(c: byte)
    ensures DecodeChar(c) < 64 <==> (exists x: Sextet :: c == Digit(x)) || c == '-' as int || c == '_' as int
    ensures DecodeChar('-' as int) == 62 && DecodeChar('_' as int) == 63
  {
    if DecodeChar(c) < 64 && c != 45 && c != 95 { assert c == Digit(DecodeChar(c)); }
  }

  function Sextet1(a: byte, b: byte): Sextet { a as int % 4 * 16 + b / 16 }

  function Sextet2(b: byte, c: byte): Sextet { b as int % 16 * 4 + c / 64 }

  function Unpack(b: seq<byte>): (v: seq<Sextet>)
  {
    if b == [] then []
    else if |b| == 1 then [b[0] / 4, Sextet1(b[0], 0)]
    else if |b| == 2 then [b[0] / 4, Sextet1(b[0], b[1]), Sextet2(b[1], 0)]
    else [b[0] / 4, Sextet1(b[0], b[1]), Sextet2(b[1], b[2]), b[2] % 64] + Unpack(b[3..])
  }

  function Spell(v: seq<Sextet>): (s: seq<byte>)
  {
    if v == [] then [] else [Digit(v[0])] + Spell(v[1..])
  }

  /** Section 4 of RFC 4648: the digits, padded to a multiple of four. */
  function Encode(b: seq<byte>): seq<byte>
  {
    Spell(Unpack(b)) + Padding(|b|)
  }

  /** The alphabet characters of a text. */
  function Stripped(s: seq<byte>): (r: seq<byte>)
    ensures forall k :: 0 <= k < |r| ==> DecodeChar(r[k]) < 64
  {
    if s == [] then [] else (if DecodeChar(s[0]) < 64 then [s[0]] else []) + Stripped(s[1..])
  }

  /** Only the alphabet characters matter. */
  lemma {:induction false} SextetsStripped(s: seq<byte>)
    ensures Sextets(Stripped(s)) == Sextets(s)
  {
    if s != [] {
      SextetsStripped(s[1..]);
      var r := Stripped(s[1..]);
      if DecodeChar(s[0]) < 64 { assert ([s[0]] + r)[1..] == r; } else { assert [] + r == r; }
    }
  }

  lemma {:induction false} SextetsAppend(s: seq<byte>, t: seq<byte>)
    ensures Sextets(s + t) == Sextets(s) + Sextets(t)
  {
    hide Value;
    if s == [] {
      assert s + t == t;
    } else {
      SextetsAppend(s[1..], t);
      assert (s + t)[0] == s[0] && (s + t)[1..] == s[1..] + t;
      assert Value(s[0]) + (Sextets(s[1..]) + Sextets(t)) == (Value(s[0]) + Sextets(s[1..])) + Sextets(t);
    }
  }

  lemma {:induction false} SextetsSpell(v: seq<Sextet>)
    ensures Sextets(Spell(v)) == v
  {
    if v != [] { SextetsSpell(v[1..]); }
  }

  lemma OctetsOfSextets(a: byte, b: byte, c: byte)
    ensures Octet0(a / 4, Sextet1(a, b)) == a && Octet1(Sextet1(a, b), Sextet2(b, c)) == b && Octet2(Sextet2(b, c), c % 64) == c
  {
  }

  lemma {:induction false} PackUnpack(b: seq<byte>)
    ensures Pack(Unpack(b)) == b
    decreases |b|
  {
    hide Octet0, Octet1, Octet2, Sextet1, Sextet2;
    if b != [] {
      OctetsOfSextets(b[0], if |b| > 1 then b[1] else 0, if |b| > 2 then b[2] else 0);
      if |b| >= 3 {
        PackUnpack(b[3..]);
        assert Unpack(b)[4..] == Unpack(b[3..]);
        assert b == [b[0], b[1], b[2]] + b[3..];
      }
    }
  }

  function Padding(n: nat): seq<byte>
  {
    if n % 3 == 1 then [PAD, PAD] else if n % 3 == 2 then [PAD] else []
  }

  /** Any text whose alphabet characters are those of the encoding of b, whatever
      lies between them, padding or not, decodes to b. */
  lemma {:induction false} DecodeInvertsEncode(b: seq<byte>, s: seq<byte>)
    requires Stripped(s) == Stripped(Encode(b))
    ensures Decoded(s) == b
  {
    hide Sextets, Stripped, Pack, Unpack, Padding, Spell;
    SextetsStripped(s);
    SextetsStripped(Encode(b));
    PadIsJunk(|b|);
    SextetsAppend(Spell(Unpack(b)), Padding(|b|));
    SextetsSpell(Unpack(b));
    PackUnpack(b);
    assert Unpack(b) + [] == Unpack(b);
  }

  lemma {:induction false} PadIsJunk(n: nat)
    ensures Sextets(Padding(n)) == []
  {
    assert [PAD, PAD][1..] == [PAD] && [PAD][1..] == [];
  }

  /** Values an encoder produces: no lone one at the end, no spare bits set. */
  predicate Canonical(v: seq<Sextet>)
  {
    && |v| % 4 != 1
    && (|v| % 4 == 2 ==> v[|v| - 1] % 16 == 0)
    && (|v| % 4 == 3 ==> v[|v| - 1] % 4 == 0)
  }

  lemma SextetsOfOctets(w: Sextet, x: Sextet, y: Sextet, z: Sextet)
    ensures Octet0(w, x) / 4 == w && Sextet1(Octet0(w, x), Octet1(x, y)) == x
    ensures Sextet2(Octet1(x, y), Octet2(y, z)) == y && Octet2(y, z) % 64 == z
    ensures Sextet1(Octet0(w, x), 0) == x / 16 * 16 && Sextet2(Octet1(x, y), 0) == y / 4 * 4
  {
  }

  lemma UnpackOne(a: byte)
    ensures Unpack([a]) == [a / 4, Sextet1(a, 0)]
  {
  }

  lemma UnpackTwo(a: byte, b: byte)
    ensures Unpack([a, b]) == [a / 4, Sextet1(a, b), Sextet2(b, 0)]
  {
  }

  lemma {:induction false} UnpackThree(a: byte, b: byte, c: byte, r: seq<byte>)
    ensures Unpack([a, b, c] + r) == [a / 4, Sextet1(a, b), Sextet2(b, c), c % 64] + Unpack(r)
  {
    assert ([a, b, c] + r)[3..] == r;
  }

  lemma {:induction false} UnpackGroup(v: seq<Sextet>)
    requires |v| >= 4
    ensures Unpack(Pack(v)) == v[..4] + Unpack(Pack(v[4..]))
  {
    hide Octet0, Octet1, Octet2, Sextet1, Sextet2, Unpack;
    SextetsOfOctets(v[0], v[1], v[2], v[3]);
    UnpackThree(Octet0(v[0], v[1]), Octet1(v[1], v[2]), Octet2(v[2], v[3]), Pack(v[4..]));
    assert v[..4] == [v[0], v[1], v[2], v[3]];
  }

  lemma {:induction false} UnpackTwoLeft(x: Sextet, y: Sextet)
    ensures Unpack(Pack([x, y])) == [x, y] <==> y % 16 == 0
  {
    hide Octet0, Octet1, Octet2, Sextet1, Sextet2, Unpack;
    SextetsOfOctets(x, y, 0, 0);
    UnpackOne(Octet0(x, y));
    assert Unpack(Pack([x, y])) == [x, y / 16 * 16];
    assert [x, y / 16 * 16][1] == y / 16 * 16 && [x, y][1] == y;
  }

  lemma {:induction false} UnpackThreeLeft(x: Sextet, y: Sextet, z: Sextet)
    ensures Unpack(Pack([x, y, z])) == [x, y, z] <==> z % 4 == 0
  {
    hide Octet0, Octet1, Octet2, Sextet1, Sextet2, Unpack;
    SextetsOfOctets(x, y, z, 0);
    UnpackTwo(Octet0(x, y), Octet1(y, z));
    assert Unpack(Pack([x, y, z])) == [x, y, z / 4 * 4];
    assert [x, y, z / 4 * 4][2] == z / 4 * 4 && [x, y, z][2] == z;
  }

  lemma {:induction false} UnpackShort(v: seq<Sextet>)
    requires |v| < 4
    ensures Unpack(Pack(v)) == v <==> Canonical(v)
  {
    hide Pack, Unpack;
    if |v| == 2 {
      assert v == [v[0], v[1]];
      UnpackTwoLeft(v[0], v[1]);
    } else if |v| == 3 {
      assert v == [v[0], v[1], v[2]];
      UnpackThreeLeft(v[0], v[1], v[2]);
    } else {
      UnpackNone(v);
    }
  }

  lemma {:induction false} UnpackNone(v: seq<Sextet>)
    requires |v| < 2
    ensures Unpack(Pack(v)) == []
  {
  }

  lemma {:induction false} CanonicalTail(v: seq<Sextet>)
    requires |v| >= 4
    ensures Canonical(v) <==> Canonical(v[4..])
  {
    var n: nat := |v| - 4;
    assert |v[4..]| == n && (n + 4) % 4 == n % 4;
    if n > 0 { assert v[|v| - 1] == v[4..][n - 1]; }
  }

  /** Decoding loses nothing exactly on canonical values. */
  lemma {:induction false} UnpackPack(v: seq<Sextet>)
    ensures Unpack(Pack(v)) == v <==> Canonical(v)
    decreases |v|
  {
    hide Pack, Unpack, Canonical;
    if |v| < 4 {
      UnpackShort(v);
    } else {
      UnpackPack(v[4..]);
      UnpackGroup(v);
      CanonicalTail(v);
      var u := Unpack(Pack(v));
      assert u[4..] == Unpack(Pack(v[4..]));
      assert u == u[..4] + u[4..] && v == v[..4] + v[4..];
    }
  }
}
