/** Secret character sets drawn from a key stream, and what they encode:
    storage file names (storage/IO.c, utils/Creator.c) and Message-IDs
    (api/MessageId.c). */
module Charset {
  import opened Bytes

  ghost predicate NoRepeat<T>(s: seq<T>)
  {
    forall i, j :: 0 <= i < j < |s| ==> s[i] != s[j]
  }

  // ---- First-occurrence order -----------------------------------------------------

  /** The symbols of a stream, each once, in order of first occurrence. */
  function Firsts(src: seq<nat>): seq<nat>
  {
    if src == [] then [] else
    var f := Firsts(src[..|src| - 1]);
    if src[|src| - 1] in f then f else f + [src[|src| - 1]]
  }

  /** Both alphabets have a power of two symbols, selected by masking. */
  predicate MaskSize(n: nat)
  {
    n == 32 || n == 64
  }

  function Mask(x: byte, n: nat): (r: byte)
    requires MaskSize(n)
    ensures r < n
  {
    if n == 64 then x % 64 else x % 32
  }

  function Masked(src: seq<byte>, n: nat): (r: seq<nat>)
    requires MaskSize(n)
    ensures |r| == |src|
    ensures forall i :: 0 <= i < |r| ==> r[i] == Mask(src[i], n)
  {
    seq(|src|, i requires 0 <= i < |src| => Mask(src[i], n))
  }

  lemma {:induction false} FirstsShape(src: seq<nat>)
    ensures NoRepeat(Firsts(src))
    ensures forall x :: x in Firsts(src) <==> x in src
  {
    if src != [] {
      FirstsShape(src[..|src| - 1]);
      assert src == src[..|src| - 1] + [src[|src| - 1]];
    }
  }

  lemma {:induction false} FirstsPrefix(src: seq<nat>, n: nat)
    requires n <= |src|
    ensures Firsts(src[..n]) <= Firsts(src)
    decreases |src| - n
  {
    if n < |src| {
      FirstsPrefix(src, n + 1);
      assert src[..n + 1][..n] == src[..n];
    } else {
      assert src[..n] == src;
    }
  }

  function Elems(s: seq<nat>): (r: set<nat>)
    ensures forall x :: x in r <==> x in s
  {
    set x | x in s
  }

  function Below(n: nat): (r: set<nat>)
    ensures |r| == n
    ensures forall x :: x in r <==> 0 <= x < n
  {
    if n == 0 then {} else Below(n - 1) + {n - 1}
  }

  lemma {:induction false} CountDistinct(s: seq<nat>)
    requires NoRepeat(s)
    ensures |Elems(s)| == |s|
  {
    if s != [] {
      var t, x := s[..|s| - 1], s[|s| - 1];
      CountDistinct(t);
      assert s == t + [x] && x !in t;
      assert Elems(s) == Elems(t) + {x};
    }
  }

  lemma {:induction false} SubsetSize(a: set<nat>, b: set<nat>)
    requires a <= b
    ensures |a| <= |b|
  {
    assert b == a + (b - a);
  }

  lemma {:induction false} NotLonger(g: seq<nat>, f: seq<nat>)
    requires NoRepeat(g) && NoRepeat(f)
    requires forall j :: 0 <= j < |g| ==> g[j] in f
    ensures |g| <= |f|
  {
    CountDistinct(g);
    CountDistinct(f);
    SubsetSize(Elems(g), Elems(f));
  }

  /** The first position holding none of the first c symbols holds symbol c. */
  lemma {:induction false} FirstMissing(src: seq<nat>, c: nat, n: nat)
    requires c <= |Firsts(src)| && n < |src|
    requires forall k :: 0 <= k < n ==> src[k] in Firsts(src)[..c]
    requires src[n] !in Firsts(src)[..c]
    ensures c < |Firsts(src)| && Firsts(src)[c] == src[n]
  {
    var f := Firsts(src);
    var g := Firsts(src[..n]);
    FirstsShape(src);
    FirstsShape(src[..n]);
    FirstsPrefix(src, n);
    FirstsPrefix(src, n + 1);
    assert src[..n + 1][..n] == src[..n];
    assert forall j :: 0 <= j < |g| ==> g[j] in src[..n];
    NotLonger(g, f[..c]);
    assert src[n] !in g;
    assert Firsts(src[..n + 1]) == g + [src[n]];
    assert f[|g|] == src[n];
    assert forall i :: 0 <= i < c ==> f[i] == f[..c][i] && f[i] != src[n];
  }

  /** A list of symbols that covers the stream is the whole list. */
  lemma {:induction false} NoneLeft(src: seq<nat>, c: nat)
    requires c <= |Firsts(src)|
    requires forall k :: 0 <= k < |src| ==> src[k] in Firsts(src)[..c]
    ensures c == |Firsts(src)|
  {
    FirstsShape(src);
    assert forall j :: 0 <= j < |Firsts(src)| ==> Firsts(src)[j] in src;
    NotLonger(Firsts(src), Firsts(src)[..c]);
  }

  lemma {:induction false} FirstsBound(src: seq<nat>, n: nat)
    requires forall k :: 0 <= k < |src| ==> src[k] < n
    ensures |Firsts(src)| <= n
    ensures forall k :: 0 <= k < |Firsts(src)| ==> Firsts(src)[k] < n
  {
    FirstsShape(src);
    var f := Firsts(src);
    assert forall k :: 0 <= k < |f| ==> f[k] in src;
    CountDistinct(f);
    SubsetSize(Elems(f), Below(n));
  }

  /** When every symbol below n occurs, first-occurrence order is a permutation. */
  lemma {:induction false} FirstsPermutation(src: seq<nat>, n: nat)
    requires forall k :: 0 <= k < |src| ==> src[k] < n
    requires forall x :: 0 <= x < n ==> x in src
    ensures |Firsts(src)| == n && NoRepeat(Firsts(src))
    ensures forall x :: x in Firsts(src) <==> 0 <= x < n
  {
    FirstsShape(src);
    FirstsBound(src, n);
    CountDistinct(Firsts(src));
    assert Elems(Firsts(src)) == Below(n);
  }

  /** A symbol's place is the number of different symbols before its first occurrence. */
  lemma {:induction false} FirstsPlace(src: seq<nat>, n: nat)
    requires n < |src| && src[n] !in src[..n]
    ensures |Elems(src[..n])| < |Firsts(src)| && Firsts(src)[|Elems(src[..n])|] == src[n]
  {
    var g := Firsts(src[..n]);
    FirstsShape(src[..n]);
    CountDistinct(g);
    assert Elems(g) == Elems(src[..n]);
    FirstsPrefix(src, n + 1);
    FirstsStep(src, n);
    assert g + [src[n]] <= Firsts(src);
  }

  // ---- The two generators ------------------------------------------------------------

  /** The characters a list of symbols stands for. */
  function Spell(alphabet: string, f: seq<nat>): (r: string)
    requires forall k :: 0 <= k < |f| ==> f[k] < |alphabet|
    ensures |r| == |f|
    ensures forall k :: 0 <= k < |f| ==> r[k] == alphabet[f[k]]
  {
    seq(|f|, k requires 0 <= k < |f| => alphabet[f[k]])
  }

  ghost predicate Covers(src: seq<byte>, n: nat)
    requires MaskSize(n)
  {
    forall x :: 0 <= x < n ==> x in Masked(src, n)
  }

  /** First-occurrence order, spelled in the alphabet. */
  ghost function CharsetOf(src: seq<byte>, alphabet: string): (r: string)
    requires MaskSize(|alphabet|)
    ensures |r| == |Firsts(Masked(src, |alphabet|))| <= |alphabet|
  {
    FirstsBound(Masked(src, |alphabet|), |alphabet|);
    Spell(alphabet, Firsts(Masked(src, |alphabet|)))
  }

  /** The charset character by character: the symbol that first occurs at octet n stands
      at the place given by how many different ones occurred before. */
  lemma {:induction false} CharsetPlace(src: seq<byte>, alphabet: string, n: nat)
    requires MaskSize(|alphabet|) && n < |src|
    requires forall m :: 0 <= m < n ==> src[m] % |alphabet| != src[n] % |alphabet|
    ensures var k := |set m | 0 <= m < n :: src[m] % (|alphabet|)|;
            k < |CharsetOf(src, alphabet)| && CharsetOf(src, alphabet)[k] == alphabet[src[n] % |alphabet|]
  {
    hide Firsts;
    var masked := Masked(src, |alphabet|);
    assert forall m :: 0 <= m < n ==> masked[..n][m] == src[m] % |alphabet|;
    FirstsPlace(masked, n);
    var k := set m | 0 <= m < n :: src[m] % (|alphabet|);
    forall x ensures x in k <==> x in Elems(masked[..n]) {
      if x in Elems(masked[..n]) {
        var m :| 0 <= m < n && masked[..n][m] == x;
        assert src[m] % |alphabet| == x;
      }
    }
    assert k == Elems(masked[..n]);
  }

  /** One scan from the start of the stream. (The source also stores each masked
      octet back; masking twice changes nothing.) */
  method FindUnused(src: seq<byte>, n: nat, done: set<nat>) returns (i: nat)
    requires MaskSize(n)
    ensures i <= |src|
    ensures forall k :: 0 <= k < i ==> Mask(src[k], n) in done
    ensures i < |src| ==> Mask(src[i], n) !in done
  {
    i := 0;
    while i < |src|
      invariant 0 <= i <= |src|
      invariant forall k :: 0 <= k < i ==> Mask(src[k], n) in done
    {
      if Mask(src[i], n) !in done { break; }
      i := i + 1;
    }
  }

  /** eidSetup: for each character, scan the stream again from its start for a
      symbol not yet used; what is never found stays a question mark. */
  method RescanningCharset(src: seq<byte>, alphabet: string) returns (chars: array<char>)
    requires MaskSize(|alphabet|)
    ensures fresh(chars) && chars.Length == |alphabet|
    ensures var cs := CharsetOf(src, alphabet);
            chars[..] == cs + seq(|alphabet| - |cs|, _ => '?')
  {
    var n := |alphabet|;
    ghost var m := Masked(src, n);
    ghost var f, cs := Firsts(m), CharsetOf(src, alphabet);
    chars := new char[n](_ => '?');
    var done: set<nat> := {};
    ghost var found := 0;
    for c := 0 to n
      invariant found <= c && found <= |f| && (found < c ==> found == |f|)
      invariant done == Elems(f[..found])
      invariant chars[..found] == cs[..found]
      invariant forall k :: found <= k < n ==> chars[k] == '?'
    {
      var i := FindUnused(src, n, done);
      if i < |src| {
        NextSymbol(m, found, i);
        chars[c] := alphabet[Mask(src[i], n)];
        assert chars[..found + 1] == chars[..found] + [cs[found]];
        done := done + {Mask(src[i], n)};
        found := found + 1;
      } else {
        NoneLeft(m, found);
      }
    }
    assert chars[..] == chars[..found] + chars[found..];
  }

  lemma {:induction false} NextSymbol(m: seq<nat>, c: nat, n: nat)
    requires c <= |Firsts(m)| && n < |m|
    requires forall k :: 0 <= k < n ==> m[k] in Firsts(m)[..c]
    requires m[n] !in Firsts(m)[..c]
    ensures c < |Firsts(m)| && Firsts(m)[c] == m[n]
    ensures Elems(Firsts(m)[..c + 1]) == Elems(Firsts(m)[..c]) + {m[n]}
  {
    FirstMissing(m, c, n);
    assert Firsts(m)[..c + 1] == Firsts(m)[..c] + [m[n]];
  }

  /** setMsgIdKey: one pass, keeping each symbol the first time it appears. The
      loop has no bound of its own, so every symbol must occur. */
  method SinglePassCharset(src: seq<byte>, alphabet: string) returns (chars: array<char>)
    requires MaskSize(|alphabet|) && Covers(src, |alphabet|)
    ensures fresh(chars) && chars.Length == |alphabet|
    ensures chars[..] == CharsetOf(src, alphabet)
  {
    hide Firsts, Elems;
    var n := |alphabet|;
    ghost var m := Masked(src, n);
    ghost var f, cs := Firsts(m), CharsetOf(src, alphabet);
    FirstsPermutation(m, n);
    NoneYet(m);
    chars := new char[n](_ => '?');
    var done: set<nat> := {};
    var total, i := 0, 0;
    while total < n
      invariant 0 <= i <= |src| && total <= n
      invariant Firsts(m[..i]) == f[..total]
      invariant done == Elems(f[..total])
      invariant chars[..total] == cs[..total]
      decreases |src| - i
    {
      PassStep(m, total, i);
      if Mask(src[i], n) !in done {
        chars[total] := alphabet[Mask(src[i], n)];
        assert chars[..total + 1] == chars[..total] + [cs[total]];
        done := done + {Mask(src[i], n)};
        total := total + 1;
      }
      i := i + 1;
    }
    assert f[..n] == f;
  }

  lemma NoneYet(m: seq<nat>)
    ensures Firsts(m[..0]) == [] == Firsts(m)[..0] && Elems([]) == {}
  {
  }

  lemma {:induction false} FirstsStep(m: seq<nat>, i: nat)
    requires i < |m|
    ensures var g := Firsts(m[..i]); Firsts(m[..i + 1]) == if m[i] in g then g else g + [m[i]]
  {
    assert m[..i + 1][..i] == m[..i];
  }

  lemma {:induction false} PassStep(m: seq<nat>, c: nat, i: nat)
    requires c < |Firsts(m)| && i <= |m| && Firsts(m[..i]) == Firsts(m)[..c]
    ensures i < |m|
    ensures m[i] in Firsts(m)[..c] ==> Firsts(m[..i + 1]) == Firsts(m)[..c]
    ensures m[i] !in Firsts(m)[..c] ==>
      && Firsts(m[..i + 1]) == Firsts(m)[..c + 1] && Firsts(m)[c] == m[i]
      && Elems(Firsts(m)[..c + 1]) == Elems(Firsts(m)[..c]) + {m[i]}
  {
    hide Firsts, Elems;
    assert m[..|m|] == m;
    FirstsPrefix(m, i + 1);
    var f, g, h := Firsts(m), Firsts(m[..i]), Firsts(m[..i + 1]);
    FirstsStep(m, i);
    assert h == f[..|h|];
    ElemsAppend(g, m[i]);
  }

  lemma ElemsAppend(s: seq<nat>, x: nat)
    ensures Elems(s + [x]) == Elems(s) + {x}
  {
  }

  /** With every symbol in the stream and an alphabet without repeats, the
      charset is a rearrangement of the alphabet, and its first character is the
      one the first stream octet selects - all Creator computes. */
  lemma {:induction false} CharsetPermutes(src: seq<byte>, alphabet: string)
    requires MaskSize(|alphabet|) && NoRepeat(alphabet) && Covers(src, |alphabet|)
    ensures var cs := CharsetOf(src, alphabet);
            && |cs| == |alphabet| && NoRepeat(cs)
            && (forall ch :: ch in cs <==> ch in alphabet)
  {
    var n := |alphabet|;
    FirstsPermutation(Masked(src, n), n);
    FirstsBound(Masked(src, n), n);
    SpellPermutes(alphabet, Firsts(Masked(src, n)));
  }

  lemma {:induction false} SpellPermutes(alphabet: string, f: seq<nat>)
    requires NoRepeat(alphabet) && NoRepeat(f)
    requires forall k :: 0 <= k < |f| ==> f[k] < |alphabet|
    requires forall x :: 0 <= x < |alphabet| ==> x in f
    ensures NoRepeat(Spell(alphabet, f))
    ensures forall ch :: ch in Spell(alphabet, f) <==> ch in alphabet
  {
    forall ch | ch in alphabet ensures ch in Spell(alphabet, f) {
      var k :| 0 <= k < |alphabet| && alphabet[k] == ch;
      assert k in f;
      var j :| 0 <= j < |f| && f[j] == k;
      assert Spell(alphabet, f)[j] == ch;
    }
  }

  /** get_eid_char0 looks at one octet of the key stream. */
  function FirstChar(octet: byte, alphabet: string): char
    requires MaskSize(|alphabet|)
  {
    alphabet[Mask(octet, |alphabet|)]
  }

  /** Creator, from one octet, and Storage, from the whole stream, agree on the
      first character. */
  lemma {:induction false} FirstCharAgrees(src: seq<byte>, alphabet: string)
    requires MaskSize(|alphabet|) && src != []
    ensures var cs := CharsetOf(src, alphabet);
            cs != [] && cs[0] == FirstChar(src[0], alphabet)
  {
    var m := Masked(src, |alphabet|);
    FirstsPrefix(m, 1);
    assert m[..1] == [m[0]] && [m[0]][..0] == [];
    assert Firsts(m[..1]) == [m[0]];
  }

  // ---- File names ----------------------------------------------------------------------

  const DIGITS := "0123456789"
  const UPPER := "ABCDEFGHIJKLMNOPQRSTUVWXYZ"
  const LOWER := "abcdefghijklmnopqrstuvwxyz"
  const B64_SET := DIGITS + UPPER + LOWER + "_+"

  lemma Pieces()
    ensures |DIGITS| == 10 && forall i :: 0 <= i < 10 ==> DIGITS[i] as int == 48 + i
    ensures |UPPER| == 26 && forall i :: 0 <= i < 26 ==> UPPER[i] as int == 65 + i
    ensures |LOWER| == 26 && forall i :: 0 <= i < 26 ==> LOWER[i] as int == 97 + i
  {
  }

  lemma {:induction false} B64NoRepeat()
    ensures |B64_SET| == 64 && NoRepeat(B64_SET)
  {
    Pieces();
    assert |B64_SET| == 64;
    forall i | 0 <= i < 64
      ensures B64_SET[i] as int == if i < 10 then 48 + i else if i < 36 then 55 + i else if i < 62 then 61 + i else if i == 62 then 95 else 43
    {
      if i < 10 { assert B64_SET[i] == DIGITS[i]; }
      else if i < 36 { assert B64_SET[i] == UPPER[i - 10]; }
      else if i < 62 { assert B64_SET[i] == LOWER[i - 36]; }
      else { assert B64_SET[i] == "_+"[i - 62]; }
    }
  }

  /** The file holding a user's envelopes. */
  function Path(eid: string, uid: nat): (path: string)
    requires |eid| == 64
    ensures |path| == 7
  {
    "/Msg/" + [eid[uid % 64], eid[uid / 64 % 64]]
  }

  /** The two characters: of the lower six bits of the number, and of the upper six. */
  lemma {:induction false} PathOf(eid: string, low: nat, high: nat)
    requires |eid| == 64 && low < 64 && high < 64
    ensures Path(eid, low + 64 * high) == "/Msg/" + [eid[low]] + [eid[high]]
  {
    assert (low + 64 * high) % 64 == low && (low + 64 * high) / 64 == high;
  }

  /** No two users share a file. */
  lemma {:induction false} PathInjective(eid: string, u: nat, v: nat)
    requires |eid| == 64 && NoRepeat(eid)
    requires u < 4096 && v < 4096 && Path(eid, u) == Path(eid, v)
    ensures u == v
  {
    assert Path(eid, u)[5] == eid[u % 64] && Path(eid, v)[5] == eid[v % 64];
    assert Path(eid, u)[6] == eid[u / 64 % 64] && Path(eid, v)[6] == eid[v / 64 % 64];
    assert u % 64 == v % 64 && u / 64 == v / 64;
  }

  // ---- Message-IDs -----------------------------------------------------------------------

  const B32_SET := "0123456789bcdefghjklmnpqrstvwxyz"

  lemma {:induction false} B32NoRepeat()
    ensures |B32_SET| == 32 && NoRepeat(B32_SET)
  {
    assert forall i, j :: 0 <= i < j < 32 ==> B32_SET[i] < B32_SET[j];
  }

  /** The five-bit groups of a number, lowest first. */
  function Digits(v: nat, n: nat): (d: seq<nat>)
    ensures |d| == n
    ensures forall k :: 0 <= k < n ==> d[k] < 32
  {
    if n == 0 then [] else [v % 32] + Digits(v / 32, n - 1)
  }

  function Undigits(d: seq<nat>): nat
  {
    if d == [] then 0 else d[0] + 32 * Undigits(d[1..])
  }

  function Pow32(n: nat): (r: nat)
    ensures r >= 1
  {
    if n == 0 then 1 else 32 * Pow32(n - 1)
  }

  lemma {:induction false} DigitsRoundTrip(v: nat, n: nat)
    requires v < Pow32(n)
    ensures Undigits(Digits(v, n)) == v
  {
    if n > 0 {
      DigitsRoundTrip(v / 32, n - 1);
      assert Digits(v, n)[1..] == Digits(v / 32, n - 1);
    }
  }

  lemma {:induction false} ThirteenDigitsHold64Bits()
    ensures Pow32(13) == 0x2_0000_0000_0000_0000
  {
    assert Pow32(4) == 0x10_0000;
    assert Pow32(8) == 0x100_0000_0000;
    assert Pow32(12) == 0x1000_0000_0000_0000;
  }

  /** v >> (5 * j). */
  function Shr5(v: nat, j: nat): nat
  {
    if j == 0 then v else Shr5(v / 32, j - 1)
  }

  lemma {:induction false} GroupIsDigit(v: nat, j: nat, n: nat)
    requires j < n
    ensures Digits(v, n)[j] == Shr5(v, j) % 32
  {
    if j > 0 { GroupIsDigit(v / 32, j - 1, n - 1); }
  }

  lemma {:induction false} DigitBits(v: nat, n: nat, j: nat, b: nat)
    requires j < n && b < 5
    ensures Bit(Digits(v, n)[j], b) == Bit(v, 5 * j + b)
  {
    if j == 0 {
      LowBits(v, b);
    } else {
      DigitBits(v / 32, n - 1, j - 1, b);
      BitsAbove(v, 5 * (j - 1) + b);
    }
  }

  lemma {:induction false} LowBits(v: nat, b: nat)
    requires b < 5
    ensures Bit(v % 32, b) == Bit(v, b)
  {
    var q := v / 32;
    assert Above(q, 1) == 2 * q && Above(q, 2) == 4 * q && Above(q, 3) == 8 * q && Above(q, 4) == 16 * q && Above(q, 5) == 32 * q;
    BitBelow(q, v % 32, 5, b);
  }

  lemma {:induction false} BitsAbove(v: nat, i: nat)
    ensures Bit(v / 32, i) == Bit(v, i + 5)
  {
    assert Bit(v, i + 5) == Bit(v / 2, i + 4);
    assert Bit(v / 2, i + 4) == Bit(v / 2 / 2, i + 3);
    assert Bit(v / 2 / 2, i + 3) == Bit(v / 2 / 2 / 2, i + 2);
    assert Bit(v / 2 / 2 / 2, i + 2) == Bit(v / 2 / 2 / 2 / 2, i + 1);
    assert v / 2 / 2 / 2 / 2 / 2 == v / 32;
  }

  /** A 26-character ID as 26 symbols: two 64-bit halves of thirteen digits. */
  function IdSymbols(lo: u64, hi: u64): (d: seq<nat>)
    ensures |d| == 26
    ensures forall k :: 0 <= k < 26 ==> d[k] < 32
  {
    Digits(lo, 13) + Digits(hi, 13)
  }

  /** Symbol k of the text holds five bits: of the first half from bit 5k on for the first
      thirteen, of the second half likewise for the others. */
  lemma {:induction false} IdSymbolBits(lo: u64, hi: u64, k: nat, b: nat)
    requires k < 26 && b < 5
    ensures Bit(IdSymbols(lo, hi)[k], b) == if k < 13 then Bit(lo, 5 * k + b) else Bit(hi, 5 * (k - 13) + b)
  {
    hide Digits, Bit;
    if k < 13 { DigitBits(lo, 13, k, b); } else { DigitBits(hi, 13, k - 13, b); }
  }

  /** genMsgId, the Base32 branch. */
  method MsgIdText(cs: string, lo: u64, hi: u64) returns (out: string)
    requires |cs| == 32
    ensures out == Spell(cs, IdSymbols(lo, hi))
  {
    hide Digits, Shr5;
    var id := [lo, hi];
    out := "";
    for i := 0 to 2
      invariant out == Spell(cs, IdSymbols(lo, hi))[..i * 13]
    {
      for j := 0 to 13
        invariant out == Spell(cs, IdSymbols(lo, hi))[..i * 13 + j]
      {
        GroupIsDigit(id[i], j, 13);
        assert IdSymbols(lo, hi)[i * 13 + j] == Shr5(id[i], j) % 32;
        out := out + [cs[Shr5(id[i], j) % 32]];
      }
    }
  }

  /** Position of a character in the charset. */
  function IndexIn(cs: string, ch: char): (k: nat)
    ensures k <= |cs|
    ensures k < |cs| ==> cs[k] == ch
    ensures k == |cs| ==> ch !in cs
  {
    if cs == [] then 0 else if cs[0] == ch then 0 else 1 + IndexIn(cs[1..], ch)
  }

  /** The reader's inverse of MsgIdText. */
  function ReadMsgId(cs: string, text: string): (nat, nat)
    requires |text| == 26
  {
    var d := seq(26, k requires 0 <= k < 26 => IndexIn(cs, text[k]));
    (Undigits(d[..13]), Undigits(d[13..]))
  }

  lemma {:induction false} ReadInvertsMsgId(cs: string, lo: u64, hi: u64)
    requires |cs| == 32 && NoRepeat(cs)
    ensures ReadMsgId(cs, Spell(cs, IdSymbols(lo, hi))) == (lo, hi)
  {
    var d := IdSymbols(lo, hi);
    var text := Spell(cs, d);
    forall k | 0 <= k < 26 ensures IndexIn(cs, text[k]) == d[k] {
      assert cs[d[k]] == text[k];
    }
    var read := seq(26, k requires 0 <= k < 26 => IndexIn(cs, text[k]));
    assert read == d;
    assert d[..13] == Digits(lo, 13) && d[13..] == Digits(hi, 13);
    ThirteenDigitsHold64Bits();
    DigitsRoundTrip(lo, 13);
    DigitsRoundTrip(hi, 13);
  }

  /** The sixteen octets a Message-ID encrypts. */
  function RawId(ts: u32, uid: u16, nsec: nat, addr32: seq<byte>): (r: seq<byte>)
    requires |addr32| == 10
    ensures |r| == 16
  {
    ToLe(ts, 4) + ToLe(uid % 4096 + nsec % 16 * 4096, 2) + addr32
  }

  /** The whole Message-ID: the secret encoding of the encrypted raw ID. */
  function MsgId(cs: string, encrypt: seq<byte> -> seq<byte>, raw: seq<byte>): string
    requires |cs| == 32 && |encrypt(raw)| == 16
  {
    FromLeBound(encrypt(raw)[..8]);
    FromLeBound(encrypt(raw)[8..]);
    Ranges();
    Spell(cs, IdSymbols(FromLe(encrypt(raw)[..8]), FromLe(encrypt(raw)[8..])))
  }

  lemma {:induction false} RawIdFields(ts: u32, uid: u16, nsec: nat, addr32: seq<byte>)
    requires |addr32| == 10
    ensures var raw := RawId(ts, uid, nsec, addr32);
            FromLe(raw[..4]) == ts && FromLe(raw[4..6]) == uid % 4096 + 4096 * (nsec % 16) && raw[6..] == addr32
  {
    var raw := RawId(ts, uid, nsec, addr32);
    var uidTs := uid % 4096 + nsec % 16 * 4096;
    assert raw[..4] == ToLe(ts, 4) && raw[4..6] == ToLe(uidTs, 2);
    Ranges();
    LeRoundTrip(ts, 4);
    LeRoundTrip(uidTs, 2);
  }

  lemma {:induction false} HalvesRoundTrip(enc: seq<byte>)
    requires |enc| == 16
    ensures ToLe(FromLe(enc[..8]), 8) + ToLe(FromLe(enc[8..]), 8) == enc
  {
    FromLeBound(enc[..8]);
    FromLeBound(enc[8..]);
    LeRoundTrip(FromLe(enc[..8]), 8);
    LeRoundTrip(FromLe(enc[8..]), 8);
    LeUnique(ToLe(FromLe(enc[..8]), 8), enc[..8]);
    LeUnique(ToLe(FromLe(enc[8..]), 8), enc[8..]);
    assert enc[..8] + enc[8..] == enc;
  }

  /** With the charset and the cipher key, a Message-ID gives back who sent it,
      when, and from which address; so different senders never share one. */
  lemma {:induction false} MsgIdReveals(cs: string, encrypt: seq<byte> -> seq<byte>, decrypt: seq<byte> -> seq<byte>,
                     ts: u32, uid: u16, nsec: nat, addr32: seq<byte>)
    requires |cs| == 32 && NoRepeat(cs) && |addr32| == 10
    requires forall b :: |b| == 16 ==> |encrypt(b)| == 16 && decrypt(encrypt(b)) == b
    ensures var (lo, hi) := ReadMsgId(cs, MsgId(cs, encrypt, RawId(ts, uid, nsec, addr32)));
            var back := decrypt(ToLe(lo, 8) + ToLe(hi, 8));
            && |back| == 16
            && FromLe(back[..4]) == ts && FromLe(back[4..6]) == uid % 4096 + 4096 * (nsec % 16) && back[6..] == addr32
  {
    var enc := encrypt(RawId(ts, uid, nsec, addr32));
    FromLeBound(enc[..8]);
    FromLeBound(enc[8..]);
    Ranges();
    ReadInvertsMsgId(cs, FromLe(enc[..8]), FromLe(enc[8..]));
    HalvesRoundTrip(enc);
    RawIdFields(ts, uid, nsec, addr32);
  }

  /** The charset of the single-pass generator serves: whenever every symbol occurs in
      the key stream, Message-IDs spelled in it give back sender, time and address. */
  lemma {:induction false} MessageIdReveals(src: seq<byte>, encrypt: seq<byte> -> seq<byte>, decrypt: seq<byte> -> seq<byte>,
                                            ts: u32, uid: u16, nsec: nat, addr32: seq<byte>)
    requires Covers(src, 32) && |addr32| == 10
    requires forall b :: |b| == 16 ==> |encrypt(b)| == 16 && decrypt(encrypt(b)) == b
    ensures |CharsetOf(src, B32_SET)| == 32
    ensures var cs := CharsetOf(src, B32_SET);
            var (lo, hi) := ReadMsgId(cs, MsgId(cs, encrypt, RawId(ts, uid, nsec, addr32)));
            var back := decrypt(ToLe(lo, 8) + ToLe(hi, 8));
            && |back| == 16
            && FromLe(back[..4]) == ts && FromLe(back[4..6]) == uid % 4096 + 4096 * (nsec % 16) && back[6..] == addr32
  {
    hide Covers, Spell, Firsts, ReadMsgId, RawId, MsgId;
    B32NoRepeat();
    CharsetPermutes(src, B32_SET);
    MsgIdReveals(CharsetOf(src, B32_SET), encrypt, decrypt, ts, uid, nsec, addr32);
  }

  /** So two Message-IDs are the same only for the same sender, second and address. */
  lemma {:induction false} MessageIdsDiffer(src: seq<byte>, encrypt: seq<byte> -> seq<byte>, decrypt: seq<byte> -> seq<byte>,
                                            ts: u32, uid: u16, nsec: nat, addr32: seq<byte>,
                                            ts': u32, uid': u16, nsec': nat, addr32': seq<byte>)
    requires Covers(src, 32) && |addr32| == |addr32'| == 10
    requires forall b :: |b| == 16 ==> |encrypt(b)| == 16 && decrypt(encrypt(b)) == b
    ensures |CharsetOf(src, B32_SET)| == 32
    ensures var cs := CharsetOf(src, B32_SET);
            MsgId(cs, encrypt, RawId(ts, uid, nsec, addr32)) == MsgId(cs, encrypt, RawId(ts', uid', nsec', addr32')) ==>
              ts == ts' && uid % 4096 == uid' % 4096 && addr32 == addr32'
  {
    hide Covers, CharsetOf, ReadMsgId, RawId, MsgId, ToLe, FromLe;
    MessageIdReveals(src, encrypt, decrypt, ts, uid, nsec, addr32);
    MessageIdReveals(src, encrypt, decrypt, ts', uid', nsec', addr32');
    FieldsApart(uid % 4096, nsec % 16, uid' % 4096, nsec' % 16);
  }

  lemma FieldsApart(a: nat, b: nat, a': nat, b': nat)
    requires a < 4096 && a' < 4096
    ensures a + 4096 * b == a' + 4096 * b' ==> a == a' && b == b'
  {
  }
}
