/** The five-bit address encoding of Common/Addr32.c, on eight-bit words. */
module Addr32 {
  import opened Bytes

  const NONE: bv8 := 0xFF

  /** Digits and letters; I, L read as 1, O as 0, V as W; NONE for anything else. */
  function CharToAddr32(c: byte): (x: bv8)
    ensures x < 32 || x == NONE
  {
    match if 97 <= c <= 122 then c - 32 else c
    case 48 | 79 => 0
    case 49 | 73 | 76 => 1
    case 50 => 2
    case 51 => 3
    case 52 => 4
    case 53 => 5
    case 54 => 6
    case 55 => 7
    case 56 => 8
    case 57 => 9
    case 65 => 10
    case 66 => 11
    case 67 => 12
    case 68 => 13
    case 69 => 14
    case 70 => 15
    case 71 => 16
    case 72 => 17
    case 74 => 18
    case 75 => 19
    case 77 => 20
    case 78 => 21
    case 80 => 22
    case 81 => 23
    case 82 => 24
    case 83 => 25
    case 84 => 26
    case 85 => 27
    case 86 | 87 => 28
    case 88 => 29
    case 89 => 30
    case 90 => 31
    case _ => NONE
  }

  function Value(ch: char): bv8
    requires ch as int < 256
  {
    CharToAddr32(ch as int)
  }

  /** Digits count from 0, letters from 10; I and L are read as 1, O as 0 and V as W. */
  lemma {:induction false} DigitValues()
    ensures Value('0') == 0 && Value('1') == 1 && Value('2') == 2 && Value('3') == 3 && Value('4') == 4
    ensures Value('5') == 5 && Value('6') == 6 && Value('7') == 7 && Value('8') == 8 && Value('9') == 9
  {
  }

  lemma {:induction false} FirstLetters()
    ensures Value('A') == 10 && Value('B') == 11 && Value('C') == 12 && Value('D') == 13 && Value('E') == 14
    ensures Value('F') == 15 && Value('G') == 16 && Value('H') == 17 && Value('I') == 1
  {
  }

  lemma {:induction false} MiddleLetters()
    ensures Value('J') == 18 && Value('K') == 19 && Value('L') == 1 && Value('M') == 20 && Value('N') == 21
    ensures Value('O') == 0 && Value('P') == 22 && Value('Q') == 23 && Value('R') == 24
  {
  }

  lemma {:induction false} LastLetters()
    ensures Value('S') == 25 && Value('T') == 26 && Value('U') == 27 && Value('V') == 28 && Value('W') == 28
    ensures Value('X') == 29 && Value('Y') == 30 && Value('Z') == 31
  {
  }

  /** Small letters are read as capitals, and nothing else has a value. */
  lemma {:induction false} OnlyLettersAndDigits(c: byte)
    ensures 'a' <= c as char <= 'z' ==> CharToAddr32(c) == CharToAddr32(c - 32)
    ensures CharToAddr32(c) == NONE <==> !('0' <= c as char <= '9' || 'A' <= c as char <= 'Z' || 'a' <= c as char <= 'z')
  {
    hide CharToAddr32;
    if 97 <= c <= 122 { SmallAsCapital(c); CapitalHasValue(c - 32); }
    else if 65 <= c <= 90 { CapitalHasValue(c); }
    else { DigitOrNone(c); }
  }

  lemma {:induction false} SmallAsCapital(c: byte)
    requires 97 <= c <= 122
    ensures CharToAddr32(c) == CharToAddr32(c - 32)
  {
  }

  lemma {:induction false} CapitalHasValue(c: byte)
    requires 65 <= c <= 90
    ensures CharToAddr32(c) != NONE
  {
  }

  lemma {:induction false} DigitOrNone(c: byte)
    requires !(65 <= c <= 90) && !(97 <= c <= 122)
    ensures CharToAddr32(c) == NONE <==> !(48 <= c <= 57)
  {
  }

  type Scratch = s: seq<bv8> | |s| == 16 witness seq(16, _ => 0)

  /** Five octets: what f holds in the upper bits of the first, then seven symbols. */
  function Octet0(f: bv8, a: bv8): bv8 { f | (a >> 2) }

  function Octet1(a: bv8, b: bv8, c: bv8): bv8 { (a << 6) | (b << 1) | (c >> 4) }

  function Octet2(c: bv8, d: bv8): bv8 { (c << 4) | (d >> 1) }

  function Octet3(d: bv8, e: bv8, g: bv8): bv8 { (d << 7) | (e << 2) | (g >> 3) }

  function Octet4(g: bv8, h: bv8): bv8 { (g << 5) | h }

  function Top(x: bv8): bv8 { x << 3 }

  /** The ten octets made of the scratch array; the first one's upper part apart. */
  function Packed(src: Scratch, first: bv8): (out: seq<bv8>)
    ensures |out| == 10
  {
    [ Octet0(first, src[0]), Octet1(src[0], src[1], src[2]), Octet2(src[2], src[3]),
      Octet3(src[3], src[4], src[5]), Octet4(src[5], src[6]),
      Octet0(Top(src[7]), src[8]), Octet1(src[8], src[9], src[10]), Octet2(src[10], src[11]),
      Octet3(src[11], src[12], src[13]), Octet4(src[13], src[14]) ]
  }

  /** The upper part of the first octet: the length, or the shield bit and the
      sixteenth symbol. */
  function First(lenSrc: nat, last: bv8): bv8
    requires lenSrc <= 16
  {
    if lenSrc == 16 then 128 | (last << 3) else (lenSrc as bv8) << 3
  }

  /** The five bits of each symbol in five octets. */
  function Symbol0(o0: bv8, o1: bv8): bv8 { ((o0 & 7) << 2) | (o1 >> 6) }

  function Symbol1(o1: bv8): bv8 { (o1 >> 1) & 31 }

  function Symbol2(o1: bv8, o2: bv8): bv8 { ((o1 & 1) << 4) | (o2 >> 4) }

  function Symbol3(o2: bv8, o3: bv8): bv8 { ((o2 & 15) << 1) | (o3 >> 7) }

  function Symbol4(o3: bv8): bv8 { (o3 >> 2) & 31 }

  function Symbol5(o3: bv8, o4: bv8): bv8 { ((o3 & 3) << 3) | (o4 >> 5) }

  function Symbol6(o4: bv8): bv8 { o4 & 31 }

  /** Symbol k of the fifteen that follow the first five bits. */
  function Field(out: seq<bv8>, k: nat): bv8
    requires |out| == 10 && k < 15
  {
    match k
    case 0 => Symbol0(out[0], out[1])
    case 1 => Symbol1(out[1])
    case 2 => Symbol2(out[1], out[2])
    case 3 => Symbol3(out[2], out[3])
    case 4 => Symbol4(out[3])
    case 5 => Symbol5(out[3], out[4])
    case 6 => Symbol6(out[4])
    case 7 => out[5] >> 3
    case 8 => Symbol0(out[5], out[6])
    case 9 => Symbol1(out[6])
    case 10 => Symbol2(out[6], out[7])
    case 11 => Symbol3(out[7], out[8])
    case 12 => Symbol4(out[8])
    case 13 => Symbol5(out[8], out[9])
    case _ => Symbol6(out[9])
  }

  lemma BlockFields(f: bv8, a: bv8, b: bv8, c: bv8, d: bv8, e: bv8, g: bv8, h: bv8)
    requires f & 7 == 0 && a < 32 && b < 32 && c < 32 && d < 32 && e < 32 && g < 32 && h < 32
    ensures Symbol0(Octet0(f, a), Octet1(a, b, c)) == a && Symbol1(Octet1(a, b, c)) == b
    ensures Symbol2(Octet1(a, b, c), Octet2(c, d)) == c && Symbol3(Octet2(c, d), Octet3(d, e, g)) == d
    ensures Symbol4(Octet3(d, e, g)) == e && Symbol5(Octet3(d, e, g), Octet4(g, h)) == g
    ensures Symbol6(Octet4(g, h)) == h && Octet0(f, a) >> 3 == f >> 3
  {
  }

  /** Five octets hold their first five bits and the seven symbols in order, most
      significant bit first. */
  lemma BlockBits(f: bv8, a: bv8, b: bv8, c: bv8, d: bv8, e: bv8, g: bv8, h: bv8)
    requires f & 7 == 0 && a < 32 && b < 32 && c < 32 && d < 32 && e < 32 && g < 32 && h < 32
    ensures (Octet0(f, a) as bv40 << 32) | (Octet1(a, b, c) as bv40 << 24) | (Octet2(c, d) as bv40 << 16)
              | (Octet3(d, e, g) as bv40 << 8) | (Octet4(g, h) as bv40) ==
            (f as bv40 << 32) | (a as bv40 << 30) | (b as bv40 << 25) | (c as bv40 << 20) | (d as bv40 << 15)
              | (e as bv40 << 10) | (g as bv40 << 5) | (h as bv40)
  {
  }

  lemma TopFits(x: bv8)
    requires x < 32
    ensures Top(x) & 7 == 0 && Top(x) >> 3 == x
  {
  }

  lemma {:induction false} FieldLow(src: Scratch, first: bv8, k: nat)
    requires k < 7 && first & 7 == 0 && forall j :: 0 <= j < 16 ==> src[j] < 32
    ensures Field(Packed(src, first), k) == src[k]
  {
    hide Octet0, Octet1, Octet2, Octet3, Octet4, Symbol0, Symbol1, Symbol2, Symbol3, Symbol4, Symbol5, Symbol6;
    assert src[0] < 32 && src[1] < 32 && src[2] < 32 && src[3] < 32 && src[4] < 32 && src[5] < 32 && src[6] < 32;
    BlockFields(first, src[0], src[1], src[2], src[3], src[4], src[5], src[6]);
  }

  lemma {:induction false} FieldHigh(src: Scratch, first: bv8, k: nat)
    requires 7 <= k < 15 && forall j :: 0 <= j < 16 ==> src[j] < 32
    ensures Field(Packed(src, first), k) == src[k]
  {
    hide Octet0, Octet1, Octet2, Octet3, Octet4, Symbol0, Symbol1, Symbol2, Symbol3, Symbol4, Symbol5, Symbol6, Top;
    assert src[7] < 32 && src[8] < 32 && src[9] < 32 && src[10] < 32 && src[11] < 32 && src[12] < 32 && src[13] < 32 && src[14] < 32;
    TopFits(src[7]);
    BlockFields(Top(src[7]), src[8], src[9], src[10], src[11], src[12], src[13], src[14]);
  }

  lemma {:induction false} FieldPacked(src: Scratch, first: bv8, k: nat)
    requires k < 15 && first & 7 == 0 && forall j :: 0 <= j < 16 ==> src[j] < 32
    ensures Field(Packed(src, first), k) == src[k]
  {
    hide Field, Packed;
    if k < 7 { FieldLow(src, first, k); } else { FieldHigh(src, first, k); }
  }

  /** A symbol of all ones shows as 31 whatever else spills over it. */
  lemma BlockCovers(f: bv8, a: bv8, b: bv8, c: bv8, d: bv8, e: bv8, g: bv8, h: bv8)
    ensures a == NONE ==> Symbol0(Octet0(f, a), Octet1(a, b, c)) == 31
    ensures b == NONE ==> Symbol1(Octet1(a, b, c)) == 31
    ensures c == NONE ==> Symbol2(Octet1(a, b, c), Octet2(c, d)) == 31
    ensures d == NONE ==> Symbol3(Octet2(c, d), Octet3(d, e, g)) == 31
    ensures e == NONE ==> Symbol4(Octet3(d, e, g)) == 31
    ensures g == NONE ==> Symbol5(Octet3(d, e, g), Octet4(g, h)) == 31
    ensures h == NONE ==> Symbol6(Octet4(g, h)) == 31
    ensures f == Top(NONE) ==> Octet0(f, a) >> 3 == 31
  {
  }

  lemma {:induction false} FieldCovers(src: Scratch, first: bv8, k: nat)
    requires k < 15 && src[k] == NONE
    ensures Field(Packed(src, first), k) == 31
  {
    hide Octet0, Octet1, Octet2, Octet3, Octet4, Symbol0, Symbol1, Symbol2, Symbol3, Symbol4, Symbol5, Symbol6;
    BlockCovers(first, src[0], src[1], src[2], src[3], src[4], src[5], src[6]);
    BlockCovers(Top(src[7]), src[8], src[9], src[10], src[11], src[12], src[13], src[14]);
  }

  lemma FirstBits(lenSrc: nat, last: bv8, s: bv8)
    requires lenSrc <= 16 && last < 32
    ensures First(lenSrc, last) & 7 == 0
    ensures (Octet0(First(lenSrc, last), s) & 128 != 0) == (lenSrc == 16)
    ensures lenSrc < 16 && s < 32 ==> (Octet0(First(lenSrc, last), s) >> 3) as nat == lenSrc
    ensures lenSrc == 16 && s < 32 ==> (Octet0(First(lenSrc, last), s) >> 3) & 15 == last & 15
  {
  }

  // ---- Storing -----------------------------------------------------------------------------

  /** The symbols of a name: its letters and digits, in order. */
  function Symbols(name: seq<byte>): (v: seq<bv8>)
    ensures |v| <= |name| && forall k :: 0 <= k < |v| ==> v[k] < 32
  {
    if name == [] then [] else
    var x := CharToAddr32(name[|name| - 1]);
    Symbols(name[..|name| - 1]) + if x == NONE then [] else [x]
  }

  /** The first sixteen. */
  function Normal(name: seq<byte>): (v: seq<bv8>)
    ensures |v| <= 16 && |v| <= |name| && forall k :: 0 <= k < |v| ==> v[k] < 32
  {
    var v := Symbols(name);
    if |v| < 16 then v else v[..16]
  }

  /** Zeros after the symbols, or first the mark of a refused last character. */
  function Filled(v: seq<bv8>, marked: bool): (src: Scratch)
    requires |v| <= 16
  {
    seq(16, k requires 0 <= k < 16 => if k < |v| then v[k] else if k == |v| && marked then NONE else 0)
  }

  /** The ten octets of up to sixteen symbols. */
  function Encoded(v: seq<bv8>): (out: seq<bv8>)
    requires |v| <= 16
    ensures |out| == 10
  {
    Packed(Filled(v, false), First(|v|, if |v| == 16 then v[15] else 0))
  }

  /** A name whose last character is neither a letter nor a digit. */
  predicate Marked(name: seq<byte>)
  {
    name != [] && CharToAddr32(name[|name| - 1]) == NONE
  }

  function Stored(name: seq<byte>): (out: seq<bv8>)
    ensures |out| == 10
  {
    var v := Normal(name);
    Packed(Filled(v, Marked(name)), First(|v|, if |v| == 16 then v[15] else 0))
  }

  lemma {:induction false} SymbolsPrefix(name: seq<byte>, i: nat)
    requires i <= |name|
    ensures Symbols(name[..i]) <= Symbols(name)
    decreases |name|
  {
    if i < |name| {
      SymbolsPrefix(name[..|name| - 1], i);
      assert name[..|name| - 1][..i] == name[..i];
    } else {
      assert name[..i] == name;
    }
  }

  lemma {:induction false} SymbolsStep(name: seq<byte>, i: nat)
    requires i < |name|
    ensures Symbols(name[..i + 1]) == Symbols(name[..i]) + if CharToAddr32(name[i]) == NONE then [] else [CharToAddr32(name[i])]
  {
    assert name[..i + 1][..i] == name[..i];
  }


  lemma MarkedStep(name: seq<byte>, i: nat)
    requires i < |name|
    ensures Marked(name[..i + 1]) <==> CharToAddr32(name[i]) == NONE
  {
  }

  /** The reading loop, which stops at sixteen symbols. */
  method ReadSymbols(original: seq<byte>) returns (src: array<bv8>, lenSrc: nat)
    ensures fresh(src) && src.Length == 16
    ensures lenSrc == |Normal(original)| && src[..] == Filled(Normal(original), Marked(original))
  {
    hide CharToAddr32, Symbols, Marked;
    src := new bv8[16](_ => 0);
    lenSrc := 0;
    SymbolsNone(original);
    for i := 0 to |original|
      invariant lenSrc < 16 && src[..lenSrc] == Symbols(original[..i])
      invariant src[lenSrc] == if Marked(original[..i]) then NONE else 0
      invariant forall k :: lenSrc < k < 16 ==> src[k] == 0
    {
      SymbolsStep(original, i);
      MarkedStep(original, i);
      src[lenSrc] := CharToAddr32(original[i]);
      if src[lenSrc] != NONE {
        lenSrc := lenSrc + 1;
        assert src[..lenSrc] == Symbols(original[..i + 1]);
      }
      if lenSrc == 16 {
        SymbolsPrefix(original, i + 1);
        assert src[..] == src[..16];
        return;
      }
    }
    assert original[..|original|] == original;
  }

  lemma SymbolsNone(name: seq<byte>)
    ensures Symbols(name[..0]) == [] && !Marked(name[..0])
  {
  }

  /** Five of the octets, the first of them at position p. */
  method WriteBlock(out: array<bv8>, p: nat, f: bv8, a: bv8, b: bv8, c: bv8, d: bv8, e: bv8, g: bv8, h: bv8)
    requires p + 5 <= out.Length
    modifies out
    ensures forall k :: 0 <= k < out.Length && (k < p || p + 5 <= k) ==> out[k] == old(out[k])
    ensures out[p..p + 5] == [Octet0(f, a), Octet1(a, b, c), Octet2(c, d), Octet3(d, e, g), Octet4(g, h)]
  {
    hide Octet0, Octet1, Octet2, Octet3, Octet4;
    out[p], out[p + 1], out[p + 2], out[p + 3], out[p + 4] :=
      Octet0(f, a), Octet1(a, b, c), Octet2(c, d), Octet3(d, e, g), Octet4(g, h);
  }

  method WriteOctets(out: array<bv8>, src: array<bv8>, first: bv8)
    requires out.Length >= 10 && src.Length == 16 && out != src
    modifies out
    ensures out[..10] == Packed(src[..], first)
    ensures forall k :: 10 <= k < out.Length ==> out[k] == old(out[k])
  {
    hide Octet0, Octet1, Octet2, Octet3, Octet4, Top;
    ghost var s: Scratch := src[..];
    WriteBlock(out, 0, first, src[0], src[1], src[2], src[3], src[4], src[5], src[6]);
    ghost var low := out[0..5];
    WriteBlock(out, 5, Top(src[7]), src[8], src[9], src[10], src[11], src[12], src[13], src[14]);
    assert out[..10] == low + out[5..10];
  }

  method Addr32Store(out: array<bv8>, original: seq<byte>)
    requires out.Length >= 10
    modifies out
    ensures out[..10] == Stored(original)
    ensures forall k :: 10 <= k < out.Length ==> out[k] == old(out[k])
  {
    hide Packed, First, Filled, Normal;
    var src, lenSrc := ReadSymbols(original);
    FilledLast(Normal(original), Marked(original));
    WriteOctets(out, src, First(lenSrc, if lenSrc == 16 then src[15] else 0));
  }

  lemma FilledLast(v: seq<bv8>, marked: bool)
    requires |v| <= 16
    ensures |v| == 16 ==> Filled(v, marked)[15] == v[15]
  {
  }

  // ---- What is stored -----------------------------------------------------------------------

  lemma FilledUnused(v: seq<bv8>)
    requires 15 <= |v| <= 16
    ensures forall first :: Packed(Filled(v, true), first) == Packed(Filled(v, false), first)
  {
  }

  lemma {:induction false} MarkShows(v: seq<bv8>, first: bv8)
    requires |v| < 15 && first & 7 == 0 && forall k :: 0 <= k < |v| ==> v[k] < 32
    ensures Packed(Filled(v, true), first) != Packed(Filled(v, false), first)
  {
    hide Packed, Field;
    FieldCovers(Filled(v, true), first, |v|);
    FieldPacked(Filled(v, false), first, |v|);
  }

  /** The octets stored are those of the first sixteen symbols exactly when the name
      is empty, ends with a letter or digit, or has fifteen of them; the mark of a
      refused last character is left among the symbols otherwise. */
  lemma {:induction false} StoredIsEncoded(name: seq<byte>)
    ensures Stored(name) == Encoded(Normal(name)) <==> !Marked(name) || |Symbols(name)| >= 15
  {
    hide Packed, First, Symbols, Marked, Filled;
    var v := Normal(name);
    FirstBits(|v|, if |v| == 16 then v[15] else 0, 0);
    if |v| >= 15 { FilledUnused(v); }
    else if Marked(name) { MarkShows(v, First(|v|, 0)); }
  }

  /** The shield bit tells sixteen symbols or more, for every name. */
  lemma {:induction false} ShieldBit(name: seq<byte>)
    ensures Stored(name)[0] & 128 != 0 <==> |Symbols(name)| >= 16
  {
    hide First, Symbols, Marked;
    var v := Normal(name);
    FirstBits(|v|, if |v| == 16 then v[15] else 0, Filled(v, Marked(name))[0]);
  }

  /** Reading the octets back. */
  function Unpacked(out: seq<bv8>): seq<bv8>
    requires |out| == 10
  {
    if out[0] & 128 != 0 then seq(15, k requires 0 <= k < 15 => Field(out, k)) + [(out[0] >> 3) & 15]
    else
      var n := (out[0] >> 3) as nat;
      if n > 15 then [] else seq(n, k requires 0 <= k < n => Field(out, k))
  }

  lemma {:induction false} UnpackedEncoded(v: seq<bv8>)
    requires |v| <= 16 && forall k :: 0 <= k < |v| ==> v[k] < 32
    ensures Unpacked(Encoded(v)) == if |v| == 16 then v[..15] + [v[15] & 15] else v
  {
    hide First, Field, Octet0, Octet1, Octet2, Octet3, Octet4, Top;
    var src, last := Filled(v, false), if |v| == 16 then v[15] else 0;
    var out := Encoded(v);
    FirstBits(|v|, last, src[0]);
    forall k | 0 <= k < 15 ensures Field(out, k) == src[k] { FieldPacked(src, First(|v|, last), k); }
  }

  /** Two lists of symbols share their octets exactly when they agree but for the
      top bit of a sixteenth symbol. */
  lemma {:induction false} SameOctets(v: seq<bv8>, w: seq<bv8>)
    requires |v| <= 16 && (forall k :: 0 <= k < |v| ==> v[k] < 32)
    requires |w| <= 16 && (forall k :: 0 <= k < |w| ==> w[k] < 32)
    ensures Encoded(v) == Encoded(w) <==>
      |v| == |w| && if |v| < 16 then v == w else v[..15] == w[..15] && v[15] & 15 == w[15] & 15
  {
    hide Packed, Unpacked, First;
    UnpackedEncoded(v);
    UnpackedEncoded(w);
    if Encoded(v) == Encoded(w) { UnpackedLength(v, w); }
    if |v| == |w| == 16 {
      var a, b := Unpacked(Encoded(v)), Unpacked(Encoded(w));
      assert a[..15] == v[..15] && a[15] == v[15] & 15 && b[..15] == w[..15] && b[15] == w[15] & 15;
    }
    if |v| == |w| == 16 && v[..15] == w[..15] && v[15] & 15 == w[15] & 15 {
      SameTop(v[15], w[15]);
      SamePacked(v, w);
    }
  }

  lemma SameTop(a: bv8, b: bv8)
    requires a < 32 && b < 32 && a & 15 == b & 15
    ensures First(16, a) == First(16, b)
  {
  }

  lemma {:induction false} SamePacked(v: seq<bv8>, w: seq<bv8>)
    requires |v| == |w| == 16 && v[..15] == w[..15]
    ensures forall first :: Packed(Filled(v, false), first) == Packed(Filled(w, false), first)
  {
    assert forall k :: 0 <= k < 15 ==> v[k] == v[..15][k] == w[k];
  }

  lemma {:induction false} UnpackedLength(v: seq<bv8>, w: seq<bv8>)
    requires |v| <= 16 && |w| <= 16 && Encoded(v) == Encoded(w)
    requires (forall k :: 0 <= k < |v| ==> v[k] < 32) && forall k :: 0 <= k < |w| ==> w[k] < 32
    ensures |v| == |w|
  {
    hide First, Octet1, Octet2, Octet3, Octet4, Top;
    FirstBits(|v|, if |v| == 16 then v[15] else 0, Filled(v, false)[0]);
    FirstBits(|w|, if |w| == 16 then w[15] else 0, Filled(w, false)[0]);
  }
}
