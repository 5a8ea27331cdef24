/** The Storage index as saved on disk (loadStindex and saveStindex): all
    counts first, then each user's two columns. */
module Stindex {
  import opened Bytes

  const USERS := 4096

  /** One user's live index columns. */
  datatype Index = Index(bc: seq<u16>, id: seq<u16>)

  predicate IndexOk(x: Index)
  {
    |x.bc| == |x.id| < 0x1_0000
  }

  predicate AllOk(idx: seq<Index>)
  {
    forall u :: 0 <= u < |idx| ==> IndexOk(idx[u])
  }

  // ---- 16-bit words -----------------------------------------------------------

  function Words(s: seq<u16>): (r: seq<byte>)
    ensures |r| == 2 * |s|
  {
    if s == [] then [] else ToLe(s[0], 2) + Words(s[1..])
  }

  function ReadWords(b: seq<byte>, n: nat): (r: seq<u16>)
    requires |b| >= 2 * n
    ensures |r| == n
  {
    if n == 0 then [] else
    FromLeBound(b[..2]);
    Ranges();
    [FromLe(b[..2])] + ReadWords(b[2..], n - 1)
  }

  lemma {:induction false} WordsRoundTrip(s: seq<u16>, rest: seq<byte>)
    ensures ReadWords(Words(s) + rest, |s|) == s
  {
    hide ToLe, FromLe;
    if s != [] {
      var b, two, more := Words(s) + rest, ToLe(s[0], 2), Words(s[1..]) + rest;
      assert b == two + more;
      assert b[..2] == two && b[2..] == more;
      Le16(s[0]);
      WordsRoundTrip(s[1..], rest);
    }
  }

  lemma {:induction false} WordsCons(w: u16, s: seq<u16>)
    ensures Words([w] + s) == ToLe(w, 2) + Words(s)
  {
    assert ([w] + s)[1..] == s;
  }

  lemma {:induction false} WordsOne(w: u16)
    ensures Words([w]) == ToLe(w, 2)
  {
    assert [w][1..] == [] && Words([]) == [];
  }

  lemma {:induction false} WordsAppend(a: seq<u16>, b: seq<u16>)
    ensures Words(a + b) == Words(a) + Words(b)
  {
    if a == [] {
      assert a + b == b;
    } else {
      assert (a + b)[1..] == a[1..] + b;
      WordsAppend(a[1..], b);
    }
  }

  // ---- The image ------------------------------------------------------------------

  function Counts(idx: seq<Index>): (r: seq<u16>)
    requires AllOk(idx)
    ensures |r| == |idx|
    ensures forall u :: 0 <= u < |idx| ==> r[u] == |idx[u].bc|
  {
    seq(|idx|, u requires 0 <= u < |idx| => |idx[u].bc|)
  }

  function Columns(idx: seq<Index>): seq<byte>
  {
    if idx == [] then [] else Words(idx[0].bc) + Words(idx[0].id) + Columns(idx[1..])
  }

  function Image(idx: seq<Index>): seq<byte>
    requires AllOk(idx)
  {
    Words(Counts(idx)) + Columns(idx)
  }

  function Sum(counts: seq<u16>): nat
  {
    if counts == [] then 0 else counts[0] + Sum(counts[1..])
  }

  function ReadColumns(b: seq<byte>, counts: seq<u16>): (idx: seq<Index>)
    requires |b| >= 4 * Sum(counts)
    ensures |idx| == |counts| && AllOk(idx)
  {
    if counts == [] then [] else
    var n: nat := counts[0];
    [Index(ReadWords(b, n), ReadWords(b[2 * n..], n))] + ReadColumns(b[4 * n..], counts[1..])
  }

  /** What the loader relies on: the octets it decrypted hold what the counts announce. */
  predicate Loadable(image: seq<byte>)
  {
    |image| >= 2 * USERS && |image| >= 2 * USERS + 4 * Sum(ReadWords(image, USERS))
  }

  function Parse(image: seq<byte>): (idx: seq<Index>)
    requires Loadable(image)
    ensures |idx| == USERS && AllOk(idx)
  {
    ReadColumns(image[2 * USERS..], ReadWords(image, USERS))
  }

  lemma {:induction false} ReadOne(x: Index, rest: seq<byte>)
    requires IndexOk(x)
    ensures var n: nat := |x.bc|; var b := Words(x.bc) + Words(x.id) + rest;
            && ReadWords(b, n) == x.bc && ReadWords(b[2 * n..], n) == x.id && b[4 * n..] == rest
  {
    var n: nat := |x.bc|;
    var b := Words(x.bc) + Words(x.id) + rest;
    assert b == Words(x.bc) + (Words(x.id) + rest);
    WordsRoundTrip(x.bc, Words(x.id) + rest);
    assert b[2 * n..] == Words(x.id) + rest;
    WordsRoundTrip(x.id, rest);
  }

  lemma {:induction false} ColumnsRoundTrip(idx: seq<Index>)
    requires AllOk(idx)
    ensures |Columns(idx)| == 4 * Sum(Counts(idx))
    ensures ReadColumns(Columns(idx), Counts(idx)) == idx
  {
    if idx != [] {
      assert Counts(idx)[1..] == Counts(idx[1..]);
      ColumnsRoundTrip(idx[1..]);
      ReadOne(idx[0], Columns(idx[1..]));
    }
  }

  /** Saving then loading is the identity on every index state. */
  lemma {:induction false} ImageRoundTrip(idx: seq<Index>)
    requires |idx| == USERS && AllOk(idx)
    ensures Loadable(Image(idx)) && Parse(Image(idx)) == idx
  {
    var image := Image(idx);
    WordsRoundTrip(Counts(idx), Columns(idx));
    assert image[2 * USERS..] == Columns(idx);
    ColumnsRoundTrip(idx);
  }

  // ---- The image Creator writes ---------------------------------------------------

  const NOTHING := Index([], [])

  lemma {:induction false} ZeroWords(n: nat)
    ensures Words(seq(n, _ => 0)) == seq(2 * n, _ => 0)
  {
    if n > 0 {
      ZeroWords(n - 1);
      assert seq(n, _ => 0 as u16)[1..] == seq(n - 1, _ => 0 as u16);
      assert ToLe(0, 2) == [0] + ToLe(0, 1) && ToLe(0, 1) == [0] + ToLe(0, 0);
    }
  }

  lemma {:induction false} EmptyColumns(n: nat)
    ensures Columns(seq(n, _ => NOTHING)) == []
  {
    hide Words;
    if n > 0 {
      EmptyColumns(n - 1);
      assert seq(n, _ => NOTHING)[1..] == seq(n - 1, _ => NOTHING);
    }
  }

  /** createWelcome: zeroes, the first user's count set to one, the block count of
      the one envelope; the ID word stays zero. */
  function CreatorImage(bc: u16): (image: seq<byte>)
  {
    [1] + seq(2 * USERS - 1, _ => 0) + ToLe(bc, 2) + [0, 0]
  }

  /** It is the image of an index that knows one envelope, of user 0, with ID 0. */
  lemma {:induction false} CreatorImageIs(bc: u16)
    ensures var idx := [Index([bc], [0])] + seq(USERS - 1, _ => NOTHING);
            AllOk(idx) && CreatorImage(bc) == Image(idx)
  {
    hide Words, Columns, ToLe;
    var first, rest := Index([bc], [0]), seq(USERS - 1, _ => NOTHING);
    var idx, image := [first] + rest, [1, 0] + seq(2 * (USERS - 1), _ => 0);
    EmptyColumns(USERS - 1);
    ColumnsCons(first, rest);
    TwoZeros();
    WordsOne(bc);
    WordsOne(0);
    assert Columns(idx) == ToLe(bc, 2) + [0, 0];
    assert Counts(idx) == [1] + seq(USERS - 1, _ => 0 as u16);
    OneThenZeros(USERS - 1);
    assert [1] + seq(2 * USERS - 1, _ => 0) == image;
    assert image + ToLe(bc, 2) + [0, 0] == image + (ToLe(bc, 2) + [0, 0]);
  }

  lemma {:induction false} TwoZeros()
    ensures ToLe(0, 2) == [0, 0] && ToLe(1, 2) == [1, 0]
  {
    assert ToLe(0, 1) == [0] + ToLe(0, 0) && ToLe(0, 2) == [0] + ToLe(0, 1) && ToLe(1, 2) == [1] + ToLe(0, 1);
  }

  lemma {:induction false} OneThenZeros(n: nat)
    ensures Words([1] + seq(n, _ => 0 as u16)) == [1, 0] + seq(2 * n, _ => 0)
  {
    hide Words, ToLe;
    WordsCons(1, seq(n, _ => 0 as u16));
    ZeroWords(n);
    TwoZeros();
  }

  lemma {:induction false} ColumnsCons(x: Index, rest: seq<Index>)
    ensures Columns([x] + rest) == Words(x.bc) + Words(x.id) + Columns(rest)
  {
    hide Words;
    assert ([x] + rest)[1..] == rest;
  }

  lemma {:induction false} ColumnsAppend(a: seq<Index>, x: Index)
    ensures Columns(a + [x]) == Columns(a) + (Words(x.bc) + Words(x.id))
  {
    if a == [] {
      assert Columns([x]) == Words(x.bc) + Words(x.id) + Columns([]) by { assert [x][1..] == []; }
      assert a + [x] == [x];
    } else {
      assert (a + [x])[1..] == a[1..] + [x];
      ColumnsAppend(a[1..], x);
    }
  }

  // ---- The loops that write and read it ---------------------------------------------

  /** memcpy of one column into the buffer. */
  method PutWords(dec: array<byte>, offset: nat, s: seq<u16>)
    requires offset + 2 * |s| <= dec.Length
    modifies dec
    ensures dec[..offset + 2 * |s|] == old(dec[..offset]) + Words(s)
  {
    for i := 0 to |s|
      invariant dec[..offset + 2 * i] == old(dec[..offset]) + Words(s[..i])
    {
      var le := ToLe(s[i], 2);
      var at := offset + 2 * i;
      ghost var before := dec[..at];
      dec[at], dec[at + 1] := le[0], le[1];
      assert dec[..at + 2] == before + le;
      assert s[..i + 1] == s[..i] + [s[i]];
      WordsAppend(s[..i], [s[i]]);
      assert Words([s[i]]) == le + Words([]);
    }
    assert s[..|s|] == s;
  }

  method ImageLength(idx: seq<Index>) returns (lenDec: nat)
    requires AllOk(idx)
    ensures lenDec == 2 * |idx| + |Columns(idx)|
  {
    lenDec := 2 * |idx|;
    for u := 0 to |idx|
      invariant lenDec == 2 * |idx| + |Columns(idx[..u])|
    {
      lenDec := lenDec + |idx[u].bc| * 2 * 2;
      ColumnsStep(idx, u);
    }
    assert idx[..|idx|] == idx;
  }

  method PutIndex(dec: array<byte>, offset: nat, x: Index) returns (next: nat)
    requires IndexOk(x)
    requires offset + 4 * |x.bc| <= dec.Length
    modifies dec
    ensures next == offset + 4 * |x.bc|
    ensures dec[..next] == old(dec[..offset]) + (Words(x.bc) + Words(x.id))
  {
    PutWords(dec, offset, x.bc);
    PutWords(dec, offset + 2 * |x.bc|, x.id);
    next := offset + 4 * |x.bc|;
  }

  method SaveImage(idx: seq<Index>) returns (image: seq<byte>)
    requires AllOk(idx)
    ensures image == Image(idx)
  {
    hide Words, Counts, ToLe;
    var lenDec := ImageLength(idx);
    var dec := new byte[lenDec];
    PutWords(dec, 0, Counts(idx));
    var offset := 2 * |idx|;
    assert dec[..offset] == Words(Counts(idx)) + Columns(idx[..0]);
    for u := 0 to |idx|
      invariant offset == 2 * |idx| + |Columns(idx[..u])| <= dec.Length
      invariant dec[..offset] == Words(Counts(idx)) + Columns(idx[..u])
    {
      ColumnsStep(idx, u);
      offset := PutIndex(dec, offset, idx[u]);
    }
    assert idx[..|idx|] == idx;
    assert dec[..offset] == dec[..];
    image := dec[..];
  }

  lemma {:induction false} ColumnsStep(idx: seq<Index>, u: nat)
    requires u < |idx|
    ensures Columns(idx[..u + 1]) == Columns(idx[..u]) + (Words(idx[u].bc) + Words(idx[u].id))
    ensures |Columns(idx[..u + 1])| <= |Columns(idx)|
    decreases |idx| - u
  {
    assert idx[..u + 1] == idx[..u] + [idx[u]];
    ColumnsAppend(idx[..u], idx[u]);
    if u + 1 < |idx| { ColumnsStep(idx, u + 1); } else { assert idx[..u + 1] == idx; }
  }

  method GetIndex(image: seq<byte>, offset: nat, n: nat) returns (x: Index, next: nat)
    requires |image| >= offset + 4 * n
    ensures x == Index(ReadWords(image[offset..], n), ReadWords(image[offset..][2 * n..], n))
    ensures next == offset + 4 * n && image[next..] == image[offset..][4 * n..]
  {
    var bc := ReadWords(image[offset..], n);
    assert image[offset..][2 * n..] == image[offset + 2 * n..];
    var id := ReadWords(image[offset + 2 * n..], n);
    x, next := Index(bc, id), offset + 4 * n;
  }

  method LoadImage(image: seq<byte>) returns (idx: seq<Index>)
    requires Loadable(image)
    ensures idx == Parse(image)
  {
    hide ReadWords;
    var counts := ReadWords(image, USERS);
    var offset: nat := 2 * USERS;
    idx := [];
    for u := 0 to USERS
      invariant offset <= |image| && |image[offset..]| >= 4 * Sum(counts[u..])
      invariant Parse(image) == idx + ReadColumns(image[offset..], counts[u..])
    {
      ghost var b, cs := image[offset..], counts[u..];
      assert cs[0] == counts[u] && cs[1..] == counts[u + 1..];
      var x, next := GetIndex(image, offset, counts[u]);
      assert ReadColumns(b, cs) == [x] + ReadColumns(image[next..], counts[u + 1..]);
      idx, offset := idx + [x], next;
    }
    assert counts[USERS..] == [];
  }

  // ---- The image octet by octet -------------------------------------------------------

  lemma {:induction false} WordAt(s: seq<u16>, k: nat)
    requires k < |s|
    ensures Words(s)[2 * k..2 * k + 2] == ToLe(s[k], 2)
  {
    hide ToLe;
    var w := Words(s);
    if k == 0 {
      assert w[0..2] == ToLe(s[0], 2);
    } else {
      WordAt(s[1..], k - 1);
      assert w[2 * k..2 * k + 2] == Words(s[1..])[2 * (k - 1)..2 * (k - 1) + 2];
    }
  }

  lemma SliceOfSlice(m: seq<byte>, a: nat, b: nat, c: nat, d: nat)
    requires c <= d <= b - a && a <= b <= |m|
    ensures m[a..b][c..d] == m[a + c..a + d]
  {
    var x, y := m[a..b][c..d], m[a + c..a + d];
    forall i | 0 <= i < d - c ensures x[i] == y[i] { assert x[i] == m[a..b][c + i] == m[a + (c + i)] == y[i]; }
    assert x == y;
  }

  /** Words that start at position `at` of m. */
  lemma {:induction false} WordsIn(m: seq<byte>, at: nat, s: seq<u16>)
    requires at + 2 * |s| <= |m| && m[at..at + 2 * |s|] == Words(s)
    ensures forall k :: 0 <= k < |s| ==> FromLe(m[at + 2 * k..at + 2 * k + 2]) == s[k]
  {
    hide Words, ToLe, FromLe;
    forall k | 0 <= k < |s| ensures FromLe(m[at + 2 * k..at + 2 * k + 2]) == s[k] {
      WordAt(s, k);
      SliceOfSlice(m, at, at + 2 * |s|, 2 * k, 2 * k + 2);
      Le16(s[k]);
    }
  }

  lemma {:induction false} ColumnsConcat(a: seq<Index>, b: seq<Index>)
    ensures Columns(a + b) == Columns(a) + Columns(b)
  {
    hide Words;
    if a == [] {
      assert a + b == b;
    } else {
      assert (a + b)[1..] == a[1..] + b;
      ColumnsConcat(a[1..], b);
    }
  }

  /** The saved index octet by octet: user u's count at 2u, and, after the entries of the
      users before, its block counts and then its IDs, each in two octets. */
  lemma {:induction false} ImageOctets(idx: seq<Index>, u: nat)
    requires AllOk(idx) && u < |idx|
    ensures var m, n, at := Image(idx), |idx[u].bc|, 2 * |idx| + 4 * Sum(Counts(idx[..u]));
      && |m| >= at + 4 * n && FromLe(m[2 * u..2 * u + 2]) == n
      && (forall i :: 0 <= i < n ==> FromLe(m[at + 2 * i..at + 2 * i + 2]) == idx[u].bc[i])
      && (forall i :: 0 <= i < n ==> FromLe(m[at + 2 * n + 2 * i..at + 2 * n + 2 * i + 2]) == idx[u].id[i])
  {
    hide Words, FromLe, Columns, Sum, Counts, ReadColumns;
    var m, n, x := Image(idx), |idx[u].bc|, idx[u];
    var before, own, after := Columns(idx[..u]), Words(x.bc) + Words(x.id), Columns(idx[u + 1..]);
    assert idx == idx[..u] + ([x] + idx[u + 1..]);
    ColumnsConcat(idx[..u], [x] + idx[u + 1..]);
    ColumnsCons(x, idx[u + 1..]);
    ColumnsRoundTrip(idx[..u]);
    var at := 2 * |idx| + |before|;
    assert m == Words(Counts(idx)) + (before + (own + after));
    assert m[0..2 * |idx|] == Words(Counts(idx));
    WordsIn(m, 0, Counts(idx));
    assert m[at..at + 2 * n] == Words(x.bc);
    WordsIn(m, at, x.bc);
    assert m[at + 2 * n..at + 2 * n + 2 * n] == Words(x.id);
    WordsIn(m, at + 2 * n, x.id);
  }
}
