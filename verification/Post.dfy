/** The body of a posted email, brought into the form SMTP wants (api/post.c). */
module Post {
  import opened Bytes

  const TAB := 9
  const LF := 10
  const CR := 13
  const SPACE := 32
  const DOT := 46
  const CRLF: seq<byte> := [13, 10]

  datatype Posted = Body(text: seq<byte>) | BadSize | BadUtf8 | BadControl | NotAscii | LineTooLong

  /** Line breaks become CRLF; control characters, non-ASCII and lines over 998
      octets are refused, as is growth by more than 950 octets. */
  function Copied(src: seq<byte>, limit: nat, out: seq<byte>, lineLength: nat): Posted
    decreases |src|
  {
    if src == [] then Body(out) else
    var ch := src[0];
    if ch == LF then
      (if |out| + 2 > limit then BadSize else Copied(src[1..], limit, out + CRLF, 0))
    else if (ch < SPACE && ch != TAB) || ch == 127 then BadControl
    else if ch > 127 then NotAscii
    else if lineLength + 1 > 998 then LineTooLong
    else if |out| + 1 > limit then BadSize
    else Copied(src[1..], limit, out + [ch], lineLength + 1)
  }

  predicate IsSpace(ch: byte)
  {
    ch == SPACE || 9 <= ch <= 13
  }

  function TrimEnd(s: seq<byte>): (r: seq<byte>)
    ensures r <= s && (r != [] ==> !IsSpace(r[|r| - 1]))
    ensures forall k :: |r| <= k < |s| ==> IsSpace(s[k])
  {
    if s == [] || !IsSpace(s[|s| - 1]) then s else TrimEnd(s[..|s| - 1])
  }

  /** The UTF-8 check is a library's; it comes before the loop. */
  function PostBody(isUtf8: seq<byte> -> bool, src: seq<byte>): Posted
  {
    if |src| < 5 || |src| > 99999 then BadSize
    else if !isUtf8(src) then BadUtf8 else
    match Copied(src, |src| + 950, [], 0)
    case Body(text) => if |TrimEnd(text)| + 2 < 15 then BadSize else Body(TrimEnd(text) + CRLF)
    case other => other
  }

  method SendEmailBody(isUtf8: seq<byte> -> bool, src: seq<byte>) returns (r: Posted)
    ensures r == PostBody(isUtf8, src)
    ensures r.Body? <==> Acceptable(isUtf8, src)
    ensures r.Body? ==> r.text == TrimEnd(Crlf(src)) + CRLF
  {
    hide Acceptable, Crlf;
    AcceptedIff(isUtf8, src);
    if Acceptable(isUtf8, src) { PostedBody(isUtf8, src); }
    var lenBody := |src|;
    if lenBody < 5 || lenBody > 99999 { return BadSize; }
    if !isUtf8(src) { return BadUtf8; }
    var body: seq<byte> := [];
    var lineLength := 0;
    for copied := 0 to lenBody
      invariant lineLength >= 0
      invariant Copied(src[copied..], lenBody + 950, body, lineLength) == Copied(src, lenBody + 950, [], 0)
    {
      ghost var rest := src[copied..];
      assert rest[0] == src[copied] && rest[1..] == src[copied + 1..];
      if src[copied] == LF {
        body := body + CRLF;
        lineLength := 0;
      } else if (src[copied] < SPACE && src[copied] != TAB) || src[copied] == 127 {
        return BadControl;
      } else if src[copied] > 127 {
        return NotAscii;
      } else {
        lineLength := lineLength + 1;
        if lineLength > 998 { return LineTooLong; }
        body := body + [src[copied]];
      }
      if |body| > lenBody + 950 { return BadSize; }
    }
    ghost var whole := body;
    while |body| > 0 && IsSpace(body[|body| - 1])
      invariant TrimEnd(body) == TrimEnd(whole)
      decreases |body|
    {
      body := body[..|body| - 1];
    }
    body := body + CRLF;
    if |body| < 15 { return BadSize; }
    r := Body(body);
  }

  /** Every LF as a CRLF. */
  function Crlf(s: seq<byte>): seq<byte>
  {
    if s == [] then [] else (if s[0] == LF then CRLF else [s[0]]) + Crlf(s[1..])
  }

  function WithoutCr(s: seq<byte>): seq<byte>
  {
    if s == [] then [] else (if s[0] == CR then [] else [s[0]]) + WithoutCr(s[1..])
  }

  /** Nothing is lost: without its carriage returns it is the text again. */
  lemma {:induction false} WithoutCrInverts(s: seq<byte>)
    requires CR !in s
    ensures WithoutCr(Crlf(s)) == s
  {
    hide WithoutCr;
    if s == [] {
      WithoutCrNothing();
    } else {
      WithoutCrInverts(s[1..]);
      var rest := Crlf(s[1..]);
      WithoutCrStep(s[0], rest);
      if s[0] == LF {
        WithoutCrStep(CR, [LF] + rest);
        assert CRLF + rest == [CR] + ([LF] + rest);
      }
    }
  }

  lemma {:induction false} WithoutCrNothing()
    ensures WithoutCr([]) == []
  {
  }

  lemma {:induction false} WithoutCrStep(c: byte, rest: seq<byte>)
    ensures WithoutCr([c] + rest) == (if c == CR then [] else [c]) + WithoutCr(rest)
  {
    assert ([c] + rest)[1..] == rest;
  }

  /** Every LF ends a CRLF. */
  ghost predicate LfAfterCr(s: seq<byte>)
  {
    forall i :: 0 <= i < |s| && s[i] == LF ==> i > 0 && s[i - 1] == CR
  }

  /** Every CR starts one. */
  ghost predicate CrBeforeLf(s: seq<byte>)
  {
    forall i :: 0 <= i < |s| && s[i] == CR ==> i + 1 < |s| && s[i + 1] == LF
  }

  lemma {:induction false} CrlfPairs(s: seq<byte>)
    requires CR !in s
    ensures LfAfterCr(Crlf(s)) && CrBeforeLf(Crlf(s))
  {
    if s != [] { CrlfPairs(s[1..]); }
  }

  lemma {:induction false} TrimmedPairs(s: seq<byte>)
    requires LfAfterCr(s) && CrBeforeLf(s)
    ensures LfAfterCr(TrimEnd(s) + CRLF) && CrBeforeLf(TrimEnd(s) + CRLF)
  {
    var r := TrimEnd(s);
    var t := r + CRLF;
    forall i | 0 <= i < |t| && t[i] == CR ensures i + 1 < |t| && t[i + 1] == LF {
      if i < |r| { assert s[i] == CR && s[i + 1] == LF && i != |r| - 1; }
    }
  }

  /** What the loop copies. */
  lemma {:induction false} CopiedIs(src: seq<byte>, limit: nat, out: seq<byte>, lineLength: nat)
    ensures var r := Copied(src, limit, out, lineLength); r.Body? ==> r.text == out + Crlf(src) && CR !in src
    decreases |src|
  {
    if src != [] {
      var ch := src[0];
      if ch == LF {
        CopiedIs(src[1..], limit, out + CRLF, 0);
        assert out + CRLF + Crlf(src[1..]) == out + Crlf(src);
      } else {
        CopiedIs(src[1..], limit, out + [ch], lineLength + 1);
        assert out + [ch] + Crlf(src[1..]) == out + Crlf(src);
      }
    }
  }

  /** An accepted body is the posted text with LF as CRLF, its trailing white
      space replaced by one CRLF; CR and LF occur in it only as pairs. */
  lemma {:induction false} PostedBody(isUtf8: seq<byte> -> bool, src: seq<byte>)
    requires PostBody(isUtf8, src).Body?
    ensures var b := PostBody(isUtf8, src).text;
            && CR !in src && b == TrimEnd(Crlf(src)) + CRLF
            && |b| >= 15 && b[|b| - 2..] == CRLF && LfAfterCr(b) && CrBeforeLf(b)
  {
    hide LfAfterCr, CrBeforeLf, TrimEnd, Crlf, Copied;
    CopiedIs(src, |src| + 950, [], 0);
    assert [] + Crlf(src) == Crlf(src);
    CrlfPairs(src);
    TrimmedPairs(Crlf(src));
  }

  // ---- Which bodies are accepted ----------------------------------------------------

  /** Tabs, line feeds and printable ASCII. */
  predicate Sendable(ch: byte)
  {
    ch == 9 || ch == 10 || 32 <= ch <= 126
  }

  ghost predicate AllSendable(s: seq<byte>)
  {
    forall i :: 0 <= i < |s| ==> Sendable(s[i])
  }

  /** No line is over 998 octets, the first one counted as if n octets went before it. */
  ghost predicate LinesFit(s: seq<byte>, n: nat)
  {
    forall i, j :: 0 <= i <= j <= |s| && LF !in s[i..j] ==> j - i + (if i == 0 then n else 0) <= 998
  }

  lemma {:induction false} TailSlice(s: seq<byte>, i: nat, j: nat)
    requires s != [] && i <= j < |s|
    ensures s[1..][i..j] == s[i + 1..j + 1]
  {
    var a, b := s[1..][i..j], s[i + 1..j + 1];
    forall k | 0 <= k < j - i ensures a[k] == b[k] { assert a[k] == s[1..][i + k] == s[i + 1 + k] == b[k]; }
  }

  lemma {:induction false} HeadSlice(s: seq<byte>, j: nat)
    requires s != [] && j < |s|
    ensures s[0..j + 1] == [s[0]] + s[1..][0..j]
  {
    TailSlice(s, 0, j);
    assert s[0..j + 1] == [s[0]] + s[1..j + 1];
  }

  lemma {:induction false} LinesFitBreak(s: seq<byte>, n: nat)
    requires s != [] && s[0] == LF && n <= 998
    ensures LinesFit(s, n) <==> LinesFit(s[1..], 0)
  {
    var t := s[1..];
    forall i, j | 0 <= i <= j <= |t| ensures t[i..j] == s[i + 1..j + 1] { TailSlice(s, i, j); }
    assert forall j :: 0 < j <= |s| ==> s[0..j][0] == LF;
    if LinesFit(t, 0) {
      forall i, j | 0 <= i <= j <= |s| && LF !in s[i..j] ensures j - i + (if i == 0 then n else 0) <= 998 {
        if i > 0 { assert s[i..j] == t[i - 1..j - 1]; }
      }
    }
  }

  lemma {:induction false} LinesFitOn(s: seq<byte>, n: nat)
    requires s != [] && s[0] != LF
    ensures LinesFit(s, n) <==> LinesFit(s[1..], n + 1)
  {
    var t := s[1..];
    if LinesFit(t, n + 1) {
      assert t[0..0] == [];
      forall i, j | 0 <= i <= j <= |s| && LF !in s[i..j] ensures j - i + (if i == 0 then n else 0) <= 998 {
        if i > 0 { TailSlice(s, i - 1, j - 1); } else if j > 0 { HeadSlice(s, j - 1); }
      }
    }
    if LinesFit(s, n) {
      forall i, j | 0 <= i <= j <= |t| && LF !in t[i..j] ensures j - i + (if i == 0 then n + 1 else 0) <= 998 {
        if i == 0 { HeadSlice(s, j); } else { TailSlice(s, i, j); }
      }
    }
  }

  lemma {:induction false} CrlfLength(s: seq<byte>)
    ensures |Crlf(s)| == |s| + multiset(s)[LF]
  {
    if s != [] {
      CrlfLength(s[1..]);
      assert multiset(s)[LF] == multiset([s[0]])[LF] + multiset(s[1..])[LF] by { assert s == [s[0]] + s[1..]; }
    }
  }

  lemma {:induction false} CopiedWhole(src: seq<byte>, limit: nat, out: seq<byte>, n: nat)
    requires |out| <= limit && n <= 998
    ensures Copied(src, limit, out, n).Body? <==> AllSendable(src) && LinesFit(src, n) && |out| + |Crlf(src)| <= limit
    decreases |src|
  {
    hide LinesFit;
    if src == [] {
      assert LinesFit(src, n) by { NoLines(n); }
    } else {
      var ch, rest := src[0], src[1..];
      AllSendableCons(src);
      if ch == LF {
        LinesFitBreak(src, n);
        if |out| + 2 <= limit { CopiedWhole(rest, limit, out + CRLF, 0); }
      } else {
        LinesFitOn(src, n);
        if n == 998 { TooLong(rest, n + 1); }
        if n < 998 && |out| + 1 <= limit { CopiedWhole(rest, limit, out + [ch], n + 1); }
      }
    }
  }

  lemma NoLines(n: nat)
    requires n <= 998
    ensures LinesFit([], n)
  {
  }

  lemma {:induction false} TooLong(s: seq<byte>, n: nat)
    requires n > 998
    ensures !LinesFit(s, n)
  {
    assert LF !in s[0..0];
  }

  lemma {:induction false} AllSendableCons(s: seq<byte>)
    requires s != []
    ensures AllSendable(s) <==> Sendable(s[0]) && AllSendable(s[1..])
  {
    assert forall i :: 1 <= i < |s| ==> s[i] == s[1..][i - 1];
    assert forall i :: 0 <= i < |s| - 1 ==> s[1..][i] == s[i + 1];
  }

  /** A posted body is accepted if it is 5 to 99999 octets of UTF-8 that are tabs, line
      feeds and printable ASCII, has no line over 998 octets and at most 950 line feeds,
      and something other than white space after its first twelve octets, line breaks
      counted as two. */
  ghost predicate Acceptable(isUtf8: seq<byte> -> bool, src: seq<byte>)
  {
    && 5 <= |src| <= 99999 && isUtf8(src) && AllSendable(src)
    && LinesFit(src, 0) && multiset(src)[10] <= 950
    && NotBlank(Crlf(src), 12)
  }

  /** Something other than white space from position n on. */
  ghost predicate NotBlank(s: seq<byte>, n: nat)
  {
    exists i :: n <= i < |s| && s[i] != 32 && !(9 <= s[i] <= 13)
  }

  lemma {:induction false} TrimmedLength(s: seq<byte>, n: nat)
    ensures |TrimEnd(s)| > n <==> NotBlank(s, n)
  {
    var r := TrimEnd(s);
    if |r| > n { assert s[|r| - 1] == r[|r| - 1] && !IsSpace(s[|r| - 1]); }
  }

  /** Exactly these are accepted. */
  lemma {:induction false} AcceptedIff(isUtf8: seq<byte> -> bool, src: seq<byte>)
    ensures PostBody(isUtf8, src).Body? <==> Acceptable(isUtf8, src)
  {
    hide LinesFit, TrimEnd, Crlf, Copied, AllSendable, NotBlank;
    var limit := |src| + 950;
    CopiedWhole(src, limit, [], 0);
    CopiedIs(src, limit, [], 0);
    assert [] + Crlf(src) == Crlf(src);
    CrlfLength(src);
    TrimmedLength(Crlf(src), 12);
  }

  /** The reason a refusal gives is there in the text. */
  ghost predicate ReasonFor(src: seq<byte>, n: nat, r: Posted)
  {
    match r
    case Body(_) => true
    case BadControl => exists i :: 0 <= i < |src| && (src[i] < 9 || 10 < src[i] < 32 || src[i] == 127)
    case NotAscii => exists i :: 0 <= i < |src| && src[i] > 127
    case LineTooLong => !LinesFit(src, n)
    case BadSize => multiset(src)[10] > 950
    case BadUtf8 => false
  }

  lemma {:induction false} CopiedReason(src: seq<byte>, limit: nat, out: seq<byte>, n: nat)
    requires n <= 998
    ensures var r := Copied(src, limit, out, n);
      && (r.BadControl? || r.NotAscii? || r.LineTooLong? ==> ReasonFor(src, n, r))
      && !r.BadUtf8? && (r.BadSize? ==> |out| + |Crlf(src)| > limit)
    decreases |src|
  {
    hide LinesFit;
    if src != [] {
      var ch, rest := src[0], src[1..];
      if ch == LF {
        LinesFitBreak(src, n);
        if |out| + 2 <= limit { CopiedReason(rest, limit, out + CRLF, 0); }
      } else {
        LinesFitOn(src, n);
        if n == 998 { TooLong(rest, n + 1); }
        if Sendable(ch) && n < 998 && |out| + 1 <= limit { CopiedReason(rest, limit, out + [ch], n + 1); }
      }
      assert forall i :: 0 <= i < |rest| ==> rest[i] == src[i + 1];
    }
  }

  lemma {:induction false} RefusedBecause(isUtf8: seq<byte> -> bool, src: seq<byte>)
    ensures var r := PostBody(isUtf8, src); var sized := 5 <= |src| <= 99999;
      && (r.BadUtf8? <==> sized && !isUtf8(src))
      && (r.BadControl? || r.NotAscii? || r.LineTooLong? ==> ReasonFor(src, 0, r))
      && (r.BadSize? ==> !sized || ReasonFor(src, 0, r) || !NotBlank(Crlf(src), 12))
  {
    hide LinesFit, TrimEnd, Crlf, Copied, NotBlank;
    CopiedReason(src, |src| + 950, [], 0);
    CopiedIs(src, |src| + 950, [], 0);
    assert [] + Crlf(src) == Crlf(src);
    CrlfLength(src);
    TrimmedLength(Crlf(src), 12);
  }
}
