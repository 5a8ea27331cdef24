/** The in-place text cleaner of Common/Trim.c. */
module Trim {
  import opened Bytes

  const LF := 10
  const SP := 32

  // ---- Characters -----------------------------------------------------------------

  predicate IsCc(b: byte)
  {
    (b < 32 && b != LF) || b == 127
  }

  predicate Blank(b: byte)
  {
    b == SP || b == LF
  }

  function CharInvisible(c: seq<byte>): (x: nat)
    ensures x <= |c| && (x == 0 || x == 2 || x == 3)
  {
    if |c| > 1 && ((c[0] == 0xCD && c[1] == 0x8F) || (c[0] == 0xC2 && c[1] == 0xAD)) then 2
    else if |c| > 2 && ((c[0] == 0xE2 && c[1] == 0x80 && 0x8B <= c[2] <= 0x8D) ||
                        (c[0] == 0xE2 && c[1] == 0x81 && c[2] == 0xA0) ||
                        (c[0] == 0xEF && c[1] == 0xBB && c[2] == 0xBF)) then 3
    else 0
  }

  function CharSpace(c: seq<byte>): (x: nat)
    ensures x <= |c| && x <= 3
  {
    if |c| > 0 && c[0] == SP then 1
    else if |c| > 1 && c[0] == 0xC2 && c[1] == 0xA0 then 2
    else if |c| > 2 && ((c[0] == 0xE1 && c[1] == 0x9A && c[2] == 0x80) ||
                        (c[0] == 0xE2 && c[1] == 0x80 && 0x80 <= c[2] <= 0x8A) ||
                        (c[0] == 0xE2 && c[1] == 0x80 && c[2] >= 0xAF) ||
                        (c[0] == 0xE2 && c[1] == 0x81 && c[2] >= 0x9F) ||
                        (c[0] == 0xE3 && c[1] == 0x80 && c[2] >= 0x80)) then 3
    else 0
  }

  function CharNewline(c: seq<byte>): (x: nat)
    ensures x <= |c| && x <= 3
  {
    if |c| > 0 && c[0] == LF then 1
    else if |c| > 1 && c[0] == 0xC2 && c[1] == 0x85 then 2
    else if |c| > 2 && c[0] == 0xE2 && c[1] == 0x80 && (c[2] == 0xA8 || c[2] == 0xA9) then 3
    else 0
  }

  /** The text without the control characters it starts with. */
  function Next(c: seq<byte>): (r: seq<byte>)
    ensures |r| <= |c| && (r != [] ==> !IsCc(r[0]))
  {
    if c != [] && IsCc(c[0]) then Next(c[1..]) else c
  }

  /** The position of the last character up to `start` that is no control
      character; 0 if there is none. */
  function Prev(c: seq<byte>, start: int): (k: nat)
    requires start < |c|
    ensures k == 0 || (k <= start && !IsCc(c[k]))
    decreases if start < 0 then 0 else start
  {
    if start < 1 then 0 else if IsCc(c[start]) then Prev(c, start - 1) else start
  }

  predicate BlankNext(c: seq<byte>)
  {
    CharSpace(Next(c)) > 0 || CharNewline(Next(c)) > 0
  }

  method PrevCharAt(src: array<byte>, start: int) returns (k: nat)
    requires start < src.Length
    ensures k == Prev(src[..], start)
  {
    if start < 1 { return 0; }
    k := start;
    while k > 0 && IsCc(src[k])
      invariant k <= start && Prev(src[..], k) == Prev(src[..], start)
    {
      k := k - 1;
    }
  }

  method NextCharAt(src: array<byte>, start: nat, len: nat) returns (k: nat)
    requires start <= len <= src.Length
    ensures start <= k <= len && src[k..len] == Next(src[start..len])
  {
    k := start;
    while k < len && IsCc(src[k])
      invariant start <= k <= len && Next(src[k..len]) == Next(src[start..len])
    {
      assert src[k..len][1..] == src[k + 1..len];
      k := k + 1;
    }
  }

  // ---- Cleaning, out of place ----------------------------------------------------------

  /** After one round: how much was read, the text so far, and how many of the
      following octets pass unchecked. */
  datatype Round = Round(used: nat, out: seq<byte>, noCheck: nat)

  /** A space: dropped at the start, after a blank and before a newline. */
  function SpaceRound(rest: seq<byte>, out: seq<byte>, x: nat, noCheck: nat): (r: Round)
    requires 0 < x <= |rest|
    ensures r.used == x && r.noCheck == noCheck
  {
    if out == [] || Blank(out[Prev(out, |out| - 1)]) || CharNewline(Next(rest[x..])) > 0 then Round(x, out, noCheck)
    else Round(x, out + [SP], noCheck)
  }

  /** A newline: dropped among the first two octets and after two others. */
  function NewlineRound(out: seq<byte>, x: nat, noCheck: nat): (r: Round)
    ensures r.used == x && r.noCheck == noCheck
  {
    if |out| < 2 then Round(x, out, noCheck) else
    var o1 := Prev(out, |out| - 1);
    var o2 := Prev(out, o1 as int - 1);
    if out[o1] == LF && out[o2] == LF then Round(x, out, noCheck) else Round(x, out + [LF], noCheck)
  }

  function VisibleRound(rest: seq<byte>, out: seq<byte>, noCheck: nat): (r: Round)
    requires rest != []
    ensures 0 < r.used <= |rest| && r.noCheck == noCheck
  {
    if CharSpace(rest) > 0 then SpaceRound(rest, out, CharSpace(rest), noCheck)
    else if CharNewline(rest) > 0 then NewlineRound(out, CharNewline(rest), noCheck)
    else Round(1, out + [rest[0]], noCheck)
  }

  /** How much an invisible character of x octets takes away: itself before a blank,
      another one too that follows it; otherwise it stays. */
  function Skipped(rest: seq<byte>, x: nat): (skip: nat)
    requires x <= |rest|
    ensures skip <= |rest|
  {
    if BlankNext(rest[x..]) then x
    else if CharInvisible(rest[x..]) > 0 then x + CharInvisible(rest[x..])
    else 0
  }

  function CleanRound(rest: seq<byte>, out: seq<byte>, noCheck: nat): (r: Round)
    requires rest != []
    ensures 0 < r.used <= |rest|
  {
    if noCheck > 0 then Round(1, out + [rest[0]], noCheck - 1) else
    var x := CharInvisible(rest);
    if x == 0 then VisibleRound(rest, out, 0)
    else if Skipped(rest, x) > 0 then Round(Skipped(rest, x), out, 0)
    else VisibleRound(rest, out, x - 1)
  }

  function Cleaned(rest: seq<byte>, out: seq<byte>, noCheck: nat): seq<byte>
    decreases |rest|
  {
    if rest == [] then out else
    var r := CleanRound(rest, out, noCheck);
    Cleaned(rest[r.used..], r.out, r.noCheck)
  }

  function TrimTail(s: seq<byte>): (r: seq<byte>)
    ensures r <= s && (r != [] ==> !Blank(r[|r| - 1]))
  {
    if s == [] || !Blank(s[|s| - 1]) then s else TrimTail(s[..|s| - 1])
  }

  function Clean(s: seq<byte>): seq<byte>
  {
    TrimTail(Cleaned(s, [], 0))
  }

  // ---- Cleaning, in place ------------------------------------------------------------------

  /** What one round in the buffer leaves: the text so far in front, the unread part in place. */
  ghost predicate RoundDone(rest: seq<byte>, out: seq<byte>, noCheck: nat, rest': seq<byte>, out': seq<byte>, noCheck': nat)
  {
    && rest != []
    && var r := CleanRound(rest, out, noCheck);
       rest' == rest[r.used..] && out' == r.out && noCheck' == r.noCheck
  }

  method CleanSpace(c: array<byte>, len: nat, i: nat, newLen: nat, x: nat, noCheck: nat) returns (keep: bool)
    requires newLen <= i && 0 < x && i + x <= len <= c.Length
    ensures SpaceRound(c[i..len], c[..newLen], x, noCheck).out == if keep then c[..newLen] + [SP] else c[..newLen]
  {
    var o1 := NextCharAt(c, i + x, len);
    assert c[i..len][x..] == c[i + x..len];
    if newLen < 1 { return false; }
    var o2 := PrevCharAt(c, newLen - 1);
    PrevPrefix(c[..], newLen, newLen - 1);
    keep := !(c[o2] == SP || c[o2] == LF || CharNewline(c[o1..len]) > 0);
  }

  method CleanNewline(c: array<byte>, newLen: nat, x: nat, noCheck: nat) returns (keep: bool)
    requires newLen < c.Length
    ensures NewlineRound(c[..newLen], x, noCheck).out == if keep then c[..newLen] + [LF] else c[..newLen]
  {
    if newLen < 2 { return false; }
    var o1 := PrevCharAt(c, newLen - 1);
    var before := o1 as int - 1;
    var o2 := PrevCharAt(c, before);
    PrevPrefix(c[..], newLen, newLen - 1);
    PrevPrefix(c[..], newLen, before);
    keep := !(c[o1] == LF && c[o2] == LF);
  }

  lemma {:induction false} PrevPrefix(c: seq<byte>, n: nat, start: int)
    requires start < n <= |c|
    ensures Prev(c[..n], start) == Prev(c, start)
    decreases if start < 0 then 0 else start
  {
    if start >= 1 { PrevPrefix(c, n, start - 1); }
  }

  /** The checked part of a round, with i' the position of the last octet read. */
  method CleanVisible(c: array<byte>, len: nat, i: nat, newLen: nat, noCheck: nat) returns (i': nat, newLen': nat)
    requires newLen <= i < len <= c.Length
    modifies c
    ensures newLen' <= i' <= len && i' == i + VisibleRound(old(c[i..len]), old(c[..newLen]), noCheck).used
    ensures c[..newLen'] == VisibleRound(old(c[i..len]), old(c[..newLen]), noCheck).out
    ensures c[i'..len] == old(c[i..len])[i' - i..]
  {
    hide CharSpace, CharNewline, SpaceRound, NewlineRound;
    i', newLen' := i + 1, newLen;
    ghost var out := c[..newLen];
    var x := CharSpace(c[i..len]);
    if x > 0 {
      i' := i + x;
      var keep := CleanSpace(c, len, i, newLen, x, noCheck);
      if !keep { return; }
      c[newLen] := SP;
    } else {
      x := CharNewline(c[i..len]);
      if x > 0 {
        i' := i + x;
        var keep := CleanNewline(c, newLen, x, noCheck);
        if !keep { return; }
        c[newLen] := LF;
      } else {
        c[newLen] := c[i];
      }
    }
    newLen' := newLen + 1;
    assert c[..newLen'] == out + [c[newLen]];
  }

  /** An invisible character at position i: how far to skip, or let it through. */
  method CleanInvisible(c: array<byte>, len: nat, i: nat, x: nat) returns (skip: nat)
    requires i + x <= len <= c.Length
    ensures skip == Skipped(c[i..len], x)
  {
    hide CharSpace, CharNewline, CharInvisible;
    assert c[i..len][x..] == c[i + x..len];
    var o1 := NextCharAt(c, i + x, len);
    if CharSpace(c[o1..len]) > 0 || CharNewline(c[o1..len]) > 0 { return x; }
    var y := CharInvisible(c[i + x..len]);
    skip := if y > 0 then x + y else 0;
  }

  method PassThrough(c: array<byte>, len: nat, i: nat, newLen: nat)
    requires newLen <= i < len <= c.Length
    modifies c
    ensures c[..newLen + 1] == old(c[..newLen]) + [old(c[i..len])[0]]
    ensures c[i + 1..len] == old(c[i..len])[1..]
  {
    c[newLen] := c[i];
  }

  method CleanOne(c: array<byte>, len: nat, i: nat, newLen: nat, noCheck: nat) returns (i': nat, newLen': nat, noCheck': nat)
    requires newLen <= i < len <= c.Length
    modifies c
    ensures newLen' <= i' <= len && i < i'
    ensures RoundDone(old(c[i..len]), old(c[..newLen]), noCheck, c[i'..len], c[..newLen'], noCheck')
  {
    hide CharInvisible, VisibleRound, Skipped;
    ghost var rest := c[i..len];
    if noCheck == 0 {
      var x := CharInvisible(c[i..len]);
      var skip := 0;
      if x > 0 { skip := CleanInvisible(c, len, i, x); }
      if skip > 0 {
        assert rest[skip..] == c[i + skip..len];
        return i + skip, newLen, 0;
      }
      noCheck' := if x > 0 then x - 1 else 0;
      i', newLen' := CleanVisible(c, len, i, newLen, noCheck');
    } else {
      PassThrough(c, len, i, newLen);
      i', newLen', noCheck' := i + 1, newLen + 1, noCheck - 1;
    }
  }

  method CleanText(c: array<byte>, len: nat) returns (newLen: nat)
    requires len <= c.Length
    modifies c
    ensures newLen <= len && c[..newLen] == Clean(old(c[..len]))
  {
    hide CleanRound, Blank;
    newLen := 0;
    var noCheck, i: nat := 0, 0;
    ghost var s := c[..len];
    assert c[0..len] == s && c[..0] == [];
    while i < len
      invariant newLen <= i <= len
      invariant Cleaned(c[i..len], c[..newLen], noCheck) == Cleaned(s, [], 0)
    {
      i, newLen, noCheck := CleanOne(c, len, i, newLen, noCheck);
    }
    assert c[i..len] == [];
    newLen := TrimEnd(c, newLen);
  }

  /** The last loop: blanks at the end do not count. */
  method TrimEnd(c: array<byte>, len: nat) returns (newLen: nat)
    requires len <= c.Length
    ensures newLen <= len && c[..newLen] == TrimTail(c[..len])
  {
    hide Blank;
    newLen := len;
    while newLen > 0 && Blank(c[newLen - 1])
      invariant newLen <= len && TrimTail(c[..newLen]) == TrimTail(c[..len])
    {
      assert c[..newLen][..newLen - 1] == c[..newLen - 1];
      newLen := newLen - 1;
    }
  }

  // ---- What cleaning guarantees ---------------------------------------------------------------

  /** Nothing but control characters strictly between positions j and k. */
  ghost predicate OnlyCc(s: seq<byte>, j: nat, k: nat)
    requires k <= |s|
  {
    forall m :: j < m < k ==> IsCc(s[m])
  }

  /** No blank at the start; no space after a space or a newline, no third newline
      in a row, counting over control characters. */
  ghost predicate Tidy(s: seq<byte>)
  {
    && (s != [] ==> !Blank(s[0]))
    && (forall j, k :: 0 <= j < k < |s| && OnlyCc(s, j, k) && s[k] == SP ==> !Blank(s[j]))
    && (forall i, j, k :: 0 <= i < j < k < |s| && OnlyCc(s, i, j) && OnlyCc(s, j, k) ==> !(s[i] == LF && s[j] == LF && s[k] == LF))
  }

  lemma {:induction false} PrevIs(s: seq<byte>, j: nat, start: int)
    requires j <= start < |s| && OnlyCc(s, j, start + 1) && !IsCc(s[j])
    ensures Prev(s, start) == j
    decreases start
  {
    if start > j { PrevIs(s, j, start - 1); }
  }

  lemma {:induction false} OnlyCcAppend(s: seq<byte>, b: byte, j: nat, k: nat)
    requires j < k <= |s| && OnlyCc(s + [b], j, k)
    ensures OnlyCc(s, j, k)
  {
    forall m | j < m < k ensures IsCc(s[m]) { assert (s + [b])[m] == s[m]; }
  }

  lemma {:induction false} TidyAppend(s: seq<byte>, b: byte)
    requires Tidy(s) && (s == [] ==> !Blank(b))
    requires b == SP ==> forall j :: 0 <= j < |s| && OnlyCc(s, j, |s|) ==> !Blank(s[j])
    requires b == LF ==> forall i, j :: 0 <= i < j < |s| && OnlyCc(s, i, j) && OnlyCc(s, j, |s|) ==> !(s[i] == LF && s[j] == LF)
    ensures Tidy(s + [b])
  {
    var t := s + [b];
    forall j, k | 0 <= j < k < |t| && OnlyCc(t, j, k) && t[k] == SP ensures !Blank(t[j]) {
      OnlyCcAppend(s, b, j, k);
    }
    forall i, j, k | 0 <= i < j < k < |t| && OnlyCc(t, i, j) && OnlyCc(t, j, k)
      ensures !(t[i] == LF && t[j] == LF && t[k] == LF)
    {
      OnlyCcAppend(s, b, i, j);
      OnlyCcAppend(s, b, j, k);
    }
  }

  lemma {:induction false} TidyAppendSpace(s: seq<byte>)
    requires Tidy(s) && s != [] && !Blank(s[Prev(s, |s| - 1)])
    ensures Tidy(s + [SP])
  {
    hide Tidy;
    forall j | 0 <= j < |s| && OnlyCc(s, j, |s|) ensures !Blank(s[j]) {
      if !IsCc(s[j]) { PrevIs(s, j, |s| - 1); }
    }
    TidyAppend(s, SP);
  }

  lemma {:induction false} TidyAppendNewline(s: seq<byte>)
    requires Tidy(s) && s != []
    requires var o1 := Prev(s, |s| - 1); !(s[o1] == LF && s[Prev(s, o1 as int - 1)] == LF)
    ensures Tidy(s + [LF])
  {
    hide Tidy;
    forall i, j | 0 <= i < j < |s| && OnlyCc(s, i, j) && OnlyCc(s, j, |s|) ensures !(s[i] == LF && s[j] == LF) {
      if s[i] == LF && s[j] == LF {
        PrevIs(s, j, |s| - 1);
        PrevIs(s, i, j - 1);
      }
    }
    TidyAppend(s, LF);
  }

  /** Octets let through unchecked come before a visible character or right after one. */
  ghost predicate Through(rest: seq<byte>, out: seq<byte>, noCheck: nat)
  {
    || noCheck == 0
    || (noCheck <= 2 && !BlankNext(rest))
    || (noCheck == 1 && out != [] && !Blank(out[|out| - 1]) && !IsCc(out[|out| - 1]))
  }

  lemma {:induction false} TidyThrough(rest: seq<byte>, out: seq<byte>, noCheck: nat)
    requires Tidy(out) && Through(rest, out, noCheck) && noCheck > 0 && rest != []
    ensures Tidy(out + [rest[0]]) && Through(rest[1..], out + [rest[0]], noCheck - 1)
  {
    hide Tidy;
    var b := rest[0];
    if !BlankNext(rest) {
      assert !Blank(b) by { if !IsCc(b) { assert Next(rest) == rest; } }
      TidyAppend(out, b);
    } else {
      LastVisible(out);
      if b == SP { TidyAppendSpace(out); }
      else if b == LF { TidyAppendNewline(out); }
      else { TidyAppend(out, b); }
    }
  }

  lemma {:induction false} LastVisible(out: seq<byte>)
    requires out != [] && !Blank(out[|out| - 1]) && !IsCc(out[|out| - 1])
    ensures out[Prev(out, |out| - 1)] == out[|out| - 1]
  {
    PrevIs(out, |out| - 1, |out| - 1);
  }

  lemma {:induction false} TidyVisible(rest: seq<byte>, out: seq<byte>, noCheck: nat)
    requires Tidy(out) && rest != []
    ensures Tidy(VisibleRound(rest, out, noCheck).out)
  {
    hide Tidy, CharNewline, Prev;
    if CharSpace(rest) > 0 {
      if SpaceRound(rest, out, CharSpace(rest), noCheck).out != out { TidyAppendSpace(out); }
    } else if CharNewline(rest) > 0 {
      if NewlineRound(out, CharNewline(rest), noCheck).out != out { TidyAppendNewline(out); }
    } else {
      NotBlank(rest);
      TidyAppend(out, rest[0]);
    }
  }

  lemma NotBlank(rest: seq<byte>)
    requires rest != [] && CharSpace(rest) == 0 && CharNewline(rest) == 0
    ensures !Blank(rest[0])
  {
  }

  /** Of the invisible characters only the word joiner is also a space; the octets
      the others leave for the next rounds start no blank. */
  lemma {:induction false} ThroughInvisible(rest: seq<byte>, out: seq<byte>)
    requires CharInvisible(rest) > 0 && Skipped(rest, CharInvisible(rest)) == 0
    ensures var r := VisibleRound(rest, out, CharInvisible(rest) - 1);
            Through(rest[r.used..], r.out, r.noCheck)
  {
    hide Prev, SpaceRound;
    var x := CharInvisible(rest);
    if CharSpace(rest) > 0 {
      assert CharSpace(rest) == 3 == x;
    } else {
      assert CharNewline(rest) == 0;
      assert rest[1..][0] >= 128;
    }
  }

  lemma {:induction false} CleanedTidy(rest: seq<byte>, out: seq<byte>, noCheck: nat)
    requires Tidy(out) && Through(rest, out, noCheck)
    ensures Tidy(Cleaned(rest, out, noCheck))
    decreases |rest|
  {
    hide Tidy, VisibleRound, CharInvisible, Skipped;
    if rest != [] {
      var r := CleanRound(rest, out, noCheck);
      if noCheck > 0 {
        TidyThrough(rest, out, noCheck);
      } else if CharInvisible(rest) == 0 {
        TidyVisible(rest, out, 0);
      } else if Skipped(rest, CharInvisible(rest)) == 0 {
        TidyVisible(rest, out, CharInvisible(rest) - 1);
        ThroughInvisible(rest, out);
      }
      CleanedTidy(rest[r.used..], r.out, r.noCheck);
    }
  }

  lemma {:induction false} OnlyCcLonger(t: seq<byte>, s: seq<byte>, j: nat, k: nat)
    requires t <= s && j < k <= |t| && OnlyCc(t, j, k)
    ensures OnlyCc(s, j, k)
  {
    forall m | j < m < k ensures IsCc(s[m]) { assert s[m] == t[m]; }
  }

  lemma {:induction false} TidyPrefix(s: seq<byte>, t: seq<byte>)
    requires Tidy(s) && t <= s
    ensures Tidy(t)
  {
    hide OnlyCc;
    assert forall m :: 0 <= m < |t| ==> t[m] == s[m];
    forall j, k | 0 <= j < k < |t| && OnlyCc(t, j, k) && t[k] == SP ensures !Blank(t[j]) {
      OnlyCcLonger(t, s, j, k);
    }
    forall i, j, k | 0 <= i < j < k < |t| && OnlyCc(t, i, j) && OnlyCc(t, j, k)
      ensures !(t[i] == LF && t[j] == LF && t[k] == LF)
    {
      OnlyCcLonger(t, s, i, j);
      OnlyCcLonger(t, s, j, k);
    }
  }

  /** Every cleaned text is tidy and ends with no blank. */
  lemma {:induction false} CleanIsTidy(s: seq<byte>)
    ensures Tidy(Clean(s)) && (Clean(s) != [] ==> !Blank(Clean(s)[|Clean(s)| - 1]))
  {
    CleanedTidy(s, [], 0);
    TidyPrefix(Cleaned(s, [], 0), Clean(s));
  }

  // ---- What cleaning keeps ------------------------------------------------------------------------

  /** ASCII without control characters. */
  ghost predicate Plain(s: seq<byte>)
  {
    forall k :: 0 <= k < |s| ==> s[k] < 127 && !IsCc(s[k])
  }

  predicate EndsSolid(s: seq<byte>)
  {
    s != [] && !Blank(s[|s| - 1])
  }

  function Longer(ws: seq<seq<byte>>, b: byte): seq<seq<byte>>
    requires ws != []
  {
    ws[..|ws| - 1] + [ws[|ws| - 1] + [b]]
  }

  /** The words of a text: its runs of octets other than spaces and newlines. */
  function Words(s: seq<byte>): (ws: seq<seq<byte>>)
    ensures EndsSolid(s) ==> ws != []
  {
    if s == [] then [] else
    var front, b := s[..|s| - 1], s[|s| - 1];
    if Blank(b) then Words(front)
    else if EndsSolid(front) then Longer(Words(front), b)
    else Words(front) + [[b]]
  }

  lemma {:induction false} WordsAppend(s: seq<byte>, b: byte)
    ensures Words(s + [b]) == if Blank(b) then Words(s) else if EndsSolid(s) then Longer(Words(s), b) else Words(s) + [[b]]
  {
    assert (s + [b])[..|s|] == s;
  }

  lemma {:induction false} NoWords(s: seq<byte>)
    requires s != [] && !Blank(s[0])
    ensures Words(s) != []
  {
    if |s| > 1 { NoWords(s[..|s| - 1]); }
  }

  lemma {:induction false} WordsTrimmed(s: seq<byte>)
    ensures Words(TrimTail(s)) == Words(s)
  {
    if s != [] && Blank(s[|s| - 1]) { WordsTrimmed(s[..|s| - 1]); }
  }

  /** Only one character is left of the first i octets: blanks, the character, then
      newlines and spaces right before newlines. */
  predicate OneLeft(s: seq<byte>, i: nat)
    requires i <= |s|
  {
    i > 0 &&
    if Blank(s[i - 1]) then OneLeft(s, i - 1) && (s[i - 1] == LF || (i < |s| && s[i] == LF))
    else Words(s[..i - 1]) == []
  }

  /** A second word starts within the first i octets, and only one character is left
      of all that precedes it. */
  predicate Merged(s: seq<byte>, i: nat)
    requires i <= |s|
  {
    i > 1 && (Merged(s, i - 1) || (!Blank(s[i - 1]) && Blank(s[i - 2]) && OneLeft(s, i - 1)))
  }

  /** The words with the first two made one. */
  function Merge(ws: seq<seq<byte>>, merged: bool): seq<seq<byte>>
    requires merged ==> |ws| >= 2
  {
    if merged then [ws[0] + ws[1]] + ws[2..] else ws
  }

  lemma {:induction false} OneLeftWords(s: seq<byte>, i: nat)
    requires i <= |s| && OneLeft(s, i)
    ensures |Words(s[..i])| == 1
  {
    assert s[..i] == s[..i - 1] + [s[i - 1]];
    WordsAppend(s[..i - 1], s[i - 1]);
    if Blank(s[i - 1]) { OneLeftWords(s, i - 1); }
  }

  lemma {:induction false} MergedWords(s: seq<byte>, i: nat)
    requires i <= |s|
    ensures Merged(s, i) ==> |Words(s[..i])| >= 2
  {
    if i > 1 {
      assert s[..i] == s[..i - 1] + [s[i - 1]];
      WordsAppend(s[..i - 1], s[i - 1]);
      MergedWords(s, i - 1);
      if OneLeft(s, i - 1) { OneLeftWords(s, i - 1); }
    }
  }

  lemma {:induction false} MergeLonger(ws: seq<seq<byte>>, merged: bool, b: byte)
    requires ws != [] && (merged ==> |ws| >= 2)
    ensures Merge(ws, merged) != [] && Merge(Longer(ws, b), merged) == Longer(Merge(ws, merged), b)
  {
    if merged && |ws| == 2 { assert ws[0] + (ws[1] + [b]) == (ws[0] + ws[1]) + [b]; }
  }

  /** How the text so far stands to the first i octets of s. */
  ghost predicate Standing(s: seq<byte>, i: nat, out: seq<byte>)
    requires i <= |s|
  {
    && Plain(out) && (out != [] ==> !Blank(out[0]))
    && (Merged(s, i) ==> |Words(s[..i])| >= 2) && Words(out) == Merge(Words(s[..i]), Merged(s, i))
    && (|out| == 1 <==> OneLeft(s, i))
    && (if i == 0 then out == []
        else if !Blank(s[i - 1]) then EndsSolid(out)
        else
          || !EndsSolid(out)
          || (s[i - 1] == SP && i < |s| && s[i] == LF)
          || (s[i - 1] == LF && |out| == 1))
  }

  lemma PlainPrev(out: seq<byte>, k: nat)
    requires Plain(out) && k < |out|
    ensures Prev(out, k) == k
  {
  }

  /** A round on plain text, without the look behind and ahead past control characters. */
  lemma {:induction false} PlainRound(s: seq<byte>, i: nat, out: seq<byte>)
    requires Plain(s) && i < |s| && Plain(out)
    ensures var b := s[i];
      CleanRound(s[i..], out, 0) == Round(1,
        if b == SP then
          if !EndsSolid(out) || (i + 1 < |s| && s[i + 1] == LF) then out else out + [SP]
        else if b == LF then
          if |out| < 2 || (out[|out| - 1] == LF && out[|out| - 2] == LF) then out else out + [LF]
        else out + [b], 0)
  {
    var rest := s[i..];
    assert rest[0] == s[i] && CharInvisible(rest) == 0;
    if s[i] == SP {
      assert rest[1..] == s[i + 1..];
      assert Next(rest[1..]) == rest[1..];
      if out != [] { PlainPrev(out, |out| - 1); }
    } else if s[i] == LF && |out| >= 2 {
      PlainPrev(out, |out| - 1);
      PlainPrev(out, |out| - 2);
    }
  }

  lemma {:induction false} StandingBlank(s: seq<byte>, i: nat, out: seq<byte>)
    requires Plain(s) && i < |s| && Standing(s, i, out) && Blank(s[i])
    ensures Standing(s, i + 1, CleanRound(s[i..], out, 0).out)
  {
    hide Words, CleanRound, Merge;
    PlainRound(s, i, out);
    assert s[..i + 1] == s[..i] + [s[i]];
    WordsAppend(s[..i], s[i]);
    WordsAppend(out, s[i]);
  }

  lemma {:induction false} EmptyOut(s: seq<byte>, i: nat, out: seq<byte>)
    requires i <= |s| && Standing(s, i, out)
    ensures out == [] <==> Words(s[..i]) == []
  {
    if out != [] { NoWords(out); }
  }

  /** A visible character goes on the word before it, starts one, or, where the
      blanks before it were all dropped, is merged into the first. */
  lemma {:induction false} SolidWords(s: seq<byte>, i: nat, out: seq<byte>)
    requires i < |s| && Standing(s, i, out) && !Blank(s[i])
    ensures Merged(s, i + 1) ==> |Words(s[..i + 1])| >= 2
    ensures Words(out + [s[i]]) == Merge(Words(s[..i + 1]), Merged(s, i + 1))
  {
    hide Words, OneLeft;
    var b, ws, m := s[i], Words(s[..i]), Merged(s, i);
    assert s[..i + 1] == s[..i] + [b];
    WordsAppend(s[..i], b);
    WordsAppend(out, b);
    MergedWords(s, i + 1);
    if i > 0 && !Blank(s[i - 1]) {
      assert EndsSolid(s[..i]) && Merged(s, i + 1) == m;
      MergeLonger(ws, m, b);
    } else if EndsSolid(out) {
      assert !EndsSolid(s[..i]) && OneLeft(s, i);
      OneLeftWords(s, i);
      assert Merged(s, i + 1) && !m;
      assert ws == [ws[0]];
    } else {
      assert !EndsSolid(s[..i]) && !OneLeft(s, i) && Merged(s, i + 1) == m;
      assert Merge(ws, m) + [[b]] == Merge(ws + [[b]], m);
    }
  }

  lemma {:induction false} StandingSolid(s: seq<byte>, i: nat, out: seq<byte>)
    requires Plain(s) && i < |s| && Standing(s, i, out) && !Blank(s[i])
    ensures Standing(s, i + 1, CleanRound(s[i..], out, 0).out)
  {
    hide CleanRound, Merge, Words, Merged;
    PlainRound(s, i, out);
    SolidWords(s, i, out);
    EmptyOut(s, i, out);
  }

  lemma {:induction false} StandingCleaned(s: seq<byte>, i: nat, out: seq<byte>)
    requires Plain(s) && i <= |s| && Standing(s, i, out)
    ensures Standing(s, |s|, Cleaned(s[i..], out, 0))
    decreases |s| - i
  {
    hide Standing, CleanRound;
    if i < |s| {
      var r := CleanRound(s[i..], out, 0);
      StandingPlain(s, i, out);
      PlainRound(s, i, out);
      if Blank(s[i]) { StandingBlank(s, i, out); } else { StandingSolid(s, i, out); }
      assert r.used == 1 && r.noCheck == 0 && s[i..][1..] == s[i + 1..];
      StandingCleaned(s, i + 1, r.out);
    }
  }

  lemma StandingPlain(s: seq<byte>, i: nat, out: seq<byte>)
    requires i <= |s| && Standing(s, i, out)
    ensures Plain(out)
  {
  }

  /** Cleaning plain text keeps its words, in order, except that it makes one of
      the first two exactly when only one character is left before the second. */
  lemma {:induction false} CleanWords(s: seq<byte>)
    requires Plain(s)
    ensures Merged(s, |s|) ==> |Words(s)| >= 2
    ensures Words(Clean(s)) == Merge(Words(s), Merged(s, |s|))
    ensures Words(Clean(s)) == Words(s) <==> !Merged(s, |s|)
  {
    hide Cleaned, Words;
    assert s[..0] == [] && s[0..] == s && s[..|s|] == s;
    assert Standing(s, 0, []) by { NothingYet(s); }
    StandingCleaned(s, 0, []);
    WordsTrimmed(Cleaned(s, [], 0));
  }

  lemma {:induction false} NothingYet(s: seq<byte>)
    ensures Standing(s, 0, [])
  {
    assert s[..0] == [];
  }

  /** The comment in the source says only a newline that is the first character is
      dropped; so is one right after the first character, which joins two lines. */
  lemma {:induction false} NewlineLost(a: byte, b: byte)
    requires SP < a < 127 && SP < b < 127
    ensures Clean([a, LF, b]) == [a, b] && Words([a, LF, b]) == [[a], [b]]
  {
    hide CleanRound, Words;
    var s := [a, LF, b];
    PlainRound(s, 0, []);
    PlainRound(s, 1, [a]);
    PlainRound(s, 2, [a]);
    assert s[0..] == s && s[1..][1..] == s[2..] && s[2..][1..] == [];
    assert Cleaned(s[2..], [a], 0) == Cleaned([], [a] + [b], 0);
    assert Cleaned(s[1..], [a], 0) == Cleaned(s[2..], [a], 0);
    assert Cleaned(s, [], 0) == Cleaned(s[1..], [] + [a], 0);
    assert [a] + [b] == [a, b] && [] + [a] == [a];
    assert Cleaned(s, [], 0) == [a, b];
    ThreeWords(a, b);
  }

  lemma {:induction false} ThreeWords(a: byte, b: byte)
    requires !Blank(a) && !Blank(b)
    ensures Words([a, LF, b]) == [[a], [b]]
  {
    WordsAppend([], a);
    WordsAppend([a], LF);
    WordsAppend([a, LF], b);
    assert [] + [a] == [a] && [a] + [LF] == [a, LF] && [a, LF] + [b] == [a, LF, b];
    assert Words([]) == [] && [] + [[a]] == [[a]] && [[a]] + [[b]] == [[a], [b]];
  }

  // ---- Control characters ---------------------------------------------------------------------------

  /** A tab becomes a space; other control characters go. */
  function Controlled(b: byte): seq<byte>
  {
    if b == LF || (b >= 32 && b != 127) then [b] else if b == 9 then [SP] else []
  }

  function WithoutControl(s: seq<byte>): seq<byte>
  {
    if s == [] then [] else WithoutControl(s[..|s| - 1]) + Controlled(s[|s| - 1])
  }

  lemma {:induction false} WithoutControlStep(s: seq<byte>, i: nat)
    requires i < |s|
    ensures WithoutControl(s[..i + 1]) == WithoutControl(s[..i]) + Controlled(s[i])
  {
    assert s[..i + 1][..i] == s[..i];
  }

  method RemoveControlChars(c: array<byte>, len: nat) returns (newLen: nat)
    requires len <= c.Length
    modifies c
    ensures newLen <= len && c[..newLen] == WithoutControl(old(c[..len]))
  {
    hide WithoutControl;
    newLen := 0;
    ghost var s := c[..len];
    assert WithoutControl(s[..0]) == [] by { NothingControlled(s); }
    for i := 0 to len
      invariant newLen <= i
      invariant forall k :: i <= k < len ==> c[k] == s[k]
      invariant c[..newLen] == WithoutControl(s[..i])
    {
      WithoutControlStep(s, i);
      ghost var out := c[..newLen];
      if c[i] == LF || (c[i] >= 32 && c[i] != 127) {
        c[newLen] := c[i];
        newLen := newLen + 1;
        assert c[..newLen] == out + Controlled(s[i]);
      } else if c[i] == 9 {
        c[newLen] := SP;
        newLen := newLen + 1;
        assert c[..newLen] == out + Controlled(s[i]);
      }
    }
    assert s[..len] == s;
  }

  lemma NothingControlled(s: seq<byte>)
    ensures WithoutControl(s[..0]) == []
  {
  }

  /** No control character in the text. */
  /** Octet by octet: tabs become spaces, line feeds and what is no control character
      stays, and nothing else is left. */
  lemma {:induction false} ControlsOneByOne(s: seq<byte>, b: byte)
    ensures WithoutControl(s + [b]) == WithoutControl(s) +
      if b as char == '\t' then [' ' as int] else if b as char == '\n' || (32 <= b && b != 127) then [b] else []
  {
    WithoutControlStep(s + [b], |s|);
    assert (s + [b])[..|s|] == s && (s + [b])[..|s| + 1] == s + [b];
  }

  ghost predicate NoCc(s: seq<byte>)
  {
    forall k :: 0 <= k < |s| ==> !IsCc(s[k])
  }

  lemma {:induction false} NoCcConcat(s: seq<byte>, t: seq<byte>)
    ensures NoCc(s + t) <==> NoCc(s) && NoCc(t)
  {
    assert forall k :: 0 <= k < |s| ==> (s + t)[k] == s[k];
    assert forall k :: 0 <= k < |t| ==> (s + t)[|s| + k] == t[k];
  }

  lemma {:induction false} ControlledOne(b: byte)
    ensures NoCc(Controlled(b)) && (NoCc([b]) ==> Controlled(b) == [b])
  {
    if NoCc([b]) { assert !IsCc([b][0]); }
  }

  lemma {:induction false} NoControlLeft(s: seq<byte>)
    ensures NoCc(WithoutControl(s))
    ensures NoCc(s) ==> WithoutControl(s) == s
  {
    hide NoCc, Controlled;
    if s == [] {
      NoCcNothing();
    } else {
      var front, b := s[..|s| - 1], s[|s| - 1];
      NoControlLeft(front);
      ControlledOne(b);
      NoCcConcat(WithoutControl(front), Controlled(b));
      NoCcConcat(front, [b]);
      assert s == front + [b];
    }
  }

  lemma NoCcNothing()
    ensures NoCc([])
  {
  }

  /** Read off for neighbouring octets: no blank at either end, no space after a
      blank, no three newlines in a row. */
  lemma {:induction false} CleanedText(s: seq<byte>)
    ensures var t := Clean(s);
      && (t != [] ==> !Blank(t[0]) && !Blank(t[|t| - 1]))
      && (forall k :: 0 < k < |t| && t[k] == SP ==> !Blank(t[k - 1]))
      && (forall k :: 1 < k < |t| ==> !(t[k] == LF && t[k - 1] == LF && t[k - 2] == LF))
  {
    hide Clean;
    CleanIsTidy(s);
    var t := Clean(s);
    forall k | 0 < k < |t| && t[k] == SP ensures !Blank(t[k - 1]) { assert OnlyCc(t, k - 1, k); }
    forall k | 1 < k < |t| ensures !(t[k] == LF && t[k - 1] == LF && t[k - 2] == LF) {
      assert OnlyCc(t, k - 1, k) && OnlyCc(t, k - 2, k - 1);
    }
  }

  // ---- The character tables ------------------------------------------------------------

  /** The code point of a UTF-8 sequence of two octets (section 3 of RFC 3629) ... */
  function Code2(a: byte, b: byte): nat
    requires 0xC0 <= a < 0xE0 && 0x80 <= b < 0xC0
  {
    0x40 * (a as int - 0xC0) + (b as int - 0x80)
  }

  /** ... and of three. */
  function Code3(a: byte, b: byte, c: byte): nat
    requires 0xE0 <= a < 0xF0 && 0x80 <= b < 0xC0 && 0x80 <= c < 0xC0
  {
    0x1000 * (a as int - 0xE0) + 0x40 * (b as int - 0x80) + (c as int - 0x80)
  }

  lemma {:induction false} AsciiTable(a: byte, rest: seq<byte>)
    requires a < 0x80
    ensures var s := [a] + rest;
      && CharSpace(s) == (if a as char == ' ' then 1 else 0)
      && CharNewline(s) == (if a as char == '\n' then 1 else 0)
      && CharInvisible(s) == 0
  {
  }

  lemma {:induction false} TwoOctetTable(a: byte, b: byte, rest: seq<byte>)
    requires 0xC0 <= a < 0xE0 && 0x80 <= b < 0xC0
    ensures var s, u := [a, b] + rest, Code2(a, b);
      && CharSpace(s) == (if u == 0xA0 then 2 else 0)
      && CharNewline(s) == (if u == 0x85 then 2 else 0)
      && CharInvisible(s) == (if u == 0xAD || u == 0x34F then 2 else 0)
  {
  }

  /** The table of spaces takes in whole ranges after the ones it names. */
  lemma {:induction false} ThreeOctetTable(a: byte, b: byte, c: byte, rest: seq<byte>)
    requires 0xE0 <= a < 0xF0 && 0x80 <= b < 0xC0 && 0x80 <= c < 0xC0
    ensures var s, u := [a, b, c] + rest, Code3(a, b, c);
      && CharSpace(s) == (if u == 0x1680 || 0x2000 <= u <= 0x200A || 0x202F <= u <= 0x203F || 0x205F <= u <= 0x207F || 0x3000 <= u <= 0x303F
                          then 3 else 0)
      && CharNewline(s) == (if u == 0x2028 || u == 0x2029 then 3 else 0)
      && CharInvisible(s) == (if 0x200B <= u <= 0x200D || u == 0x2060 || u == 0xFEFF then 3 else 0)
  {
    var s := [a, b, c] + rest;
    assert s[0] == a && s[1] == b && s[2] == c;
  }

  /** A text with no blank and no invisible character anywhere is left alone. */
  lemma {:induction false} CleanKeeps(s: seq<byte>)
    requires forall i :: 0 <= i < |s| ==> Solid(s[i..])
    ensures Clean(s) == s
  {
    hide Solid;
    assert s[0..] == s;
    CleanedKeeps(s, 0);
    if s != [] { LastSolid(s); }
    assert [] + s == s;
  }

  /** No character of the tables comes next. */
  predicate Solid(s: seq<byte>)
  {
    CharInvisible(s) == 0 && CharSpace(s) == 0 && CharNewline(s) == 0
  }

  lemma LastSolid(s: seq<byte>)
    requires s != [] && Solid(s[|s| - 1..])
    ensures TrimTail(s) == s
  {
    assert s[|s| - 1..][0] == s[|s| - 1];
  }

  lemma {:induction false} CleanedKeeps(s: seq<byte>, i: nat)
    requires i <= |s| && forall k :: 0 <= k < |s| ==> Solid(s[k..])
    ensures Cleaned(s[i..], s[..i], 0) == s
    decreases |s| - i
  {
    hide CharInvisible, CharSpace, CharNewline;
    if i < |s| {
      var rest := s[i..];
      assert Solid(rest);
      assert CleanRound(rest, s[..i], 0) == Round(1, s[..i] + [rest[0]], 0);
      CleanedKeeps(s, i + 1);
      assert rest[1..] == s[i + 1..] && s[..i] + [rest[0]] == s[..i + 1];
    } else {
      assert s[i..] == [] && s[..i] == s;
    }
  }

  /** Any space of the tables becomes a plain one, or goes: at the start, after a blank,
      before a newline. */
  lemma {:induction false} SpaceRounds(x: seq<byte>, rest: seq<byte>, out: seq<byte>)
    requires x != [] && CharSpace(x) == |x| && CharInvisible(x) == 0
    requires out == [] || !IsCc(out[|out| - 1])
    ensures Cleaned(x + rest, out, 0) ==
      Cleaned(rest, if out == [] || Blank(out[|out| - 1]) || CharNewline(Next(rest)) > 0 then out else out + [SP], 0)
  {
    hide CharInvisible, CharSpace, CharNewline;
    var s := x + rest;
    SpaceHere(x, rest);
    assert s[|x|..] == rest;
    if out != [] { PrevIs(out, |out| - 1, |out| - 1); }
    var r := CleanRound(s, out, 0);
    assert Cleaned(s, out, 0) == Cleaned(s[r.used..], r.out, r.noCheck);
  }

  lemma SpaceHere(x: seq<byte>, rest: seq<byte>)
    requires x != [] && CharSpace(x) == |x| && CharInvisible(x) == 0
    ensures CharSpace(x + rest) == |x| && CharInvisible(x + rest) == 0
  {
  }

  /** Any newline of the tables becomes a plain one, or goes: among the first two octets,
      and after two others. */
  lemma {:induction false} NewlineRounds(x: seq<byte>, rest: seq<byte>, out: seq<byte>)
    requires x != [] && CharNewline(x) == |x|
    requires forall k :: 0 <= k < |out| ==> !IsCc(out[k])
    ensures Cleaned(x + rest, out, 0) ==
      Cleaned(rest, if |out| < 2 || (out[|out| - 1] == LF && out[|out| - 2] == LF) then out else out + [LF], 0)
  {
    hide CharInvisible, CharSpace, CharNewline;
    var s := x + rest;
    NewlineHere(x, rest);
    assert s[|x|..] == rest;
    if |out| >= 2 { PrevIs(out, |out| - 1, |out| - 1); PrevIs(out, |out| - 2, |out| - 2); }
    var r := CleanRound(s, out, 0);
    assert Cleaned(s, out, 0) == Cleaned(s[r.used..], r.out, r.noCheck);
  }

  lemma NewlineHere(x: seq<byte>, rest: seq<byte>)
    requires x != [] && CharNewline(x) == |x|
    ensures CharNewline(x + rest) == |x| && CharSpace(x + rest) == 0 && CharInvisible(x + rest) == 0
  {
  }

  /** An invisible character goes before a blank, and together with another one that
      follows it; alone it stays, unless it counts as a space. */
  lemma {:induction false} InvisibleRounds(x: seq<byte>, rest: seq<byte>, out: seq<byte>)
    requires x != [] && CharInvisible(x) == |x|
    ensures BlankNext(rest) ==> Cleaned(x + rest, out, 0) == Cleaned(rest, out, 0)
    ensures !BlankNext(rest) && CharInvisible(rest) > 0 ==> Cleaned(x + rest, out, 0) == Cleaned(rest[CharInvisible(rest)..], out, 0)
    ensures !BlankNext(rest) && CharInvisible(rest) == 0 && CharSpace(x) == 0 ==> Cleaned(x + rest, out, 0) == Cleaned(rest, out + x, 0)
  {
    hide CharInvisible, CharSpace, CharNewline, VisibleRound;
    var s := x + rest;
    InvisibleHere(x, rest);
    assert s[|x|..] == rest;
    var r := CleanRound(s, out, 0);
    assert Cleaned(s, out, 0) == Cleaned(s[r.used..], r.out, r.noCheck);
    if BlankNext(rest) {
    } else if CharInvisible(rest) > 0 {
      assert s[|x| + CharInvisible(rest)..] == rest[CharInvisible(rest)..];
    } else if CharSpace(x) == 0 {
      assert r == Round(1, out + [x[0]], |x| - 1) by { VisibleThrough(s, out, |x| - 1); }
      PassedThrough(s[1..], x[1..], rest, out + [x[0]]);
      assert s[1..] == x[1..] + rest;
      assert out + [x[0]] + x[1..] == out + x;
    }
  }

  lemma InvisibleHere(x: seq<byte>, rest: seq<byte>)
    requires x != [] && CharInvisible(x) == |x|
    ensures CharInvisible(x + rest) == |x|
    ensures CharSpace(x) == 0 ==> CharSpace(x + rest) == 0
    ensures CharNewline(x + rest) == 0
  {
  }

  lemma VisibleThrough(s: seq<byte>, out: seq<byte>, noCheck: nat)
    requires s != [] && CharSpace(s) == 0 && CharNewline(s) == 0
    ensures VisibleRound(s, out, noCheck) == Round(1, out + [s[0]], noCheck)
  {
  }

  lemma {:induction false} PassedThrough(s: seq<byte>, x: seq<byte>, rest: seq<byte>, out: seq<byte>)
    requires s == x + rest
    ensures Cleaned(s, out, |x|) == Cleaned(rest, out + x, 0)
    decreases |x|
  {
    if x == [] {
      assert s == rest && out + x == out;
    } else {
      PassedThrough(s[1..], x[1..], rest, out + [x[0]]);
      assert out + [x[0]] + x[1..] == out + x;
    }
  }

  /** A word joiner between two letters is taken for a space. */
  lemma {:induction false} JoinerBecomesSpace(a: byte, b: byte)
    requires SP < a < 127 && SP < b < 127
    ensures Clean([a, 0xE2, 0x81, 0xA0, b]) == [a, SP, b]
  {
    var s := [a, 0xE2, 0x81, 0xA0, b];
    assert s[1..] == [0xE2, 0x81, 0xA0, b] && s[1..][3..] == [b] && [b][1..] == [];
    assert CleanRound(s, [], 0) == Round(1, [a], 0);
    assert Next([b]) == [b];
    assert CleanRound(s[1..], [a], 0) == Round(3, [a, SP], 2);
    assert CleanRound([b], [a, SP], 2) == Round(1, [a, SP, b], 1);
    assert Cleaned([b], [a, SP], 2) == Cleaned([b][1..], [a, SP, b], 1) == [a, SP, b];
    assert Cleaned(s[1..], [a], 0) == Cleaned(s[1..][3..], [a, SP], 2);
  }
}
