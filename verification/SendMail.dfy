/** The text handed to the SMTP connection (createEmail in api/SendMail.c):
    header rotation and dot-stuffing. */
module SendMail {
  import opened Bytes
  import opened Post

  /** The body with every dot after an LF doubled; `last` is the octet before it. */
  function Stuff(last: byte, b: seq<byte>): seq<byte>
    decreases |b|
  {
    if b == [] then []
    else if b[0] == DOT && last == LF then [DOT, DOT] + Stuff(DOT, b[1..])
    else [b[0]] + Stuff(b[0], b[1..])
  }

  /** The header block with the part from k on moved to the front. */
  function Rotated(h: seq<byte>, k: nat): seq<byte>
    requires k <= |h|
  {
    h[k..] + h[..k]
  }

  /** The text handed to the SMTP connection. */
  function Transmitted(headers: seq<byte>, body: seq<byte>): seq<byte>
  {
    headers + CRLF + Stuff(LF, body) + [DOT, CR, LF]
  }

  /** memcpy past the end, then memmove over the front. (A forall statement reads
      every octet before it writes any, as memmove does.) */
  method RotateHeaders(final: array<byte>, lenFinal: nat, dkim: nat)
    requires dkim <= lenFinal && lenFinal + dkim <= final.Length
    modifies final
    ensures final[..lenFinal] == Rotated(old(final[..lenFinal]), dkim)
  {
    forall i | 0 <= i < dkim { final[lenFinal + i] := final[i]; }
    assert final[dkim..dkim + lenFinal] == old(final[dkim..lenFinal]) + old(final[..dkim]);
    assert old(final[..lenFinal])[dkim..] == old(final[dkim..lenFinal]) && old(final[..lenFinal])[..dkim] == old(final[..dkim]);
    forall i | 0 <= i < lenFinal { final[i] := final[dkim + i]; }
  }

  method StuffBody(final: array<byte>, start: nat, body: seq<byte>) returns (lenFinal: nat)
    requires 0 < start && start + 2 * |body| <= final.Length
    modifies final
    ensures start <= lenFinal <= start + 2 * |body|
    ensures final[..lenFinal] == old(final[..start]) + Stuff(old(final[start - 1]), body)
  {
    hide Stuff;
    lenFinal := start;
    ghost var want := final[..start] + Stuff(final[start - 1], body);
    assert body[0..] == body;
    for i := 0 to |body|
      invariant start <= lenFinal <= start + 2 * i
      invariant final[..lenFinal] + Stuff(final[lenFinal - 1], body[i..]) == want
    {
      ghost var before, rest := final[..lenFinal], Stuff(final[lenFinal - 1], body[i..]);
      StuffFrom(final[lenFinal - 1], body, i);
      if body[i] == DOT && final[lenFinal - 1] == LF {
        final[lenFinal], final[lenFinal + 1] := DOT, DOT;
        lenFinal := lenFinal + 2;
        Moved(before, [DOT, DOT], Stuff(DOT, body[i + 1..]), rest, want);
        assert final[..lenFinal] == before + [DOT, DOT];
      } else {
        final[lenFinal] := body[i];
        lenFinal := lenFinal + 1;
        Moved(before, [body[i]], Stuff(body[i], body[i + 1..]), rest, want);
        assert final[..lenFinal] == before + [body[i]];
      }
    }
    StuffNothing(final[lenFinal - 1]);
    assert body[|body|..] == [];
    assert final[..lenFinal] + [] == final[..lenFinal];
  }

  lemma {:induction false} Moved(before: seq<byte>, part: seq<byte>, left: seq<byte>, rest: seq<byte>, want: seq<byte>)
    requires rest == part + left && before + rest == want
    ensures (before + part) + left == want
  {
    assert (before + part) + left == before + (part + left);
  }

  lemma {:induction false} StuffFrom(last: byte, b: seq<byte>, i: nat)
    requires i < |b|
    ensures Stuff(last, b[i..]) ==
      if b[i] == DOT && last == LF then [DOT, DOT] + Stuff(DOT, b[i + 1..]) else [b[i]] + Stuff(b[i], b[i + 1..])
  {
    assert b[i..][0] == b[i] && b[i..][1..] == b[i + 1..];
  }

  lemma StuffNothing(last: byte)
    ensures Stuff(last, []) == []
  {
  }

  /** The second half of createEmail: the DKIM header, which starts after the first
      LF that precedes it, goes to the front; then the blank line, the body, the dot. */
  method FinishEmail(final: array<byte>, lenHeaders: nat, dkim: nat, body: seq<byte>) returns (lenFinal: nat)
    requires dkim <= lenHeaders && 2 * lenHeaders + 2 * |body| + 5 <= final.Length
    modifies final
    ensures lenFinal <= final.Length
    ensures final[..lenFinal] == Transmitted(Rotated(old(final[..lenHeaders]), dkim), body)
  {
    RotateHeaders(final, lenHeaders, dkim);
    ghost var h := final[..lenHeaders];
    final[lenHeaders], final[lenHeaders + 1] := CR, LF;
    lenFinal := lenHeaders + 2;
    assert final[..lenFinal] == h + CRLF;
    lenFinal := StuffBody(final, lenFinal, body);
    ghost var t := final[..lenFinal];
    final[lenFinal], final[lenFinal + 1], final[lenFinal + 2] := DOT, CR, LF;
    lenFinal := lenFinal + 3;
    assert final[..lenFinal] == t + [DOT, CR, LF];
  }

  /** No line of a block starts with a dot. */
  ghost predicate NoLineDot(s: seq<byte>)
  {
    forall i :: 0 < i < |s| && s[i] == DOT ==> s[i - 1] != LF
  }

  /** Header lines, the first one included. */
  ghost predicate HeadersOk(h: seq<byte>)
  {
    NoLineDot([LF] + h)
  }

  /** Moving the part after a line break to the front keeps headers in order, if
      the block ends with one too. */
  lemma {:induction false} RotationKeepsHeaders(h: seq<byte>, k: nat)
    requires HeadersOk(h) && 0 < k < |h| && h[k - 1] == LF
    ensures HeadersOk(Rotated(h, k))
    ensures forall i :: 0 <= i < |h| ==> Rotated(h, k)[i] == h[if i < |h| - k then k + i else i - (|h| - k)]
    ensures multiset(Rotated(h, k)) == multiset(h)
  {
    var g, g' := [LF] + h, [LF] + Rotated(h, k);
    var n := |h| - k;
    assert h[0] != DOT by { assert g[1] == h[0] && g[0] == LF; }
    forall i | 0 < i < |g'| && g'[i] == DOT ensures g'[i - 1] != LF {
      if i <= n {
        assert g'[i] == g[k + i] && g'[i - 1] == g[k + i - 1];
      } else {
        assert g'[i] == h[i - n - 1] && g'[i] == g[i - n];
        if i > n + 1 { assert g'[i - 1] == g[i - n - 1]; }
      }
    }
    assert h == h[..k] + h[k..];
  }

  /** In a stuffed body, after an LF, every dot at the start of a line is followed
      by another. */
  lemma {:induction false} StuffedDots(last: byte, b: seq<byte>, i: nat)
    requires i < |Stuff(last, b)| && Stuff(last, b)[i] == DOT
    requires (if i == 0 then last else Stuff(last, b)[i - 1]) == LF
    ensures i + 1 < |Stuff(last, b)| && Stuff(last, b)[i + 1] == DOT
    decreases |b|
  {
    var d := if b[0] == DOT && last == LF then 2 else 1;
    var rest := Stuff(b[0], b[1..]);
    assert forall j :: d <= j < |Stuff(last, b)| ==> Stuff(last, b)[j] == rest[j - d];
    if i >= d { StuffedDots(b[0], b[1..], i - d); }
  }

  lemma {:induction false} StuffOne(last: byte, b: seq<byte>)
    requires b != [] && last != LF
    ensures Stuff(last, b) == [b[0]] + Stuff(b[0], b[1..])
    ensures |b| >= 2 && b[1] == LF ==> Stuff(last, b) == [b[0], LF] + Stuff(LF, b[2..])
  {
    if |b| >= 2 && b[1] == LF { assert b[1..][0] == LF && b[1..][1..] == b[2..]; }
  }

  lemma {:induction false} StuffAppend(last: byte, b: seq<byte>)
    ensures Stuff(last, b + CRLF) == Stuff(last, b) + CRLF
    decreases |b|
  {
    var c := b + CRLF;
    if b == [] {
      assert c == CRLF && c[1..] == [LF] && [LF][1..] == [];
      assert Stuff(CR, [LF]) == [LF] + Stuff(LF, []);
    } else {
      StuffAppend(b[0], b[1..]);
      assert c[0] == b[0] && c[1..] == b[1..] + CRLF;
    }
  }
}
