/** SMTP transparency (section 4.5.2 of RFC 5321) across the programs that post,
    send, receive and deliver a message. */
module Smtp {
  import opened Bytes
  import opened Post
  import opened Memmem
  import opened SendMail
  import opened Respond
  import opened Deliver

  /** Un-stuffing inverts stuffing, from the middle of a line and from its start. */
  lemma {:induction false} UnstuffStuff(last: byte, b: seq<byte>)
    requires LfAfterCr(b)
    ensures last != LF ==> Unstuff(Stuff(last, b)) == b
    ensures Unstuff(CRLF + Stuff(LF, b)) == CRLF + b
    decreases |b|
  {
    if b == [] {
      assert CRLF + [] == CRLF && CRLF[1..] == [LF] && [LF][1..] == [];
    } else {
      MidLine(last, b);
      AtLineStart(b);
    }
  }

  lemma StuffEmpty(last: byte)
    ensures Stuff(last, []) == [] && Unstuff([]) == []
  {
  }

  lemma {:induction false} MidLine(last: byte, b: seq<byte>)
    requires LfAfterCr(b)
    ensures last != LF ==> Unstuff(Stuff(last, b)) == b
    decreases |b|, 0
  {
    hide Unstuff, Stuff;
    if b == [] {
      StuffEmpty(last);
    } else if last != LF {
      var s := Stuff(last, b);
      StuffOne(last, b);
      if |b| >= 2 && b[1] == LF {
        assert b[0] == CR;
        AtLineStart(b[2..]);
        assert CRLF + b[2..] == b;
      } else {
        MidLine(b[0], b[1..]);
        assert b[0] != LF;
        assert s[1..] == Stuff(b[0], b[1..]);
        if |b| >= 2 { StuffOne(b[0], b[1..]); assert s[1] == b[1]; } else { StuffEmpty(b[0]); }
        UnstuffOne(s);
      }
    }
  }

  /** After a CRLF that no two dots follow, un-stuffing goes on where it was. */
  lemma {:induction false} UnstuffBreak(r: seq<byte>)
    requires !(|r| >= 2 && r[0] == DOT && r[1] == DOT)
    ensures Unstuff(CRLF + r) == CRLF + Unstuff(r)
  {
    hide Unstuff;
    var s := CRLF + r;
    assert s[1..] == [LF] + r && s[1..][1..] == r;
    UnstuffOne(s);
    UnstuffOne(s[1..]);
    assert [CR] + ([LF] + Unstuff(r)) == CRLF + Unstuff(r);
  }

  /** At the start of a line only a first dot is treated differently. */
  lemma StuffStart(b: seq<byte>)
    requires b != []
    ensures b[0] == DOT ==> Stuff(LF, b) == [DOT, DOT] + Stuff(DOT, b[1..])
    ensures b[0] != DOT ==> Stuff(LF, b) == Stuff(0, b) && Stuff(LF, b)[0] != DOT
  {
  }

  lemma {:induction false} AtLineStart(b: seq<byte>)
    requires LfAfterCr(b)
    ensures Unstuff(CRLF + Stuff(LF, b)) == CRLF + b
    decreases |b|, 1
  {
    hide Stuff;
    if b == [] {
      StuffEmpty(LF);
      UnstuffBreak([]);
    } else if b[0] == DOT {
      StuffStart(b);
      MidLine(DOT, b[1..]);
      var s := CRLF + Stuff(LF, b);
      assert At(s, LineDots, 0) && s[4..] == Stuff(DOT, b[1..]);
      assert [CR, LF, DOT] + b[1..] == CRLF + b;
    } else {
      StuffStart(b);
      MidLine(0, b);
      UnstuffBreak(Stuff(LF, b));
    }
  }

  lemma {:induction false} TransmittedShape(h: seq<byte>, b: seq<byte>)
    requires |b| >= 2 && b[|b| - 2..] == CRLF
    ensures var t := Transmitted(h, b);
            |t| >= 5 && t[..|t| - 5] == h + CRLF + Stuff(LF, b[..|b| - 2]) && t[|t| - 5..] == CRLF + [DOT] + CRLF
  {
    var s := Stuff(LF, b[..|b| - 2]);
    assert b == b[..|b| - 2] + CRLF;
    StuffAppend(LF, b[..|b| - 2]);
    var t := Transmitted(h, b);
    assert t == (h + CRLF + s) + (CRLF + [DOT] + CRLF);
  }

  lemma {:induction false} OnlyMarker(h: seq<byte>, b: seq<byte>)
    requires HeadersOk(h) && |b| >= 2 && b[|b| - 2..] == CRLF
    ensures EndsAtMarker(Transmitted(h, b))
  {
    hide Stuff;
    var t, s, g := Transmitted(h, b), Stuff(LF, b), [LF] + h;
    TransmittedShape(h, b);
    assert At(t, Marker, |t| - 5) by {
      var e := t[|t| - 5..];
      assert e[0] == CR && e[1] == LF && e[2] == DOT && e[3] == CR && e[4] == LF;
    }
    var n := |h| + 2;
    forall j: nat | j + 5 < |t| ensures !At(t, Marker, j) {
      if j + 2 < |h| {
        assert g[j + 3] == t[j + 2] && g[j + 2] == t[j + 1];
      } else if j + 2 >= n {
        var i := j + 2 - n;
        assert t[n..n + |s|] == s && s[i] == t[j + 2] && (if i == 0 then LF else s[i - 1]) == t[j + 1];
        if t[j + 1] == LF && t[j + 2] == DOT {
          StuffedDots(LF, b, i);
          assert t[j + 3] == s[i + 1];
        }
      }
    }
  }

  /** Nothing in a block without line dots is un-stuffed. */
  lemma {:induction false} UnstuffPast(p: seq<byte>, r: seq<byte>)
    requires NoLineDot(p)
    ensures Unstuff(p + (CRLF + r)) == p + Unstuff(CRLF + r)
  {
    var s := p + (CRLF + r);
    forall j | 0 <= j < |p| ensures !At(s, LineDots, j) {
      if j + 2 < |p| { assert s[j + 2] == p[j + 2] && s[j + 1] == p[j + 1]; }
    }
    UnstuffFrom(s, |p|);
    assert s[..|p|] == p && s[|p|..] == CRLF + r;
  }

  // ---- Line by line ----------------------------------------------------------------------

  function JoinLines(ls: seq<seq<byte>>): seq<byte>
    requires ls != []
  {
    if |ls| == 1 then ls[0] else ls[0] + CRLF + JoinLines(ls[1..])
  }

  /** A line that starts with a dot gets one more ... */
  function MoreDots(l: seq<byte>): seq<byte>
  {
    if l != [] && l[0] == DOT then [DOT] + l else l
  }

  /** ... and one that starts with two loses one. */
  function FewerDots(l: seq<byte>): seq<byte>
  {
    if TwoDots(l) then l[1..] else l
  }

  lemma {:induction false} JoinCons(l: seq<byte>, rest: seq<seq<byte>>)
    requires rest != []
    ensures JoinLines([l] + rest) == l + CRLF + JoinLines(rest)
  {
    assert ([l] + rest)[1..] == rest;
  }

  lemma {:induction false} StuffInLine(last: byte, l: seq<byte>, x: seq<byte>)
    requires LF !in l && last != LF
    ensures Stuff(last, l + x) == l + Stuff(if l == [] then last else l[|l| - 1], x)
    decreases |l|
  {
    if l == [] {
      assert l + x == x;
    } else {
      assert (l + x)[0] == l[0] && (l + x)[1..] == l[1..] + x;
      StuffInLine(l[0], l[1..], x);
      assert [l[0]] + l[1..] == l;
    }
  }

  lemma {:induction false} StuffLine(l: seq<byte>, x: seq<byte>)
    requires LF !in l
    ensures Stuff(LF, l + CRLF + x) == MoreDots(l) + CRLF + Stuff(LF, x)
  {
    hide Stuff;
    var y := CRLF + x;
    assert l + CRLF + x == l + y;
    StuffStart(l + y);
    if l != [] && l[0] == DOT {
      assert (l + y)[1..] == l[1..] + y && l == [DOT] + l[1..];
      StuffInLine(DOT, l[1..], y);
      StuffBreak(l[|l| - 1], x);
    } else {
      StuffInLine(0, l, y);
      StuffBreak(if l == [] then 0 else l[|l| - 1], x);
    }
  }

  lemma {:induction false} StuffBreak(last: byte, x: seq<byte>)
    requires last != LF
    ensures Stuff(last, CRLF + x) == CRLF + Stuff(LF, x)
  {
    hide Stuff;
    var y := CRLF + x;
    StuffOne(last, y);
    assert y[2..] == x;
  }

  lemma {:induction false} StuffLast(l: seq<byte>)
    requires LF !in l
    ensures Stuff(LF, l) == MoreDots(l)
  {
    if l != [] {
      StuffInLine(l[0], l[1..], []);
      assert l[1..] + [] == l[1..] && l == [l[0]] + l[1..];
    }
  }

  function AllMoreDots(ls: seq<seq<byte>>): (r: seq<seq<byte>>)
    ensures |r| == |ls| && forall k :: 0 <= k < |ls| ==> r[k] == MoreDots(ls[k])
  {
    if ls == [] then [] else [MoreDots(ls[0])] + AllMoreDots(ls[1..])
  }

  function AllFewerDots(ls: seq<seq<byte>>): (r: seq<seq<byte>>)
    ensures |r| == |ls| && forall k :: 0 <= k < |ls| ==> r[k] == FewerDots(ls[k])
  {
    if ls == [] then [] else [FewerDots(ls[0])] + AllFewerDots(ls[1..])
  }

  /** Stuffing, line by line, from the start of a line. */
  lemma {:induction false} StuffLines(ls: seq<seq<byte>>)
    requires ls != [] && forall k :: 0 <= k < |ls| ==> LF !in ls[k]
    ensures Stuff(LF, JoinLines(ls)) == JoinLines(AllMoreDots(ls))
    decreases |ls|
  {
    hide Stuff, MoreDots, JoinLines;
    var l, rest := ls[0], ls[1..];
    if rest == [] {
      StuffLast(l);
      JoinOne(l);
      JoinOne(MoreDots(l));
      assert ls == [l] && AllMoreDots(ls) == [MoreDots(l)];
    } else {
      assert ls == [l] + rest;
      JoinCons(l, rest);
      JoinCons(MoreDots(l), AllMoreDots(rest));
      StuffLine(l, JoinLines(rest));
      StuffLines(rest);
    }
  }

  lemma JoinOne(l: seq<byte>)
    ensures JoinLines([l]) == l
  {
  }

  /** A line break is a CR and an LF; either may stand alone within a line. */
  ghost predicate IsLine(l: seq<byte>)
  {
    forall i :: 0 < i < |l| ==> !(l[i - 1] == CR && l[i] == LF)
  }

  lemma {:induction false} UnstuffLine(l: seq<byte>, x: seq<byte>)
    requires IsLine(l)
    ensures Unstuff(l + CRLF + x) == l + Unstuff(CRLF + x)
  {
    hide Unstuff;
    var s := l + CRLF + x;
    forall j | 0 <= j < |l| ensures !At(s, LineDots, j) {
      if j + 1 < |l| { assert s[j] == l[j] && s[j + 1] == l[j + 1]; }
    }
    UnstuffFrom(s, |l|);
    assert s[..|l|] == l && s[|l|..] == CRLF + x;
  }

  lemma {:induction false} UnstuffLast(l: seq<byte>)
    requires IsLine(l)
    ensures Unstuff(l) == l
  {
    hide Unstuff;
    forall j | 0 <= j < |l| ensures !At(l, LineDots, j) {}
    UnstuffFrom(l, |l|);
    StuffEmpty(0);
    assert l[..|l|] == l && l[|l|..] == [];
  }

  lemma {:induction false} UnstuffTwoDots(x: seq<byte>)
    requires |x| >= 2 && x[0] == DOT && x[1] == DOT
    ensures Unstuff(CRLF + x) == CRLF + ([DOT] + Unstuff(x[2..]))
  {
    var s := CRLF + x;
    assert At(s, LineDots, 0) && s[4..] == x[2..];
  }

  /** Un-stuffing, line by line, of any text at all: every line but the first loses
      one of two dots it starts with. */
  lemma {:induction false} UnstuffLines(first: seq<byte>, more: seq<seq<byte>>)
    requires IsLine(first) && forall k :: 0 <= k < |more| ==> IsLine(more[k])
    ensures Unstuff(JoinLines([first] + more)) == JoinLines([first] + AllFewerDots(more))
    decreases |more|
  {
    hide Unstuff, At, IsLine, JoinLines, FewerDots;
    if more == [] {
      UnstuffLast(first);
      JoinOne(first);
      assert [first] + more == [first] && [first] + AllFewerDots(more) == [first];
    } else {
      var l, rest := more[0], more[1..];
      assert more == [l] + rest;
      var x := JoinLines(more);
      JoinCons(first, more);
      UnstuffLine(first, x);
      StartsWith(more);
      JoinCons(first, AllFewerDots(more));
      if TwoDots(l) {
        Shorter(l);
        UnstuffTwoDots(x);
        Cut(l, rest);
        UnstuffLines(l[2..], rest);
        JoinPrefix([DOT], l[2..], AllFewerDots(rest));
        OneLess(l);
      } else {
        UnstuffBreak(x);
        UnstuffLines(l, rest);
        OneLess(l);
      }
    }
  }

  predicate TwoDots(l: seq<byte>)
  {
    |l| >= 2 && l[0] == DOT && l[1] == DOT
  }

  lemma {:induction false} OneLess(l: seq<byte>)
    ensures FewerDots(l) == if TwoDots(l) then [DOT] + l[2..] else l
  {
    if TwoDots(l) { assert l[1..] == [l[1]] + l[2..]; }
  }

  lemma Shorter(l: seq<byte>)
    requires IsLine(l)
    ensures |l| >= 2 ==> IsLine(l[2..])
  {
  }

  /** How a joined text starts. */
  lemma StartsWith(ls: seq<seq<byte>>)
    requires ls != []
    ensures TwoDots(JoinLines(ls)) <==> TwoDots(ls[0])
  {
  }

  lemma {:induction false} Cut(l: seq<byte>, more: seq<seq<byte>>)
    requires |l| >= 2
    ensures |JoinLines([l] + more)| >= 2 && JoinLines([l] + more)[2..] == JoinLines([l[2..]] + more)
  {
    if more == [] {
      assert [l] + more == [l] && [l[2..]] + more == [l[2..]];
    } else {
      JoinCons(l, more);
      JoinCons(l[2..], more);
    }
  }

  lemma {:induction false} JoinPrefix(d: seq<byte>, l: seq<byte>, more: seq<seq<byte>>)
    ensures JoinLines([d + l] + more) == d + JoinLines([l] + more)
  {
    if more == [] {
      assert [d + l] + more == [d + l] && [l] + more == [l];
    } else {
      JoinCons(d + l, more);
      JoinCons(l, more);
    }
  }

  // ---- End to end ----------------------------------------------------------------------------

  /** End to end: from the posted text to the delivered one. */
  lemma {:induction false} Transparency(isUtf8: seq<byte> -> bool, src: seq<byte>, h: seq<byte>, cs: seq<seq<byte>>)
    requires Acceptable(isUtf8, src) && HeadersOk(h)
    requires Flat(cs) == Transmitted(h, TrimEnd(Crlf(src)) + CRLF) && |Flat(cs)| <= MAX_BODY
    requires cs != [] && (forall k :: 0 <= k < |cs| ==> cs[k] != [])
    ensures |cs[|cs| - 1]| >= 5 ==> Delivered(Received(cs, 0)) == [LF] + h + CRLF + TrimEnd(Crlf(src)) + CRLF
    ensures |cs[|cs| - 1]| < 5 ==> Received(cs, 0) == Transmitted(h, TrimEnd(Crlf(src)) + CRLF)
  {
    hide PostBody, Received, Unstuff, Stuff, Flat, Acceptable, Crlf, TrimEnd;
    AcceptedIff(isUtf8, src);
    var b := PostBody(isUtf8, src).text;
    PostedBody(isUtf8, src);
    OnlyMarker(h, b);
    ReceivedChunks(cs, 0);
    var b' := b[..|b| - 2];
    TransmittedShape(h, b);
    assert LfAfterCr(b');
    var t := Transmitted(h, b);
    assert [LF] + (h + CRLF + Stuff(LF, b')) == ([LF] + h) + (CRLF + Stuff(LF, b'));
    UnstuffPast([LF] + h, Stuff(LF, b'));
    AtLineStart(b');
    assert b == b' + CRLF;
    assert ([LF] + h) + (CRLF + b') + CRLF == [LF] + h + CRLF + b;
  }
}
