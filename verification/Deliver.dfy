/** Un-stuffing a received message (deliver/deliver.c). */
module Deliver {
  import opened Bytes
  import opened Post
  import opened Memmem

  /** After every CRLF, two dots become one. */
  function Unstuff(s: seq<byte>): (r: seq<byte>)
    ensures |r| <= |s|
  {
    if s == [] then []
    else if At(s, LineDots, 0) then [CR, LF, DOT] + Unstuff(s[4..])
    else [s[0]] + Unstuff(s[1..])
  }

  lemma UnstuffOne(s: seq<byte>)
    requires s != [] && !At(s, LineDots, 0)
    ensures Unstuff(s) == [s[0]] + Unstuff(s[1..])
  {
  }

  lemma {:induction false} UnstuffFrom(s: seq<byte>, i: nat)
    requires i <= |s|
    requires forall j :: 0 <= j < i ==> !At(s, LineDots, j)
    ensures Unstuff(s) == s[..i] + Unstuff(s[i..])
  {
    hide At, Unstuff;
    if i == 0 {
      assert s[..0] == [] && s[0..] == s;
    } else {
      forall j | 0 <= j < i - 1 ensures !At(s[1..], LineDots, j) { AtTail(s, LineDots, j); }
      UnstuffOne(s);
      UnstuffFrom(s[1..], i - 1);
      assert s[1..][i - 1..] == s[i..] && s[..i] == [s[0]] + s[1..][..i - 1];
    }
  }

  lemma {:induction false} UnstuffAt(s: seq<byte>)
    ensures var at := Find(s, LineDots);
      && (at == |s| ==> Unstuff(s) == s)
      && (at < |s| ==> At(s, LineDots, at) && Unstuff(s) == s[..at] + [CR, LF, DOT] + Unstuff(s[at + 4..]))
  {
    hide Find;
    var at := Find(s, LineDots);
    UnstuffFrom(s, at);
    if at == |s| {
      assert s[..at] == s && s[at..] == [];
    } else {
      assert At(s[at..], LineDots, 0) && s[at..][4..] == s[at + 4..];
    }
  }

  /** memmove of everything after position c down by one. */
  method ShiftLeft(src: array<byte>, c: nat, len: nat)
    requires c < len <= src.Length
    modifies src
    ensures src[..len - 1] == old(src[..c] + src[c + 1..len])
  {
    forall i | c <= i < len - 1 { src[i] := src[i + 1]; }
  }

  /** One round of the loop: the first of the two dots found, at position c, is dropped. */
  lemma {:induction false} UnstuffRound(was: seq<byte>, offset: nat, c: nat)
    requires offset <= |was| && offset + Find(was[offset..], LineDots) == c - 2 < |was|
    ensures c + 2 <= |was|
    ensures var now := was[..c] + was[c + 1..];
            now[..c + 1] + Unstuff(now[c + 1..]) == was[..offset] + Unstuff(was[offset..])
  {
    hide Find, Unstuff;
    var rest := was[offset..];
    var at := c - 2 - offset;
    UnstuffAt(rest);
    assert was[..c] == was[..offset] + rest[..at] + [CR, LF];
    assert was[c + 1] == DOT && was[c + 2..] == rest[at + 4..];
    var now := was[..c] + was[c + 1..];
    assert now[..c + 1] == was[..c] + [DOT] == was[..offset] + (rest[..at] + [CR, LF, DOT]);
    assert now[c + 1..] == was[c + 2..];
  }

  method ConvertLineDots(src: array<byte>, lenSrc: nat) returns (len: nat)
    requires lenSrc <= src.Length
    modifies src
    ensures len <= lenSrc && src[..len] == Unstuff(old(src[..lenSrc]))
  {
    hide Unstuff, Find, At;
    len := lenSrc;
    var offset: nat := 0;
    ghost var want := Unstuff(src[..lenSrc]);
    assert src[..len][..0] + Unstuff(src[..len][0..]) == want;
    while true
      invariant offset <= len <= lenSrc
      invariant src[..len][..offset] + Unstuff(src[..len][offset..]) == want
      decreases len - offset
    {
      label L:
      ghost var was := src[..len];
      assert src[offset..len] == was[offset..];
      var c := offset + Find(src[offset..len], LineDots) + 2;
      if c == len + 2 {
        UnstuffAt(was[offset..]);
        assert was[..offset] + was[offset..] == was;
        break;
      }
      UnstuffRound(was, offset, c);
      ShiftLeft(src, c, len);
      assert was[..c] == old@L(src[..c]) && was[c + 1..] == old@L(src[c + 1..len]);
      offset := c + 1;
      len := len - 1;
      assert src[..len] == was[..c] + was[c + 1..];
    }
  }

  /** The un-stuffed text with the final CRLF the marker took away, and a NUL. */
  method DeliverEmail(src: array<byte>, lenSrc: nat) returns (len: nat)
    requires lenSrc + 3 <= src.Length
    modifies src
    ensures len < src.Length && src[len] == 0
    ensures src[..len] == Unstuff(old(src[..lenSrc])) + CRLF
  {
    len := ConvertLineDots(src, lenSrc);
    ghost var text := src[..len];
    src[len], src[len + 1], src[len + 2] := CR, LF, 0;
    len := len + 2;
    assert src[..len] == text + CRLF;
  }

  /** What is delivered, after the LF the stream starts with (IntCom/Stream_Server.c:98). */
  function Delivered(received: seq<byte>): seq<byte>
  {
    Unstuff([LF] + received) + CRLF
  }
}
