/** Substring search for the two octet strings SMTP programs look for. */
module Memmem {
  import opened Bytes
  import opened Post

  /** The two octet strings searched for: CR LF dot CR LF, and CR LF dot dot. */
  datatype Needle = Marker | LineDots

  function Length(n: Needle): nat
  {
    if n.Marker? then 5 else 4
  }

  predicate At(s: seq<byte>, n: Needle, i: nat)
  {
    && i + Length(n) <= |s| && s[i] == CR && s[i + 1] == LF && s[i + 2] == DOT
    && if n.Marker? then s[i + 3] == CR && s[i + 4] == LF else s[i + 3] == DOT
  }

  /** memmem: where the needle first occurs in s, or |s|. */
  function Find(s: seq<byte>, n: Needle): (i: nat)
    ensures i <= |s| && (i < |s| ==> At(s, n, i))
    ensures forall j :: 0 <= j < i ==> !At(s, n, j)
  {
    if s == [] || At(s, n, 0) then 0
    else
      assert forall j :: 1 <= j && At(s, n, j) ==> At(s[1..], n, j - 1);
      1 + Find(s[1..], n)
  }

  lemma AtTail(s: seq<byte>, n: Needle, j: nat)
    requires s != []
    ensures At(s[1..], n, j) == At(s, n, j + 1)
  {
  }
}
