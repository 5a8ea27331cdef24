/** Receiving a message (the DATA loop of mta/respond.c). */
module Respond {
  import opened Bytes
  import opened Post
  import opened Memmem

  const MAX_BODY := 4194304

  /** A chunk, cut at the size limit when `total` octets have gone before. */
  function Clipped(chunk: seq<byte>, total: nat): seq<byte>
    requires total <= MAX_BODY
  {
    if total + |chunk| > MAX_BODY then chunk[..MAX_BODY - total] else chunk
  }

  /** The octets passed on from a sequence of received chunks. */
  function Received(chunks: seq<seq<byte>>, total: nat): seq<byte>
    decreases |chunks|
  {
    if total >= MAX_BODY || chunks == [] || chunks[0] == [] then [] else
    var chunk := Clipped(chunks[0], total);
    var end := Find(chunk, Marker);
    if end < |chunk| then chunk[..end] else chunk + Received(chunks[1..], total + |chunk|)
  }

  lemma {:induction false} ReceivedFrom(chunks: seq<seq<byte>>, k: nat, total: nat)
    requires k < |chunks|
    ensures total >= MAX_BODY || chunks[k] == [] ==> Received(chunks[k..], total) == []
    ensures total < MAX_BODY && chunks[k] != [] ==>
      var chunk := Clipped(chunks[k], total);
      var end := Find(chunk, Marker);
      Received(chunks[k..], total) ==
        if end < |chunk| then chunk[..end] else chunk + Received(chunks[k + 1..], total + |chunk|)
  {
    hide Find, Clipped;
    assert chunks[k..][0] == chunks[k] && chunks[k..][1..] == chunks[k + 1..];
  }

  /** The DATA loop. (Stopping once the marker is found is a count set to the
      limit in the source; here it is the return.) */
  method ReceiveData(chunks: seq<seq<byte>>) returns (sent: seq<byte>)
    ensures sent == Received(chunks, 0)
  {
    hide Find, Clipped;
    sent := [];
    var lenBody: nat := 0;
    assert chunks[0..] == chunks && [] + Received(chunks, 0) == Received(chunks, 0);
    for k := 0 to |chunks|
      invariant sent + Received(chunks[k..], lenBody) == Received(chunks, 0)
    {
      ReceivedFrom(chunks, k, lenBody);
      if lenBody >= MAX_BODY || chunks[k] == [] { return; }
      var body := Clipped(chunks[k], lenBody);
      var end := Find(body, Marker);
      if end < |body| { return sent + body[..end]; }
      lenBody := lenBody + |body|;
      sent := sent + body;
    }
  }

  /** In the transmitted text the marker occurs once: at the very end. */
  ghost predicate EndsAtMarker(t: seq<byte>)
  {
    forall j: nat :: At(t, Marker, j) <==> j + 5 == |t|
  }

  function Flat(cs: seq<seq<byte>>): seq<byte>
  {
    if cs == [] then [] else cs[0] + Flat(cs[1..])
  }

  lemma {:induction false} ChunkPast(t: seq<byte>, chunk: seq<byte>, rest: seq<byte>)
    requires EndsAtMarker(t) && t == chunk + rest && rest != []
    ensures Find(chunk, Marker) == |chunk| && EndsAtMarker(rest)
  {
    var end := Find(chunk, Marker);
    assert end < |chunk| ==> At(t, Marker, end);
    forall j: nat ensures At(rest, Marker, j) <==> j + 5 == |rest| {
      assert At(rest, Marker, j) <==> At(t, Marker, |chunk| + j);
    }
  }

  /** t without its last five octets if the last chunk held them all. */
  function BeforeMarker(t: seq<byte>, last: seq<byte>): seq<byte>
  {
    if 5 <= |last| && 5 <= |t| then t[..|t| - 5] else t
  }

  /** However the text is cut into chunks, the receiver passes on what precedes the
      marker exactly when the last chunk holds all of it; otherwise the marker too. */
  lemma {:induction false} ReceivedChunks(cs: seq<seq<byte>>, total: nat)
    requires cs != [] && (forall k :: 0 <= k < |cs| ==> cs[k] != [])
    requires EndsAtMarker(Flat(cs)) && total + |Flat(cs)| <= MAX_BODY
    ensures |Flat(cs)| >= |cs[|cs| - 1]|
    ensures Received(cs, total) == BeforeMarker(Flat(cs), cs[|cs| - 1])
    decreases |cs|
  {
    hide Find, EndsAtMarker;
    var chunk, rest := cs[0], Flat(cs[1..]);
    assert Flat(cs) == chunk + rest;
    if |cs| == 1 {
      assert Flat(cs) == chunk;
      ChunkLast(chunk);
    } else {
      assert cs[1] != [] && rest == cs[1..][0] + Flat(cs[1..][1..]);
      ChunkPast(Flat(cs), chunk, rest);
      ReceivedChunks(cs[1..], total + |chunk|);
      assert cs[1..][|cs| - 2] == cs[|cs| - 1];
      assert chunk + BeforeMarker(rest, cs[|cs| - 1]) == BeforeMarker(chunk + rest, cs[|cs| - 1]);
    }
  }

  lemma {:induction false} ChunkLast(t: seq<byte>)
    requires EndsAtMarker(t)
    ensures var end := Find(t, Marker);
            BeforeMarker(t, t) == if end < |t| then t[..end] else t
  {
    if |t| >= 5 { assert At(t, Marker, |t| - 5); }
  }

  /** Without a marker in any chunk everything is passed on, up to four mebioctets. */
  lemma {:induction false} ReceivedUnmarked(cs: seq<seq<byte>>, total: nat)
    requires total <= 4194304
    requires forall k :: 0 <= k < |cs| ==> cs[k] != [] && forall j: nat :: !At(cs[k], Marker, j)
    ensures Received(cs, total) == if total + |Flat(cs)| <= 4194304 then Flat(cs) else Flat(cs)[..4194304 - total]
    decreases |cs|
  {
    hide At;
    if cs != [] && total < MAX_BODY {
      var chunk, rest := Clipped(cs[0], total), cs[1..];
      NoMarkerClipped(cs[0], total);
      NotFound(chunk);
      ReceivedUnmarked(rest, total + |chunk|);
      if |chunk| < |cs[0]| { assert Flat(cs)[..4194304 - total] == chunk; }
      else { assert chunk == cs[0]; }
    } else if total == MAX_BODY {
      assert Flat(cs)[..0] == [];
    }
  }

  /** With one, everything before the first chunk that holds it whole, and that chunk up to
      where it first stands; what comes after is not passed on. */
  lemma {:induction false} ReceivedMarked(cs: seq<seq<byte>>, k: nat, end: nat, total: nat)
    requires k < |cs| && At(cs[k], Marker, end) && forall j: nat :: j < end ==> !At(cs[k], Marker, j)
    requires forall i :: 0 <= i < k ==> cs[i] != [] && forall j: nat :: !At(cs[i], Marker, j)
    requires total + |Flat(cs[..k])| + |cs[k]| <= 4194304
    ensures Received(cs, total) == Flat(cs[..k]) + cs[k][..end]
    decreases k
  {
    hide At, Find, Received;
    MarkerLength(cs[k], end);
    ReceivedFrom(cs, 0, total);
    assert cs[0..] == cs;
    if k == 0 {
      FoundFirst(cs[0], end);
      assert cs[..0] == [] && [] + cs[0][..end] == cs[0][..end];
    } else {
      assert cs[..k][0] == cs[0] && cs[..k][1..] == cs[1..][..k - 1];
      NotFound(cs[0]);
      ReceivedMarked(cs[1..], k - 1, end, total + |cs[0]|);
      assert cs[0] + (Flat(cs[1..][..k - 1]) + cs[k][..end]) == (cs[0] + Flat(cs[1..][..k - 1])) + cs[k][..end];
    }
  }

  lemma FoundFirst(s: seq<byte>, i: nat)
    requires At(s, Marker, i) && forall j: nat :: j < i ==> !At(s, Marker, j)
    ensures Find(s, Marker) == i
  {
    hide Find;
    MarkerLength(s, i);
    var e := Find(s, Marker);
  }

  lemma NotFound(s: seq<byte>)
    requires forall j: nat :: !At(s, Marker, j)
    ensures Find(s, Marker) == |s|
  {
    hide Find;
    var e := Find(s, Marker);
  }

  lemma MarkerLength(s: seq<byte>, i: nat)
    requires At(s, Marker, i)
    ensures i + 5 <= |s|
  {
  }

  lemma NoMarkerClipped(chunk: seq<byte>, total: nat)
    requires total <= MAX_BODY && forall j: nat :: !At(chunk, Marker, j)
    ensures forall j: nat :: !At(Clipped(chunk, total), Marker, j)
  {
    forall j: nat ensures !At(Clipped(chunk, total), Marker, j) { assert !At(chunk, Marker, j); }
  }
}
