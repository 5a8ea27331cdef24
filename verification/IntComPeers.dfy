/** The two ends of an IntCom exchange as the programs run them: one function
    each, advancing the nonce inside its own header buffer (IntCom/Client.c,
    IntCom/Server.c). */
module IntComPeers {
  import opened Bytes
  import opened Crypto
  import opened IntCom

  /** sodium_increment on b[lo..hi]. */
  method Increment(b: array<byte>, lo: nat, hi: nat)
    requires lo <= hi <= b.Length
    modifies b
    ensures b[lo..hi] == Inc(old(b[lo..hi]))
    ensures forall k :: 0 <= k < b.Length && !(lo <= k < hi) ==> b[k] == old(b[k])
  {
    hide Inc, Carried;
    var carry: int := 1;
    ghost var was := b[..];
    CarriedAll(was[lo..hi]);
    assert b[lo..lo] == [];
    for i := lo to hi
      invariant carry == 0 || carry == 1
      invariant forall k :: 0 <= k < b.Length && !(lo <= k < i) ==> b[k] == was[k]
      invariant b[lo..i] + Carried(was[i..hi], carry) == Inc(was[lo..hi])
    {
      ghost var before, rest := b[lo..i], was[i..hi];
      assert rest[0] == was[i] == b[i] && rest[1..] == was[i + 1..hi];
      CarriedStep(rest, carry);
      carry := carry + b[i] as int;
      b[i] := carry % 256;
      carry := carry / 256;
      assert b[lo..i + 1] == before + [b[i]];
    }
    CarriedNothing(carry);
    assert was[hi..hi] == [];
  }

  /** What the remaining octets become with this carry. */
  function Carried(n: seq<byte>, carry: int): seq<byte>
  {
    if carry == 1 then Inc(n) else n
  }

  lemma CarriedAll(n: seq<byte>)
    ensures Carried(n, 1) == Inc(n)
  {
  }

  lemma CarriedNothing(carry: int)
    ensures Carried([], carry) == []
  {
  }

  lemma {:induction false} CarriedStep(n: seq<byte>, carry: int)
    requires n != [] && 0 <= carry <= 1
    ensures Carried(n, carry) == [(carry + n[0] as int) % 256] + Carried(n[1..], (carry + n[0] as int) / 256)
  {
    assert n == [n[0]] + n[1..];
  }

  // ---- The client --------------------------------------------------------------------

  /** What the client's caller gets when the server sends the octets s and closes. */
  function ClientResult(p: Setup, s: seq<byte>): (i32, Option<seq<byte>>)
  {
    if |s| < RES_HDR_LEN then (RESPONSE_ERR, None) else
    var plain := p.Open(N(p, Base(p)), s[..RES_HDR_LEN]);
    if plain.None? then (RESPONSE_ERR, None) else
    var len := if |plain.value| == 4 then ReadCode(plain.value) else RESPONSE_ERR;
    if !p.wantOut || len < 1 then (len, None)
    else if (p.expected != 0 && len != p.expected) || |s| < RES_HDR_LEN + len + AEAD_TAG then (RESPONSE_ERR, None)
    else
      var body := p.Open(N(p, Base(p) + 1), s[RES_HDR_LEN..RES_HDR_LEN + len + AEAD_TAG]);
      if body.None? then (RESPONSE_ERR, None) else (len, body)
  }

  /** What the client accepts: a response of the length announced, opened under the two
      nonces after its own; or the code alone; or nothing but an error. */
  ghost predicate Accepts(p: Setup, s: seq<byte>, ret: i32, out: Option<seq<byte>>)
  {
    var n := NonceAt(p.nonce, if p.msg == [] then 1 else 2);
    var code := if |s| >= 36 then p.aead.open(p.key, n, s[..36]) else None;
    && (out.Some? <==>
          && code.Some? && |code.value| == 4 && p.wantOut
          && 0 < ReadCode(code.value) && (p.expected == 0 || p.expected == ReadCode(code.value))
          && |s| >= 36 + ReadCode(code.value) + 32
          && p.aead.open(p.key, Inc(n), s[36..36 + ReadCode(code.value) + 32]).Some?)
    && (out.Some? ==> ret == ReadCode(code.value) && out == p.aead.open(p.key, Inc(n), s[36..36 + ret + 32]))
    && (out.None? && ret != RESPONSE_ERR ==>
          code.Some? && |code.value| == 4 && ret == ReadCode(code.value) && (!p.wantOut || ret <= 0))
    && (code.Some? && |code.value| == 4 && (!p.wantOut || ReadCode(code.value) <= 0) ==> ret == ReadCode(code.value))
  }

  lemma {:induction false} ClientAccepts(p: Setup, s: seq<byte>)
    ensures Accepts(p, s, ClientResult(p, s).0, ClientResult(p, s).1)
  {
    hide ReadCode;
    NextNonce(p, Base(p) + 1);
  }

  /** Header and message; the buffer's nonce is left as it is after them. */
  method SendRequest(p: Setup, encHdr: array<byte>) returns (toServer: seq<byte>)
    requires p.Lawful() && encHdr.Length == HDR_LEN
    modifies encHdr
    ensures toServer == Header(p) + Message(p)
    ensures encHdr[1..1 + AEAD_NPUB] == N(p, Base(p) - 1)
  {
    encHdr[0] := p.clientId;
    forall i | 0 <= i < AEAD_NPUB { encHdr[1 + i] := p.nonce[i]; }
    assert encHdr[1..1 + AEAD_NPUB] == p.nonce;
    var ct := p.Seal(encHdr[1..1 + AEAD_NPUB], HeaderPlain(p));
    forall i | 0 <= i < |ct| { encHdr[1 + AEAD_NPUB + i] := ct[i]; }
    assert encHdr[1..1 + AEAD_NPUB] == p.nonce;
    toServer := encHdr[..];
    assert toServer == Header(p);
    if |p.msg| > 0 {
      Increment(encHdr, 1, 1 + AEAD_NPUB);
      assert encHdr[1..1 + AEAD_NPUB] == N(p, 1);
      toServer := toServer + p.Seal(encHdr[1..1 + AEAD_NPUB], p.msg);
    } else {
      assert toServer + [] == toServer;
    }
  }

  method Intcom(p: Setup, fromServer: seq<byte>) returns (toServer: seq<byte>, ret: i32, out: Option<seq<byte>>)
    requires p.Lawful()
    ensures toServer == Header(p) + Message(p)
    ensures (ret, out) == ClientResult(p, fromServer) && Accepts(p, fromServer, ret, out)
  {
    hide Inc, Header, Message, Accepts;
    ClientAccepts(p, fromServer);
    var encHdr := new byte[HDR_LEN](_ => 0);
    toServer := SendRequest(p, encHdr);
    out := None;

    if |fromServer| < RES_HDR_LEN { return toServer, RESPONSE_ERR, None; }
    NextNonce(p, Base(p));
    Increment(encHdr, 1, 1 + AEAD_NPUB);
    var plain := p.Open(encHdr[1..1 + AEAD_NPUB], fromServer[..RES_HDR_LEN]);
    if plain.None? { return toServer, RESPONSE_ERR, None; }
    ret := if |plain.value| == 4 then ReadCode(plain.value) else RESPONSE_ERR;
    if !p.wantOut || ret < 1 { return; }
    if p.expected != 0 && ret != p.expected { return toServer, RESPONSE_ERR, None; }

    if |fromServer| < RES_HDR_LEN + ret + AEAD_TAG { return toServer, RESPONSE_ERR, None; }
    NextNonce(p, Base(p) + 1);
    Increment(encHdr, 1, 1 + AEAD_NPUB);
    out := p.Open(encHdr[1..1 + AEAD_NPUB], fromServer[RES_HDR_LEN..RES_HDR_LEN + ret + AEAD_TAG]);
    if out.None? { ret := RESPONSE_ERR; }
  }

  lemma NextNonce(p: Setup, k: nat)
    requires k > 0
    ensures N(p, k) == Inc(N(p, k - 1))
  {
  }

  // ---- The server ---------------------------------------------------------------------

  /** The response, under the two nonces after n. */
  function Reply(p: Setup, n: seq<byte>, r: (i32, Option<seq<byte>>)): seq<byte>
  {
    p.Seal(Inc(n), CodeBytes(r.0))
    + if r.0 > 0 && r.1.Some? && |r.1.value| >= r.0 then p.Seal(Inc(Inc(n)), r.1.value[..r.0]) else []
  }

  /** What the server sends when the client sends the octets s; nothing if it
      gives up on them. */
  function ServerReply(p: Setup, s: seq<byte>): seq<byte>
  {
    if |s| < HDR_LEN then [] else
    var n := s[1..1 + AEAD_NPUB];
    var hdr := p.Open(n, s[1 + AEAD_NPUB..HDR_LEN]);
    if hdr.None? || |hdr.value| != 8 then [] else
    FromLeBound(hdr.value[..4]);
    Ranges();
    var op, len := FromLe(hdr.value[..4]), FromLe(hdr.value[4..]);
    if len == 0 then Reply(p, n, Normal(p.handler(op, None))) else
    if |s| < HDR_LEN + len + AEAD_TAG then [] else
    var msg := p.Open(Inc(n), s[HDR_LEN..HDR_LEN + len + AEAD_TAG]);
    if msg.None? then [] else Reply(p, Inc(n), Normal(p.handler(op, msg)))
  }

  /** The octets that tell a client what the handler said, nonce n being the last used:
      its code, or an error for a response that is missing, and as many octets of the
      response as the code says. */
  ghost predicate Sent(p: Setup, n: seq<byte>, r: (i32, Option<seq<byte>>), s: seq<byte>)
  {
    var (code, res) := r;
    && (code <= 0 ==> s == p.aead.seal(p.key, Inc(n), CodeBytes(code)))
    && (code > 0 && res.None? ==> s == p.aead.seal(p.key, Inc(n), CodeBytes(RESPONSE_ERR)))
    && (code > 0 && res.Some? && code <= |res.value| ==>
          s == p.aead.seal(p.key, Inc(n), CodeBytes(code)) + p.aead.seal(p.key, Inc(Inc(n)), res.value[..code]))
  }

  lemma {:induction false} ReplySent(p: Setup, n: seq<byte>, r: (i32, Option<seq<byte>>))
    ensures Sent(p, n, r, Reply(p, n, Normal(r)))
  {
    hide Inc, CodeBytes;
    var s := p.Seal(Inc(n), CodeBytes(Normal(r).0));
    assert s + [] == s;
  }

  /** The response is sent under the buffer's nonce, incremented before each part. */
  method SendReply(p: Setup, encHdr: array<byte>, code: i32, res: Option<seq<byte>>) returns (toClient: seq<byte>)
    requires encHdr.Length == HDR_LEN
    modifies encHdr
    ensures Sent(p, old(encHdr[1..33]), (code, res), toClient)
    ensures toClient == Reply(p, old(encHdr[1..33]), Normal((code, res)))
  {
    hide Inc, CodeBytes, Sent;
    ReplySent(p, encHdr[1..33], (code, res));
    var resCode := code;
    if res.None? && resCode > 0 { resCode := RESPONSE_ERR; }
    Increment(encHdr, 1, 1 + AEAD_NPUB);
    toClient := p.Seal(encHdr[1..1 + AEAD_NPUB], CodeBytes(resCode));
    if resCode > 0 && |res.value| >= resCode {
      Increment(encHdr, 1, 1 + AEAD_NPUB);
      toClient := toClient + p.Seal(encHdr[1..1 + AEAD_NPUB], res.value[..resCode]);
    } else {
      assert toClient + [] == toClient;
    }
  }

  /** What the server does with the octets s: it answers a request that opens under the
      nonce it came with, and its successor, with what the handler says; nothing else. */
  ghost predicate Served(p: Setup, s: seq<byte>, t: seq<byte>)
  {
    var hdr := if |s| >= 73 then p.aead.open(p.key, s[1..33], s[33..73]) else None;
    if hdr.None? || |hdr.value| != 8 then t == [] else
    var op, len := FromLe(hdr.value[..4]), FromLe(hdr.value[4..]);
    && op < 0x1_0000_0000
    && if len == 0 then Sent(p, s[1..33], p.handler(op, None), t) else
       var msg := if |s| >= 73 + len + 32 then p.aead.open(p.key, Inc(s[1..33]), s[73..73 + len + 32]) else None;
       if msg.None? then t == [] else Sent(p, Inc(s[1..33]), p.handler(op, msg), t)
  }

  /** One round of the service loop, for one client. */
  method ServeOne(p: Setup, fromClient: seq<byte>) returns (toClient: seq<byte>)
    ensures Served(p, fromClient, toClient)
    ensures toClient == ServerReply(p, fromClient)
  {
    hide Inc, Reply, FromLe, Normal, Sent;
    if |fromClient| < HDR_LEN { return []; }
    var encHdr := new byte[HDR_LEN](i requires 0 <= i < HDR_LEN => fromClient[i]);
    assert encHdr[1..1 + AEAD_NPUB] == fromClient[1..1 + AEAD_NPUB];
    assert encHdr[1 + AEAD_NPUB..] == fromClient[1 + AEAD_NPUB..HDR_LEN];
    var hdr := p.Open(encHdr[1..1 + AEAD_NPUB], encHdr[1 + AEAD_NPUB..]);
    if hdr.None? || |hdr.value| != 8 { return []; }
    FromLeBound(hdr.value[..4]);
    Ranges();
    var operation, lenMsg := FromLe(hdr.value[..4]), FromLe(hdr.value[4..]);
    var r;
    if lenMsg > 0 {
      if |fromClient| < HDR_LEN + lenMsg + AEAD_TAG { return []; }
      Increment(encHdr, 1, 1 + AEAD_NPUB);
      var msg := p.Open(encHdr[1..1 + AEAD_NPUB], fromClient[HDR_LEN..HDR_LEN + lenMsg + AEAD_TAG]);
      if msg.None? { return []; }
      r := p.handler(operation, msg);
    } else {
      r := p.handler(operation, None);
    }
    toClient := SendReply(p, encHdr, r.0, r.1);
  }

  // ---- Both together --------------------------------------------------------------------

  lemma {:induction false} ServerUnderstands(p: Setup)
    requires p.Lawful()
    ensures ServerReply(p, Header(p) + Message(p)) == Reply(p, N(p, Base(p) - 1), Answer(p))
  {
    hide FromLe, Inc, Reply;
    HeaderParts(p, Message(p));
    var s := Header(p) + Message(p);
    assert N(p, 0) == p.nonce && N(p, 1) == Inc(p.nonce);
    if p.msg != [] {
      assert |Message(p)| == |p.msg| + AEAD_TAG;
      assert s[HDR_LEN..HDR_LEN + |p.msg| + AEAD_TAG] == Message(p);
    }
  }

  lemma {:induction false} ClientUnderstands(p: Setup)
    requires p.Lawful()
    ensures ClientResult(p, ResHeader(p) + ResBody(p)) == Outcome(p)
  {
    AnswerShape(p);
    CodeRoundTrip(Answer(p).0);
    var s := ResHeader(p) + ResBody(p);
    assert s[..RES_HDR_LEN] == ResHeader(p);
    assert s[RES_HDR_LEN..] == ResBody(p);
    if Answer(p).0 > 0 { assert s[RES_HDR_LEN..RES_HDR_LEN + Answer(p).0 + AEAD_TAG] == ResBody(p); }
  }

  /** What the client sends makes the server send what makes the client return the
      handler's code and octets: the nonces of the two buffers never part. */
  lemma {:induction false} ExchangeCompletes(p: Setup)
    requires p.Lawful()
    ensures var (ret, out) := ClientResult(p, ServerReply(p, Header(p) + Message(p)));
            Returns(p, ret, out)
  {
    hide ClientResult, ServerReply, Inc;
    OutcomeReturns(p);
    ServerUnderstands(p);
    AnswerShape(p);
    NextNonce(p, Base(p));
    NextNonce(p, Base(p) + 1);
    assert Reply(p, N(p, Base(p) - 1), Answer(p)) == ResHeader(p) + ResBody(p);
    ClientUnderstands(p);
  }
}
