/** One IntCom exchange: a client and a server process, each advancing its own
    copy of the nonce, over two byte streams (IntCom/Client.c, IntCom/Server.c). */
module IntCom {
  import opened Bytes
  import opened Crypto

  const RESPONSE_ERR := -0x7FFF_FFFE
  const HDR_LEN := 1 + AEAD_NPUB + 8 + AEAD_TAG
  const RES_HDR_LEN := 4 + AEAD_TAG

  // ---- Nonces ----------------------------------------------------------------------

  /** sodium_increment: one more, little-endian, carrying. */
  function Inc(n: seq<byte>): (r: seq<byte>)
    ensures |r| == |n|
  {
    if n == [] then []
    else if n[0] == 255 then [0] + Inc(n[1..])
    else [n[0] + 1] + n[1..]
  }

  function NonceAt(n: seq<byte>, k: nat): (r: seq<byte>)
    ensures |r| == |n|
  {
    if k == 0 then n else Inc(NonceAt(n, k - 1))
  }

  lemma {:induction false} IncValue(n: seq<byte>)
    ensures FromLe(Inc(n)) == if FromLe(n) + 1 == Range(|n|) then 0 else FromLe(n) + 1
  {
    if n != [] {
      IncValue(n[1..]);
      FromLeBound(n[1..]);
      assert Inc(n)[1..] == if n[0] == 255 then Inc(n[1..]) else n[1..];
    }
  }

  lemma {:induction false} NonceValue(n: seq<byte>, k: nat)
    requires n != [] && k < 256
    ensures var v := FromLe(n) + k; var m := Range(|n|);
            FromLe(NonceAt(n, k)) == if v < m then v else v - m
  {
    hide FromLe, Range, Inc;
    FromLeBound(n);
    LargeRange(|n|);
    if k > 0 {
      NonceValue(n, k - 1);
      IncValue(NonceAt(n, k - 1));
    }
  }

  lemma LargeRange(k: nat)
    requires k > 0
    ensures Range(k) >= 256
  {
  }

  /** The first 256 nonces of an exchange are all different. */
  lemma {:induction false} NoncesDiffer(n: seq<byte>, i: nat, j: nat)
    requires n != [] && i < j < 256
    ensures NonceAt(n, i) != NonceAt(n, j)
  {
    hide FromLe, Range, NonceAt;
    NonceValue(n, i);
    NonceValue(n, j);
    FromLeBound(n);
    LargeRange(|n|);
  }

  // ---- 32-bit codes -------------------------------------------------------------------

  type i32 = x: int | -0x8000_0000 <= x < 0x8000_0000

  function CodeBytes(code: i32): (r: seq<byte>)
    ensures |r| == 4
  {
    ToLe(if code < 0 then code + 0x1_0000_0000 else code, 4)
  }

  function ReadCode(s: seq<byte>): (r: i32)
    requires |s| == 4
  {
    FromLeBound(s);
    Ranges();
    if FromLe(s) >= 0x8000_0000 then FromLe(s) - 0x1_0000_0000 else FromLe(s)
  }

  lemma {:induction false} CodeRoundTrip(code: i32)
    ensures ReadCode(CodeBytes(code)) == code
  {
    Ranges();
    LeRoundTrip(if code < 0 then code + 0x1_0000_0000 else code, 4);
  }

  // ---- The parties ------------------------------------------------------------------------

  /** What both sides hold in common, what the client asks, and the server's handler. */
  datatype Setup = Setup(aead: Aead, key: seq<byte>, clientId: byte, op: u32, msg: seq<byte>, nonce: seq<byte>,
                         wantOut: bool, expected: i32,
                         handler: (u32, Option<seq<byte>>) -> (i32, Option<seq<byte>>))
  {
    ghost predicate Lawful() {
      && aead.Lawful() && |nonce| == AEAD_NPUB && |msg| <= 2097216
      // a positive code announces that many octets of response
      && (forall o, m :: handler(o, m).0 > 0 && handler(o, m).1.Some? ==> |handler(o, m).1.value| >= handler(o, m).0)
    }

    function Seal(nonce: seq<byte>, m: seq<byte>): seq<byte> { aead.seal(key, nonce, m) }
    function Open(nonce: seq<byte>, c: seq<byte>): Option<seq<byte>> { aead.open(key, nonce, c) }
  }

  datatype ClientPhase = CStart | CHeaderSent | CAwaitHeader | CAwaitBody(len: i32) | CDone(ret: i32, out: Option<seq<byte>>)
  datatype ServerPhase =
    | SIdle | SGotHeader(op: u32, len: nat) | SGotMessage(op: u32, m: seq<byte>)
    | SHandled(code: i32, res: Option<seq<byte>>) | SSendBody(code: i32, body: seq<byte>) | SDone | SFailed

  /** Each side's phase and nonce, the octets in flight, and - for the record -
      which nonce every ciphertext was sealed and opened under. */
  datatype State = State(c: ClientPhase, cNonce: seq<byte>, s: ServerPhase, sNonce: seq<byte>,
                         toServer: seq<byte>, toClient: seq<byte>,
                         seals: seq<(seq<byte>, seq<byte>)>, opens: seq<(seq<byte>, seq<byte>)>)

  function Init(p: Setup): State
  {
    State(CStart, p.nonce, SIdle, [], [], [], [], [])
  }

  datatype Move = ClientSendHeader | ClientSendMessage | ServerGetHeader | ServerGetMessage | ServerHandle
                | ServerSendHeader | ServerSendBody | ClientGetHeader | ClientGetBody

  predicate Enabled(p: Setup, st: State, m: Move)
  {
    match m
    case ClientSendHeader => st.c.CStart?
    case ClientSendMessage => st.c.CHeaderSent?
    case ServerGetHeader => st.s.SIdle? && |st.toServer| >= HDR_LEN
    case ServerGetMessage => st.s.SGotHeader? && st.s.len > 0 && |st.toServer| >= st.s.len + AEAD_TAG
    case ServerHandle => st.s.SGotMessage? || (st.s.SGotHeader? && st.s.len == 0)
    case ServerSendHeader => st.s.SHandled?
    case ServerSendBody => st.s.SSendBody?
    case ClientGetHeader => st.c.CAwaitHeader? && |st.toClient| >= RES_HDR_LEN
    case ClientGetBody => st.c.CAwaitBody? && st.c.len > 0 && |st.toClient| >= st.c.len + AEAD_TAG
  }

  function HeaderPlain(p: Setup): seq<byte>
  {
    ToLe(p.op, 4) + ToLe(|p.msg|, 4)
  }

  /** The server's correction of a positive code without a response. */
  function Normal(r: (i32, Option<seq<byte>>)): (i32, Option<seq<byte>>)
  {
    if r.1.None? && r.0 > 0 then (RESPONSE_ERR, None) else r
  }

  /** One move of one side. */
  function Next(p: Setup, st: State, m: Move): State
    requires p.Lawful() && Enabled(p, st, m)
  {
    match m
    case ClientSendHeader =>
      var ct := p.Seal(st.cNonce, HeaderPlain(p));
      st.(c := if p.msg == [] then CAwaitHeader else CHeaderSent,
          toServer := st.toServer + ([p.clientId] + st.cNonce + ct), seals := st.seals + [(st.cNonce, ct)])
    case ClientSendMessage =>
      var n := Inc(st.cNonce);
      var ct := p.Seal(n, p.msg);
      st.(c := CAwaitHeader, cNonce := n, toServer := st.toServer + ct, seals := st.seals + [(n, ct)])
    case ServerGetHeader =>
      var n, ct := st.toServer[1..1 + AEAD_NPUB], st.toServer[1 + AEAD_NPUB..HDR_LEN];
      var plain := p.Open(n, ct);
      FromLeBound(if plain.Some? && |plain.value| >= 4 then plain.value[..4] else []);
      Ranges();
      st.(s := if plain.None? || |plain.value| != 8 then SFailed else SGotHeader(FromLe(plain.value[..4]), FromLe(plain.value[4..])),
          sNonce := n, toServer := st.toServer[HDR_LEN..], opens := st.opens + [(n, ct)])
    case ServerGetMessage =>
      var n, ct := Inc(st.sNonce), st.toServer[..st.s.len + AEAD_TAG];
      var plain := p.Open(n, ct);
      st.(s := if plain.None? then SFailed else SGotMessage(st.s.op, plain.value),
          sNonce := n, toServer := st.toServer[st.s.len + AEAD_TAG..], opens := st.opens + [(n, ct)])
    case ServerHandle =>
      var r := Normal(if st.s.SGotMessage? then p.handler(st.s.op, Some(st.s.m)) else p.handler(st.s.op, None));
      st.(s := SHandled(r.0, r.1))
    case ServerSendHeader =>
      var n := Inc(st.sNonce);
      var ct := p.Seal(n, CodeBytes(st.s.code));
      st.(s := if st.s.code > 0 && st.s.res.Some? && |st.s.res.value| >= st.s.code
               then SSendBody(st.s.code, st.s.res.value[..st.s.code]) else SDone,
          sNonce := n, toClient := st.toClient + ct, seals := st.seals + [(n, ct)])
    case ServerSendBody =>
      var n := Inc(st.sNonce);
      var ct := p.Seal(n, st.s.body);
      st.(s := SDone, sNonce := n, toClient := st.toClient + ct, seals := st.seals + [(n, ct)])
    case ClientGetHeader =>
      var n, ct := Inc(st.cNonce), st.toClient[..RES_HDR_LEN];
      var plain := p.Open(n, ct);
      var len := if plain.Some? && |plain.value| == 4 then ReadCode(plain.value) else RESPONSE_ERR;
      st.(c := if plain.None? then CDone(RESPONSE_ERR, None)
               else if !p.wantOut || len < 1 then CDone(len, None)
               else if p.expected != 0 && len != p.expected then CDone(RESPONSE_ERR, None)
               else CAwaitBody(len),
          cNonce := n, toClient := st.toClient[RES_HDR_LEN..], opens := st.opens + [(n, ct)])
    case ClientGetBody =>
      var n, ct := Inc(st.cNonce), st.toClient[..st.c.len + AEAD_TAG];
      var plain := p.Open(n, ct);
      st.(c := if plain.None? then CDone(RESPONSE_ERR, None) else CDone(st.c.len, plain),
          cNonce := n, toClient := st.toClient[st.c.len + AEAD_TAG..], opens := st.opens + [(n, ct)])
  }

  // ---- What an exchange amounts to ------------------------------------------------------

  /** The handler's answer to this request. */
  function Answer(p: Setup): (i32, Option<seq<byte>>)
  {
    Normal(p.handler(p.op, if p.msg == [] then None else Some(p.msg)))
  }

  /** What the client's caller gets: the handler's code, with exactly that many of
      its octets when they were asked for and of the length expected. */
  function Outcome(p: Setup): (i32, Option<seq<byte>>)
    requires p.Lawful()
  {
    var (code, res) := Answer(p);
    if !p.wantOut || code < 1 then (code, None)
    else if p.expected != 0 && code != p.expected then (RESPONSE_ERR, None)
    else (code, Some(res.value[..code]))
  }

  /** What the client may return, by what the handler answers to its request: the code,
      with that many octets of the response if the caller wants them and any length will
      do or this one was expected; an error for a response that is missing or not
      expected. */
  ghost predicate Returns(p: Setup, ret: i32, out: Option<seq<byte>>)
    requires p.Lawful()
  {
    var (code, res) := p.handler(p.op, if p.msg == [] then None else Some(p.msg));
    && (code <= 0 ==> ret == code && out == None)
    && (code > 0 && res.None? ==> ret == RESPONSE_ERR && out == None)
    && (code > 0 && res.Some? && !p.wantOut ==> ret == code && out == None)
    && (code > 0 && res.Some? && p.wantOut && (p.expected == 0 || p.expected == code) ==> ret == code && out == Some(res.value[..code]))
    && (code > 0 && res.Some? && p.wantOut && p.expected != 0 && p.expected != code ==> ret == RESPONSE_ERR && out == None)
  }

  lemma OutcomeReturns(p: Setup)
    requires p.Lawful()
    ensures Returns(p, Outcome(p).0, Outcome(p).1)
  {
  }

  // ---- The invariant: both nonces in lockstep ------------------------------------------------

  function N(p: Setup, k: nat): seq<byte>
  {
    NonceAt(p.nonce, k)
  }

  /** Nonce number of the response header. */
  function Base(p: Setup): nat
  {
    if p.msg == [] then 1 else 2
  }

  function Header(p: Setup): seq<byte>
  {
    [p.clientId] + p.nonce + p.Seal(N(p, 0), HeaderPlain(p))
  }

  function Message(p: Setup): seq<byte>
  {
    if p.msg == [] then [] else p.Seal(N(p, 1), p.msg)
  }

  function ResHeader(p: Setup): seq<byte>
  {
    p.Seal(N(p, Base(p)), CodeBytes(Answer(p).0))
  }

  function ResBody(p: Setup): seq<byte>
    requires p.Lawful()
  {
    var (code, res) := Answer(p);
    if code > 0 then p.Seal(N(p, Base(p) + 1), res.value[..code]) else []
  }

  /** The ciphertext sealed under nonce i. */
  function Cipher(p: Setup, i: nat): seq<byte>
    requires p.Lawful()
  {
    if i == 0 then p.Seal(N(p, 0), HeaderPlain(p))
    else if i < Base(p) then Message(p)
    else if i == Base(p) then ResHeader(p)
    else ResBody(p)
  }

  function SentByClient(p: Setup, c: ClientPhase): seq<byte>
  {
    if c.CStart? then [] else if c.CHeaderSent? then Header(p) else Header(p) + Message(p)
  }

  function TakenByServer(p: Setup, s: ServerPhase): seq<byte>
  {
    if s.SIdle? then [] else if s.SGotHeader? then Header(p) else Header(p) + Message(p)
  }

  function SentByServer(p: Setup, s: ServerPhase): seq<byte>
    requires p.Lawful()
  {
    if s.SSendBody? then ResHeader(p) else if s.SDone? then ResHeader(p) + ResBody(p) else []
  }

  ghost predicate ClientOk(p: Setup, st: State)
    requires p.Lawful()
  {
    match st.c
    case CStart => st.cNonce == N(p, 0)
    case CHeaderSent => p.msg != [] && st.cNonce == N(p, 0)
    case CAwaitHeader => st.cNonce == N(p, Base(p) - 1)
    case CAwaitBody(len) =>
      && p.wantOut && len == Answer(p).0 > 0 && (p.expected == 0 || len == p.expected)
      && st.cNonce == N(p, Base(p))
    case CDone(ret, out) => (ret, out) == Outcome(p)
  }

  ghost predicate ServerOk(p: Setup, st: State)
    requires p.Lawful()
  {
    match st.s
    case SIdle => true
    case SGotHeader(op, len) => op == p.op && len == |p.msg| && st.sNonce == N(p, 0)
    case SGotMessage(op, m) => p.msg != [] && op == p.op && m == p.msg && st.sNonce == N(p, 1)
    case SHandled(code, res) => (code, res) == Answer(p) && st.sNonce == N(p, Base(p) - 1)
    case SSendBody(code, body) => code == Answer(p).0 > 0 && body == Answer(p).1.value[..code] && st.sNonce == N(p, Base(p))
    case SDone => true
    case SFailed => false
  }

  /** How many ciphertexts have been sealed. */
  function Count(p: Setup, st: State): nat
    requires p.Lawful()
  {
    if st.s.SDone? then Base(p) + (if Answer(p).0 > 0 then 2 else 1)
    else if st.s.SSendBody? then Base(p) + 1
    else if st.c.CStart? then 0 else if st.c.CHeaderSent? then 1 else Base(p)
  }

  /** The streams: what was taken and what is in flight is what was sent; the
      client's share of the response is taken in order. */
  ghost predicate StreamsOk(p: Setup, st: State)
    requires p.Lawful()
  {
    && TakenByServer(p, st.s) + st.toServer == SentByClient(p, st.c)
    && (match st.c
        case CAwaitBody(_) => ResHeader(p) + st.toClient == SentByServer(p, st.s)
        case CDone(_, _) => true
        case _ => st.toClient == SentByServer(p, st.s))
    && (st.c.CAwaitBody? || st.c.CDone? ==> st.s.SSendBody? || st.s.SDone?)
    && (!st.s.SIdle? ==> !st.c.CStart?)
    && (!st.s.SIdle? && !st.s.SGotHeader? ==> !st.c.CHeaderSent?)
  }

  /** Sealing goes through the exchange's nonces in order; everything opened was
      sealed under that very nonce. */
  ghost predicate RecordOk(p: Setup, st: State)
    requires p.Lawful()
  {
    && |st.seals| == Count(p, st)
    && (forall i :: 0 <= i < |st.seals| ==> st.seals[i] == (N(p, i), Cipher(p, i)))
    && (forall e :: e in st.opens ==> e in st.seals)
  }

  ghost predicate Inv(p: Setup, st: State)
    requires p.Lawful()
  {
    ClientOk(p, st) && ServerOk(p, st) && StreamsOk(p, st) && RecordOk(p, st)
  }

  lemma InitOk(p: Setup)
    requires p.Lawful()
    ensures Inv(p, Init(p))
  {
  }

  lemma AnswerShape(p: Setup)
    requires p.Lawful()
    ensures Answer(p).0 > 0 ==> Answer(p).1.Some? && |Answer(p).1.value| >= Answer(p).0
  {
  }

  lemma {:induction false} HeaderParts(p: Setup, rest: seq<byte>)
    requires p.Lawful()
    ensures var s := Header(p) + rest; var ct := p.Seal(p.nonce, HeaderPlain(p));
      && |Header(p)| == HDR_LEN && s[1..1 + AEAD_NPUB] == p.nonce && s[1 + AEAD_NPUB..HDR_LEN] == ct && s[HDR_LEN..] == rest
      && p.Open(p.nonce, ct) == Some(HeaderPlain(p))
      && |HeaderPlain(p)| == 8 && FromLe(HeaderPlain(p)[..4]) == p.op && FromLe(HeaderPlain(p)[4..]) == |p.msg|
  {
    var plain := HeaderPlain(p);
    assert plain[..4] == ToLe(p.op, 4) && plain[4..] == ToLe(|p.msg|, 4);
    Ranges();
    LeRoundTrip(p.op, 4);
    LeRoundTrip(|p.msg|, 4);
  }

  /** The request on the wire: who sends it, the nonce, and under it and its successor
      operation, length and message. */
  lemma {:induction false} RequestOctets(p: Setup)
    requires p.Lawful()
    ensures var s := Header(p) + Message(p);
      && |s| == 73 + (if p.msg == [] then 0 else |p.msg| + 32)
      && s[0] == p.clientId && s[1..33] == p.nonce
      && s[33..73] == p.aead.seal(p.key, p.nonce, ToLe(p.op, 4) + ToLe(|p.msg|, 4))
      && (p.msg != [] ==> s[73..] == p.aead.seal(p.key, Inc(p.nonce), p.msg))
  {
    HeaderParts(p, Message(p));
    assert N(p, 0) == p.nonce && N(p, 1) == Inc(p.nonce);
  }

  lemma {:induction false} ClientSendKeepsInv(p: Setup, st: State, m: Move)
    requires p.Lawful() && Inv(p, st) && Enabled(p, st, m)
    requires m.ClientSendHeader? || m.ClientSendMessage?
    ensures Inv(p, Next(p, st, m))
  {
    AnswerShape(p);
    assert Header(p) + [] == Header(p);
  }

  lemma {:induction false} ClientGetHeaderKeepsInv(p: Setup, st: State)
    requires p.Lawful() && Inv(p, st) && Enabled(p, st, ClientGetHeader)
    ensures Inv(p, Next(p, st, ClientGetHeader))
  {
    AnswerShape(p);
    CodeRoundTrip(Answer(p).0);
    assert st.toClient[..RES_HDR_LEN] == ResHeader(p) && Inc(st.cNonce) == N(p, Base(p));
    assert p.Open(N(p, Base(p)), ResHeader(p)) == Some(CodeBytes(Answer(p).0));
    assert st.seals[Base(p)] == (N(p, Base(p)), ResHeader(p));
    if st.s.SSendBody? { assert ResHeader(p) + st.toClient[RES_HDR_LEN..] == ResHeader(p); }
    else { assert ResHeader(p) + st.toClient[RES_HDR_LEN..] == ResHeader(p) + ResBody(p); }
  }

  lemma {:induction false} CancelLeft(a: seq<byte>, x: seq<byte>, y: seq<byte>)
    requires a + x == a + y || (y == [] && a + x == a)
    ensures x == y
  {
    assert x == (a + x)[|a|..];
    assert y == (a + y)[|a|..];
  }

  lemma {:induction false} ClientGetBodyKeepsInv(p: Setup, st: State)
    requires p.Lawful() && Inv(p, st) && Enabled(p, st, ClientGetBody)
    ensures Inv(p, Next(p, st, ClientGetBody))
  {
    AnswerShape(p);
    assert st.s.SDone?;
    CancelLeft(ResHeader(p), st.toClient, ResBody(p));
    assert st.toClient == ResBody(p) && Inc(st.cNonce) == N(p, Base(p) + 1);
    assert st.toClient[..st.c.len + AEAD_TAG] == ResBody(p);
    assert st.seals[Base(p) + 1] == (N(p, Base(p) + 1), ResBody(p));
  }

  lemma {:induction false} ServerGetHeaderKeepsInv(p: Setup, st: State)
    requires p.Lawful() && Inv(p, st) && Enabled(p, st, ServerGetHeader)
    ensures Inv(p, Next(p, st, ServerGetHeader))
  {
    var rest := if st.c.CHeaderSent? then [] else Message(p);
    HeaderParts(p, rest);
    assert st.toServer == Header(p) + rest;
    assert Header(p) + rest == SentByClient(p, st.c);
    assert st.seals[0] == (N(p, 0), p.Seal(N(p, 0), HeaderPlain(p)));
  }

  lemma {:induction false} ServerGetMessageKeepsInv(p: Setup, st: State)
    requires p.Lawful() && Inv(p, st) && Enabled(p, st, ServerGetMessage)
    ensures Inv(p, Next(p, st, ServerGetMessage))
  {
    CancelLeft(Header(p), st.toServer, if st.c.CHeaderSent? then [] else Message(p));
    assert st.toServer == Message(p) && Inc(st.sNonce) == N(p, 1);
    assert st.toServer[..st.s.len + AEAD_TAG] == Message(p);
    assert st.seals[1] == (N(p, 1), Message(p));
    assert Header(p) + Message(p) + [] == Header(p) + Message(p);
  }

  lemma {:induction false} ServerHandleKeepsInv(p: Setup, st: State)
    requires p.Lawful() && Inv(p, st) && Enabled(p, st, ServerHandle)
    ensures Inv(p, Next(p, st, ServerHandle))
  {
    assert Header(p) + [] == Header(p);
  }

  lemma {:induction false} ServerSendHeaderKeepsInv(p: Setup, st: State)
    requires p.Lawful() && Inv(p, st) && Enabled(p, st, ServerSendHeader)
    ensures Inv(p, Next(p, st, ServerSendHeader))
  {
    AnswerShape(p);
    assert ResHeader(p) + [] == ResHeader(p);
    assert N(p, Base(p)) == Inc(N(p, Base(p) - 1));
  }

  lemma {:induction false} ServerSendBodyKeepsInv(p: Setup, st: State)
    requires p.Lawful() && Inv(p, st) && Enabled(p, st, ServerSendBody)
    ensures Inv(p, Next(p, st, ServerSendBody))
  {
    assert N(p, Base(p) + 1) == Inc(N(p, Base(p)));
    var st' := Next(p, st, ServerSendBody);
    if st.c.CAwaitHeader? { assert st'.toClient == ResHeader(p) + ResBody(p); }
    if st.c.CAwaitBody? { assert ResHeader(p) + st'.toClient == ResHeader(p) + ResBody(p); }
  }

  lemma {:induction false} MoveKeepsInv(p: Setup, st: State, m: Move)
    requires p.Lawful() && Inv(p, st) && Enabled(p, st, m)
    ensures Inv(p, Next(p, st, m))
  {
    hide Inv, Next;
    match m
    case ServerGetHeader => ServerGetHeaderKeepsInv(p, st);
    case ServerGetMessage => ServerGetMessageKeepsInv(p, st);
    case ClientGetHeader => ClientGetHeaderKeepsInv(p, st);
    case ClientGetBody => ClientGetBodyKeepsInv(p, st);
    case ClientSendHeader => ClientSendKeepsInv(p, st, m);
    case ClientSendMessage => ClientSendKeepsInv(p, st, m);
    case ServerHandle => ServerHandleKeepsInv(p, st);
    case ServerSendHeader => ServerSendHeaderKeepsInv(p, st);
    case ServerSendBody => ServerSendBodyKeepsInv(p, st);
  }

  // ---- Whole exchanges -----------------------------------------------------------------------

  /** A run: any interleaving of moves that are possible when they are made. */
  ghost predicate Possible(p: Setup, st: State, moves: seq<Move>)
    requires p.Lawful()
    decreases |moves|
  {
    moves == [] || (Enabled(p, st, moves[0]) && Possible(p, Next(p, st, moves[0]), moves[1..]))
  }

  ghost function Reach(p: Setup, st: State, moves: seq<Move>): State
    requires p.Lawful() && Possible(p, st, moves)
    decreases |moves|
  {
    if moves == [] then st else Reach(p, Next(p, st, moves[0]), moves[1..])
  }

  lemma {:induction false} RunKeepsInv(p: Setup, st: State, moves: seq<Move>)
    requires p.Lawful() && Inv(p, st) && Possible(p, st, moves)
    ensures Inv(p, Reach(p, st, moves))
    decreases |moves|
  {
    hide Inv, Next, Enabled;
    if moves != [] {
      MoveKeepsInv(p, st, moves[0]);
      RunKeepsInv(p, Next(p, st, moves[0]), moves[1..]);
    }
  }

  /** In every interleaving: everything opened was sealed under the nonce it was
      opened with, no two ciphertexts share a nonce, the server never fails, what
      the handler is given is the client's request, and what the client returns is
      the handler's code and octets. */
  lemma {:induction false} Lockstep(p: Setup, moves: seq<Move>)
    requires p.Lawful() && Possible(p, Init(p), moves)
    ensures var st := Reach(p, Init(p), moves);
      && (forall e :: e in st.opens ==> e in st.seals)
      && (forall i, j :: 0 <= i < j < |st.seals| ==> st.seals[i].0 != st.seals[j].0)
      && !st.s.SFailed?
      && (st.s.SGotMessage? ==> st.s.m == p.msg && st.s.op == p.op)
      && (st.s.SHandled? ==>
            var r := p.handler(p.op, if p.msg == [] then None else Some(p.msg));
            (st.s.code, st.s.res) == if r.0 > 0 && r.1.None? then (RESPONSE_ERR, None) else r)
      && (st.c.CDone? ==> Returns(p, st.c.ret, st.c.out))
  {
    OutcomeReturns(p);
    InitOk(p);
    RunKeepsInv(p, Init(p), moves);
    var st := Reach(p, Init(p), moves);
    forall i, j | 0 <= i < j < |st.seals| ensures st.seals[i].0 != st.seals[j].0 {
      NoncesDiffer(p.nonce, i, j);
    }
  }

  function ClientRank(c: ClientPhase): nat
  {
    match c
    case CStart => 0
    case CHeaderSent => 1
    case CAwaitHeader => 2
    case CAwaitBody(_) => 3
    case CDone(_, _) => 4
  }

  function ServerRank(s: ServerPhase): nat
  {
    match s
    case SIdle => 0
    case SGotHeader(_, _) => 1
    case SGotMessage(_, _) => 2
    case SHandled(_, _) => 3
    case SSendBody(_, _) => 4
    case SDone => 5
    case SFailed => 6
  }

  /** Every move advances one side, so no exchange takes more than nine moves. */
  lemma {:induction false} MovesAdvance(p: Setup, st: State, m: Move)
    requires p.Lawful() && Inv(p, st) && Enabled(p, st, m)
    ensures ClientRank(Next(p, st, m).c) + ServerRank(Next(p, st, m).s) > ClientRank(st.c) + ServerRank(st.s)
    ensures ClientRank(Next(p, st, m).c) + ServerRank(Next(p, st, m).s) <= 9
  {
    hide Next;
    MoveKeepsInv(p, st, m);
    NextRanks(p, st, m);
  }

  lemma NextRanks(p: Setup, st: State, m: Move)
    requires p.Lawful() && Enabled(p, st, m)
    ensures ClientRank(Next(p, st, m).c) + ServerRank(Next(p, st, m).s) > ClientRank(st.c) + ServerRank(st.s)
  {
  }

  /** And neither side ever waits for nothing: until the client has its result,
      some move is possible. */
  lemma {:induction false} NeverStuck(p: Setup, st: State)
    requires p.Lawful() && Inv(p, st) && !st.c.CDone?
    ensures exists m :: Enabled(p, st, m)
  {
    AnswerShape(p);
    HeaderParts(p, []);
    var m := match st.s
      case SIdle => if st.c.CStart? then ClientSendHeader else ServerGetHeader
      case SGotHeader(_, len) => if len == 0 then ServerHandle else if st.c.CHeaderSent? then ClientSendMessage else ServerGetMessage
      case SGotMessage(_, _) => ServerHandle
      case SHandled(_, _) => ServerSendHeader
      case SSendBody(_, _) => ServerSendBody
      case SDone => if st.c.CAwaitHeader? then ClientGetHeader else ClientGetBody
      case SFailed => ServerHandle;
    assert Enabled(p, st, m);
  }
}
