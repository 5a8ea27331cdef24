/** Messages, their signatures and the envelopes they are sealed in
    (Common/Message.c, Common/Signature.c, Common/Envelope.c). */
module Envelope {
  import opened Bytes
  import opened Crypto

  const BLOCK := 32
  const MIN_BLOCKS := 3
  const EVP_MAX := 2097216
  const OVERHEAD := 33
  const MSG_MAX := EVP_MAX - OVERHEAD
  const HDR := 32
  const TS_BEGIN := 1735689600

  // ---- Message header ------------------------------------------------------

  /** The stored 32-bit time: seconds since TS_BEGIN, the clock standing in
      for any earlier time, and 1 for anything that does not fit. */
  function Ts32(ts: u64, now: u64): u32
  {
    var t := ((if ts < TS_BEGIN then now else ts) - TS_BEGIN) % 0x1_0000_0000_0000_0000;
    if t >= 0x1_0000_0000 then 1 else t
  }

  function Header(kind: int, ts: u64, now: u64): (h: seq<byte>)
    ensures |h| == HDR
  {
    seq(27, _ => 0) + [kind % 4] + ToLe(Ts32(ts, now), 4)
  }

  method MsgInit(msg: array<byte>, kind: int, ts: u64, now: u64)
    requires msg.Length >= HDR
    modifies msg
    ensures msg[..] == Header(kind, ts, now) + old(msg[HDR..])
  {
    hide ToLe;
    ghost var tail := msg[HDR..];
    forall i | 0 <= i < HDR - 4 { msg[i] := 0; }
    msg[HDR - 4 - 1] := kind % 4;

    var t: u64 := ts;
    if t < TS_BEGIN { t := now; }
    t := (t - TS_BEGIN) % 0x1_0000_0000_0000_0000;
    var le := ToLe(if t >= 0x1_0000_0000 then 1 else t, 4);
    msg[28], msg[29], msg[30], msg[31] := le[0], le[1], le[2], le[3];
    assert msg[..28] == seq(27, _ => 0) + [kind % 4];
    assert msg[28..32] == le;
    assert msg[32..] == tail;
    assert msg[..] == msg[..28] + msg[28..32] + msg[32..];
  }

  /** The header octet by octet: no signature yet, two type bits, and the seconds since
      the start of 2025 where these fit 32 bits. */
  lemma {:induction false} HeaderFields(kind: int, ts: u64, now: u64)
    ensures var h := Header(kind, ts, now);
      && (forall k :: 0 <= k < 27 ==> h[k] == 0) && h[27] == kind % 4
      && (1735689600 <= ts < 6030656896 ==> FromLe(h[28..32]) == ts - 1735689600)
      && (ts < 1735689600 <= now < 6030656896 ==> FromLe(h[28..32]) == now - 1735689600)
      && (ts >= 6030656896 || (ts < 1735689600 && !(1735689600 <= now < 6030656896)) ==> FromLe(h[28..32]) == 1)
  {
    var h := Header(kind, ts, now);
    assert h[28..32] == ToLe(Ts32(ts, now), 4);
    Ranges();
    LeRoundTrip(Ts32(ts, now), 4);
  }

  // ---- Signature -----------------------------------------------------------

  function UserHash(p: Primitives, usk: seq<byte>, covered: seq<byte>): seq<byte>
  {
    p.generichash(HASH_U_LEN, covered, usk)
  }

  function ServerHash(p: Primitives, ssk: seq<byte>, uHash: seq<byte>): seq<byte>
  {
    p.generichash(HASH_S_LEN, uHash, ssk)
  }

  /** The message with its 222-bit signature: 27 octets and the upper six bits
      of the 28th, whose two type bits stay. */
  function Signed(p: Primitives, ssk: seq<byte>, usk: seq<byte>, msg: seq<byte>): (r: seq<byte>)
    requires p.Lawful()
    ensures |r| == |msg|
  {
    if |msg| <= HDR then msg else
    var s := ServerHash(p, ssk, UserHash(p, usk, msg[27..]));
    s[..27] + [s[27] / 4 * 4 + msg[27] % 4] + msg[28..]
  }

  method SignMessage(p: Primitives, ssk: seq<byte>, usk: seq<byte>, msg: array<byte>)
    requires p.Lawful()
    modifies msg
    ensures msg[..] == Signed(p, ssk, usk, old(msg[..]))
  {
    if msg.Length <= HDR { return; }
    ghost var was := msg[..];
    var uHash := p.generichash(HASH_U_LEN, msg[27..], usk);
    var sHash := p.generichash(HASH_S_LEN, uHash, ssk);
    assert msg[27..] == was[27..];
    for i := 0 to 27
      invariant msg[..i] == sHash[..i]
      invariant msg[i..] == was[i..]
    {
      msg[i] := sHash[i];
    }
    msg[27] := sHash[27] / 4 * 4 + msg[27] % 4;
    assert msg[..] == msg[..27] + [msg[27]] + msg[28..];
  }

  /** aem_sig_verify: the server hash, type bits cleared, against the test value. */
  predicate SigVerify(p: Primitives, ssk: seq<byte>, uHash: seq<byte>, test: seq<byte>)
    requires p.Lawful()
    requires |test| == HASH_S_LEN
  {
    var expected := ServerHash(p, ssk, uHash);
    expected[..27] + [expected[27] / 4 * 4] == test
  }

  /** What a recipient extracts from a signed message: the signature bits ... */
  function SignatureOf(msg: seq<byte>): (s: seq<byte>)
    requires |msg| > HDR
    ensures |s| == HASH_S_LEN
  {
    msg[..27] + [msg[27] / 4 * 4]
  }

  /** ... and the octets they cover, signature bits zeroed. */
  function CoveredOf(msg: seq<byte>): seq<byte>
    requires |msg| > HDR
  {
    [msg[27] % 4] + msg[28..]
  }

  /** The two keyed hashes, one inside the other: what they cover, where they go, and
      what the server compares. */
  lemma {:induction false} SignatureOctets(p: Primitives, ssk: seq<byte>, usk: seq<byte>, msg: seq<byte>,
                                           uHash: seq<byte>, test: seq<byte>)
    requires p.Lawful() && |msg| > 32 && |test| == 28
    ensures var s := Signed(p, ssk, usk, msg); var h := p.generichash(28, p.generichash(56, msg[27..], usk), ssk);
      && s[..27] == h[..27] && s[27] / 4 == h[27] / 4 && s[27] % 4 == msg[27] % 4 && s[28..] == msg[28..]
    ensures var h := p.generichash(28, uHash, ssk);
      SigVerify(p, ssk, uHash, test) <==> test[..27] == h[..27] && test[27] == h[27] - h[27] % 4
  {
    var h := p.generichash(28, uHash, ssk);
    if SigVerify(p, ssk, uHash, test) {
      assert (h[..27] + [h[27] / 4 * 4])[..27] == h[..27];
    } else if test[27] == h[27] / 4 * 4 {
      assert test == test[..27] + [test[27]];
    }
  }

  /** Signing keeps type, time and content, and the server accepts the
      signature of every message whose signature bits were still zero. */
  lemma {:induction false} SignedVerifies(p: Primitives, ssk: seq<byte>, usk: seq<byte>, msg: seq<byte>)
    requires p.Lawful()
    requires |msg| > HDR && msg[27] < 4
    ensures var s := Signed(p, ssk, usk, msg);
            && CoveredOf(s) == msg[27..]
            && SigVerify(p, ssk, UserHash(p, usk, CoveredOf(s)), SignatureOf(s))
  {
    var s := Signed(p, ssk, usk, msg);
    assert CoveredOf(s) == msg[27..];
    var h := ServerHash(p, ssk, UserHash(p, usk, msg[27..]));
    assert s[..27] == h[..27] && s[27] / 4 * 4 == h[27] / 4 * 4;
  }

  // ---- Envelope identity and size ------------------------------------------

  function XorAll(s: seq<byte>): byte
  {
    if s == [] then 0 else Xor(XorAll(s[..|s| - 1]), s[|s| - 1])
  }

  /** Two octets, each the XOR of half of the first 32 octets. */
  function EnvelopeId(src: seq<byte>): u16
    requires |src| >= 32
  {
    XorAll(src[..16]) + 256 * XorAll(src[16..32])
  }

  /** How many octets of s have bit i set. */
  function CountBit(s: seq<byte>, i: nat): nat
  {
    if s == [] then 0 else CountBit(s[..|s| - 1], i) + Bit(s[|s| - 1], i)
  }

  lemma {:induction false} XorAllBit(s: seq<byte>, i: nat)
    requires i < 8
    ensures Bit(XorAll(s), i) == CountBit(s, i) % 2
  {
    hide XorBits, Bit;
    if s == [] {
      NoBitAbove(0, 0, i);
    } else {
      var t := s[..|s| - 1];
      XorAllBit(t, i);
      XorBitAt(XorAll(t), s[|s| - 1], 8, i);
    }
  }

  /** The ID bit by bit: the parity of that bit over one half of the 32 octets. */
  lemma {:induction false} EnvelopeIdBits(src: seq<byte>, i: nat)
    requires |src| >= 32 && i < 8
    ensures Bit(EnvelopeId(src) % 256, i) == CountBit(src[..16], i) % 2
    ensures Bit(EnvelopeId(src) / 256, i) == CountBit(src[16..32], i) % 2
  {
    hide XorAll, CountBit, Bit;
    XorAllBit(src[..16], i);
    XorAllBit(src[16..32], i);
    var lo, hi := XorAll(src[..16]), XorAll(src[16..32]);
    assert EnvelopeId(src) % 256 == lo && EnvelopeId(src) / 256 == hi;
  }

  lemma {:induction false} EnvelopeIdPrefix(a: seq<byte>, b: seq<byte>)
    requires |a| >= 32 && |b| >= 32 && a[..32] == b[..32]
    ensures EnvelopeId(a) == EnvelopeId(b)
  {
    assert a[..16] == a[..32][..16] && b[..16] == b[..32][..16];
    assert a[16..32] == a[..32][16..32] && b[16..32] == b[..32][16..32];
  }

  function Padding(lenMsg: nat): (r: nat)
    ensures r < BLOCK && (OVERHEAD + lenMsg + r) % BLOCK == 0
  {
    if (OVERHEAD + lenMsg) % BLOCK == 0 then 0 else BLOCK - (OVERHEAD + lenMsg) % BLOCK
  }

  /** The 16-bit block count; a cast in the source, so taken modulo 2^16. */
  function BlockCount(lenEvp: nat): u16
  {
    (lenEvp / BLOCK - MIN_BLOCKS) % 0x1_0000
  }

  function Size(bc: u16): (r: nat)
    ensures MIN_BLOCKS * BLOCK <= r <= EVP_MAX
  {
    (bc + MIN_BLOCKS) * BLOCK
  }

  lemma EnvelopeFits(lenMsg: nat)
    requires HDR < lenMsg <= MSG_MAX
    ensures MIN_BLOCKS * BLOCK <= OVERHEAD + lenMsg + Padding(lenMsg) <= EVP_MAX
  {
  }

  /** The cast loses nothing: the bound on messages makes the block count fit,
      and the largest message reaches exactly the largest count. */
  lemma BlockCountExact(lenMsg: nat)
    requires HDR < lenMsg <= MSG_MAX
    ensures var n := OVERHEAD + lenMsg + Padding(lenMsg);
            n == Size(BlockCount(n)) && (lenMsg > MSG_MAX - BLOCK <==> BlockCount(n) == 0xFFFF)
  {
  }

  // ---- Sealing ---------------------------------------------------------------

  /** The unused-ID test; with no list supplied, only ID 0 will do. */
  predicate Acceptable(pk: seq<byte>, used: Option<seq<u16>>)
    requires |pk| >= 32
  {
    if used.Some? then EnvelopeId(pk) !in used.value else EnvelopeId(pk) == 0
  }

  /** The first random secret key that passes, from a stream of draws. */
  function PickKey(p: Primitives, used: Option<seq<u16>>, draws: seq<seq<byte>>): (r: Option<seq<byte>>)
    requires p.Lawful()
    ensures r.Some? ==> Acceptable(p.scalarmultBase(r.value), used)
  {
    if draws == [] then None
    else if Acceptable(p.scalarmultBase(draws[0]), used) then Some(draws[0])
    else PickKey(p, used, draws[1..])
  }

  /** Draw k is the first whose ID will do. */
  ghost predicate FirstUsable(p: Primitives, used: Option<seq<u16>>, draws: seq<seq<byte>>, k: nat)
    requires p.Lawful()
  {
    && k < |draws| && Usable(p, used, draws[k])
    && forall j :: 0 <= j < k ==> !Usable(p, used, draws[j])
  }

  /** The ID a key would give the envelope is not in the list; with no list, it is 0. */
  ghost predicate Usable(p: Primitives, used: Option<seq<u16>>, sk: seq<byte>)
    requires p.Lawful()
  {
    var id := EnvelopeId(p.scalarmultBase(sk));
    if used.Some? then forall i :: 0 <= i < |used.value| ==> used.value[i] != id else id == 0
  }

  lemma {:induction false} UsableIs(p: Primitives, used: Option<seq<u16>>, sk: seq<byte>)
    requires p.Lawful()
    ensures Acceptable(p.scalarmultBase(sk), used) <==> Usable(p, used, sk)
  {
    if used.Some? && !Acceptable(p.scalarmultBase(sk), used) {
      var i :| 0 <= i < |used.value| && used.value[i] == EnvelopeId(p.scalarmultBase(sk));
    }
  }

  /** The first draw that will do is picked, and nothing exactly if none will. */
  lemma {:induction false} PickKeyIsFirst(p: Primitives, used: Option<seq<u16>>, draws: seq<seq<byte>>)
    requires p.Lawful()
    ensures PickKey(p, used, draws).None? <==> forall k :: 0 <= k < |draws| ==> !Usable(p, used, draws[k])
    ensures PickKey(p, used, draws).Some? ==> exists k: nat :: FirstUsable(p, used, draws, k) && draws[k] == PickKey(p, used, draws).value
  {
    hide Usable, Acceptable;
    if draws != [] {
      UsableIs(p, used, draws[0]);
      PickKeyIsFirst(p, used, draws[1..]);
      if Usable(p, used, draws[0]) {
        assert FirstUsable(p, used, draws, 0);
      } else if PickKey(p, used, draws[1..]).Some? {
        var k: nat :| FirstUsable(p, used, draws[1..], k) && draws[1..][k] == PickKey(p, used, draws).value;
        assert draws[k + 1] == draws[1..][k];
        assert FirstUsable(p, used, draws, k + 1);
      } else {
        assert forall k :: 1 <= k < |draws| ==> draws[k] == draws[1..][k - 1];
      }
    }
  }

  function XorSeq(a: seq<byte>, k: seq<byte>): (r: seq<byte>)
    requires |a| == |k|
    ensures |r| == |a|
  {
    seq(|a|, i requires 0 <= i < |a| => Xor(a[i], k[i]))
  }

  /** The key stream both sides derive from the shared secret, the recipient's
      public key and the block count. */
  function KeyStream(p: Primitives, shared: seq<byte>, epk: seq<byte>, bc: u16, n: nat): (r: seq<byte>)
    requires p.Lawful()
    ensures |r| == n
  {
    var nck := p.generichash(NCK_LEN, shared + epk + ToLe(bc, 2), []);
    p.chacha20(nck[..NONCE_LEN], FromLe(nck[NONCE_LEN..NONCE_LEN + 2]) * 0x1_0000, nck[NONCE_LEN + 2..], n)
  }

  /** The result of sealing: no envelope, an envelope, or - where the source
      would still be drawing keys - no result yet. */
  datatype Sealing = Refused | Evp(bytes: seq<byte>) | Drawing

  function Plain(msg: seq<byte>, rnd: seq<byte>): seq<byte>
    requires |rnd| >= BLOCK
  {
    [Padding(|msg|)] + msg + rnd[..Padding(|msg|)]
  }

  function SealWith(p: Primitives, msg: seq<byte>, epk: seq<byte>, sk: seq<byte>, rnd: seq<byte>): (r: Sealing)
    requires p.Lawful()
    requires |rnd| >= BLOCK
    ensures r.Evp? ==> |r.bytes| == OVERHEAD + |msg| + Padding(|msg|)
  {
    match p.scalarmult(sk, epk)
    case None => Refused
    case Some(shared) =>
      var plain := Plain(msg, rnd);
      var bc := BlockCount(KEY_LEN + |plain|);
      Evp(p.scalarmultBase(sk) + XorSeq(plain, KeyStream(p, shared, epk, bc, |plain|)))
  }

  function Seal(p: Primitives, msg: seq<byte>, epk: seq<byte>, used: Option<seq<u16>>,
                draws: seq<seq<byte>>, rnd: seq<byte>): (r: Sealing)
    requires p.Lawful()
    requires |rnd| >= BLOCK
    ensures r.Evp? ==> MIN_BLOCKS * BLOCK <= |r.bytes| <= EVP_MAX
  {
    if |msg| <= HDR || |msg| > MSG_MAX then Refused else
    EnvelopeFits(|msg|);
    match PickKey(p, used, draws)
    case None => Drawing
    case Some(sk) => SealWith(p, msg, epk, sk, rnd)
  }

  /** When a message is sealed, refused, or still waiting for a key: by sizes, by the
      first draw that will do, and by whether key agreement works with it. */
  lemma {:induction false} SealOutcome(p: Primitives, msg: seq<byte>, epk: seq<byte>, used: Option<seq<u16>>,
                                       draws: seq<seq<byte>>, rnd: seq<byte>)
    requires p.Lawful() && |rnd| >= BLOCK
    ensures var r := Seal(p, msg, epk, used, draws, rnd); var fits := 32 < |msg| <= 2097183;
      && (r.Evp? <==> fits && exists k: nat :: FirstUsable(p, used, draws, k) && p.scalarmult(draws[k], epk).Some?)
      && (r.Drawing? <==> fits && forall k :: 0 <= k < |draws| ==> !Usable(p, used, draws[k]))
  {
    hide Usable, Acceptable, PickKey, SealWith;
    PickKeyIsFirst(p, used, draws);
    var r := PickKey(p, used, draws);
    if r.Some? {
      SealWithOutcome(p, msg, epk, r.value, rnd);
      var k: nat :| FirstUsable(p, used, draws, k) && draws[k] == r.value;
      assert forall j: nat :: FirstUsable(p, used, draws, j) ==> j == k;
    }
  }

  lemma SealWithOutcome(p: Primitives, msg: seq<byte>, epk: seq<byte>, sk: seq<byte>, rnd: seq<byte>)
    requires p.Lawful() && |rnd| >= BLOCK
    ensures var r := SealWith(p, msg, epk, sk, rnd); !r.Drawing? && (r.Evp? <==> p.scalarmult(sk, epk).Some?)
  {
  }

  /** An envelope octet by octet: the public key; then padding amount, message and
      padding, each XORed with ChaCha20 under a nonce, counter and key hashed from the
      shared secret, the recipient's key and the block count. */
  ghost predicate SealedAs(p: Primitives, epk: seq<byte>, sk: seq<byte>, msg: seq<byte>, rnd: seq<byte>, evp: seq<byte>)
    requires p.Lawful()
  {
    && |evp| % 32 == 0 && 0 <= |evp| / 32 - 3 < 0x1_0000
    && 0 <= |evp| - |msg| - 33 < 32 <= |rnd|
    && p.scalarmult(sk, epk).Some?
    && var h := p.generichash(46, p.scalarmult(sk, epk).value + epk + ToLe(|evp| / 32 - 3, 2), []);
       var ks := p.chacha20(h[..12], 0x1_0000 * FromLe(h[12..14]), h[14..46], |evp| - 32);
       && evp[..32] == p.scalarmultBase(sk)
       && evp[32] == Xor(|evp| - |msg| - 33, ks[0])
       && (forall i :: 0 <= i < |msg| ==> evp[33 + i] == Xor(msg[i], ks[1 + i]))
       && (forall i :: 0 <= i < |evp| - |msg| - 33 ==> evp[33 + |msg| + i] == Xor(rnd[i], ks[1 + |msg| + i]))
  }

  lemma {:induction false} SealWithOctets(p: Primitives, msg: seq<byte>, epk: seq<byte>, sk: seq<byte>, rnd: seq<byte>)
    requires p.Lawful() && |rnd| >= BLOCK && HDR < |msg| <= MSG_MAX && p.scalarmult(sk, epk).Some?
    ensures SealWith(p, msg, epk, sk, rnd).Evp? && SealedAs(p, epk, sk, msg, rnd, SealWith(p, msg, epk, sk, rnd).bytes)
  {
    hide Xor, XorSeq, Plain, ToLe, FromLe, EnvelopeId;
    BlockCountExact(|msg|);
    PlainOctets(msg, rnd);
    var evp, plain := SealWith(p, msg, epk, sk, rnd).bytes, Plain(msg, rnd);
    var h := p.generichash(46, p.scalarmult(sk, epk).value + epk + ToLe(|evp| / 32 - 3, 2), []);
    var ks := p.chacha20(h[..12], 0x1_0000 * FromLe(h[12..14]), h[14..46], |evp| - 32);
    assert h[14..46] == h[14..];
    assert ks == KeyStream(p, p.scalarmult(sk, epk).value, epk, BlockCount(|evp|), |plain|);
    EncryptedOctets(p.scalarmultBase(sk), plain, ks);
  }

  lemma {:induction false} PlainOctets(msg: seq<byte>, rnd: seq<byte>)
    requires |rnd| >= BLOCK
    ensures var plain, pad := Plain(msg, rnd), Padding(|msg|);
      && |plain| == 1 + |msg| + pad && plain[0] == pad
      && (forall i :: 0 <= i < |msg| ==> plain[1 + i] == msg[i])
      && (forall i :: 0 <= i < pad ==> plain[1 + |msg| + i] == rnd[i])
  {
  }

  lemma {:induction false} EncryptedOctets(pk: seq<byte>, plain: seq<byte>, ks: seq<byte>)
    requires |pk| == KEY_LEN && |plain| == |ks|
    ensures var evp := pk + XorSeq(plain, ks);
      evp[..32] == pk && forall i :: 0 <= i < |plain| ==> evp[32 + i] == Xor(plain[i], ks[i])
  {
    hide Xor;
    assert forall i :: 0 <= i < |plain| ==> (pk + XorSeq(plain, ks))[32 + i] == XorSeq(plain, ks)[i];
  }

  lemma {:induction false} SealedOctets(p: Primitives, msg: seq<byte>, epk: seq<byte>, used: Option<seq<u16>>,
                                        draws: seq<seq<byte>>, rnd: seq<byte>)
    requires p.Lawful() && |rnd| >= BLOCK && Seal(p, msg, epk, used, draws, rnd).Evp?
    ensures exists k: nat :: FirstUsable(p, used, draws, k) && SealedAs(p, epk, draws[k], msg, rnd, Seal(p, msg, epk, used, draws, rnd).bytes)
  {
    hide Usable, Acceptable, PickKey, SealedAs;
    PickKeyIsFirst(p, used, draws);
    var sk := PickKey(p, used, draws).value;
    var k: nat :| FirstUsable(p, used, draws, k) && draws[k] == sk;
    SealWithOctets(p, msg, epk, sk, rnd);
  }

  method UsedScan(used: seq<u16>, pk: seq<byte>) returns (found: bool)
    requires |pk| >= 32
    ensures found == (EnvelopeId(pk) in used)
  {
    found := false;
    for i := 0 to |used|
      invariant EnvelopeId(pk) !in used[..i]
    {
      if used[i] == EnvelopeId(pk) { return true; }
      assert used[..i + 1] == used[..i] + [used[i]];
    }
    assert used[..|used|] == used;
  }

  /** Draw secret keys until the envelope ID is right. */
  method DrawKey(p: Primitives, used: Option<seq<u16>>, draws: seq<seq<byte>>) returns (sk: Option<seq<byte>>)
    requires p.Lawful()
    ensures sk == PickKey(p, used, draws)
  {
    for k := 0 to |draws|
      invariant PickKey(p, used, draws) == PickKey(p, used, draws[k..])
    {
      var pk := p.scalarmultBase(draws[k]);
      var found;
      if used.Some? {
        var taken := UsedScan(used.value, pk);
        found := !taken;
      } else {
        found := EnvelopeId(pk) == 0;
      }
      if found { return Some(draws[k]); }
      assert draws[k..][1..] == draws[k + 1..];
    }
    sk := None;
  }

  /** Public key, padding amount, message and padding, as laid out before encryption. */
  method Layout(evp: array<byte>, pk: seq<byte>, msg: seq<byte>, rnd: seq<byte>)
    requires |pk| == KEY_LEN && |rnd| >= BLOCK
    requires evp.Length == OVERHEAD + |msg| + Padding(|msg|)
    modifies evp
    ensures evp[..KEY_LEN] == pk && evp[KEY_LEN..] == Plain(msg, rnd)
  {
    var lenPadding := evp.Length - OVERHEAD - |msg|;
    forall i | 0 <= i < KEY_LEN { evp[i] := pk[i]; }
    evp[KEY_LEN] := lenPadding;
    forall i | 0 <= i < |msg| { evp[OVERHEAD + i] := msg[i]; }
    forall i | 0 <= i < lenPadding { evp[OVERHEAD + |msg| + i] := rnd[i]; }
  }

  method EncryptInPlace(evp: array<byte>, ks: seq<byte>)
    requires evp.Length >= KEY_LEN && |ks| == evp.Length - KEY_LEN
    modifies evp
    ensures evp[..] == old(evp[..KEY_LEN]) + XorSeq(old(evp[KEY_LEN..]), ks)
  {
    hide Xor;
    for i := KEY_LEN to evp.Length
      invariant forall j :: 0 <= j < evp.Length ==>
        evp[j] == if KEY_LEN <= j < i then Xor(old(evp[j]), ks[j - KEY_LEN]) else old(evp[j])
    {
      evp[i] := Xor(evp[i], ks[i - KEY_LEN]);
    }
  }

  method SealInPlace(p: Primitives, msg: seq<byte>, epk: seq<byte>, sk: seq<byte>, rnd: seq<byte>,
                     lenEvp: nat) returns (r: Sealing)
    requires p.Lawful()
    requires |rnd| >= BLOCK
    requires lenEvp == OVERHEAD + |msg| + Padding(|msg|)
    ensures r == SealWith(p, msg, epk, sk, rnd)
  {
    hide KeyStream, XorSeq, EnvelopeId;
    var evp := new byte[lenEvp];
    var pk := p.scalarmultBase(sk);
    Layout(evp, pk, msg, rnd);
    var shared := p.scalarmult(sk, epk);
    if shared.None? { return Refused; }
    var ks := KeyStream(p, shared.value, epk, BlockCount(lenEvp), lenEvp - KEY_LEN);
    EncryptInPlace(evp, ks);
    r := Evp(evp[..]);
  }

  method Msg2Evp(p: Primitives, msg: seq<byte>, epk: seq<byte>, used: Option<seq<u16>>,
                 draws: seq<seq<byte>>, rnd: seq<byte>) returns (r: Sealing)
    requires p.Lawful()
    requires |rnd| >= BLOCK
    ensures r == Seal(p, msg, epk, used, draws, rnd)
  {
    if |msg| <= HDR || |msg| > MSG_MAX { return Refused; }
    var lenPadding := if (OVERHEAD + |msg|) % BLOCK == 0 then 0 else BLOCK - (OVERHEAD + |msg|) % BLOCK;
    var sk := DrawKey(p, used, draws);
    if sk.None? { return Drawing; }
    r := SealInPlace(p, msg, epk, sk.value, rnd, OVERHEAD + |msg| + lenPadding);
  }

  // ---- Opening -----------------------------------------------------------------

  /** The recipient's inverse, from the envelope and the secret key alone. */
  function Open(p: Primitives, esk: seq<byte>, evp: seq<byte>): Option<seq<byte>>
    requires p.Lawful()
  {
    if |evp| <= OVERHEAD then None else
    match p.scalarmult(esk, evp[..KEY_LEN])
    case None => None
    case Some(shared) =>
      var body := evp[KEY_LEN..];
      var plain := XorSeq(body, KeyStream(p, shared, p.scalarmultBase(esk), BlockCount(|evp|), |body|));
      if plain[0] >= |plain| then None else Some(plain[1..|plain| - plain[0]])
  }

  lemma {:induction false} XorSeqCancel(a: seq<byte>, k: seq<byte>)
    requires |a| == |k|
    ensures XorSeq(XorSeq(a, k), k) == a
  {
    forall i | 0 <= i < |a| ensures XorSeq(XorSeq(a, k), k)[i] == a[i] {
      XorCancel(a[i], k[i]);
    }
  }

  /** Every envelope: whole blocks, the exact length its 16-bit count stands
      for, and an ID that is free (or zero when no list was given). */
  lemma {:induction false} SealShape(p: Primitives, msg: seq<byte>, epk: seq<byte>, used: Option<seq<u16>>,
                  draws: seq<seq<byte>>, rnd: seq<byte>)
    requires p.Lawful()
    requires |rnd| >= BLOCK
    ensures Seal(p, msg, epk, used, draws, rnd).Evp? ==>
      var evp := Seal(p, msg, epk, used, draws, rnd).bytes;
      && HDR < |msg| <= MSG_MAX
      && |evp| == OVERHEAD + |msg| + Padding(|msg|) == Size(BlockCount(|evp|))
      && (used.Some? ==> EnvelopeId(evp) !in used.value)
      && (used.None? ==> EnvelopeId(evp) == 0)
  {
    var r := Seal(p, msg, epk, used, draws, rnd);
    if r.Evp? {
      BlockCountExact(|msg|);
      var pk := p.scalarmultBase(PickKey(p, used, draws).value);
      assert r.bytes[..32] == pk == pk[..32];
      EnvelopeIdPrefix(r.bytes, pk);
    }
  }

  /** The recipient gets back exactly the sealed message. */
  lemma {:induction false} OpenInvertsSeal(p: Primitives, msg: seq<byte>, esk: seq<byte>, used: Option<seq<u16>>,
                        draws: seq<seq<byte>>, rnd: seq<byte>)
    requires p.Lawful()
    requires |rnd| >= BLOCK
    requires Seal(p, msg, p.scalarmultBase(esk), used, draws, rnd).Evp?
    ensures Open(p, esk, Seal(p, msg, p.scalarmultBase(esk), used, draws, rnd).bytes) == Some(msg)
  {
    var epk := p.scalarmultBase(esk);
    var sk := PickKey(p, used, draws).value;
    assert p.scalarmult(esk, p.scalarmultBase(sk)) == p.scalarmult(sk, epk);
    OpenInvertsSealWith(p, msg, esk, sk, rnd);
  }

  lemma {:induction false} OpenInvertsSealWith(p: Primitives, msg: seq<byte>, esk: seq<byte>, sk: seq<byte>, rnd: seq<byte>)
    requires p.Lawful()
    requires |rnd| >= BLOCK
    requires SealWith(p, msg, p.scalarmultBase(esk), sk, rnd).Evp?
    ensures Open(p, esk, SealWith(p, msg, p.scalarmultBase(esk), sk, rnd).bytes) == Some(msg)
  {
    hide KeyStream, XorSeq;
    var epk := p.scalarmultBase(esk);
    var evp := SealWith(p, msg, epk, sk, rnd).bytes;
    var plain := Plain(msg, rnd);
    var shared := p.scalarmult(sk, epk).value;
    var ks := KeyStream(p, shared, epk, BlockCount(|evp|), |plain|);
    assert evp[..KEY_LEN] == p.scalarmultBase(sk) && evp[KEY_LEN..] == XorSeq(plain, ks);
    XorSeqCancel(plain, ks);
    assert plain[1..|plain| - plain[0]] == msg;
  }

  /** A freshly initialised and signed message: type, time and content are what
      they were, and the server accepts its signature. */
  lemma {:induction false} SignedMessage(p: Primitives, ssk: seq<byte>, usk: seq<byte>, kind: int, ts: u64, now: u64, content: seq<byte>)
    requires p.Lawful() && content != []
    ensures var signed := Signed(p, ssk, usk, Header(kind, ts, now) + content);
            && signed[HDR..] == content
            && signed[27] % 4 == kind % 4
            && FromLe(signed[28..32]) == Ts32(ts, now)
            && SigVerify(p, ssk, UserHash(p, usk, CoveredOf(signed)), SignatureOf(signed))
  {
    var msg := Header(kind, ts, now) + content;
    var signed := Signed(p, ssk, usk, msg);
    SignedVerifies(p, ssk, usk, msg);
    assert signed[28..] == msg[28..] == ToLe(Ts32(ts, now), 4) + content;
    assert signed[HDR..] == signed[28..][4..] && signed[28..32] == signed[28..][..4];
    Ranges();
    LeRoundTrip(Ts32(ts, now), 4);
  }

  /** Init, sign, seal, open: for every content from one octet to the limit, the
      recipient holds exactly the signed message, in an envelope of exactly the
      length its block count stands for. */
  lemma {:induction false} MessageRoundTrip(p: Primitives, ssk: seq<byte>, usk: seq<byte>, esk: seq<byte>,
                         kind: int, ts: u64, now: u64, content: seq<byte>, used: Option<seq<u16>>,
                         draws: seq<seq<byte>>, rnd: seq<byte>)
    requires p.Lawful()
    requires |rnd| >= BLOCK && 1 <= |content| <= MSG_MAX - HDR
    ensures var signed := Signed(p, ssk, usk, Header(kind, ts, now) + content);
            var r := Seal(p, signed, p.scalarmultBase(esk), used, draws, rnd);
            && (r.Evp? ==> Open(p, esk, r.bytes) == Some(signed) && |r.bytes| == Size(BlockCount(|r.bytes|)))
            && (r.Drawing? <==> PickKey(p, used, draws).None?)
            && (r.Refused? <==> PickKey(p, used, draws).Some?
                                && p.scalarmult(PickKey(p, used, draws).value, p.scalarmultBase(esk)).None?)
            && signed[HDR..] == content
            && signed[27] % 4 == kind % 4
            && FromLe(signed[28..32]) == Ts32(ts, now)
            && SigVerify(p, ssk, UserHash(p, usk, CoveredOf(signed)), SignatureOf(signed))
  {
    SignedMessage(p, ssk, usk, kind, ts, now, content);
    var signed := Signed(p, ssk, usk, Header(kind, ts, now) + content);
    assert HDR < |signed| <= MSG_MAX;
    if Seal(p, signed, p.scalarmultBase(esk), used, draws, rnd).Evp? {
      OpenInvertsSeal(p, signed, esk, used, draws, rnd);
      SealShape(p, signed, p.scalarmultBase(esk), used, draws, rnd);
    }
  }
}
