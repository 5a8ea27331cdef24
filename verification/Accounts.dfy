/** AEM-Account: the table of users and their addresses (account/IO.c), as
    functions on the table's value. */
module Accounts {
  import opened Bytes

  const USERS := 4096
  const ADDRESSES := 31
  const LEVEL_MAX := 3
  const FLAG_SHIELD := 128
  const FLAGS_DEFAULT := 14  // accept external mail, all versions, attachments
  const TS_BEGIN := 1735689600
  const TIME_DIFF := 5000
  const REQ_LEN := 39
  const REQ_DATA_LEN := 16

  type FlagByte = byte

  /** One user. The address columns have 31 cells, the first addrCount of them in use. */
  datatype User = User(uak: seq<byte>, usk: seq<byte>, pwk: seq<byte>, priv: seq<byte>,
                       addrFlag: seq<FlagByte>, addrHash: seq<u64>,
                       lastBinTs: nat, level: nat, addrCount: nat)

  type Table = seq<Option<User>>

  predicate UserOk(u: User)
  {
    && |u.addrFlag| == |u.addrHash| == ADDRESSES
    && u.addrCount <= ADDRESSES && u.level <= LEVEL_MAX
  }

  // ---- What the table means ----------------------------------------------------------

  datatype Key = Key(hash: u64, shield: bool)

  predicate Shield(f: FlagByte)
  {
    f >= FLAG_SHIELD
  }

  function KeyAt(u: User, i: nat): Key
    requires UserOk(u) && i < u.addrCount
  {
    Key(u.addrHash[i], Shield(u.addrFlag[i]))
  }

  function Keys(u: User): (r: seq<Key>)
    requires UserOk(u)
    ensures |r| == u.addrCount
    ensures forall i :: 0 <= i < |r| ==> r[i] == KeyAt(u, i)
  {
    seq(u.addrCount, i requires 0 <= i < u.addrCount => KeyAt(u, i))
  }

  predicate Formed(t: Table)
  {
    |t| == USERS && forall u :: 0 <= u < USERS && t[u].Some? ==> UserOk(t[u].value)
  }

  /** Who owns an address. */
  predicate Owns(t: Table, u: nat, k: Key)
    requires Formed(t)
  {
    u < USERS && t[u].Some? && k in Keys(t[u].value)
  }

  ghost predicate NoRepeat<T>(s: seq<T>)
  {
    forall i, j :: 0 <= i < j < |s| ==> s[i] != s[j]
  }

  /** No address twice, neither within one user nor across users. */
  ghost predicate Unique(t: Table)
    requires Formed(t)
  {
    && (forall u :: 0 <= u < USERS && t[u].Some? ==> NoRepeat(Keys(t[u].value)))
    && (forall u, v, k :: Owns(t, u, k) && Owns(t, v, k) ==> u == v)
  }

  ghost predicate NonZero(t: Table)
    requires Formed(t)
  {
    forall u, k :: Owns(t, u, k) ==> k.hash != 0
  }

  /** The master administrator: user 0, at the highest level. */
  predicate Master(t: Table)
  {
    |t| > 0 && t[0].Some? && t[0].value.level == LEVEL_MAX
  }

  ghost predicate TableOk(t: Table)
  {
    Formed(t) && Unique(t) && NonZero(t) && Master(t)
  }

  // ---- The linear scan -----------------------------------------------------------------

  /** First active slot of one user with this key, or addrCount. */
  function SlotWith(u: User, k: Key, i: nat): (r: nat)
    requires UserOk(u) && i <= u.addrCount
    ensures i <= r <= u.addrCount
    ensures forall j :: i <= j < r ==> KeyAt(u, j) != k
    ensures r < u.addrCount ==> KeyAt(u, r) == k
    decreases u.addrCount - i
  {
    if i == u.addrCount || KeyAt(u, i) == k then i else SlotWith(u, k, i + 1)
  }

  /** hashToUid from user number `from` on. */
  function Lookup(t: Table, k: Key, from: nat): (r: Option<nat>)
    requires Formed(t) && from <= USERS
    ensures r.Some? ==> from <= r.value < USERS && Owns(t, r.value, k)
    ensures forall u :: from <= u < (if r.Some? then r.value else USERS) ==> !Owns(t, u, k)
    decreases USERS - from
  {
    if from == USERS then None
    else if t[from].Some? && SlotWith(t[from].value, k, 0) < t[from].value.addrCount then
      assert Keys(t[from].value)[SlotWith(t[from].value, k, 0)] == k;
      Some(from)
    else Lookup(t, k, from + 1)
  }

  /** The scan is the owner map: it names a user exactly when that user owns the
      address, and nobody exactly when nobody does. */
  lemma LookupIsOwner(t: Table, k: Key, u: nat)
    requires Formed(t) && Unique(t)
    ensures Lookup(t, k, 0) == Some(u) <==> Owns(t, u, k)
    ensures Lookup(t, k, 0) == None <==> forall v :: !Owns(t, v, k)
  {
  }

  function CountShield(f: seq<FlagByte>, shield: bool): (n: nat)
    ensures n <= |f|
  {
    if f == [] then 0 else CountShield(f[..|f| - 1], shield) + (if Shield(f[|f| - 1]) == shield then 1 else 0)
  }

  // ---- Configuration and state -------------------------------------------------------

  /** Keyed primitives and the forbidden addresses of this installation. */
  datatype Config = Config(
    shieldHash: seq<byte> -> u64,
    normalHash: seq<byte> -> u64,  // zero when hashing fails
    adminHashes: seq<u64>,
    systemHash: u64,
    userId: seq<byte> -> nat,
    mac: (seq<byte>, nat, bool, seq<byte>) -> seq<byte>,  // UAK, timestamp, is POST, covered octets
    dataKey: (seq<byte>, nat, bool) -> seq<byte>,
    openBody: (seq<byte>, nat, seq<byte>) -> Option<seq<byte>>,
    openPrivate: seq<byte> -> seq<byte>)
  {
    ghost predicate Lawful() {
      forall uak, ts, post :: |dataKey(uak, ts, post)| == 2 + REQ_DATA_LEN
    }
  }

  const ADDR32_ADMIN: seq<byte> := [0xa6, 0xd0, 0x35, 0x0e, 0x75, 0x85, 0x68, 0x18]
  const ADDR32_SYSTEM: seq<byte> := [0x36, 0x7d, 0x9d, 0x3a, 0x80, 0, 0, 0, 0, 0]

  /** addressToHash; zero means the address may not be used. */
  function AddressHash(c: Config, addr32: seq<byte>): u64
    requires |addr32| == 10
  {
    if addr32[0] >= 128 then (if addr32[2..] == ADDR32_ADMIN then 0 else c.shieldHash(addr32))
    else if addr32 == ADDR32_SYSTEM || addr32[0] / 8 == 0 then 0
    else c.normalHash(addr32)
  }

  /** Table and limits; per level: MiB, normal addresses, Shield addresses. */
  datatype State = State(t: Table, limits: seq<byte>)

  ghost predicate StateOk(s: State)
  {
    TableOk(s.t) && |s.limits| == 12
  }

  function Limit(s: State, level: nat, shield: bool): byte
    requires |s.limits| == 12 && level <= LEVEL_MAX
  {
    s.limits[3 * level + (if shield then 2 else 1)]
  }

  datatype Code = Ok | AtLimit | InUse | NotExist | ForbidMaster | Param | LevelTooLow | NoStorage | Exist | Internal | BadCommand
  datatype Reply = Status(code: Code) | NewShield(hash: u64, addr32: seq<byte>) | Information | Continue | Error

  // ---- Operations on addresses ----------------------------------------------------------

  /** The address a creation request is for, or why it is refused. */
  datatype Wanted = Refused(code: Code) | Address(k: Key, addr32: seq<byte>)

  function Want(c: Config, s: State, u: User, reqData: seq<byte>, rnd: seq<byte>): (w: Wanted)
    requires UserOk(u) && |s.limits| == 12 && |reqData| == REQ_DATA_LEN && |rnd| == 10
    ensures w.Address? ==> w.k.hash != 0 && |w.addr32| == 10
    ensures w.Address? ==> (w.k.shield <==> forall i :: 0 <= i < 8 ==> reqData[i] == 0)
    ensures w.Refused? ==> w.code == InUse || w.code == AtLimit
    ensures var shield := forall i :: 0 <= i < 8 ==> reqData[i] == 0;
            w == Refused(AtLimit) <==> CountShield(u.addrFlag[..u.addrCount], shield) >= Limit(s, u.level, shield)
    ensures w.Address? && !w.k.shield ==>
      w.k.hash == FromLe(reqData[..8]) && w.k.hash != c.systemHash && (u.level == LEVEL_MAX || w.k.hash !in c.adminHashes)
    ensures w.Address? && w.k.shield ==> w.addr32[0] >= 128 && w.k.hash == AddressHash(c, w.addr32)
  {
    if forall i :: 0 <= i < 8 ==> reqData[i] == 0 then
      if CountShield(u.addrFlag[..u.addrCount], true) >= Limit(s, u.level, true) then Refused(AtLimit) else
      var addr32 := [rnd[0] % 128 + 128] + rnd[1..];
      var hash := AddressHash(c, addr32);
      if hash == 0 then Refused(InUse) else Address(Key(hash, true), addr32)
    else
      if CountShield(u.addrFlag[..u.addrCount], false) >= Limit(s, u.level, false) then Refused(AtLimit) else
      FromLeBound(reqData[..8]);
      Ranges();
      var hash := FromLe(reqData[..8]);
      if hash == 0 || hash == c.systemHash || (u.level != LEVEL_MAX && hash in c.adminHashes) then Refused(InUse)
      else Address(Key(hash, false), rnd)
  }

  function WithAddress(u: User, k: Key): (r: User)
    requires UserOk(u) && u.addrCount < ADDRESSES
    ensures UserOk(r) && r.level == u.level && r.addrCount == u.addrCount + 1
  {
    u.(addrHash := u.addrHash[u.addrCount := k.hash],
       addrFlag := u.addrFlag[u.addrCount := FLAGS_DEFAULT + (if k.shield then FLAG_SHIELD else 0)],
       addrCount := u.addrCount + 1)
  }

  function AddressCreate(c: Config, s: State, uid: nat, reqData: seq<byte>, rnd: seq<byte>): (r: (State, Reply))
    requires Formed(s.t) && uid < USERS && s.t[uid].Some? && |s.limits| == 12
    requires |reqData| == REQ_DATA_LEN && |rnd| == 10
  {
    var u := s.t[uid].value;
    if u.addrCount >= ADDRESSES then (s, Status(AtLimit)) else
    match Want(c, s, u, reqData, rnd)
    case Refused(code) => (s, Status(code))
    case Address(k, addr32) =>
      if Lookup(s.t, k, 0).Some? then (s, Status(InUse))
      else (s.(t := s.t[uid := Some(WithAddress(u, k))]), if k.shield then NewShield(k.hash, addr32) else Status(Ok))
  }

  /** First active slot whose hash is the eight octets given, whichever its kind. */
  function SlotOfHash(u: User, octets: seq<byte>, i: nat): (r: nat)
    requires UserOk(u) && i <= u.addrCount
    ensures i <= r <= u.addrCount
    ensures r < u.addrCount ==> u.addrHash[r] == FromLe(octets)
    ensures forall j :: i <= j < r ==> u.addrHash[j] != FromLe(octets)
    decreases u.addrCount - i
  {
    if i == u.addrCount || u.addrHash[i] == FromLe(octets) then i else SlotOfHash(u, octets, i + 1)
  }

  function WithoutSlot(u: User, d: nat): (r: User)
    requires UserOk(u) && d < u.addrCount
    ensures UserOk(r) && r.level == u.level
  {
    u.(addrHash := Memmove(u.addrHash, d, d + 1, u.addrCount - 1 - d),
       addrFlag := Memmove(u.addrFlag, d, d + 1, u.addrCount - 1 - d),
       addrCount := u.addrCount - 1)
  }

  function AddressDelete(s: State, uid: nat, reqData: seq<byte>): (r: (State, Reply))
    requires Formed(s.t) && uid < USERS && s.t[uid].Some? && |reqData| == REQ_DATA_LEN
  {
    var u := s.t[uid].value;
    var d := SlotOfHash(u, reqData[..8], 0);
    if d == u.addrCount then (s, Status(NotExist))
    else (s.(t := s.t[uid := Some(WithoutSlot(u, d))]), Status(Ok))
  }

  // ---- Operations on accounts --------------------------------------------------------------

  const UAK_LEN := 40
  const PWK_LEN := 32
  const PRIVATE_LEN := 6177

  function NewUser(uak: seq<byte>, pwk: seq<byte>): (u: User)
    ensures UserOk(u) && Keys(u) == []
  {
    User(uak, seq(32, _ => 0), pwk, seq(PRIVATE_LEN, _ => 0), seq(ADDRESSES, _ => 0), seq(ADDRESSES, _ => 0), 0, 0, 0)
  }

  function AccountCreate(c: Config, s: State, data: seq<byte>, storageOk: bool): (r: (State, Reply))
    requires Formed(s.t)
  {
    if |data| != UAK_LEN + PWK_LEN then (s, Status(Param)) else
    var newUid := c.userId(data[..UAK_LEN]) % USERS;
    if s.t[newUid].Some? then (s, Status(Exist))
    else (s.(t := s.t[newUid := Some(NewUser(data[..UAK_LEN], data[UAK_LEN..]))]), Status(if storageOk then Ok else Internal))
  }

  function TargetOf(reqData: seq<byte>): (r: nat)
    requires |reqData| == REQ_DATA_LEN
  {
    FromLe(reqData[..2])
  }

  function AccountDelete(s: State, uid: nat, reqData: seq<byte>, storageOk: bool): (r: (State, Reply))
    requires Formed(s.t) && uid < USERS && s.t[uid].Some? && |reqData| == REQ_DATA_LEN
  {
    var d := TargetOf(reqData);
    if d == 0 then (s, Status(ForbidMaster))
    else if d >= USERS then (s, Status(Param))
    else if s.t[uid].value.level != LEVEL_MAX && uid != d then (s, Status(LevelTooLow))
    else if s.t[d].None? then (s, Status(NotExist))
    else (s.(t := s.t[d := None]), Status(if storageOk then Ok else NoStorage))
  }

  /** The new level is an octet, stored in two bits. */
  function AccountUpdate(s: State, uid: nat, reqData: seq<byte>): (r: (State, Reply))
    requires Formed(s.t) && uid < USERS && s.t[uid].Some? && |reqData| == REQ_DATA_LEN
  {
    var d := TargetOf(reqData);
    var level := s.t[uid].value.level;
    if d == 0 then (s, Status(ForbidMaster))
    else if d >= USERS then (s, Status(Param))
    else if level != LEVEL_MAX && (uid != d || reqData[2] > level) then (s, Status(LevelTooLow))
    else if s.t[d].None? then (s, Status(NotExist))
    else (s.(t := s.t[d := Some(s.t[d].value.(level := reqData[2] % 4))]), Status(Ok))
  }

  function PrivateUpdate(c: Config, s: State, uid: nat, data: seq<byte>): (r: (State, Reply))
    requires Formed(s.t) && uid < USERS && s.t[uid].Some?
  {
    if |data| != 12 + 32 + PRIVATE_LEN || (forall i :: 12 <= i < 44 ==> data[i] == 0) then (s, Status(Param))
    else (s.(t := s.t[uid := Some(s.t[uid].value.(priv := c.openPrivate(data)))]), Status(Ok))
  }

  // ---- Authentication ---------------------------------------------------------------------------

  /** The 42-bit timestamp of a request, in milliseconds. */
  function BinTs(raw: seq<byte>): (r: nat)
    requires |raw| >= REQ_LEN
    ensures r < 0x400_0000_0000
  {
    FromLe(raw[..6]) % 0x400_0000_0000
  }

  predicate Authenticates(c: Config, u: User, raw: seq<byte>, post: bool)
    requires |raw| >= REQ_LEN
  {
    c.mac(u.uak, BinTs(raw), post, raw[5..REQ_LEN - 16]) == raw[REQ_LEN - 16..REQ_LEN]
  }

  /** The first user whose key authenticates the request. */
  function FirstKey(c: Config, t: Table, raw: seq<byte>, post: bool, from: nat): (r: Option<nat>)
    requires |t| == USERS && |raw| >= REQ_LEN && from <= USERS
    ensures r.Some? ==> from <= r.value < USERS && t[r.value].Some? && Authenticates(c, t[r.value].value, raw, post)
    decreases USERS - from
  {
    if from == USERS then None
    else if t[from].Some? && Authenticates(c, t[from].value, raw, post) then Some(from)
    else FirstKey(c, t, raw, post, from + 1)
  }

  /** Fresh: later than the last one accepted, and close to the clock. */
  predicate Fresh(u: User, ts: nat, now: int)
  {
    ts > u.lastBinTs && -TIME_DIFF <= ts - (now - TS_BEGIN) * 1000 <= TIME_DIFF
  }

  function Auth(c: Config, t: Table, raw: seq<byte>, post: bool, now: int): (r: Option<nat>)
    requires |t| == USERS && |raw| >= REQ_LEN
    ensures r.Some? ==> r.value < USERS && t[r.value].Some?
  {
    var k := FirstKey(c, t, raw, post, 0);
    if k.Some? && Fresh(t[k.value].value, BinTs(raw), now) then k else None
  }

  // ---- One request -------------------------------------------------------------------------------

  /** A request as it arrives, with what the rest of the world adds to it. */
  datatype Event = Event(post: bool, msg: seq<byte>, now: int, rnd: seq<byte>, storageOk: bool)

  predicate EventOk(ev: Event)
  {
    |ev.msg| >= REQ_LEN && |ev.rnd| == 10
  }

  function Command(c: Config, u: User, ev: Event): (r: (nat, seq<byte>))
    requires c.Lawful() && EventOk(ev)
    ensures |r.1| == REQ_DATA_LEN
  {
    var key := c.dataKey(u.uak, BinTs(ev.msg), ev.post);
    (XorBits(ev.msg[5] / 4, key[0] % 64, 6),
     seq(REQ_DATA_LEN, i requires 0 <= i < REQ_DATA_LEN => Xor(ev.msg[7 + i], key[2 + i])))
  }

  function Act(c: Config, s: State, uid: nat, ev: Event): (r: (State, Reply))
    requires c.Lawful() && Formed(s.t) && |s.limits| == 12 && uid < USERS && s.t[uid].Some? && EventOk(ev)
  {
    var u := s.t[uid].value;
    var (cmd, data) := Command(c, u, ev);
    if !ev.post then
      if cmd == 1 then AccountDelete(s, uid, data, ev.storageOk)
      else if cmd == 2 then AccountUpdate(s, uid, data)
      else if cmd == 3 then AddressCreate(c, s, uid, data, ev.rnd)
      else if cmd == 4 then AddressDelete(s, uid, data)
      else if cmd == 10 then (s.(limits := data[..12]), Status(Ok))
      else if cmd == 0 || cmd == 7 || cmd == 8 || cmd == 9 then (s, Information)
      else if cmd == 6 then (s, Status(Ok))
      else (s, Status(BadCommand))
    else if cmd == 0 || cmd == 5 then
      if |ev.msg| == REQ_LEN then (s, Continue) else
      (match c.openBody(u.uak, BinTs(ev.msg), ev.msg[REQ_LEN..])
       case None => (s, Error)
       case Some(body) => if cmd == 0 then AccountCreate(c, s, body, ev.storageOk) else PrivateUpdate(c, s, uid, body))
    else if cmd == 1 || cmd == 3 then (s, Information)
    else (s, Error)
  }

  /** Replies after which the table has been saved. */
  predicate SavedFor(r: Reply)
  {
    r.NewShield? || (r.Status? && (r.code == Ok || r.code == NoStorage || r.code == Internal))
  }

  /** Whether an accepted request saves the table: an account or address operation
      that was carried out. */
  predicate Saves(c: Config, s: State, uid: nat, ev: Event)
    requires c.Lawful() && Formed(s.t) && |s.limits| == 12 && uid < USERS && s.t[uid].Some? && EventOk(ev)
  {
    (ev.post || 1 <= Command(c, s.t[uid].value, ev).0 <= 4) && SavedFor(Act(c, s, uid, ev).1)
  }

  function Stamped(s: State, uid: nat, ts: nat): (r: State)
    requires Formed(s.t) && uid < USERS && s.t[uid].Some?
    ensures Formed(r.t) && r.t[uid].Some? && r.limits == s.limits
  {
    s.(t := s.t[uid := Some(s.t[uid].value.(lastBinTs := ts))])
  }

  /** conn_api: authenticate, record the timestamp, act. The first component is
      the user a request was accepted for. */
  function Step(c: Config, s: State, ev: Event): (r: (Option<nat>, State, Reply))
    requires c.Lawful() && Formed(s.t) && |s.limits| == 12 && EventOk(ev)
    ensures r.0 == Auth(c, s.t, ev.msg, ev.post, ev.now)
  {
    match Auth(c, s.t, ev.msg, ev.post, ev.now)
    case None => (None, s, Error)
    case Some(uid) =>
      var (s', reply) := Act(c, Stamped(s, uid, BinTs(ev.msg)), uid, ev);
      (Some(uid), s', reply)
  }

  predicate StepSaves(c: Config, s: State, ev: Event)
    requires c.Lawful() && Formed(s.t) && |s.limits| == 12 && EventOk(ev)
  {
    var a := Auth(c, s.t, ev.msg, ev.post, ev.now);
    a.Some? && Saves(c, Stamped(s, a.value, BinTs(ev.msg)), a.value, ev)
  }

  // ---- What one step keeps ------------------------------------------------------------------------

  /** Replacing one entry of the table. */
  lemma {:induction false} ReplaceKeepsOk(t: Table, u: nat, x: Option<User>)
    requires TableOk(t) && u < USERS
    requires x.Some? ==> UserOk(x.value) && NoRepeat(Keys(x.value))
    requires x.Some? ==> forall k :: k in Keys(x.value) ==> k.hash != 0 && forall v :: v != u ==> !Owns(t, v, k)
    requires u == 0 ==> x.Some? && x.value.level == LEVEL_MAX
    ensures TableOk(t[u := x])
    ensures forall k :: Owns(t[u := x], u, k) <==> x.Some? && k in Keys(x.value)
    ensures forall v, k :: v != u ==> (Owns(t[u := x], v, k) <==> Owns(t, v, k))
  {
    var t' := t[u := x];
    assert Formed(t');
    assert forall v, k :: v != u ==> (Owns(t', v, k) <==> Owns(t, v, k));
  }

  /** A change that leaves one user's keys alone. */
  lemma {:induction false} SameKeysKeepsOk(t: Table, u: nat, x: User)
    requires TableOk(t) && u < USERS && t[u].Some?
    requires UserOk(x) && Keys(x) == Keys(t[u].value) && (u == 0 ==> x.level == LEVEL_MAX)
    ensures TableOk(t[u := Some(x)])
  {
    assert forall k :: k in Keys(x) ==> Owns(t, u, k);
    ReplaceKeepsOk(t, u, Some(x));
  }

  lemma {:induction false} WithAddressKeys(u: User, k: Key)
    requires UserOk(u) && u.addrCount < ADDRESSES
    ensures Keys(WithAddress(u, k)) == Keys(u) + [k]
    ensures NoRepeat(Keys(u)) && k !in Keys(u) ==> NoRepeat(Keys(WithAddress(u, k)))
  {
    var x := WithAddress(u, k);
    assert KeyAt(x, u.addrCount) == k;
    assert forall i :: 0 <= i < u.addrCount ==> KeyAt(x, i) == KeyAt(u, i);
    assert Keys(x) == Keys(u) + [k];
  }

  lemma WithoutSlotKeys(u: User, d: nat)
    requires UserOk(u) && d < u.addrCount
    ensures Keys(WithoutSlot(u, d)) == RemoveAt(Keys(u), d)
  {
  }

  /** Creating an address gives it to this user alone, and takes nothing from
      anyone; it is refused as in use whenever somebody owns it. */
  lemma {:induction false} AddressCreateSpec(c: Config, s: State, uid: nat, reqData: seq<byte>, rnd: seq<byte>)
    requires StateOk(s) && uid < USERS && s.t[uid].Some? && |reqData| == REQ_DATA_LEN && |rnd| == 10
    ensures var u := s.t[uid].value; var w := Want(c, s, u, reqData, rnd); var r := AddressCreate(c, s, uid, reqData, rnd);
      && TableOk(r.0.t) && r.0.limits == s.limits
      && (r.0 == s || (w.Address? && forall v, k :: Owns(r.0.t, v, k) <==> Owns(s.t, v, k) || (v == uid && k == w.k)))
      && (r.0 != s <==> u.addrCount < ADDRESSES && w.Address? && forall v :: !Owns(s.t, v, w.k))
  {
    hide Want, WithAddress, Lookup;
    var u := s.t[uid].value;
    var w := Want(c, s, u, reqData, rnd);
    if u.addrCount < ADDRESSES && w.Address? && Lookup(s.t, w.k, 0).None? {
      LookupIsOwner(s.t, w.k, 0);
      WithAddressKeys(u, w.k);
      var x := WithAddress(u, w.k);
      assert forall k :: k in Keys(u) ==> Owns(s.t, uid, k);
      assert !Owns(s.t, uid, w.k);
      ReplaceKeepsOk(s.t, uid, Some(x));
    }
  }

  lemma {:induction false} NoRepeatRemove<T>(s: seq<T>, d: nat)
    requires d < |s| && NoRepeat(s)
    ensures NoRepeat(RemoveAt(s, d))
    ensures forall x :: x in RemoveAt(s, d) <==> x in s && x != s[d]
  {
    var r := RemoveAt(s, d);
    assert forall i :: 0 <= i < |r| ==> r[i] == s[if i < d then i else i + 1];
    forall x | x in s && x != s[d] ensures x in r {
      var i :| 0 <= i < |s| && s[i] == x;
      assert r[if i < d then i else i - 1] == x;
    }
  }

  lemma {:induction false} KeysWithout(u: User, d: nat)
    requires UserOk(u) && d < u.addrCount && NoRepeat(Keys(u))
    ensures var x := WithoutSlot(u, d);
            && NoRepeat(Keys(x))
            && forall k :: k in Keys(x) <==> k in Keys(u) && k != Keys(u)[d]
  {
    hide WithoutSlot, NoRepeat, Bytes.RemoveAt;
    WithoutSlotKeys(u, d);
    NoRepeatRemove(Keys(u), d);
  }

  /** Deleting an address takes exactly one key from this user and touches nobody
      else; it is refused exactly when the user has no address with that hash. */
  lemma {:induction false} AddressDeleteSpec(s: State, uid: nat, reqData: seq<byte>)
    requires StateOk(s) && uid < USERS && s.t[uid].Some? && |reqData| == REQ_DATA_LEN
    ensures var u := s.t[uid].value; var d := SlotOfHash(u, reqData[..8], 0); var r := AddressDelete(s, uid, reqData);
      && TableOk(r.0.t) && r.0.limits == s.limits
      && (d == u.addrCount ==>
            r == (s, Status(NotExist)) && forall k :: k in Keys(u) ==> k.hash != FromLe(reqData[..8]))
      && (d < u.addrCount ==>
            && r.1 == Status(Ok) && Keys(u)[d].hash == FromLe(reqData[..8])
            && forall v, k :: Owns(r.0.t, v, k) <==> Owns(s.t, v, k) && !(v == uid && k == Keys(u)[d]))
  {
    hide SlotOfHash, FromLe, WithoutSlot;
    var u := s.t[uid].value;
    var d := SlotOfHash(u, reqData[..8], 0);
    if d < u.addrCount {
      KeysWithout(u, d);
      assert forall k :: k in Keys(u) ==> Owns(s.t, uid, k);
      ReplaceKeepsOk(s.t, uid, Some(WithoutSlot(u, d)));
    }
  }

  /** Every accepted account operation leaves the table in order. */
  lemma {:induction false} ActKeepsOk(c: Config, s: State, uid: nat, ev: Event)
    requires c.Lawful() && StateOk(s) && uid < USERS && s.t[uid].Some? && EventOk(ev)
    ensures StateOk(Act(c, s, uid, ev).0)
  {
    hide AddressCreate, AddressDelete, AccountDelete, AccountUpdate, AccountCreate, PrivateUpdate, Command, Unique, NonZero;
    var (cmd, data) := Command(c, s.t[uid].value, ev);
    AddressCreateSpec(c, s, uid, data, ev.rnd);
    AddressDeleteSpec(s, uid, data);
    AccountDeleteKeepsOk(s, uid, data, ev.storageOk);
    AccountUpdateKeepsOk(s, uid, data);
    var body := c.openBody(s.t[uid].value.uak, BinTs(ev.msg), ev.msg[REQ_LEN..]);
    if body.Some? {
      AccountCreateKeepsOk(c, s, body.value, ev.storageOk);
      PrivateUpdateKeepsOk(c, s, uid, body.value);
    }
  }

  lemma {:induction false} AccountDeleteKeepsOk(s: State, uid: nat, reqData: seq<byte>, storageOk: bool)
    requires StateOk(s) && uid < USERS && s.t[uid].Some? && |reqData| == REQ_DATA_LEN
    ensures StateOk(AccountDelete(s, uid, reqData, storageOk).0)
  {
    hide TableOk, FromLe;
    var d := TargetOf(reqData);
    if 0 < d < USERS { ReplaceKeepsOk(s.t, d, None); }
  }

  lemma LevelChange(u: User, level: nat)
    requires UserOk(u) && level <= LEVEL_MAX
    ensures UserOk(u.(level := level)) && Keys(u.(level := level)) == Keys(u)
  {
  }

  lemma {:induction false} AccountUpdateKeepsOk(s: State, uid: nat, reqData: seq<byte>)
    requires StateOk(s) && uid < USERS && s.t[uid].Some? && |reqData| == REQ_DATA_LEN
    ensures StateOk(AccountUpdate(s, uid, reqData).0)
  {
    var d := TargetOf(reqData);
    if 0 < d < USERS && s.t[d].Some? {
      LevelChange(s.t[d].value, reqData[2] % 4);
      SameKeysKeepsOk(s.t, d, s.t[d].value.(level := reqData[2] % 4));
    }
  }

  lemma {:induction false} AccountCreateKeepsOk(c: Config, s: State, data: seq<byte>, storageOk: bool)
    requires StateOk(s)
    ensures StateOk(AccountCreate(c, s, data, storageOk).0)
  {
    if |data| == UAK_LEN + PWK_LEN {
      var newUid := c.userId(data[..UAK_LEN]) % USERS;
      if s.t[newUid].None? {
        ReplaceKeepsOk(s.t, newUid, Some(NewUser(data[..UAK_LEN], data[UAK_LEN..])));
      }
    }
  }

  lemma {:induction false} PrivateUpdateKeepsOk(c: Config, s: State, uid: nat, data: seq<byte>)
    requires StateOk(s) && uid < USERS && s.t[uid].Some?
    ensures StateOk(PrivateUpdate(c, s, uid, data).0)
  {
    var u := s.t[uid].value;
    assert Keys(u.(priv := c.openPrivate(data))) == Keys(u);
    SameKeysKeepsOk(s.t, uid, u.(priv := c.openPrivate(data)));
  }

  /** Each step keeps the table in order: well formed, every address owned once,
      no zero hash, and the master administrator in place. */
  lemma {:induction false} StepKeepsOk(c: Config, s: State, ev: Event)
    requires c.Lawful() && StateOk(s) && EventOk(ev)
    ensures StateOk(Step(c, s, ev).1)
  {
    var a := Auth(c, s.t, ev.msg, ev.post, ev.now);
    if a.Some? {
      StampKeepsOk(s, a.value, BinTs(ev.msg));
      ActKeepsOk(c, Stamped(s, a.value, BinTs(ev.msg)), a.value, ev);
    }
  }

  lemma {:induction false} StampKeepsOk(s: State, uid: nat, ts: nat)
    requires StateOk(s) && uid < USERS && s.t[uid].Some?
    ensures StateOk(Stamped(s, uid, ts))
    ensures forall v, k :: Owns(Stamped(s, uid, ts).t, v, k) <==> Owns(s.t, v, k)
  {
    var u := s.t[uid].value;
    assert Keys(u.(lastBinTs := ts)) == Keys(u);
    SameKeysKeepsOk(s.t, uid, u.(lastBinTs := ts));
  }

  // ---- Levels and timestamps ----------------------------------------------------------------------

  function LevelOf(s: State, u: nat): nat
    requires u < |s.t| && s.t[u].Some?
  {
    s.t[u].value.level
  }

  function LastTs(s: State, u: nat): nat
    requires u < |s.t| && s.t[u].Some?
  {
    s.t[u].value.lastBinTs
  }

  lemma {:induction false} ActLevels(c: Config, s: State, uid: nat, ev: Event, v: nat)
    requires c.Lawful() && Formed(s.t) && |s.limits| == 12 && uid < USERS && s.t[uid].Some? && EventOk(ev)
    requires v < USERS && s.t[v].Some? && LevelOf(s, uid) != LEVEL_MAX
    ensures var s' := Act(c, s, uid, ev).0;
            |s'.t| == USERS && (s'.t[v].Some? ==> LevelOf(s', v) <= LevelOf(s, v))
  {
    hide Command, Want, Lookup, FromLe, CountShield, WithAddress, WithoutSlot, SlotOfHash, BinTs, NewUser;
  }

  /** A request accepted for anyone below the highest level raises nobody's level. */
  lemma {:induction false} OnlyAdminRaises(c: Config, s: State, ev: Event, v: nat)
    requires c.Lawful() && StateOk(s) && EventOk(ev) && v < USERS && s.t[v].Some?
    ensures var r := Step(c, s, ev);
            && |r.1.t| == USERS
            && (r.0.Some? && LevelOf(s, r.0.value) != LEVEL_MAX && r.1.t[v].Some? ==> LevelOf(r.1, v) <= LevelOf(s, v))
  {
    hide Act, Command, Unique, NonZero, Auth, BinTs;
    StepKeepsOk(c, s, ev);
    var a := Auth(c, s.t, ev.msg, ev.post, ev.now);
    if a.Some? && LevelOf(s, a.value) != LEVEL_MAX {
      ActLevels(c, Stamped(s, a.value, BinTs(ev.msg)), a.value, ev, v);
    }
  }

  // ---- What each operation answers and changes -----------------------------------------------------

  /** At most the record of user u differs. */
  ghost predicate OnlyRecord(s: State, s': State, u: nat)
  {
    && |s.t| == |s'.t| == USERS && u < USERS && s'.limits == s.limits
    && forall v :: 0 <= v < USERS && v != u ==> s'.t[v] == s.t[v]
  }

  /** The user number a request names. */
  function Named(reqData: seq<byte>): nat
    requires |reqData| == REQ_DATA_LEN
  {
    reqData[0] as int + 256 * reqData[1] as int
  }

  lemma {:induction false} TargetIsNamed(reqData: seq<byte>)
    requires |reqData| == REQ_DATA_LEN
    ensures TargetOf(reqData) == Named(reqData)
  {
    var s := reqData[..2];
    assert s[1..] == [reqData[1]] && s[1..][1..] == [];
    assert FromLe(s[1..]) == s[1..][0] + 256 * FromLe(s[1..][1..]);
  }

  /** Deleting an account: only administrators delete others, nobody deletes user 0; then
      the account is gone, and no other is touched. */
  ghost predicate DeletesAccount(s: State, uid: nat, reqData: seq<byte>, storageOk: bool, s': State, r: Reply)
    requires Formed(s.t) && uid < USERS && s.t[uid].Some? && |reqData| == REQ_DATA_LEN
  {
    var d := Named(reqData);
    var may := 0 < d < 4096 && (s.t[uid].value.level == 3 || uid == d);
    var done := may && s.t[d].Some?;
    && (r == Status(ForbidMaster) <==> d == 0)
    && (r == Status(Param) <==> d >= 4096)
    && (r == Status(LevelTooLow) <==> 0 < d < 4096 && !may)
    && (r == Status(NotExist) <==> may && s.t[d].None?)
    && (r == Status(Ok) <==> done && storageOk)
    && (r == Status(NoStorage) <==> done && !storageOk)
    && (if done then OnlyRecord(s, s', d) && s'.t[d].None? else s' == s)
  }

  lemma {:induction false} AccountDeleteSpec(s: State, uid: nat, reqData: seq<byte>, storageOk: bool)
    requires Formed(s.t) && uid < USERS && s.t[uid].Some? && |reqData| == REQ_DATA_LEN
    ensures var r := AccountDelete(s, uid, reqData, storageOk); DeletesAccount(s, uid, reqData, storageOk, r.0, r.1)
  {
    hide TargetOf;
    TargetIsNamed(reqData);
  }

  /** Changing a level: others' only by administrators, one's own only downwards, user
      0's never; then the level is the lower two bits asked for, and nothing else differs. */
  ghost predicate ChangesLevel(s: State, uid: nat, reqData: seq<byte>, s': State, r: Reply)
    requires Formed(s.t) && uid < USERS && s.t[uid].Some? && |reqData| == REQ_DATA_LEN
  {
    var d := Named(reqData);
    var may := 0 < d < 4096 && (s.t[uid].value.level == 3 || (uid == d && reqData[2] <= s.t[uid].value.level));
    var done := may && s.t[d].Some?;
    && (r == Status(ForbidMaster) <==> d == 0)
    && (r == Status(Param) <==> d >= 4096)
    && (r == Status(LevelTooLow) <==> 0 < d < 4096 && !may)
    && (r == Status(NotExist) <==> may && s.t[d].None?)
    && (r == Status(Ok) <==> done)
    && (if done then OnlyRecord(s, s', d) && s'.t[d] == Some(s.t[d].value.(level := reqData[2] % 4)) else s' == s)
  }

  lemma {:induction false} AccountUpdateSpec(s: State, uid: nat, reqData: seq<byte>)
    requires Formed(s.t) && uid < USERS && s.t[uid].Some? && |reqData| == REQ_DATA_LEN
    ensures var r := AccountUpdate(s, uid, reqData); ChangesLevel(s, uid, reqData, r.0, r.1)
  {
    hide TargetOf;
    TargetIsNamed(reqData);
  }

  /** A new account: at the number its key gives, if that is free; at the lowest level, with
      the two keys sent, without addresses, and everything else zero. */
  ghost predicate CreatesAccount(c: Config, s: State, data: seq<byte>, storageOk: bool, s': State, r: Reply)
    requires Formed(s.t)
  {
    if |data| != 72 then s' == s && r == Status(Param) else
    var u := c.userId(data[..40]) % 4096;
    if s.t[u].Some? then s' == s && r == Status(Exist) else
    && r == Status(if storageOk then Ok else Internal)
    && OnlyRecord(s, s', u) && s'.t[u].Some?
    && var x := s'.t[u].value;
       && x.uak == data[..40] && x.pwk == data[40..] && x.level == 0 && x.addrCount == 0 && x.lastBinTs == 0
       && x.usk == seq(32, _ => 0) && x.priv == seq(6177, _ => 0)
  }

  lemma {:induction false} AccountCreateSpec(c: Config, s: State, data: seq<byte>, storageOk: bool)
    requires Formed(s.t)
    ensures var r := AccountCreate(c, s, data, storageOk); CreatesAccount(c, s, data, storageOk, r.0, r.1)
  {
  }

  /** The private field: replaced, unless the length is wrong or the key sent is zero. */
  ghost predicate ChangesPrivate(c: Config, s: State, uid: nat, data: seq<byte>, s': State, r: Reply)
    requires Formed(s.t) && uid < USERS && s.t[uid].Some?
  {
    if |data| == 6221 && exists i :: 12 <= i < 44 && data[i] != 0
    then r == Status(Ok) && OnlyRecord(s, s', uid) && s'.t[uid] == Some(s.t[uid].value.(priv := c.openPrivate(data)))
    else r == Status(Param) && s' == s
  }

  lemma {:induction false} PrivateUpdateSpec(c: Config, s: State, uid: nat, data: seq<byte>)
    requires Formed(s.t) && uid < USERS && s.t[uid].Some?
    ensures var r := PrivateUpdate(c, s, uid, data); ChangesPrivate(c, s, uid, data, r.0, r.1)
  {
  }

  /** The address a request asks for, and the octets a Shield address is drawn from. */
  function Asked(c: Config, reqData: seq<byte>, rnd: seq<byte>): Key
    requires |reqData| == REQ_DATA_LEN && |rnd| == 10
  {
    FromLeBound(reqData[..8]);
    Ranges();
    if forall i :: 0 <= i < 8 ==> reqData[i] == 0 then Key(AddressHash(c, Drawn(rnd)), true)
    else Key(FromLe(reqData[..8]), false)
  }

  function Drawn(rnd: seq<byte>): (a: seq<byte>)
    requires |rnd| == 10
    ensures |a| == 10
  {
    [128 + rnd[0] % 128] + rnd[1..]
  }

  /** A new address: refused at the limits of the table or of the level, refused if it may
      not be used or has an owner, and otherwise the next slot, taking outside mail. */
  ghost predicate CreatesAddress(c: Config, s: State, uid: nat, reqData: seq<byte>, rnd: seq<byte>, s': State, r: Reply)
    requires Formed(s.t) && uid < USERS && s.t[uid].Some? && |s.limits| == 12
    requires |reqData| == REQ_DATA_LEN && |rnd| == 10
  {
    var u, k := s.t[uid].value, Asked(c, reqData, rnd);
    var full := u.addrCount >= 31 || CountShield(u.addrFlag[..u.addrCount], k.shield) >= s.limits[3 * u.level + (if k.shield then 2 else 1)];
    var barred := k.hash == 0 || (!k.shield && (k.hash == c.systemHash || (u.level != 3 && k.hash in c.adminHashes)));
    var taken := exists v :: Owns(s.t, v, k);
    && (r == Status(AtLimit) <==> full)
    && (r == Status(InUse) <==> !full && (barred || taken))
    && (full || barred || taken ==> s' == s)
    && (!full && !barred && !taken ==>
          && r == (if k.shield then NewShield(k.hash, Drawn(rnd)) else Status(Ok))
          && OnlyRecord(s, s', uid)
          && s'.t[uid] == Some(u.(addrCount := u.addrCount + 1,
                                  addrHash := u.addrHash[u.addrCount := k.hash],
                                  addrFlag := u.addrFlag[u.addrCount := if k.shield then 142 else 14])))
  }

  lemma {:induction false} AddressCreateExact(c: Config, s: State, uid: nat, reqData: seq<byte>, rnd: seq<byte>)
    requires Formed(s.t) && uid < USERS && s.t[uid].Some? && |s.limits| == 12
    requires |reqData| == REQ_DATA_LEN && |rnd| == 10
    ensures var r := AddressCreate(c, s, uid, reqData, rnd); CreatesAddress(c, s, uid, reqData, rnd, r.0, r.1)
  {
    hide AddressHash, FromLe, CountShield, SlotWith, Keys;
    var k := Asked(c, reqData, rnd);
    var l := Lookup(s.t, k, 0);
    assert l.None? <==> forall v :: !Owns(s.t, v, k);
  }

  /** How many of the slots are of one kind. */
  lemma {:induction false} CountShieldIs(f: seq<FlagByte>, shield: bool)
    ensures CountShield(f, shield) == |set i | 0 <= i < |f| && (f[i] >= 128 <==> shield)|
  {
    if f != [] {
      var g := f[..|f| - 1];
      CountShieldIs(g, shield);
      var a, b := set i | 0 <= i < |f| && (f[i] >= 128 <==> shield), set i | 0 <= i < |g| && (g[i] >= 128 <==> shield);
      assert a == b + if f[|f| - 1] >= 128 <==> shield then {|f| - 1} else {};
    }
  }

  /** Deleting an address: the first slot with that hash goes, the later ones move up. */
  ghost predicate DeletesAddress(s: State, uid: nat, reqData: seq<byte>, s': State, r: Reply)
    requires Formed(s.t) && uid < USERS && s.t[uid].Some? && |reqData| == REQ_DATA_LEN
  {
    var u, hash := s.t[uid].value, FromLe(reqData[..8]);
    var n := u.addrCount;
    if hash !in u.addrHash[..n] then s' == s && r == Status(NotExist) else
    && r == Status(Ok) && OnlyRecord(s, s', uid) && s'.t[uid].Some?
    && var x := s'.t[uid].value;
       && x == u.(addrCount := n - 1, addrHash := x.addrHash, addrFlag := x.addrFlag)
       && |x.addrHash| == |x.addrFlag| == 31
       && exists d :: 0 <= d < n && u.addrHash[d] == hash && hash !in u.addrHash[..d]
            && x.addrHash[..n - 1] == u.addrHash[..d] + u.addrHash[d + 1..n]
            && x.addrFlag[..n - 1] == u.addrFlag[..d] + u.addrFlag[d + 1..n]
  }

  lemma {:induction false} AddressDeleteExact(s: State, uid: nat, reqData: seq<byte>)
    requires Formed(s.t) && uid < USERS && s.t[uid].Some? && |reqData| == REQ_DATA_LEN
    ensures var r := AddressDelete(s, uid, reqData); DeletesAddress(s, uid, reqData, r.0, r.1)
  {
    hide FromLe;
    var u, hash := s.t[uid].value, FromLe(reqData[..8]);
    assert UserOk(u);
    var n, d := u.addrCount, SlotOfHash(u, reqData[..8], 0);
    if d < n {
      assert u.addrHash[..n][d] == hash;
      var x := WithoutSlot(u, d);
      assert x.addrHash[..n - 1] == u.addrHash[..d] + u.addrHash[d + 1..n];
      assert x.addrFlag[..n - 1] == u.addrFlag[..d] + u.addrFlag[d + 1..n];
    }
  }

  // ---- Whole runs ---------------------------------------------------------------------------------

  ghost predicate EventsOk(evs: seq<Event>)
  {
    forall i :: 0 <= i < |evs| ==> EventOk(evs[i])
  }

  ghost function After(c: Config, s: State, ev: Event): (r: State)
    requires c.Lawful() && StateOk(s) && EventOk(ev)
    ensures StateOk(r)
  {
    StepKeepsOk(c, s, ev);
    Step(c, s, ev).1
  }

  ghost function Run(c: Config, s: State, evs: seq<Event>): (r: State)
    requires c.Lawful() && StateOk(s) && EventsOk(evs)
    ensures StateOk(r)
    decreases |evs|
  {
    if evs == [] then s else Run(c, After(c, s, evs[0]), evs[1..])
  }

  /** User u keeps an account through every step of the run. */
  ghost predicate Lives(c: Config, s: State, evs: seq<Event>, u: nat)
    requires c.Lawful() && StateOk(s) && EventsOk(evs) && u < USERS
    decreases |evs|
  {
    s.t[u].Some? && (evs != [] ==> Lives(c, After(c, s, evs[0]), evs[1..], u))
  }

  /** The timestamps of the requests accepted for user u, in order. */
  ghost function Accepted(c: Config, s: State, evs: seq<Event>, u: nat): (r: seq<nat>)
    requires c.Lawful() && StateOk(s) && EventsOk(evs)
    decreases |evs|
  {
    if evs == [] then [] else
    (if Auth(c, s.t, evs[0].msg, evs[0].post, evs[0].now) == Some(u) then [BinTs(evs[0].msg)] else [])
    + Accepted(c, After(c, s, evs[0]), evs[1..], u)
  }

  lemma {:induction false} ActKeepsStamp(c: Config, s: State, uid: nat, ev: Event, v: nat)
    requires c.Lawful() && Formed(s.t) && |s.limits| == 12 && uid < USERS && s.t[uid].Some? && EventOk(ev)
    requires v < USERS && s.t[v].Some?
    ensures var s' := Act(c, s, uid, ev).0;
            |s'.t| == USERS && (s'.t[v].Some? ==> LastTs(s', v) == LastTs(s, v))
  {
    hide Command, Want, Lookup, FromLe, CountShield, SlotOfHash, BinTs, NewUser;
  }

  /** A step accepted for u moves u's recorded timestamp up to the request's; any
      other step leaves it, as long as the account lives. */
  lemma {:induction false} StepStamps(c: Config, s: State, ev: Event, u: nat)
    requires c.Lawful() && StateOk(s) && EventOk(ev) && u < USERS && s.t[u].Some?
    ensures var r := Step(c, s, ev);
            && |r.1.t| == USERS
            && (r.0 == Some(u) ==> BinTs(ev.msg) > LastTs(s, u))
            && (r.1.t[u].Some? ==> LastTs(r.1, u) == if r.0 == Some(u) then BinTs(ev.msg) else LastTs(s, u))
  {
    hide Act, Command, Unique, NonZero, BinTs, FirstKey;
    StepKeepsOk(c, s, ev);
    var a := Auth(c, s.t, ev.msg, ev.post, ev.now);
    if a.Some? { ActKeepsStamp(c, Stamped(s, a.value, BinTs(ev.msg)), a.value, ev, u); }
  }

  ghost predicate Increasing(ts: seq<nat>, above: nat)
  {
    && (forall i :: 0 <= i < |ts| ==> ts[i] > above)
    && (forall i, j :: 0 <= i < j < |ts| ==> ts[i] < ts[j])
  }

  /** While an account lives, the timestamps accepted for it strictly increase, so
      no request is accepted for it twice. */
  lemma {:induction false} AcceptedIncrease(c: Config, s: State, evs: seq<Event>, u: nat)
    requires c.Lawful() && StateOk(s) && EventsOk(evs) && u < USERS
    requires Lives(c, s, evs, u)
    ensures Increasing(Accepted(c, s, evs, u), LastTs(s, u))
    decreases |evs|
  {
    hide Step, Unique, NonZero, BinTs;
    if evs != [] {
      StepStamps(c, s, evs[0], u);
      AcceptedIncrease(c, After(c, s, evs[0]), evs[1..], u);
    }
  }

  /** In every run, addresses stay unique and nonzero, counts stay in bounds, the
      scan stays the owner map, and user 0 stays at the highest level. */
  lemma {:induction false} RunKeepsOrder(c: Config, s: State, evs: seq<Event>, k: Key, u: nat)
    requires c.Lawful() && StateOk(s) && EventsOk(evs)
    ensures var t := Run(c, s, evs).t;
            && Unique(t) && NonZero(t) && Master(t)
            && (forall v :: 0 <= v < USERS && t[v].Some? ==> t[v].value.addrCount <= ADDRESSES)
            && (Lookup(t, k, 0) == Some(u) <==> Owns(t, u, k))
            && (Lookup(t, k, 0) == None <==> forall v :: !Owns(t, v, k))
  {
    LookupIsOwner(Run(c, s, evs).t, k, u);
  }

  // ---- Whole requests -------------------------------------------------------------------------------

  /** What an accepted request does, by the number of its command. */
  ghost predicate Acts(c: Config, s: State, uid: nat, ev: Event, s': State, r: Reply)
    requires c.Lawful() && Formed(s.t) && |s.limits| == 12 && uid < USERS && s.t[uid].Some? && EventOk(ev)
  {
    var u := s.t[uid].value;
    var (cmd, data) := Command(c, u, ev);
    if !ev.post then
      && (cmd == 1 ==> DeletesAccount(s, uid, data, ev.storageOk, s', r))
      && (cmd == 2 ==> ChangesLevel(s, uid, data, s', r))
      && (cmd == 3 ==> CreatesAddress(c, s, uid, data, ev.rnd, s', r))
      && (cmd == 4 ==> DeletesAddress(s, uid, data, s', r))
      && (cmd == 10 ==> s' == s.(limits := data[..12]) && r == Status(Ok))
      && (cmd == 6 ==> s' == s && r == Status(Ok))
      && (cmd == 0 || 7 <= cmd <= 9 ==> s' == s && r == Information)
      && (cmd == 5 || cmd > 10 ==> s' == s && r == Status(BadCommand))
    else if (cmd == 0 || cmd == 5) && |ev.msg| > 39 then
      var body := c.openBody(u.uak, BinTs(ev.msg), ev.msg[39..]);
      && (body.None? ==> s' == s && r == Error)
      && (body.Some? && cmd == 0 ==> CreatesAccount(c, s, body.value, ev.storageOk, s', r))
      && (body.Some? && cmd == 5 ==> ChangesPrivate(c, s, uid, body.value, s', r))
    else s' == s && r == if cmd == 0 || cmd == 5 then Continue else if cmd == 1 || cmd == 3 then Information else Error
  }

  lemma {:induction false} ActSpec(c: Config, s: State, uid: nat, ev: Event)
    requires c.Lawful() && Formed(s.t) && |s.limits| == 12 && uid < USERS && s.t[uid].Some? && EventOk(ev)
    ensures var r := Act(c, s, uid, ev); Acts(c, s, uid, ev, r.0, r.1)
  {
    hide AddressCreate, AddressDelete, AccountDelete, AccountUpdate, AccountCreate, PrivateUpdate, Command, BinTs;
    hide CreatesAddress, DeletesAddress, DeletesAccount, ChangesLevel, CreatesAccount, ChangesPrivate, UserOk;
    var u := s.t[uid].value;
    var (cmd, data) := Command(c, u, ev);
    AccountDeleteSpec(s, uid, data, ev.storageOk);
    AccountUpdateSpec(s, uid, data);
    AddressCreateExact(c, s, uid, data, ev.rnd);
    AddressDeleteExact(s, uid, data);
    var body := c.openBody(u.uak, BinTs(ev.msg), ev.msg[REQ_LEN..]);
    if body.Some? {
      AccountCreateSpec(c, s, body.value, ev.storageOk);
      PrivateUpdateSpec(c, s, uid, body.value);
    }
  }

  /** A client that XORs command and data with the key for its timestamp is understood. */
  lemma {:induction false} CommandReads(c: Config, u: User, ev: Event, cmd: nat, data: seq<byte>)
    requires c.Lawful() && EventOk(ev) && cmd < 64 && |data| == 16
    requires var key := c.dataKey(u.uak, BinTs(ev.msg), ev.post);
      ev.msg[5] / 4 == XorBits(cmd, key[0] % 64, 6) && forall i :: 0 <= i < 16 ==> ev.msg[7 + i] == Xor(data[i], key[2 + i])
    ensures Command(c, u, ev) == (cmd, data)
  {
    hide XorBits, Xor, BinTs;
    var key := c.dataKey(u.uak, BinTs(ev.msg), ev.post);
    assert Pow2(6) == 64;
    XorBitsCancel(cmd, key[0] % 64, 6);
    forall i | 0 <= i < 16 ensures Command(c, u, ev).1[i] == data[i] { XorCancel(data[i], key[2 + i]); }
    assert Command(c, u, ev).1 == data;
  }

  /** The request's code is right for this user's key. */
  ghost predicate Authentic(c: Config, u: User, ev: Event)
    requires EventOk(ev)
  {
    c.mac(u.uak, FromLe(ev.msg[..6]) % 0x400_0000_0000, ev.post, ev.msg[5..23]) == ev.msg[23..39]
  }

  lemma {:induction false} FirstKeyIsFirst(c: Config, t: Table, ev: Event, from: nat)
    requires |t| == USERS && EventOk(ev) && from <= USERS
    ensures var r := FirstKey(c, t, ev.msg, ev.post, from);
      && (r.Some? ==> from <= r.value < USERS && t[r.value].Some? && Authentic(c, t[r.value].value, ev))
      && (forall v :: from <= v < (if r.Some? then r.value else USERS) && t[v].Some? ==> !Authentic(c, t[v].value, ev))
    decreases USERS - from
  {
    hide FromLe;
    if from < USERS { FirstKeyIsFirst(c, t, ev, from + 1); }
  }

  /** Whom a request is accepted for: the first user for whose key its code is right,
      if it is newer than the last one accepted and within five seconds of the clock. */
  lemma {:induction false} AuthSpec(c: Config, t: Table, ev: Event, u: nat)
    requires |t| == USERS && EventOk(ev)
    ensures Auth(c, t, ev.msg, ev.post, ev.now) == Some(u) <==>
      && u < USERS && t[u].Some? && Authentic(c, t[u].value, ev)
      && (forall v :: 0 <= v < u && t[v].Some? ==> !Authentic(c, t[v].value, ev))
      && var ts := FromLe(ev.msg[..6]) % 0x400_0000_0000;
         t[u].value.lastBinTs < ts && -5000 <= ts - 1000 * (ev.now - 1735689600) <= 5000
  {
    hide FromLe, FirstKey, Authentic;
    FirstKeyIsFirst(c, t, ev, 0);
  }

  /** A whole request: nothing happens unless it is accepted; if it is, the user's
      timestamp is recorded and the command is carried out. */
  ghost predicate Steps(c: Config, s: State, ev: Event, accepted: Option<nat>, s': State, r: Reply)
    requires c.Lawful() && Formed(s.t) && |s.limits| == 12 && EventOk(ev)
  {
    match accepted
    case None => s' == s && r == Error
    case Some(u) =>
      && u < USERS && s.t[u].Some?
      && var stamped := s.(t := s.t[u := Some(s.t[u].value.(lastBinTs := FromLe(ev.msg[..6]) % 0x400_0000_0000))]);
         Formed(stamped.t) && Acts(c, stamped, u, ev, s', r)
  }

  lemma {:induction false} StepSpec(c: Config, s: State, ev: Event)
    requires c.Lawful() && Formed(s.t) && |s.limits| == 12 && EventOk(ev)
    ensures var r := Step(c, s, ev); Steps(c, s, ev, r.0, r.1, r.2)
  {
    hide Act, Acts, Auth, FromLe, UserOk;
    var a := Auth(c, s.t, ev.msg, ev.post, ev.now);
    if a.Some? { ActSpec(c, Stamped(s, a.value, BinTs(ev.msg)), a.value, ev); }
  }

  /** A request accepted for anyone below the highest level leaves every other existing
      account exactly as it was. */
  lemma {:induction false} LowLevelSparesOthers(c: Config, s: State, ev: Event, v: nat)
    requires c.Lawful() && StateOk(s) && EventOk(ev) && v < USERS && s.t[v].Some?
    ensures var r := Step(c, s, ev);
      |r.1.t| == USERS && (r.0.None? || (r.0.value != v && LevelOf(s, r.0.value) != LEVEL_MAX) ==> r.1.t[v] == s.t[v])
  {
    hide Act, Command, Auth, FromLe, Unique, NonZero, UserOk, BinTs, Owns, CountShield, AddressHash;
    StepSpec(c, s, ev);
    StepKeepsOk(c, s, ev);
  }

  /** No request of the run is accepted for user v or for an administrator. */
  ghost predicate LeavesAlone(c: Config, s: State, evs: seq<Event>, v: nat)
    requires c.Lawful() && StateOk(s) && EventsOk(evs)
    decreases |evs|
  {
    evs == [] ||
    (var a := Step(c, s, evs[0]).0;
     && (a.Some? ==> a.value != v && LevelOf(s, a.value) != LEVEL_MAX)
     && LeavesAlone(c, After(c, s, evs[0]), evs[1..], v))
  }

  /** Such a run leaves that account exactly as it was, whatever else it does. */
  lemma {:induction false} RunSparesOthers(c: Config, s: State, evs: seq<Event>, v: nat)
    requires c.Lawful() && StateOk(s) && EventsOk(evs) && v < USERS && s.t[v].Some?
    requires LeavesAlone(c, s, evs, v)
    ensures Run(c, s, evs).t[v] == s.t[v]
    decreases |evs|
  {
    hide Step, Unique, NonZero;
    if evs != [] {
      LowLevelSparesOthers(c, s, evs[0], v);
      RunSparesOthers(c, After(c, s, evs[0]), evs[1..], v);
    }
  }
}
