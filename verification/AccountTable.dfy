/** AEM-Account's global user table, updated in place (account/IO.c,
    account/IntCom_Action.c), and Creator's initial file (utils/Creator.c). */
module AccountTable {
  import opened Bytes
  import opened Accounts

  // ---- The account file -------------------------------------------------------------

  /** One record of the account file: user number and the structure as it is in memory. */
  datatype Record = Record(uid: u16, user: User)

  /** saveUser: the existing users, in order of user number. */
  function Records(t: Table): (r: seq<Record>)
    requires |t| <= USERS
    ensures forall i :: 0 <= i < |r| ==> r[i].uid < |t|
  {
    if t == [] then [] else
    var u := |t| - 1;
    Records(t[..u]) + if t[u].Some? then [Record(u, t[u].value)] else []
  }

  /** The records are the existing users, each once, in order of number. */
  lemma {:induction false} RecordsInOrder(t: Table)
    requires |t| <= USERS
    ensures forall i, j :: 0 <= i < j < |Records(t)| ==> Records(t)[i].uid < Records(t)[j].uid
    ensures forall i :: 0 <= i < |Records(t)| ==> t[Records(t)[i].uid] == Some(Records(t)[i].user)
  {
    if t != [] { RecordsInOrder(t[..|t| - 1]); }
  }

  lemma {:induction false} RecordsCount(t: Table)
    requires |t| <= USERS
    ensures |Records(t)| == |set u | 0 <= u < |t| && t[u].Some?|
  {
    if t != [] {
      var n := |t| - 1;
      RecordsCount(t[..n]);
      var a, b := set u | 0 <= u < |t| && t[u].Some?, set u | 0 <= u < n && t[..n][u].Some?;
      assert a == b + if t[n].Some? then {n} else {};
    }
  }

  /** The collecting loop of saveUser. */
  method CollectRecords(t: Table) returns (rs: seq<Record>)
    requires |t| == USERS
    ensures rs == Records(t)
  {
    rs := [];
    for i := 0 to |t|
      invariant rs == Records(t[..i])
    {
      assert t[..i + 1][..i] == t[..i];
      if t[i].Some? { rs := rs + [Record(i, t[i].value)]; }
    }
    assert t[..|t|] == t;
  }

  /** loadUser: records laid over a table; a user number out of range ends the load. */
  function Overlay(t: Table, rs: seq<Record>): (r: Table)
    requires |t| == USERS
    ensures |r| == USERS
    decreases |rs|
  {
    if rs == [] || rs[0].uid >= USERS then t else Overlay(t[rs[0].uid := Some(rs[0].user)], rs[1..])
  }

  function Nobody(n: nat): Table
  {
    seq(n, _ => None)
  }

  lemma {:induction false} OverlayAppend(t: Table, rs: seq<Record>, x: Record)
    requires |t| == USERS && x.uid < USERS
    requires forall i :: 0 <= i < |rs| ==> rs[i].uid < USERS
    ensures Overlay(t, rs + [x]) == Overlay(t, rs)[x.uid := Some(x.user)]
    decreases |rs|
  {
    if rs == [] {
      assert (rs + [x])[1..] == [];
    } else {
      assert (rs + [x])[1..] == rs[1..] + [x];
      OverlayAppend(t[rs[0].uid := Some(rs[0].user)], rs[1..], x);
    }
  }

  lemma {:induction false} OverlayRecords(t: Table, n: nat)
    requires |t| == USERS && n <= USERS
    ensures Overlay(Nobody(USERS), Records(t[..n])) == t[..n] + Nobody(USERS - n)
  {
    hide Overlay, Records;
    if n == 0 {
      OverlayNothing(t);
      assert t[..0] + Nobody(USERS) == Nobody(USERS);
    } else {
      var u := n - 1;
      OverlayRecords(t, u);
      RecordsStep(t, u);
      PlaceNext(t, u);
      if t[u].Some? { OverlayAppend(Nobody(USERS), Records(t[..u]), Record(u, t[u].value)); }
    }
  }

  lemma OverlayNothing(t: Table)
    ensures Records(t[..0]) == [] && Overlay(Nobody(USERS), []) == Nobody(USERS)
  {
  }

  lemma {:induction false} RecordsStep(t: Table, u: nat)
    requires u < |t| <= USERS
    ensures t[u].Some? ==> Records(t[..u + 1]) == Records(t[..u]) + [Record(u, t[u].value)]
    ensures t[u].None? ==> Records(t[..u + 1]) == Records(t[..u])
  {
    assert t[..u + 1][..u] == t[..u];
  }

  lemma {:induction false} PlaceNext(t: Table, u: nat)
    requires |t| == USERS && u < USERS
    ensures (t[..u] + Nobody(USERS - u))[u := t[u]] == t[..u + 1] + Nobody(USERS - u - 1)
    ensures t[u].None? ==> t[..u] + Nobody(USERS - u) == t[..u + 1] + Nobody(USERS - u - 1)
  {
  }

  /** Saving then loading is the identity on every table. */
  lemma {:induction false} SaveLoad(t: Table)
    requires |t| == USERS
    ensures Overlay(Nobody(USERS), Records(t)) == t
  {
    OverlayRecords(t, USERS);
    assert t[..USERS] == t;
  }

  /** The file, decrypted; or nothing to decrypt, after a save that truncated it. */
  type AccountFile = Option<seq<Record>>

  /** Which of the two calls of a save succeed. */
  datatype Disk = Disk(open: bool, write: bool)

  predicate Loadable(file: AccountFile)
  {
    file.Some? && forall i :: 0 <= i < |file.value| ==> file.value[i].uid < USERS
  }

  /** The file holds this table. */
  predicate Holds(file: AccountFile, t: Table)
  {
    Loadable(file) && Overlay(Nobody(USERS), file.value) == t
  }

  /** What a save leaves. */
  function Saved(file: AccountFile, t: Table, disk: Disk): AccountFile
    requires |t| <= USERS
  {
    if !disk.open then file else if disk.write then Some(Records(t)) else None
  }

  lemma {:induction false} SavedHolds(file: AccountFile, t: Table)
    requires |t| == USERS
    ensures Holds(Some(Records(t)), t)
  {
    SaveLoad(t);
  }

  /** From a file that holds the table, one request leaves a file that holds the new
      table exactly when it was not accepted, or was saved: an accepted one always
      changes the table, if only its user's timestamp. */
  lemma {:induction false} FileAfterStep(c: Config, s: State, ev: Event, file: AccountFile, disk: Disk)
    requires c.Lawful() && StateOk(s) && EventOk(ev) && Holds(file, s.t)
    ensures var r := Step(c, s, ev);
      && |r.1.t| == USERS
      && var file' := if StepSaves(c, s, ev) then Saved(file, r.1.t, disk) else file;
         && (Holds(file', r.1.t) <==> r.0.None? || (StepSaves(c, s, ev) && disk.open && disk.write))
         && (!Loadable(file') <==> StepSaves(c, s, ev) && disk.open && !disk.write)
  {
    hide Unique, NonZero, Act, Command, BinTs, Overlay, Records, FirstKey, Saves;
    StepKeepsOk(c, s, ev);
    var r := Step(c, s, ev);
    SavedHolds(file, r.1.t);
    if r.0.Some? { StepStamps(c, s, ev, r.0.value); }
  }

  /** Everything an accepted request changes in the table but its user's timestamp is
      saved, and nothing is for a request that is refused. */
  lemma {:induction false} ChangesAreSaved(c: Config, s: State, ev: Event)
    requires c.Lawful() && StateOk(s) && EventOk(ev)
    ensures var r := Step(c, s, ev);
      && (StepSaves(c, s, ev) ==> r.0.Some?)
      && (r.0.Some? ==> r.0.value < USERS && s.t[r.0.value].Some?)
      && (r.0.Some? && r.1.t != Stamped(s, r.0.value, BinTs(ev.msg)).t ==> StepSaves(c, s, ev))
  {
    hide Command, Auth, BinTs, Unique, NonZero, Want, Lookup, FromLe, SlotOfHash;
  }

  /** The file after a run of requests, each with its own disk. */
  ghost function FileAfter(c: Config, s: State, evs: seq<Event>, file: AccountFile, disks: seq<Disk>): AccountFile
    requires c.Lawful() && StateOk(s) && EventsOk(evs) && |disks| == |evs|
    decreases |evs|
  {
    if evs == [] then file
    else
      var next := After(c, s, evs[0]);
      FileAfter(c, next, evs[1..], if StepSaves(c, s, evs[0]) then Saved(file, next.t, disks[0]) else file, disks[1..])
  }

  // ---- Creator's account file ------------------------------------------------------------

  /** genSmk: draw server keys until the master administrator's user number is 0. */
  function PickMaster(userId: seq<byte> -> nat, draws: seq<User>): (r: Option<User>)
    ensures r.Some? ==> r.value in draws && userId(r.value.uak) % USERS == 0
  {
    if draws == [] then None
    else if userId(draws[0].uak) % USERS == 0 then Some(draws[0])
    else PickMaster(userId, draws[1..])
  }

  /** Draw k is the first with user number 0. */
  ghost predicate FirstMaster(userId: seq<byte> -> nat, draws: seq<User>, k: nat)
  {
    k < |draws| && userId(draws[k].uak) % 4096 == 0 && forall j :: 0 <= j < k ==> userId(draws[j].uak) % 4096 != 0
  }

  /** It is picked, and nobody exactly if there is none. */
  lemma {:induction false} PickMasterIsFirst(userId: seq<byte> -> nat, draws: seq<User>)
    ensures var r := PickMaster(userId, draws);
      && (r.None? <==> forall k: nat :: !FirstMaster(userId, draws, k))
      && (r.Some? ==> exists k: nat :: FirstMaster(userId, draws, k) && draws[k] == r.value)
  {
    if draws != [] {
      var rest := draws[1..];
      PickMasterIsFirst(userId, rest);
      if userId(draws[0].uak) % 4096 == 0 {
        assert FirstMaster(userId, draws, 0);
      } else {
        forall k: nat ensures FirstMaster(userId, draws, k + 1) <==> FirstMaster(userId, rest, k) {
          assert forall j :: 1 <= j < |draws| ==> draws[j] == rest[j - 1];
          assert forall j :: 0 <= j < |rest| ==> rest[j] == draws[j + 1];
        }
        forall k: nat | FirstMaster(userId, draws, k) ensures k > 0 && FirstMaster(userId, rest, k - 1) {
          assert k > 0;
          assert FirstMaster(userId, draws, k - 1 + 1);
        }
      }
    }
  }

  method GenSmk(userId: seq<byte> -> nat, draws: seq<User>) returns (r: Option<User>)
    ensures r == PickMaster(userId, draws)
  {
    for i := 0 to |draws|
      invariant PickMaster(userId, draws) == PickMaster(userId, draws[i..])
    {
      if userId(draws[i].uak) % USERS == 0 { return Some(draws[i]); }
      assert draws[i..][1..] == draws[i + 1..];
    }
    r := None;
  }

  /** createAccount: a single record, user 0 at the highest level, no addresses. */
  function CreatorFile(master: User): seq<Record>
  {
    [Record(0, master.(level := LEVEL_MAX))]
  }

  /** What Account loads from it satisfies every invariant of the table, and the
      user it holds is the one its own key names. */
  lemma {:induction false} CreatorFileIsOk(master: User)
    requires UserOk(master) && master.addrCount == 0
    ensures var t := Overlay(Nobody(USERS), CreatorFile(master));
      TableOk(t) && t[0] == Some(master.(level := 3)) && forall u :: 0 < u < USERS ==> t[u] == None
  {
    var m := master.(level := LEVEL_MAX);
    var t := Overlay(Nobody(USERS), CreatorFile(master));
    assert CreatorFile(master)[1..] == [];
    assert t == Overlay(Nobody(USERS)[0 := Some(m)], []);
    assert t == Nobody(USERS)[0 := Some(m)];
    assert Keys(m) == [];
    assert forall u, k :: !Owns(t, u, k);
  }

  /** What the owner's settings for an address make of mail to it: delivered, with four
      of the settings, if outside mail is accepted. */
  function MtaAnswer(uid: nat, f: FlagByte, shield: bool): MtaReply
  {
    if f / 2 % 2 == 1 then Deliver(uid, f / 4 % 16 * 4) else if shield then Unknown else Pretend
  }

  /** The settings by their bits: bit 1 admits outside mail, and bits 2 to 5 go with it. */
  lemma {:induction false} SettingsBits(uid: nat, f: FlagByte, shield: bool, i: nat)
    requires i < 8
    ensures var r := MtaAnswer(uid, f, shield);
      && (r.Deliver? <==> Bit(f, 1) == 1)
      && (r.Deliver? ==> r.uid == uid && Bit(r.settings, i) == if 2 <= i <= 5 then Bit(f, i) else 0)
  {
    var r := MtaAnswer(uid, f, shield);
    assert Bit(f, 1) == Bit(f / 2, 0);
    if r.Deliver? {
      var q := f / 4 % 16;
      assert f / 2 / 2 == f / 4;
      if i >= 2 {
        assert r.settings / 2 / 2 == q;
        assert Bit(r.settings, i) == Bit(r.settings / 2, i - 1) == Bit(q, i - 2);
        assert Bit(f, i) == Bit(f / 2, i - 1) == Bit(f / 4, i - 2);
        SixteenBits(f / 4, i - 2);
      } else if i == 1 {
        assert Bit(r.settings, 1) == Bit(r.settings / 2, 0);
      }
    }
  }

  lemma {:induction false} SixteenBits(x: nat, i: nat)
    requires i < 6
    ensures Bit(x % 16, i) == if i < 4 then Bit(x, i) else 0
  {
    var q, y := x / 16, x % 16;
    assert Above(q, 1) == 2 * q && Above(q, 2) == 4 * q && Above(q, 3) == 8 * q && Above(q, 4) == 16 * q;
    assert x == Above(q, 4) + y;
    if i < 4 { BitBelow(q, y, 4, i); } else { assert Pow2(4) == 16; NoBitAbove(y, 4, i); }
  }

  /** A new address takes outside mail, of all versions and with attachments. */
  lemma {:induction false} NewAddressTakesMail(c: Config, s: State, uid: nat, reqData: seq<byte>, rnd: seq<byte>, s': State, r: Reply)
    requires Formed(s.t) && uid < USERS && s.t[uid].Some? && |s.limits| == 12
    requires |reqData| == REQ_DATA_LEN && |rnd| == 10
    requires CreatesAddress(c, s, uid, reqData, rnd, s', r) && (r == Status(Ok) || r.NewShield?)
    ensures Formed(s'.t) && s'.t[uid].Some?
    ensures var u, i, k := s'.t[uid].value, s.t[uid].value.addrCount, Asked(c, reqData, rnd);
      i < u.addrCount && KeyAt(u, i) == k && MtaAnswer(uid, u.addrFlag[i], k.shield) == Deliver(uid, 12)
  {
    hide Asked, CountShield, Owns;
    assert forall v :: 0 <= v < USERS && v != uid ==> s'.t[v] == s.t[v];
    assert UserOk(s.t[uid].value);
  }

  lemma {:induction false} MovedDown<T>(s: seq<T>, r: seq<T>, d: nat, n: nat)
    requires |r| == |s| && d + 1 + n <= |s|
    requires forall j :: 0 <= j < |s| ==> r[j] == s[if d <= j < d + n then j + 1 else j]
    ensures r == Memmove(s, d, d + 1, n)
  {
    var m := Memmove(s, d, d + 1, n);
    forall j | 0 <= j < |s| ensures r[j] == m[j] {
      if j < d { assert m[j] == s[..d][j]; }
      else if j < d + n { assert m[j] == s[d + 1..d + 1 + n][j - d]; }
      else { assert m[j] == s[d + n..][j - (d + n)]; }
    }
  }

  datatype MtaReply = Invalid | Unknown | Pretend | Deliver(uid: nat, settings: byte)

  class AccountTable {
    const c: Config
    const user: array<Option<User>>
    var limits: seq<byte>
    var apiUid: nat
    var accountFile: AccountFile

    function State(): State
      reads this, user
    {
      Accounts.State(user[..], limits)
    }

    ghost predicate Valid()
      reads this, user
    {
      c.Lawful() && user.Length == USERS && StateOk(State())
    }

    constructor Load(c: Config, file: seq<Record>, limits: seq<byte>)
      requires c.Lawful() && |limits| == 12
      ensures fresh(user) && user.Length == USERS && this.c == c && accountFile == Some(file)
      ensures State() == Accounts.State(Overlay(Nobody(USERS), file), limits)
      ensures Valid() <==> TableOk(Overlay(Nobody(USERS), file))
    {
      this.c, this.limits, this.apiUid, this.accountFile := c, limits, 0, Some(file);
      user := new Option<User>[USERS](_ => None);
      new;
      assert user[..] == Nobody(USERS);
      var i := 0;
      while i < |file| && file[i].uid < USERS
        invariant 0 <= i <= |file| && this.limits == limits && accountFile == Some(file)
        invariant Overlay(user[..], file[i..]) == Overlay(Nobody(USERS), file)
      {
        ghost var before := user[..];
        assert file[i..][1..] == file[i + 1..];
        user[file[i].uid] := Some(file[i].user);
        assert user[..] == before[file[i].uid := Some(file[i].user)];
        i := i + 1;
      }
    }

    /** ioSetup: a file that cannot be read, or names a user that cannot be, stops the
        program; any other is loaded. */
    static method Start(c: Config, file: AccountFile, limits: seq<byte>) returns (t: AccountTable?)
      requires c.Lawful() && |limits| == 12
      ensures t == null <==> !Loadable(file)
      ensures t != null ==> fresh(t) && fresh(t.user) && t.user[..] == Overlay(Nobody(USERS), file.value)
    {
      if !Loadable(file) { return null; }
      t := new AccountTable.Load(c, file.value, limits);
      assert t.user[..] == t.State().t;
    }

    /** Starting again finds every account as it was if and only if the file holds the
        table in memory; from a truncated file the program does not start. */
    static method Restart(s: AccountTable) returns (t: AccountTable?)
      requires s.Valid()
      ensures t == null <==> !Loadable(s.accountFile)
      ensures t != null && t.user[..] == s.user[..] <==> Holds(s.accountFile, s.user[..])
    {
      t := Start(s.c, s.accountFile, s.limits);
    }

    /** The file after an operation: as it was unless the operation saved, else as the
        save left it. */
    twostate predicate Recorded(saving: bool, disk: Disk)
      requires user.Length == USERS
      reads this, user
    {
      accountFile == if saving then Saved(old(accountFile), user[..], disk) else old(accountFile)
    }

    /** The file is truncated on opening, so a write that fails then leaves it empty. */
    method SaveUser(disk: Disk)
      requires user.Length == USERS
      modifies this`accountFile
      ensures Recorded(true, disk)
    {
      var rs := CollectRecords(user[..]);
      if !disk.open { return; }
      accountFile := None;  // O_TRUNC
      if !disk.write { return; }
      accountFile := Some(rs);
    }

    // ---- Scans --------------------------------------------------------------------------

    method HashToUid(hash: u64, isShield: bool) returns (uid: Option<nat>, flagp: FlagByte)
      requires Valid()
      ensures uid == Lookup(user[..], Key(hash, isShield), 0)
      ensures uid.Some? ==> var u := user[uid.value].value; flagp == u.addrFlag[SlotWith(u, Key(hash, isShield), 0)]
    {
      var k := Key(hash, isShield);
      flagp := 0;
      for u := 0 to USERS
        invariant Lookup(user[..], k, 0) == Lookup(user[..], k, u)
      {
        if user[u].Some? {
          var x := user[u].value;
          var i := 0;
          while i < x.addrCount
            invariant 0 <= i <= x.addrCount
            invariant SlotWith(x, k, i) == SlotWith(x, k, 0)
          {
            if hash == x.addrHash[i] && Shield(x.addrFlag[i]) == isShield {
              return Some(u), x.addrFlag[i];
            }
            i := i + 1;
          }
        }
      }
      uid := None;
    }

    method NumAddresses(uid: nat, shield: bool) returns (counter: nat)
      requires Valid() && uid < USERS && user[uid].Some?
      ensures counter == CountShield(user[uid].value.addrFlag[..user[uid].value.addrCount], shield)
    {
      counter := 0;
      var u := user[uid].value;
      for i := 0 to u.addrCount
        invariant counter == CountShield(u.addrFlag[..i], shield)
      {
        assert u.addrFlag[..i + 1][..i] == u.addrFlag[..i];
        if Shield(u.addrFlag[i]) == shield { counter := counter + 1; }
      }
    }

    // ---- Operations -----------------------------------------------------------------------

    method ApiAddressCreate(reqData: seq<byte>, rnd: seq<byte>, disk: Disk) returns (r: Reply)
      requires Valid() && apiUid < USERS && user[apiUid].Some? && |reqData| == REQ_DATA_LEN && |rnd| == 10
      modifies this`accountFile, user
      ensures Valid() && Recorded(SavedFor(r), disk)
      ensures (State(), r) == AddressCreate(c, old(State()), apiUid, reqData, rnd)
      ensures CreatesAddress(c, old(State()), apiUid, reqData, rnd, State(), r)
    {
      hide CreatesAddress;
      AddressCreateExact(c, State(), apiUid, reqData, rnd);
      hide Unique, NonZero, Want, Lookup, Limit, WithAddress, Records, UserOk, AddressHash, Owns, Master, Keys;
      ghost var s := State();
      ghost var after := AddressCreate(c, s, apiUid, reqData, rnd);
      assert StateOk(after.0) by { AddressCreateSpec(c, s, apiUid, reqData, rnd); }
      var u := user[apiUid].value;
      var isShield := forall i :: 0 <= i < 8 ==> reqData[i] == 0;
      var w := FreeAddress(u, isShield, reqData, rnd);
      if w.Refused? {
        r := Status(w.code);
      } else {
        PutAddress(u, w.k, disk);
        r := if isShield then NewShield(w.k.hash, w.addr32) else Status(Ok);
      }
      assert State() == after.0 && r == after.1;
    }

    method PutAddress(u: User, k: Key, disk: Disk)
      requires user.Length == USERS && apiUid < USERS && UserOk(u) && u.addrCount < ADDRESSES
      modifies this`accountFile, user
      ensures State() == old(State()).(t := old(State()).t[apiUid := Some(WithAddress(u, k))])
      ensures Recorded(true, disk)
    {
      hide WithAddress;
      ghost var t := user[..];
      var x := AddSlot(u, k);
      user[apiUid] := Some(x);
      assert user[..] == t[apiUid := Some(x)];
      SaveUser(disk);
    }

    /** Everything that may stand against a new address. */
    method FreeAddress(u: User, isShield: bool, reqData: seq<byte>, rnd: seq<byte>) returns (w: Wanted)
      requires Valid() && apiUid < USERS && user[apiUid] == Some(u) && |reqData| == REQ_DATA_LEN && |rnd| == 10
      requires isShield == forall i :: 0 <= i < 8 ==> reqData[i] == 0
      ensures w == if u.addrCount >= ADDRESSES then Refused(AtLimit) else
                   var wanted := Want(c, State(), u, reqData, rnd);
                   if wanted.Address? && Lookup(user[..], wanted.k, 0).Some? then Refused(InUse) else wanted
    {
      hide Unique, NonZero, Want, Lookup, Limit, Owns;
      assert UserOk(u);
      if u.addrCount >= ADDRESSES { return Refused(AtLimit); }
      var n := NumAddresses(apiUid, isShield);
      w := WantedAddress(u, isShield, n, reqData, rnd);
      if w.Refused? { return; }
      var owner, _ := HashToUid(w.k.hash, isShield);
      if owner.Some? { w := Refused(InUse); }
    }

    /** One more slot in use, in both columns. */
    method AddSlot(u: User, k: Key) returns (x: User)
      requires UserOk(u) && u.addrCount < ADDRESSES
      ensures x == WithAddress(u, k)
    {
      x := u.(addrHash := u.addrHash[u.addrCount := k.hash],
              addrFlag := u.addrFlag[u.addrCount := if k.shield then FLAGS_DEFAULT + FLAG_SHIELD else FLAGS_DEFAULT]);
      x := x.(addrCount := u.addrCount + 1);
    }

    /** The limit, the forbidden hashes, and the hash itself. */
    method WantedAddress(u: User, isShield: bool, n: nat, reqData: seq<byte>, rnd: seq<byte>) returns (w: Wanted)
      requires Valid() && UserOk(u) && |reqData| == REQ_DATA_LEN && |rnd| == 10
      requires isShield == forall i :: 0 <= i < 8 ==> reqData[i] == 0
      requires n == CountShield(u.addrFlag[..u.addrCount], isShield)
      ensures w == Want(c, State(), u, reqData, rnd)
    {
      if isShield {
        if n >= limits[3 * u.level + 2] { return Refused(AtLimit); }
        var addr32 := [rnd[0] % 128 + 128] + rnd[1..];
        var hash := AddressHash(c, addr32);
        if hash == 0 { return Refused(InUse); }
        w := Address(Key(hash, true), addr32);
      } else {
        if n >= limits[3 * u.level + 1] { return Refused(AtLimit); }
        FromLeBound(reqData[..8]);
        Ranges();
        var hash := FromLe(reqData[..8]);
        if u.level != LEVEL_MAX {
          for i := 0 to |c.adminHashes|
            invariant hash == FromLe(reqData[..8]) && hash !in c.adminHashes[..i]
          {
            if hash == c.adminHashes[i] { return Refused(InUse); }
            assert c.adminHashes[..i + 1] == c.adminHashes[..i] + [c.adminHashes[i]];
          }
          assert c.adminHashes[..|c.adminHashes|] == c.adminHashes;
        }
        if hash == 0 || hash == c.systemHash { return Refused(InUse); }
        w := Address(Key(hash, false), rnd);
      }
    }

    /** The later slots moved down by one, in both columns. */
    method ShiftDown(u: User, delNum: nat) returns (x: User)
      requires UserOk(u) && delNum < u.addrCount
      ensures x == WithoutSlot(u, delNum)
    {
      var hash, flag := u.addrHash, u.addrFlag;
      for i := delNum to u.addrCount - 1
        invariant |hash| == |flag| == ADDRESSES
        invariant forall j :: 0 <= j < ADDRESSES ==> hash[j] == u.addrHash[if delNum <= j < i then j + 1 else j]
        invariant forall j :: 0 <= j < ADDRESSES ==> flag[j] == u.addrFlag[if delNum <= j < i then j + 1 else j]
      {
        hash, flag := hash[i := hash[i + 1]], flag[i := flag[i + 1]];
      }
      MovedDown(u.addrHash, hash, delNum, u.addrCount - 1 - delNum);
      MovedDown(u.addrFlag, flag, delNum, u.addrCount - 1 - delNum);
      x := u.(addrHash := hash, addrFlag := flag, addrCount := u.addrCount - 1);
    }

    method ApiAddressDelete(reqData: seq<byte>, disk: Disk) returns (r: Reply)
      requires Valid() && apiUid < USERS && user[apiUid].Some? && |reqData| == REQ_DATA_LEN
      modifies this`accountFile, user
      ensures Valid() && Recorded(SavedFor(r), disk)
      ensures (State(), r) == AddressDelete(old(State()), apiUid, reqData)
      ensures DeletesAddress(old(State()), apiUid, reqData, State(), r)
    {
      hide DeletesAddress;
      AddressDeleteExact(State(), apiUid, reqData);
      hide WithoutSlot, Unique, NonZero, FromLe;
      ghost var s := State();
      AddressDeleteSpec(s, apiUid, reqData);
      var u := user[apiUid].value;
      var delNum := 0;
      while delNum < u.addrCount
        invariant 0 <= delNum <= u.addrCount
        invariant SlotOfHash(u, reqData[..8], delNum) == SlotOfHash(u, reqData[..8], 0)
      {
        if FromLe(reqData[..8]) == u.addrHash[delNum] { break; }
        delNum := delNum + 1;
      }
      if delNum == u.addrCount { return Status(NotExist); }

      var x := ShiftDown(u, delNum);
      user[apiUid] := Some(x);
      assert user[..] == s.t[apiUid := Some(x)];
      SaveUser(disk);
      r := Status(Ok);
    }

    method ApiAccountDelete(reqData: seq<byte>, storageOk: bool, disk: Disk) returns (r: Reply)
      requires Valid() && apiUid < USERS && user[apiUid].Some? && |reqData| == REQ_DATA_LEN
      modifies this`accountFile, user
      ensures Valid() && Recorded(SavedFor(r), disk)
      ensures (State(), r) == AccountDelete(old(State()), apiUid, reqData, storageOk)
      ensures DeletesAccount(old(State()), apiUid, reqData, storageOk, State(), r)
    {
      hide DeletesAccount;
      AccountDeleteSpec(State(), apiUid, reqData, storageOk);
      ghost var s := State();
      AccountDeleteKeepsOk(s, apiUid, reqData, storageOk);
      var delUid := FromLe(reqData[..2]);
      if delUid == 0 { return Status(ForbidMaster); }
      if delUid >= USERS { return Status(Param); }
      if user[apiUid].value.level != LEVEL_MAX && apiUid != delUid { return Status(LevelTooLow); }
      if user[delUid].None? { return Status(NotExist); }
      user[delUid] := None;
      assert user[..] == s.t[delUid := None];
      SaveUser(disk);
      r := Status(if storageOk then Ok else NoStorage);
    }

    method ApiAccountUpdate(reqData: seq<byte>, disk: Disk) returns (r: Reply)
      requires Valid() && apiUid < USERS && user[apiUid].Some? && |reqData| == REQ_DATA_LEN
      modifies this`accountFile, user
      ensures Valid() && Recorded(SavedFor(r), disk)
      ensures (State(), r) == AccountUpdate(old(State()), apiUid, reqData)
      ensures ChangesLevel(old(State()), apiUid, reqData, State(), r)
    {
      hide ChangesLevel;
      AccountUpdateSpec(State(), apiUid, reqData);
      ghost var s := State();
      AccountUpdateKeepsOk(s, apiUid, reqData);
      var updUid := FromLe(reqData[..2]);
      var newLvl := reqData[2];
      if updUid == 0 { return Status(ForbidMaster); }
      if updUid >= USERS { return Status(Param); }
      var level := user[apiUid].value.level;
      if level != LEVEL_MAX && (apiUid != updUid || newLvl > level) { return Status(LevelTooLow); }
      if user[updUid].None? { return Status(NotExist); }
      user[updUid] := Some(user[updUid].value.(level := newLvl % 4));
      assert user[..] == s.t[updUid := Some(s.t[updUid].value.(level := newLvl % 4))];
      SaveUser(disk);
      r := Status(Ok);
    }

    method ApiAccountCreate(data: seq<byte>, storageOk: bool, disk: Disk) returns (r: Reply)
      requires Valid()
      modifies this`accountFile, user
      ensures Valid() && Recorded(SavedFor(r), disk)
      ensures (State(), r) == AccountCreate(c, old(State()), data, storageOk)
      ensures CreatesAccount(c, old(State()), data, storageOk, State(), r)
    {
      hide CreatesAccount;
      AccountCreateSpec(c, State(), data, storageOk);
      ghost var s := State();
      AccountCreateKeepsOk(c, s, data, storageOk);
      if |data| != UAK_LEN + PWK_LEN { return Status(Param); }
      var newUid := c.userId(data[..UAK_LEN]) % USERS;
      if user[newUid].Some? { return Status(Exist); }
      user[newUid] := Some(NewUser(data[..UAK_LEN], data[UAK_LEN..]));
      assert user[..] == s.t[newUid := Some(NewUser(data[..UAK_LEN], data[UAK_LEN..]))];
      SaveUser(disk);
      r := Status(if storageOk then Ok else Internal);
    }

    method ApiPrivateUpdate(data: seq<byte>, disk: Disk) returns (r: Reply)
      requires Valid() && apiUid < USERS && user[apiUid].Some?
      modifies this`accountFile, user
      ensures Valid() && Recorded(SavedFor(r), disk)
      ensures (State(), r) == PrivateUpdate(c, old(State()), apiUid, data)
      ensures ChangesPrivate(c, old(State()), apiUid, data, State(), r)
    {
      hide ChangesPrivate;
      PrivateUpdateSpec(c, State(), apiUid, data);
      ghost var s := State();
      PrivateUpdateKeepsOk(c, s, apiUid, data);
      if |data| != 12 + 32 + PRIVATE_LEN { return Status(Param); }
      if forall i :: 12 <= i < 44 ==> data[i] == 0 { return Status(Param); }
      user[apiUid] := Some(user[apiUid].value.(priv := c.openPrivate(data)));
      assert user[..] == s.t[apiUid := Some(s.t[apiUid].value.(priv := c.openPrivate(data)))];
      SaveUser(disk);
      r := Status(Ok);
    }

    /** api_auth: find the user whose key fits, reject what is stale, record the time. */
    method ApiAuth(raw: seq<byte>, post: bool, now: int) returns (ok: bool)
      requires Valid() && |raw| >= REQ_LEN
      modifies this`apiUid, user
      ensures Valid()
      ensures ok == Auth(c, old(State()).t, raw, post, now).Some?
      ensures ok ==> Auth(c, old(State()).t, raw, post, now) == Some(apiUid)
                     && State() == Stamped(old(State()), apiUid, BinTs(raw))
      ensures !ok ==> State() == old(State())
    {
      hide Unique, NonZero, BinTs, Authenticates, Master, UserOk, Owns;
      ghost var s := State();
      apiUid := 0;
      while apiUid < USERS
        invariant apiUid <= USERS && State() == s
        invariant FirstKey(c, s.t, raw, post, apiUid) == FirstKey(c, s.t, raw, post, 0)
      {
        if user[apiUid].Some? && Authenticates(c, user[apiUid].value, raw, post) { break; }
        apiUid := apiUid + 1;
      }
      if apiUid == USERS { return false; }
      if BinTs(raw) <= user[apiUid].value.lastBinTs { return false; }
      var ahead := BinTs(raw) - (now - TS_BEGIN) * 1000;
      if ahead > TIME_DIFF || ahead < -TIME_DIFF { return false; }
      StampKeepsOk(s, apiUid, BinTs(raw));
      user[apiUid] := Some(user[apiUid].value.(lastBinTs := BinTs(raw)));
      assert user[..] == Stamped(s, apiUid, BinTs(raw)).t;
      ok := true;
    }

    /** conn_api: authenticate, then act on the decrypted command. */
    method ConnApi(ev: Event, disk: Disk) returns (accepted: Option<nat>, r: Reply)
      requires Valid() && EventOk(ev)
      modifies this, user
      ensures Valid() && Recorded(StepSaves(c, old(State()), ev), disk)
      ensures (accepted, State(), r) == Step(c, old(State()), ev)
      ensures Steps(c, old(State()), ev, accepted, State(), r)
    {
      hide Steps, Unique, NonZero, Act, BinTs, SavedFor;
      StepSpec(c, State(), ev);
      var ok := ApiAuth(ev.msg, ev.post, ev.now);
      if !ok { return None, Error; }
      var u := user[apiUid].value;
      var (cmd, data) := Command(c, u, ev);
      accepted := Some(apiUid);
      if ev.post {
        r := Post(cmd, ev, disk);
      } else {
        r := Get(cmd, data, ev, disk);
      }
    }

    /** Stopping right after a request and starting again finds every account as the
        request left it exactly when it was not accepted, or was saved. */
    method ConnApiThenRestart(ev: Event, disk: Disk) returns (r: Reply, t: AccountTable?)
      requires Valid() && EventOk(ev) && Holds(accountFile, user[..])
      modifies this, user
      ensures Valid()
      ensures t != null && t.user[..] == user[..] <==>
        Auth(c, old(State()).t, ev.msg, ev.post, ev.now).None? || (StepSaves(c, old(State()), ev) && disk.open && disk.write)
      ensures t == null <==> StepSaves(c, old(State()), ev) && disk.open && !disk.write
    {
      hide Step, StepSaves, StateOk, Auth, Holds, Loadable, EventOk;
      FileAfterStep(c, State(), ev, accountFile, disk);
      var accepted;
      accepted, r := ConnApi(ev, disk);
      assert user[..] == State().t;
      t := Restart(this);
    }

    method Get(cmd: nat, data: seq<byte>, ev: Event, disk: Disk) returns (r: Reply)
      requires Valid() && apiUid < USERS && user[apiUid].Some? && EventOk(ev) && !ev.post
      requires (cmd, data) == Command(c, user[apiUid].value, ev)
      modifies this`accountFile, this`limits, user
      ensures Valid() && Recorded(Saves(c, old(State()), apiUid, ev), disk)
      ensures (State(), r) == Act(c, old(State()), apiUid, ev)
    {
      if cmd == 1 {
        r := ApiAccountDelete(data, ev.storageOk, disk);
      } else if cmd == 2 {
        r := ApiAccountUpdate(data, disk);
      } else if cmd == 3 {
        r := ApiAddressCreate(data, ev.rnd, disk);
      } else if cmd == 4 {
        r := ApiAddressDelete(data, disk);
      } else if cmd == 10 {
        limits := data[..12];
        r := Status(Ok);
      } else if cmd == 0 || cmd == 7 || cmd == 8 || cmd == 9 {
        r := Information;
      } else if cmd == 6 {
        r := Status(Ok);
      } else {
        r := Status(BadCommand);
      }
    }

    method Post(cmd: nat, ev: Event, disk: Disk) returns (r: Reply)
      requires Valid() && apiUid < USERS && user[apiUid].Some? && EventOk(ev) && ev.post
      requires cmd == Command(c, user[apiUid].value, ev).0
      modifies this`accountFile, user
      ensures Valid() && Recorded(Saves(c, old(State()), apiUid, ev), disk)
      ensures (State(), r) == Act(c, old(State()), apiUid, ev)
    {
      hide Unique, NonZero, BinTs;
      if cmd == 0 || cmd == 5 {
        if |ev.msg| == REQ_LEN { return Continue; }
        var body := c.openBody(user[apiUid].value.uak, BinTs(ev.msg), ev.msg[REQ_LEN..]);
        if body.None? {
          r := Error;
        } else if cmd == 0 {
          r := ApiAccountCreate(body.value, ev.storageOk, disk);
        } else {
          r := ApiPrivateUpdate(body.value, disk);
        }
      } else if cmd == 1 || cmd == 3 {
        r := Information;
      } else {
        r := Error;
      }
    }

    /** A whole run of requests; table and file end as the run on values says. */
    method RunRequests(evs: seq<Event>, disks: seq<Disk>)
      requires Valid() && EventsOk(evs) && |disks| == |evs|
      modifies this, user
      ensures Valid() && State() == Run(c, old(State()), evs)
      ensures accountFile == FileAfter(c, old(State()), evs, old(accountFile), disks)
    {
      hide Step, StepSaves, StateOk, Saved;
      for i := 0 to |evs|
        invariant Valid()
        invariant Run(c, State(), evs[i..]) == Run(c, old(State()), evs)
        invariant FileAfter(c, State(), evs[i..], accountFile, disks[i..]) == FileAfter(c, old(State()), evs, old(accountFile), disks)
      {
        assert evs[i..][1..] == evs[i + 1..] && disks[i..][1..] == disks[i + 1..];
        assert user[..] == State().t;
        var _, _ := ConnApi(evs[i], disks[i]);
      }
    }

    /** Stopping after any run and starting again finds every account as the run left
        it exactly when what its saves left in the file is that table. */
    method RunThenRestart(evs: seq<Event>, disks: seq<Disk>) returns (t: AccountTable?)
      requires Valid() && EventsOk(evs) && |disks| == |evs|
      modifies this, user
      ensures Valid()
      ensures t != null && t.user[..] == user[..] <==>
        Holds(FileAfter(c, old(State()), evs, old(accountFile), disks), Run(c, old(State()), evs).t)
    {
      RunRequests(evs, disks);
      assert user[..] == State().t;
      t := Restart(this);
    }

    lemma {:induction false} SlotIs(u: User, k: Key, i: nat)
      requires UserOk(u) && NoRepeat(Keys(u)) && i < u.addrCount && KeyAt(u, i) == k
      ensures SlotWith(u, k, 0) == i
    {
      var j := SlotWith(u, k, 0);
      assert Keys(u)[i] == k == Keys(u)[j];
    }

    /** mta_getUid. Addresses nobody may use are an error; an address nobody owns,
        or whose owner takes no outside mail, looks unknown only if it is a Shield
        address - a normal one always looks as if it existed. */
    method MtaGetUid(addr32: seq<byte>) returns (r: MtaReply)
      requires Valid() && |addr32| == 10
      ensures var k := Key(AddressHash(c, addr32), addr32[0] >= 128);
        && (r.Invalid? <==> k.hash == 0)
        && (r.Deliver? ==> Owns(user[..], r.uid, k))
        && (r.Unknown? ==> k.shield) && (r.Pretend? ==> !k.shield)
        && (k.hash != 0 && (forall u :: !Owns(user[..], u, k)) ==> r.Unknown? || r.Pretend?)
        && (k.hash != 0 ==> forall u, i :: 0 <= u < USERS && user[u].Some? && 0 <= i < user[u].value.addrCount && KeyAt(user[u].value, i) == k ==>
              r == MtaAnswer(u, user[u].value.addrFlag[i], k.shield))
    {
      var isShield := addr32[0] >= 128;
      var hash := AddressHash(c, addr32);
      if hash == 0 { return Invalid; }
      var uid, f := HashToUid(hash, isShield);
      ghost var k := Key(hash, isShield);
      LookupIsOwner(user[..], k, 0);
      forall u, i | 0 <= u < USERS && user[u].Some? && 0 <= i < user[u].value.addrCount && KeyAt(user[u].value, i) == k
        ensures uid == Some(u) && f == user[u].value.addrFlag[i]
      {
        assert Keys(user[u].value)[i] == k && Owns(user[..], u, k);
        LookupIsOwner(user[..], k, u);
        SlotIs(user[u].value, k, i);
      }
      if uid.None? || f / 2 % 2 == 0 {
        return if isShield then Unknown else Pretend;
      }
      r := Deliver(uid.value, f / 4 % 16 * 4);
    }
  }
}
